/** The streaming side of `expandPrompt`: chunks are appended to a buffer, the
    extractor is re-run over the whole buffer after every chunk, changed fields
    are written into the running partial record, and a snapshot of that record is
    announced whenever at least one field changed. */
module Stream {
  import opened Text
  import opened Prompt
  import opened Extractor
  import opened Results

  /** `m` adds nothing to `prev`: every key of `m` is already stored with the same value. */
  predicate Within(m: Partial, prev: Partial) {
    forall k :: k in m ==> k in prev && prev[k] == m[k]
  }

  /** Overriding `prev` with `m` leaves it unchanged exactly when `m` adds nothing. */
  lemma OverrideUnchanged(prev: Partial, m: Partial)
    ensures prev + m == prev <==> Within(m, prev)
  {
    if prev + m == prev {
      forall k | k in m ensures k in prev && prev[k] == m[k] {
        assert (prev + m)[k] == m[k];
      }
    }
  }

  /** The `i`-th hit's key has not been assigned during the first `i` steps. */
  lemma {:induction false} WalkFresh<V>(hs: seq<Hit>, vals: seq<V>, n: nat, i: nat)
    requires DistinctKeys(hs) && |vals| == |hs| && n <= i < |hs|
    ensures hs[i].key !in Walk(hs, vals, n)
  {
    if n > 0 {
      WalkFresh(hs, vals, n - 1, i);
      assert hs[n - 1].key != hs[i].key;
    }
  }

  /** One step of the walk on top of a stored record: the stored record gains the
      step's assignment, and the walk still adds nothing exactly when the step's
      value was already stored under its key. */
  lemma WalkStep<V>(prev: map<Key, V>, hs: seq<Hit>, vals: seq<V>, i: nat)
    requires DistinctKeys(hs) && |vals| == |hs| && i < |hs|
    ensures prev + Walk(hs, vals, i + 1) == (prev + Walk(hs, vals, i))[hs[i].key := vals[i]]
    ensures (forall k :: k in Walk(hs, vals, i + 1) ==> k in prev && prev[k] == Walk(hs, vals, i + 1)[k]) <==>
            (forall k :: k in Walk(hs, vals, i) ==> k in prev && prev[k] == Walk(hs, vals, i)[k])
            && hs[i].key in prev && prev[hs[i].key] == vals[i]
  {
    WalkFresh(hs, vals, i, i);
  }

  /** `Extract` is the walk over the sorted found hits. */
  lemma ExtractIsWalk(b: string)
    ensures Consistent(Found(b), |b|)
    ensures Extract(b) == Walk(Sorted(Found(b), |b|), HitValues(b, Sorted(Found(b), |b|)), |Sorted(Found(b), |b|)|)
  {
    FoundConsistent(b);
  }

  /** The dirty-check loop over sorted hits and their cleaned values: a value is
      written only when it differs from the stored one, and `changed` is `hasUpdate`.
      The stored record ends up overridden by the walk, and a change is reported
      exactly when the record is no longer what it was. */
  method Apply(prev: Partial, hs: seq<Hit>, vals: seq<string>) returns (next: Partial, changed: bool)
    requires DistinctKeys(hs) && |vals| == |hs|
    ensures next == prev + Walk(hs, vals, |hs|)
    ensures changed <==> next != prev
  {
    next := prev;
    changed := false;
    var i := 0;
    while i < |hs|
      invariant i <= |hs|
      invariant next == prev + Walk(hs, vals, i)
      invariant changed <==> !Within(Walk(hs, vals, i), prev)
    {
      var key := hs[i].key;
      var v := vals[i];
      WalkStep(prev, hs, vals, i);
      WalkFresh(hs, vals, i, i);
      if !(key in next && next[key] == v) {
        next := next[key := v];
        changed := true;
      }
      i := i + 1;
    }
    OverrideUnchanged(prev, Walk(hs, vals, |hs|));
  }

  /** One chunk's pass: scan the whole buffer, then run the dirty check. The stored
      record ends up overridden by the extraction of the buffer. */
  method Refresh(b: string, prev: Partial) returns (next: Partial, changed: bool)
    ensures next == prev + Extract(b)
    ensures changed <==> next != prev
  {
    ExtractIsWalk(b);
    var hs := Sorted(Found(b), |b|);
    next, changed := Apply(prev, hs, HitValues(b, hs));
  }

  /** The record the stream holds after the first `n` chunks, described without
      any running state: the extraction of the text received so far. */
  function Snapshots(chunks: seq<string>): (r: seq<Partial>)
    ensures |r| == |chunks| + 1
  {
    seq(|chunks| + 1, n requires 0 <= n <= |chunks| => Extract(Concat(chunks[..n])))
  }

  /** The announcements after the first `n` steps of a run of snapshots, described
      without running state: every snapshot that differs from the one before it. */
  function Changes<T(==)>(s: seq<T>, n: nat): seq<T>
    requires n < |s|
  {
    if n == 0 then []
    else Changes(s, n - 1) + (if s[n] != s[n - 1] then [s[n]] else [])
  }

  /** The announcements of a whole stream. */
  function Notifications(chunks: seq<string>): seq<Partial> {
    Changes(Snapshots(chunks), |chunks|)
  }

  lemma ConcatStep(chunks: seq<string>, n: nat)
    requires n < |chunks|
    ensures Concat(chunks[..n + 1]) == Concat(chunks[..n]) + chunks[n]
  {
    assert chunks[..n + 1][..n] == chunks[..n];
  }

  /** Appending the next chunk moves the snapshots one step on. */
  lemma SnapshotStep(chunks: seq<string>, n: nat, buffer: string)
    requires n < |chunks| && buffer == Concat(chunks[..n])
    ensures Concat(chunks[..n + 1]) == buffer + chunks[n]
    ensures Snapshots(chunks)[n] == Extract(buffer)
    ensures Snapshots(chunks)[n + 1] == Extract(buffer + chunks[n])
  {
    ConcatStep(chunks, n);
    SnapshotAt(chunks, n);
    SnapshotAt(chunks, n + 1);
  }

  lemma SnapshotAt(chunks: seq<string>, n: nat)
    requires n <= |chunks|
    ensures Snapshots(chunks)[n] == Extract(Concat(chunks[..n]))
  {
  }

  /** Overriding a record with one that holds all of its keys yields the latter. */
  lemma OverrideCovered<V>(m1: map<Key, V>, m2: map<Key, V>)
    requires m1.Keys <= m2.Keys
    ensures m1 + m2 == m2
  {
  }

  /** One iteration of the chunk loop. With `skipEmpty` an empty chunk is skipped
      before any work (`if (!chunkText) continue`); otherwise it is appended and the
      whole buffer is scanned again. When the running record was the extraction of
      the old buffer it becomes the extraction of the new one, and a change is
      reported exactly when the two extractions differ. */
  method Feed(buffer: string, partial: Partial, chunk: string, skipEmpty: bool)
    returns (buffer': string, partial': Partial, changed: bool)
    requires partial == Extract(buffer)
    ensures buffer' == buffer + chunk
    ensures partial' == Extract(buffer')
    ensures changed <==> Extract(buffer') != Extract(buffer)
  {
    if skipEmpty && chunk == "" {
      assert buffer + chunk == buffer;
      return buffer, partial, false;
    }
    buffer' := buffer + chunk;
    partial', changed := Refresh(buffer', partial);
    ExtractKeysGrow(buffer, chunk);
    OverrideCovered(Extract(buffer), Extract(buffer'));
  }

  /** The whole chunk loop: the buffer is the concatenation of the chunks, the
      running record equals the stateless extraction of that buffer, and the
      announcements are exactly the reference ones, so the dirty check never misses
      nor invents a change. Skipping empty chunks or not makes no difference. */
  method Consume(chunks: seq<string>, skipEmpty: bool) returns (buffer: string, partial: Partial, updates: seq<Partial>)
    ensures buffer == Concat(chunks)
    ensures partial == Extract(buffer)
    ensures updates == Notifications(chunks)
    ensures |updates| > 0 ==> updates[|updates| - 1] == partial
  {
    buffer := "";
    partial := map[];
    updates := [];
    var n := 0;
    ghost var snaps := Snapshots(chunks);
    while n < |chunks|
      invariant n <= |chunks|
      invariant buffer == Concat(chunks[..n])
      invariant partial == snaps[n]
      invariant updates == Changes(snaps, n)
    {
      SnapshotStep(chunks, n, buffer);
      var changed;
      buffer, partial, changed := Feed(buffer, partial, chunks[n], skipEmpty);
      ChangesStep(snaps, n, updates, changed);
      if changed {
        updates := updates + [partial];
      }
      n := n + 1;
    }
    assert chunks[..n] == chunks;
    ChangesLast(snaps, n);
  }

  /** One more step of the announcements: the next snapshot is added when it differs. */
  lemma ChangesStep<T>(s: seq<T>, n: nat, before: seq<T>, changed: bool)
    requires n + 1 < |s| && before == Changes(s, n) && (changed <==> s[n + 1] != s[n])
    ensures Changes(s, n + 1) == if changed then before + [s[n + 1]] else before
  {
  }

  /** The last announcement is the current snapshot. */
  lemma {:induction false} ChangesLast<T>(s: seq<T>, n: nat)
    requires n < |s|
    ensures |Changes(s, n)| > 0 ==> Changes(s, n)[|Changes(s, n)| - 1] == s[n]
  {
    if n > 0 {
      ChangesLast(s, n - 1);
    }
  }

  /** Without any announcement the last snapshot is still the first one. */
  lemma {:induction false} NoChangesConstant<T>(s: seq<T>, n: nat)
    requires n < |s|
    ensures Changes(s, n) == [] ==> s[n] == s[0]
  {
    if n > 0 {
      NoChangesConstant(s, n - 1);
    }
  }

  /** A stream that announces nothing has extracted nothing from its text. */
  lemma SilentStreamEmpty(chunks: seq<string>)
    ensures Notifications(chunks) == [] ==> Extract(Concat(chunks)) == map[]
  {
    if Notifications(chunks) == [] {
      NoChangesConstant(Snapshots(chunks), |chunks|);
      SnapshotAt(chunks, 0);
      SnapshotAt(chunks, |chunks|);
      assert chunks[..0] == [];
      assert chunks[..|chunks|] == chunks;
      ExtractEmpty();
    }
  }

  /** Every announcement differs from the one before it. */
  lemma {:induction false} ChangesDiffer<T>(s: seq<T>, n: nat)
    requires n < |s|
    ensures forall i :: 0 < i < |Changes(s, n)| ==> Changes(s, n)[i - 1] != Changes(s, n)[i]
  {
    if n > 0 {
      ChangesDiffer(s, n - 1);
      ChangesLast(s, n - 1);
    }
  }

  /** When snapshots only gain keys, so do the announcements, and every
      announcement's keys are in the current snapshot. */
  lemma {:induction false} ChangesGrow<V>(s: seq<map<Key, V>>, n: nat)
    requires n < |s|
    requires forall i :: 0 < i < |s| ==> s[i - 1].Keys <= s[i].Keys
    ensures forall i, j :: 0 <= i <= j < |Changes(s, n)| ==> Changes(s, n)[i].Keys <= Changes(s, n)[j].Keys
    ensures forall i :: 0 <= i < |Changes(s, n)| ==> Changes(s, n)[i].Keys <= s[n].Keys
  {
    if n > 0 {
      ChangesGrow(s, n - 1);
    }
  }

  /** The snapshots of a stream only gain keys. */
  lemma SnapshotsGrow(chunks: seq<string>)
    ensures forall i :: 0 < i < |Snapshots(chunks)| ==> Snapshots(chunks)[i - 1].Keys <= Snapshots(chunks)[i].Keys
  {
    forall i | 0 < i < |Snapshots(chunks)| ensures Snapshots(chunks)[i - 1].Keys <= Snapshots(chunks)[i].Keys {
      SnapshotStep(chunks, i - 1, Concat(chunks[..i - 1]));
      ExtractKeysGrow(Concat(chunks[..i - 1]), chunks[i - 1]);
    }
  }

  /** Consecutive announcements of a stream differ. */
  lemma NotificationsDiffer(chunks: seq<string>)
    ensures forall i :: 0 < i < |Notifications(chunks)| ==> Notifications(chunks)[i - 1] != Notifications(chunks)[i]
  {
    ChangesDiffer(Snapshots(chunks), |chunks|);
  }

  /** A key once announced is in every later announcement. */
  lemma NotificationsGrow(chunks: seq<string>)
    ensures forall i, j :: 0 <= i <= j < |Notifications(chunks)| ==> Notifications(chunks)[i].Keys <= Notifications(chunks)[j].Keys
  {
    SnapshotsGrow(chunks);
    ChangesGrow(Snapshots(chunks), |chunks|);
  }

  /** What a streaming transfer delivered: its chunks, already decoded, and the
      message of the error that cut it short, if one did. */
  datatype Transfer = Transfer(chunks: seq<string>, interrupted: Option<string>)
}
