/** The workflow of the home page (`src/app/page.tsx`): generating from the
    user's input, regenerating the image of the current record, and the history
    of results. The remote calls are inputs — the expansion's announced partial
    records and its outcome, the image URL or the error — and so are the fresh
    history id and the timestamp. */
module HomePage {
  import opened Results
  import opened Text
  import opened Prompt
  import opened Extractor
  import opened Stream
  import opened Finalize

  /** `HistoryItem`: one generated result. */
  datatype HistoryItem = HistoryItem(id: string, timestamp: int, prompt: string, imageUrl: string, promptData: PromptStructure)

  /** The page's state: the input, the record shown, the workflow state, the image
      shown, and the history, most recent first. */
  datatype Home = Home(userInput: string, promptData: PromptStructure, state: AppState, image: Option<string>, history: seq<HistoryItem>)

  const Initial: Home := Home("", Empty, Idle, None, [])

  /** No request is in flight, and a completed page shows an image. */
  predicate Settled(h: Home) {
    !Busy(h.state) && (h.state == Complete ==> h.image.Some?)
  }

  /** Typing into the input. */
  function SetInput(h: Home, value: string): (r: Home)
    ensures r.userInput == value && r.promptData == h.promptData && r.state == h.state
    ensures r.image == h.image && r.history == h.history
  {
    h.(userInput := value)
  }

  /** The start of `handleGenerate` once past its guard: expanding, with the
      record reset to all-empty fields and the image cleared. */
  function StartGenerate(h: Home): (r: Home)
    ensures r.state == ExpandingPrompt && r.promptData == Empty && r.image.None?
    ensures r.userInput == h.userInput && r.history == h.history
  {
    h.(state := ExpandingPrompt, promptData := Empty, image := None)
  }

  /** The `onUpdate` callback: the fields present in the partial record overwrite
      the shown ones, every other field stays. */
  function ApplyPartial(h: Home, partial: Partial): (r: Home)
    ensures forall k :: Get(r.promptData, k) == if k in partial then partial[k] else Get(h.promptData, k)
    ensures r.state == h.state && r.image == h.image && r.history == h.history && r.userInput == h.userInput
  {
    h.(promptData := Merge(h.promptData, partial))
  }

  function ApplyAll(h: Home, updates: seq<Partial>): (r: Home)
    ensures r == h.(promptData := MergeAll(h.promptData, updates))
  {
    if |updates| == 0 then h else ApplyPartial(ApplyAll(h, updates[..|updates| - 1]), updates[|updates| - 1])
  }

  /** The expansion returned: its record is shown and the image is requested. */
  function ExpansionDone(h: Home, final: PromptStructure): (r: Home)
    ensures r.state == GeneratingImage && r.promptData == final
    ensures r.image == h.image && r.history == h.history && r.userInput == h.userInput
  {
    h.(promptData := final, state := GeneratingImage)
  }

  /** The image arrived: it is shown, the page is complete, and one item holding
      the image, the record it came from and the input is put at the head of the
      history. */
  function ImageDone(h: Home, record: PromptStructure, prompt: string, url: string, id: string, timestamp: int): (r: Home)
    ensures r.state == Complete && r.image == Some(url)
    ensures |r.history| == |h.history| + 1 && r.history[1..] == h.history
    ensures r.history[0] == HistoryItem(id, timestamp, prompt, url, record)
    ensures r.promptData == h.promptData && r.userInput == h.userInput
  {
    h.(image := Some(url), state := Complete, history := [HistoryItem(id, timestamp, prompt, url, record)] + h.history)
  }

  /** Any failure: the state becomes `error` and nothing else changes. */
  function Fail(h: Home): (r: Home)
    ensures r.state == Error && r == h.(state := Error)
  {
    h.(state := Error)
  }

  /** `handleGenerate` from start to end. Whitespace-only input changes nothing.
      Otherwise the page resets, shows the announced partial records as they come,
      then either fails (in `error`, history unchanged) or shows the final record,
      the image, and one new history item in front of the old ones. */
  function Generate(h: Home, expansion: Expansion, image: Result<string>, id: string, timestamp: int): (r: Home)
    ensures Blank(h.userInput) ==> r == h
    ensures !Blank(h.userInput) ==> r.userInput == h.userInput && !Busy(r.state)
    ensures !Blank(h.userInput) && r.state == Error ==> r.history == h.history && r.image.None?
    ensures !Blank(h.userInput) && expansion.result.Failure? ==>
              r.state == Error && r.promptData == MergeAll(Empty, expansion.updates)
    ensures !Blank(h.userInput) && expansion.result.Success? ==> r.promptData == expansion.result.value
    ensures r.state == Complete && !Blank(h.userInput) <==> !Blank(h.userInput) && expansion.result.Success? && image.Success?
    ensures r.state == Complete && !Blank(h.userInput) ==>
              r.image == Some(image.value) && r.history == [HistoryItem(id, timestamp, h.userInput, image.value, expansion.result.value)] + h.history
  {
    if Blank(h.userInput) then h
    else
      var streaming := ApplyAll(StartGenerate(h), expansion.updates);
      if expansion.result.Failure? then Fail(streaming)
      else
        var expanded := ExpansionDone(streaming, expansion.result.value);
        if image.Failure? then Fail(expanded)
        else ImageDone(expanded, expansion.result.value, h.userInput, image.value, id, timestamp)
  }

  /** `handleRegenerate`. Without a subject nothing happens. Otherwise the image of
      the current record is requested; on success it is shown and an item built
      from the current record and input heads the history; on failure only the
      state changes, to `error`. */
  function Regenerate(h: Home, image: Result<string>, id: string, timestamp: int): (r: Home)
    ensures h.promptData.subject == "" ==> r == h
    ensures h.promptData.subject != "" && image.Failure? ==> r == h.(state := Error)
    ensures h.promptData.subject != "" && image.Success? ==>
              && r.state == Complete && r.image == Some(image.value) && r.promptData == h.promptData
              && r.history == [HistoryItem(id, timestamp, h.userInput, image.value, h.promptData)] + h.history
  {
    if h.promptData.subject == "" then h
    else
      var generating := h.(state := GeneratingImage);
      if image.Failure? then Fail(generating)
      else ImageDone(generating, h.promptData, h.userInput, image.value, id, timestamp)
  }

  /** `prev.filter(item => item.id !== id)`. */
  function Without(items: seq<HistoryItem>, id: string): (r: seq<HistoryItem>)
    ensures forall it :: it in r <==> it in items && it.id != id
    ensures |r| <= |items|
  {
    if |items| == 0 then []
    else Without(items[..|items| - 1], id) + (if items[|items| - 1].id != id then [items[|items| - 1]] else [])
  }

  /** Filtering distributes over concatenation, so the kept items stay in their
      relative order. */
  lemma {:induction false} WithoutAppend(a: seq<HistoryItem>, b: seq<HistoryItem>, id: string)
    ensures Without(a + b, id) == Without(a, id) + Without(b, id)
    decreases |b|
  {
    if |b| == 0 {
      assert a + b == a;
    } else {
      var b' := b[..|b| - 1];
      assert (a + b)[..|a + b| - 1] == a + b';
      WithoutAppend(a, b', id);
    }
  }

  /** Deleting twice is deleting once. */
  lemma {:induction false} WithoutTwice(items: seq<HistoryItem>, id: string)
    ensures Without(Without(items, id), id) == Without(items, id)
    decreases |items|
  {
    if |items| > 0 {
      var init := items[..|items| - 1];
      WithoutTwice(init, id);
      WithoutAppend(Without(init, id), if items[|items| - 1].id != id then [items[|items| - 1]] else [], id);
      var tail := if items[|items| - 1].id != id then [items[|items| - 1]] else [];
      assert Without(tail, id) == tail by {
        if |tail| == 1 {
          assert tail[..0] == [];
        }
      }
    }
  }

  /** `handleDeleteHistory`: only the history changes. */
  function Delete(h: Home, id: string): (r: Home)
    ensures r.history == Without(h.history, id)
    ensures r == h.(history := r.history)
  {
    h.(history := Without(h.history, id))
  }

  /** `handleSelectHistory`: the item's record and image are shown and the page is
      complete; the history is unchanged. */
  function Select(h: Home, item: HistoryItem): (r: Home)
    ensures r.promptData == item.promptData && r.image == Some(item.imageUrl) && r.state == Complete
    ensures r.history == h.history && r.userInput == h.userInput
  {
    h.(promptData := item.promptData, image := Some(item.imageUrl), state := Complete)
  }

  /** Every handler, started from a settled page, ends in a settled page. */
  lemma GenerateKeepsSettled(h: Home, expansion: Expansion, image: Result<string>, id: string, timestamp: int)
    requires Settled(h)
    ensures Settled(Generate(h, expansion, image, id, timestamp))
  {
  }

  lemma RegenerateKeepsSettled(h: Home, image: Result<string>, id: string, timestamp: int)
    requires Settled(h)
    ensures Settled(Regenerate(h, image, id, timestamp))
  {
  }

  lemma HistoryKeepsSettled(h: Home, id: string, item: HistoryItem, value: string)
    requires Settled(h)
    ensures Settled(Delete(h, id)) && Settled(Select(h, item)) && Settled(SetInput(h, value))
  {
  }

  /** After a failed expansion the page shows the last announcement merged over
      empty fields. */
  lemma FailedGenerateShowsLastSnapshot(h: Home, expansion: Expansion, image: Result<string>, id: string, timestamp: int)
    requires !Blank(h.userInput) && expansion.result.Failure? && |expansion.updates| > 0
    requires forall i :: 0 < i < |expansion.updates| ==> expansion.updates[i - 1].Keys <= expansion.updates[i].Keys
    ensures Generate(h, expansion, image, id, timestamp).promptData == Merge(Empty, expansion.updates[|expansion.updates| - 1])
  {
    MergeAllSnapshots(Empty, expansion.updates);
  }

  /** When an expansion's stream delivered its chunks and then failed (an error
      reply, a missing body, or an interrupted read), the page still shows what the
      stream revealed: the extraction of the whole text, completed with empty
      fields — the very record the lenient finaliser would have returned. */
  lemma FailedStreamShowsFallback(h: Home, chunks: seq<string>, error: string, image: Result<string>, id: string, timestamp: int)
    requires !Blank(h.userInput)
    ensures Generate(h, Expansion(Notifications(chunks), Failure(error)), image, id, timestamp).promptData
            == Fallback(Extract(Concat(chunks)))
            == FinalizeLenient(None, Extract(Concat(chunks)))
  {
    StreamShowsExtraction(chunks);
  }

  /** The announcements of a stream, merged in turn over empty fields, give the
      extraction of its whole text completed with empty fields. */
  lemma StreamShowsExtraction(chunks: seq<string>)
    ensures MergeAll(Empty, Notifications(chunks)) == Fallback(Extract(Concat(chunks)))
  {
    if |Notifications(chunks)| > 0 {
      AnnouncedStreamShowsLast(chunks);
    } else {
      SilentStreamEmpty(chunks);
      RecordsEqual(Merge(Empty, map[]), Empty);
    }
  }

  /** A stream that announced something shows its last announcement, which is
      the extraction of the whole text. */
  lemma AnnouncedStreamShowsLast(chunks: seq<string>)
    requires |Notifications(chunks)| > 0
    ensures MergeAll(Empty, Notifications(chunks)) == Merge(Empty, Extract(Concat(chunks)))
  {
    var us := Notifications(chunks);
    NotificationsGrow(chunks);
    MergeAllSnapshots(Empty, us);
    ChangesLast(Snapshots(chunks), |chunks|);
    SnapshotAt(chunks, |chunks|);
    assert chunks[..|chunks|] == chunks;
  }
}
