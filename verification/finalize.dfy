/** End of stream: the strict parse of the whole buffer wins when it succeeds;
    otherwise the partial record is completed with empty fields, either only
    when at most two fields are missing (the direct client) or always (the
    client behind the server route). */
module Finalize {
  import opened Results
  import opened Text
  import opened Prompt

  /** `!partialStructure[k]`: absent or the empty string. */
  predicate MissingIn(partial: Partial, k: Key) {
    k !in partial || partial[k] == ""
  }

  /** The missing keys from position `i` of the fixed key order on, in that order. */
  function MissingFrom(partial: Partial, i: nat): (r: seq<Key>)
    requires i <= |AllKeys|
    ensures forall k :: k in r <==> i <= Rank(k) && MissingIn(partial, k)
    ensures forall j :: 0 <= j < |r| ==> i <= Rank(r[j])
    ensures forall j, l :: 0 <= j < l < |r| ==> Rank(r[j]) < Rank(r[l])
    decreases |AllKeys| - i
  {
    if i == |AllKeys| then []
    else
      var k := AllKeys[i];
      assert Rank(k) == i;
      (if MissingIn(partial, k) then [k] else []) + MissingFrom(partial, i + 1)
  }

  /** `requiredKeys.filter(k => !partialStructure[k])`: exactly the missing keys,
      each once, in the fixed key order. */
  function MissingKeys(partial: Partial): (r: seq<Key>)
    ensures forall k :: k in r <==> MissingIn(partial, k)
    ensures forall j, l :: 0 <= j < l < |r| ==> Rank(r[j]) < Rank(r[l])
  {
    MissingFrom(partial, 0)
  }

  function Names(ks: seq<Key>): (r: seq<string>)
    ensures |r| == |ks| && forall i :: 0 <= i < |ks| ==> r[i] == Name(ks[i])
  {
    if |ks| == 0 then [] else [Name(ks[0])] + Names(ks[1..])
  }

  /** The error thrown when too much is missing, naming the missing keys. */
  function IncompleteMessage(missing: seq<Key>): string {
    "Generation incomplete. Missing keys: " + Join(Names(missing), ", ")
  }

  /** `{ subject: partial.subject || "", …, ...partial }`: every field observed is
      kept, every other one is empty, so a field of the result is empty exactly
      when its key was missing. */
  function Fallback(partial: Partial): (r: PromptStructure)
    ensures forall k :: k in partial ==> Get(r, k) == partial[k]
    ensures forall k :: Get(r, k) == "" <==> MissingIn(partial, k)
  {
    Merge(Empty, partial)
  }

  /** The direct client's finaliser. A successful parse is returned as is; after a
      failed one the call throws when more than two of the seven fields are
      missing, naming them, and otherwise completes the partial record. */
  function FinalizeStrict(parsed: Option<PromptStructure>, partial: Partial): (r: Result<PromptStructure>)
    ensures parsed.Some? ==> r == Success(parsed.value)
    ensures parsed.None? ==> (r.Failure? <==> |MissingKeys(partial)| > 2)
    ensures r.Failure? ==> r.error == IncompleteMessage(MissingKeys(partial))
    ensures parsed.None? && r.Success? ==> r.value == Fallback(partial)
  {
    if parsed.Some? then Success(parsed.value)
    else
      var missing := MissingKeys(partial);
      if |missing| > 2 then Failure(IncompleteMessage(missing))
      else Success(Fallback(partial))
  }

  /** The route client's finaliser: never throws, whatever is missing. */
  function FinalizeLenient(parsed: Option<PromptStructure>, partial: Partial): (r: PromptStructure)
    ensures parsed.Some? ==> r == parsed.value
    ensures parsed.None? ==> forall k :: Get(r, k) == "" <==> MissingIn(partial, k)
    ensures parsed.None? ==> forall k :: k in partial ==> Get(r, k) == partial[k]
  {
    if parsed.Some? then parsed.value else Fallback(partial)
  }

  /** The two finalisers differ only where the strict one gives up: whenever it
      returns a record, the lenient one returns the same record. */
  lemma StrictRefinesLenient(parsed: Option<PromptStructure>, partial: Partial)
    ensures FinalizeStrict(parsed, partial).Success? ==> FinalizeStrict(parsed, partial).value == FinalizeLenient(parsed, partial)
    ensures FinalizeStrict(parsed, partial).Failure? <==> parsed.None? && |MissingKeys(partial)| > 2
  {
  }

  /** Completing a partial record in which all seven fields of `p` were observed
      gives `p` back; when none of them is empty the strict finaliser returns it. */
  lemma FallbackComplete(p: PromptStructure, partial: Partial)
    requires forall k :: k in partial && partial[k] == Get(p, k)
    ensures Fallback(partial) == p
    ensures (forall k :: Get(p, k) != "") ==> FinalizeStrict(None, partial) == Success(p)
  {
    RecordsEqual(Fallback(partial), p);
    if forall k :: Get(p, k) != "" {
      var missing := MissingKeys(partial);
      if |missing| > 0 {
        assert missing[0] in missing;
      }
    }
  }
}
