/** The emphasis tokenizer of the highlighted text and the prompt cards:
    `text.split(/(\*[^*]+\*)/g)` followed by classifying each part as emphasised
    (it starts and ends with `*`, shown without its first and last character) or
    plain (shown verbatim). */
module Emphasis {
  import opened Results
  import opened Text

  /** A whole match of `\*[^*]+\*`: a star, at least one non-star, a star. */
  predicate IsEmphasis(w: string) {
    |w| >= 3 && w[0] == '*' && w[|w| - 1] == '*' && forall i :: 0 < i < |w| - 1 ==> w[i] != '*'
  }

  /** Index of the first `*` at or after `i`, or the length when there is none. */
  function NextStar(s: string, i: nat): (j: nat)
    requires i <= |s|
    ensures i <= j <= |s|
    ensures forall k :: i <= k < j ==> s[k] != '*'
    ensures j < |s| ==> s[j] == '*'
    decreases |s| - i
  {
    if i == |s| || s[i] == '*' then i else NextStar(s, i + 1)
  }

  /** The end of the match of `\*[^*]+\*` anchored at `q`, if any. `[^*]+` stops at
      the next star, so that star has to close the match and no backtracking can
      produce another one. */
  function MatchEnd(s: string, q: nat): Option<nat>
    requires q < |s|
  {
    if s[q] != '*' then None
    else
      var j := NextStar(s, q + 1);
      if q + 1 < j < |s| then Some(j + 1) else None
  }

  /** The anchored matcher finds an end exactly when the text from `q` to it is an
      emphasis, and that end is the only one. */
  lemma MatchEndExactly(s: string, q: nat, e: nat)
    requires q < |s|
    ensures MatchEnd(s, q) == Some(e) <==> q < e <= |s| && IsEmphasis(s[q..e])
  {
    if q < e <= |s| && IsEmphasis(s[q..e]) {
      var j := NextStar(s, q + 1);
      assert forall k :: q < k < e - 1 ==> s[k] == s[q..e][k - q];
      assert s[e - 1] == s[q..e][e - 1 - q];
      assert j == e - 1;
    }
  }

  /** No match starts anywhere in `w`. */
  predicate NoMatch(w: string) {
    forall q :: 0 <= q < |w| ==> MatchEnd(w, q).None?
  }

  /** No match starts in `s[p..q]` (the positions the splitter has stepped over). */
  predicate NoMatchBetween(s: string, p: nat, q: nat)
    requires p <= q <= |s|
  {
    forall k :: p <= k < q ==> MatchEnd(s, k).None?
  }

  /** A window ending in a star, or at the end of the text, sees the same matches
      as the whole text at every position before its last one. */
  lemma MatchEndWindow(s: string, a: nat, b: nat, q: nat)
    requires a <= q && b <= |s|
    requires (q + 1 < b && s[b - 1] == '*') || (q < b && b == |s|)
    ensures MatchEnd(s[a..b], q - a).Some? <==> MatchEnd(s, q).Some?
  {
    var w := s[a..b];
    if s[q] == '*' {
      var j := NextStar(s, q + 1);
      var jw := NextStar(w, q - a + 1);
      assert forall k :: q - a + 1 <= k < |w| ==> w[k] == s[k + a];
      assert jw + a == j;
    }
  }

  /** Stepping past a position without a match keeps the splitter's invariant. */
  lemma NoMatchStep(s: string, p: nat, q: nat)
    requires p <= q < |s| && NoMatchBetween(s, p, q) && MatchEnd(s, q).None?
    ensures NoMatchBetween(s, p, q + 1)
  {
  }

  /** The separator that opens the next part of a split: the emphasis after an
      unmatched part starts with `*`, and the last part has nothing after it. */
  function Follow(r: seq<string>, i: nat): string {
    if i + 1 < |r| then "*" else ""
  }

  /** The parts of a split: unmatched text and whole matches alternate, starting
      and ending with unmatched text (possibly empty); every captured part is an
      emphasis, and no unmatched part, together with the star that opens the next
      emphasis, contains a match, so the matches are the leftmost ones. */
  predicate WellSplit(r: seq<string>) {
    && |r| % 2 == 1
    && (forall i :: 0 <= i < |r| && i % 2 == 1 ==> IsEmphasis(r[i]))
    && (forall i :: 0 <= i < |r| && i % 2 == 0 ==> NoMatch(r[i] + Follow(r, i)))
  }

  /** The unmatched text between `p` and the match at `q`, together with the star
      that opens that match, contains no match. */
  lemma GapHasNoMatch(s: string, p: nat, q: nat)
    requires p <= q < |s| && s[q] == '*' && NoMatchBetween(s, p, q)
    ensures NoMatch(s[p..q] + "*")
  {
    var w := s[p..q + 1];
    assert s[p..q] + "*" == w;
    forall k | 0 <= k < q - p
      ensures MatchEnd(w, k).None?
    {
      MatchEndWindow(s, p, q + 1, p + k);
    }
    assert NextStar(w, |w|) == |w|;
  }

  /** The text after the last match contains no match. */
  lemma TailHasNoMatch(s: string, p: nat)
    requires p <= |s| && NoMatchBetween(s, p, |s|)
    ensures NoMatch(s[p..] + "")
  {
    var w := s[p..|s|];
    assert s[p..] + "" == w;
    forall k | 0 <= k < |s| - p
      ensures MatchEnd(w, k).None?
    {
      MatchEndWindow(s, p, |s|, p + k);
    }
  }

  lemma ConcatPair(a: string, b: string, rest: seq<string>)
    ensures Concat([a, b] + rest) == a + b + Concat(rest)
  {
    ConcatAppend([a, b], rest);
    assert [a, b][..1] == [a];
    assert Concat([a]) == a by {
      assert [a][..0] == [];
    }
  }

  /** The split algorithm for a capture-group separator that cannot match the
      empty string: from the end `p` of the last match, try an anchored match at
      each position `q` in turn; on a match, emit the unmatched text and the
      capture and continue after the match; at the end emit the remaining text. */
  function SplitFrom(s: string, p: nat, q: nat): (r: seq<string>)
    requires p <= q <= |s| && NoMatchBetween(s, p, q)
    ensures Concat(r) == s[p..]
    ensures WellSplit(r)
    decreases |s| - q
  {
    if q == |s| then
      TailHasNoMatch(s, p);
      assert Concat([s[p..]]) == s[p..] by {
        assert [s[p..]][..0] == [];
      }
      [s[p..]]
    else
      match MatchEnd(s, q)
      case None =>
        NoMatchStep(s, p, q);
        SplitFrom(s, p, q + 1)
      case Some(e) =>
        MatchEndExactly(s, q, e);
        var rest := SplitFrom(s, e, e);
        PrependMatch(s, p, q, e, rest);
        [s[p..q], s[q..e]] + rest
  }

  /** A gap without matches and the match that ends it, put in front of a split of
      the rest of the text, give a split of the text from the gap on. */
  lemma PrependMatch(s: string, p: nat, q: nat, e: nat, rest: seq<string>)
    requires p <= q < e <= |s| && s[q] == '*' && NoMatchBetween(s, p, q) && IsEmphasis(s[q..e])
    requires Concat(rest) == s[e..] && WellSplit(rest)
    ensures Concat([s[p..q], s[q..e]] + rest) == s[p..]
    ensures WellSplit([s[p..q], s[q..e]] + rest)
  {
    ConcatPair(s[p..q], s[q..e], rest);
    assert s[p..] == s[p..q] + s[q..e] + s[e..];
    GapHasNoMatch(s, p, q);
    PrependWellSplit(s[p..q], s[q..e], rest);
  }

  lemma PrependWellSplit(gap: string, m: string, rest: seq<string>)
    requires NoMatch(gap + "*") && IsEmphasis(m) && WellSplit(rest)
    ensures WellSplit([gap, m] + rest)
  {
    var r := [gap, m] + rest;
    forall i | 0 <= i < |r| && i % 2 == 1
      ensures IsEmphasis(r[i])
    {
      if i >= 2 {
        assert r[i] == rest[i - 2];
      }
    }
    forall i | 0 <= i < |r| && i % 2 == 0
      ensures NoMatch(r[i] + Follow(r, i))
    {
      if i >= 2 {
        assert r[i] == rest[i - 2] && Follow(r, i) == Follow(rest, i - 2);
      }
    }
  }

  /** `text.split(/(\*[^*]+\*)/g)`: the parts concatenate back to the text, and
      they are the alternation of unmatched text and leftmost matches. */
  function Split(s: string): (r: seq<string>)
    ensures Concat(r) == s
    ensures WellSplit(r)
  {
    SplitFrom(s, 0, 0)
  }

  /** A displayed segment: emphasised or plain, with the text shown. */
  datatype Segment = Emph(text: string) | Plain(text: string)

  /** `part.startsWith('*') && part.endsWith('*')`. */
  predicate Starred(part: string) {
    |part| > 0 && part[0] == '*' && part[|part| - 1] == '*'
  }

  /** `part.slice(1, -1)`: the part without its first and last character, and
      empty when the part is shorter than two characters. */
  function Inner(part: string): (r: string)
    ensures |part| >= 2 ==> part == [part[0]] + r + [part[|part| - 1]]
    ensures |part| < 2 ==> r == ""
  {
    if |part| >= 2 then part[1..|part| - 1] else ""
  }

  /** An emphasised part shows its text without the outer stars; any other part
      shows verbatim. */
  function Classify(part: string): (g: Segment)
    ensures g.Emph? <==> Starred(part)
    ensures g.Plain? ==> g.text == part
    ensures g.Emph? && |part| >= 2 ==> part == "*" + g.text + "*"
    ensures g.Emph? && |part| < 2 ==> g.text == ""
  {
    if Starred(part) then Emph(Inner(part)) else Plain(part)
  }

  function ClassifyAll(parts: seq<string>): (r: seq<Segment>)
    ensures |r| == |parts| && forall i :: 0 <= i < |parts| ==> r[i] == Classify(parts[i])
  {
    if |parts| == 0 then [] else [Classify(parts[0])] + ClassifyAll(parts[1..])
  }

  /** `HighlightedText`: nothing for an empty text, otherwise one segment per part
      of the split. */
  function Render(text: string): (r: Option<seq<Segment>>)
    ensures r.None? <==> text == ""
    ensures r.Some? ==> |r.value| == |Split(text)|
  {
    if text == "" then None else Some(ClassifyAll(Split(text)))
  }

  /** The text a segment stands for, its stars put back. */
  function Source(g: Segment): string {
    match g
    case Emph(t) => "*" + t + "*"
    case Plain(t) => t
  }

  /** A captured part is shown emphasised, and putting its stars back around the
      shown text gives the part again. */
  lemma CapturedShownEmphasised(text: string, i: nat)
    requires text != "" && i < |Split(text)| && i % 2 == 1
    ensures Render(text).value[i].Emph?
    ensures Source(Render(text).value[i]) == Split(text)[i]
    ensures |Render(text).value[i].text| > 0
  {
    var part := Split(text)[i];
    assert IsEmphasis(part);
    assert part == "*" + part[1..|part| - 1] + "*";
  }

  /** An unmatched part is shown emphasised only when it is a non-empty run of
      stars, and then shows that run without its two outer stars. */
  lemma UnmatchedShownEmphasised(text: string, i: nat)
    requires text != "" && i < |Split(text)| && i % 2 == 0
    ensures Render(text).value[i].Emph? <==> |Split(text)[i]| > 0 && forall k :: 0 <= k < |Split(text)[i]| ==> Split(text)[i][k] == '*'
    ensures Render(text).value[i].Plain? ==> Render(text).value[i].text == Split(text)[i]
    ensures Render(text).value[i].Emph? ==> Render(text).value[i].text == Inner(Split(text)[i])
  {
    var r := Split(text);
    var part := r[i];
    if Starred(part) {
      var w := part + Follow(r, i);
      assert NoMatch(w);
      forall k | 0 <= k < |part|
        ensures part[k] == '*'
      {
        AllStars(w, |part|, k);
      }
    }
  }

  /** In a text without a match whose first `n` characters start and end with a
      star, each of those characters is a star. */
  lemma {:induction false} AllStars(w: string, n: nat, k: nat)
    requires 0 < n <= |w| && w[0] == '*' && w[n - 1] == '*' && NoMatch(w) && k < n
    ensures w[k] == '*'
    decreases k
  {
    if k > 0 {
      AllStars(w, n, k - 1);
      assert MatchEnd(w, k - 1).None?;
      var j := NextStar(w, k);
      assert j <= n - 1;
    }
  }
}
