/** String helpers with JavaScript semantics: white space, `trim`, `substring`,
    global two-character `replace`, and concatenation of string lists. */
module Text {

  /** The characters that both the regular-expression class `\s` and
      `String.prototype.trim` treat as white space (WhiteSpace and LineTerminator). */
  predicate IsSpace(c: char) {
    || c == '\t' || c == '\n' || c == '\U{000B}' || c == '\U{000C}' || c == '\r'
    || c == ' ' || c == '\U{00A0}' || c == '\U{1680}'
    || ('\U{2000}' <= c <= '\U{200A}')
    || c == '\U{2028}' || c == '\U{2029}' || c == '\U{202F}' || c == '\U{205F}'
    || c == '\U{3000}' || c == '\U{FEFF}'
  }

  predicate AllSpace(s: string) {
    forall i :: 0 <= i < |s| ==> IsSpace(s[i])
  }

  /** Number of leading white-space characters. */
  function LeadingSpaces(s: string): (n: nat)
    ensures n <= |s|
    ensures AllSpace(s[..n])
    ensures n < |s| ==> !IsSpace(s[n])
  {
    if |s| > 0 && IsSpace(s[0]) then
      var n := 1 + LeadingSpaces(s[1..]);
      assert s[..n] == [s[0]] + s[1..][..n - 1];
      n
    else 0
  }

  /** Length of `s` once its trailing white space is dropped. */
  function WithoutTrailing(s: string): (n: nat)
    ensures n <= |s|
    ensures AllSpace(s[n..])
    ensures n > 0 ==> !IsSpace(s[n - 1])
  {
    if |s| > 0 && IsSpace(s[|s| - 1]) then
      var n := WithoutTrailing(s[..|s| - 1]);
      assert s[n..] == s[..|s| - 1][n..] + [s[|s| - 1]];
      n
    else |s|
  }

  /** `String.prototype.trim`: the infix of `s` left once white space is removed from both ends. */
  function Trim(s: string): (r: string)
    ensures r == [] <==> AllSpace(s)
    ensures r != [] ==> !IsSpace(r[0]) && !IsSpace(r[|r| - 1])
    ensures exists a :: 0 <= a <= |s| - |r| && s[a..a + |r|] == r && AllSpace(s[..a]) && AllSpace(s[a + |r|..])
  {
    var a := LeadingSpaces(s);
    var n := WithoutTrailing(s[a..]);
    var r := s[a..][..n];
    assert s[a..a + |r|] == r;
    assert s[a + |r|..] == s[a..][n..];
    r
  }

  /** JavaScript's `!s.trim()`: the string holds nothing but white space. */
  predicate Blank(s: string) {
    Trim(s) == []
  }

  /** `String.prototype.substring(a, b)` for non-negative offsets: both ends are
      clamped to the length and swapped when given in reverse order. */
  function Substring(s: string, a: nat, b: nat): (r: string)
    ensures |r| <= |s|
    ensures a <= b <= |s| ==> r == s[a..b]
    ensures a <= |s| <= b ==> r == s[a..]
    ensures |s| <= a && |s| <= b ==> r == []
  {
    var x := if a <= |s| then a else |s|;
    var y := if b <= |s| then b else |s|;
    if x <= y then s[x..y] else s[y..x]
  }

  /** The order of the two offsets does not matter: a reversed pair is swapped. */
  lemma SubstringSwap(s: string, a: nat, b: nat)
    ensures Substring(s, a, b) == Substring(s, b, a)
  {
  }

  /** `s.replace(/ab/g, rep)` for a two-character pattern `ab`: a left-to-right scan
      that replaces non-overlapping occurrences. */
  function ReplaceAll(s: string, a: char, b: char, rep: string): (r: string)
    ensures (forall i :: 0 <= i < |s| ==> s[i] != a) ==> r == s
    ensures |rep| <= 2 ==> |r| <= |s|
    decreases |s|
  {
    if |s| < 2 then s
    else if s[0] == a && s[1] == b then rep + ReplaceAll(s[2..], a, b, rep)
    else [s[0]] + ReplaceAll(s[1..], a, b, rep)
  }

  /** A prefix without the pattern's first character is copied unchanged: the scan
      cannot find a match that starts inside it. */
  lemma {:induction false} ReplaceAllSkip(x: string, y: string, a: char, b: char, rep: string)
    requires forall i :: 0 <= i < |x| ==> x[i] != a
    ensures ReplaceAll(x + y, a, b, rep) == x + ReplaceAll(y, a, b, rep)
    decreases |x|
  {
    if |x| == 0 {
      assert x + y == y;
    } else {
      var s := x + y;
      assert s[1..] == x[1..] + y;
      ReplaceAllSkip(x[1..], y, a, b, rep);
      assert x == [x[0]] + x[1..];
      if |s| >= 2 {
        assert s[0] == x[0] != a;
        assert ReplaceAll(s, a, b, rep) == [x[0]] + ReplaceAll(x[1..] + y, a, b, rep);
      } else {
        assert y == [] && x == [x[0]];
        assert ReplaceAll(y, a, b, rep) == [];
      }
    }
  }

  /** The scan replaces the first occurrence of the pattern after a stretch free of
      the pattern's first character, and goes on after it: matches do not overlap. */
  lemma ReplaceAllStep(x: string, y: string, a: char, b: char, rep: string)
    requires forall i :: 0 <= i < |x| ==> x[i] != a
    ensures ReplaceAll(x + [a, b] + y, a, b, rep) == x + rep + ReplaceAll(y, a, b, rep)
  {
    assert x + [a, b] + y == x + ([a, b] + y);
    ReplaceAllSkip(x, [a, b] + y, a, b, rep);
    assert ([a, b] + y)[2..] == y;
  }

  /** The pattern's first character followed by anything but its second is copied,
      and the scan resumes at the very next character. */
  lemma ReplaceAllMiss(c: char, y: string, a: char, b: char, rep: string)
    requires c != b
    ensures ReplaceAll([a, c] + y, a, b, rep) == [a] + ReplaceAll([c] + y, a, b, rep)
  {
    assert ([a, c] + y)[1..] == [c] + y;
  }

  /** Concatenation of a list of strings, in order (`parts.join("")`). */
  function Concat(parts: seq<string>): string {
    if |parts| == 0 then "" else Concat(parts[..|parts| - 1]) + parts[|parts| - 1]
  }

  lemma {:induction false} ConcatAppend(x: seq<string>, y: seq<string>)
    ensures Concat(x + y) == Concat(x) + Concat(y)
    decreases |y|
  {
    if |y| == 0 {
      assert x + y == x;
    } else {
      var y' := y[..|y| - 1];
      assert (x + y)[..|x + y| - 1] == x + y';
      ConcatAppend(x, y');
    }
  }

  /** `items.join(sep)`. */
  function Join(items: seq<string>, sep: string): string {
    if |items| == 0 then ""
    else if |items| == 1 then items[0]
    else items[0] + sep + Join(items[1..], sep)
  }
}
