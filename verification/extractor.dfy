/** The partial-JSON field extractor shared by both `expandPrompt` implementations:
    a stateless scan of the whole accumulated buffer that yields a best-effort
    string for every key whose opening `"key": "` has arrived. */
module Extractor {
  import opened Results
  import opened Text
  import opened Prompt

  /** `"name"`: the quoted property name that opens a key pattern. */
  function QuotedName(k: Key): string {
    ['"'] + Name(k) + ['"']
  }

  /** A quoted name as the scan relies on it: quotes at both ends and nowhere
      else, and a first letter that is neither white space nor a colon. */
  predicate WellQuoted(q: string) {
    && |q| >= 4 && q[0] == '"' && q[|q| - 1] == '"'
    && (forall i :: 0 < i < |q| - 1 ==> q[i] != '"')
    && !IsSpace(q[1]) && q[1] != ':'
  }

  lemma QuotedNameWellQuoted(k: Key)
    ensures WellQuoted(QuotedName(k))
  {
    var q := QuotedName(k);
    forall i | 0 < i < |q| - 1 ensures q[i] != '"' {
      assert q[i] == Name(k)[i - 1];
    }
  }

  /** Two different keys already differ at the first or third letter of their names. */
  lemma QuotedNamesDiffer(k1: Key, k2: Key)
    requires k1 != k2
    ensures |QuotedName(k1)| >= 4 && |QuotedName(k2)| >= 4
    ensures QuotedName(k1)[1] != QuotedName(k2)[1] || QuotedName(k1)[3] != QuotedName(k2)[3]
  {
  }

  /** `p` occurs in `b` at offset `i`. */
  predicate PrefixAt(p: string, b: string, i: nat) {
    i + |p| <= |b| && b[i..i + |p|] == p
  }

  /** The greedy `\s*`: the first offset at or after `j` that is not white space. */
  function SkipSpaces(b: string, j: nat): (r: nat)
    requires j <= |b|
    ensures j <= r <= |b|
    ensures forall x :: j <= x < r ==> IsSpace(b[x])
    ensures r < |b| ==> !IsSpace(b[r])
    decreases |b| - j
  {
    if j < |b| && IsSpace(b[j]) then SkipSpaces(b, j + 1) else j
  }

  /** The run of white space starting at `j` is determined by where it stops. */
  lemma SkipSpacesAt(b: string, j: nat, m: nat)
    requires j <= m < |b|
    requires forall x :: j <= x < m ==> IsSpace(b[x])
    requires !IsSpace(b[m])
    ensures SkipSpaces(b, j) == m
  {
  }

  /** What the text covered by a match looks like, offset by offset. */
  ghost predicate Shape(b: string, i: nat, q: string, e: nat) {
    && i + |q| + 2 <= e <= |b|
    && PrefixAt(q, b, i)
    && b[e - 1] == '"'
    && (forall x :: i + |q| <= x < e - 1 ==> IsSpace(b[x]) || b[x] == ':')
  }

  /** The regular expression `"name"\s*:\s*"` (with `q` the quoted name) tried at
      offset `i`; on a match, the offset just past its opening value quote
      (`match.index + match[0].length`). */
  function MatchAt(b: string, i: nat, q: string): (r: Option<nat>)
    ensures r.Some? ==> Shape(b, i, q, r.value)
  {
    if !PrefixAt(q, b, i) then None
    else
      var c := SkipSpaces(b, i + |q|);
      if c < |b| && b[c] == ':' then
        var o := SkipSpaces(b, c + 1);
        if o < |b| && b[o] == '"' then Some(o + 1) else None
      else None
  }

  /** The key pattern written out: quoted name, white space, colon, white space, quote. */
  function Pattern(q: string, w1: string, w2: string): string {
    q + w1 + ":" + w2 + "\""
  }

  ghost predicate PatternAt(b: string, i: nat, q: string, w1: string, w2: string) {
    AllSpace(w1) && AllSpace(w2) && PrefixAt(Pattern(q, w1, w2), b, i)
  }

  /** Every match of `MatchAt` is an occurrence of the key pattern ... */
  lemma MatchAtSound(b: string, i: nat, q: string)
    requires MatchAt(b, i, q).Some?
    ensures exists w1, w2 :: PatternAt(b, i, q, w1, w2) && MatchAt(b, i, q).value == i + |Pattern(q, w1, w2)|
  {
    var c := SkipSpaces(b, i + |q|);
    var o := SkipSpaces(b, c + 1);
    PatternFromScan(b, i, q, c, o);
    assert PatternAt(b, i, q, b[i + |q|..c], b[c + 1..o]);
  }

  /** A quoted name, white space up to a colon at `c`, white space up to a quote
      at `o`: the key pattern with those two runs of white space. */
  lemma PatternFromScan(b: string, i: nat, q: string, c: nat, o: nat)
    requires PrefixAt(q, b, i) && i + |q| <= c < o < |b| && b[c] == ':' && b[o] == '"'
    requires forall x :: i + |q| <= x < c ==> IsSpace(b[x])
    requires forall x :: c + 1 <= x < o ==> IsSpace(b[x])
    ensures PatternAt(b, i, q, b[i + |q|..c], b[c + 1..o])
    ensures |Pattern(q, b[i + |q|..c], b[c + 1..o])| == o + 1 - i
  {
    var w1 := b[i + |q|..c];
    var w2 := b[c + 1..o];
    SliceParts(b, i, i + |q|, c, o);
    assert b[i..o + 1] == Pattern(q, w1, w2);
    assert AllSpace(w1) by {
      forall x | 0 <= x < |w1| ensures IsSpace(w1[x]) {
        assert w1[x] == b[i + |q| + x];
      }
    }
    assert AllSpace(w2) by {
      forall x | 0 <= x < |w2| ensures IsSpace(w2[x]) {
        assert w2[x] == b[c + 1 + x];
      }
    }
  }

  /** The text from `i` to just past `o`, cut at `j`, at the single character `c`
      and at the single character `o`. */
  lemma SliceParts(b: string, i: nat, j: nat, c: nat, o: nat)
    requires i <= j <= c < o < |b|
    ensures b[i..o + 1] == b[i..j] + b[j..c] + [b[c]] + b[c + 1..o] + [b[o]]
  {
  }

  /** ... and every occurrence of the key pattern is found by `MatchAt`, which
      returns the offset just past it. */
  lemma MatchAtComplete(b: string, i: nat, q: string, w1: string, w2: string)
    requires PatternAt(b, i, q, w1, w2)
    ensures MatchAt(b, i, q) == Some(i + |Pattern(q, w1, w2)|)
  {
    var p := Pattern(q, w1, w2);
    var c := i + |q| + |w1|;
    var o := c + 1 + |w2|;
    assert b[i..i + |p|] == p;
    assert b[i..i + |q|] == p[..|q|];
    forall x | i + |q| <= x < c ensures IsSpace(b[x]) {
      assert b[x] == p[x - i] == w1[x - i - |q|];
    }
    assert b[c] == p[c - i] == ':';
    SkipSpacesAt(b, i + |q|, c);
    forall x | c + 1 <= x < o ensures IsSpace(b[x]) {
      assert b[x] == p[x - i] == w2[x - c - 1];
    }
    assert b[o] == p[o - i] == '"';
    SkipSpacesAt(b, c + 1, o);
  }

  /** A match depends only on the text it covers. */
  lemma MatchAtAgree(x: string, y: string, i: nat, q: string, e: nat)
    requires MatchAt(x, i, q) == Some(e)
    requires e <= |y| && x[..e] == y[..e]
    ensures MatchAt(y, i, q) == Some(e)
  {
    forall z | 0 <= z < e ensures x[z] == y[z] {
      assert x[..e][z] == y[..e][z];
    }
    assert y[i..i + |q|] == x[i..i + |q|];
    var c := SkipSpaces(x, i + |q|);
    var o := SkipSpaces(x, c + 1);
    SkipSpacesAt(y, i + |q|, c);
    SkipSpacesAt(y, c + 1, o);
  }

  /** One occurrence of a key pattern: `start` is `match.index`, `contentStart`
      the offset just past the opening value quote. */
  datatype Hit = Hit(key: Key, start: nat, contentStart: nat)

  /** The first match of the quoted name `q` at or after offset `i`. */
  function FindFrom(b: string, q: string, i: nat): (r: Option<(nat, nat)>)
    ensures r.Some? ==> i <= r.value.0 && MatchAt(b, r.value.0, q) == Some(r.value.1)
    ensures r.Some? ==> forall j: nat :: i <= j < r.value.0 ==> MatchAt(b, j, q).None?
    ensures r.None? ==> forall j: nat :: i <= j ==> MatchAt(b, j, q).None?
    decreases if i <= |b| then |b| - i else 0
  {
    if i >= |b| then None
    else match MatchAt(b, i, q)
      case Some(e) => Some((i, e))
      case None => FindFrom(b, q, i + 1)
  }

  /** `accumulatedText.match(new RegExp(keyPattern))`: the first occurrence of the
      key pattern of `k`, or nothing when the pattern does not occur at all. */
  function Locate(b: string, k: Key): (r: Option<Hit>)
    ensures r.None? <==> forall j: nat :: MatchAt(b, j, QuotedName(k)).None?
    ensures r.Some? ==> r.value.key == k && MatchAt(b, r.value.start, QuotedName(k)) == Some(r.value.contentStart)
    ensures r.Some? ==> forall j: nat :: j < r.value.start ==> MatchAt(b, j, QuotedName(k)).None?
    ensures r.Some? ==> r.value.start < r.value.contentStart <= |b|
  {
    match FindFrom(b, QuotedName(k), 0)
    case Some((st, cs)) => Some(Hit(k, st, cs))
    case None => None
  }

  /** Matches of two different keys never start at the same offset. */
  lemma StartsDiffer(b: string, k1: Key, k2: Key)
    requires k1 != k2
    ensures Locate(b, k1).Some? && Locate(b, k2).Some? ==> Locate(b, k1).value.start != Locate(b, k2).value.start
  {
    if Locate(b, k1).Some? && Locate(b, k2).Some? {
      var s1 := Locate(b, k1).value.start;
      var s2 := Locate(b, k2).value.start;
      QuotedNamesDiffer(k1, k2);
      var q1 := QuotedName(k1);
      var q2 := QuotedName(k2);
      if s1 == s2 {
        PrefixesAgree(b, s1, q1, q2, 1);
        PrefixesAgree(b, s1, q1, q2, 3);
      }
    }
  }

  /** Two texts found at the same offset agree wherever both are defined. */
  lemma PrefixesAgree(b: string, s: nat, q1: string, q2: string, x: nat)
    requires PrefixAt(q1, b, s) && PrefixAt(q2, b, s)
    requires x < |q1| && x < |q2|
    ensures q1[x] == q2[x]
  {
    assert q1[x] == b[s..s + |q1|][x] == b[s + x] == b[s..s + |q2|][x];
  }

  /** A first match stays the first match when text is appended: the pattern of
      a well-quoted name cannot overlap an earlier occurrence of itself. */
  lemma FirstMatchStable(b: string, c: string, q: string, st: nat, cs: nat)
    requires WellQuoted(q)
    requires MatchAt(b, st, q) == Some(cs)
    requires forall j: nat :: j < st ==> MatchAt(b, j, q).None?
    ensures MatchAt(b + c, st, q) == Some(cs)
    ensures forall j: nat :: j < st ==> MatchAt(b + c, j, q).None?
  {
    var bc := b + c;
    assert bc[..cs] == b[..cs];
    MatchAtAgree(b, bc, st, q, cs);
    forall j: nat | j < st ensures MatchAt(bc, j, q).None? {
      if MatchAt(bc, j, q).Some? {
        var e := MatchAt(bc, j, q).value;
        if e <= |b| {
          assert bc[..e] == b[..e];
          MatchAtAgree(bc, b, j, q, e);
        } else {
          // The earlier match would run past the end of `b`, so it covers the
          // opening quote at `st`: that quote can only close its name, and then
          // the next character would be white space or a colon.
        }
      }
    }
  }

  /** Appending text never moves nor removes a key that was already found. */
  lemma LocateStable(b: string, c: string, k: Key)
    requires Locate(b, k).Some?
    ensures Locate(b + c, k) == Locate(b, k)
  {
    var h := Locate(b, k).value;
    QuotedNameWellQuoted(k);
    FirstMatchStable(b, c, QuotedName(k), h.start, h.contentStart);
    var h' := Locate(b + c, k).value;
    assert h'.start == h.start;
  }

  /** The first match of every key that occurs in `b` (step 1 of the scan). */
  function Found(b: string): (f: map<Key, Hit>)
    ensures forall k :: k in f <==> Locate(b, k).Some?
    ensures forall k :: k in f ==> Locate(b, k) == Some(f[k])
  {
    map k | k in AllKeys && Locate(b, k).Some? :: Locate(b, k).value
  }

  /** What the rest of the scan relies on about the found hits: each is filed
      under its own key, lies inside the buffer, and no two share an offset. */
  ghost predicate Consistent(f: map<Key, Hit>, len: nat) {
    && Keyed(f)
    && (forall k :: k in f ==> f[k].start < len)
    && (forall k1, k2 :: k1 in f && k2 in f && k1 != k2 ==> f[k1].start != f[k2].start)
  }

  /** Every hit is filed under its own key. */
  ghost predicate Keyed(f: map<Key, Hit>) {
    forall k :: k in f ==> f[k].key == k
  }

  lemma FoundConsistent(b: string)
    ensures Consistent(Found(b), |b|)
  {
    var f := Found(b);
    forall k1, k2 | k1 in f && k2 in f && k1 != k2 ensures f[k1].start != f[k2].start {
      StartsDiffer(b, k1, k2);
    }
  }

  /** The hits of the keys in `ks` that were found, in the order of `ks`. */
  function DiscoverAmong(f: map<Key, Hit>, ks: seq<Key>): (r: seq<Hit>)
    requires Keyed(f)
    ensures forall h :: h in r ==> h.key in ks && h.key in f && f[h.key] == h
    ensures forall k :: k in ks && k in f ==> f[k] in r
  {
    if |ks| == 0 then []
    else
      var rest := DiscoverAmong(f, ks[1..]);
      if ks[0] in f then [f[ks[0]]] + rest else rest
  }

  /** Hits whose offsets are pairwise distinct. */
  predicate DistinctStarts(hs: seq<Hit>) {
    forall i, j :: 0 <= i < |hs| && 0 <= j < |hs| && i != j ==> hs[i].start != hs[j].start
  }

  predicate DistinctKeys(hs: seq<Hit>) {
    forall i, j :: 0 <= i < |hs| && 0 <= j < |hs| && i != j ==> hs[i].key != hs[j].key
  }

  predicate Ascending(hs: seq<Hit>) {
    forall i, j :: 0 <= i < j < |hs| ==> hs[i].start < hs[j].start
  }

  lemma {:induction false} DiscoverDistinct(f: map<Key, Hit>, len: nat, ks: seq<Key>)
    requires Consistent(f, len)
    requires forall i, j :: 0 <= i < j < |ks| ==> ks[i] != ks[j]
    ensures DistinctStarts(DiscoverAmong(f, ks))
  {
    if |ks| > 0 {
      var rest := DiscoverAmong(f, ks[1..]);
      DiscoverDistinct(f, len, ks[1..]);
      if ks[0] in f {
        var r := DiscoverAmong(f, ks);
        assert r == [f[ks[0]]] + rest;
        forall j | 0 <= j < |rest| ensures rest[j].start != r[0].start {
          assert rest[j] in rest;
          assert rest[j].key in ks[1..];
        }
      }
    }
  }

  /** Inserting one hit into an ascending list. */
  function InsertByStart(h: Hit, hs: seq<Hit>): (r: seq<Hit>)
    requires Ascending(hs)
    requires forall x :: x in hs ==> x.start != h.start
    ensures Ascending(r) && |r| == |hs| + 1
    ensures forall x :: x in r <==> x == h || x in hs
  {
    if |hs| == 0 then [h]
    else if h.start < hs[0].start then [h] + hs
    else
      var tail := InsertByStart(h, hs[1..]);
      assert forall x :: x in hs[1..] ==> x in hs && hs[0].start < x.start;
      assert forall x :: x in tail ==> hs[0].start < x.start;
      [hs[0]] + tail
  }

  /** `keyIndices.sort((a, b) => a.start - b.start)`. The offsets are pairwise
      distinct, so every sorting algorithm yields this same order. */
  function SortByStart(hs: seq<Hit>): (r: seq<Hit>)
    requires DistinctStarts(hs)
    ensures Ascending(r) && |r| == |hs|
    ensures forall x :: x in r <==> x in hs
  {
    if |hs| == 0 then []
    else
      var tail := SortByStart(hs[1..]);
      assert forall x :: x in hs[1..] ==> x.start != hs[0].start by {
        forall x | x in hs[1..] ensures x.start != hs[0].start {
          var j :| 0 <= j < |hs[1..]| && hs[1..][j] == x;
          assert hs[j + 1] == x;
        }
      }
      InsertByStart(hs[0], tail)
  }

  /** `hs` lists every found hit exactly once, by ascending offset. */
  ghost predicate OrderedHits(f: map<Key, Hit>, hs: seq<Hit>) {
    && Ascending(hs) && DistinctKeys(hs)
    && (forall h :: h in hs ==> h.key in f && f[h.key] == h)
    && (forall k :: k in f ==> f[k] in hs)
  }

  /** Step 2 of the scan: the found hits by ascending match offset. */
  function Sorted(f: map<Key, Hit>, len: nat): (r: seq<Hit>)
    requires Consistent(f, len)
    ensures OrderedHits(f, r)
  {
    var hs := DiscoverAmong(f, AllKeys);
    DiscoverDistinct(f, len, AllKeys);
    var r := SortByStart(hs);
    assert forall k :: k in AllKeys by {
      forall k ensures k in AllKeys { assert AllKeys[Rank(k)] == k; }
    }
    assert DistinctKeys(r) by {
      forall i, j | 0 <= i < |r| && 0 <= j < |r| && i != j ensures r[i].key != r[j].key {
        assert r[i] in r && r[j] in r;
      }
    }
    r
  }

  /** `rawContent[j]` is a double quote whose predecessor is not a backslash. */
  predicate IsClosingQuote(raw: string, j: nat)
    requires j < |raw|
  {
    raw[j] == '"' && (j == 0 || raw[j - 1] != '\\')
  }

  function ClosingQuoteFrom(raw: string, j: nat): (r: Option<nat>)
    requires j <= |raw|
    ensures r.Some? ==> j <= r.value < |raw| && IsClosingQuote(raw, r.value)
    ensures r.Some? ==> forall x :: j <= x < r.value ==> !IsClosingQuote(raw, x)
    ensures r.None? ==> forall x :: j <= x < |raw| ==> !IsClosingQuote(raw, x)
    decreases |raw| - j
  {
    if j == |raw| then None
    else if IsClosingQuote(raw, j) then Some(j)
    else ClosingQuoteFrom(raw, j + 1)
  }

  /** Step 3: the value ends at the first quote not preceded by a backslash; when no
      such quote has arrived yet the whole span is the value (live reveal). Only the
      single preceding character is inspected. */
  function CutAtClosingQuote(raw: string): (r: string)
    ensures (exists j :: 0 <= j < |raw| && IsClosingQuote(raw, j)) ==>
              |r| < |raw| && r == raw[..|r|] && IsClosingQuote(raw, |r|)
              && forall x :: 0 <= x < |r| ==> !IsClosingQuote(raw, x)
    ensures (forall j :: 0 <= j < |raw| ==> !IsClosingQuote(raw, j)) ==> r == raw
  {
    match ClosingQuoteFrom(raw, 0)
    case Some(j) => raw[..j]
    case None => raw
  }

  /** Step 4: replace every `\"` by `"`, then every `\n` by a newline, then every `\\`
      by `\`, as three separate passes. */
  function Unescape(s: string): (r: string)
    ensures (forall i :: 0 <= i < |s| ==> s[i] != '\\') ==> r == s
    ensures |r| <= |s|
  {
    var s1 := ReplaceAll(s, '\\', '"', "\"");
    var s2 := ReplaceAll(s1, '\\', 'n', "\n");
    ReplaceAll(s2, '\\', '\\', "\\")
  }

  /** The displayed value of a raw span: cut at the closing quote, then unescaped.
      It is never longer than the span, and a span without quotes or backslashes is
      shown as it is. */
  function Clean(raw: string): (r: string)
    ensures |r| <= |raw|
    ensures (forall i :: 0 <= i < |raw| ==> raw[i] != '\\' && raw[i] != '"') ==> r == raw
  {
    Unescape(CutAtClosingQuote(raw))
  }

  /** The value of hit `h` whose raw span ends at `end`: the text from the content
      start to `end`, read backwards when the next match starts before the content
      start (`substring` swaps a reversed span), then cleaned. */
  function ValueAt(b: string, h: Hit, end: nat): (r: string)
    ensures h.contentStart <= end <= |b| ==> r == Clean(b[h.contentStart..end])
    ensures end < h.contentStart <= |b| ==> r == Clean(b[end..h.contentStart])
  {
    Clean(Substring(b, h.contentStart, end))
  }

  /** A lower-case hexadecimal digit, as `JSON.stringify` writes them. */
  function HexDigit(d: nat): (c: char)
    requires d < 16
    ensures c >= ' ' && c != '"' && c != '\\'
  {
    if d < 10 then ('0' as int + d) as char else ('a' as int + d - 10) as char
  }

  /** How `JSON.stringify` writes one character of a string body: a quote or a
      backslash behind a backslash, the five control characters that have a short
      escape by that escape, every other control character as `\u00XX`, and
      anything else as it is. */
  function EscapeChar(c: char): (r: string)
    ensures |r| > 0 && forall i :: 0 <= i < |r| ==> r[i] >= ' '
    ensures forall j :: 0 <= j < |r| ==> !IsClosingQuote(r, j)
    ensures c != '\\' ==> r[|r| - 1] != '\\'
    ensures c >= ' ' && c != '"' && c != '\\' ==> r == [c]
  {
    if c == '"' || c == '\\' then ['\\', c]
    else if c == '\U{8}' then ['\\', 'b']
    else if c == '\t' then ['\\', 't']
    else if c == '\n' then ['\\', 'n']
    else if c == '\U{C}' then ['\\', 'f']
    else if c == '\r' then ['\\', 'r']
    else if c < ' ' then ['\\', 'u', '0', '0', HexDigit(c as int / 16), HexDigit(c as int % 16)]
    else [c]
  }

  /** The JSON string body `JSON.stringify` writes for a text. It holds no raw
      control character, never starts with a quote, and ends in a backslash only
      when the text holds one. */
  function Escape(s: string): (r: string)
    ensures |r| >= |s|
    ensures forall i :: 0 <= i < |r| ==> r[i] >= ' '
    ensures |r| > 0 ==> r[0] != '"'
    ensures (forall i :: 0 <= i < |s| ==> s[i] != '\\') && |r| > 0 ==> r[|r| - 1] != '\\'
  {
    if |s| == 0 then [] else EscapeChar(s[0]) + Escape(s[1..])
  }

  /** A text the three unescape passes recover from its JSON body: no backslash,
      and no control character other than the line feed. */
  predicate PlainText(s: string) {
    forall i :: 0 <= i < |s| ==> s[i] != '\\' && (s[i] == '\n' || s[i] >= ' ')
  }

  /** The text after the first unescape pass: only line breaks still escaped. */
  function EscapeLines(s: string): string {
    if |s| == 0 then [] else (if s[0] == '\n' then ['\\', 'n'] else [s[0]]) + EscapeLines(s[1..])
  }

  /** The first pass turns every escaped quote back into a quote and leaves the
      escaped line breaks. */
  lemma {:induction false} UnquotePass(s: string)
    requires PlainText(s)
    ensures ReplaceAll(Escape(s), '\\', '"', "\"") == EscapeLines(s)
    decreases |s|
  {
    if |s| > 0 {
      UnquotePass(s[1..]);
      UnquoteChar(s[0], Escape(s[1..]));
    }
  }

  /** One escaped character in front of the rest: the first pass handles it on its
      own and goes on with the rest. */
  lemma UnquoteChar(c: char, rest: string)
    requires c != '\\' && (c == '\n' || c >= ' ')
    ensures ReplaceAll(EscapeChar(c) + rest, '\\', '"', "\"")
            == (if c == '\n' then ['\\', 'n'] else [c]) + ReplaceAll(rest, '\\', '"', "\"")
  {
    if c == '"' {
      assert EscapeChar(c) + rest == [] + ['\\', '"'] + rest;
      ReplaceAllStep([], rest, '\\', '"', "\"");
    } else if c == '\n' {
      ReplaceAllMiss('n', rest, '\\', '"', "\"");
      ReplaceAllSkip(['n'], rest, '\\', '"', "\"");
    } else {
      ReplaceAllSkip([c], rest, '\\', '"', "\"");
    }
  }

  /** The second pass turns every escaped line break back into a line break. */
  lemma {:induction false} NewlinePass(s: string)
    requires PlainText(s)
    ensures ReplaceAll(EscapeLines(s), '\\', 'n', "\n") == s
    decreases |s|
  {
    if |s| > 0 {
      var c, t := s[0], s[1..];
      NewlinePass(t);
      assert s == [c] + t;
      if c == '\n' {
        assert EscapeLines(s) == [] + ['\\', 'n'] + EscapeLines(t);
        ReplaceAllStep([], EscapeLines(t), '\\', 'n', "\n");
      } else {
        assert EscapeLines(s) == [c] + EscapeLines(t);
        ReplaceAllSkip([c], EscapeLines(t), '\\', 'n', "\n");
      }
    }
  }

  /** The three unescape passes undo the JSON escaping of a text without backslashes
      or control characters other than the line feed. */
  lemma UnescapeEscape(s: string)
    requires PlainText(s)
    ensures Unescape(Escape(s)) == s
  {
    UnquotePass(s);
    NewlinePass(s);
  }

  /** Every quote of an escaped body is preceded by a backslash, so the cut never
      ends the value inside it. */
  lemma {:induction false} EscapeHasNoClosingQuote(s: string)
    ensures forall j :: 0 <= j < |Escape(s)| ==> !IsClosingQuote(Escape(s), j)
    decreases |s|
  {
    if |s| > 0 {
      var e, t := EscapeChar(s[0]), Escape(s[1..]);
      EscapeHasNoClosingQuote(s[1..]);
      assert Escape(s) == e + t;
      forall j | 0 <= j < |e + t| ensures !IsClosingQuote(e + t, j) {
        if j < |e| {
          assert (e + t)[j] == e[j];
          if j > 0 { assert (e + t)[j - 1] == e[j - 1]; }
        } else {
          assert (e + t)[j] == t[j - |e|];
          assert (e + t)[j - 1] == if j - |e| > 0 then t[j - |e| - 1] else e[|e| - 1];
          if j - |e| > 0 {
            assert !IsClosingQuote(t, j - |e|);
          } else {
            assert t[0] != '"';
          }
        }
      }
    }
  }

  /** A value `JSON.stringify` wrote for such a text, followed by its closing quote
      and whatever comes after, is shown exactly as the text. */
  lemma CleanEscape(s: string, rest: string)
    requires PlainText(s)
    ensures Clean(Escape(s) + ['"'] + rest) == s
  {
    EscapeHasNoClosingQuote(s);
    CutAtAppendedQuote(Escape(s), rest);
    UnescapeEscape(s);
  }

  /** Escapes other than `\"`, `\n` and `\\` are shown as written: a tab, which
      `JSON.stringify` writes as `\t`, is displayed as a backslash and a `t`. */
  lemma TabShownEscaped(rest: string)
    ensures Escape(['\t']) == ['\\', 't']
    ensures Clean(Escape(['\t']) + ['"'] + rest) == ['\\', 't']
  {
    assert Escape(['\t']) == EscapeChar('\t') + Escape([]);
    CutAtAppendedQuote(['\\', 't'], rest);
    assert ReplaceAll(['\\', 't'], '\\', '"', "\"") == ['\\', 't'] by {
      assert ReplaceAll(['t'], '\\', '"', "\"") == ['t'];
    }
    assert ReplaceAll(['\\', 't'], '\\', 'n', "\n") == ['\\', 't'] by {
      assert ReplaceAll(['t'], '\\', 'n', "\n") == ['t'];
    }
    assert ReplaceAll(['\\', 't'], '\\', '\\', "\\") == ['\\', 't'] by {
      assert ReplaceAll(['t'], '\\', '\\', "\\") == ['t'];
    }
  }

  /** A quote appended to a text without a closing quote, and not after a backslash,
      is where the value is cut. */
  lemma CutAtAppendedQuote(e: string, rest: string)
    requires forall j :: 0 <= j < |e| ==> !IsClosingQuote(e, j)
    requires |e| > 0 ==> e[|e| - 1] != '\\'
    ensures CutAtClosingQuote(e + ['"'] + rest) == e
  {
    var raw := e + ['"'] + rest;
    forall j | 0 <= j < |e| ensures !IsClosingQuote(raw, j) {
      assert !IsClosingQuote(e, j);
      assert raw[j] == e[j];
      if j > 0 { assert raw[j - 1] == e[j - 1]; }
    }
    assert IsClosingQuote(raw, |e|) by {
      assert raw[|e|] == '"';
      if |e| > 0 { assert raw[|e| - 1] == e[|e| - 1]; }
    }
    assert raw[..|e|] == e;
  }

  /** The raw span of the `i`-th hit ends where the next hit's match starts, or at
      the end of the buffer for the last one. */
  function SpanEnd(b: string, hs: seq<Hit>, i: nat): nat
    requires i < |hs|
  {
    if i + 1 < |hs| then hs[i + 1].start else |b|
  }

  /** The value the walk assigns for the `i`-th sorted hit. */
  function HitValue(b: string, hs: seq<Hit>, i: nat): string
    requires i < |hs|
  {
    ValueAt(b, hs[i], SpanEnd(b, hs, i))
  }

  /** The walk over the sorted hits: the map after the first `n` assignments,
      the `i`-th of which stores `vals[i]` under the `i`-th hit's key. */
  function Walk<V>(hs: seq<Hit>, vals: seq<V>, n: nat): map<Key, V>
    requires |vals| == |hs| && n <= |hs|
  {
    if n == 0 then map[] else Walk(hs, vals, n - 1)[hs[n - 1].key := vals[n - 1]]
  }

  /** The walk only ever assigns keys of the hit list. */
  lemma {:induction false} WalkKey<V>(f: map<Key, Hit>, hs: seq<Hit>, vals: seq<V>, n: nat, k: Key)
    requires (forall h :: h in hs ==> h.key in f)
    requires |vals| == |hs| && n <= |hs| && k in Walk(hs, vals, n)
    ensures k in f
  {
    if k == hs[n - 1].key {
      assert hs[n - 1] in hs;
    } else {
      WalkKey(f, hs, vals, n - 1, k);
    }
  }

  /** After `n` steps the walk holds the value of each of the first `n` hits:
      keys are distinct, so no later assignment overwrites an earlier one. */
  lemma {:induction false} WalkValue<V>(hs: seq<Hit>, vals: seq<V>, n: nat, i: nat)
    requires DistinctKeys(hs) && |vals| == |hs| && i < n <= |hs|
    ensures hs[i].key in Walk(hs, vals, n) && Walk(hs, vals, n)[hs[i].key] == vals[i]
  {
    if i < n - 1 {
      WalkValue(hs, vals, n - 1, i);
      assert hs[i].key != hs[n - 1].key;
    }
  }

  /** The values of all sorted hits, in order. */
  function HitValues(b: string, hs: seq<Hit>): (r: seq<string>)
    ensures |r| == |hs|
    ensures forall i :: 0 <= i < |hs| ==> r[i] == HitValue(b, hs, i)
  {
    seq(|hs|, i requires 0 <= i < |hs| => HitValue(b, hs, i))
  }

  /** The whole walk. */
  function Values(b: string, hs: seq<Hit>): map<Key, string> {
    Walk(hs, HitValues(b, hs), |hs|)
  }

  /** The keys of a walk over an ordered hit list are exactly the found keys. */
  lemma ValuesKeys(b: string, f: map<Key, Hit>, hs: seq<Hit>)
    requires Keyed(f) && OrderedHits(f, hs)
    ensures forall k :: k in Values(b, hs) <==> k in f
  {
    var vals := HitValues(b, hs);
    forall k | k in f ensures k in Values(b, hs) {
      var i :| 0 <= i < |hs| && hs[i] == f[k];
      WalkValue(hs, vals, |hs|, i);
    }
    forall k | k in Values(b, hs) ensures k in f {
      WalkKey(f, hs, vals, |hs|, k);
    }
  }

  lemma ValuesAt(b: string, f: map<Key, Hit>, hs: seq<Hit>, i: nat)
    requires OrderedHits(f, hs) && i < |hs|
    ensures hs[i].key in Values(b, hs)
    ensures Values(b, hs)[hs[i].key] == ValueAt(b, hs[i], SpanEnd(b, hs, i))
  {
    WalkValue(hs, HitValues(b, hs), |hs|, i);
  }

  /** The map the scan computes over buffer `b`: a key is present exactly when its
      pattern occurs, so a buffer without any key pattern yields the empty map. */
  function Extract(b: string): (r: Partial)
    ensures forall k :: k in r <==> Locate(b, k).Some?
  {
    var f := Found(b);
    FoundConsistent(b);
    var hs := Sorted(f, |b|);
    ValuesKeys(b, f, hs);
    Values(b, hs)
  }

  /** Independent description of the span end: the nearest offset beyond `st` at
      which a key of `ks` was found, or the end of the buffer when there is none. */
  function NearestStartAfter(f: map<Key, Hit>, ks: seq<Key>, st: nat, len: nat): (e: nat)
    ensures e <= len
    ensures e == len || exists k :: k in ks && k in f && f[k].start == e && e > st
    ensures forall k :: k in ks && k in f && st < f[k].start <= len ==> e <= f[k].start
  {
    if |ks| == 0 then len
    else
      var rest := NearestStartAfter(f, ks[1..], st, len);
      if ks[0] in f && st < f[ks[0]].start < rest then f[ks[0]].start else rest
  }

  /** The values described without sorting: each found key's raw span runs up to
      the nearest later match of any key, and is then cut and unescaped. */
  function Described(b: string, f: map<Key, Hit>): Partial {
    map k | k in f :: ValueAt(b, f[k], NearestStartAfter(f, AllKeys, f[k].start, |b|))
  }

  /** The extractor specified without sorting. */
  function Reference(b: string): Partial {
    Described(b, Found(b))
  }

  /** The hit after the `i`-th one is the nearest later match of any key. */
  lemma NextIsNearest(f: map<Key, Hit>, len: nat, hs: seq<Hit>, i: nat)
    requires Consistent(f, len) && OrderedHits(f, hs) && i + 1 < |hs|
    ensures NearestStartAfter(f, AllKeys, hs[i].start, len) == hs[i + 1].start
  {
    var st := hs[i].start;
    var e := NearestStartAfter(f, AllKeys, st, len);
    var n := hs[i + 1];
    assert n in hs;
    assert AllKeys[Rank(n.key)] == n.key;
  }

  /** After the last hit no key matches any more. */
  lemma LastHasNoSuccessor(f: map<Key, Hit>, len: nat, hs: seq<Hit>, i: nat)
    requires OrderedHits(f, hs) && i + 1 == |hs|
    ensures NearestStartAfter(f, AllKeys, hs[i].start, len) == len
  {
  }

  lemma SpanEndIsNearest(b: string, f: map<Key, Hit>, hs: seq<Hit>, i: nat)
    requires Consistent(f, |b|) && OrderedHits(f, hs) && i < |hs|
    ensures SpanEnd(b, hs, i) == NearestStartAfter(f, AllKeys, hs[i].start, |b|)
  {
    if i + 1 < |hs| {
      NextIsNearest(f, |b|, hs, i);
    } else {
      LastHasNoSuccessor(f, |b|, hs, i);
    }
  }

  /** A found key gets the same value from the walk and from the description. */
  lemma ValueAgrees(b: string, f: map<Key, Hit>, hs: seq<Hit>, k: Key)
    requires Consistent(f, |b|) && OrderedHits(f, hs) && k in f
    ensures k in Values(b, hs) && Values(b, hs)[k] == Described(b, f)[k]
  {
    var i :| 0 <= i < |hs| && hs[i] == f[k];
    ValuesAt(b, f, hs, i);
    SpanEndIsNearest(b, f, hs, i);
  }

  /** Walking any ordered list of the found hits computes the described values. */
  lemma ValuesIsDescribed(b: string, f: map<Key, Hit>, hs: seq<Hit>)
    requires Consistent(f, |b|) && OrderedHits(f, hs)
    ensures Values(b, hs) == Described(b, f)
  {
    var v, d := Values(b, hs), Described(b, f);
    ValuesKeys(b, f, hs);
    forall k | k in v ensures k in d && v[k] == d[k] {
      ValueAgrees(b, f, hs, k);
    }
    SameEntries(v, d);
  }

  lemma SameEntries<V>(m1: map<Key, V>, m2: map<Key, V>)
    requires m1.Keys <= m2.Keys && (forall k :: k in m2 ==> k in m1)
    requires forall k :: k in m1 ==> m1[k] == m2[k]
    ensures m1 == m2
  {
  }

  /** The sort-and-walk scan computes exactly the reference description. */
  lemma ExtractIsReference(b: string)
    ensures Extract(b) == Reference(b)
  {
    FoundConsistent(b);
    ValuesIsDescribed(b, Found(b), Sorted(Found(b), |b|));
  }

  /** The empty buffer yields the empty record. */
  lemma ExtractEmpty()
    ensures Extract("") == map[]
  {
    forall k: Key ensures k !in Extract("") {
      assert FindFrom("", QuotedName(k), 0).None?;
    }
  }

  /** Keys once found are found again in every longer buffer. */
  lemma ExtractKeysGrow(b: string, c: string)
    ensures Extract(b).Keys <= Extract(b + c).Keys
  {
    forall k | k in Extract(b) ensures k in Extract(b + c) {
      LocateStable(b, c, k);
    }
  }

  /** The unescape is lossy: the JSON text `\\n` (a backslash followed by the
      letter n) is shown as a backslash followed by a line break. */
  lemma UnescapeLossy()
    ensures Unescape(['\\', '\\', 'n']) == ['\\', '\n']
  {
    assert ReplaceAll(['\\', '\\', 'n'], '\\', '"', "\"") == ['\\', '\\', 'n'];
    assert ReplaceAll(['\\', 'n'], '\\', 'n', "\n") == ['\n'];
    assert ReplaceAll(['\\', '\\', 'n'], '\\', 'n', "\n") == ['\\', '\n'];
  }

  /** A value does not only grow as text arrives: a trailing backslash is shown
      until the next character turns the pair into a line break. */
  lemma RevealNotMonotone()
    ensures Clean(['a', '\\']) == ['a', '\\']
    ensures Clean(['a', '\\', 'n']) == ['a', '\n']
  {
    assert CutAtClosingQuote(['a', '\\']) == ['a', '\\'] by {
      assert !IsClosingQuote(['a', '\\'], 0) && !IsClosingQuote(['a', '\\'], 1);
    }
    assert CutAtClosingQuote(['a', '\\', 'n']) == ['a', '\\', 'n'] by {
      assert !IsClosingQuote(['a', '\\', 'n'], 0) && !IsClosingQuote(['a', '\\', 'n'], 1);
      assert !IsClosingQuote(['a', '\\', 'n'], 2);
    }
    assert ReplaceAll(['a', '\\', 'n'], '\\', '"', "\"") == ['a', '\\', 'n'] by {
      assert ReplaceAll(['\\', 'n'], '\\', '"', "\"") == ['\\', 'n'];
    }
    assert ReplaceAll(['a', '\\', 'n'], '\\', 'n', "\n") == ['a', '\n'] by {
      assert ReplaceAll(['\\', 'n'], '\\', 'n', "\n") == ['\n'];
    }
    assert ReplaceAll(['a', '\\'], '\\', '"', "\"") == ['a', '\\'] by {
      assert ReplaceAll(['\\'], '\\', '"', "\"") == ['\\'];
    }
    assert ReplaceAll(['a', '\\'], '\\', 'n', "\n") == ['a', '\\'] by {
      assert ReplaceAll(['\\'], '\\', 'n', "\n") == ['\\'];
    }
    assert ReplaceAll(['a', '\\'], '\\', '\\', "\\") == ['a', '\\'] by {
      assert ReplaceAll(['\\'], '\\', '\\', "\\") == ['\\'];
    }
  }
}
