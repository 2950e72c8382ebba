/** Images as data URLs: the reference-image parser of the image route, the URL
    the generators build from an inline image part, and the "first inline image
    wins" scan over a model response. */
module ImageData {
  import opened Results

  /** The class `[a-z]`. */
  predicate IsLower(c: char) {
    'a' <= c <= 'z'
  }

  /** The characters the regular-expression `.` does not match. */
  predicate IsLineTerminator(c: char) {
    c == '\n' || c == '\r' || c == '\U{2028}' || c == '\U{2029}'
  }

  /** What the group `(image\/[a-z]+)` accepts. */
  predicate ValidMime(m: string) {
    |m| > 6 && m[..6] == "image/" && forall i :: 6 <= i < |m| ==> IsLower(m[i])
  }

  /** What the group `(.+)` accepts when it has to reach the end of the input. */
  predicate ValidPayload(d: string) {
    |d| > 0 && forall i :: 0 <= i < |d| ==> !IsLineTerminator(d[i])
  }

  /** `data:${mimeType};base64,${data}`. */
  function DataUrl(mime: string, data: string): string {
    "data:" + mime + ";base64," + data
  }

  /** Length of the run of lower-case letters starting at `i`. */
  function LowerRun(s: string, i: nat): (n: nat)
    requires i <= |s|
    ensures i + n <= |s|
    ensures forall j :: i <= j < i + n ==> IsLower(s[j])
    ensures i + n < |s| ==> !IsLower(s[i + n])
    decreases |s| - i
  {
    if i < |s| && IsLower(s[i]) then 1 + LowerRun(s, i + 1) else 0
  }

  /** `s.match(/^data:(image\/[a-z]+);base64,(.+)$/)`, yielding both groups. The
      letter run cannot be followed by `;` at any shorter length, so the match is
      unique and no backtracking needs modelling. Whatever it accepts is a data URL
      built from a valid mime type and payload. */
  function ParseDataUrl(s: string): (r: Option<(string, string)>)
    ensures r.Some? ==> ValidMime(r.value.0) && ValidPayload(r.value.1) && s == DataUrl(r.value.0, r.value.1)
  {
    if |s| < 11 || s[..11] != "data:image/" then None
    else
      var e := 11 + LowerRun(s, 11);
      if e == 11 || |s| < e + 8 || s[e..e + 8] != ";base64," || !ValidPayload(s[e + 8..]) then None
      else
        assert s[5..e][..6] == s[5..11] == "image/";
        assert s[..5] == s[..11][..5] == "data:";
        assert s == s[..5] + s[5..e] + s[e..e + 8] + s[e + 8..];
        Some((s[5..e], s[e + 8..]))
  }

  /** A URL built from a mime type matching `image/[a-z]+` and a payload without
      line terminators is accepted by the parser, which gives both parts back. */
  lemma ParseDataUrlRoundTrip(mime: string, data: string)
    requires ValidMime(mime) && ValidPayload(data)
    ensures ParseDataUrl(DataUrl(mime, data)) == Some((mime, data))
  {
    var s := DataUrl(mime, data);
    var e := |mime| + 5;
    assert s[..11] == "data:image/";
    assert forall j :: 11 <= j < e ==> s[j] == mime[j - 5];
    assert s[e] == ';';
    var n := LowerRun(s, 11);
    assert 11 + n == e;
    assert s[e..e + 8] == ";base64,";
    assert s[e + 8..] == data;
    assert s[5..e] == mime;
  }

  /** The parser accepts exactly the data URLs of valid mime types and payloads. */
  lemma ParseDataUrlExactly(s: string, mime: string, data: string)
    ensures ParseDataUrl(s) == Some((mime, data)) <==> ValidMime(mime) && ValidPayload(data) && s == DataUrl(mime, data)
  {
    if ValidMime(mime) && ValidPayload(data) && s == DataUrl(mime, data) {
      ParseDataUrlRoundTrip(mime, data);
    }
  }

  /** `part.inlineData`; an absent or empty field is held as `""`, which is how
      the source's truthiness tests see it. */
  datatype InlineData = InlineData(mimeType: string, data: string)

  datatype Part = Part(inlineData: Option<InlineData>)

  /** A candidate; `parts` is `content?.parts`. */
  datatype Candidate = Candidate(parts: Option<seq<Part>>)

  datatype ImageResponse = ImageResponse(candidates: Option<seq<Candidate>>)

  /** `part.inlineData && part.inlineData.data`. */
  predicate HasImage(p: Part) {
    p.inlineData.Some? && p.inlineData.value.data != ""
  }

  /** The mime type of an image part, `image/png` when it is missing. */
  function MimeOf(d: InlineData): (m: string)
    ensures m != ""
    ensures d.mimeType != "" ==> m == d.mimeType
  {
    if d.mimeType == "" then "image/png" else d.mimeType
  }

  /** The data URL of an image part. */
  function PartUrl(p: Part): string
    requires HasImage(p)
  {
    DataUrl(MimeOf(p.inlineData.value), p.inlineData.value.data)
  }

  function PartsOf(c: Candidate): seq<Part> {
    if c.parts.Some? then c.parts.value else []
  }

  /** The parts of all candidates, in order. */
  function AllParts(cs: seq<Candidate>): seq<Part> {
    if |cs| == 0 then [] else AllParts(cs[..|cs| - 1]) + PartsOf(cs[|cs| - 1])
  }

  function Parts(r: ImageResponse): seq<Part> {
    if r.candidates.Some? then AllParts(r.candidates.value) else []
  }

  predicate NoImage(ps: seq<Part>) {
    forall i :: 0 <= i < |ps| ==> !HasImage(ps[i])
  }

  /** Reference definition: the URL of the first image part, in document order;
      none exactly when no part carries image data. */
  function FirstImage(ps: seq<Part>): (r: Option<string>)
    ensures r.None? <==> NoImage(ps)
  {
    if |ps| == 0 then None
    else if HasImage(ps[0]) then Some(PartUrl(ps[0]))
    else FirstImage(ps[1..])
  }

  /** An image part preceded by none is the one whose URL is reported. */
  lemma {:induction false} FirstImageAt(ps: seq<Part>, k: nat)
    requires k < |ps| && HasImage(ps[k]) && NoImage(ps[..k])
    ensures FirstImage(ps) == Some(PartUrl(ps[k]))
  {
    if k > 0 {
      assert !HasImage(ps[..k][0]);
      assert ps[1..][..k - 1] == ps[..k][1..];
      FirstImageAt(ps[1..], k - 1);
    }
  }

  lemma {:induction false} FirstImageAppend(a: seq<Part>, b: seq<Part>)
    ensures FirstImage(a + b) == if FirstImage(a).Some? then FirstImage(a) else FirstImage(b)
    decreases |a|
  {
    if |a| > 0 {
      assert (a + b)[1..] == a[1..] + b;
      FirstImageAppend(a[1..], b);
    } else {
      assert a + b == b;
    }
  }

  lemma {:induction false} AllPartsAppend(cs: seq<Candidate>, n: nat)
    requires n <= |cs|
    ensures AllParts(cs) == AllParts(cs[..n]) + AllParts(cs[n..])
    decreases |cs| - n
  {
    if n < |cs| {
      AllPartsAppend(cs, n + 1);
      assert cs[..n + 1][..n] == cs[..n];
      assert AllParts(cs[..n + 1]) == AllParts(cs[..n]) + PartsOf(cs[n]);
      var t := cs[n..];
      assert t[..|t| - 1] == cs[n..][..|t| - 1];
      AllPartsHead(t);
      assert t[1..] == cs[n + 1..];
    } else {
      assert cs[..n] == cs;
    }
  }

  lemma {:induction false} AllPartsHead(cs: seq<Candidate>)
    requires |cs| > 0
    ensures AllParts(cs) == PartsOf(cs[0]) + AllParts(cs[1..])
    decreases |cs|
  {
    if |cs| > 1 {
      var init := cs[..|cs| - 1];
      AllPartsHead(init);
      assert init[1..] == cs[1..][..|cs[1..]| - 1];
    } else {
      assert cs[1..] == [];
      assert cs[..0] == [];
    }
  }

  /** The inner loop over the parts of one candidate: the URL of its first image
      part, if any. */
  method ScanParts(ps: seq<Part>) returns (url: Option<string>)
    ensures url == FirstImage(ps)
  {
    var pi := 0;
    while pi < |ps|
      invariant pi <= |ps|
      invariant FirstImage(ps[..pi]) == None
    {
      var part := ps[pi];
      FirstImageAppend(ps[..pi], [part]);
      assert ps[..pi + 1] == ps[..pi] + [part];
      if part.inlineData.Some? && part.inlineData.value.data != "" {
        FirstImageAppend(ps[..pi + 1], ps[pi + 1..]);
        assert ps == ps[..pi + 1] + ps[pi + 1..];
        return Some(DataUrl(MimeOf(part.inlineData.value), part.inlineData.value.data));
      }
      pi := pi + 1;
    }
    assert ps[..pi] == ps;
    return None;
  }

  /** Past candidates without an image, the first image of the response is the
      first image of the next candidate, if it has one; otherwise none was seen yet. */
  lemma CandidateStep(cs: seq<Candidate>, ci: nat)
    requires ci < |cs| && FirstImage(AllParts(cs[..ci])) == None
    ensures FirstImage(PartsOf(cs[ci])).Some? ==> FirstImage(AllParts(cs)) == FirstImage(PartsOf(cs[ci]))
    ensures FirstImage(PartsOf(cs[ci])).None? ==> FirstImage(AllParts(cs[..ci + 1])) == None
  {
    assert cs[..ci + 1][..ci] == cs[..ci];
    FirstImageAppend(AllParts(cs[..ci]), PartsOf(cs[ci]));
    AllPartsAppend(cs, ci + 1);
    FirstImageAppend(AllParts(cs[..ci + 1]), AllParts(cs[ci + 1..]));
  }

  /** The extraction loops of the generators: candidates in order, the parts of
      each in order, stopping at the first part that carries image data. The
      result is the reference first image of the response. */
  method FindImageUrl(resp: ImageResponse) returns (url: Option<string>)
    ensures url == FirstImage(Parts(resp))
  {
    url := None;
    if resp.candidates.None? {
      return;
    }
    var cs := resp.candidates.value;
    var ci := 0;
    while ci < |cs|
      invariant ci <= |cs|
      invariant FirstImage(AllParts(cs[..ci])) == None
    {
      var found := None;
      if cs[ci].parts.Some? {
        found := ScanParts(cs[ci].parts.value);
      }
      CandidateStep(cs, ci);
      if found.Some? {
        return found;
      }
      ci := ci + 1;
    }
    assert cs[..ci] == cs;
  }
}
