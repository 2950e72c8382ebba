/** The server image route (`POST /api/image`): the API key check, the content
    list sent to the model (accepted reference images before the prompt text),
    the first-inline-image extraction, and the mapping of every failure to a
    500 reply. */
module ImageRoute {
  import opened Results
  import opened Prompt
  import opened ImageData

  const NoKeyMessage: string := "API Key not configured"
  const FailedMessage: string := "Image generation failed"

  /** An entry of the request's `images` array: a string, or any other JSON value. */
  datatype ImageEntry = Str(s: string) | Other

  /** The request body. `images` is `None` when the field is missing or not an
      array; `promptData` is `None` when it is missing, so reading its fields throws. */
  datatype ImageRequest = ImageRequest(promptData: Option<PromptStructure>, images: Option<seq<ImageEntry>>)

  /** A part of the content sent to the model. */
  datatype ContentPart = TextPart(text: string) | InlinePart(mimeType: string, data: string)

  /** Every entry is a string, so `img.match` never throws. */
  predicate AllStrings(entries: seq<ImageEntry>) {
    forall i :: 0 <= i < |entries| ==> entries[i].Str?
  }

  /** Reference definition: the inline parts of the entries that parse as data
      URLs, in input order; other entries are skipped. */
  function Accepted(entries: seq<ImageEntry>): (r: seq<ContentPart>)
    ensures |r| <= |entries|
    ensures forall c :: c in r ==> c.InlinePart? && ValidMime(c.mimeType) && ValidPayload(c.data)
  {
    if |entries| == 0 then []
    else
      var last := entries[|entries| - 1];
      var r := Accepted(entries[..|entries| - 1]);
      if last.Str? && ParseDataUrl(last.s).Some? then r + [InlinePart(ParseDataUrl(last.s).value.0, ParseDataUrl(last.s).value.1)]
      else r
  }

  /** A data URL built from a valid mime type and payload is accepted with the same
      mime type and payload; an entry the parser rejects is skipped. */
  lemma AcceptedStep(entries: seq<ImageEntry>, s: string, mime: string, data: string)
    ensures ValidMime(mime) && ValidPayload(data) && s == DataUrl(mime, data) ==>
              Accepted(entries + [Str(s)]) == Accepted(entries) + [InlinePart(mime, data)]
    ensures ParseDataUrl(s).None? ==> Accepted(entries + [Str(s)]) == Accepted(entries)
  {
    assert (entries + [Str(s)])[..|entries|] == entries;
    if ValidMime(mime) && ValidPayload(data) && s == DataUrl(mime, data) {
      ParseDataUrlRoundTrip(mime, data);
    }
  }

  function Reverse<T>(s: seq<T>): (r: seq<T>)
    ensures |r| == |s| && forall i :: 0 <= i < |s| ==> r[i] == s[|s| - 1 - i]
  {
    if |s| == 0 then [] else [s[|s| - 1]] + Reverse(s[..|s| - 1])
  }

  /** The contents the route sends for well-typed images: the accepted images in
      reverse input order, then the prompt text. */
  function Expected(fullPrompt: string, entries: seq<ImageEntry>): seq<ContentPart> {
    Reverse(Accepted(entries)) + [TextPart(fullPrompt)]
  }

  /** Handling one more string entry puts its inline part, if it parses, in front
      of the contents expected so far. */
  lemma ExpectedStep(fullPrompt: string, entries: seq<ImageEntry>, i: nat)
    requires i < |entries| && entries[i].Str?
    ensures ParseDataUrl(entries[i].s).Some? ==>
              Expected(fullPrompt, entries[..i + 1]) ==
              [InlinePart(ParseDataUrl(entries[i].s).value.0, ParseDataUrl(entries[i].s).value.1)] + Expected(fullPrompt, entries[..i])
    ensures ParseDataUrl(entries[i].s).None? ==> Expected(fullPrompt, entries[..i + 1]) == Expected(fullPrompt, entries[..i])
  {
    assert entries[..i + 1][..i] == entries[..i];
    var a := Accepted(entries[..i]);
    if ParseDataUrl(entries[i].s).Some? {
      var c := InlinePart(ParseDataUrl(entries[i].s).value.0, ParseDataUrl(entries[i].s).value.1);
      assert Accepted(entries[..i + 1]) == a + [c];
      assert (a + [c])[..|a|] == a;
    }
  }

  /** The expected contents end with the prompt text, and everything before it is
      an inline image. */
  lemma ExpectedShape(fullPrompt: string, entries: seq<ImageEntry>)
    ensures var e := Expected(fullPrompt, entries);
            e[|e| - 1] == TextPart(fullPrompt) && forall i :: 0 <= i < |e| - 1 ==> e[i].InlinePart?
  {
    var a := Accepted(entries);
    var e := Expected(fullPrompt, entries);
    forall i | 0 <= i < |e| - 1
      ensures e[i].InlinePart?
    {
      assert e[i] == a[|a| - 1 - i];
      assert a[|a| - 1 - i] in a;
    }
  }

  /** The `forEach` over a non-empty `images` array: each accepted image is put in
      front of the contents (`unshift`), and an entry that is not a string makes
      `match` throw. */
  method UnshiftImages(fullPrompt: string, entries: seq<ImageEntry>) returns (r: Result<seq<ContentPart>>)
    ensures !AllStrings(entries) ==> r.Failure?
    ensures AllStrings(entries) ==> r == Success(Expected(fullPrompt, entries))
  {
    var contents := [TextPart(fullPrompt)];
    var i := 0;
    while i < |entries|
      invariant i <= |entries|
      invariant AllStrings(entries[..i])
      invariant contents == Expected(fullPrompt, entries[..i])
    {
      if entries[i].Other? {
        assert !AllStrings(entries);
        return Failure("img.match is not a function");
      }
      assert entries[..i + 1] == entries[..i] + [entries[i]];
      ExpectedStep(fullPrompt, entries, i);
      var parsed := ParseDataUrl(entries[i].s);
      if parsed.Some? {
        contents := [InlinePart(parsed.value.0, parsed.value.1)] + contents;
      }
      i := i + 1;
    }
    assert entries[..i] == entries;
    r := Success(contents);
  }

  /** The content list: the prompt text, preceded by the accepted images in
      reverse input order. A missing, non-array or empty `images` leaves the text
      alone; a non-string entry makes the request fail. */
  method BuildContents(fullPrompt: string, images: Option<seq<ImageEntry>>) returns (r: Result<seq<ContentPart>>)
    ensures images.None? ==> r == Success([TextPart(fullPrompt)])
    ensures images.Some? && !AllStrings(images.value) ==> r.Failure?
    ensures images.Some? && AllStrings(images.value) ==> r == Success(Expected(fullPrompt, images.value))
    ensures r.Success? ==> |r.value| > 0 && r.value[|r.value| - 1] == TextPart(fullPrompt)
    ensures r.Success? ==> forall i :: 0 <= i < |r.value| - 1 ==> r.value[i].InlinePart?
  {
    if images.None? || |images.value| == 0 {
      if images.Some? {
        assert Expected(fullPrompt, images.value) == [TextPart(fullPrompt)];
      }
      return Success([TextPart(fullPrompt)]);
    }
    r := UnshiftImages(fullPrompt, images.value);
    ExpectedShape(fullPrompt, images.value);
  }

  /** The route's reply: 200 with the image URL, or 500 with an error message. */
  datatype Reply = Ok(imageUrl: string) | ServerError(message: string)

  function Status(reply: Reply): nat {
    if reply.Ok? then 200 else 500
  }

  /** `POST`. `compose` stands for the prompt template applied to the record, and
      `remote` for the model's answer to the contents sent (or the error it raised).
      A missing key gives its own 500; a body that cannot be read, a missing
      record, a non-string image, a remote error and a response without an inline
      image all give the generic 500; otherwise the reply carries the URL of the
      first inline image. `sent` is the content list handed to the model, if the
      call got that far. */
  method HandleImage(apiKey: string, request: Option<ImageRequest>, compose: PromptStructure -> string,
                     remote: Result<ImageResponse>)
    returns (reply: Reply, sent: Option<seq<ContentPart>>)
    ensures apiKey == "" ==> reply == ServerError(NoKeyMessage) && sent.None?
    ensures Status(reply) == 200 <==>
              && apiKey != "" && request.Some? && request.value.promptData.Some?
              && (request.value.images.None? || AllStrings(request.value.images.value))
              && remote.Success? && !NoImage(Parts(remote.value))
    ensures reply.Ok? ==> Some(reply.imageUrl) == FirstImage(Parts(remote.value))
    ensures apiKey != "" && reply.ServerError? ==> reply.message == FailedMessage
    ensures sent.Some? ==>
              request.Some? && request.value.promptData.Some? &&
              sent.value == (if request.value.images.None? then [TextPart(compose(request.value.promptData.value))]
                             else Expected(compose(request.value.promptData.value), request.value.images.value))
  {
    if apiKey == "" {
      return ServerError(NoKeyMessage), None;
    }
    if request.None? || request.value.promptData.None? {
      return ServerError(FailedMessage), None;
    }
    var contents := BuildContents(compose(request.value.promptData.value), request.value.images);
    if contents.Failure? {
      return ServerError(FailedMessage), None;
    }
    sent := Some(contents.value);
    if remote.Failure? {
      return ServerError(FailedMessage), sent;
    }
    var url := FindImageUrl(remote.value);
    if url.None? {
      return ServerError(FailedMessage), sent;
    }
    reply := Ok(url.value);
  }
}
