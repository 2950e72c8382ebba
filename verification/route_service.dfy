/** The client that goes through the server routes (`src/services/geminiService.ts`):
    the HTTP status and body checks, the streamed expansion with the lenient
    finaliser, and the image request that returns the route's `imageUrl`. */
module RouteService {
  import opened Results
  import opened Text
  import opened Prompt
  import opened Extractor
  import opened Stream
  import opened Finalize

  const ExpandFailedMessage: string := "Failed to expand prompt"
  const NoBodyMessage: string := "No response body"
  const ImageFailedMessage: string := "Failed to generate image"

  /** `expandPrompt` over `/api/expand`. A response that is not ok, or one without
      a body, raises an error before any chunk is read. Otherwise every chunk,
      empty or not, is appended and scanned, each changed snapshot is announced, and
      at the end the lenient finaliser turns a failed strict parse into the
      completed partial record, so the call fails only if the transfer does. */
  method ExpandViaRoute(ok: bool, body: Option<Transfer>, parse: string -> Option<PromptStructure>)
    returns (r: Result<PromptStructure>, updates: seq<Partial>)
    ensures !ok ==> r == Failure(ExpandFailedMessage) && updates == []
    ensures ok && body.None? ==> r == Failure(NoBodyMessage) && updates == []
    ensures ok && body.Some? ==> updates == Notifications(body.value.chunks)
    ensures ok && body.Some? && body.value.interrupted.Some? ==> r == Failure(body.value.interrupted.value)
    ensures ok && body.Some? && body.value.interrupted.None? ==>
              r == Success(FinalizeLenient(parse(Concat(body.value.chunks)), Extract(Concat(body.value.chunks))))
  {
    if !ok {
      return Failure(ExpandFailedMessage), [];
    }
    if body.None? {
      return Failure(NoBodyMessage), [];
    }
    var buffer, partial;
    buffer, partial, updates := Consume(body.value.chunks, false);
    if body.value.interrupted.Some? {
      return Failure(body.value.interrupted.value), updates;
    }
    r := Success(FinalizeLenient(parse(buffer), partial));
  }

  /** `generateImage` over `/api/image`: a response that is not ok raises an error,
      otherwise its `imageUrl` is returned unchecked. */
  function GenerateImageViaRoute(ok: bool, imageUrl: string): (r: Result<string>)
    ensures r.Failure? <==> !ok
    ensures r.Failure? ==> r.error == ImageFailedMessage
    ensures r.Success? ==> r.value == imageUrl
  {
    if ok then Success(imageUrl) else Failure(ImageFailedMessage)
  }
}
