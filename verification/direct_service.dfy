/** The client that calls the model directly (`services/geminiService.ts`):
    the API key check, the streamed expansion with the strict finaliser, and the
    image request with its first-inline-image extraction. The remote calls are
    inputs: the chunks of the stream and the image response, or the errors they
    raised. */
module DirectService {
  import opened Results
  import opened Text
  import opened Prompt
  import opened Extractor
  import opened Stream
  import opened Finalize
  import opened ImageData

  const MissingKeyMessage: string := "API Key not found. Please set VITE_GEMINI_API_KEY in .env.local"
  const NoImageMessage: string := "No image data found in response"

  /** `expandPrompt`. Without an API key it throws before anything is sent.
      Otherwise every non-empty chunk is scanned as it arrives and each changed
      snapshot is announced; an error raised by the stream ends the call with that
      error, after the announcements made so far; at the end the whole text goes
      through the strict parse (`parse`, standing for `JSON.parse`) and the strict
      finaliser. */
  method ExpandDirect(apiKey: string, transfer: Transfer, parse: string -> Option<PromptStructure>)
    returns (r: Result<PromptStructure>, updates: seq<Partial>)
    ensures apiKey == "" ==> r == Failure(MissingKeyMessage) && updates == []
    ensures apiKey != "" ==> updates == Notifications(transfer.chunks)
    ensures apiKey != "" && transfer.interrupted.Some? ==> r == Failure(transfer.interrupted.value)
    ensures apiKey != "" && transfer.interrupted.None? ==>
              r == FinalizeStrict(parse(Concat(transfer.chunks)), Extract(Concat(transfer.chunks)))
  {
    if apiKey == "" {
      return Failure(MissingKeyMessage), [];
    }
    var buffer, partial;
    buffer, partial, updates := Consume(transfer.chunks, true);
    if transfer.interrupted.Some? {
      return Failure(transfer.interrupted.value), updates;
    }
    r := FinalizeStrict(parse(buffer), partial);
  }

  /** `generateImage`. Without an API key it throws; an error of the remote call is
      rethrown; otherwise the result is the data URL of the first part carrying
      image data, and the call throws when no part does. */
  method GenerateImageDirect(apiKey: string, reply: Result<ImageResponse>) returns (r: Result<string>)
    ensures apiKey == "" ==> r == Failure(MissingKeyMessage)
    ensures apiKey != "" && reply.Failure? ==> r == Failure(reply.error)
    ensures apiKey != "" && reply.Success? && NoImage(Parts(reply.value)) ==> r == Failure(NoImageMessage)
    ensures apiKey != "" && reply.Success? && !NoImage(Parts(reply.value)) ==>
              r.Success? && Some(r.value) == FirstImage(Parts(reply.value))
  {
    if apiKey == "" {
      return Failure(MissingKeyMessage);
    }
    if reply.Failure? {
      return Failure(reply.error);
    }
    var url := FindImageUrl(reply.value);
    if url.None? {
      return Failure(NoImageMessage);
    }
    r := Success(url.value);
  }
}
