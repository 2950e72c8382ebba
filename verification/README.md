# lumina, modelled in Dafny

Lumina turns a short idea into a seven-field image prompt. A language model
streams the prompt, and an image model renders it. This project models the logic
at the core of that pipeline:

- **The partial-JSON field extractor.** Both `expandPrompt` clients share it. After
  every streamed chunk, it rescans the whole buffer. For each of the seven keys it
  finds the first `"key"\s*:\s*"` and orders the hits by offset. Each value runs up
  to the next hit, is cut at the first unescaped quote, and goes through three
  replace passes.
- **The stream loop.** It holds a running partial record, writes a field only when
  its value changed, and announces a copy of the record whenever anything changed.
- **The two end-of-stream finalisers.** The direct client's is strict: it throws
  when more than two fields are missing. The route client's is lenient and always
  completes the record.
- **The emphasis tokenizer.** It performs `text.split(/(\*[^*]+\*)/g)` and then
  classifies each part. Both the highlighted text and the prompt cards use it.
- **Data-URL handling in the image route.** It parses reference images, orders the
  content list with images first and text last, and extracts the first inline
  image. Every failure becomes a 500 reply.
- **The two front ends' workflows.** The home page (`src/app/page.tsx`) has
  generate, regenerate and a history list. The single page (`App.tsx`) has
  initial generation, per-section modification, a busy guard and a timed
  error revert. The prompt card's local editor is modelled too.

Layout of the model:

- **Shared modules:**
  - `Results`: `Option` and `Result`.
  - `Text`: JavaScript white space, `trim`, `substring`, global replace, and join.
  - `Prompt`: the record, its keys, partial records, the merge, and what an expansion delivers.
- **Extraction and streaming:** `Extractor`, `Stream` and `Finalize`.
- **The two clients:** `DirectService` and `RouteService`.
- **Rendering:** `Emphasis` and `PromptSection`.
- **Images:** `ImageData` and `ImageRoute`.
- **The two workflows:** `HomePage` and `App`.

Remote calls enter as inputs:

- the streamed chunks, already decoded;
- the error that cut a stream short;
- the image model's response;
- the fresh history id and timestamp.

`JSON.parse` is a parameter returning `Some(record)` or `None`. A timer firing is
an explicit event.

Each step of the extractor has an independent partner:

- `MatchAt` is related both ways to the key pattern written out.
- The sort-and-walk scan equals a description without sorting: each value runs to
  the nearest later match of any key (`Extractor.ExtractIsReference`).
- The stream loop equals the extraction of the concatenated chunks, and its
  announcements equal "every snapshot that differs from the previous one"
  (`Stream.Consume`).

## Model

| member | source | states |
|---|---|---|
| Prompt.Merge | src/app/page.tsx:62 | `{...prev, ...partial}`: a field present in the partial record takes its value; every other field keeps the previous one |
| Prompt.MergeTwice | App.tsx:43-45 | two partial updates applied in turn give the same record as one update with their union, the later one winning |
| Prompt.MergeAllSnapshots | src/app/page.tsx:61-63 | when every announcement holds the keys of the one before, merging them all equals merging the last one |
| Text.Trim | components/PromptSection.tsx:22 | `trim` yields the infix between an all-white-space prefix and suffix; the result is empty iff the string is all white space, and otherwise starts and ends with a non-space |
| Text.Substring | services/geminiService.ts:146 | `substring` clamps both offsets to the length: an in-order pair gives the slice between them, an offset past the end reads to the end, and two offsets past the end give the empty string |
| Text.SubstringSwap | services/geminiService.ts:146 | `substring` swaps a reversed pair of offsets: the order of the arguments does not matter |
| Text.ReplaceAll | services/geminiService.ts:149-152 | the global two-character replace leaves a string without the pattern's first character unchanged, and never lengthens it when the replacement is at most two characters |
| Text.ReplaceAllSkip | services/geminiService.ts:149-152 | a stretch free of the pattern's first character is copied unchanged, whatever follows it |
| Text.ReplaceAllStep | services/geminiService.ts:149-152 | the first occurrence after such a stretch is replaced, and the scan goes on after it, so occurrences never overlap |
| Text.ReplaceAllMiss | services/geminiService.ts:149-152 | the pattern's first character followed by anything else is copied, and the scan resumes at the very next character |
| Extractor.SkipSpaces | services/geminiService.ts:108 | the greedy `\s*` stops at the first non-space, and everything it skipped is white space |
| Extractor.MatchAtSound | services/geminiService.ts:108-109 | every match found at an offset is an occurrence of quoted key, white space, colon, white space, quote; the reported content start is just past that occurrence |
| Extractor.MatchAtComplete | services/geminiService.ts:108-109 | conversely, every occurrence of that pattern is found, with the content start just past it |
| Extractor.MatchAtAgree | services/geminiService.ts:108-109 | a match depends only on the text up to its end |
| Extractor.FindFrom | services/geminiService.ts:109-110 | the search returns the first offset that matches, and no earlier offset matches |
| Extractor.Locate | services/geminiService.ts:107-117 | a key is reported iff its pattern occurs somewhere in the buffer; the hit is the first occurrence, with `start` the match offset and `contentStart` past the opening value quote |
| Extractor.StartsDiffer | services/geminiService.ts:107-120 | the first matches of two different keys never start at the same offset, so sorting by offset is a total order on the hits |
| Extractor.QuotedNamesDiffer | services/geminiService.ts:103 | the quoted names of two different keys differ at their first or third letter |
| Extractor.LocateStable | services/geminiService.ts:98-117 | appending text to the buffer neither moves nor removes a key's first match |
| Extractor.Found | services/geminiService.ts:107-117 | the found hits hold exactly the keys whose pattern occurs, each with its first match |
| Extractor.FoundConsistent | services/geminiService.ts:107-117 | every found hit is filed under its own key, lies inside the buffer, and no two share an offset |
| Extractor.DiscoverAmong | services/geminiService.ts:107-116 | the hits pushed while walking a key list are exactly the found hits of the listed keys |
| Extractor.DiscoverDistinct | services/geminiService.ts:107-116 | hits pushed for pairwise distinct keys have pairwise distinct offsets |
| Extractor.InsertByStart | services/geminiService.ts:120 | inserting a hit with a fresh offset into an ascending list keeps it ascending and adds exactly that hit |
| Extractor.SortByStart | services/geminiService.ts:120 | the sort by `start` yields an ascending permutation of the hits |
| Extractor.Sorted | services/geminiService.ts:119-120 | the sorted list holds every found hit exactly once, by strictly ascending offset, with distinct keys |
| Extractor.ClosingQuoteFrom | services/geminiService.ts:138-144 | the scan finds the first quote not preceded by a backslash at or after the offset, or reports that none exists |
| Extractor.CutAtClosingQuote | services/geminiService.ts:138-146 | the value is the span up to its first quote not preceded by a backslash, exclusive; with no such quote the whole span is the value |
| Extractor.Unescape | services/geminiService.ts:149-152 | the three passes leave a text without backslashes unchanged and never lengthen a text |
| Extractor.Escape | services/geminiService.ts:149-152 | the partner of the unescape: the JSON string body `JSON.stringify` writes, with quotes, backslashes and control characters escaped; it holds no raw control character and no leading quote, and ends in a backslash only when the text holds one |
| Extractor.UnquotePass | services/geminiService.ts:150 | the first pass turns every escaped quote of a JSON body back into a quote and leaves the escaped line breaks |
| Extractor.UnquoteChar | services/geminiService.ts:150 | the first pass turns one escaped character back on its own and resumes right after it |
| Extractor.NewlinePass | services/geminiService.ts:151 | the second pass turns every escaped line break back into a line break |
| Extractor.UnescapeEscape | services/geminiService.ts:149-152 | the unescape undoes the JSON escaping of every text without backslashes and without control characters other than the line feed |
| Extractor.EscapeHasNoClosingQuote | services/geminiService.ts:138-144 | every quote of a JSON body is preceded by a backslash, so the cut never ends the value inside it |
| Extractor.CutAtAppendedQuote | services/geminiService.ts:138-146 | the value is cut at a quote that follows a text free of closing quotes and not ending in a backslash |
| Extractor.Clean | services/geminiService.ts:138-152 | the shown value is never longer than its span, and a span without quotes or backslashes is shown as it is |
| Extractor.CleanEscape | services/geminiService.ts:138-152 | a value `JSON.stringify` wrote for such a text, followed by its closing quote and anything after, is shown exactly as the original text |
| Extractor.TabShownEscaped | services/geminiService.ts:149-152 | other JSON escapes are shown as written: a tab, written `\t`, is displayed as a backslash and a `t` |
| Extractor.ValueAt | services/geminiService.ts:125-152 | a hit's value is the cleaned text from its content start to the span end, read in the other order when the span end comes first |
| Extractor.WalkValue | services/geminiService.ts:123-157 | with distinct keys, no later assignment of the walk overwrites an earlier one |
| Extractor.ValuesKeys | services/geminiService.ts:123-157 | the walk over the sorted hits assigns exactly the found keys |
| Extractor.Extract | services/geminiService.ts:103-157 | the extracted record has a key iff its pattern occurs in the buffer; a buffer without any pattern yields the empty record |
| Extractor.NearestStartAfter | services/geminiService.ts:125-134 | the reference span end is the buffer end or the offset of a later match, and no found match lies strictly between |
| Extractor.NextIsNearest | services/geminiService.ts:125-130 | the hit after the i-th in offset order is the nearest later match of any key |
| Extractor.SpanEndIsNearest | services/geminiService.ts:125-134 | the span of the i-th sorted hit ends where the nearest later match starts, or at the end of the buffer |
| Extractor.ValueAgrees | services/geminiService.ts:123-157 | each found key gets the same value from the walk as from the description without sorting |
| Extractor.ValuesIsDescribed | services/geminiService.ts:120-157 | walking any ordered list of the found hits computes the described values |
| Extractor.ExtractIsReference | services/geminiService.ts:103-157 | the sort-and-walk scan equals the reference: each found key's span runs from its content start to the nearest later match of any key (or to the end), then is cut and unescaped |
| Extractor.ExtractKeysGrow | services/geminiService.ts:98-157 | a key extracted from a buffer is extracted from every extension of it: keys are never removed as text arrives |
| Extractor.UnescapeLossy | services/geminiService.ts:149-152 | the unescape is lossy: the JSON text for a backslash followed by `n` displays as a backslash and a line break |
| Extractor.RevealNotMonotone | services/geminiService.ts:138-152 | a displayed value is not always extended by the next chunk: `a\` is shown, then `a\n` becomes `a` and a line break |
| Stream.OverrideUnchanged | services/geminiService.ts:154-157 | overriding a record leaves it unchanged iff every overriding entry is already stored with the same value |
| Stream.WalkStep | services/geminiService.ts:123-157 | one assignment of the walk on top of a stored record adds exactly that key's value, and "nothing new" persists iff that value was already stored |
| Stream.Apply | services/geminiService.ts:122-157 | the dirty-check loop overrides the stored record with the walk, and `hasUpdate` is set iff the record changed |
| Stream.Refresh | services/geminiService.ts:103-157 | one chunk's pass overrides the stored record with the extraction of the whole buffer and reports a change iff the record changed |
| Stream.Feed | services/geminiService.ts:95-162 | one chunk appended: the running record stays the extraction of the buffer, and a change is reported iff that extraction changed; skipping an empty chunk makes no difference |
| Stream.Consume | src/services/geminiService.ts:23-90 | after all chunks, the buffer is their concatenation, the running record is the extraction of it, and the announcements are exactly the snapshots that differ from the previous one |
| Stream.ChangesStep | services/geminiService.ts:160-162 | a step adds the new snapshot to the announcements iff it differs from the previous snapshot |
| Stream.ChangesLast | services/geminiService.ts:160-161 | the last announcement is a copy of the current record |
| Stream.SilentStreamEmpty | services/geminiService.ts:154-162 | a stream that never calls `onUpdate` has extracted no field from its text |
| Stream.SnapshotsGrow | services/geminiService.ts:154-157 | the snapshots of a stream only gain keys |
| Stream.NotificationsDiffer | services/geminiService.ts:160-162 | no announcement repeats the one before it: `onUpdate` fires only on a change |
| Stream.NotificationsGrow | services/geminiService.ts:154-162 | a key once announced is in every later announcement |
| Finalize.MissingFrom | services/geminiService.ts:172-173 | the missing keys from a position of the fixed order on, each once and in that order |
| Finalize.MissingKeys | services/geminiService.ts:172-173 | the missing keys are exactly those absent or empty (falsy), listed once each in the fixed key order |
| Finalize.Fallback | services/geminiService.ts:180-189 | the completed record keeps every observed field and is empty exactly in the fields whose key is missing |
| Finalize.FinalizeStrict | services/geminiService.ts:165-190 | a successful parse is returned verbatim; after a failed one, the call fails iff more than two keys are missing, with the message naming them in key order, and otherwise returns the completed record |
| Finalize.FinalizeLenient | src/services/geminiService.ts:92-109 | a successful parse is returned verbatim; otherwise the completed record is returned whatever is missing: every observed field keeps its value, and the fields are empty exactly where missing |
| Finalize.StrictRefinesLenient | src/services/geminiService.ts:92-109 | whenever the strict finaliser returns a record the lenient one returns the same one, and the strict one fails only after a failed parse with more than two keys missing |
| Finalize.FallbackComplete | services/geminiService.ts:165-190 | a partial record holding all seven fields of a record completes to that record, and the strict finaliser accepts it when no field is empty |
| DirectService.ExpandDirect | services/geminiService.ts:39-191 | without an API key the call fails before anything is sent; otherwise the announcements are those of the chunk stream, an interrupted stream fails with its error, and a complete one ends in the strict finaliser applied to the whole text |
| DirectService.GenerateImageDirect | services/geminiService.ts:193-251 | without a key, with a remote error, or without an image part the call fails with the matching message; otherwise it returns the data URL of the first image part |
| RouteService.ExpandViaRoute | src/services/geminiService.ts:3-110 | a non-ok response or a missing body fails before any chunk is read; otherwise the announcements are those of the chunk stream and a complete stream always succeeds with the lenient finaliser's record |
| RouteService.GenerateImageViaRoute | src/services/geminiService.ts:112-125 | a non-ok response fails with its message, an ok one yields the returned URL |
| ImageData.LowerRun | src/app/api/image/route.ts:33 | `[a-z]+` consumes the maximal run of lower-case letters |
| ImageData.ParseDataUrl | src/app/api/image/route.ts:33 | every accepted reference image is `data:` + mime + `;base64,` + payload, with mime `image/` and lower-case letters, and a non-empty payload without line terminators |
| ImageData.ParseDataUrlRoundTrip | src/app/api/image/route.ts:67 | a data URL built from a valid mime type and a payload without line terminators is accepted and yields that mime type and payload |
| ImageData.ParseDataUrlExactly | src/app/api/image/route.ts:33 | the parser returns a pair iff the text is the data URL of that pair and the pair is valid |
| ImageData.FirstImage | src/app/api/image/route.ts:61-74 | the extraction finds nothing iff no part over all candidates carries image data |
| ImageData.FirstImageAt | src/app/api/image/route.ts:61-74 | the first part carrying image data wins, giving its data URL with the mime type defaulting to `image/png` |
| ImageData.MimeOf | src/app/api/image/route.ts:67 | `mimeType || 'image/png'`: a given mime type is kept, and the result is never empty |
| ImageData.FirstImageAppend | src/app/api/image/route.ts:63-73 | searching a concatenation finds the image of the first list when it has one, and searches the second list otherwise |
| ImageData.AllPartsAppend | src/app/api/image/route.ts:63-65 | the parts of a concatenation of candidates are the concatenation of their parts |
| ImageData.ScanParts | src/app/api/image/route.ts:65-70 | the inner loop returns the first image among one candidate's parts |
| ImageData.CandidateStep | src/app/api/image/route.ts:62-73 | the search over the first candidates extends by one candidate as the nested loops do |
| ImageData.FindImageUrl | src/app/api/image/route.ts:61-74 | the nested loops over candidates and parts return the first image over all parts in order, or nothing |
| ImageRoute.Accepted | src/app/api/image/route.ts:32-41 | the accepted images are inline parts with a valid mime type and payload, at most one per entry |
| ImageRoute.AcceptedStep | src/app/api/image/route.ts:33-41 | a valid data URL entry adds its own mime type and payload; an entry the parser rejects is skipped |
| ImageRoute.Reverse | src/app/api/image/route.ts:35 | the i-th element of the reversal is the i-th element from the end |
| ImageRoute.ExpectedStep | src/app/api/image/route.ts:32-41 | handling one more entry puts its inline part, if it parses, in front of the contents so far |
| ImageRoute.ExpectedShape | src/app/api/image/route.ts:29-41 | the contents end with the prompt text, and everything before it is an inline image |
| ImageRoute.UnshiftImages | src/app/api/image/route.ts:32-42 | the `forEach` yields the accepted images in reverse input order before the text; a non-string entry makes it fail |
| ImageRoute.BuildContents | src/app/api/image/route.ts:29-43 | a missing or empty image list leaves just the text; otherwise the accepted images precede the text in reverse input order; the text is always last |
| ImageRoute.HandleImage | src/app/api/image/route.ts:4-86 | the reply is 200 iff the key is set, the body and record are present, every image entry is a string, the remote call succeeds and some part carries an image; a 200 carries the first image's URL; a missing key has its own message and every other failure the generic one |
| Emphasis.NextStar | src/components/HighlightedText.tsx:13 | `[^*]+` runs up to the next star or the end of the text |
| Emphasis.MatchEndExactly | src/components/HighlightedText.tsx:13 | the anchored match of `\*[^*]+\*` ends at `e` iff the text from the start to `e` is a star, one or more non-stars and a star |
| Emphasis.MatchEndWindow | src/components/HighlightedText.tsx:13 | a window ending in a star, or at the end of the text, sees the same matches as the whole text |
| Emphasis.GapHasNoMatch | src/components/HighlightedText.tsx:13 | the unmatched text before a match, with the match's opening star, contains no match |
| Emphasis.TailHasNoMatch | src/components/HighlightedText.tsx:13 | the text after the last match contains no match |
| Emphasis.PrependMatch | src/components/HighlightedText.tsx:13 | a gap and the match after it, in front of a split of the rest, give a split of the text from the gap on |
| Emphasis.SplitFrom | src/components/HighlightedText.tsx:13 | the split loop's parts concatenate back to the remaining text and alternate unmatched text and leftmost matches |
| Emphasis.Split | src/components/HighlightedText.tsx:13 | the parts of `split` concatenate to the text; odd parts are whole matches, and no even part (with the star opening the next match) contains a match, so matches are leftmost and non-overlapping |
| Emphasis.Classify | src/components/HighlightedText.tsx:14-24 | a part is shown emphasised iff it starts and ends with a star, then without its outer stars (nothing for a lone star); any other part is shown verbatim |
| Emphasis.Inner | src/components/HighlightedText.tsx:20 | `slice(1, -1)`: the part without its first and last character, and empty for a part shorter than two |
| Emphasis.ClassifyAll | src/components/HighlightedText.tsx:13-25 | one segment per part, each classified on its own |
| Emphasis.Render | src/components/HighlightedText.tsx:9-25 | empty text renders nothing, any other text one segment per part of the split |
| Emphasis.CapturedShownEmphasised | src/components/HighlightedText.tsx:13-20 | every captured part is shown emphasised, with non-empty text, and putting the stars back gives the part |
| Emphasis.UnmatchedShownEmphasised | src/components/HighlightedText.tsx:14-24 | an unmatched part is shown emphasised iff it is a non-empty run of stars, and then without its two outer stars; otherwise it is shown verbatim |
| Emphasis.AllStars | src/components/HighlightedText.tsx:13 | in a text without a match, a prefix that starts and ends with a star is all stars |
| PromptSection.Submit | components/PromptSection.tsx:20-27 | an instruction is forwarded iff the value is not blank after trimming, and it is the untrimmed value; the form then closes with an empty value; a blank submit changes nothing |
| PromptSection.SubmitOnce | components/PromptSection.tsx:22-26 | a second submit right after a forwarded one forwards nothing |
| PromptSection.Toggle | components/PromptSection.tsx:39 | the pencil flips the editing flag and keeps the value |
| PromptSection.ToggleTwice | components/PromptSection.tsx:39 | toggling twice restores the editor |
| PromptSection.Cancel | components/PromptSection.tsx:67 | cancel closes the form and keeps the value |
| PromptSection.Change | components/PromptSection.tsx:57 | typing replaces the value and keeps the editing flag |
| PromptSection.Show | components/PromptSection.tsx:46-101 | the card shows the form iff editing, and the placeholder iff not editing with empty content |
| PromptSection.ShowAgreesWithRender | components/PromptSection.tsx:88-98 | a card that is not editing shows the placeholder iff the highlighted text renders nothing, and otherwise the same segments |
| HomePage.SetInput | src/app/page.tsx:39 | typing changes only the input |
| HomePage.Fail | src/app/page.tsx:84-87 | a failure moves to `error` and changes nothing else: record, image and history stay |
| HomePage.StartGenerate | src/app/page.tsx:55-57 | starting sets `expanding_prompt`, resets the record to all-empty fields and clears the image, and keeps input and history |
| HomePage.ApplyPartial | src/app/page.tsx:61-63 | a partial update overwrites exactly the fields it holds and changes nothing else on the page |
| HomePage.ApplyAll | src/app/page.tsx:61-63 | the announcements applied in turn change only the record, to the merge of all of them |
| HomePage.ExpansionDone | src/app/page.tsx:65-68 | the final record is shown and the image requested, and nothing else changes |
| HomePage.ImageDone | src/app/page.tsx:71-82 | the image is shown, the page is complete, and exactly one item is put in front of the history, whose old items keep their order |
| HomePage.Generate | src/app/page.tsx:52-88 | blank input is a no-op; otherwise the page never stays busy; a failure leaves `error` with the history unchanged and no image; a failed expansion leaves the merged announcements shown; success shows the final record and image and prepends exactly one item |
| HomePage.Regenerate | src/app/page.tsx:90-112 | without a subject nothing happens; a failure changes only the state to `error`; success shows the image and prepends one item built from the current record and input |
| HomePage.Without | src/app/page.tsx:155 | the filter keeps exactly the items whose id differs, and never lengthens the list |
| HomePage.WithoutAppend | src/app/page.tsx:155 | filtering distributes over concatenation, so the kept items keep their relative order |
| HomePage.WithoutTwice | src/app/page.tsx:155 | deleting the same id twice is deleting it once |
| HomePage.Delete | src/app/page.tsx:154-156 | delete changes only the history, to the filtered one |
| HomePage.Select | src/app/page.tsx:158-163 | select shows the item's record and image, sets `complete`, and leaves the history and input unchanged |
| HomePage.GenerateKeepsSettled | src/app/page.tsx:52-88 | from a page with no request in flight, whose complete state shows an image, generate ends in such a page |
| HomePage.RegenerateKeepsSettled | src/app/page.tsx:90-112 | the same for regenerate |
| HomePage.HistoryKeepsSettled | src/app/page.tsx:154-163 | the same for delete, select and typing |
| HomePage.FailedGenerateShowsLastSnapshot | src/app/page.tsx:59-87 | after a failed expansion whose announcements only gained keys, the page shows the last announcement over empty fields |
| HomePage.FailedStreamShowsFallback | src/app/page.tsx:59-87 | when a stream ends in a failure, whether or not it announced anything, the page shows the extraction of the whole text completed with empty fields, the very record the lenient finaliser returns |
| HomePage.StreamShowsExtraction | src/app/page.tsx:61-63 | the announcements of a stream, merged in turn over empty fields, give the extraction of the whole text completed with empty fields |
| HomePage.AnnouncedStreamShowsLast | src/app/page.tsx:61-63 | a stream that announced something shows its last announcement, the extraction of the whole text |
| App.ModificationTextInjective | App.tsx:70 | `For the <section>, please: <instruction>` determines section and instruction: different modifications give different texts |
| App.SplitAtComma | App.tsx:70 | two comma-free names followed by `, please: ` and a text give the same string only when names and texts agree |
| App.ModificationRequest | App.tsx:69-71 | a modification re-expands the idea with the record shown and the instruction `For the <section>, please: <instruction>` |
| App.ModificationRequestsDiffer | App.tsx:69-71 | different modifications from one session send different requests |
| App.SetInput | App.tsx:301 | typing changes only the input |
| App.Begin | App.tsx:37 | starting a request sets `expanding_prompt` and cancels the pending revert timers (the corrected start, see Findings) |
| App.BeginAsWritten | App.tsx:37 | starting a request as the source does it sets `expanding_prompt` and leaves earlier revert timers pending |
| App.ApplyPartial | App.tsx:43-45 | a partial update overwrites exactly the fields it holds and changes nothing else |
| App.ApplyAll | App.tsx:43-45 | the announcements are merged in turn over the record shown, and nothing else changes |
| App.Fail | App.tsx:54-57 | a failure sets `error` and adds one revert timer to the target, leaving record, image and input as they were |
| App.TimerFired | App.tsx:57 | the oldest pending timer sets its state and is removed; with none pending nothing happens |
| App.Finish | App.tsx:42-58 | the request never ends busy; it ends `complete` iff both remote calls succeed, then with the new image and record; otherwise `error` with one more timer and the image unchanged; the record is the merged announcements after a failed expansion and the expanded record after a failed image |
| App.RunInitial | App.tsx:33-59 | blank input is a no-op; otherwise the result is `complete` iff both calls succeed, then with the new image and the expanded record; a failed expansion leaves the announcements merged over empty fields, a failed image the expanded record; a failure leaves `error` with one timer to `idle` and no image |
| App.RunModification | App.tsx:61-87 | refused while busy; otherwise the modification request is expanded, and the result is `complete` iff both calls succeed, then with the new image and the expanded record; a failed expansion leaves the announcements merged over the record shown, a failed image the expanded record; a failure leaves `error` with one timer to `complete` if the session was complete before and to `idle` otherwise, and keeps the image |
| App.RunInitialAsWritten | App.tsx:33-59 | the initial handler as written: the same outcomes and records, but a failure adds its timer to those still pending |
| App.RunModificationAsWritten | App.tsx:61-87 | the modification handler as written: the same outcomes and records, but a failure adds its timer to those still pending |
| App.SubmitEnabled | App.tsx:307 | submit is enabled iff the input is non-empty and the state is `idle`, `complete` or `error` |
| App.FinishKeepsSettled | App.tsx:42-58 | a request started with no timer pending, reverting to `idle` or to `complete` with an image, ends settled: not busy, and at most one timer, pending only in `error` |
| App.InitialKeepsSettled | App.tsx:33-59 | initial generation keeps the session settled |
| App.ModificationKeepsSettled | App.tsx:61-87 | a modification keeps the session settled |
| App.TimerKeepsSettled | App.tsx:57 | a timer firing, and typing, keep the session settled |
| App.InitialFailureRevertsToIdle | App.tsx:54-57 | a failed initial generation shows `error`, then `idle` once the timer fires |
| App.ModificationFailureReverts | App.tsx:81-86 | a failed modification shows `error`, then `complete` with the image still shown if the session was complete, and `idle` otherwise |
| App.TimerCannotInterrupt | App.tsx:54-57 | with the corrected start no timer is pending while a request is in flight, so none can change its state |
| App.StaleTimerCounterexample | App.tsx:54-57 | as written, a failure's timer still pending when the user starts again fires during the new request: the state becomes `idle` and submit is enabled while the request is in flight |

## Left out

- Remote calls are not modelled; each result is an input. This covers `GoogleGenAI`, `generateContentStream`, `generateContent` and `fetch`. The streamed chunks are a `Transfer` value; the image model's answer is an `ImageResponse` or an error; the route's status is a flag.
- `JSON.parse` is a parameter of type `string -> Option<PromptStructure>`. A parse that succeeds but yields something other than a seven-string record is not modelled; the `as PromptStructure` cast would pass it through unchecked.
- `TextDecoder` is not modelled. Each chunk is already a string, so a multi-byte character split across chunks is out of scope.
- `crypto.randomUUID` and `Date.now` are inputs to the history handlers.
- `setTimeout` is an explicit timer-fired event. The three-second delay is not modelled, only the order in which timers fire.
- Downloads (JSZip, file-saver, anchor elements) are not modelled: they are side effects with no logic to state.
- The prompt templates (`systemInstruction`, `REFERENCE_PROMPT`, the `fullPrompt` text) are constant formatting. In the image route the template is the parameter `compose`. A record with missing fields, which the template would print as `undefined`, is covered only through that parameter.
- `src/app/api/expand/route.ts` is the server side of the stream and is not part of this model.
- The layout, `HistorySidebar`, `CinematicTreatment`, scrolling, fullscreen and animation are presentation only.
- A field's shown value is not monotone: a trailing backslash is shown and then becomes a line break. `Extractor.RevealNotMonotone` exhibits it.
- JSON escapes other than `\"`, `\n` and `\\` (`\t`, `\r`, `\b`, `\f`, `\uXXXX`) are shown as written, both while streaming and in the fallback record. The unescape round trip is stated only for texts without such characters; `Extractor.TabShownEscaped` exhibits the tab.
- HomePage.Generate: the busy guard of the home page is the disabled button (`src/app/page.tsx:388-394`), not the handler. The model runs each handler to completion, so a second request overlapping a running one is not modelled.
- App.RunInitial: uses the corrected start `App.Begin`, which cancels pending revert timers. It therefore differs from the code on purpose, as described under Findings; `App.RunInitialAsWritten` is the code as written.
- App.RunModification: uses the corrected start `App.Begin`, which cancels pending revert timers. It therefore differs from the code on purpose, as described under Findings; `App.RunModificationAsWritten` is the code as written.

## Findings

| source | as written | input that shows it | evidently intended | confidence | as-written member | corrected member |
|---|---|---|---|---|---|---|
| App.tsx:54-57, 81-86 | a failure sets a three-second `setTimeout` that reverts the state, and no later request cancels it | a failure from input "a deer" leaves `error` with a timer to `idle`; the user submits again at once; the timer fires while the new request is expanding | the revert applies only to the failed request: a new request cancels pending reverts, so nothing switches the state to `idle` (and enables submit) while a request is in flight | medium, not executed | App.BeginAsWritten, App.RunInitialAsWritten, App.RunModificationAsWritten, App.StaleTimerCounterexample | App.Begin, App.TimerCannotInterrupt, App.ModificationKeepsSettled |
