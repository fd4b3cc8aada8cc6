# Dark-makeover studio: a verified model of its generation logic

The application is a single-page React studio. The user supplies one or more images of a subject character, an optional outfit, place and pose reference, a prompt, an optional pose-and-composition text and an optional negative prompt. It then either edits an image (image mode) or animates the first character image (video mode) through a remote generative service.

This project models the deterministic parts of that studio and proves properties about them. The remote service itself is not modelled; it is an oracle the model consults.

The model has six modules:

- `Js`: the JavaScript semantics the code relies on.
  - String truthiness and `||` on strings or `null` (`Truthy`, `Or`).
  - A promise that resolves or rejects with a message (`Settled`).
  - Decimal printing of a number (`NatToString`) and `Array.prototype.join` (`Join`).
- `Types`: the records of `types.ts`. A browser `File` is an opaque token with a media type.
- `GeminiService`: the service layer.
  - `editImage`: assembles the parts, sends them and scans the reply.
  - The data-URL parser.
  - `upscaleImage`: validates its input, then sends the image and a fixed prompt.
  - `generateVideo`: submits a job, polls until it is done and checks the result link.
  - The remote calls are oracle parameters:
    - `generate` maps a parts list to a settled reply.
    - A `VideoScript` is the finite trace of operation states the service reports.
    - `fetch` maps a URL to a settled download response.
- `PromptComposer`: the image-mode instruction `handleGenerate` writes.
  - It assigns image numbers: character images 1..n, then outfit, place and pose, each only when present.
  - It renders a sequence of `Block`s (the fidelity protocol, one role block per present reference, the final instructions, then the optional suffixes).
  - The fixed phrases are a `Wording` parameter. `PromptComposer.Words` holds the application's own phrases.
  - Two methods build the text step by step, as the handler does. Each is proved equal to `Render` of the block structure.
- `App`: the page state as a class.
  - Fields are the `useState` cells.
  - `HandleGenerate` validates the form, composes the prompt, runs one attempt and shows its outcome.
  - `HandleModeChange` and `ClearHistory` model the other two handlers.
  - One attempt is the pure function `Attempt`. It returns the `Completion`: error, results, history entry and the service calls made.
  - The key invariant is `IndicesNameTheirImages`: every image number written into the instruction is the 1-based position of that very image among the parts `editImage` sends.
- `CharacterReferenceInput`: the subject-image picker as a class with the two parallel lists `uploadedFiles` and `previews`.
  - `FileToBase64` takes the payload as `split(',')[1]` of the data URL the reader returns.
  - `HandleFileChange` and `HandleRemoveImage` model the two handlers.
  - Previews and uploaded files stay aligned when every conversion succeeds. `FailedConversionMisaligns` shows concretely how one failed conversion shifts them apart, so that a removal by index then drops a different file's preview.

One detail of the source is followed exactly: in the "no image" branch of image mode, the history entry's type is always `'image'` (App.tsx:151). In the error branch the type follows the mode (App.tsx:174). The model keeps the two apart: `ImageAttempt` writes `ImageResult` in the first case, and `Kind(f.mode)` is used in the second.

## Model

| member | source | states |
|---|---|---|
| Js.OrOfNonEmpty | App.tsx:139-140 | when the left operand is null or a non-empty string, `a \|\| b` is `a` if present and `b` otherwise |
| Js.DigitChar | App.tsx:65 | the character for a digit below 10 is the ASCII digit whose offset from '0' is that digit |
| Js.NatToString | App.tsx:65 | the decimal form of a number is non-empty, all digits, has no leading zero above 9, and has one digit exactly below 10 |
| Js.NatToStringRoundTrip | App.tsx:65 | reading the decimal form back gives the number |
| Js.NatToStringInjective | App.tsx:65 | two numbers with the same decimal form are equal, so index lists name distinct images |
| GeminiService.RequestPartsLayout | services/geminiService.ts:13-56 | the edit parts are the n character images in order, then outfit, place and pose each only when present, then exactly one text part, last; the length is n + present references + 1 |
| GeminiService.EditImage | services/geminiService.ts:10-81 | sends exactly the role-ordered parts with the text last (each image part carries the file's base64 and media type) and returns the scanned reply |
| GeminiService.LatestIsLast | services/geminiService.ts:71-77 | the scan's value is absent iff no part yields one, and otherwise is the value of a part after which no part yields one |
| GeminiService.ReadResponse | services/geminiService.ts:67-80 | the loop over the reply's parts computes the scan `Extracted`; missing candidates, content or parts give no text and no image |
| GeminiService.ExtractedMeaning | services/geminiService.ts:67-80 | the text is absent iff no part has truthy text, and otherwise is the last truthy text; the image is absent iff every part has truthy text or no inline data, and otherwise is the data URL of the last part with inline data and no truthy text; neither is ever empty; missing parts give neither |
| GeminiService.LastMarker | services/geminiService.ts:84 | finds the last position up to a bound where `;base64,` starts with a non-empty media type before it, or reports there is none |
| GeminiService.ParseDataUrl | services/geminiService.ts:83-87 | a match splits the URL into a non-empty media type and a non-empty payload that, with `data:` and `;base64,`, make up the whole URL |
| GeminiService.ParseDataUrlMeaning | services/geminiService.ts:83-87 | a parse succeeds iff the string matches the pattern; a success has non-empty media type and data, re-formats to the input, and splits at the last possible marker |
| GeminiService.MarkerNeedsSemicolon | services/geminiService.ts:84 | a marker position holds the `;` that starts `;base64,` |
| GeminiService.MarkerInSuffix | services/geminiService.ts:84 | a marker inside a suffix is still a marker when seen from that suffix |
| GeminiService.NoLineTerminatorConcat | services/geminiService.ts:84 | two strings without line terminators concatenate to one without them |
| GeminiService.FormatLayout | services/geminiService.ts:75 | the formatted image is `data:` + media type + `;base64,` + data, splits at the end of the media type, and has no line terminator |
| GeminiService.NoLaterMarker | services/geminiService.ts:75 | when the data holds no `;base64,`, no marker follows the one written after the media type |
| GeminiService.ParseFormatRoundTrip | services/geminiService.ts:75-87 | parsing the line-75 format of a non-empty media type and data (no line terminators, no `;base64,` in the data) gives back exactly that media type and data |
| GeminiService.UpscaleImage | services/geminiService.ts:89-127 | an input the parser rejects throws the fixed message before any request; otherwise it sends exactly [the parsed image, the fixed prompt] and returns the scanned reply |
| GeminiService.UpscaleSendsBackScannedImage | services/geminiService.ts:75-107 | an image scanned from a reply with well-formed inline data is sent to the upscaler byte for byte with its own media type |
| GeminiService.UpscaleRejectsEmptyPayload | services/geminiService.ts:75-93 | an empty inline payload gives a truthy data URL that the upscaler rejects when the media type holds no semicolon |
| GeminiService.PolledStopsAtFirstTerminal | services/geminiService.ts:148-154 | polling consumes the refresh replies in order, stops at the first done operation or failed refresh, and every operation seen before the last is not done |
| GeminiService.PolledStep | services/geminiService.ts:150-153 | one loop turn: a not-done operation followed by a resolved refresh continues polling from the refreshed operation |
| GeminiService.PollUntilDone | services/geminiService.ts:148-154 | the poll loop reports 1 + refreshes operations, the submitted one first, and ends as the function `Polled` does |
| GeminiService.GenerateVideo | services/geminiService.ts:130-170 | submits one job with the prompt, image and one video; a rejected submission reports nothing; otherwise observes 1 + refreshes operations, and the whole run equals `RunVideo` |
| GeminiService.DownloadLink | services/geminiService.ts:156-158 | a link found is never empty; a missing response, a missing video list or an empty one gives no link |
| GeminiService.FetchOutcome | services/geminiService.ts:162-169 | the download succeeds iff the fetch resolves with `ok`, giving its object URL; a rejected fetch rethrows; a reply that is not ok throws the fixed message followed by its status text |
| GeminiService.VideoRunMeaning | services/geminiService.ts:148-169 | a rejected submission rethrows; otherwise the observed operations are the submitted one and one per successful refresh; a failed refresh rethrows; a done operation without a link throws the fixed message; with a link, the URL fetched is link + `&key=` + key, and the outcome is the object URL on an ok reply, the status-text error on a reply that is not ok, and the fetch's error on a rejection |
| PromptComposer.IndexListIsJoin | App.tsx:65 | the index list equals `Array.from({length: n}, (_, i) => i + 1).join(', ')` |
| PromptComposer.IndexListWording | App.tsx:65-93 | one image is written "Image 1", two are written "Images 1, 2" |
| PromptComposer.ConcatAppend | App.tsx:119-128 | concatenation distributes over appending text lists |
| PromptComposer.TextsAppend | App.tsx:119-128 | the texts of appended blocks are the appended texts |
| PromptComposer.RenderAppend | App.tsx:119-128 | rendering distributes over appending blocks |
| PromptComposer.RenderEmpty | App.tsx:96 | no blocks render as the empty string |
| PromptComposer.RenderSingle | App.tsx:96-115 | one block renders as its text |
| PromptComposer.RenderSnoc | App.tsx:98-127 | appending a block appends its text, as each `+=` does |
| PromptComposer.RenderCons | App.tsx:119 | a leading block's text comes first |
| PromptComposer.IndicesConsecutive | App.tsx:64-83 | each reference gets an index iff it is present; the present indices run consecutively from n+1 in the order outfit, place, pose; the truthiness test on each index agrees with presence |
| PromptComposer.ComposeImageInstruction | App.tsx:63-119 | the step-by-step instruction (counter, three optional role blocks appended with `+=`, final instructions) equals the rendering of the fidelity protocol, the present role blocks and the final instructions |
| PromptComposer.ComposeFullPrompt | App.tsx:61-128 | the full prompt equals the rendering of the mode's core (the raw prompt in video mode) followed by the non-empty suffixes |
| PromptComposer.RoleBlocksNameTheirIndices | App.tsx:96-115 | each role block names its reference's assigned index, the pose block names the n character images, and each assigned index has its block |
| PromptComposer.RenderSuffixes | App.tsx:122-128 | the composition suffix is appended iff its text is non-empty, and then the exclusion suffix iff the negative prompt is non-empty |
| PromptComposer.ImageCoreLayout | App.tsx:85-119 | the image-mode core is the fidelity protocol, then one role block per present reference in role order naming consecutive indices from n+1, then the final instructions |
| PromptComposer.SuffixLayout | App.tsx:122-128 | the composition suffix, if any, comes first and the exclusion suffix, if any, last |
| PromptComposer.EndsWithConcat | App.tsx:117 | a suffix of the right operand is a suffix of the concatenation |
| PromptComposer.EndsWithSuffix | App.tsx:117 | a suffix of a suffix is a suffix |
| PromptComposer.EndsWithLastText | App.tsx:119-128 | a rendered instruction ends with the text of its last block |
| PromptComposer.ComposedEnding | App.tsx:117-128 | the full prompt ends with the negative suffix if any, else the composition suffix if any, else the user's prompt verbatim |
| App.ImageGeneration | App.tsx:131-157 | the image branch (edit, then upscale if an image came back, with the catch path) computes `ImageAttempt` |
| App.VideoGeneration | App.tsx:158-166 | the video branch, with the catch path, computes `VideoAttempt` |
| App.Generate | App.tsx:61-179 | composing the prompt and running the mode's branch computes `Attempt` |
| App.ErrorMessageShown | App.tsx:168 | the error shown is the thrown message when non-empty, else the fixed fallback; it is never empty |
| App.AnswerNonEmpty | services/geminiService.ts:72-75 | a resolved reply carries no empty text and no empty image |
| App.ImageAttemptOutcome | App.tsx:131-157 | the first call is the edit carrying the instruction; success iff no error; a success shows a truthy image after exactly an edit and an upscale call; an error shows nothing and records a censored 'Original Material' entry with the first character image |
| App.UpscaleFallback | App.tsx:139-140 | the image shown is the upscaled one when present and the first-stage one otherwise, and the text falls back the same way on its own |
| App.NoImageNoUpscale | App.tsx:146-156 | no image from the edit means no upscale call, the "no image" error, and a censored entry |
| App.VideoAttemptOutcome | App.tsx:158-179 | one call with the prompt as typed and the first character image; a success shows the video as 'Sinister Animation'; an error records a censored video entry |
| App.AttemptOutcome | App.tsx:130-179 | in either mode: the entry carries the clock and the mode's type; success iff no error; an error shows nothing and records 'Original Material'; image mode sends the full prompt, video mode the raw prompt |
| App.VideoIgnoresImageOptions | App.tsx:159-160 | in video mode the suffixes, the references, the other character images and the wording do not affect the attempt |
| App.ComposedRoleBlocks | App.tsx:85-119 | the instruction opens with the fidelity protocol for n images, and its role blocks are exactly those of the assigned indices |
| App.AssignedIndicesNameTheirImages | App.tsx:64-83 | a reference is given an index iff it is present, and that index is the 1-based position of its image among the edit parts |
| App.RolesNameTheirImages | App.tsx:96-115 | each role block names the part holding its reference's image, and the pose block speaks of the n character images |
| App.IndicesNameTheirImages | App.tsx:63-133 | every image number in the instruction is the 1-based position of that image among the edit parts: characters are parts 1..n, each role block names its reference's part, and the text is the last part |
| App.RoleBlocksPresent | App.tsx:97-115 | an outfit, place or pose block is in the instruction exactly when that reference is present |
| App.App.constructor | App.tsx:16-30 | every state cell starts at its `useState` initial value |
| App.App.ResetResults | App.tsx:45-50 | clears the error and the three results and changes nothing else |
| App.App.HandleGenerate | App.tsx:52-184 | an incomplete form sets the fixed error and nothing else, with no service call; otherwise the results and the prepended entry are those of `Attempt` on the form, and loading ends cleared |
| App.App.Show | App.tsx:142-183 | shows an attempt's outcome, prepends its entry, and clears the loading flag and message |
| App.App.HandleModeChange | App.tsx:186-194 | sets the mode and clears the results; leaving image mode drops the three references and the composition text, staying keeps them |
| App.App.ClearHistory | components/GenerationHistory.tsx:19 | empties the history |
| CharacterReferenceInput.Split | components/CharacterReferenceInput.tsx:14 | `split` always yields at least one piece |
| CharacterReferenceInput.Extend | components/CharacterReferenceInput.tsx:14 | one more character either opens a new piece (a separator) or extends the last one, leaving the earlier pieces as they were |
| CharacterReferenceInput.SplitSnoc | components/CharacterReferenceInput.tsx:14 | splitting a string with one more character is one `Extend` step on the pieces of the shorter string |
| CharacterReferenceInput.SplitJoin | components/CharacterReferenceInput.tsx:14 | joining the pieces with the separator gives back the string, and no piece holds the separator |
| CharacterReferenceInput.SplitAt | components/CharacterReferenceInput.tsx:14 | splitting around one separator splits the two sides independently |
| CharacterReferenceInput.SplitWithout | components/CharacterReferenceInput.tsx:14 | a string without the separator is one piece |
| CharacterReferenceInput.PayloadMeaning | components/CharacterReferenceInput.tsx:14 | the payload is the text after the first comma up to the next comma, and there is none without a comma |
| CharacterReferenceInput.DataUrlPayload | components/CharacterReferenceInput.tsx:14 | for a header and data without commas, the payload of header,data is the data |
| CharacterReferenceInput.FileToBase64 | components/CharacterReferenceInput.tsx:8-19 | a conversion resolves iff the read does, and its entry is for that file with the file's declared type |
| CharacterReferenceInput.FileToBase64Meaning | components/CharacterReferenceInput.tsx:8-19 | a failed read rethrows; a successful one gives an entry for the file, with the browser's declared type rather than the URL's, and the payload `split(',')[1]`, or empty when the data URL has no comma |
| CharacterReferenceInput.FileToBase64OfDataUrl | components/CharacterReferenceInput.tsx:13-15 | a data URL `<header>,<data>` with no other comma converts to an entry whose payload is exactly `<data>` |
| CharacterReferenceInput.FilesOf | components/CharacterReferenceInput.tsx:29 | the files of the uploaded entries, one per entry, in order |
| CharacterReferenceInput.Previews | components/CharacterReferenceInput.tsx:34-35 | one preview per file, in order |
| CharacterReferenceInput.KeptAppend | components/CharacterReferenceInput.tsx:34-42 | the conversions of appended file lists are the appended conversions |
| CharacterReferenceInput.KeptMeaning | components/CharacterReferenceInput.tsx:36-42 | the uploaded list is at most as long as the files, equally long iff every conversion succeeds, holds only successful conversions, and holds every one of them |
| CharacterReferenceInput.AlignedWhenAllConverted | components/CharacterReferenceInput.tsx:34-45 | when every conversion succeeds, the uploaded entries and the previews describe the same files at the same positions |
| CharacterReferenceInput.RemoveAtMeaning | components/CharacterReferenceInput.tsx:54-55 | filtering out an index drops exactly that position and keeps the rest in order; an index out of range changes nothing |
| CharacterReferenceInput.RemovePreservesAlignment | components/CharacterReferenceInput.tsx:52-59 | removing one index from two aligned lists leaves them aligned |
| CharacterReferenceInput.FailedConversionMisaligns | components/CharacterReferenceInput.tsx:34-55 | a failed first conversion leaves one entry against two previews, not aligned, and removing index 0 then drops the second file's entry but the first file's preview |
| CharacterReferenceInput.CharacterReferenceInput.constructor | components/CharacterReferenceInput.tsx:22-23 | both lists start empty |
| CharacterReferenceInput.CharacterReferenceInput.HandleFileChange | components/CharacterReferenceInput.tsx:25-50 | no selection changes nothing and calls back nothing; otherwise the merged list is the old files then the new, the previews are one per merged file, and the uploaded list (handed to the callback) is the successful conversions in order |
| CharacterReferenceInput.CharacterReferenceInput.HandleRemoveImage | components/CharacterReferenceInput.tsx:52-60 | revokes the preview at the index, drops that index from both lists, and hands the new uploaded list to the callback |

## Left out

- The remote service (the generative SDK, `generateContent`, `generateVideos`, `getVideosOperation`, `fetch` and `blob`) is not modelled. The model consults it as oracle parameters: a reply per request, a finite trace of operation states, and a reply per URL.
- `Date.now()`, `URL.createObjectURL` and `FileReader` are parameters: a clock value `now`, a function `objectUrl` from a file to its handle (the same file always gets the same handle, unlike the browser, which mints a fresh one per call; see `HandleFileChange` below), and a function `read` from a file to its settled data URL.
- `URL.revokeObjectURL` is modelled as the handle `HandleRemoveImage` returns. The `onFileSelect` callback is modelled as the list the handlers return.
- The 10-second sleep between polls and the 3-second rotation of the loading message are timers and are not modelled. Neither is the `console.log` inside the page's `onPoll` callback (App.tsx:160-162) or `console.error` (App.tsx:170, components/CharacterReferenceInput.tsx:40). The operations handed to `onPoll` are modelled: they are `GenerateVideo`'s `observed`.
- GeminiService.GenerateVideo: requires that the trace of operation states reaches a done operation or a failed refresh (`PollingEnds`). A service that never finishes would keep the source polling forever, and the model does not cover that run.
- App.App.HandleGenerate: the handler is one atomic step in the model. In the source it awaits `editImage`, `upscaleImage` and `generateVideo` (App.tsx:133, 137, 160) while the mode selector, the pickers and the history's clear button stay active. A mode change in flight clears the results, which the attempt then overwrites with results for the old mode. A history clear in flight leaves only the new entry, because the entry is prepended with an updater. The model does not cover these interleavings. Runs where the video service never finishes are excluded by the `PollingEnds` precondition it takes over from `GenerateVideo`.
- App.App.HandleGenerate: does not expose the intermediate loading messages ("Applying malignant makeover...", "Enhancing wicked details..."), because the `finally` block clears them before the handler returns. Its `calls` out-parameter is an observation of the service calls, not page state.
- App.App.HandleGenerate: the wording of the instruction is the class's `wording` constant rather than the literal phrases, so that no proof depends on the long texts. `PromptComposer.Words` holds the application's exact phrases.
- CharacterReferenceInput.FileToBase64: when the data URL holds no comma, `split(',')[1]` is `undefined`; the model stores the empty string.
- CharacterReferenceInput.CharacterReferenceInput.HandleFileChange: the handler is modelled as one atomic step, and the reset of the file input (`event.target.value = ''`) is a DOM effect that is not modelled. Two effects are therefore not captured:
  - Handles: `URL.createObjectURL` returns a fresh handle on every call, so each selection mints new handles for the files already uploaded (CharacterReferenceInput.tsx:34-35) and replaces the previews without revoking the old ones; only `handleRemoveImage` revokes (line 53), so the superseded handles leak. In the model a handle is a function of the file, so the new previews equal the old ones, the leak is invisible, and a file removed and added again gets back the handle that was reported revoked.
  - Interleavings: the loop awaits each conversion (line 37) and nothing disables the remove button or the picker meanwhile. Lines 44-46 write lists built from the `uploadedFiles` captured when the handler started, so a removal made during the loop is undone, and of two overlapping selections the one that finishes last wins and the other's new files are lost.
- The startup check for the API key (services/geminiService.ts:4-6) is configuration. The key is a parameter of the video download.
- The JSX and the purely visual components (`ResultDisplay`, `Header`, `ModeSelector`, and `GenerationHistory` apart from its clear button) are not modelled.
- The single-file pickers (`ImageInput`, `PlaceReferenceInput`, `PoseReferenceInput`) repeat `fileToBase64` and are not modelled separately. `OutfitReferenceInput` and `LoadingDisplay` are not part of this model; their results reach the page as `Option<UploadedFile>` fields.
- React's re-rendering and `useCallback` dependency lists are not modelled. A state setter is a field assignment.
