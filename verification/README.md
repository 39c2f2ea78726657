# Gemini image stylist: a Dafny model of its core

The application is a browser page where a user uploads one or more images,
types a prompt, and gets back one edited image from the Gemini image model.
This project models the logic underneath the page. The page rendering is not
modelled.

- **`FileUtils`** models `fileToBase64`. Only files whose declared type starts
  with `image/` are admitted. The base64 payload is taken from the reader's
  data URL with `split(',')[1]`.
- **`GeminiService`** models `editImageWithPrompt`. It builds the request:
  every image as an inline-data part, in order, then one text part holding the
  prompt, asking for image-only output. It classifies the reply. The result is
  the data of the first inline image, or one of four failure messages: no
  candidates, a halting finish reason, a text-only reply, or nothing at all.
  The `catch` handler normalises every failure. A failure that comes from an
  `Error` always starts with the `Gemini API Error:` marker, and the handler
  never adds the prefix to a message that already has the marker. A message
  that arrives with the marker doubled is passed through as it is. A thrown
  value that is not an `Error` becomes the fixed unknown-error message, which
  carries no marker.
- **`App`** models the application state: the images, the edited image, the
  prompt, the loading flag and the error. It models the upload, remove,
  prompt, generate and clear handlers as pure transitions. The two
  asynchronous handlers, upload and generate, are also split at their
  `await`, so interleavings can be stated. An invariant holds across every run
  of handlers.
- **`Js`** models the JavaScript built-ins these rely on: `startsWith`,
  `trim`, `split` with its inverse `join`, truthiness of an optional string,
  and how `${undefined}` renders.
- **`Wrappers`** holds `Option` and `Result`.

The network call is a parameter, `generateContent: Request -> Exchange`. It
yields either a response value or a thrown value. The browser's file reader is
also an input: each `File` carries the data URL that reading it produced, or a
read error.

Where the TypeScript types and the running code differ, the model follows the
code:
- `split(',')[1]` is `undefined` when the reader's text has no comma. The
  payload is therefore `Option<string>`, and a template literal renders `None`
  as `undefined`.
- An empty `finishReason` is falsy in JavaScript, so it does not halt
  classification.
- `response.candidates` may be absent, and so may `content` and `parts`.

## Model

| member | source | states |
|---|---|---|
| Js.Trim | App.tsx:44 | `trim()` returns the contiguous slice of the input left after stripping ECMAScript whitespace from both ends; it is empty exactly when the input is all whitespace, and its ends are not whitespace |
| Js.TrimIdempotent | services/geminiService.ts:54 | trimming an already-trimmed text changes nothing |
| Js.Split | utils/fileUtils.ts:10 | `split(sep)` always yields at least one field and no field contains the separator |
| Js.JoinSplit | utils/fileUtils.ts:10 | joining the fields of `split(sep)` with `sep` gives back the original text |
| Js.SplitJoin | utils/fileUtils.ts:10 | splitting the join of at least one separator-free field gives back exactly those fields |
| FileUtils.PayloadOf | utils/fileUtils.ts:10 | `split(',')[1]` is undefined exactly when there is no comma; otherwise it is the comma-free text strictly after the first comma, up to the second comma or the end |
| FileUtils.FileToBase64 | utils/fileUtils.ts:2-16 | a type not starting with `image/` (case-sensitive) is rejected as not-an-image before any read; for an image type, a read error rejects, and a read success resolves with the payload of the data URL and exactly the declared type |
| FileUtils.RejectionValue | utils/fileUtils.ts:4-13 | the type-gate rejection is an `Error` whose message is "File is not an image."; a read failure rejects with a non-`Error` value |
| FileUtils.DataUrlRoundTrip | App.tsx:25 | building `data:<type>;base64,<payload>` and taking `split(',')[1]` gives back the payload when neither the type nor the payload holds a comma |
| FileUtils.DataUrlLayout | App.tsx:25 | the data URL is `data:`, then the media type, then `;base64`, then a comma, then the payload; its length is the sum of the parts; when the media type has no comma, the first comma of the URL is the one before the payload |
| FileUtils.DataUrlCommaInTypeBreaksRoundTrip | utils/fileUtils.ts:10 | the comma-free condition is needed: for a media type `x,y` (x, y and the payload comma-free), the extracted "payload" is `y;base64` |
| FileUtils.FileToBase64RecoversPayload | utils/fileUtils.ts:8-11 | for an image file whose reader writes the usual data URL, the result is exactly the encoded payload and the declared type |
| GeminiService.ImageParts | services/geminiService.ts:16-21 | one inline-data part per input image, in input order, each carrying that image's data and media type unchanged |
| GeminiService.BuildRequest | services/geminiService.ts:23-36 | the request names the image model, holds n+1 parts (the n image parts in order, then one text part equal to the prompt), and its response modalities are exactly `[IMAGE]` |
| GeminiService.ImagesOfImageParts | services/geminiService.ts:16-21 | the images can be read back, in order, from the inline-data parts built for them |
| GeminiService.RequestRoundTrip | services/geminiService.ts:26-31 | decoding the built request gives back the images and the prompt, so the part list loses nothing |
| GeminiService.CandidateParts | services/geminiService.ts:48 | `content?.parts ?? []` is the part list when both the content and its parts are present, and empty otherwise |
| GeminiService.Halted | services/geminiService.ts:44 | a candidate halts exactly when its finish reason is present, non-empty and not `STOP`; a missing, empty or `STOP` reason never halts |
| GeminiService.TrimmedText | services/geminiService.ts:54 | `response.text?.trim()` is absent exactly when the text is; it is the trimmed text, a fixed point of trimming, and truthy exactly when the text has a non-whitespace character |
| GeminiService.FirstCandidate | services/geminiService.ts:38 | `candidates?.[0]` is absent exactly when the list is missing or empty, and is otherwise its first element |
| GeminiService.FirstImageIndex | services/geminiService.ts:48-52 | the scan finds no position exactly when no part has inline data; otherwise it finds a part with inline data before which none has any |
| GeminiService.Classify | services/geminiService.ts:38-59 | no first candidate gives "No candidates returned from the model."; a present, non-empty finish reason other than `STOP` fails with a message embedding the reason verbatim, even when images are present; otherwise success holds exactly when some part has inline data, and the result is the first such part's data; with no image, a non-empty trimmed text gives a message embedding that text in quotes, and anything else gives the fixed "No image was generated" message; no failure message carries the marker |
| GeminiService.Normalize | services/geminiService.ts:60-69 | for an `Error`, the result always starts with the marker: a message that has the marker passes through unchanged, any other gets `Gemini API Error: ` once and stripping that prefix gives the original back; a non-`Error` value gives the fixed unknown-error message |
| GeminiService.NormalizeIdempotent | services/geminiService.ts:62-66 | putting a message normalised from an `Error` through the handler again leaves it unchanged, so nested handlers never double the prefix on it; this does not hold for the unknown-error message, which has no marker |
| GeminiService.EditImageWithPrompt | services/geminiService.ts:11-70 | the network call gets exactly the built request; a classified image is returned as is; a classification failure comes back as `Gemini API Error: ` plus its message, once; a thrown value comes back normalised; every failure carries the marker or is the unknown-error message |
| GeminiService.FirstImageWins | services/geminiService.ts:48-52 | when the finish reason does not halt, the first inline image wins; the parts after it, the other candidates and the response text change nothing |
| GeminiService.HaltedReasonDominates | services/geminiService.ts:44-46 | a halting finish reason yields `Gemini API Error: Image generation stopped due to: <reason>...` whatever the content and text |
| GeminiService.NoCandidatesReported | services/geminiService.ts:38-42 | an empty candidate list reaches the caller as "Gemini API Error: No candidates returned from the model." |
| GeminiService.TransportErrorsPrefixedOnce | services/geminiService.ts:60-66 | a thrown `Error("timeout")` becomes "Gemini API Error: timeout"; a thrown "Gemini API Error: timeout" is passed through, not doubled |
| App.ToImageFileRoundTrip | App.tsx:23-28 | when the payload is present and it and the media type are comma-free, the payload can be read back out of the data URL rebuilt for the record |
| App.LoadAll | App.tsx:22-31 | the joint read succeeds exactly when every file loads, and then yields one record per file in input order; otherwise it fails with the error of some failing file |
| App.StartUpload | App.tsx:19-20 | before the `await`, upload clears the error and the edited image and changes nothing else |
| App.FinishUpload | App.tsx:31-34 | after the `await`, the loaded images go after whatever images exist at that moment, with nothing else changed; a failure sets only the fixed "Failed to load..." error |
| App.GenerateDuringFailedUpload | App.tsx:18-69 | a generate whose guard passed and that completes while an upload's reads are pending, followed by a failed read, leaves both the edited image and the load error set, with the images unchanged |
| App.ClearLetsSecondGenerateStart | App.tsx:72-78 | after a generate has started, a clear, an upload of one loadable image and a non-blank prompt leave the generate guard passing with the loading flag down, so a second generate can start while the first call is pending |
| App.HandleImageUpload | App.tsx:18-37 | the edited image is cleared, prompt and loading flag are kept; if every file loads, the error is cleared and the new images follow the old ones in file order; if any file fails, the images are unchanged and the error is the fixed "Failed to load..." message |
| App.FilterOutIndex | App.tsx:40 | filtering out one position of a list, with positions counted from an offset, removes exactly that element, or nothing when the position lies outside the list |
| App.RemoveAt | App.tsx:40 | removing index i drops exactly element i, keeping the others in relative order; an out-of-range index leaves the list unchanged |
| App.HandleRemoveImage | App.tsx:39-41 | only the image list changes, by `RemoveAt` |
| App.HandleSetPrompt | components/PromptControls.tsx:21 | typing sets the prompt and changes nothing else |
| App.ReadyToGenerate | App.tsx:44 | the generate guard passes exactly when there is an image and the prompt has a non-whitespace character |
| App.ServiceInputs | App.tsx:54-57 | the service receives each stored image's data and media type, in list order |
| App.GenerateRequestShape | App.tsx:54-61 | the request sent on generate holds the stored images' parts in list order, then the prompt exactly as typed |
| App.CallService | App.tsx:58-61 | the service settles as `editImageWithPrompt` does, and always rejects with an `Error` whose message carries the marker or is the service's unknown-error text, so the handler's own unknown-error branch is never taken |
| App.StartGeneration | App.tsx:49-51 | once the guard passes, the loading flag is raised and the error and edited image are cleared, with images and prompt kept |
| App.FinishGeneration | App.tsx:58-69 | after the await, a result becomes `data:image/png;base64,<result>` and a failure becomes "Failed to generate image: " plus its message (or the unknown-error text for a non-`Error`); the loading flag always ends false, and images and prompt are kept |
| App.HandleGenerate | App.tsx:43-70 | with no image or a whitespace-only prompt, only the error changes, to "Please upload..."; the loading flag, images and prompt stay as they were; otherwise the handler ends with loading false, images and prompt kept, and either the edited image set with no error, or the prefixed service message as error with no edited image |
| App.HandleClear | App.tsx:72-78 | clear empties the images and the prompt, clears the edited image and the error, and drops the loading flag |
| App.ClearThenGenerateRefused | App.tsx:44-47 | generating right after a clear is refused with the missing-input error and changes nothing else |
| App.LoadedImagesWellFormed | App.tsx:22-28 | every loaded record has an `image/` type and a data URL rebuilt from its own type and payload |
| App.StepKeepsConsistent | App.tsx:18-78 | every handler, run to completion, keeps the state consistent: images well formed, not loading, edited image a PNG data URL, and error one of the handlers' messages |
| App.RunKeepsConsistent | App.tsx:18-78 | any sequence of handlers from a consistent state ends in a consistent state |
| App.InitialConsistent | App.tsx:12-16 | the initial state is consistent |
| App.UploadRoundTrip | App.tsx:22-32 | uploading an image file whose reader wrote the usual data URL appends a record whose rebuilt data URL equals the reader's and whose payload is the encoded one |

## Left out

- The network exchange: the client library, `generateContent` and the `response.text` accessor are foreign calls. The response is an input value, and `text` is taken as given.
- The module-load check that the API key environment variable is set (services/geminiService.ts:3-9) is a deployment side effect.
- The browser's `FileReader`, the base64 encoding itself, and the scheduling of `Promise.all`: each file carries the reader's outcome.
- App.LoadAll: `Promise.all` rejects with whichever read fails first in time. The model only promises the error of some failing file. The application discards that value anyway.
- App.HandleImageUpload: runs the handler with no other handler between the `await` and its completion. Upload has no guard against running alongside other handlers. Interleavings are covered only by `StartUpload` and `FinishUpload` applied to whatever state exists then. `GenerateDuringFailedUpload` shows a state the atomic handler cannot reach.
- App.HandleGenerate: runs the handler with no other handler between the `await` and its completion. Interleavings are covered only by `StartGeneration` and `FinishGeneration` applied to whatever state exists then. Any handler can run during the `await`, a second generate included. The generate button is disabled while `isLoading` is set, but clear lowers that flag while a call may still be pending. `ClearLetsSecondGenerateStart` shows that a clear, an upload and a prompt then enable generate again. When the first call settles, its `finally` lowers the flag while the second call is still in flight.
- `console.error` logging has no behavioural content.
- The view components (header, footer, uploader, result display, prompt controls) are not modelled: rendering, drag-and-drop, the download link and its time-stamped file name are outside the core. The generate button is enabled only when the guard that `HandleGenerate` models passes and `isLoading` is not set (components/PromptControls.tsx:29). The clear button and the uploader are never disabled. The uploader's `accept` attribute is a browser hint that the code never enforces.
- Js.IsWhitespace: the whitespace set is ECMAScript's WhiteSpace and LineTerminator characters, with the space separators of current Unicode listed explicitly. A later Unicode revision could add more.
- GeminiService.Part: inline data whose `data` field is missing is not modelled. The library's type marks that field optional, but the model treats it as present.
- Request fields the model ignores (the model name aside) and reply fields the code never reads are not modelled.
