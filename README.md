# Taiwaka image editor: data-URL fields, Gemini response handling, editor session

This project models, in Dafny, the three pieces of logic in the Taiwaka
single-page image editor that are not React or DOM glue:

- **Data-URL field extraction** (`utils/fileUtils.ts`): `extractBase64Data`
  and `getMimeType` pull the payload and the media type out of a string
  shaped like `data:<mediatype>;base64,<data>` (section 3 of RFC 2397). They
  do not parse that grammar; they compose JavaScript's `split`, `indexOf`,
  `substring` and `||`, and the model follows those primitives exactly
  (module `JsString`): `split(',')[1]` is only the piece between the first
  and second comma, an empty piece falls back to the whole input, and
  `substring` clamps -1 to 0 and swaps reversed bounds.
- **Response interpretation** (`services/geminiService.ts`): the request
  built from the source image and prompt, the two first-match scans over the
  parts of `candidates[0]` (first image part wins, otherwise the first text
  is thrown, otherwise a fixed "no image" error), and the catch block that
  turns every error mentioning `413` or `xhr error` into a fixed "too large"
  message. The network call is a parameter `service: Request -> CallResult`.
- **Editor session** (`components/ImageEditor.tsx`): class
  `Editor.ImageEditor` holds the component's state (`prompt`, `status`,
  `generatedImage`, `error`, `downloadFormat`, `preserveText`).
  `handleGenerate` is split at its `await` into `BeginGenerate` (blank-prompt
  guard, LOADING, clearing, prompt composition) and `CompleteGenerate`
  (SUCCESS or ERROR); `Generate` runs both around the service. `Download`
  models the null guard of `handleDownload` and its MIME type and file name
  choice, with `Date.now()` as a parameter.

Files: `wrappers.dfy` (Option), `js_string.dfy` (JavaScript string
primitives), `file_utils.dfy`, `gemini_service.dfy`, `image_editor.dfy`.

Strings are `seq<char>` of Unicode scalar values while JavaScript strings
are UTF-16 code units. Every delimiter searched for is ASCII and cannot
occur inside a surrogate pair, so the substrings returned agree; only
numeric indices would differ.

The code departs from a plain reading of data URLs and of the UI in three
ways; the model follows the code:
- `extractBase64Data` returns the text between the first and the second
  comma, not everything after the first comma.
- `getMimeType` returns `image/jpeg` only when the cut-out text is empty. A
  colon without a semicolon gives the prefix up to and including the colon
  (`"data:image/png"` gives `"data:"`), not the default.
- `handleGenerate` does not reject a submission while LOADING.

## Model

| member | source | states |
|---|---|---|
| JsString.IndexOf | utils/fileUtils.ts:21 | `indexOf` gives -1 exactly when the character is absent, otherwise a position holding it with no earlier occurrence |
| JsString.Substring | utils/fileUtils.ts:21 | `substring` clamps its bounds into the string and swaps them when reversed: in-range bounds cut `s[start..end]`, reversed bounds `s[end..start]`, a negative start acts as 0 |
| JsString.Split | utils/fileUtils.ts:17 | `split` on one character yields at least one piece, no piece holds the separator, and joining the pieces with it gives back the input |
| JsString.SplitJoin | utils/fileUtils.ts:17 | splitting undoes joining separator-free pieces, so the pieces of a string are unique |
| JsString.SplitFirstTwo | utils/fileUtils.ts:17 | for `a,b` followed by nothing or by a comma, piece 0 is `a` and piece 1 is `b` |
| JsString.Includes | services/geminiService.ts:57 | `includes` holds for the empty search string, and only when the search string is no longer than the text |
| JsString.IncludesIffOccurs | services/geminiService.ts:57 | `includes` holds exactly when the search string occurs at some position |
| JsString.TrimStart | components/ImageEditor.tsx:21 | removes exactly the leading run of ECMAScript white space |
| JsString.TrimEnd | components/ImageEditor.tsx:21 | removes exactly the trailing run of ECMAScript white space |
| JsString.Trim | components/ImageEditor.tsx:21 | `trim()` gives an infix of the prompt that neither starts nor ends with white space, with only white space before and after it |
| JsString.TrimEmptyIffBlank | components/ImageEditor.tsx:21 | `prompt.trim()` is empty exactly when the prompt is all white space |
| JsString.TrimsToEmpty | components/ImageEditor.tsx:21 | the guard `!prompt.trim()` holds exactly when the prompt is all white space |
| JsString.NatToDecimal | components/ImageEditor.tsx:73 | the decimal text of the time stamp is a non-empty digit string with no leading zero |
| JsString.DecimalRoundTrip | components/ImageEditor.tsx:73 | reading the decimal text back gives the number |
| FileUtils.DataUrl | services/geminiService.ts:40 | the `data:M;base64,P` layout starts with `data:` and ends with the payload |
| FileUtils.ExtractBase64Data | utils/fileUtils.ts:16-18 | total; the result is empty exactly when the input is; it is the whole input or a comma-free piece of an input that has a comma |
| FileUtils.ExtractWithoutComma | utils/fileUtils.ts:17 | without a comma the input comes back unchanged |
| FileUtils.ExtractSecondPiece | utils/fileUtils.ts:17 | for `a,b` followed by nothing or another comma the result is `b`, or the whole input when `b` is empty; text after a second comma is dropped |
| FileUtils.ExtractFromDataUrl | utils/fileUtils.ts:17 | on `data:M;base64,P` the result is `P` exactly when `P` is non-empty and comma-free |
| FileUtils.GetMimeType | utils/fileUtils.ts:20-22 | total and never empty |
| FileUtils.MimeBetweenDelimiters | utils/fileUtils.ts:21 | when the first colon precedes the first semicolon the result is the text between them, or `image/jpeg` when that is empty |
| FileUtils.MimeOfDataUrl | utils/fileUtils.ts:21 | on `data:M;...` with non-empty, semicolon-free `M` the result is `M` |
| FileUtils.MimeWithoutDelimiters | utils/fileUtils.ts:21 | with neither `:` nor `;` the result is `image/jpeg` |
| FileUtils.MimeWithoutSemicolon | utils/fileUtils.ts:21 | with a colon but no semicolon the result is the prefix up to and including the first colon |
| FileUtils.MimeSemicolonFirst | utils/fileUtils.ts:21 | with a semicolon before the first colon the swapped bounds give the text from it through the colon |
| FileUtils.MimeWithoutColon | utils/fileUtils.ts:21 | with a semicolon but no colon the result is the text before it, or `image/jpeg` when it comes first |
| FileUtils.DataUrlRoundTrip | utils/fileUtils.ts:16-22 | both extractors read back the media type and payload of a well-formed base64 data URL |
| GeminiService.BuildRequest | services/geminiService.ts:13-31 | for any input, the request names the model and has two parts: inline data whose media type is `getMimeType` of the input and whose data is `extractBase64Data` of it, then the prompt verbatim as text (a usable text part exactly when the prompt is non-empty) |
| GeminiService.RequestCarriesImageAndPrompt | services/geminiService.ts:13-29 | for a well-formed data URL the request carries its media type and payload as inline data, then the prompt verbatim |
| GeminiService.FirstWhere | services/geminiService.ts:38-49 | the first-match loop finds the least index satisfying the test, or none exactly when no part does |
| GeminiService.HasImageData | services/geminiService.ts:39 | the truthiness test `part.inlineData && part.inlineData.data`: it needs inline data with a payload, and an empty payload fails it |
| GeminiService.HasText | services/geminiService.ts:46 | the truthiness test `part.text`: it needs a text, and an empty text fails it |
| GeminiService.EffectiveMimeType | services/geminiService.ts:40 | a present, non-empty `mimeType` is kept; a missing or empty one gives `image/png` |
| GeminiService.ImageDataUrl | services/geminiService.ts:40 | the returned URL is `data:`, the effective media type, `;base64,`, then the payload unchanged |
| GeminiService.ScanParts | services/geminiService.ts:38-52 | success exactly when some part has image data, and then it is the data URL of the first such part; otherwise the failure is the first non-empty text or the "no image" message |
| GeminiService.ScanResponse | services/geminiService.ts:33-52 | no candidates gives the "no image" message; a success needs content and parts on the first candidate, with an image part among them; every failure carries a non-empty message |
| GeminiService.SignalsTooLarge | services/geminiService.ts:57 | signals exactly when the message is present and `413` or `xhr error` occurs in it at some position; such a message holds a `4` or an `x` |
| GeminiService.FirstImageWins | services/geminiService.ts:38-42 | the first part with non-empty image data decides the success value, whatever precedes it (text included), follows it, or sits in other candidates |
| GeminiService.ServiceImageSucceeds | services/geminiService.ts:7-42 | when the service answers with an image part ahead of any other, `editImageWithGemini` resolves to that part's data URL |
| GeminiService.MissingImageTypeIsPng | services/geminiService.ts:40 | an image part without a media type yields a data URL whose media type reads back as `image/png` |
| GeminiService.ImageDataUrlRoundTrip | services/geminiService.ts:40 | the returned data URL reads back, through `getMimeType`/`extractBase64Data`, as the part's media type and payload |
| GeminiService.FirstTextFails | services/geminiService.ts:45-48 | with no image part the first non-empty text is thrown and then passes through the translation |
| GeminiService.RefusalVerbatim | services/geminiService.ts:45-60 | a refusal text mentioning neither `413` nor `xhr error` reaches the caller verbatim |
| GeminiService.RefusalMentioning413 | services/geminiService.ts:47-58 | a refusal text mentioning `413` is replaced by the too-large message |
| GeminiService.NoCandidatesFails | services/geminiService.ts:33-52 | absent or empty candidates give the "no image" error, untranslated |
| GeminiService.NoUsablePartFails | services/geminiService.ts:38-52 | parts with neither image data nor text give the "no image" error, untranslated |
| GeminiService.OnlyFirstCandidate | services/geminiService.ts:35 | candidates after the first never affect the outcome |
| GeminiService.MissingContentFails | services/geminiService.ts:35-38 | a first candidate without `content` or `parts` fails with the engine's TypeError, untranslated |
| GeminiService.Translate | services/geminiService.ts:57-60 | an error mentioning `413` or `xhr error` becomes the too-large message; any other error is rethrown unchanged |
| GeminiService.Interpret | services/geminiService.ts:33-61 | success exactly when the call returned and the scan found an image, and then it passes through untranslated; every failure is the too-large message or does not signal an oversized request; failures raised after a returned call always carry a message |
| GeminiService.EditImageWithGemini | services/geminiService.ts:7-61 | the outcome is `Interpret` of the service's answer to the request built from the image and prompt: a success needs a returned call, a thrown call always fails, and every failure is the too-large message or does not signal an oversized request |
| GeminiService.TranslateIdempotent | services/geminiService.ts:57-60 | translating twice is translating once |
| GeminiService.TransportFailure | services/geminiService.ts:54-61 | a thrown network call is translated: too-large errors become the fixed message, others propagate unchanged |
| GeminiService.ThrownXhrError | services/geminiService.ts:54-58 | a thrown error whose message contains `xhr error` becomes the too-large message |
| GeminiService.OutcomeShape | services/geminiService.ts:33-61 | every success is the data URL of an image part of the first candidate; every failure is the too-large message or an error that does not signal an oversized request |
| Editor.FinalPrompt | components/ImageEditor.tsx:29-33 | the untrimmed prompt is a prefix of what is sent; the rest is the preservation clause exactly when the flag is on |
| Editor.FinalPromptInjective | components/ImageEditor.tsx:29-33 | distinct prompts are sent as distinct texts |
| Editor.ErrorText | components/ImageEditor.tsx:39 | the shown error is the message when non-empty, else the fallback text; never empty |
| Editor.DownloadMimeType | components/ImageEditor.tsx:67 | `image/png` exactly for PNG, `image/jpeg` exactly for JPG |
| Editor.Extension | components/ImageEditor.tsx:73 | the extension is `png` exactly for PNG and `jpg` exactly for JPG |
| Editor.DownloadFileName | components/ImageEditor.tsx:73 | the name is `taiwaka-edit-`, the decimal text of the time stamp, `.`, then the format's extension |
| Editor.DownloadFileNameInjective | components/ImageEditor.tsx:73 | the file name determines both the format and the time stamp |
| Editor.ImageEditor.constructor | components/ImageEditor.tsx:13-18 | IDLE, empty prompt, no result and no error, PNG, text preservation on |
| Editor.ImageEditor.SetPrompt | components/ImageEditor.tsx:96 | replaces the prompt and nothing else |
| Editor.ImageEditor.TogglePreserveText | components/ImageEditor.tsx:111 | flips the preservation flag and nothing else |
| Editor.ImageEditor.SetDownloadFormat | components/ImageEditor.tsx:191 | replaces the download format and nothing else |
| Editor.ImageEditor.BeginGenerate | components/ImageEditor.tsx:20-33 | a blank prompt changes nothing and sends nothing; otherwise LOADING with error and result cleared, and the final prompt is sent, whatever the previous status |
| Editor.ImageEditor.CompleteGenerate | components/ImageEditor.tsx:35-41 | a result is stored with SUCCESS, a failure stores its message or the fallback with ERROR; from LOADING the state stays consistent |
| Editor.ImageEditor.Generate | components/ImageEditor.tsx:20-42 | a non-blank submission settles with the outcome of the service call on the initial image and the final prompt |
| Editor.ImageEditor.Download | components/ImageEditor.tsx:44-73 | nothing without a non-empty result; otherwise the PNG/JPEG type, white fill for JPEG only, and the time-stamped name |

## Left out

- `fileToBase64` (utils/fileUtils.ts:1-14): asynchronous `FileReader` callbacks, browser I/O.
- The `GoogleGenAI` client, its API key and the `generateContent` network call: replaced by the `service` parameter; `console.error` is not modelled.
- The wording of JavaScript TypeErrors for a missing `content` or `parts` is the engine's; the model uses V8's text.
- A thrown value that is not an object (`throw null`), and a `message` that is not a string, are not modelled.
- Canvas decoding, the white fill, `toDataURL` and the anchor-click download; only their inputs (`DownloadPlan`) are modelled, and the `!ctx` early return is not.
- Number-to-string for time stamps of 10^21 or more (exponent notation) and negative clock values: `Date.now()` is taken as a natural number.
- Asynchronous interleaving: completions after the editor is torn down (`onReset`) and overlapping requests. `CompleteGenerate` states its effect from any state, but consistency is proved only from LOADING.
- JSX rendering, suggestion chips, `Header.tsx`, the drag-and-drop handling of `ImageUpload.tsx` and `App.tsx`'s image selection.
- Base64 decoding or validation: the code never inspects the payload.
