# Fit-Check image gateway — Dafny model

This project models the two pure helpers at the heart of the image
generation gateway of the Fit-Check virtual try-on app
(`services/geminiService.ts`):

- `dataUrlToParts` / `dataUrlToPart` read a self-describing image string
  `data:<mimeType>;base64,<data>` into the `{mimeType, data}` pair sent to the
  generation service. They throw when the string has no comma, or when the
  regular expression `/:(.*?);/` finds no MIME type (or an empty one) before
  the first comma.
- `handleApiResponse` validates a generation response by a fixed precedence:
  a block reason, then the first image part of any candidate, then an
  abnormal finish reason of the first candidate, then "no image" (quoting the
  model's trimmed text when there is any).

The two meet at one format: the success string `handleApiResponse` builds
(line 44) is what the next request hands to `dataUrlToPart`. The model proves
that the trip through this format is lossless under stated conditions.

Modules, one per concern:

- `Wrappers` — `Option` (an optional JavaScript property) and `Result` (a
  call that returns or throws).
- `JsString` — the ECMAScript string operations used: `split` with a
  one-character separator, with `Join` as its inverse; `trim`; and the
  WhiteSpace and LineTerminator character classes of ECMA-262.
- `MimePattern` — `/:(.*?);/` as `match` runs it. This is modelled exactly:
  the leftmost start position with any match wins, the lazy `.*?` stops at
  the first `;`, and `.` does not cross a line terminator (LF, CR, U+2028,
  U+2029). A declarative description (`PatternAt`, `IsSelectedMatch`) is
  the reference; the executable search is proved to find it.
- `GenAi` — the response shape as optional fields, mirroring the `?.`
  chains. `Truthy` is JavaScript truthiness of an optional string, so an
  empty block reason, finish reason or trimmed text counts as absent.
- `DataUrl` — `DataUrlToParts`, `DataUrlToPart`, the format `FormatDataUrl`,
  and the round-trip lemmas.
- `ResponseHandling` — `HandleApiResponse` returning a tagged `Outcome`
  (`Image`, `Blocked`, `Aborted`, `NoImage`) instead of thrown messages, and
  lemmas on its precedence.
  The success string is built by a template literal, so an image part whose
  `mimeType` or `data` is absent yields the text "undefined" in its place
  (`Render`, `AbsentMimeTypeRendersUndefined`).
- `Boundary` — round trips that cross both helpers.

Behaviour a reader might not expect:

- The "no image" error quotes the text trimmed by `trim`, not verbatim.
- The MIME type is group 1 of the leftmost `:`…`;` match in the first
  comma-separated field. It is not simply "the leading segment". An empty
  leftmost match is an error even when a later `:`…`;` would name a type
  (`EmptyMimeTypeRejected`).
- The data is only the second comma-separated field. Anything after a second
  comma is dropped.

## Model

| member | source | states |
|---|---|---|
| JsString.Split | services/geminiService.ts:20-21 | `split(',')` gives at least one piece; no piece holds a comma; joining the pieces with commas gives the input back; there is exactly one piece (the `arr.length < 2` error) iff the input has no comma |
| JsString.SplitJoin | services/geminiService.ts:20 | splitting a comma-join of comma-free pieces returns exactly those pieces, so `split` loses nothing |
| JsString.SplitAfterPrefix | services/geminiService.ts:20 | for `h + t` with comma-free `h` and `t` empty or starting with a comma, the first piece is `h` and the rest are the pieces of `t` after its comma |
| JsString.Trim | services/geminiService.ts:53 | `trim` result is empty iff the text is all WhiteSpace/LineTerminator; otherwise it starts and ends with a kept character and is the slice of the input between trimmable runs |
| JsString.TrimPadded | services/geminiService.ts:53 | trimming `pre + core + post` with trimmable padding and a core that neither starts nor ends with a trimmable character gives the core |
| MimePattern.LazyEnd | services/geminiService.ts:22 | the lazy `.*?;` tail finds the first `;` with no line terminator before it, or reports that every later `;` is behind a line terminator |
| MimePattern.MatchFrom | services/geminiService.ts:22 | the regex search from a start position finds the leftmost `:` with a match and the shortest match from it, or proves there is no match from there on |
| MimePattern.Match | services/geminiService.ts:22 | `match(/:(.*?);/)` returns the selected (leftmost, then shortest) match, and returns null iff no substring matches `:.*;` without a line terminator |
| MimePattern.MatchIsSelected | services/geminiService.ts:22 | whenever a span is the selected match, `Match` returns exactly that span |
| DataUrl.DataUrlToParts | services/geminiService.ts:19-25 | the "Invalid data URL" error happens iff the input has no comma; a success has a non-empty, comma-free MIME type and comma-free data |
| DataUrl.DataUrlToPart | services/geminiService.ts:27-30 | succeeds iff `dataUrlToParts` does, fails with the same error, and wraps the parsed pair as an inline-data part without text |
| DataUrl.CommaFields | services/geminiService.ts:20-24 | for `head,d` or `head,d,…` the split has at least two pieces, `arr[0]` is `head` and `arr[1]` is `d` |
| DataUrl.ParseFields | services/geminiService.ts:19-25 | with a comma present: the parse fails (always with the MIME error) iff the first field has no selected `:`…`;` match enclosing a character; otherwise the MIME type is that match's group and the data is exactly the second field |
| DataUrl.ParseFormat | services/geminiService.ts:19-25 | round trip: parsing `data:m;base64,d` (the format built at line 44) gives `(m, d)` for non-empty `m` without `;`, `,` or line terminators and `d` without `,` |
| DataUrl.FormatParse | services/geminiService.ts:19-25 | for such well-formed strings, re-formatting the parsed pair reproduces the string |
| DataUrl.MimeTypeEndsAtFirstSemicolon | services/geminiService.ts:22-24 | parameters after a `;` in the MIME type are dropped: the MIME type runs from the first `:` up to the nearest `;` |
| DataUrl.EmptyMimeTypeRejected | services/geminiService.ts:22-23 | `data:;…,d` fails with the MIME error even if a later `:`…`;` follows, because the leftmost match is empty |
| DataUrl.FormatDataUrl | services/geminiService.ts:44 | the success string has a single comma, before the data: for comma-free MIME type and data it splits into exactly the header `data:<mimeType>;base64` and the data |
| GenAi.CandidatesOf | services/geminiService.ts:40 | `response.candidates ?? []`: a missing candidate list is read as empty |
| GenAi.PartsOf | services/geminiService.ts:41 | `candidate.content?.parts`: a candidate with no content or no part list has no parts to search |
| ResponseHandling.IsBlocked | services/geminiService.ts:33 | `response.promptFeedback?.blockReason` is truthy: feedback present with a non-empty block reason |
| ResponseHandling.FirstFinishReason | services/geminiService.ts:48 | `candidates?.[0]?.finishReason` is absent when the candidate list is missing or empty, and is candidate 0's finish reason otherwise |
| ResponseHandling.Render | services/geminiService.ts:44 | a template-literal placeholder renders a present string as itself and an absent one as the text "undefined" |
| ResponseHandling.ImageUrl | services/geminiService.ts:43-44 | the string built from an image part's inline data parses back to the rendered MIME type and data whenever the rendered MIME type is portable and the rendered data has no comma |
| ResponseHandling.AbsentMimeTypeRendersUndefined | services/geminiService.ts:43-44 | an image part without a MIME type yields a string whose parsed MIME type is "undefined" |
| ResponseHandling.EmptyBlockReasonIgnored | services/geminiService.ts:33 | an empty block reason is falsy: the response is handled exactly as one without prompt feedback |
| ResponseHandling.MissingCandidatesReadAsEmpty | services/geminiService.ts:40-55 | a missing candidate list is handled as an empty one, and without a block reason it yields the "no image" error |
| ResponseHandling.FindImagePart | services/geminiService.ts:41 | `parts.find(part => part.inlineData)` finds the first part with inline data, or there is none |
| ResponseHandling.FirstImageFrom | services/geminiService.ts:40-46 | the candidate loop returns the first image part of the first candidate that has one, or proves no later candidate has one |
| ResponseHandling.FirstImage | services/geminiService.ts:40-46 | the loop's result is the first image part in (candidate, part) order, and there is none iff no part of any candidate carries inline data |
| ResponseHandling.HandleApiResponse | services/geminiService.ts:32-56 | Blocked iff the block reason is truthy, carrying the reason and the message or ""; otherwise Image iff some part has inline data, built from the first such part; otherwise Aborted iff candidate 0's finish reason is truthy and not "STOP", naming it; otherwise NoImage carrying the trimmed text iff it is non-blank |
| ResponseHandling.FirstImageUnique | services/geminiService.ts:40-46 | there is only one first image part |
| ResponseHandling.FirstImageWins | services/geminiService.ts:39-45 | with candidates `before + [c] + after`, no image in `before` and none in `c` before part `j`, the result is the string built from part `j`, whatever `after`, the finish reasons and the text hold |
| ResponseHandling.OutcomeDependsOnlyOn | services/geminiService.ts:32-56 | two responses with the same block fields, the same parts per candidate, the same candidate-0 finish reason and the same text give the same result: later candidates' finish reasons are never consulted |
| ResponseHandling.ImageIgnoresFinishReasonsAndText | services/geminiService.ts:40-51 | once an image exists and nothing is blocked, changing any finish reason or the text does not change the result |
| ResponseHandling.SecondCandidateImage | services/geminiService.ts:40-45 | first candidate without image, second with an `m`/`d` image part: the result is `data:m;base64,d` |
| ResponseHandling.SafetyStopAborts | services/geminiService.ts:48-51 | with no image anywhere, a "SAFETY" finish reason on candidate 0 yields Aborted("SAFETY") whatever the text is |
| Boundary.HandleThenParse | services/geminiService.ts:44 | the image string returned for a first image part with MIME type `m` and data `d` parses back to `(m, d)` under the round-trip conditions |
| Boundary.PartRoundTrip | services/geminiService.ts:27-30 | a well-formed data URL made into a part and returned as the only part of the only candidate comes back unchanged, whatever the finish reason |

## Left out

- `fileToPart` (lines 8-17): browser `FileReader` I/O. Its output is just a string handed to `DataUrlToParts`.
- The client, model name, API key and the three `generate*` operations (lines 58-106): network calls into a third-party SDK that is not part of this model, with natural-language prompts.
- The SDK's `text` accessor is an opaque optional string field, not its concatenation of text parts.
- The wording of the Vietnamese error messages: each error is a tagged variant carrying the reason, message or text the message quotes.
- `components/SavedOutfitsPanel.tsx`: presentational UI with no algorithmic content.
- JavaScript strings are sequences of UTF-16 code units; the model uses Unicode scalar values. No character the helpers test for lies outside the Basic Multilingual Plane, so splitting, matching and trimming act the same on well-formed strings. A JavaScript string may also hold an unpaired surrogate, which a Dafny `char` cannot represent; such strings are outside the model.
- The WhiteSpace class follows the Unicode category Zs as of current Unicode versions. An engine on an older Unicode table may differ for a character added since.
- `undefined` entries inside the candidate or part arrays: the SDK's types do not allow them, so sequences hold real values.
