# A verified model of the multipart/form-data decoder of the portrait generator

The serverless function behind the portrait form (`netlify/functions/generate.ts`)
receives the browser's form as a multipart/form-data body. It decodes that body
with a small hand-written parser, `parseMultipart`, before it builds a prompt.
The parser's delimiter syntax loosely follows section 5.1.1 of RFC 2046, as used
by RFC 7578. The parser works in four steps:

- it takes the boundary token out of the `Content-Type` header;
- it scans the body bytes for `--<boundary>` with a moving cursor;
- it cuts each part at its first CRLFCRLF into header text and content;
- it writes one of four slots of the result record: `name`, `job`, `phone`, or `face` together with its media type.

Text values go through `sanitizeText`, which strips NUL characters, turns CRLF
into LF and trims. Phone numbers are later reduced to their digits by
`normalizePhone`.

This project models those three functions and the `ParsedBody` record in Dafny,
and proves properties of the model. The modules are:

- `Buffers`: the parts of Node's `Buffer` the parser uses.
  - `IndexOf` is the leftmost occurrence at or after an offset, else -1.
  - `Slice` is `slice` with both ends clamped.
  - `Utf8Encode` is `Buffer.from(string)`.
- `Text`: `SanitizeText` and `NormalizePhone`, with JavaScript's `trim`
  written out over its own white-space set. `TextExamples` works concrete inputs.
- `Patterns`: each of the three regular expressions written out as a leftmost
  scan. Each keeps its quirks:
  - the `name="` search has no word boundary, so it also matches inside `filename="`;
  - under the `i` flag, `Content-Type:` is compared ignoring ASCII case;
  - `\s*` backtracks at the end of the header text.
- `Multipart`: the record, one part's dispatch, and the loop.
  - The loop is a pure step function `Step`, iterated by `Scan`; `Parse` is the whole decoder.
  - The method `ParseMultipart` runs the source's `while (true)` loop. `FindPart` and `ParsePart` are its body.
  - It is proved to compute `Parse`.
- `Composition`: how a client lays out a form as bytes.
  - For any body laid out from parts that hold no delimiter of their own, decoding gives the record that applying the parts in order gives.
  - In every slot, the last part with that name wins.

UTF-8 decoding (`buf.toString()`) is a parameter `decode` of every operation.
So each property holds for whatever decoder is used, unless a lemma states what
it needs of the decoder as a precondition.

The model keeps these behaviours of the code:

- The field-name pattern is case-sensitive (`/name="([^"]+)"/` has no `i` flag).
- It takes the first `name="` anywhere in the header text, including the tail of `filename="` (`FileNameTakenForName`).
- Only NUL characters are removed from text values, not other control characters.
- A `Content-Type:` that ends the header text can still match. The white space after it must reach the end of the text, and its last character must be white space other than CR or LF. The capture is then that one character, so the media type is `""`, not `image/jpeg` (`MimeTypeBlank`).
- When only line breaks follow that `Content-Type:`, or nothing does, the pattern does not match there. With no other `Content-Type:` the media type is `image/jpeg` (`MimeTypeLineBreaksOnly`).
- A `boundary="` with no closing quote, or with the closing quote right after it, falls to the bare alternative, which keeps the quote in the token (`BoundaryBare`).
- A later duplicate field overwrites an earlier one: last wins.
- `sanitizeText` is not idempotent (`SanitizeTextNotIdempotent`).

## Model

| member | source | states |
|---|---|---|
| Buffers.IndexOf | netlify/functions/generate.ts:67 | the result is -1 exactly when the pattern occurs nowhere at or after the offset; otherwise it is an occurrence at or after the offset with none before it |
| Buffers.Slice | netlify/functions/generate.ts:72 | within bounds it is the plain sub-range; an end past the length is clamped to it; an end at or before the start, or a start past the length, gives the empty buffer |
| Buffers.EncodeChar | netlify/functions/generate.ts:62 | one character encodes to one to four bytes; exactly the ASCII characters take one byte, their own code; a longer encoding starts with a lead byte and goes on with continuation bytes |
| Buffers.Utf8Encode | netlify/functions/generate.ts:62 | the encoding is at least as long as the text, and on ASCII text it is the character codes one for one |
| Buffers.Utf8EncodeAppend | netlify/functions/generate.ts:62 | encoding distributes over concatenation |
| Text.Keep | netlify/functions/generate.ts:33 | a global `replace` of a one-character class by "" (also the `[^\d]` one at line 40): the result is no longer than the input, every character kept satisfies the test, and every one comes from the input |
| Text.NormalizePhone | netlify/functions/generate.ts:38-42 | the result holds decimal digits only |
| Text.NormalizePhoneDigits | netlify/functions/generate.ts:38-42 | each digit occurs in the result exactly as often as in the input; no other character occurs in it |
| Text.NormalizePhoneAppend | netlify/functions/generate.ts:38-42 | the digits keep their order: normalising a concatenation is concatenating the normalised halves |
| Text.NormalizePhoneIdentity | netlify/functions/generate.ts:38-42 | a number made of digits only is unchanged, and normalising twice is normalising once |
| Text.NormalizePhoneEmpty | netlify/functions/generate.ts:38-42 | the result is empty exactly when the input has no digit |
| Text.StripNul | netlify/functions/generate.ts:33 | the result holds no NUL, and input without NUL is unchanged |
| Text.CrlfToLf | netlify/functions/generate.ts:34 | the result is no longer than the input and holds only its characters; input without CR is unchanged |
| Text.CrlfToLfInvertsLfToCrlf | netlify/functions/generate.ts:34 | on text without CR, CRLF-to-LF undoes LF-to-CRLF |
| Text.TrimStart | netlify/functions/generate.ts:35 | the result is a suffix of the input; everything cut off is white space; the result does not start with white space; an unpadded input is unchanged |
| Text.TrimEnd | netlify/functions/generate.ts:35 | the result is a prefix of the input; everything cut off is white space; the result does not end with white space; an unpadded input is unchanged |
| Text.Trim | netlify/functions/generate.ts:35 | the result is a contiguous piece of the input, cut off only white space, neither starts nor ends with white space, and equals an input that is not padded |
| Text.TrimAllWhitespace | netlify/functions/generate.ts:35 | a string of white space only trims to "" |
| Text.SanitizeText | netlify/functions/generate.ts:30-36 | the result holds no NUL and neither starts nor ends with white space |
| Text.SanitizeTextIdentity | netlify/functions/generate.ts:30-36 | text without NUL or CR that is not padded is returned unchanged |
| Text.SanitizeTextBlank | netlify/functions/generate.ts:30-36 | a value of white space and NUL characters only sanitises to "" |
| Text.SanitizeTextIsCrlfToLf | netlify/functions/generate.ts:30-36 | without NUL and without padding after conversion, sanitising is the line-ending conversion alone |
| TextExamples.NormalizePhoneExample | netlify/functions/generate.ts:40 | "0912 345.678" normalises to "0912345678" |
| TextExamples.CrlfToLfLeavesCr | netlify/functions/generate.ts:34 | the matches do not overlap, so "a\r\r\nb" becomes "a\r\nb" |
| TextExamples.CrlfToLfJoinsLine | netlify/functions/generate.ts:34 | "a\r\nb" becomes "a\nb" |
| TextExamples.SanitizeTextFirstPass | netlify/functions/generate.ts:30-36 | one pass over "a\r\r\nb" leaves "a\r\nb" |
| TextExamples.SanitizeTextSecondPass | netlify/functions/generate.ts:30-36 | a second pass turns that into "a\nb" |
| TextExamples.SanitizeTextNotIdempotent | netlify/functions/generate.ts:30-36 | some input sanitises differently the second time |
| Patterns.MatchesIgnoringCaseIff | netlify/functions/generate.ts:57 | under the `i` flag a lower-case literal matches exactly where each character of the text is the literal's character or its upper case |
| Patterns.Leftmost | netlify/functions/generate.ts:57 | `match` without `g` reports the least index at which the pattern matches: -1 exactly when it matches nowhere, otherwise a match with none before it |
| Patterns.FindFrom | netlify/functions/generate.ts:98 | the first index from the start whose character stops the scan, or the end |
| Patterns.FindLast | netlify/functions/generate.ts:98 | an index in the range whose character qualifies with none after it that does, or -1 when none in the range does |
| Patterns.BoundaryAt | netlify/functions/generate.ts:57 | a match at an index needs `boundary=` there, ignoring ASCII case, and captures a non-empty token |
| Patterns.BoundaryIndex | netlify/functions/generate.ts:57 | the leftmost index where the boundary pattern matches, or -1 exactly when it matches nowhere |
| Patterns.BoundaryOf | netlify/functions/generate.ts:57-59 | there is no boundary exactly when the pattern matches nowhere; a boundary found is never empty |
| Patterns.BoundaryOfFirst | netlify/functions/generate.ts:57-58 | a match with none before it is the boundary reported |
| Patterns.NoBoundaryParameter | netlify/functions/generate.ts:57-59 | a Content-Type without `boundary=`, in any case, has no boundary |
| Patterns.BoundaryQuoted | netlify/functions/generate.ts:57-58 | for `boundary="token"` the boundary is the text between the quotes |
| Patterns.BoundaryBare | netlify/functions/generate.ts:57-58 | when the quoted form does not match (no opening quote, no closing quote after it, or an empty quoted token) the boundary is everything after `boundary=` up to the first `;` or the end, an opening quote included |
| Patterns.FieldNameAt | netlify/functions/generate.ts:93 | a match needs `name="` there and captures a non-empty run without quotes |
| Patterns.FieldNameIndex | netlify/functions/generate.ts:93 | the leftmost index where the name pattern matches, or -1 exactly when it matches nowhere |
| Patterns.FieldNameOf | netlify/functions/generate.ts:93-94 | the field name is "" exactly when the pattern matches nowhere, and never holds a quote |
| Patterns.FieldNameOfFirst | netlify/functions/generate.ts:93-94 | a match with none before it gives the field name |
| Patterns.FieldNameFirst | netlify/functions/generate.ts:93 | the first `name="` followed by `value"` names the field `value` |
| Patterns.FieldNameAfter | netlify/functions/generate.ts:93 | `name="value"` after text without a quote names the field `value` |
| Patterns.FileNameTakenForName | netlify/functions/generate.ts:93 | a `filename="f"` before the `name` parameter makes `f` the field name |
| Patterns.ContentTypeAt | netlify/functions/generate.ts:98 | a match needs `Content-Type:` there, ignoring ASCII case, and captures a non-empty run without line breaks |
| Patterns.ContentTypeIndex | netlify/functions/generate.ts:98 | the leftmost index where the media-type pattern matches, or -1 exactly when it matches nowhere |
| Patterns.ContentTypeOf | netlify/functions/generate.ts:98 | there is no capture exactly when the pattern matches nowhere; a capture is never empty |
| Patterns.ContentTypeOfFirst | netlify/functions/generate.ts:98 | a match with none before it is the capture reported |
| Patterns.ContentTypeAtHeader | netlify/functions/generate.ts:98 | after `Content-Type:` the white space is skipped and the value up to the line break is captured |
| Patterns.MimeTypeOf | netlify/functions/generate.ts:98-99 | the media type neither starts nor ends with white space |
| Patterns.MimeTypeDefault | netlify/functions/generate.ts:98-99 | without a `Content-Type:` header the media type is image/jpeg |
| Patterns.MimeTypeOfHeader | netlify/functions/generate.ts:98-99 | the first `Content-Type:` header gives its trimmed value |
| Patterns.MimeTypeFromNextLine | netlify/functions/generate.ts:98-99 | a header with nothing on its line takes its value from the next line, since `\s` matches line breaks |
| Patterns.ContentTypeAtBlank | netlify/functions/generate.ts:98 | when only white space follows `Content-Type:` to the end of the text, `\s*` gives back the last character and the capture is that one white space character |
| Patterns.MimeTypeBlank | netlify/functions/generate.ts:98-99 | a first `Content-Type:` followed by white space to the end of the header text, the last of which is neither CR nor LF, gives "" rather than image/jpeg |
| Patterns.ContentTypeAtLineBreaks | netlify/functions/generate.ts:98 | a `Content-Type:` followed only by line breaks to the end of the text, or by nothing, does not match there |
| Patterns.MimeTypeLineBreaksOnly | netlify/functions/generate.ts:98-99 | when that is the only `Content-Type:`, the media type falls back to image/jpeg |
| Patterns.MimeTypeOfSecondLine | netlify/functions/generate.ts:98-99 | a `Content-Type: value` line after a first header line without CR and without a `Content-Type:` of its own gives the trimmed value |
| Multipart.Delimiter | netlify/functions/generate.ts:62 | the delimiter starts with the two bytes `--` and is at least two bytes longer than the boundary |
| Multipart.EmptyIsWellFormed | netlify/functions/generate.ts:49-55 | the initial record has sanitised (empty) text slots and no face, so it is well formed |
| Multipart.Dispatch | netlify/functions/generate.ts:96-106 | a part keeps the record well formed (text slots sanitised, face bytes and media type set together, media type trimmed), and the face slot either stays as it was or takes the part's content |
| Multipart.DispatchPart | netlify/functions/generate.ts:83-106 | one part keeps the record well formed, and the face slot either stays as it was or takes a tail of the part at least four bytes shorter than it |
| Multipart.PartWithoutSeparator | netlify/functions/generate.ts:83-88 | a part holding no CRLFCRLF leaves the record unchanged |
| Multipart.PartSplit | netlify/functions/generate.ts:83-91 | a part `header CRLFCRLF content` whose header holds no earlier separator is split exactly there |
| Multipart.DispatchFace | netlify/functions/generate.ts:96-99 | the face part stores its content verbatim and its media type; the text slots are untouched |
| Multipart.DispatchText | netlify/functions/generate.ts:100-105 | a name, job or phone part stores its sanitised decoded content in its own slot and changes no other slot |
| Multipart.DispatchIgnored | netlify/functions/generate.ts:93-106 | a part with another name, or with none, changes nothing |
| Multipart.DispatchOverwrites | netlify/functions/generate.ts:96-106 | of two parts with the same name, the later one decides the result alone |
| Multipart.StepFrom | netlify/functions/generate.ts:70-81 | an iteration that goes on moves the cursor past the delimiter found, to a later delimiter within the body, and hands on a part no longer than the body |
| Multipart.Step | netlify/functions/generate.ts:66-81 | an iteration that goes on moves the cursor strictly forward, to a delimiter within the body, so the loop terminates |
| Multipart.Scan | netlify/functions/generate.ts:64-109 | the loop keeps the record well formed, and any face bytes it stores fit, with a separator, in the body |
| Multipart.Parse | netlify/functions/generate.ts:48-112 | without a boundary the result is the initial record; in every case the result is well formed, and its face bytes fit, with a separator, in the body |
| Multipart.ParsePart | netlify/functions/generate.ts:83-106 | the loop body's record updates compute `DispatchPart` |
| Multipart.FindPart | netlify/functions/generate.ts:66-81 | the three searches and their `break`s compute `Step` |
| Multipart.ParseMultipart | netlify/functions/generate.ts:48-112 | the method's loop computes `Parse`: the empty record without a boundary, else the scan from cursor 0 |
| Multipart.NoBoundaryGivesEmpty | netlify/functions/generate.ts:49-59 | a Content-Type without `boundary=`, in any case, gives the default record |
| Multipart.ScanStopsWithoutDelimiter | netlify/functions/generate.ts:67-68 | with no delimiter from the cursor on, the loop ends with the record as it is |
| Multipart.ScanStopsAtCloseDelimiter | netlify/functions/generate.ts:70-73 | when the two bytes after the delimiter decode to "--", the loop ends with the record as it is |
| Multipart.ScanStopsWithoutNextDelimiter | netlify/functions/generate.ts:76-78 | when no delimiter follows the current one, the loop ends keeping what earlier parts filled |
| Multipart.ScanPart | netlify/functions/generate.ts:64-108 | between two delimiters the part is the clamped range from two bytes past the first to two bytes before the next; only that part updates the record, and the scan resumes at the next delimiter, with no CRLF needed in front of it |
| Multipart.ShortPartIsSkipped | netlify/functions/generate.ts:81-88 | a next delimiter less than two bytes past the part's start gives an empty part, which is skipped |
| Composition.Chunk | netlify/functions/generate.ts:75-81 | a chunk is four bytes longer than its delimiter and part together |
| Composition.IndexOfSkips | netlify/functions/generate.ts:67 | a search across a stretch without occurrences ends where a search from its end does |
| Composition.StepAtChunk | netlify/functions/generate.ts:66-81 | at a laid-out chunk the iteration hands on exactly that chunk's part and moves to the delimiter after it |
| Composition.StepAtClose | netlify/functions/generate.ts:70-78 | at the final delimiter of a laid-out body the loop stops |
| Composition.ScanEncoded | netlify/functions/generate.ts:64-109 | from the first delimiter, the loop applies the laid-out parts in order |
| Composition.ScanSkips | netlify/functions/generate.ts:67 | starting the loop before a stretch without delimiters is starting it after that stretch |
| Composition.ScanEncodedBody | netlify/functions/generate.ts:64-109 | the loop over a whole laid-out body skips the preamble and applies the parts in order |
| Composition.ParseEncodedBody | netlify/functions/generate.ts:48-112 | round trip: decoding a body laid out from delimiter-free parts, with the Content-Type's boundary, gives the parts applied in order to the empty record |
| Composition.TwoLinesFree | netlify/functions/generate.ts:83-85 | two header lines without CR, joined by CRLF, hold no separator, even one running on into the CRLFCRLF after them |
| Composition.FormPartSeparator | netlify/functions/generate.ts:83-91 | in a part written as encoded header lines, CRLFCRLF and content, where no separator starts inside the header lines, the first separator is the one after them |
| Composition.FormPartDispatch | netlify/functions/generate.ts:83-106 | such a part is dispatched on exactly its header text and its content |
| Composition.FormPartViews | netlify/functions/generate.ts:83-94 | such a part is read back with exactly its header text, its field name and its content |
| Composition.FormPartField | netlify/functions/generate.ts:83-94 | a part whose header lines carry `name="value"` after text without a quote is read back under that name, with its content, whatever header lines follow |
| Composition.FormFacePart | netlify/functions/generate.ts:83-99 | a face part written as a `name="face"` line, a `Content-Type: type` line, CRLFCRLF and the bytes stores the bytes verbatim and the trimmed type, and leaves the text slots alone |
| Composition.DispatchTextSlot | netlify/functions/generate.ts:96-106 | the text slot a name selects is overwritten by the part with that name and kept by any other |
| Composition.FoldPartsAppend | netlify/functions/generate.ts:66-109 | applying parts in order splits at any point |
| Composition.DispatchPartTextSlot | netlify/functions/generate.ts:83-106 | one part writes the text slot its name selects, with its sanitised content, and no other text slot |
| Composition.DispatchPartFaceSlots | netlify/functions/generate.ts:83-99 | one part named face sets both face slots; any other part leaves them alone |
| Composition.LastIndexWith | netlify/functions/generate.ts:96-106 | the index found qualifies and no later element does; -1 means no element qualifies |
| Composition.FoldPartsTextSlot | netlify/functions/generate.ts:96-108 | after a sequence of parts a text slot holds the sanitised content of the part with that name that no later part shares, or its old value when there is none |
| Composition.FoldPartsFaceSlots | netlify/functions/generate.ts:96-108 | the face slots come from the last part named face, or keep their old values when there is none |
| Composition.ParseEncodedTextSlot | netlify/functions/generate.ts:48-112 | a laid-out form decodes each text slot to the sanitised content of its last part, or "" when there is none |
| Composition.ParseEncodedFaceSlots | netlify/functions/generate.ts:48-112 | a laid-out form decodes the face to the last face part's bytes and media type, or to null and null when there is none |

## Left out

- The base64 decoding of the request body (generate.ts:61) is not modelled. The body is given as bytes.
- UTF-8 decoding (`toString()`, generate.ts:72, 90, 101-105) is the parameter `decode`, not a definition. Invalid UTF-8 and replacement characters are not modelled.
- The `"--"` peek at generate.ts:72 is modelled as the source does it, by decoding the clamped two bytes. The stop lemmas take the decoded value as given.
- The round-trip lemmas (`Composition.ParseEncodedBody` and the two slot lemmas after it) require that the decoder does not map CRLF to "--". They also require that no part and no preamble holds a delimiter, and that the bytes after the final delimiter close the loop. The source decodes other bodies differently, as `Multipart.ScanPart` states.
- `Multipart.ParseMultipart` models the mutable `result` object as a record value that the loop reassigns field by field. It is local to the call and never aliased, so no update in place is lost.
- The loop body is written as two methods, `Multipart.FindPart` (the searches and their `break`s) and `Multipart.ParsePart` (the split and the slot update), called from the loop. The statements are those of the source, in its order.
- The `(input || "")` and `(phone || "")` fallbacks for `null`/`undefined` (generate.ts:31, 40) are not modelled. Strings here are never null.
- `indexOf` with an empty needle or a negative offset is not modelled. The parser never passes either: the delimiter is at least two bytes and the offsets are non-negative.
- The `handler` (generate.ts:114-237) is not part of this model. That covers HTTP method dispatch, environment variables, the validation of the decoded fields, prompt building, the Gemini call and the JSON responses. They are network calls and glue around libraries that are not available here.
- The browser side (`src/App.tsx`) is not part of this model. It is UI state, local storage and `fetch`.
- Concurrency is not modelled. The decoder has no shared state.
