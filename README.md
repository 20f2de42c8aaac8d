# File-processing services: a Dafny model

This project models the request-handling core of three small Node.js services:

- **pdf-service** merges several uploaded PDFs into one. It also splits one PDF by a page-range expression such as `"1-3,5,7-9"`.
- **image-service** compresses, resizes and converts uploaded images.
- **email-service** turns the JPEG and PNG attachments of an unread mail into a one-page-per-image PDF. It replies with the PDF and marks the mail read.

The model covers the decisions these handlers make:

- which inputs are refused, with which status and message;
- which defaults apply;
- which pages go where, in which order;
- which encoder and which `Content-Type` a reply gets;
- how the output filename is formed;
- when a mail is marked read.

The JavaScript built-ins the handlers depend on are modelled to their ECMAScript behaviour: `parseInt`, `String.prototype.trim`, `split`, `join`, `includes` and `replace`.

Module layout:

- `Wrappers`: `Option`.
- `JsString`: `trim`, `split` and `join` on one character, `includes`, single-character `replace`.
- `JsParseInt`: `parseInt` without a radix:
  - leading white space, then an optional sign;
  - a `0x`/`0X` prefix reads hexadecimal;
  - otherwise the longest run of decimal digits is read;
  - no digits gives NaN;
  - `x || d` defaulting.
- `PdfDoc`: the pdf-lib document as a class whose `pages` sequence grows as pages are added.
- `PageRanges`: `parsePageRanges` as an imperative method. It is proved equal to a reference definition (`ResolvedPages`) built from the set of pages the tokens select.
- `PdfService`: the `/merge-pdf` and `/split-pdf` handlers as methods over `PdfDocument`. Each is proved equal to a reference outcome function, and the lemmas are stated about that function.
- `ImageService`: the `/compress-image`, `/resize-image` and `/convert-image` handlers as functions. Each returns an error or the sharp pipeline it asks for (encoder, options, resize box) together with the reply headers.
- `EmailService`: `createPdfFromImages` as a method, plus:
  - the attachment filter;
  - the per-message decision whether to reply and mark the mail read;
  - the base64url rewrite of the outgoing message.

Failures that come from libraries or the outside world are parameters of the model:

- a PDF that does not load is an upload whose `contents` is `None`;
- an image sharp cannot decode has `format == None`;
- an image pdf-lib cannot embed is one for which the `embed` parameter returns `None`;
- whether `save()` succeeds is the `saveSucceeds` flag.

Three behaviours of the code that a reader may not expect:

- **A range token is split on every `-`, not only the first.** Only the first two fields are read. So `"1-3-7"` selects pages 1 to 3, and `"-3"` reads its first field as NaN and selects nothing (`LeadingDashSelectsNothing`).
- **`createPdfFromImages` does not scale images to A4.** Each page is sized to its image.
- **`createPdfFromImages` does not fail when no image embeds.** It saves and returns a PDF with no pages. The mail is then answered and marked read (`NoEmbeddableImageStillProducesPdf`).

## Model

| member | source | states |
|---|---|---|
| `JsString.TrimStart` | pdf-service/server.js:219 | The result is a suffix of the input. Everything removed is white space, and the result does not start with white space. |
| `JsString.TrimEnd` | pdf-service/server.js:219 | The result is a prefix of the input. Everything removed is white space, and the result does not end with white space. |
| `JsString.TrimEnds` | pdf-service/server.js:219 | `trim()` leaves neither a leading nor a trailing white-space character. |
| `JsString.TrimIdempotent` | pdf-service/server.js:219 | `trim()` is idempotent: trimming a trimmed string changes nothing. |
| `JsString.TrimNoOp` | pdf-service/server.js:223 | A string with no white space at either end is its own trim. |
| `JsString.Trim` | pdf-service/server.js:219 | `trim()` is `TrimEnd` after `TrimStart`. Its behaviour is stated by `TrimEnds`, `TrimIdempotent` and `TrimNoOp`, and by what `TrimStart` and `TrimEnd` promise. |
| `JsString.IndexOf` | pdf-service/server.js:216 | Returns the position of the first occurrence; the character does not occur before it. |
| `JsString.LastIndexOf` | image-service/server.js:194 | Returns the position of the last occurrence; the character does not occur after it. |
| `JsString.Split` | pdf-service/server.js:216 | `split` always yields at least one field. |
| `JsString.SplitCount` | pdf-service/server.js:221-223 | There are two or more fields exactly when the separator occurs. This is why `includes('-')` and the two-field destructuring agree. |
| `JsString.SplitFieldsFree` | pdf-service/server.js:216 | No field contains the separator. |
| `JsString.JoinSplit` | image-service/server.js:194 | `s.split(c).join(c) == s`. |
| `JsString.SplitJoin` | image-service/server.js:194 | Splitting a join of separator-free fields gives the fields back. |
| `JsString.Join` | image-service/server.js:194 | `join(sep)`; `[].join(sep)` is `""`. Its behaviour is stated by `JoinSplit`, `SplitJoin` and `JoinAllButLast`. |
| `JsString.JoinAllButLast` | image-service/server.js:194 | `split('.').slice(0, -1).join('.')` is everything before the last `.`, or `""` when there is none. |
| `JsString.ContainsPiece` | email-service/index.js:76-80 | A string that `includes(sub)` includes every substring of `sub`. |
| `JsString.Contains` | pdf-service/server.js:221 | `includes(sub)`: `sub` occurs at some position. `ContainsPiece` and `EmailService.EmbedFormat` state what the handlers rely on. |
| `JsString.ReplaceAll` | pdf-service/server.js:147 | `replace(/c/g, d)` keeps the length and maps every `c`, and only `c`, to `d`. |
| `JsString.StripTrailing` | email-service/index.js:124 | `replace(/=+$/, '')` removes exactly the trailing run of `=`. The result is a prefix that no longer ends in `=`. |
| `JsParseInt.DigitValue` | image-service/server.js:41 | A digit's value is below 16, and below 10 exactly for decimal digits. |
| `JsParseInt.DigitRun` | pdf-service/server.js:234 | `parseInt` reads the longest prefix of digits: every character read is a digit, and the next one is not. |
| `JsParseInt.DecimalString` | pdf-service/server.js:234 | The canonical numeral of `n` is non-empty, all digits, and has no leading zero. |
| `JsParseInt.DecimalStringValue` | pdf-service/server.js:234 | Reading the numeral of `n` gives `n`. |
| `JsParseInt.Negated` | pdf-service/server.js:223 | The definition of negating a `parseInt` result, with NaN kept as NaN. It is a helper for `ParseIntMinus`. |
| `JsParseInt.ParseIntReadsNumeral` | pdf-service/server.js:223 | `parseInt(ws + sign + numeral + rest)` is the signed value whenever `rest` cannot continue the numeral. Leading white space is skipped and the tail is ignored. |
| `JsParseInt.ParseInt` | pdf-service/server.js:223-234 | `parseInt(s)` without a radix. Its behaviour is stated by `ParseIntReadsNumeral` (white space, sign, decimal digits, ignored tail), `ParseIntReadsHex`, `ParseIntMinus`, `ParseIntNoDigits` and `ParseIntNonNumeric`. |
| `JsParseInt.ParseIntDecimal` | pdf-service/server.js:234 | `parseInt` of a canonical numeral is its value. |
| `JsParseInt.ParseIntNoDigits` | image-service/server.js:41 | Without a digit after the white space and the optional sign, the result is NaN. |
| `JsParseInt.ParseIntNonNumeric` | image-service/server.js:41 | Text that starts with anything but white space, a sign or a digit is NaN. |
| `JsParseInt.ParseIntReadsHex` | image-service/server.js:114-116 | `0x` or `0X` followed by hex digits reads them in radix 16. |
| `JsParseInt.ParseIntMinus` | pdf-service/server.js:223 | A leading `-` negates the result, NaN included. |
| `JsParseInt.ParseIntHex` | image-service/server.js:41 | `parseInt("0x1A")` is 26. |
| `JsParseInt.ParseIntNaN` | image-service/server.js:41 | `parseInt("")` and `parseInt("abc")` are NaN. |
| `JsParseInt.ParseIntEmptyHex` | image-service/server.js:41 | `parseInt("0x")` is NaN. |
| `JsParseInt.ParseIntUndefined` | image-service/server.js:41 | `parseInt(undefined)` (an absent form field) is NaN. |
| `PdfDoc.PdfDocument.Create` | pdf-service/server.js:47 | `PDFDocument.create()` has no pages. |
| `PdfDoc.PdfDocument.Loaded` | pdf-service/server.js:56 | A loaded document has the decoded pages. |
| `PdfDoc.PdfDocument.PageIndices` | pdf-service/server.js:59 | `getPageIndices()` is `0, 1, …, count - 1`. |
| `PdfDoc.PdfDocument.AddPage` | pdf-service/server.js:62 | `addPage` appends exactly one page and changes nothing else. |
| `PdfDoc.PdfDocument.SetPage` | email-service/index.js:86-87 | Drawing on an added page replaces that page only. |
| `PdfDoc.PdfDocument.CopyPages` | pdf-service/server.js:59 | `copyPages(src, indices)` yields the source pages at `indices`, in order. |
| `PageRanges.ClassifyToken` | pdf-service/server.js:221-240 | A kept single page is in `[1, maxPages]`. A kept span satisfies `1 <= start <= end <= maxPages`. Anything else is skipped. |
| `PageRanges.Interval` | pdf-service/server.js:229-231 | The range loop adds exactly the integers from `start` to `end` inclusive. |
| `PageRanges.SetAdd` | pdf-service/server.js:230 | `Set.add` keeps the Set duplicate-free and adds exactly `x`. |
| `PageRanges.Insert` | pdf-service/server.js:243 | Inserting into an ascending sequence keeps it ascending and adds one copy of `x`. |
| `PageRanges.SortNumeric` | pdf-service/server.js:243 | `sort((a, b) => a - b)` gives an ascending permutation of its input. |
| `PageRanges.InOrder` | pdf-service/server.js:243 | Lists the members of a set within bounds, strictly ascending. |
| `PageRanges.ResolvedPages` | pdf-service/server.js:214-244 | The reference answer is strictly ascending, lies in `[1, maxPages]`, and holds exactly the selected pages. |
| `PageRanges.ParsePageRanges` | pdf-service/server.js:214-244 | The loop over comma tokens returns a strictly ascending, duplicate-free list. It holds exactly the pages the tokens select, and it equals `ResolvedPages`. |
| `PageRanges.AddSpan` | pdf-service/server.js:229-231 | Adding `start..end` one page at a time adds exactly that interval. It does nothing when `start > end`. |
| `PageRanges.PagesOfStep` | pdf-service/server.js:218-241 | Each token adds what its trimmed text selects. |
| `PageRanges.PagesOfBounds` | pdf-service/server.js:226-237 | No token ever selects a page outside `[1, maxPages]`. |
| `PageRanges.PageSetBounds` | pdf-service/server.js:226-237 | No expression ever selects a page outside `[1, maxPages]`. |
| `PageRanges.NoPagesNothingResolved` | pdf-service/server.js:226-237 | A document with no pages resolves every expression to the empty list. |
| `PageRanges.AscendingUnique` | pdf-service/server.js:243 | The sorted answer is determined by the set of selected pages. |
| `PageRanges.SortedDistinctIsStrict` | pdf-service/server.js:243 | Sorting the elements of a Set gives a strictly ascending list with the same elements. |
| `PageRanges.PagesOfConcat` | pdf-service/server.js:218 | Token lists combine by union. |
| `PageRanges.DroppedTokenIgnored` | pdf-service/server.js:225-237 | A skipped token (NaN, out of range, reversed) is ignored. The tokens around it still count. |
| `PageRanges.TokenPagesIncluded` | pdf-service/server.js:218-241 | A page that any one token selects is in the answer. |
| `PageRanges.SelectingToken` | pdf-service/server.js:218-241 | Every page in the answer is selected by some token. |
| `PageRanges.SameTokensSamePages` | pdf-service/server.js:215-243 | Reordering or repeating tokens changes nothing, because of the Set and the sort. |
| `PageRanges.RangeToken` | pdf-service/server.js:221-231 | `"a-b"` selects `[a, b]` when `1 <= a <= b <= maxPages`, and nothing otherwise. A range is never clamped. |
| `PageRanges.ClassifyRange` | pdf-service/server.js:223-227 | A `-` token whose two fields read as `a` and `b` is a span exactly when `1 <= a <= b <= maxPages`. |
| `PageRanges.SinglePageToken` | pdf-service/server.js:234-239 | `"n"` selects `{n}` when `1 <= n <= maxPages`, and nothing otherwise. |
| `PageRanges.NaNTokenSelectsNothing` | pdf-service/server.js:234-236 | A token without `-` whose parse is NaN selects nothing. |
| `PageRanges.RangeNaNSelectsNothing` | pdf-service/server.js:221-225 | A token with `-` whose first or second field parses to NaN (`"abc-3"`, `"1-x"`, `"1-"`) selects nothing. |
| `PageRanges.LeadingDashSelectsNothing` | pdf-service/server.js:221-225 | A token starting with `-` (`"-3"`) selects nothing, because its first field is empty and parses to NaN. |
| `PageRanges.DocumentedExample` | pdf-service/server.js:107 | `"1-3,5,7-9"` against 10 pages gives `[1, 2, 3, 5, 7, 8, 9]`. |
| `PageRanges.UnclampedExample` | pdf-service/server.js:226 | `"1-1000"` against 10 pages gives `[]`. |
| `PageRanges.ReversedExample` | pdf-service/server.js:227 | `"5-3"` gives `[]`. |
| `PdfService.FirstUnloadable` | pdf-service/server.js:50-72 | Finds the first upload that fails to load, and every earlier one loads. It is `None` exactly when all uploads load. |
| `PdfService.MergePdf` | pdf-service/server.js:34-98 | The handler, loading and appending file after file, returns exactly `MergeOutcome`. |
| `PdfService.AppendPages` | pdf-service/server.js:61-63 | The `forEach(addPage)` loop appends the copied pages, in order. |
| `PdfService.MergeSucceedsIff` | pdf-service/server.js:34-76 | The merge produces a PDF exactly when there are two to twenty uploads, all of them load, and the save succeeds. |
| `PdfService.MergeNeedsTwo` | pdf-service/server.js:40-42 | A single upload is refused with 400 "At least 2 PDF files are required for merging". |
| `PdfService.MergeCapsUploads` | pdf-service/server.js:34 | More than twenty uploads are refused with 400 "Unexpected field" before any of them is loaded. The refusal comes from multer and the error middleware (pdf-service/server.js:247-256). |
| `PdfService.MergeNamesFirstFailure` | pdf-service/server.js:50-71 | Within the cap, the 400 names the first upload that fails to load, whatever follows it. |
| `PdfService.MergedPageCount` | pdf-service/server.js:77-87 | `X-Total-Pages` is the sum of the uploads' page counts, and `X-Source-Files` is the number of uploads. |
| `PdfService.ConcatAppend` | pdf-service/server.js:50-73 | Merging two batches yields their pages, one batch after the other. |
| `PdfService.MergedPageAt` | pdf-service/server.js:50-73 | Page `j` of upload `i` sits right after all pages of the earlier uploads. |
| `PdfService.ExtractPages` | pdf-service/server.js:135-138 | Output page `k` is source page `pageNumbers[k] - 1`. |
| `PdfService.SplitPdf` | pdf-service/server.js:101-161 | The handler returns exactly `SplitOutcome`. |
| `PdfService.CopySelected` | pdf-service/server.js:133-138 | Copying one page per page number builds a new document made of exactly those pages. |
| `PdfService.SplitSucceedsIff` | pdf-service/server.js:103-151 | The split produces a PDF exactly when all of the following hold: a file was sent; `pageRanges` is non-empty; the file loads; at least one page within the document is selected; the save succeeds; every character of `pageRanges` may appear in a header value. |
| `PdfService.SplitNothingSelected` | pdf-service/server.js:124-128 | When the expression selects no page of the loaded document, the reply is 400 "No valid pages specified". |
| `PdfService.SplitPages` | pdf-service/server.js:124-150 | The reply holds the selected pages in ascending page order. `X-Total-Pages` is their number and `X-Source-Pages` is the source's page count. |
| `PdfService.SplitFilename` | pdf-service/server.js:147 | `split-pages-<ranges>.pdf` with each comma turned into `_`. Its behaviour is stated by `SplitFilenameHasNoComma` and `SplitFilenameHeader`. |
| `PdfService.SplitFilenameHasNoComma` | pdf-service/server.js:147 | The `split-pages-….pdf` name carries no comma, whatever the expression holds. |
| `PdfService.SplitFilenameHeader` | pdf-service/server.js:145-151 | The filename is a valid header value exactly when the range expression is. Node accepts tab, printable ASCII and 0x80-0xFF in a header value. |
| `PdfService.NonHeaderRangesFail` | pdf-service/server.js:145-159 | An expression holding a character Node refuses in a header ends in 500 "Failed to split PDF", even when pages were selected and the save succeeded. |
| `ImageService.AcceptsUpload` | image-service/server.js:15-22 | The fileFilter: the mimetype is one of the five listed. `UploadFilterTypes` and `UploadCheck` state its consequences. |
| `ImageService.UploadFilterTypes` | image-service/server.js:16-21 | Only `image/` mimetypes pass. `image/jpg` and `image/gif` pass; AVIF and SVG do not. |
| `ImageService.UploadCheck` | image-service/server.js:16-39 | The request goes on exactly when a file was given and the filter accepts its mimetype. Otherwise the reply is an error. |
| `ImageService.AbsentFieldIsNaN` | image-service/server.js:41 | An absent field parses to NaN. |
| `ImageService.NumberOr` | image-service/server.js:41 | `parseInt(x)` defaulted to `d` is `d` for NaN and for 0, and the number otherwise. |
| `ImageService.CompressQualityDefaults` | image-service/server.js:41 | The compress quality is 80 for an absent, non-numeric or zero field. |
| `ImageService.CompressQualityChecked` | image-service/server.js:43-45 | `/compress-image` refuses with 400 exactly when the defaulted quality is outside `[1, 100]`. |
| `ImageService.CompressEncoder` | image-service/server.js:55-82 | The `png` and `gif` formats use PNG (compression level 9). `webp` uses WebP, and every other format uses JPEG. The quality is passed through unchanged. |
| `ImageService.CompressReply` | image-service/server.js:55-95 | A compressed reply echoes the upload's mimetype as `Content-Type`, is named `compressed-<name>`, and uses the checked quality. The encoder is the one `CompressEncoder` picks for the detected format. |
| `ImageService.GifServedAsGif` | image-service/server.js:72-89 | A GIF is re-encoded as PNG but still labelled `image/gif`. |
| `ImageService.Dimension` | image-service/server.js:128 | The definition of a parsed dimension defaulted to `null`. `ResizeReply` states the resize box it yields. |
| `ImageService.ResizeNeedsDimension` | image-service/server.js:114-120 | `/resize-image` refuses with 400 exactly when both width and height are falsy. |
| `ImageService.ResizeReply` | image-service/server.js:114-141 | A resized reply is JPEG at the quality defaulted to 90, named `resized-<name>`. Its box keeps exactly the truthy sides. Each side set in the box is the number `parseInt` read from that field. |
| `ImageService.ResizeQualityUnchecked` | image-service/server.js:116-132 | Any non-zero quality, even 500 or -3, reaches the JPEG encoder unchanged. |
| `ImageService.ConvertEncoder` | image-service/server.js:175-192 | Each allowed format gets the encoder of that format at the given quality. |
| `ImageService.ConvertAllowList` | image-service/server.js:162-168 | `/convert-image` refuses with 400 exactly when the format is not `jpeg`, `png`, `webp` or `avif`. |
| `ImageService.ConvertReply` | image-service/server.js:160-201 | A converted reply has `Content-Type` `image/<format>`, is encoded in that format at the quality defaulted to 90, and carries the output filename. |
| `ImageService.ConvertDefaultsToJpeg` | image-service/server.js:160-178 | An absent or empty format field gives JPEG at the quality defaulted to 90, labelled `image/jpeg`. |
| `ImageService.OutputFilename` | image-service/server.js:194-195 | `split('.').slice(0, -1).join('.')` followed by `.` and the format. Its behaviour is stated by `OutputFilenameReplacesExtension`, `OutputFilenameSwapsExtension` and `OutputFilenameNoDot`. |
| `ImageService.OutputFilenameReplacesExtension` | image-service/server.js:194-195 | The new name is everything before the last `.`, then `.` and the format. A name without a dot gives `.<format>`. |
| `ImageService.OutputFilenameSwapsExtension` | image-service/server.js:194-195 | `stem.ext` becomes `stem.format`. |
| `ImageService.OutputFilenameNoDot` | image-service/server.js:194-195 | A name without a dot loses its whole stem. |
| `EmailService.IsImageAttachment` | email-service/index.js:179-181 | The filter's test: the content type includes `image/jpeg` or `image/png`. `FilterImages` and `FilteredImagesEmbeddable` state its consequences. |
| `EmailService.FilterImages` | email-service/index.js:179-181 | Keeps exactly the attachments whose content type mentions `image/jpeg` or `image/png`. |
| `EmailService.FilterImagesConcat` | email-service/index.js:179-181 | The filter keeps the attachments' order. |
| `EmailService.EmbedFormat` | email-service/index.js:76-80 | `jpeg`/`jpg` in the content type selects `embedJpg`. Otherwise `png` selects `embedPng`. Otherwise nothing is tried. |
| `EmailService.FilteredImagesEmbeddable` | email-service/index.js:76-181 | Every attachment the filter keeps has an embed call to try. |
| `EmailService.CreatePdfFromImages` | email-service/index.js:70-95 | The loop produces one full-size page per image that embeds, in order. It returns `null` only when the save fails. |
| `EmailService.ImagePagesFill` | email-service/index.js:86-87 | Each page is the image's size, with the image drawn at (0, 0) at full size. |
| `EmailService.ImagePagesConcat` | email-service/index.js:73-89 | The pages follow the order of the images. |
| `EmailService.SkippedImageLeavesNoGap` | email-service/index.js:81-84 | An image that fails to embed is skipped without a blank page. |
| `EmailService.PageSources` | email-service/index.js:73-89 | Page `k` comes from image `sources[k]`, and `sources` is increasing. An image has a page exactly when it embeds. |
| `EmailService.NoEmbeddableImageStillProducesPdf` | email-service/index.js:85-90 | When no image embeds, a PDF with no pages is still saved and returned. |
| `EmailService.HandleMessage` | email-service/index.js:178-193 | A reply is sent exactly when some attachment passes the filter and the save succeeds. The mail is marked read exactly when a reply is sent, and the reply holds the pages of the filtered images. |
| `EmailService.NoImagesStaysUnread` | email-service/index.js:179-196 | Without a JPEG or PNG attachment, no PDF is made and the mail stays unread. |
| `EmailService.Base64Url` | email-service/index.js:120-124 | The output contains no `+` or `/` and does not end in `=`. Each kept character is the input's, with `+` mapped to `-` and `/` to `_`. Only trailing `=` are dropped. |
| `EmailService.Base64UrlDropsPad` | email-service/index.js:124 | On canonical base64, exactly the pad is dropped. |
| `EmailService.Base64UrlAlphabet` | email-service/index.js:120-124 | Canonical base64 becomes text in the URL-safe alphabet of section 5 of RFC 4648. |
| `EmailService.Base64UrlRoundTrip` | email-service/index.js:120-124 | Reading the base64url text back (mapping `-`, `_` back and restoring the pad) gives the canonical base64 string again. |

## Left out

- HTTP transport, routing, CORS, multer's size limits and memory storage, `/health`, and the error middleware's other branches (size limit, an unexpected field name): these are framework behaviour around the handlers. The twenty-file cap of `/merge-pdf` is modelled.
- The pdf-service upload filter (`application/pdf` only) and the `/pdf-info` endpoint: they are outside the modelled core.
- `toFixed` size and ratio figures, and log lines: floating-point reporting with no effect on any reply decision.
- PDF and image bytes and their encoding:
  - pages are uninterpreted values;
  - loading, embedding and saving succeed or fail through parameters;
  - sharp's own validation of its arguments (for example a quality of 500 on resize) is not modelled, so the model states what the handler passes on.
- Gmail polling, OAuth, the MIME composition of the reply, and parsing the incoming raw mail: foreign services. The model takes the parsed attachments as input.
- `sendReply`'s failures: they are caught and logged and do not stop the mail from being marked read. The model treats a reply as sent once it is handed over.
- The `details` field of error replies is not modelled. For the 500s it is `error.message` from a library. For the merge's 400 on an unloadable upload (pdf-service/server.js:68-71) it is the fixed text "File may be corrupted or password-protected". `PdfReply.Failure` carries the status and the `error` text only.
- ImageService.Compress, ImageService.ResizeImage, ImageService.ConvertImage: the original file name goes into `Content-Disposition`, where Node's `setHeader` throws (and the handler answers 500) on a character other than tab, 0x20-0x7E or 0x80-0xFF. This is not modelled for the image service, because how multer decodes file names is not modelled. The split handler's header check is modelled (`PdfService.SplitFilenameHeader`).
- `JsParseInt`:
  - `parseInt` results are IEEE doubles in JavaScript; the model uses unbounded integers;
  - every comparison the handlers make is against small bounds, so precision loss on huge numerals does not change a decision;
  - `-0` is modelled as 0.
- `JsString`: strings are Unicode code-point sequences, not UTF-16 code units. This only matters for characters outside the Basic Multilingual Plane, which no modelled decision inspects.
- `EmailService.FromBase64Url` is a reference decoder that states the round trip; the services contain no such function. The base64 encoding of the message bytes itself (Node's `Buffer.toString('base64')`) is not modelled, only its rewrite.
- `ImageService.ResizeImage`, `ImageService.Compress` and `ImageService.ConvertImage` carry no contract of their own. Their behaviour is stated by the `…Reply`, `…Checked`, `…Needs…` and `…AllowList` lemmas about them.
