# A model of musescore-downloader's PDF download

The userscript adds download buttons to a MuseScore score page. Its one
piece of real logic is the PDF download: it derives a file name from the
score's title, detects whether the page images are SVG or PNG, builds the
list of per-page image URLs, and `generatePDF` assembles one PDF page per
page image, in page order. It caches the first PDF it serializes in a
single module-level slot and hands every result to the browser's save
trigger. This project models that logic in Dafny and proves what the code
promises about it.

- `word_chars.dfy` (`WordChars`): the regular-expression class `\w`. The
  patterns have no `u` flag, so it is ASCII `[A-Za-z0-9_]`.
- `file_names.dfy` (`FileNames`): `getTitle` and `getScoreFileName`, which
  replaces every run of non-word characters of the title with one `_`, as
  a function on character sequences. A second, position-by-position
  description of the rewrite is proved equal to it.
- `image_urls.dfy` (`ImageUrls`): `getImgType` (the word characters after
  the pathname's final `.`, and `null` when the pathname does not end that
  way or there is no sample image), `main`'s `svg` default, the decimal printing of the page index, and `main`'s page URL
  list `baseURL + "score_" + i + "." + imgType`.
- `pdf_generation.dfy` (`PdfGeneration`): `generatePDF`. The class
  `PdfGenerator` has three fields: the cache slot `cache` (`pdfBlob`), the
  log of `saveAs` calls `saves`, and the log of page image requests
  `requests`. It is driven by the SVG loop, the order-preserving
  `Promise.all` and the PNG loop, each a method with a loop proved against a
  specification function.
- `wrappers.dfy` (`Wrappers`): `Option`. `None` stands for `null` or
  `undefined`.

Inputs that come from outside the script are parameters:
- the sample page image (its `src` pathname and natural size);
- the page count;
- the score metadata;
- fetching one SVG (`string -> Load<SvgElement>`): `Loaded` with the root
  element, `Fails` when the blocking request throws or yields no XML
  document, `Hangs` when it never returns;
- rasterizing one PNG (`string -> Load<string>`): `Loaded` with a data URL,
  `Fails` when the canvas throws after `onload` (no 2D context, or an
  export the browser refuses), `Hangs` when `onload` never fires;
- the order in which the PNG loads that settle do so;
- `pdf.getBlob()` (`PdfDocument -> Option<Blob>`, where `None` means the
  promise rejects).

A PDF document is a page size and a sequence of page records.

Where the program's documented design and its code disagree, the
model follows the code:
- `generatePDF` calls `getImgType()` again and does not apply the `svg`
  default. When no format is detected, or the extension is neither `svg`
  nor `png`, `pdf` stays undefined and `pdf.getBlob()` throws, so the
  promise rejects (`PdfGeneration.Assemble`). When nothing is detected,
  `main` meanwhile builds `.svg` URLs; when the extension is some other
  word, `main` builds URLs with that extension.
- When the metadata cannot be reached, the file name is `""`, not the
  score's id. When the metadata exists but has no `title`, `replace` is
  called on `undefined` and throws (`FileNames.ScoreFileName` gives `None`).
- Any word-character extension is returned by `getImgType`, not only `svg`
  or `png` (`ImageUrls.MatchExtension`).
- The "Processing…" label is restored only when the promise resolves. The
  handler has no rejection branch.

## Model

| member | source | states |
|---|---|---|
| `FileNames.GetTitle` | src/main.ts:119-125 | unreachable metadata gives the title `""`; otherwise the metadata's title, absent when the field is |
| `FileNames.Sanitize` | src/main.ts:128 | the file name is never longer than the title, and empty exactly when the title is |
| `FileNames.SanitizeAllWord` | src/main.ts:128 | the file name holds only `[A-Za-z0-9_]` |
| `FileNames.ScoreFileName` | src/main.ts:127-129 | unreachable metadata gives `""`; a name exists exactly when the title does, it is the title's rewrite, and it holds only word characters |
| `FileNames.SanitizeByPosition` | src/main.ts:128 | the file name is the in-order concatenation of each title position's contribution: a word character itself, the first character of a non-word run one `_`, any other non-word character nothing |
| `FileNames.SanitizeSuffix` | src/main.ts:128 | the same, for every suffix of the title that does not start inside a non-word run |
| `FileNames.SanitizeWordPrefix` | src/main.ts:128 | a leading run of word characters is copied unchanged, ahead of the rewrite of the rest |
| `FileNames.SanitizeRunPrefix` | src/main.ts:128 | a leading maximal non-word run becomes exactly one `_` |
| `FileNames.SanitizeKeepsWords` | src/main.ts:128 | a title of word characters only is its own file name |
| `FileNames.SanitizeIdempotent` | src/main.ts:128 | sanitizing a file name again changes nothing |
| `FileNames.SanitizeUnchangedIff` | src/main.ts:128 | the rewrite leaves a title unchanged if and only if it has no non-word character |
| `ImageUrls.MatchExtension` | src/main.ts:50 | a captured extension is a non-empty run of word characters |
| `ImageUrls.MatchExtensionSound` | src/main.ts:50 | a captured extension ends the pathname and follows a `.` there, so the pattern `\.(\w+)$` matches |
| `ImageUrls.MatchExtensionComplete` | src/main.ts:50 | wherever the pattern matches, the result is exactly the characters after that `.` |
| `ImageUrls.MatchExtensionNone` | src/main.ts:49-53 | the result is `null` if and only if the pattern matches nowhere in the pathname |
| `ImageUrls.ExtensionOfSuffix` | src/main.ts:50 | a pathname ending in `.` plus a non-empty word yields that word |
| `ImageUrls.DetectImgType` | src/main.ts:46-55 | no sample image gives `null`; otherwise the match on the sample's pathname |
| `ImageUrls.EffectiveImgType` | src/main.ts:154 | `svg` when nothing is detected, the detected extension otherwise; never empty, word characters only |
| `ImageUrls.NatToString` | src/main.ts:157 | the page index is printed as non-empty decimal digits with no leading zero |
| `ImageUrls.NatToStringRoundTrip` | src/main.ts:157 | reading the printed index back as a decimal number gives the index |
| `ImageUrls.NatToStringInjective` | src/main.ts:157 | distinct indices print differently |
| `ImageUrls.PageUrls` | src/main.ts:156-158 | one URL per page; URL `i` is `baseURL + "score_" + i + "." + imgType` |
| `ImageUrls.PageUrlsDistinct` | src/main.ts:156-158 | distinct pages get distinct URLs |
| `ImageUrls.PageImageRedetected` | src/main.ts:157 | detecting the format of a pathname ending in `score_<i>.<imgType>` gives `imgType` back |
| `ImageUrls.MainPageUrlsFormat` | src/main.ts:154-158 | `main`'s URLs use `svg` when nothing is detected, and a page image at any of them is detected as the format in its URL |
| `PdfGeneration.PdfFileName` | src/main.ts:107 | the saved name is the name followed by `.pdf`, and `undefined.pdf` when no name is passed |
| `PdfGeneration.AcquiredInOrder` | src/main.ts:93 | the acquired payloads are one per page URL, payload `i` from URL `i` |
| `PdfGeneration.FirstMissing` | src/main.ts:73-80 | the index of the first page whose fetch yields no document: all before it succeed, it does not, and it is the length exactly when every fetch succeeds |
| `PdfGeneration.FirstMissingAt` | src/main.ts:73-80 | an unsuccessful page preceded only by successes is the first one |
| `PdfGeneration.AwaitAll` | src/main.ts:93 | whatever order the loads settle in: any throwing rasterization rejects; otherwise all loading gives the payloads in page order, and a load that never fires leaves the promise pending |
| `PdfGeneration.SvgPagesAt` | src/main.ts:73-80 | the SVG path appends one page per SVG element, page `i` embedding element `i` |
| `PdfGeneration.PngPagesAt` | src/main.ts:94-100 | the PNG path appends one page per image, page `i` drawing image `i`, every page at the same width and height |
| `PdfGeneration.SvgFailure` | src/main.ts:73-80 | the SVG loop throws exactly when its first unsuccessful fetch throws, and blocks for ever exactly when that fetch never returns |
| `PdfGeneration.EmbedSvgPages` | src/main.ts:66-81 | with every fetch succeeding: a default-size document of exactly one page per URL, in URL order; otherwise the first unsuccessful fetch's exception or block, after fetching up to and including that URL |
| `PdfGeneration.EmbedPngPages` | src/main.ts:94-100 | one page per image, in order, each `RasterPage(image, width, height)`, on a document of page size `[width, height]` |
| `PdfGeneration.Assemble` | src/main.ts:65-102 | a format other than `svg` or `png` (none detected included) leaves no document, so serializing throws; a built document has one page per page URL |
| `PdfGeneration.Requests` | src/main.ts:73-93 | the page images requested on a miss are a prefix of the page URLs, in order |
| `PdfGeneration.AssembledPages` | src/main.ts:65-102 | a built document has exactly one page per URL, page `i` made from URL `i`; on the PNG path the document and every page have the sample image's natural size |
| `PdfGeneration.AssembleOutcomes` | src/main.ts:65-102 | a document is built exactly when the detected format is `svg` or `png` and every page of it is acquired; the SVG path throws exactly when its first unsuccessful fetch throws; the PNG path throws exactly when some rasterization throws |
| `PdfGeneration.BuildDocument` | src/main.ts:65-102 | the `switch` on the detected format produces the specified build and requests the specified URLs |
| `PdfGeneration.PdfGenerator.constructor` | src/main.ts:10 | a freshly loaded page has an empty cache, nothing saved, nothing requested |
| `PdfGeneration.PdfGenerator.Generate` | src/main.ts:57-109 | hit: the cached blob is saved under `name + ".pdf"`, the cache is unchanged and nothing is requested. Miss: the pages are requested and built; the cache is set and the save made only when serialization succeeds; a failure caches and saves nothing; whatever was saved is always the cached blob |
| `PdfGeneration.GenerateTwice` | src/main.ts:58-60 | after one successful generation on either path, a second call with any other name and inputs saves the same bytes under its own name |

## Left out

- DOM access (`querySelector`, the hidden `img` and `canvas`, button cloning,
  `replaceWith`, `window.open`, the "Processing…" label): browser
  plumbing. The sample image, the page count and the metadata are inputs.
- `getPagesNumber` and its DOM-count fallback: the page count is a parameter.
- URL parsing (`new URL(src).pathname`): the sample image's pathname is
  given directly, and a `src` that fails to parse is not modelled.
- The XHR fetch, canvas rasterization (`toDataURL`), `SVGtoPDF`, pdfkit and
  `getBlob`: foreign code. They are pure function parameters, so a URL
  always yields the same payload.
- PdfGeneration.EmbedSvgPages: each `SVGtoPDF` call is taken to contribute
  one page record. The loop makes no `addPage` call, and what pdfkit does
  without a current page is not part of this model.
- `Promise.all` concurrency: the loads complete in an order that is a
  parameter of `Generate` and `AwaitAll`. No other interleaving is
  modelled, including two overlapping clicks that race on the cache slot.
- `${i}` printing for indices of 10^21 and above (exponent notation) is not
  modelled: `NatToString` always prints plain decimal.
- The external mscz, MusicXML, MIDI and MP3 links and
  `waitForDocumentLoaded`: fixed site-specific strings with no logic.
- The click handler's call `generatePDF(svgURLs, getScoreFileName(...))` is
  not a member of its own. Its parts are `ScoreFileName`, `PageUrls` and
  `Generate`.
