# BAT verification, modelled in Dafny

BAT verification is a small web application that checks a new print proof
(a "BAT", *bon à tirer*) of a product's packaging against the reference PDF
stored for that product's SKU. The browser renders both PDFs. It then
compares them pixel by pixel and word by word and sends the new text to a
spell-check route. That route asks LanguageTool for French and English
findings, keeps only the words flagged in both languages, and removes
domain false positives (ingredient names, SKU codes, brand words, numbers,
measures). A signature detector counts `/Sig` form fields. The reference
PDFs and a JSON metadata file live in a blob store. The dashboard extracts
a SKU from a dropped file's name and filters the reference list. The
results page turns the pixel similarity into a score and a colour band, and
allows promotion only for a signed proof.

This project models the deterministic code around those libraries and
services and proves what it promises. Each library or service is a function
parameter, with its assumed behaviour stated as a predicate:

- pixelmatch: `PixelCompare.Matcher`, assumed to report at most `w*h`
  differing pixels and to fill a `4*w*h` mask;
- jsdiff `diffWords`: `TextDiff.WordDiff`, assumed to return parts whose
  replay rebuilds both inputs;
- LanguageTool: `Spellcheck.Service`;
- the filename parser: `ReferencesRoute.FilenameParser`;
- pdf-lib's form loading: the `SignatureDetect.FormOutcome` value it
  produces.

The modules follow the source files:

| module | file | source |
|---|---|---|
| `Wrappers` | wrappers.dfy | `Option`, `byte` |
| `JsString` | js_string.dfy | the JavaScript string built-ins the code relies on: `\s`, `trim`, `toLowerCase`, `slice`, `includes`, `join`, number to decimal string |
| `SeqUtil` | seq_util.dfy | `Array.prototype.filter` and subsequences |
| `PdfUtils` | pdf_utils.dfy | `src/lib/pdf-utils.ts`: `cleanText` and the text-item join |
| `PixelCompare` | pixel_compare.dfy | `src/lib/pixel-compare.ts` |
| `TextDiff` | text_diff.dfy | `src/lib/text-diff.ts` |
| `Spellcheck` | spellcheck.dfy | `src/lib/spellcheck.ts` |
| `SpellcheckRoute` | spellcheck_route.dfy | `src/app/api/spellcheck/route.ts` |
| `SignatureDetect` | signature_detect.dfy | `src/lib/signature-detect.ts` |
| `BlobStorage` | blob_storage.dfy | `src/lib/blob-storage.ts`: the metadata record and the blob store as classes |
| `ReferencesRoute` | references_route.dfy | `src/app/api/references/route.ts` |
| `Dashboard` | dashboard.dfy | `src/app/page.tsx`: SKU extraction and search |
| `ResultsPage` | results_page.dfy | `src/app/results/page.tsx` |

Percentages are exact reals. Strings are sequences of characters.
`comparePages`, `compareText`, the blob-store operations and the crop are
methods, because the source updates state or loops with accumulators. The
rest are functions.

Some quirks are modelled as the code behaves, not as its comments describe:

- The "SKU code" test `^[A-Z0-9]{8,}$` with the `i` flag suppresses every
  word of eight or more ASCII letters and digits. That includes ordinary
  words such as "Shampoing" (`SpellcheckRoute.MisspellingHiddenAsCode`).
- The filename SKU capture keeps the file extension: "SKU_ABC.pdf" gives
  "ABC.pdf" (`Dashboard.ExtensionIsCaptured`).
- A new document whose text is empty is refused by the spell-check route
  with a 400, so the results page shows no spelling report at all
  (`ResultsPage.EmptyDocumentHasNoReport`).
- `getMetadata` hides an unreadable metadata file behind an empty list. The
  next `addReference` then replaces the file with a one-entry list
  (`BlobStorage.BlobStore.AddReference`).

## Model

| member | source | states |
|---|---|---|
| PdfUtils.CleanText | src/lib/pdf-utils.ts:84-90 | The shape of the cleaned text: its only white space is ' ' and '\n', it has no two adjacent spaces, no space beside a newline, no three newlines in a row, and no white space at either end; it keeps every non-white-space character of the input, in order. The exact output is stated by `PdfUtils.CleanTextIsSpaced`. |
| PdfUtils.CollapseBlanksShape | src/lib/pdf-utils.ts:86 | Shape only: after the first rewrite, every run of non-newline white space is a single ' '. What each run becomes is stated by `PdfUtils.CollapseBlanksGap`. |
| PdfUtils.CollapseBlanksIdentity | src/lib/pdf-utils.ts:86 | The first rewrite leaves text that already has that shape unchanged. |
| PdfUtils.StripShape | src/lib/pdf-utils.ts:87 | Shape only: after the second rewrite, no space sits beside a newline, and no double space is created. What each match becomes is stated by `PdfUtils.StripGap` and `PdfUtils.StripWhite`. |
| PdfUtils.StripIdentity | src/lib/pdf-utils.ts:87 | The second rewrite leaves text with no space beside a newline unchanged. |
| PdfUtils.CollapseNewlinesNoTriple | src/lib/pdf-utils.ts:88 | Shape only: after the third rewrite, three newlines in a row never occur. What each run of line feeds becomes is stated by `PdfUtils.CollapseNewlinesGap`. |
| PdfUtils.CollapseNewlinesIdentity | src/lib/pdf-utils.ts:88 | The third rewrite leaves text without three newlines in a row unchanged. |
| PdfUtils.TrimShape | src/lib/pdf-utils.ts:89 | Trimming keeps each property the earlier rewrites established. |
| PdfUtils.TrimIdentity | src/lib/pdf-utils.ts:89 | Trimming leaves text with no white space at either end unchanged. |
| PdfUtils.CleanTextFixesClean | src/lib/pdf-utils.ts:84-90 | `cleanText` leaves clean text unchanged. |
| PdfUtils.CleanTextIdempotent | src/lib/pdf-utils.ts:84-90 | `cleanText(cleanText(x)) == cleanText(x)`. |
| PdfUtils.CleanTextEmptyIff | src/lib/pdf-utils.ts:84-90 | The result is empty exactly when the input is all white space. |
| PdfUtils.CollapseBlanksAppend | src/lib/pdf-utils.ts:86 | The first rewrite works piece by piece: on two strings that do not meet inside a run of non-newline white space it gives the concatenation of the two rewrites. |
| PdfUtils.StripAppend | src/lib/pdf-utils.ts:87 | The second rewrite works piece by piece: on two strings that do not meet inside a match of ` *\n *` it gives the concatenation of the two rewrites. |
| PdfUtils.CollapseNewlinesAppend | src/lib/pdf-utils.ts:88 | The third rewrite works piece by piece: on two strings that do not meet inside a run of line feeds it gives the concatenation of the two rewrites. |
| PdfUtils.CollapseBlanksGap | src/lib/pdf-utils.ts:86 | A non-empty run of non-newline white space between two other characters becomes exactly one space; both sides are rewritten on their own. |
| PdfUtils.StripWhite | src/lib/pdf-utils.ts:87 | A string of spaces and line feeds holding `n >= 1` line feeds becomes exactly `n` line feeds; one with none is left unchanged. |
| PdfUtils.StripGap | src/lib/pdf-utils.ts:87 | Spaces around a single line feed, between characters that are neither space nor line feed, become that line feed alone; both sides are rewritten on their own. |
| PdfUtils.CollapseNewlinesGap | src/lib/pdf-utils.ts:88 | A run of `n >= 1` line feeds between other characters becomes `n` line feeds if `n <= 2`, else exactly two; both sides are rewritten on their own. |
| PdfUtils.GapBecomesSeparator | src/lib/pdf-utils.ts:86-88 | The first three rewrites turn a non-empty run of white space into one space if it holds no line feed, otherwise into its line feeds, at most two. |
| PdfUtils.RewritesAreSpaced | src/lib/pdf-utils.ts:86-88 | The first three rewrites together equal `Spaced`, an independent definition: every non-white-space character kept in order, every maximal run of white space replaced by its separator. |
| PdfUtils.SpacedAppend | src/lib/pdf-utils.ts:86-88 | That layout works piece by piece on strings that do not meet inside a run of white space. |
| PdfUtils.SpacedGap | src/lib/pdf-utils.ts:86-88 | In that layout a maximal run of white space between two pieces becomes exactly its separator. |
| PdfUtils.CleanTextIsSpaced | src/lib/pdf-utils.ts:84-90 | `cleanText(s)` is exactly `Spaced(s)` trimmed. |
| PdfUtils.CleanTextGap | src/lib/pdf-utils.ts:84-90 | Two pieces of text that start and end with non-white-space, joined by a run of white space, are cleaned each on its own, with the run's separator between them. |
| PdfUtils.CleanTextKeepsOneSpace | src/lib/pdf-utils.ts:84-90 | Two words separated by white space without a line feed come out as the two words with exactly one space between them: they are never glued together. |
| PdfUtils.CleanTextKeepsBlankLine | src/lib/pdf-utils.ts:84-90 | Two words separated by white space holding three or more line feeds come out with exactly two line feeds between them. |
| JsString.TrimAround | src/lib/pdf-utils.ts:89 | Trimming a string whose first and last pieces end and start with non-white-space trims only those outer pieces. |
| PdfUtils.RawTextIsJoin | src/lib/pdf-utils.ts:43-48 | The raw page text is the `join("")` of the item texts. An item with `str` gives `str` plus "\n" if `hasEOL`, else plus " "; an item without `str` gives "". |
| PdfUtils.RawTextAppend | src/lib/pdf-utils.ts:43-48 | The raw text of two item lists in sequence is the concatenation of their raw texts. |
| PdfUtils.PageTextKeepsContent | src/lib/pdf-utils.ts:43-49 | A page's cleaned text holds exactly the non-white-space characters of its items' strings, in order. |
| PixelCompare.CropPixels | src/lib/pixel-compare.ts:83 | The crop is a well-formed image of the target size that is the top-left region of the source, pixel for pixel and channel for channel. |
| PixelCompare.CropSameSize | src/lib/pixel-compare.ts:75 | Cropping an image to its own size returns it unchanged. |
| PixelCompare.Crop | src/lib/pixel-compare.ts:68-85 | The crop method, which fills a fresh RGBA array in a loop, returns exactly the specified crop. |
| PixelCompare.SimilarityRange | src/lib/pixel-compare.ts:51 | For `0 <= diff <= pix`, `100*(pix-diff)/pix` lies in [0,100]. It is 100 iff diff = 0 and 0 iff diff = pix. |
| PixelCompare.SimilarityAntitone | src/lib/pixel-compare.ts:51 | More differing pixels never give a higher similarity. |
| PixelCompare.ComparePageFacts | src/lib/pixel-compare.ts:18-54 | A compared page has the given number. Its width and height are the minima of the inputs', so they exceed neither input. Both images are cropped to that size. The diff image has that size and a `4*w*h` buffer. `totalPixels = w*h > 0` and `diffPixels <= totalPixels`. The similarity lies in [0,100] and is 100 iff no pixel differs. |
| PixelCompare.ComparePageSameSize | src/lib/pixel-compare.ts:26-27 | Pages of equal size are compared as they are, without a copy. |
| PixelCompare.ComparePages | src/lib/pixel-compare.ts:8-66 | Exactly `min(|ref|,|new|)` pages are compared, page i as number i+1. The totals are the sums of the per-page pixel and diff counts. The document similarity is `100*(total-diff)/total`, or 100 when there are no pixels. |
| PixelCompare.TotalsBounded | src/lib/pixel-compare.ts:40-42 | The total diff never exceeds the total pixel count, and every page adds at least one pixel. |
| PixelCompare.ResultSimilarity | src/lib/pixel-compare.ts:57-65 | For the result of the comparison: diff <= total; total > 0 iff some page was compared; the document similarity lies in [0,100], is 100 iff no pixel differs, and is 0 iff some page was compared and every compared pixel differs. |
| TextDiff.ToChange | src/lib/text-diff.ts:20-23 | A part becomes "added" iff `added`, "removed" iff `removed` and not `added`, and "unchanged" otherwise; its value is copied. |
| TextDiff.CountChangesZero | src/lib/text-diff.ts:25 | A page's change count is at most its number of changes, and it is 0 iff every change is unchanged. |
| TextDiff.ChangesReplay | src/lib/text-diff.ts:19-23 | For parts that are never both added and removed, the removed and unchanged values replay the old text, and the added and unchanged values replay the new text. |
| TextDiff.TextAt | src/lib/text-diff.ts:16-17 | A missing page's text reads as "". |
| TextDiff.ComparedPageReplays | src/lib/text-diff.ts:16-33 | Under the `diffWords` assumption, a page's changes replay its reference and new texts. A page with no change has equal texts. |
| TextDiff.SumChangesZero | src/lib/text-diff.ts:25-26 | `totalChanges` is 0 iff no page has a change. |
| TextDiff.CompareText | src/lib/text-diff.ts:7-37 | The result has `max(|ref|,|new|)` pages, page i compared from the texts at i. `totalChanges` is the sum of the per-page change counts. |
| TextDiff.CompareTextFacts | src/lib/text-diff.ts:11-36 | Page i has number i+1, the reference text at i and the new text at i, each "" when missing. Under the `diffWords` assumption its changes replay both texts. |
| Spellcheck.Truncate | src/lib/spellcheck.ts:25 | The text sent is the prefix of at most 40 000 characters; it is the whole text when that is shorter. |
| Spellcheck.FirstSuggestions | src/lib/spellcheck.ts:51 | The suggestions are the first at most 5 replacements, in order. |
| Spellcheck.ToSpellError | src/lib/spellcheck.ts:46-55 | Message, offset, length, rule id and context are copied, and the language is the argument. The word is the slice of the sent text, clamped as `slice` clamps it. The suggestions are capped. |
| Spellcheck.BlankTextSkipsService | src/lib/spellcheck.ts:22 | White-space-only text yields no error, whatever the service would answer. |
| Spellcheck.CheckSpellingOutcome | src/lib/spellcheck.ts:18-56 | Otherwise the service sees the truncated text. A refused or failed request fails the check. An answer without matches gives no error. An answer with matches gives one error per match, in order, each word a slice of the text. |
| SpellcheckRoute.IgnoredRuleIsFalsePositive | src/app/api/spellcheck/route.ts:19-27 | The three ignored rules suppress an error whatever the word. |
| SpellcheckRoute.WholeWordMatch | src/app/api/spellcheck/route.ts:6 | In a word made only of word characters, an ingredient term with `\b` on both sides can only span the whole word. |
| SpellcheckRoute.WordWithoutSeparators | src/app/api/spellcheck/route.ts:6 | Such a word matches the ingredient pattern iff its case-folded form is one of the terms. |
| SpellcheckRoute.IngredientIsFalsePositive | src/app/api/spellcheck/route.ts:29 | "Sodium", and "SODIUM" inside "laureth(SODIUM)", are false positives under any rule. |
| SpellcheckRoute.LongPlainWordIsFalsePositive | src/app/api/spellcheck/route.ts:9 | Any word of 8 or more ASCII letters passes the SKU test and is suppressed. |
| SpellcheckRoute.MisspellingHiddenAsCode | src/app/api/spellcheck/route.ts:31 | "Shampoing" passes the SKU test. |
| SpellcheckRoute.MeasureMatchesPattern | src/app/api/spellcheck/route.ts:37 | A word that passes the one-pass measure test has a decomposition into number, white space, unit and `?`. |
| SpellcheckRoute.SplitIsLongestRuns | src/app/api/spellcheck/route.ts:37 | In any such decomposition, the number and the white space are the longest runs. |
| SpellcheckRoute.SplitPassesMeasure | src/app/api/spellcheck/route.ts:37 | Every decomposition passes the one-pass test. |
| SpellcheckRoute.MeasureIffPattern | src/app/api/spellcheck/route.ts:37 | The one-pass test holds iff the word matches `^[\d.,]+\s*(unit)?\??$` with the `i` flag. |
| SpellcheckRoute.MetricMeasure | src/app/api/spellcheck/route.ts:37 | "240ml" is a measure. |
| SpellcheckRoute.ImperialMeasure | src/app/api/spellcheck/route.ts:37 | "0.85oz" is a measure. |
| SpellcheckRoute.SpacedMeasure | src/app/api/spellcheck/route.ts:37 | "12 FL.OZ?" is a measure. |
| SpellcheckRoute.BareNumber | src/app/api/spellcheck/route.ts:37 | "8,12" is a measure. |
| SpellcheckRoute.ShortMisspellingIsReported | src/app/api/spellcheck/route.ts:25-39 | "Savn" under a spelling rule passes none of the six tests and is reported. |
| SpellcheckRoute.ErrorKeyInjective | src/app/api/spellcheck/route.ts:59-66 | Two errors have the same `offset:length` key iff they have the same offset and length. |
| SpellcheckRoute.ReconcileExact | src/app/api/spellcheck/route.ts:58-68 | Reconciliation keeps, in French order, exactly the French errors whose offset and length occur among the English errors. It is a subsequence of the French list, so an English-only error never appears, and each kept error occurs as many times as in the French list. |
| SpellcheckRoute.PostOutcome | src/app/api/spellcheck/route.ts:42-83 | A missing or empty text gives 400 "text is required". A failed check in either language gives an empty report. Otherwise the report holds the reconciled errors that are not false positives, in order and each as many times as the French check reports it, and `totalErrors` is their number. |
| SpellcheckRoute.ReportedErrors | src/app/api/spellcheck/route.ts:58-73 | The reported list is, in French order, exactly the French errors flagged at the same offset and length in English that are not false positives, each as many times as the French check reports it. |
| SignatureDetect.DetailNamesField | src/lib/signature-detect.ts:29 | A detail line quotes the field's name after its fixed prefix. |
| SignatureDetect.FilterCount | src/lib/signature-detect.ts:18-27 | `count` is the number of fields whose FT entry is "/Sig". |
| SignatureDetect.CountZeroIffNone | src/lib/signature-detect.ts:24 | The count is 0 iff no field is a signature field. |
| SignatureDetect.DetectFields | src/lib/signature-detect.ts:18-34 | `found` holds iff a signature field exists. With none, the result is (false, 0, []). Otherwise there is one detail per signature field, in field order, each naming its field. |
| SignatureDetect.DetectFailure | src/lib/signature-detect.ts:35-37 | A load failure gives (false, 0, ["Pas de formulaire détecté"]). |
| SignatureDetect.OtherFieldsNotCounted | src/lib/signature-detect.ts:20-22 | Adding a field without FT, or with another FT, changes nothing. |
| BlobStorage.FindIndex | src/lib/blob-storage.ts:47 | `findIndex` returns the first position holding the SKU, or -1 iff no entry holds it. |
| BlobStorage.Find | src/lib/blob-storage.ts:42 | `find` returns the first entry with the SKU, or nothing iff none has it. |
| BlobStorage.FirstIndexIsFound | src/lib/blob-storage.ts:47 | The first position holding the SKU is the one `findIndex` returns. |
| BlobStorage.UpsertShape | src/lib/blob-storage.ts:47-52 | With the SKU absent, the upsert appends the reference and keeps every earlier entry. With it present, the upsert overwrites the first such entry in place and keeps the length and every other position. |
| BlobStorage.FindAfterUpsert | src/lib/blob-storage.ts:42-53 | After the upsert, finding the SKU gives the new reference, and finding any other SKU gives what it gave before. |
| BlobStorage.FindOtherAfterUpsert | src/lib/blob-storage.ts:47-52 | The upsert does not move the first entry of any other SKU. |
| BlobStorage.UpsertKeepsUnique | src/lib/blob-storage.ts:45-53 | SKUs that were unique before the upsert stay unique. |
| BlobStorage.RemoveSkuExact | src/lib/blob-storage.ts:58 | Deletion keeps exactly the entries with another SKU, in their original order and each as many times as it occurred, and the deleted SKU can no longer be found. |
| BlobStorage.Metadata.Put | src/lib/blob-storage.ts:47-52 | The record's list becomes the upsert of the old list; the timestamp is untouched. |
| BlobStorage.Metadata.Remove | src/lib/blob-storage.ts:58 | The record's list becomes the old list without the SKU; the timestamp is untouched. |
| BlobStorage.DateOf | src/lib/blob-storage.ts:97 | The archive date is the part of the ISO timestamp before its first 'T': a prefix holding no 'T', followed either by the end of the timestamp or by a 'T'. |
| BlobStorage.CurrentPathInjective | src/lib/blob-storage.ts:75 | Two SKUs share the current-PDF path `references/<sku>/current.pdf` only if they are equal. |
| BlobStorage.ArchiveIsNotCurrent | src/lib/blob-storage.ts:88-99 | An archive path is never the current path, so archiving never overwrites the current PDF. |
| BlobStorage.HistoryPathInjective | src/lib/blob-storage.ts:99 | Within a SKU, `history/v<version>_<date>.pdf` determines the version and the date. |
| BlobStorage.FolderHoldsReferenceFiles | src/lib/blob-storage.ts:62 | The delete prefix `references/<sku>/` covers the current and archived PDFs and never a temporary upload. |
| BlobStorage.BlobStore.GetMetadata | src/lib/blob-storage.ts:8-20 | A fresh record holds the stored references and timestamp. A missing or unreadable file gives an empty list stamped now. |
| BlobStorage.BlobStore.SaveMetadata | src/lib/blob-storage.ts:22-31 | The record is stamped now before it is written, and the stored metadata becomes that record. |
| BlobStorage.BlobStore.GetReferences | src/lib/blob-storage.ts:35-38 | Returns the stored references, or an empty list. |
| BlobStorage.BlobStore.GetReference | src/lib/blob-storage.ts:40-43 | Returns the first stored reference with the SKU, or nothing. |
| BlobStorage.BlobStore.AddReference | src/lib/blob-storage.ts:45-54 | The stored list becomes the upsert of the read list, stamped with the clock reading taken when saving, which may differ from the reading `getMetadata` took; files are untouched. |
| BlobStorage.BlobStore.DeleteListed | src/lib/blob-storage.ts:62-65 | The loop over the listed blobs deletes exactly the files under the prefix. |
| BlobStorage.BlobStore.DeleteReference | src/lib/blob-storage.ts:56-66 | The SKU's entries are removed from the metadata, stamped with the clock reading taken when saving, and every file under `references/<sku>/` is deleted. |
| BlobStorage.BlobStore.UploadReferencePdf | src/lib/blob-storage.ts:70-81 | The file is stored at the SKU's current path, whatever the filename, and its URL is returned. |
| BlobStorage.BlobStore.ArchiveCurrentPdf | src/lib/blob-storage.ts:83-107 | With a current PDF, a copy goes to the history path for the version and today's date. Without one, nothing changes. |
| BlobStorage.BlobStore.UploadTempPdf | src/lib/blob-storage.ts:109-119 | The file is stored at `temp/<id>.pdf` and its URL is returned. |
| BlobStorage.BlobStore.DeleteTempPdf | src/lib/blob-storage.ts:121-126 | Every file under the prefix `temp/<id>.pdf` is deleted. |
| BlobStorage.AddThenGet | src/lib/blob-storage.ts:42-53 | After `addReference(ref)`, `getReference(ref.sku)` returns `ref`, whatever the stored list; if its SKUs were unique, they stay unique. |
| BlobStorage.DeleteThenGone | src/lib/blob-storage.ts:56-66 | After `deleteReference(sku)`, the SKU is not found, and its current and archived PDFs are gone. Temporary uploads survive. |
| ReferencesRoute.OrElse | src/app/api/references/route.ts:46 | `a \|\| b` on an optional string: the value when it is present and non-empty, else the fallback. |
| ReferencesRoute.NewReferenceDefaults | src/app/api/references/route.ts:44-54 | A new reference has version 1, an unknown signature status, the uploaded URL and now as its validation time. Its product name is the form value, else the parsed one, else "Produit sans nom". Its description and languages default to "" and []. Its validator defaults to "Import initial". |
| ReferencesRoute.Get | src/app/api/references/route.ts:11-22 | Lists the stored references. |
| ReferencesRoute.Post | src/app/api/references/route.ts:25-66 | A missing file or a missing or empty SKU gives 400 "file and sku are required", with nothing uploaded or stored. Otherwise the PDF is stored at the current path, and the new reference with its URL is upserted into the metadata and returned. The reference's validation time, the fallback time of the metadata read and the metadata's save stamp are three separate clock readings. |
| Dashboard.CaptureStart | src/app/page.tsx:39 | The pattern matches at a position exactly when a case-insensitive "SKU" sits there followed by a SKU character (a character other than `_`, white space or `-`), where the capture then starts, or by one `_`/white-space character and then a SKU character, where the capture starts after the separator. |
| Dashboard.FirstMatch | src/app/page.tsx:39 | The match is tried left to right: the position found is the first one at which the pattern matches, and none means it matches nowhere, so a name with "SKU" followed by a SKU character, with or without one separator, always gives a position. |
| Dashboard.CaptureIsMaximalRun | src/app/page.tsx:39 | The capture is non-empty, contains no `_`, white space or `-`, and is the longest such run. |
| Dashboard.ExtractedSkuIsLeftmostMatch | src/app/page.tsx:39 | An extracted SKU is the maximal run after the leftmost "SKU" at which the pattern matches. |
| Dashboard.LeftmostMatchIsExtracted | src/app/page.tsx:39 | Conversely, such a run after the leftmost matching "SKU" is the extracted SKU. |
| Dashboard.ExtensionIsCaptured | src/app/page.tsx:39 | "SKU_ABC.pdf" gives "ABC.pdf": the dot is kept. |
| Dashboard.SkuEndsAtSeparator | src/app/page.tsx:39 | "a SKU 1V13_FR" gives "1V13". |
| Dashboard.ExtractsWithoutSeparator | src/app/page.tsx:39 | The separator is optional: "SKU1V13.pdf" gives "1V13.pdf". |
| Dashboard.FilteredExact | src/app/page.tsx:70-75 | The filter keeps exactly the references whose lowercased SKU, product name or description contains the lowercased query, in order, each as many times as it occurs. An empty query keeps them all. |
| Dashboard.SearchIgnoresQueryCase | src/app/page.tsx:70-75 | Lowercasing the query first changes nothing. |
| ResultsPage.Analyse | src/app/results/page.tsx:86-153 | The pixel comparison runs on the stored images and the text comparison on the page texts, reference against new, in page order. The overall score is the document pixel similarity, in [0,100], and it is 100 iff no pixel differs. |
| ResultsPage.SpellcheckTextHoldsPages | src/app/results/page.tsx:102 | The text sent for spell-checking holds each new page's text, in page order, separated by "\n\n". |
| ResultsPage.ShownSpellcheck | src/app/results/page.tsx:101-114 | A thrown request shows an empty report. A refused request shows none. An answered one shows the route's report. |
| ResultsPage.SpellcheckOfDocument | src/app/results/page.tsx:102-114 | Through the route, the document gets no report iff its joined text is empty. A report's count is its number of errors. |
| ResultsPage.EmptyDocumentHasNoReport | src/app/results/page.tsx:102-114 | A document with no page, or with one empty page, gets no spelling report. |
| ResultsPage.ScoreColor | src/app/results/page.tsx:181-186 | Green iff the score is at least 95, orange iff it is at least 80 and below 95, red iff it is below 80. |
| ResultsPage.ScoreColorMonotone | src/app/results/page.tsx:181-186 | A higher score never gets a worse band: red below orange below green. |
| ResultsPage.IdenticalPagesScoreGreen | src/app/results/page.tsx:152 | Documents whose compared pages differ in no pixel score 100 and show green. |
| ResultsPage.CanValidate | src/app/results/page.tsx:188-190 | Promotion is allowed iff the signature status is signed-digital or signed-handwritten. It is refused when there is no signature result. |

The functions that compute the results carry no contract of their own;
the rows above that name them state what they do:

- `Dashboard.ExtractSku`, `Dashboard.UploadSku`: `Dashboard.ExtractedSkuIsLeftmostMatch`,
  `Dashboard.LeftmostMatchIsExtracted`, `Dashboard.CaptureIsMaximalRun`, `Dashboard.SkuEndsAtSeparator`,
  `Dashboard.ExtractsWithoutSeparator`;
- `SpellcheckRoute.IsFalsePositive`: `SpellcheckRoute.IgnoredRuleIsFalsePositive`, `SpellcheckRoute.WholeWordMatch`,
  `SpellcheckRoute.IngredientIsFalsePositive`, `SpellcheckRoute.LongPlainWordIsFalsePositive`,
  `SpellcheckRoute.MeasureIffPattern`, `SpellcheckRoute.ShortMisspellingIsReported`;
- `SpellcheckRoute.Post`: `SpellcheckRoute.PostOutcome`, `SpellcheckRoute.ReportedErrors`;
- `Spellcheck.CheckSpelling`: `Spellcheck.CheckSpellingOutcome`, `Spellcheck.BlankTextSkipsService`;
- `BlobStorage.Upsert`: `BlobStorage.UpsertShape`, `BlobStorage.FindAfterUpsert`, `BlobStorage.FindOtherAfterUpsert`,
  `BlobStorage.UpsertKeepsUnique`;
- `PixelCompare.ComparePage`: `PixelCompare.ComparePageFacts`, `PixelCompare.ComparePageSameSize`;
- `SignatureDetect.Detect`: `SignatureDetect.DetectFields`, `SignatureDetect.DetectFailure`;
- `ReferencesRoute.NewReference`: `ReferencesRoute.NewReferenceDefaults`.

## Left out

- Rendering: `renderPdf`'s pdf.js loading and rendering, the canvas conversions (`imageDataToDataUrl`, `imageDataToJpegBase64`, `imageDataToBlob`) and all React state, effects and markup are not modelled.
- pixelmatch's perceptual comparison (threshold 0.1, alpha 0.5) is abstract. The model assumes only that the diff count lies in `[0, w*h]` and that the mask has `4*w*h` bytes.
- `diffWords`' word alignment is abstract. Its replay property is an assumption, not something proved.
- PixelCompare.Crop: the source crops through a canvas put/get, which may not round-trip semi-transparent pixels exactly. The model copies the top-left region exactly.
- Percentages are exact reals. Floating-point rounding and `toFixed` formatting are left out.
- Text is a sequence of Unicode characters, while JavaScript strings count UTF-16 code units. Offsets, the 40 000-character cut and lengths differ from the code's for characters outside the Basic Multilingual Plane.
- JsString.ToLowerCase: lowercases ASCII and Latin-1 capitals only, not the rest of Unicode's case mapping. The brand-word and search tests are exact for ASCII and Latin-1 text.
- Network and services: the LanguageTool HTTP call, Vercel Blob `put`/`list`/`del`/`fetch`, `Date` and `crypto.randomUUID` become parameters. The current time is a string parameter, one per reading of the clock (`readAt`, `savedAt`, `validatedAt` where an operation reads it more than once), the service a function, and a blob URL is the store's URL prefix followed by the path.
- Dashboard.UploadSku: the random SKU used when no SKU is found in the filename is an arbitrary `fallback` argument.
- The filename parser (`parseFilename`, src/lib/metadata) is not part of this model. It is an arbitrary function returning an optional result.
- JSON serialisation of the metadata file is not modelled. Reading the stored value back is exact; an unreadable file is one of the three states the store can be in.
- Concurrency: `Promise.all` in the spell-check route and the read-modify-write race between `getMetadata` and `saveMetadata` are left out; the model is sequential.
- Errors thrown by Vercel Blob, and the 500 responses of the references route's GET and POST handlers, are not modelled. The model's store operations always succeed.
- Blob listing is modelled as a single complete list; pagination is left out.
- The spell-check route's body is modelled as an optional string. A non-string `text` member is not modelled. The `languages` field the results page sends is ignored by the route, and so by the model.
- The PUT `/api/references/[sku]` handler, version promotion, the signature route and the handwritten-signature classifier are not part of this model.
- `runAnalysis`' sequencing of state updates, the signature request and the progress messages are left out. ResultsPage.Analyse models its comparison steps and its score.
