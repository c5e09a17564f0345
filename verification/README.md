# pdfViewer core, modelled in Dafny

A model of the pure logic of the pdfViewer iOS app. The app opens a PDF by URL. It serves the file from a
per-URL file in the caches directory when that file exists, and downloads it otherwise. It then lets
the user search the document and step through the matches. On the first screen, a HEAD request
decides whether a URL serves a PDF at all.

Modules (one per concept, file names in brackets):

- `CacheKey` [cache_key.dfy]: the URL-to-file-name transform (`url2CachePath`) and the cache path below the caches directory (`getPDFPath`).
- `Fetch` [fetch.dfy]: the cache lookup, the copy into the cache, the hit-or-download decision of `showPDFFile`, and the download-completion handler. The file system is an abstract `map<string, Blob>`. Each handler returns the effects it has, in order: showing a document, showing or hiding the alert, starting a download, or passing a value to the progress view's `setProgress`.
- `Progress` [progress.dfy]: the download-progress fraction, computed exactly over `real`.
- `Search` [search.dfy]: the match list and the clamped cursor behind the back and forward buttons, and the end-of-editing rule of the search bar.
- `PdfCheck` [pdf_check.dfy]: the header decision of `isPdf` and the two buttons `actionPDFView` and `actionPDF1`.
- `Text` [text.dfy] and `Wrappers` [wrappers.dfy]: substring search (`String.contains`) and `Option`.

Swift runtime traps are modelled as results, not preconditions. A force-unwrapped `nil` or an
out-of-range array subscript yields `Crash`. This covers the forward button before any search, a
search with no document or no match, and a URL that does not parse.

Where the code's behaviour is surprising, the model follows the code:

- The cache key is not collision-resistant: `a/b` and `a_b` share a file.
- A failed copy into the cache is swallowed; the cache path is shown anyway.
- The progress fraction for an unknown size is not capped and exceeds 1 after 10 MB.
- Empty search text only hides the search bar. It leaves the previous matches in place rather than clearing them.
- Zero matches trap instead of doing nothing.
- A new search keeps the old cursor position.

## Model

| member | source | states |
|---|---|---|
| CacheKey.ReplaceSlashes | pdfViewer/PDFViewController.swift:118 | the result has the input's length; every `/` becomes `_` and every other character stays in place, so no `/` remains |
| CacheKey.Key | pdfViewer/PDFViewController.swift:117-119 | the key is `pdf_` followed by the URL string with `/` turned into `_`; it is 4 longer than the URL and contains no `/` |
| CacheKey.AppendComponent | pdfViewer/PDFViewController.swift:126 | the joined path is the directory, a `/` unless the directory already ends in one, and the file name, with nothing else inserted |
| CacheKey.CachePath | pdfViewer/PDFViewController.swift:122-128 | the cache path is the caches directory, one `/` unless the directory already ends in one, and the URL's key, with nothing else in between |
| CacheKey.AppendComponentInjective | pdfViewer/PDFViewController.swift:122-128 | below one directory, two file names give the same path exactly when they are equal |
| CacheKey.KeyCollision | pdfViewer/PDFViewController.swift:117-119 | two URLs share a key exactly when they have the same length and differ only by `/` versus `_` |
| CacheKey.CachePathCollision | pdfViewer/PDFViewController.swift:122-128 | the cache path depends on the URL only through its key: two URLs share a cache path exactly when they collide |
| CacheKey.KeyNotInjective | pdfViewer/PDFViewController.swift:115-128 | the distinct URLs `a/b` and `a_b` map to the same cache path |
| Fetch.GetPDFFromCache | pdfViewer/PDFViewController.swift:130-138 | a path comes back exactly when the URL's cache file exists, and it is that cache path |
| Fetch.MovePDFToCache | pdfViewer/PDFViewController.swift:140-146 | on a successful copy the cache file holds the downloaded bytes; on failure the store is unchanged and no error surfaces; no other file changes |
| Fetch.ShowPDFFile | pdfViewer/PDFViewController.swift:151-166 | a hit does exactly one thing, showing the cached path, and starts no download; a miss does exactly two things, showing the alert and then starting one download for that URL, and shows no document yet |
| Fetch.DidFinishDownloading | pdfViewer/PDFViewController.swift:247-260 | without an original URL the only effect is hiding the alert; otherwise the file is copied into the cache and the effects are exactly hiding the alert and then showing the cache path |
| Fetch.DidWriteData | pdfViewer/PDFViewController.swift:263-279 | one `setProgress` call, with a value that times the denominator (the expected size, or 10,000,000 when it is unknown) gives the total bytes written |
| Fetch.ProgressMoves | pdfViewer/PDFViewController.swift:263-279 | one `setProgress` value per callback of a run, each of which times the denominator (the expected size, or 10,000,000 when it is unknown) gives that callback's total bytes written |
| Fetch.ProgressNeverMovesBack | pdfViewer/PDFViewController.swift:263-279 | over a run of callbacks with non-decreasing byte counts, the values passed to `setProgress` never drop |
| Fetch.DownloadThenHit | pdfViewer/PDFViewController.swift:130-166 | after a completed download whose copy succeeded, the same URL is a cache hit that shows the downloaded bytes without a new download |
| Fetch.CopyFailureSwallowed | pdfViewer/PDFViewController.swift:140-146 | a failed copy leaves the store as it was and still shows the cache path; with nothing cached before, the next open downloads again |
| Fetch.OnlyCompletionWrites | pdfViewer/PDFViewController.swift:247-258 | a completion adds at most the cache file of its original URL to the store |
| Fetch.CollidingUrlServedFromCache | pdfViewer/PDFViewController.swift:117-157 | after downloading one URL, a different colliding URL is a cache hit showing the first URL's bytes |
| Progress.Fraction | pdfViewer/PDFViewController.swift:268-275 | the fraction times the expected size is the bytes written when the size is known; times 10,000,000 when it is not |
| Progress.FractionMonotone | pdfViewer/PDFViewController.swift:268-275 | for a fixed expected size the fraction is non-decreasing in the bytes written |
| Progress.KnownSizeWithinUnit | pdfViewer/PDFViewController.swift:269-270 | with a known size and at most that many bytes written, the fraction is between 0 and 1, and exactly 1 when all bytes are written |
| Progress.UnknownSizeExceedsOne | pdfViewer/PDFViewController.swift:271-275 | with an unknown size and more than 10,000,000 bytes written, the fraction is above 1 |
| Text.ContainsIsOccurs | pdfViewer/ViewController.swift:53 | the substring scan succeeds exactly when the needle occurs at some position of the text |
| PdfCheck.IsPdf | pdfViewer/ViewController.swift:46-51 | without an HTTP response the answer is no |
| PdfCheck.IsPdfHeaderDecision | pdfViewer/ViewController.swift:52-67 | a response is a PDF exactly when `Content-Type` contains `application/pdf` or `Content-Disposition` contains `.pdf` |
| PdfCheck.ContentTypeDecides | pdfViewer/ViewController.swift:52-57 | a PDF `Content-Type` makes the answer yes whatever `Content-Disposition` holds |
| PdfCheck.NoHeadersNotPdf | pdfViewer/ViewController.swift:59-67 | a response with neither header is not a PDF |
| PdfCheck.ActionPDFView | pdfViewer/ViewController.swift:17-28 | no text changes nothing; unparsable text traps; otherwise the document becomes the URL on a PDF and is cleared otherwise |
| PdfCheck.ActionPDF1 | pdfViewer/ViewController.swift:30-36 | the document becomes the fixed sample URL on a PDF and is left unchanged otherwise |
| PdfCheck.ButtonsFollowHeaders | pdfViewer/ViewController.swift:17-67 | for a URL that parses, the URL button records it exactly when the headers announce a PDF and clears the document otherwise; the sample button records the sample exactly when the headers announce a PDF or it was already recorded, and otherwise changes nothing |
| PdfCheck.ButtonsDisagreeOnNonPdf | pdfViewer/ViewController.swift:17-36 | on a response that is not a PDF, the URL button clears the recorded document and the sample button keeps it |
| Search.Highlight | pdfViewer/PDFViewController.swift:203-205 | every found location, in order, becomes a highlighted selection |
| Search.GotoSelectedItemPage | pdfViewer/PDFViewController.swift:68-74 | without a search nothing happens; inside the list it jumps to the selected match; outside it traps |
| Search.Backward | pdfViewer/PDFViewController.swift:68-81 | the index drops by one only when positive and never goes negative; without a search nothing is jumped to; with matches it traps, and only ever out of range, exactly when the clamped index is outside the list, and otherwise jumps to that match; from a valid state it stays valid and the matches are unchanged |
| Search.Forward | pdfViewer/PDFViewController.swift:68-88 | traps on the force-unwrap exactly when there is no search; the index rises by one only below the last index, with no wraparound; with matches it traps, out of range, exactly when the clamped index is outside the list, and otherwise jumps to that match; from a valid state it stays valid and the matches are unchanged |
| Search.FindItems | pdfViewer/PDFViewController.swift:200-211 | succeeds exactly when there are matches and traps on the force-unwrap otherwise; sets the match list and the highlighted selections to the highlighted matches and changes nothing else, so the index is not reset; jumps to the first match |
| Search.FindItemsReset | pdfViewer/PDFViewController.swift:200-211 | the corrected search: succeeds exactly when there are matches; sets the match list and the highlighted selections, puts the index on the first match and changes nothing else; the result is valid and it jumps to the selected match |
| Search.EndEditingAction | pdfViewer/PDFViewController.swift:101-111 | no text asks for nothing, empty text exactly asks to hide the search bar, and any other text asks for a search for exactly that text |
| Search.TextDidEndEditing | pdfViewer/PDFViewController.swift:101-111 | no text does nothing; empty text hides the search bar and runs no search; other text runs the search |
| Search.TextDidEndEditingFixed | pdfViewer/PDFViewController.swift:101-111 | the end-of-editing rule with the corrected search: the same three cases, searching with the corrected search |
| Search.RunFixedNeverOutOfRange | pdfViewer/PDFViewController.swift:68-88 | with the corrected search, no sequence of searches, ends of editing (with no, empty or other text) and button presses from a valid state subscripts out of range, and every state reached is valid |
| Search.RunKeepsIndexNonNegative | pdfViewer/PDFViewController.swift:76-88 | as written, no sequence of searches and button presses drives the index below zero |
| Search.SecondSearchTrapsAsWritten | pdfViewer/PDFViewController.swift:200-211 | as written, five matches, four forward presses, a search with two matches and one more forward press trap out of range |
| Search.ThreeMatchWalk | pdfViewer/PDFViewController.swift:76-88 | with matches m0, m1, m2 the jumps go m0, m1, m2, m2 (clamped), then m1 on back |

## Findings

| source | as written | input that shows it | evidently intended | confidence | as-written member | corrected member |
|---|---|---|---|---|---|---|
| pdfViewer/PDFViewController.swift:200-211 | a new search replaces `searchedItems` but keeps `selectedItem`, while the view jumps to the first match | search with 5 matches, press forward 4 times (index 4), search with 2 matches, press forward: `searchedItems[4]` is out of range and traps | a new search restarts the cursor at the first match it jumps to | high, not executed | Search.SecondSearchTrapsAsWritten | Search.FindItemsReset |

`Search.TextDidEndEditing` and `Search.Run` use the search as written. `Search.TextDidEndEditingFixed` and `Search.RunFixed` use the corrected one.

## Left out

- UIKit view lifecycle, the search bar's show/hide toggle and layout, and construction of the alert and progress view. These are presentation only. The progress view pins the value it is given to [0, 1], so past 10 MB of an unknown-size download the bar stays full while the value passed to it keeps growing; the model stops at the value passed. Only the `searchView.isHidden` flag set by the empty-text rule is kept.
- PDFKit rendering, page-number titles and notification observers. `findString` is an input: the ordered match locations, or `None` without a document. Its case-insensitive matching is the document's business.
- URLSession task creation, delegate queues and the `DispatchQueue.main.async` hops. Asynchronous work runs in place, in program order. The download is a completion event carrying its bytes.
- The HEAD request and the semaphore wait in `isPdf`. The response is an input, and `None` stands for no HTTP response. Header values that are not strings are not modelled.
- File-manager semantics. Whether `copyItem` succeeds is an input, so a copy onto an existing file is as abstract as any other failure. The caches directory is an input path.
- URL parsing (`URL(string:)`). It is an input function, and a URL is its absolute string.
- `Float` arithmetic, which is replaced by exact `real` division. The `Int64` counters are kept as a bounded `int64` type.
- Character semantics of Swift strings (grapheme clusters, Unicode equivalence in `contains`). Strings are sequences of `char`, and `String.contains` is a plain substring test.
- Segue wiring, which hands `pdffile` to the viewer.
- The `print` logging calls, which only write to the console.
- Transport errors. The source has no `didCompleteWithError` handler, so a failed download leaves the alert on screen and writes nothing. The model has no event for it, and the store is untouched.
- HTTP error statuses. A download that ends with an error status still reaches `didFinishDownloadingTo`, so the error body is cached as if it were the PDF. The model allows this only because the downloaded bytes are arbitrary; it does not tell an error body from a document.
