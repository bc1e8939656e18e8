# PDF tools: a verified model of the transcoding and batch logic

This project models the logic of a browser PDF tool. The tool does two jobs:

- It recompresses PDF files. Every page is rendered at a scale that depends on the chosen level and turned into a JPEG of a matching quality. The JPEGs are written into a new PDF, one full-page image per page.
- It builds one PDF from a set of images, with one image per page.

Around the two pipelines sit four more pieces:

- the application state: file selection, removal, the sequential batch and resetting;
- the size formatter (`formatBytes`);
- the result screen's totals;
- the progress screen's clamp, rounded percentage and status labels.

## Modules

| module | file | models |
|---|---|---|
| `Types` | `types.dfy` | The records and unions of `types.ts`. It adds the browser values they refer to: files, what the external decoders read from a file (`Content`), output pages and blobs, and the pipeline errors. |
| `JsMath` | `js_math.dfy` | `Math.round` and the rounded percentage on exact numbers. `RoundPercent` computes it in integers and is proved equal to `Math.round(done / total * 100)`. |
| `SizeFormat` | `size_format.dfy` | `formatBytes`: the unit index as an exact floor-log base 1024, and the magnitude rounded to `decimals` places as `toFixed` does. Trailing zeros are dropped as `parseFloat` does. The unit label follows, and index 4 or more shows `"undefined"`. |
| `PdfService` | `pdf_service.dfy` | The level table, the jsPDF builder (a class whose `pages` field grows in place) and the two pipelines. `CompressPdf` and `ConvertImagesToPdf` are methods with the source's loops. Each is proved equal to a specification function of its outcome and another of the progress values it reports. |
| `AppState` | `app.dfy` | The `App` component as a class with one field per state hook. `StartCompression` runs the batch loop in `CompressAll` and is proved against the batch specification functions. |
| `ResultView` | `result_view.dfy` | The totals, the savings, the gain flag, the savings line and the download name. |
| `ProcessingState` | `processing_state.dfy` | `safeProgress`, the rounded percentage and `getStatusText`. |

## External parts

The rendering engine, the JPEG encoder, the image decoder and the PDF serializer are foreign code, so they appear as parameters:

- A `File` carries `Content`. Its `pdfPages` is what the PDF engine reads: `None` when the document does not parse, otherwise each page's size at scale 1 and whether rendering it succeeds. Its `image` is the pixel size the image decoder reports, or `None` when decoding fails.
- The encoded JPEG is the symbolic value `Jpeg(page, scale, quality)`. An image file is placed as its own bytes, `FileData(file)`.
- `serialize: seq<Page> -> nat` gives the byte length of the serialized output.
- The progress callback becomes a returned sequence of every value passed to it, in order.

## Model

| member | source | states |
|---|---|---|
| `PdfService.Parameters` | services/pdfService.ts:58-74 | Every level has a positive scale and a quality in 0..1. |
| `PdfService.LevelsOrdered` | services/pdfService.ts:58-74 | Scale and quality both strictly decrease from low to medium to high. No level keeps the defaults (1.0, 0.5). |
| `PdfService.LevelSettings` | services/pdfService.ts:58-74 | The defaults followed by the switch give exactly the level's pair: low (1.5, 0.8), medium (1.0, 0.6), high (0.7, 0.4). |
| `PdfService.PdfDocument.constructor` | services/pdfService.ts:102-107 | A new document holds exactly one empty page, of the given size and orientation. |
| `PdfService.PdfDocument.AddPage` | services/pdfService.ts:109-112 | One empty page of the given size and orientation is appended after the existing pages. |
| `PdfService.PdfDocument.AddImage` | services/pdfService.ts:115 | The image is added to the last page only. Every other page is unchanged. |
| `PdfService.OrientationOf` | services/pdfService.ts:103 | Landscape exactly when the width exceeds the height. |
| `PdfService.OrientationScaleInvariant` | services/pdfService.ts:83 | Scaling a page by a positive factor does not change its orientation. |
| `PdfService.FirstUnrenderable` | services/pdfService.ts:92-95 | Every page before the index renders, and the page at the index, if any, does not. |
| `PdfService.FirstUnreadable` | services/pdfService.ts:168 | Every image before the index decodes, and the image at the index, if any, does not. |
| `PdfService.ImagePages` | services/pdfService.ts:166-185 | One page per image, in input order, each the full-page placement of that image. |
| `PdfService.ProgressBefore` | services/pdfService.ts:80 | One value per step reached. |
| `PdfService.LoopProgress` | services/pdfService.ts:78-118 | The reference definition of a page loop's progress values; `LoopProgressShape` and `LoopProgressBelowHundred` characterise it. |
| `PdfService.LoopProgressShape` | services/pdfService.ts:78-118 | The page-loop progress never decreases and stays in 0..100. It starts at 0, or is just [100] for zero pages. Its last value is 100 exactly when the loop completes or the stopping step already rounds to 100. |
| `PdfService.LoopProgressBelowHundred` | services/pdfService.ts:78-80 | Every value before the final 100 is below 100 exactly when there are fewer than 200 steps. |
| `PdfService.AddFullPageImage` | services/pdfService.ts:101-115 | The first step creates a fresh document with the page. Every later step appends the page to the same document. Either way the page carries one image at (0,0) of the page's size. |
| `PdfService.CompressPdf` | services/pdfService.ts:45-137 | The loop's result and reported progress equal `CompressionOutcome` and `CompressionProgress`. |
| `PdfService.CompressionOutcome` | services/pdfService.ts:45-137 | The reference definition of what compressPdf resolves or rejects with. `CompressPdf` is proved equal to it; `CompressionSucceeds` and `CompressionRecord` characterise it. |
| `PdfService.CompressionProgress` | services/pdfService.ts:78-118 | The reference definition of the values compressPdf reports. `CompressPdf` is proved equal to it; `CompressionProgressShape` characterises it. |
| `PdfService.CompressionSucceeds` | services/pdfService.ts:45-121 | compressPdf resolves exactly when the file parses as a PDF, has at least one page, and every page renders; otherwise it rejects. |
| `PdfService.CompressedBlobPages` | services/pdfService.ts:78-121 | The output document has one page per source page, in source order. Each page is the viewport at the level's scale, is landscape exactly when wider than tall, and holds one JPEG of that page at the level's quality over the whole page. The blob's size is the serializer's size of those pages. |
| `PdfService.RenderedPage` | services/pdfService.ts:83-115 | The reference definition of one output page; `RenderedPageShape` characterises it. |
| `PdfService.RenderedPageShape` | services/pdfService.ts:83-115 | One rendered page has the scaled viewport's width and height, is landscape exactly when wider than tall, and holds exactly one full-page JPEG of that page. |
| `PdfService.CompressionRecord` | services/pdfService.ts:121-136 | A successful result carries the compressed document of the file's pages, the input's size and name, the blob's size, `isLarger` exactly when the output is bigger, and the rounded savings ratio. |
| `PdfService.CompressionProgressShape` | services/pdfService.ts:78-118 | An unparsable file reports nothing. Otherwise progress never decreases and stays in 0..100. With at least one page it starts at 0, the value before page i + 1 is round(i / P * 100), and it ends at 100 after all P pages (P + 1 values). A page failing with P < 200 leaves it below 100. |
| `PdfService.SinglePageDocument` | services/pdfService.ts:78-121 | A renderable one-page document reports 0 then 100 and yields a one-page output. |
| `PdfService.ZeroPageDocument` | services/pdfService.ts:121 | With no pages the builder is never created: progress is [100] and the call fails with `NoDocument`. |
| `PdfService.SavingsRatio` | services/pdfService.ts:125-132 | The reference definition of `Math.round((original - new) / original * 100)`, with a zero original not finite. `SavingsRatioArithmetic` and `SavingsRatioExample` state its value. |
| `PdfService.MakeResult` | services/pdfService.ts:123-136 | The reference definition of the returned record; `CompressionRecord` states each field. |
| `PdfService.SavingsRatioArithmetic` | services/pdfService.ts:125-132 | For a positive original size the ratio is `Math.round((original - new) / original * 100)`. It lies in 0..100 when the output is no larger, and is at most 0 when the output is larger. |
| `PdfService.SavingsRatioExample` | services/pdfService.ts:125-132 | 1,000,000 bytes compressed to 400,000 give a ratio of 60. |
| `PdfService.ConvertImagesToPdf` | services/pdfService.ts:139-189 | The loop's result and reported progress equal `ConversionOutcome` and `ConversionProgress`. |
| `PdfService.ConversionOutcome` | services/pdfService.ts:139-189 | The reference definition of what convertImagesToPdf resolves or rejects with. `ConvertImagesToPdf` is proved equal to it; `ConversionOutput` characterises it. |
| `PdfService.ConversionProgress` | services/pdfService.ts:166-187 | The reference definition of the values convertImagesToPdf reports. `ConvertImagesToPdf` is proved equal to it; `ConversionProgressShape` characterises it. |
| `PdfService.ConversionOutput` | services/pdfService.ts:166-188 | convertImagesToPdf succeeds exactly when there is an image and every image decodes. The output then has one page per image, in order, sized to the image, with the right orientation. Each page holds the image's own bytes over the whole page. |
| `PdfService.ConversionProgressShape` | services/pdfService.ts:166-187 | Progress is round(i / N * 100) before image i. It never decreases, stays in 0..100, and ends with 100 after all N images. |
| `JsMath.JsRound` | services/pdfService.ts:80 | `Math.round` gives the integer r with r - 1/2 <= x < r + 1/2. |
| `JsMath.RoundPercent` | services/pdfService.ts:80 | The integer formula for `Math.round(done / total * 100)`. It is the reference definition; `RoundPercentIsJsRound` proves it equal to `JsRound` of the exact quotient. |
| `JsMath.RoundPercentIsJsRound` | services/pdfService.ts:80 | The integer formula `floor((200 * done + total) / (2 * total))` is exactly `Math.round(done / total * 100)`, including for a negative `done`. |
| `JsMath.RoundPercentMonotone` | services/pdfService.ts:80 | The rounded percentage never decreases as `done` grows. |
| `JsMath.RoundPercentRange` | services/pdfService.ts:80 | For 0 <= done <= total the percentage lies in 0..100. It is 0 at 0 and 100 at total. |
| `JsMath.RoundPercentBelowHundred` | services/pdfService.ts:80 | The value before the last step is below 100 exactly when there are fewer than 200 steps. |
| `SizeFormat.FormatBytes` | services/pdfService.ts:29-36 | The reference definition of `formatBytes`: "0 Bayt" for zero, otherwise the trimmed rounded magnitude and the unit label. It has no contract of its own; `FormatZero` and `FormatBytesMeaning` state what it yields. |
| `SizeFormat.FormatSize` | services/pdfService.ts:29 | `formatBytes` with its default of two decimals. It is the reference definition; the three worked examples below state its output. |
| `SizeFormat.FormatZero` | services/pdfService.ts:30 | Zero bytes is written "0 Bayt" for any number of decimals. |
| `SizeFormat.UnitIndex` | services/pdfService.ts:34 | The reference definition of the unit index `Math.floor(Math.log(bytes) / Math.log(1024))`, as an exact floor-log; `UnitIndexBounds` and `UnitIndexUnique` characterise it. |
| `SizeFormat.UnitIndexBounds` | services/pdfService.ts:34 | The unit index i satisfies 1024^i <= bytes < 1024^(i+1). |
| `SizeFormat.UnitIndexUnique` | services/pdfService.ts:34 | The index is the only one with that property. |
| `SizeFormat.UnitLabel` | services/pdfService.ts:33-35 | The reference definition of `sizes[i]`, with "undefined" from index 4 on; `UnitLabelDefined` characterises it. |
| `SizeFormat.UnitLabelDefined` | services/pdfService.ts:33-35 | A label from the list exists exactly for byte counts below 1024^4. |
| `SizeFormat.ScaledMagnitude` | services/pdfService.ts:35 | The reference definition of `(bytes / 1024^i).toFixed(dm)` as an integer count of 10^-dm units; `ScaledMagnitudeQuotient`, `ScaledMagnitudeNearest` and `MagnitudeRange` characterise it. |
| `SizeFormat.MagnitudeRange` | services/pdfService.ts:35 | The rounded magnitude lies between 1 and 1024 before zeros are trimmed. 1024 is reached only by rounding. |
| `SizeFormat.ScaledMagnitudeQuotient` | services/pdfService.ts:35 | The scaled magnitude is the rounded quotient `(2 * bytes * 10^dm + 1024^i) / (2 * 1024^i)`. |
| `SizeFormat.ScaledMagnitudeNearest` | services/pdfService.ts:35 | The chosen digits are within half a unit in the last place of bytes / 1024^i, and a tie goes up. |
| `SizeFormat.Trim` | services/pdfService.ts:35 | The reference definition of the trailing-zero removal `parseFloat` performs; `TrimValue` characterises it. |
| `SizeFormat.TrimValue` | services/pdfService.ts:35 | Dropping trailing fraction zeros keeps the value, and a remaining fraction does not end in 0. |
| `SizeFormat.NatText` | services/pdfService.ts:35 | Decimal text is non-empty, all digits, with no leading zero. |
| `SizeFormat.NatTextRoundTrip` | services/pdfService.ts:35 | Reading the decimal text back gives the number. |
| `SizeFormat.FractionDigits` | services/pdfService.ts:35 | Exactly k digit characters. |
| `SizeFormat.DecimalText` | services/pdfService.ts:35 | The reference definition of the number's text: integer part, then a point and the fraction digits; `DecimalDigitsValue`, `NatText` and `FractionDigits` characterise its parts. |
| `SizeFormat.DecimalDigitsValue` | services/pdfService.ts:35 | The integer part and the k fraction digits together stand for m / 10^k. |
| `SizeFormat.FormatBytesMeaning` | services/pdfService.ts:29-36 | A positive count is written as the numeral of some m / 10^k, then a space and the unit label. It has at most max(decimals, 0) places and no trailing zero in the fraction. m / 10^k is the nearest such number to bytes / 1024^i, the unit with magnitude in [1, 1024). |
| `SizeFormat.FormatOneKilobyte` | services/pdfService.ts:29-36 | 1024 bytes are written "1 KB". |
| `SizeFormat.FormatOneAndAHalfKilobytes` | services/pdfService.ts:29-36 | 1536 bytes are written "1.5 KB". |
| `SizeFormat.FormatJustBelowOneMegabyte` | services/pdfService.ts:29-36 | 1048575 bytes are written "1024 KB": rounding can reach the next unit's size without changing the unit. |
| `ResultView.DownloadName` | components/ResultView.tsx:17 | The name is "optimize_" followed by the result's file name. |
| `ResultView.SumBy` | components/ResultView.tsx:24-25 | The reference definition of `reduce` with `+` from 0. `SumByAppend`, `SumByRemove` and `SumByPermutation` characterise it. |
| `ResultView.TotalOriginal` | components/ResultView.tsx:24 | The sum of the original sizes, as the reference definition. `TotalsOrderIndependent` and `GainAndMessage` state its properties. |
| `ResultView.TotalNew` | components/ResultView.tsx:25 | The sum of the new sizes, as the reference definition. `TotalsOrderIndependent` and `GainAndMessage` state its properties. |
| `ResultView.TotalSavings` | components/ResultView.tsx:26 | The original total minus the new total, as the reference definition. `TotalsOrderIndependent` states that it does not depend on the order of the results. |
| `ResultView.IsOverallGain` | components/ResultView.tsx:27 | The reference definition of `totalSavings > 0`. `GainAndMessage` proves it holds exactly when the new total is below the original. |
| `ResultView.SavingsMessage` | components/ResultView.tsx:40-44 | The reference definition of the conditional savings line. `GainAndMessage` proves it appears exactly on an overall gain. |
| `ResultView.SumByAppend` | components/ResultView.tsx:24-25 | The left-to-right sum over a concatenation is the sum of the two sums. |
| `ResultView.SumByRemove` | components/ResultView.tsx:24-25 | Removing one result takes exactly its size off the sum. |
| `ResultView.SumByPermutation` | components/ResultView.tsx:24-25 | Reordering the results does not change the sum. |
| `ResultView.TotalsOrderIndependent` | components/ResultView.tsx:24-27 | The totals, the savings and the gain flag do not depend on the order of the results. |
| `ResultView.GainAndMessage` | components/ResultView.tsx:26-44 | An overall gain holds exactly when the new total is below the original total. The savings line appears exactly then, and the savings are then positive. |
| `ProcessingState.SafeProgress` | components/ProcessingState.tsx:14 | The result is in [0, 100]. A finite value in range is kept, a larger one becomes 100, and a negative or non-finite one becomes 0. |
| `ProcessingState.DisplayedPercent` | components/ProcessingState.tsx:72 | The shown percentage is an integer in 0..100. |
| `ProcessingState.SafeProgressClamp` | components/ProcessingState.tsx:14 | Clamping is idempotent and monotone. |
| `ProcessingState.StatusText` | components/ProcessingState.tsx:17-29 | The reference definition of `getStatusText`; `MessageWins` and `StatusBands` characterise it. |
| `ProcessingState.MessageWins` | components/ProcessingState.tsx:18 | A non-empty message is shown as it is. |
| `ProcessingState.StatusBands` | components/ProcessingState.tsx:20-28 | Without a message, each mode shows three distinct labels on the disjoint bands below 30, 30 to below 80, and 80 upward. |
| `ProcessingState.ModesHaveDistinctLabels` | components/ProcessingState.tsx:20-28 | No label of one mode is used by the other. |
| `AppState.Filter` | App.tsx:50 | The kept elements are exactly the input's elements that pass, and there are no more of them than inputs. |
| `AppState.FilterCounts` | App.tsx:50 | filter keeps each passing element exactly as many times as it occurs, and no other element. |
| `AppState.FilterAppend` | App.tsx:50-52 | Filtering distributes over concatenation. |
| `AppState.FilterKeepsPassing` | App.tsx:50 | A list whose elements all pass is kept whole, and filtering is idempotent. |
| `AppState.IsPdf` | App.tsx:50 | The reference definition of the PDF MIME test; `PdfsAreNotImages` relates it to `IsImage`. |
| `AppState.IsImage` | App.tsx:101 | The reference definition of the `image/` prefix test; `PdfsAreNotImages` relates it to `IsPdf`. |
| `AppState.PdfsAreNotImages` | App.tsx:101 | No file passes both the PDF filter and the image filter. |
| `AppState.SpliceStart` | App.tsx:62 | splice's start index lies within 0..length. |
| `AppState.RemoveAt` | App.tsx:61-62 | The reference definition of the list left by copying and then `splice(index, 1)`; `RemoveAtRemoves` and `RemoveAtMultiset` characterise it. |
| `AppState.RemoveAtRemoves` | App.tsx:60-63 | splice(index, 1) on the copy removes exactly the element at its start position and keeps the others in order; a start at the end of the list removes nothing. |
| `AppState.RemoveAtMultiset` | App.tsx:61-62 | When something is removed, the remaining files plus the removed one are exactly the original files. |
| `AppState.SpliceStartCases` | App.tsx:62 | splice's start: an index in 0..len-1 is itself, -len..-1 count back from the end, an index from len on removes nothing, and one below -len starts at 0. |
| `AppState.BatchOutcome` | App.tsx:74-96 | The reference definition of the batch's result: the results in file order, or the first error. `CompressAll` is proved equal to it; `BatchPrefix`, `BatchFailure` and `BatchOutcomeOrder` characterise it. |
| `AppState.BatchProgress` | App.tsx:71-84 | The reference definition of every value the batch passes to `setProgress`. `CompressAll` is proved equal to it; `BatchProgressShape` characterises it. |
| `AppState.LastAttempted` | App.tsx:76-78 | The reference definition of the position the last message names; `LastAttemptedShows` characterises it. |
| `AppState.LastAttemptedShows` | App.tsx:76-96 | The message left after a batch names a file that was tried: every file before it succeeded, and it is the failing file or the last one. |
| `AppState.FileMessage` | App.tsx:78 | The reference definition of the per-file message; `FileMessageShows` characterises it. |
| `AppState.FileMessageShows` | App.tsx:78 | The message is "Dosya işleniyor: ", then the position, " / " and the total, as decimal numerals that read back as the two numbers. |
| `AppState.FirstFailedFile` | App.tsx:76-88 | Every file before the index succeeds, and the file at the index, if any, fails. |
| `AppState.FileNumerators` | App.tsx:83 | One overall numerator per value the file reports. |
| `AppState.CompressFile` | App.tsx:77-87 | One file's outcome, and its reports mapped to (i * 100 + p) / N. |
| `AppState.CompressAll` | App.tsx:74-88 | The loop's reported values, outcome and last attempted position equal `BatchProgress`, `BatchOutcome` and `LastAttempted`. |
| `AppState.BatchStep` | App.tsx:76-88 | One loop turn appends the file's numerators and its result. A failing file fixes the batch's error and is the last one attempted. |
| `AppState.ReportedStep` | App.tsx:83-84 | One loop turn appends the file's overall values. After a failing file they are all the batch reports. |
| `AppState.BatchAfterFailure` | App.tsx:92-96 | After a failure, later files change neither the outcome nor the reported values. |
| `AppState.BatchPrefix` | App.tsx:76-91 | The batch over the first files succeeds exactly when each succeeds, with one result per file in order. Otherwise it carries the first failing file's error. |
| `AppState.BatchOutcomeOrder` | App.tsx:76-90 | The stored results are in file order, one per file. Each is the file's own compressPdf result, with its name and size, downloaded as "optimize_" plus its name. |
| `AppState.BatchFailure` | App.tsx:92-96 | The batch fails exactly when some file fails, with the first failing file's error, and every file before it succeeded. |
| `AppState.CompressPdfWellBehaved` | App.tsx:81-85 | Each file's reports never decrease, lie in 0..100 and end at 100 when the file compressed. |
| `AppState.NumeratorsShape` | App.tsx:83 | The batch numerators never decrease, lie in 0..100N, and end at 100N on success. |
| `AppState.AppendFileShape` | App.tsx:83 | Appending file k's numerators keeps them non-decreasing and in 0..100(k+1). |
| `AppState.FileNumeratorsShape` | App.tsx:83 | File k's numerators never decrease and lie in 100k..100(k+1). |
| `AppState.OverallShape` | App.tsx:83 | Those numerators over N are non-decreasing values in 0..100, and 100N gives exactly 100. |
| `AppState.BatchProgressShape` | App.tsx:71-84 | The batch's progress starts at 0, never goes back, stays in 0..100 and ends at 100 on success. |
| `AppState.BatchProgressDisplayed` | App.tsx:83-84 | Every value the batch reports is already in range, so the clamp leaves it unchanged. |
| `AppState.ConversionProgressDisplayed` | App.tsx:123 | The conversion's whole percentages are displayed unchanged. |
| `AppState.App.constructor` | App.tsx:11-25 | The initial state: compress mode, no files, medium level, no results, libraries loading, progress 0, no message. |
| `AppState.App.LibrariesLoaded` | App.tsx:27-35 | The state becomes idle if the libraries loaded and error otherwise. Nothing else changes. |
| `AppState.App.ResetApp` | App.tsx:37-46 | Empty lists, idle, medium level, progress 0, no results and no message. The mode is kept. |
| `AppState.App.SelectMode` | App.tsx:171-184 | A tab sets the mode and resets everything else. |
| `AppState.App.SelectLevel` | App.tsx:15 | The level changes and nothing else. |
| `AppState.App.HandlePdfSelect` | App.tsx:49-58 | With a PDF among the chosen files, the PDFs are appended in order, the state is ready and the results are cleared. Otherwise the list, the status and the results are unchanged. |
| `AppState.App.RemovePdf` | App.tsx:60-65 | The list becomes `RemoveAt(index)`. The state becomes idle exactly when the list is emptied, and otherwise keeps its status. |
| `AppState.App.HandleImagesSelect` | App.tsx:100-108 | With an image among the chosen files, the images are appended in order and the state is ready. Otherwise nothing changes. |
| `AppState.App.RemoveImage` | App.tsx:110-115 | As `RemovePdf`, on the image list. |
| `AppState.App.StartCompression` | App.tsx:67-97 | An empty list changes nothing. Otherwise the reported values are the batch progress, and the progress field holds the last of them. On success the state is done with the results in file order. On any failure the state is ready and the results are empty. The message names the last file attempted, the file list and level are untouched. |
| `AppState.App.FinishCompression` | App.tsx:78-95 | What the batch leaves behind. Progress holds the last reported value and the message names the last file attempted. On success the state is done with the results; on failure it is ready with no results. Files, images, level and mode are untouched. |
| `AppState.App.StartConversion` | App.tsx:117-131 | An empty list changes nothing. Otherwise the reported values are 0 and then the pipeline's, with no message. On success the document is kept and the state is done; on failure the state is ready. |

## Left out

- `loadLibraries` (services/pdfService.ts:3-27) injects CDN scripts, which is DOM and network I/O. Its outcome enters as the flag given to `App.LibrariesLoaded`.
- Rasterization, JPEG encoding, image decoding and PDF serialization are foreign library calls. They are represented by `Content`, the symbolic `ImageData` and the `serialize` parameter, as described above. Canvas dimension truncation is not modelled: the viewport's real width and height are used throughout.
- The `await` points are not modelled. Each call awaits its steps in order, so the model is a plain sequential loop.
- `StartCompression` sets the initial fields before the loop and the final ones after it (in `FinishCompression`); the states in between are not modelled. Inside the loop the source updates `processingMessage` and `progress` as it goes. The model returns every value passed to `setProgress` and stores the final message and progress, but it does not record each intermediate state of the fields.
- Floating point is not modelled:
  - progress, scale and quality are exact reals or fractions;
  - `Math.log` in `formatBytes` is replaced by the exact floor-log base 1024;
  - binary rounding artefacts of `toFixed`, of the savings ratio, of the page percentages and of the overall progress division are ignored (the lines below give an example);
  - the ring's `strokeDashoffset` geometry is left out.
- SizeFormat.FormatBytes: requires `decimals <= 100`, because `toFixed` throws above 100. Every caller in the source passes the default of 2.
- SizeFormat.FormatBytes: dropping trailing zeros matches `parseFloat` and Number-to-string only while the `toFixed` text has at most 15 significant digits (true for at most 11 decimals). With more digits the source prints the double's shortest form, and the model keeps every digit. For example, `formatBytes(1073741825, 20)` gives "1.0000000009313226 GB" in the source and "1.00000000093132257462 GB" in the model.
- PdfService.SavingsRatio: computes `Math.round` of the exact ratio, not of the double the source computes. The two differ when the double lands just below a half. For original 200 and new 171, the source computes (29 / 200) * 100 = 14.499999999999998 and rounds it to 14; the model gives 15.
- JsMath.RoundPercent: page progress has the same double-rounding gap. For page 30 of 200, the source computes Math.round((29 / 200) * 100) = 14, while `RoundPercent(29, 200)` is 15. The same applies to `ProgressBefore`, `LoopProgress` and the progress lemmas built on them.
- Ratio: a zero original size makes the source compute NaN or -Infinity. The model writes this as `NotFinite` rather than modelling float values.
- Error messages: the alert text and `console.error` output are left out. A failed call keeps only which error happened (`PipelineError`).
- Download links, object URLs, `converted_images.pdf`, and JSX rendering are left out. Only the download name string is modelled.
- components/UploadZone.tsx and components/ConfigPanel.tsx contain no logic beyond forwarding callbacks. The level they choose enters through `App.SelectLevel`.
- AppState.App.SelectMode: requires a status other than processing and done, because the tabs are only rendered then (App.tsx:171).
- The size format is modelled exactly as the code writes it, in two places where a reader might expect otherwise:
  - 1024 bytes give "1 KB", not "1.00 KB", because `parseFloat` drops the zeros of "1.00";
  - from 1024^4 bytes on, the label is `"undefined"`, because the unit list stops at GB.
