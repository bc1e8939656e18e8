/** The application state and its handlers (App.tsx): file selection, removal,
    the sequential batch compression with its overall progress, image conversion
    and resetting. */
module AppState {
  import opened Types
  import JsMath
  import SizeFormat
  import PdfService
  import ResultView
  import ProcessingState

  // ---------------------------------------------------------------------------
  // Selecting and removing files

  /** Array.prototype.filter: the elements that pass, in their original order. */
  function Filter<T(!new)>(s: seq<T>, keep: T -> bool): (r: seq<T>)
    ensures |r| <= |s|
    ensures forall x :: x in r <==> x in s && keep(x)
  {
    if s == [] then []
    else (if keep(s[0]) then [s[0]] else []) + Filter(s[1..], keep)
  }

  /** filter keeps every passing element as often as it occurs, and no other. */
  lemma {:induction false} FilterCounts<T(!new)>(s: seq<T>, keep: T -> bool)
    ensures forall x :: multiset(Filter(s, keep))[x] == if keep(x) then multiset(s)[x] else 0
  {
    if s != [] {
      FilterCounts(s[1..], keep);
      assert s == [s[0]] + s[1..];
    }
  }

  /** f.type === 'application/pdf' */
  predicate IsPdf(f: File)
  {
    f.mimeType == "application/pdf"
  }

  /** f.type.startsWith('image/') */
  predicate IsImage(f: File)
  {
    "image/" <= f.mimeType
  }

  /** The index Array.prototype.splice(index, 1) starts at: a negative index counts
      from the end, and the result is clamped into 0..len. */
  function SpliceStart(len: nat, index: int): (start: nat)
    ensures start <= len
  {
    if index < 0 then (if len + index < 0 then 0 else len + index)
    else if index > len then len
    else index
  }

  /** The array left after splice(index, 1): the element at the start position
      removed, or nothing removed when the start is the end. */
  function RemoveAt<T>(s: seq<T>, index: int): seq<T>
  {
    var start := SpliceStart(|s|, index);
    if start < |s| then s[..start] + s[start + 1..] else s
  }

  // ---------------------------------------------------------------------------
  // The compression batch

  /** What compressPdf resolves or rejects with for one file. */
  type Outcome = Result<CompressionResult>

  /** compressPdf's outcome for each file at a level, in file order. */
  function Outcomes(files: seq<File>, level: CompressionLevel, serialize: seq<Page> -> nat): seq<Outcome>
  {
    seq(|files|, j requires 0 <= j < |files| => PdfService.CompressionOutcome(files[j], level, serialize))
  }

  /** The values compressPdf hands to its progress callback for each file. */
  function Reports(files: seq<File>): seq<seq<int>>
  {
    seq(|files|, j requires 0 <= j < |files| => PdfService.CompressionProgress(files[j]))
  }

  /** What the batch relies on from each file's step: its reports never decrease,
      lie in 0..100, and end at 100 when the file compressed. */
  predicate WellBehaved(outcomes: seq<Outcome>, reports: seq<seq<int>>)
  {
    && |reports| == |outcomes|
    && forall j :: 0 <= j < |outcomes| ==>
         && PdfService.NonDecreasing(reports[j])
         && (forall i :: 0 <= i < |reports[j]| ==> 0 <= reports[j][i] <= 100)
         && (outcomes[j].Ok? ==> reports[j] != [] && reports[j][|reports[j]| - 1] == 100)
  }

  /** The outcome of compressing the first `count` files one after the other: the
      results in file order, or the error of the first file that failed. */
  function BatchOutcome(outcomes: seq<Outcome>, count: nat): Result<seq<CompressionResult>>
    requires count <= |outcomes|
  {
    if count == 0 then Ok([])
    else
      var before := BatchOutcome(outcomes, count - 1);
      if before.Err? then before
      else
        var r := outcomes[count - 1];
        if r.Err? then Err(r.error) else Ok(before.value + [r.value])
  }

  /** The index of the first file whose step fails, or the file count. */
  function FirstFailedFile(outcomes: seq<Outcome>): (k: nat)
    ensures k <= |outcomes|
    ensures forall j :: 0 <= j < k ==> outcomes[j].Ok?
    ensures k < |outcomes| ==> outcomes[k].Err?
  {
    if outcomes == [] then 0
    else if outcomes[0].Err? then 0
    else 1 + FirstFailedFile(outcomes[1..])
  }

  /** Overall progress is (k * 100 + fileProgress) / N while file k of N runs; these
      are its numerators for the values file k reports. */
  function FileNumerators(k: nat, fileProgress: seq<int>): (r: seq<int>)
    ensures |r| == |fileProgress|
  {
    seq(|fileProgress|, j requires 0 <= j < |fileProgress| => k * 100 + fileProgress[j])
  }

  /** The numerators of every progress value reported while the first `count`
      files are compressed; nothing more is reported once a file has failed. */
  function BatchNumerators(outcomes: seq<Outcome>, reports: seq<seq<int>>, count: nat): seq<int>
    requires count <= |outcomes| == |reports|
  {
    if count == 0 then []
    else
      var before := BatchNumerators(outcomes, reports, count - 1);
      if BatchOutcome(outcomes, count - 1).Err? then before
      else before + FileNumerators(count - 1, reports[count - 1])
  }

  type Positive = n: nat | n > 0 witness 1

  /** A value handed to setProgress, kept exactly as numerator / denominator: the
      compression hands over (i * 100 + fileProgress) / pdfFiles.length, the
      conversion whole percentages. */
  datatype Fraction = Fraction(numerator: int, denominator: Positive)

  /** The number a fraction stands for. */
  function Value(f: Fraction): real
  {
    f.numerator as real / f.denominator as real
  }

  function Values(fs: seq<Fraction>): (r: seq<real>)
    ensures |r| == |fs|
  {
    seq(|fs|, j requires 0 <= j < |fs| => Value(fs[j]))
  }

  /** The overall values for numerators over `n` files. */
  function Overall(numerators: seq<int>, n: Positive): (r: seq<Fraction>)
    ensures |r| == |numerators|
  {
    seq(|numerators|, j requires 0 <= j < |numerators| => Fraction(numerators[j], n))
  }

  /** Whole percentages, as the conversion hands them to setProgress. */
  function Whole(values: seq<int>): (r: seq<Fraction>)
    ensures |r| == |values|
  {
    seq(|values|, j requires 0 <= j < |values| => Fraction(values[j], 1))
  }

  /** setProgress(0) before any work. */
  const Zero := Fraction(0, 1)

  /** Every value the compression of a non-empty batch reports: the initial 0, then
      the overall value for each value a file reports. */
  function BatchProgress(outcomes: seq<Outcome>, reports: seq<seq<int>>): seq<Fraction>
    requires outcomes != [] && |reports| == |outcomes|
  {
    [Zero] + Overall(BatchNumerators(outcomes, reports, |outcomes|), |outcomes|)
  }

  /** The text shown while file `position` of `total` is compressed. */
  function FileMessage(position: nat, total: nat): string
  {
    "Dosya işleniyor: " + SizeFormat.NatText(position) + " / " + SizeFormat.NatText(total)
  }

  /** The position shown in the message left on screen after a batch: the failing
      file's, or the last file's when every file succeeded. */
  function LastAttempted(outcomes: seq<Outcome>): nat
  {
    var k := FirstFailedFile(outcomes);
    if k < |outcomes| then k + 1 else |outcomes|
  }

  predicate NonDecreasingReals(s: seq<real>)
  {
    forall i, j :: 0 <= i < j < |s| ==> s[i] <= s[j]
  }

  /** One file of the batch: compressPdf on files[i], and the overall values its
      reports become. */
  method CompressFile(files: seq<File>, i: nat, level: CompressionLevel, serialize: seq<Page> -> nat)
    returns (result: Outcome, overall: seq<Fraction>)
    requires i < |files|
    ensures result == Outcomes(files, level, serialize)[i]
    ensures overall == Overall(FileNumerators(i, Reports(files)[i]), |files|)
  {
    var fileProgress;
    result, fileProgress := PdfService.CompressPdf(files[i], level, serialize);
    overall := Overall(FileNumerators(i, fileProgress), |files|);
  }

  /** The loop of startCompression: the files one after the other, stopping at the
      first failure. Returns every value handed to setProgress (the initial 0
      included), the batch outcome, and the position of the last file attempted,
      which the "Dosya işleniyor" message shows last. */
  method CompressAll(files: seq<File>, level: CompressionLevel, serialize: seq<Page> -> nat)
    returns (reported: seq<Fraction>, batch: Result<seq<CompressionResult>>, attempted: nat)
    requires files != []
    ensures var outcomes := Outcomes(files, level, serialize);
            && reported == BatchProgress(outcomes, Reports(files))
            && batch == BatchOutcome(outcomes, |files|)
            && attempted == LastAttempted(outcomes)
  {
    var n := |files|;
    ghost var outcomes := Outcomes(files, level, serialize);
    ghost var reports := Reports(files);
    reported := [Zero];
    var results: seq<CompressionResult> := [];
    var i := 0;
    while i < n
      invariant 0 <= i <= n
      invariant BatchOutcome(outcomes, i).Ok? && results == BatchOutcome(outcomes, i).value
      invariant reported == [Zero] + Overall(BatchNumerators(outcomes, reports, i), n)
    {
      var result, overall := CompressFile(files, i, level, serialize);
      BatchStep(outcomes, reports, i);
      ReportedStep(outcomes, reports, i);
      reported := reported + overall;
      if result.Err? {
        return reported, Err(result.error), i + 1;
      }
      results := results + [result.value];
      i := i + 1;
    }
    BatchPrefix(outcomes, n);
    batch, attempted := Ok(results), n;
  }

  // ---------------------------------------------------------------------------
  // The application

  class App {
    var mode: AppMode
    var pdfFiles: seq<File>
    var compressionLevel: CompressionLevel
    var compressionResults: seq<CompressionResult>
    var imageFiles: seq<File>
    var conversionResult: Option<Blob>
    var status: AppStatus
    var progress: Fraction
    var processingMessage: string

    /** The initial state, while the libraries are loading. */
    constructor ()
      ensures mode == Compress && pdfFiles == [] && compressionLevel == Medium
      ensures compressionResults == [] && imageFiles == [] && conversionResult == None
      ensures status == LoadingLibs && progress == Zero && processingMessage == ""
    {
      mode := Compress;
      pdfFiles := [];
      compressionLevel := Medium;
      compressionResults := [];
      imageFiles := [];
      conversionResult := None;
      status := LoadingLibs;
      progress := Zero;
      processingMessage := "";
    }

    /** The effect that loads the libraries: idle on success, error otherwise. */
    method LibrariesLoaded(succeeded: bool)
      modifies this
      ensures status == (if succeeded then Idle else Error)
      ensures mode == old(mode) && pdfFiles == old(pdfFiles) && compressionLevel == old(compressionLevel)
      ensures compressionResults == old(compressionResults) && imageFiles == old(imageFiles)
      ensures conversionResult == old(conversionResult) && progress == old(progress)
      ensures processingMessage == old(processingMessage)
    {
      status := if succeeded then Idle else Error;
    }

    /** resetApp: everything but the mode back to its idle defaults. */
    method ResetApp()
      modifies this
      ensures pdfFiles == [] && imageFiles == [] && status == Idle && compressionLevel == Medium
      ensures progress == Zero && compressionResults == [] && conversionResult == None
      ensures processingMessage == "" && mode == old(mode)
    {
      pdfFiles := [];
      imageFiles := [];
      status := Idle;
      compressionLevel := Medium;
      progress := Zero;
      compressionResults := [];
      conversionResult := None;
      processingMessage := "";
    }

    /** A mode tab: switches the mode and resets. The tabs are only rendered while
        no job is running and no result is shown. */
    method SelectMode(m: AppMode)
      requires status != Processing && status != Done
      modifies this
      ensures mode == m
      ensures pdfFiles == [] && imageFiles == [] && status == Idle && compressionLevel == Medium
      ensures progress == Zero && compressionResults == [] && conversionResult == None
      ensures processingMessage == ""
    {
      mode := m;
      ResetApp();
    }

    /** The level chosen in the configuration panel. */
    method SelectLevel(level: CompressionLevel)
      modifies this
      ensures compressionLevel == level
      ensures mode == old(mode) && pdfFiles == old(pdfFiles) && status == old(status)
      ensures compressionResults == old(compressionResults) && imageFiles == old(imageFiles)
      ensures conversionResult == old(conversionResult) && progress == old(progress)
      ensures processingMessage == old(processingMessage)
    {
      compressionLevel := level;
    }

    /** handlePdfSelect: the PDFs among the chosen files are appended, the state is
        ready and earlier results are cleared; without a PDF nothing changes. */
    method HandlePdfSelect(files: seq<File>)
      modifies this
      ensures var valid := Filter(files, IsPdf);
              if valid != [] then
                pdfFiles == old(pdfFiles) + valid && status == Ready && compressionResults == []
              else
                pdfFiles == old(pdfFiles) && status == old(status) && compressionResults == old(compressionResults)
      ensures mode == old(mode) && compressionLevel == old(compressionLevel) && imageFiles == old(imageFiles)
      ensures conversionResult == old(conversionResult) && progress == old(progress)
      ensures processingMessage == old(processingMessage)
    {
      var validFiles := Filter(files, IsPdf);
      if |validFiles| > 0 {
        pdfFiles := pdfFiles + validFiles;
        status := Ready;
        compressionResults := [];
      }
    }

    /** removePdf: splice(index, 1) on a copy; an emptied list makes the state idle. */
    method RemovePdf(index: int)
      modifies this
      ensures pdfFiles == RemoveAt(old(pdfFiles), index)
      ensures status == (if pdfFiles == [] then Idle else old(status))
      ensures mode == old(mode) && compressionLevel == old(compressionLevel) && imageFiles == old(imageFiles)
      ensures compressionResults == old(compressionResults) && conversionResult == old(conversionResult)
      ensures progress == old(progress) && processingMessage == old(processingMessage)
    {
      var newFiles := RemoveAt(pdfFiles, index);
      pdfFiles := newFiles;
      if |newFiles| == 0 {
        status := Idle;
      }
    }

    /** handleImagesSelect: the images among the chosen files are appended and the
        state is ready; without an image nothing changes. */
    method HandleImagesSelect(files: seq<File>)
      modifies this
      ensures var valid := Filter(files, IsImage);
              if valid != [] then imageFiles == old(imageFiles) + valid && status == Ready
              else imageFiles == old(imageFiles) && status == old(status)
      ensures mode == old(mode) && pdfFiles == old(pdfFiles) && compressionLevel == old(compressionLevel)
      ensures compressionResults == old(compressionResults) && conversionResult == old(conversionResult)
      ensures progress == old(progress) && processingMessage == old(processingMessage)
    {
      var validImages := Filter(files, IsImage);
      if |validImages| > 0 {
        imageFiles := imageFiles + validImages;
        status := Ready;
      }
    }

    /** removeImage: as removePdf, on the image list. */
    method RemoveImage(index: int)
      modifies this
      ensures imageFiles == RemoveAt(old(imageFiles), index)
      ensures status == (if imageFiles == [] then Idle else old(status))
      ensures mode == old(mode) && pdfFiles == old(pdfFiles) && compressionLevel == old(compressionLevel)
      ensures compressionResults == old(compressionResults) && conversionResult == old(conversionResult)
      ensures progress == old(progress) && processingMessage == old(processingMessage)
    {
      var newFiles := RemoveAt(imageFiles, index);
      imageFiles := newFiles;
      if |newFiles| == 0 {
        status := Idle;
      }
    }

    /** startCompression: the files are compressed one after the other at the chosen
        level. The returned sequence is every value handed to setProgress, in order.
        On success the results are stored and the state is done; the first failure
        ends the batch with the state ready and no results. */
    method StartCompression(serialize: seq<Page> -> nat) returns (reported: seq<Fraction>)
      modifies this
      ensures mode == old(mode) && pdfFiles == old(pdfFiles) && compressionLevel == old(compressionLevel)
      ensures imageFiles == old(imageFiles) && conversionResult == old(conversionResult)
      ensures old(pdfFiles) == [] ==> reported == [] && unchanged(this)
      ensures old(pdfFiles) != [] ==>
                var files := old(pdfFiles);
                var outcomes := Outcomes(files, old(compressionLevel), serialize);
                var batch := BatchOutcome(outcomes, |files|);
                && reported == BatchProgress(outcomes, Reports(files))
                && progress == reported[|reported| - 1]
                && status == (if batch.Ok? then Done else Ready)
                && compressionResults == (if batch.Ok? then batch.value else [])
                && processingMessage == FileMessage(LastAttempted(outcomes), |files|)
    {
      if |pdfFiles| == 0 {
        return [];
      }
      var files, level := pdfFiles, compressionLevel;
      status, progress, compressionResults := Processing, Zero, [];
      var batch, attempted;
      reported, batch, attempted := CompressAll(files, level, serialize);
      FinishCompression(reported, batch, attempted, |files|);
    }

    /** The state a finished batch leaves behind: the last reported value, the
        message of the last file attempted, and done with the results or ready
        without them. */
    method FinishCompression(reported: seq<Fraction>, batch: Result<seq<CompressionResult>>, attempted: nat, total: nat)
      requires reported != []
      modifies this
      ensures mode == old(mode) && pdfFiles == old(pdfFiles) && compressionLevel == old(compressionLevel)
      ensures imageFiles == old(imageFiles) && conversionResult == old(conversionResult)
      ensures progress == reported[|reported| - 1]
      ensures status == (if batch.Ok? then Done else Ready)
      ensures compressionResults == (if batch.Ok? then batch.value else [])
      ensures processingMessage == FileMessage(attempted, total)
    {
      processingMessage := FileMessage(attempted, total);
      progress := reported[|reported| - 1];
      if batch.Ok? {
        compressionResults := batch.value;
        status := Done;
      } else {
        compressionResults := [];
        status := Ready;
      }
    }

    /** startConversion: all images into one document. The returned sequence is
        every value handed to setProgress. On success the document is kept and the
        state is done; on failure the state is ready. */
    method StartConversion(serialize: seq<Page> -> nat) returns (reported: seq<Fraction>)
      modifies this
      ensures mode == old(mode) && pdfFiles == old(pdfFiles) && compressionLevel == old(compressionLevel)
      ensures imageFiles == old(imageFiles) && compressionResults == old(compressionResults)
      ensures old(imageFiles) == [] ==> reported == [] && unchanged(this)
      ensures old(imageFiles) != [] ==>
                var outcome := PdfService.ConversionOutcome(imageFiles, serialize);
                && reported == [Zero] + Whole(PdfService.ConversionProgress(imageFiles))
                && progress == reported[|reported| - 1]
                && processingMessage == ""
                && status == (if outcome.Ok? then Done else Ready)
                && conversionResult == (if outcome.Ok? then Some(outcome.value) else old(conversionResult))
    {
      if |imageFiles| == 0 {
        return [];
      }
      status := Processing;
      processingMessage := "";
      progress := Zero;
      var result, values := PdfService.ConvertImagesToPdf(imageFiles, serialize);
      reported := [Zero] + Whole(values);
      if |values| > 0 {
        progress := Fraction(values[|values| - 1], 1);
      }
      if result.Ok? {
        conversionResult := Some(result.value);
        status := Done;
      } else {
        status := Ready;
      }
    }
  }

  // ---------------------------------------------------------------------------
  // Properties of selection and removal

  /** Filtering distributes over concatenation, so selecting in two rounds keeps the
      same files in the same order as selecting them at once. */
  lemma {:induction false} FilterAppend<T(!new)>(a: seq<T>, b: seq<T>, keep: T -> bool)
    ensures Filter(a + b, keep) == Filter(a, keep) + Filter(b, keep)
  {
    if a != [] {
      assert (a + b)[0] == a[0] && (a + b)[1..] == a[1..] + b;
      FilterAppend(a[1..], b, keep);
    } else {
      assert a + b == b;
    }
  }

  /** A list whose elements all pass is kept whole; filtering twice is filtering once. */
  lemma {:induction false} FilterKeepsPassing<T(!new)>(s: seq<T>, keep: T -> bool)
    ensures (forall j :: 0 <= j < |s| ==> keep(s[j])) ==> Filter(s, keep) == s
    ensures Filter(Filter(s, keep), keep) == Filter(s, keep)
  {
    if s != [] {
      FilterKeepsPassing(s[1..], keep);
      var rest := Filter(s[1..], keep);
      if keep(s[0]) {
        assert ([s[0]] + rest)[1..] == rest;
      } else {
        assert [] + rest == rest;
      }
    }
  }

  /** No file is both a PDF and an image, so the two selections never share a file. */
  lemma {:induction false} PdfsAreNotImages(f: File)
    ensures IsPdf(f) ==> !IsImage(f)
  {
    if IsPdf(f) {
      assert f.mimeType[0] == 'a';
    }
  }

  /** splice(index, 1) removes exactly the element at its start position and keeps
      the others in order; a start at the end removes nothing. */
  lemma {:induction false} RemoveAtRemoves<T>(s: seq<T>, index: int)
    ensures var start, r := SpliceStart(|s|, index), RemoveAt(s, index);
            && (start < |s| ==> && |r| == |s| - 1
                                && (forall j :: 0 <= j < start ==> r[j] == s[j])
                                && (forall j :: start <= j < |r| ==> r[j] == s[j + 1]))
            && (start == |s| ==> r == s)
  {
  }

  /** What splice removes and what it keeps together make up the original list. */
  lemma {:induction false} RemoveAtMultiset<T>(s: seq<T>, index: int)
    requires SpliceStart(|s|, index) < |s|
    ensures multiset(RemoveAt(s, index)) + multiset{s[SpliceStart(|s|, index)]} == multiset(s)
  {
    var start := SpliceStart(|s|, index);
    assert s == s[..start] + [s[start]] + s[start + 1..];
  }

  /** An index in 0..len-1 is its own start, -len..-1 count back from the end, an
      index from len on removes nothing, and one below -len starts at 0. */
  lemma {:induction false} SpliceStartCases(len: nat, index: int)
    ensures 0 <= index < len ==> SpliceStart(len, index) == index
    ensures index < 0 <= len + index ==> SpliceStart(len, index) == len + index
    ensures index >= len ==> SpliceStart(len, index) == len
    ensures len + index < 0 ==> SpliceStart(len, index) == 0
  {
  }

  /** The position left in the message after a batch is a file that was tried:
      every file before it succeeded, and it failed or is the last file. */
  lemma {:induction false} LastAttemptedShows(outcomes: seq<Outcome>)
    requires outcomes != []
    ensures var a := LastAttempted(outcomes);
            && 1 <= a <= |outcomes|
            && (forall j :: 0 <= j < a - 1 ==> outcomes[j].Ok?)
            && (a < |outcomes| ==> outcomes[a - 1].Err?)
  {
  }

  /** The progress message is the fixed prefix, then two decimal numerals separated
      by " / " that read back as the position and the total. */
  lemma {:induction false} FileMessageShows(position: nat, total: nat)
    ensures exists a: string, b: string ::
              && (forall j :: 0 <= j < |a| ==> SizeFormat.IsDigit(a[j]))
              && (forall j :: 0 <= j < |b| ==> SizeFormat.IsDigit(b[j]))
              && a != [] && b != []
              && FileMessage(position, total) == "Dosya işleniyor: " + a + " / " + b
              && SizeFormat.NatValue(a) == position && SizeFormat.NatValue(b) == total
  {
    SizeFormat.NatTextRoundTrip(position);
    SizeFormat.NatTextRoundTrip(total);
    var a, b := SizeFormat.NatText(position), SizeFormat.NatText(total);
    assert FileMessage(position, total) == "Dosya işleniyor: " + a + " / " + b;
  }

  // ---------------------------------------------------------------------------
  // Properties of the compression batch

  lemma {:induction false} OverallAppend(a: seq<int>, b: seq<int>, n: Positive)
    ensures Overall(a + b, n) == Overall(a, n) + Overall(b, n)
  {
  }

  /** One turn of the batch loop: the numerators grow by the file's own, and a
      failing file is the last one the batch attempts. */
  lemma {:induction false} BatchStep(outcomes: seq<Outcome>, reports: seq<seq<int>>, i: nat)
    requires i < |outcomes| == |reports| && BatchOutcome(outcomes, i).Ok?
    ensures BatchNumerators(outcomes, reports, i + 1)
            == BatchNumerators(outcomes, reports, i) + FileNumerators(i, reports[i])
    ensures outcomes[i].Ok? ==>
              BatchOutcome(outcomes, i + 1) == Ok(BatchOutcome(outcomes, i).value + [outcomes[i].value])
    ensures outcomes[i].Err? ==>
              && BatchOutcome(outcomes, |outcomes|) == Err(outcomes[i].error)
              && BatchNumerators(outcomes, reports, |outcomes|) == BatchNumerators(outcomes, reports, i + 1)
              && LastAttempted(outcomes) == i + 1
  {
    if outcomes[i].Err? {
      BatchPrefix(outcomes, i);
      assert FirstFailedFile(outcomes) == i;
      BatchAfterFailure(outcomes, reports, i + 1, |outcomes|);
    }
  }

  /** One turn of the batch loop, as the reported values see it: the file's own
      overall values are appended, and after a failing file they are all the batch
      ever reports. */
  lemma {:induction false} ReportedStep(outcomes: seq<Outcome>, reports: seq<seq<int>>, i: nat)
    requires i < |outcomes| == |reports| && BatchOutcome(outcomes, i).Ok?
    ensures var n := |outcomes|;
            var next := [Zero] + Overall(BatchNumerators(outcomes, reports, i), n) + Overall(FileNumerators(i, reports[i]), n);
            && next == [Zero] + Overall(BatchNumerators(outcomes, reports, i + 1), n)
            && (outcomes[i].Err? ==> next == BatchProgress(outcomes, reports))
  {
    var n := |outcomes|;
    BatchStep(outcomes, reports, i);
    OverallAppend(BatchNumerators(outcomes, reports, i), FileNumerators(i, reports[i]), n);
  }

  /** Once a file has failed, later files neither change the outcome nor report progress. */
  lemma {:induction false} BatchAfterFailure(outcomes: seq<Outcome>, reports: seq<seq<int>>, c: nat, d: nat)
    requires c <= d <= |outcomes| == |reports|
    requires BatchOutcome(outcomes, c).Err?
    ensures BatchOutcome(outcomes, d) == BatchOutcome(outcomes, c)
    ensures BatchNumerators(outcomes, reports, d) == BatchNumerators(outcomes, reports, c)
    decreases d - c
  {
    if c < d {
      BatchAfterFailure(outcomes, reports, c, d - 1);
    }
  }

  /** The batch over the first `count` files succeeds exactly when each of them
      does; it then holds one result per file, in file order; otherwise it fails
      with the error of the first failing file. */
  lemma {:induction false} BatchPrefix(outcomes: seq<Outcome>, count: nat)
    requires count <= |outcomes|
    ensures var o, k := BatchOutcome(outcomes, count), FirstFailedFile(outcomes);
            && (o.Ok? <==> count <= k)
            && (o.Ok? ==> && |o.value| == count
                          && forall j :: 0 <= j < count ==> outcomes[j] == Ok(o.value[j]))
            && (o.Err? ==> o.error == outcomes[k].error)
  {
    if count > 0 {
      BatchPrefix(outcomes, count - 1);
    }
  }

  /** The stored results follow the file order and carry each file's name and size. */
  lemma {:induction false} BatchOutcomeOrder(files: seq<File>, level: CompressionLevel, serialize: seq<Page> -> nat)
    ensures var o := BatchOutcome(Outcomes(files, level, serialize), |files|);
            && (o.Ok? <==> forall j :: 0 <= j < |files| ==> PdfService.CompressionOutcome(files[j], level, serialize).Ok?)
            && (o.Ok? ==> |o.value| == |files| && forall j :: 0 <= j < |files| ==>
                  && o.value[j] == PdfService.CompressionOutcome(files[j], level, serialize).value
                  && o.value[j].fileName == files[j].name
                  && o.value[j].originalSizeRaw == files[j].size
                  && ResultView.DownloadName(o.value[j]) == "optimize_" + files[j].name)
  {
    var outcomes := Outcomes(files, level, serialize);
    BatchPrefix(outcomes, |files|);
    var o := BatchOutcome(outcomes, |files|);
    if o.Ok? {
      forall j | 0 <= j < |files|
        ensures && PdfService.CompressionOutcome(files[j], level, serialize) == Ok(o.value[j])
                && o.value[j].fileName == files[j].name && o.value[j].originalSizeRaw == files[j].size
      {
        assert outcomes[j] == PdfService.CompressionOutcome(files[j], level, serialize);
        PdfService.CompressionRecord(files[j], level, serialize);
      }
    } else {
      var k := FirstFailedFile(outcomes);
      assert outcomes[k] == PdfService.CompressionOutcome(files[k], level, serialize);
    }
  }

  /** One failing file fails the whole batch with that file's error, and the files
      before it all compressed. */
  lemma {:induction false} BatchFailure(outcomes: seq<Outcome>)
    ensures var o, k := BatchOutcome(outcomes, |outcomes|), FirstFailedFile(outcomes);
            o.Err? <==> k < |outcomes|
    ensures var o, k := BatchOutcome(outcomes, |outcomes|), FirstFailedFile(outcomes);
            o.Err? ==> o.error == outcomes[k].error && forall j :: 0 <= j < k ==> outcomes[j].Ok?
  {
    BatchPrefix(outcomes, |outcomes|);
  }

  /** compressPdf's reports meet what the batch relies on. */
  lemma {:induction false} CompressPdfWellBehaved(files: seq<File>, level: CompressionLevel, serialize: seq<Page> -> nat)
    ensures WellBehaved(Outcomes(files, level, serialize), Reports(files))
  {
    var outcomes, reports := Outcomes(files, level, serialize), Reports(files);
    forall j | 0 <= j < |files|
      ensures && PdfService.NonDecreasing(reports[j])
              && (forall i :: 0 <= i < |reports[j]| ==> 0 <= reports[j][i] <= 100)
              && (outcomes[j].Ok? ==> reports[j] != [] && reports[j][|reports[j]| - 1] == 100)
    {
      PdfService.CompressionProgressShape(files[j]);
      PdfService.CompressionSucceeds(files[j], level, serialize);
    }
  }

  /** The numerators of the first `count` files never decrease, lie in
      0..100*count, and end at 100*count when all of those files compressed. */
  lemma {:induction false} NumeratorsShape(outcomes: seq<Outcome>, reports: seq<seq<int>>, count: nat)
    requires count <= |outcomes| && WellBehaved(outcomes, reports)
    ensures var s := BatchNumerators(outcomes, reports, count);
            && PdfService.NonDecreasing(s)
            && (forall j :: 0 <= j < |s| ==> 0 <= s[j] <= 100 * count)
            && (BatchOutcome(outcomes, count).Ok? && count > 0 ==> s != [] && s[|s| - 1] == 100 * count)
  {
    if count > 0 {
      NumeratorsShape(outcomes, reports, count - 1);
      var before := BatchNumerators(outcomes, reports, count - 1);
      if BatchOutcome(outcomes, count - 1).Ok? {
        AppendFileShape(before, count - 1, reports[count - 1]);
      }
    }
  }

  /** Appending file k's numerators to a run for the files before it. */
  lemma {:induction false} AppendFileShape(before: seq<int>, k: nat, p: seq<int>)
    requires PdfService.NonDecreasing(before) && forall i :: 0 <= i < |before| ==> 0 <= before[i] <= 100 * k
    requires PdfService.NonDecreasing(p) && forall i :: 0 <= i < |p| ==> 0 <= p[i] <= 100
    ensures var s := before + FileNumerators(k, p);
            && PdfService.NonDecreasing(s)
            && (forall i :: 0 <= i < |s| ==> 0 <= s[i] <= 100 * (k + 1))
            && (p != [] && p[|p| - 1] == 100 ==> s[|s| - 1] == 100 * (k + 1))
  {
    FileNumeratorsShape(k, p);
    ConcatShape(before, FileNumerators(k, p), 100 * k, 100 * (k + 1));
  }

  /** File k's numerators never decrease and lie in 100*k .. 100*(k+1). */
  lemma {:induction false} FileNumeratorsShape(k: nat, p: seq<int>)
    requires PdfService.NonDecreasing(p) && forall i :: 0 <= i < |p| ==> 0 <= p[i] <= 100
    ensures var f := FileNumerators(k, p);
            && PdfService.NonDecreasing(f)
            && (forall i :: 0 <= i < |f| ==> 100 * k <= f[i] <= 100 * (k + 1))
            && (p != [] && p[|p| - 1] == 100 ==> f[|f| - 1] == 100 * (k + 1))
  {
  }

  /** A non-decreasing run in 0..m followed by one in m..hi is a non-decreasing
      run in 0..hi. */
  lemma {:induction false} ConcatShape(a: seq<int>, b: seq<int>, m: int, hi: int)
    requires PdfService.NonDecreasing(a) && PdfService.NonDecreasing(b)
    requires (forall i :: 0 <= i < |a| ==> 0 <= a[i] <= m) && (forall i :: 0 <= i < |b| ==> m <= b[i] <= hi)
    requires 0 <= m <= hi
    ensures PdfService.NonDecreasing(a + b)
    ensures forall i :: 0 <= i < |a + b| ==> 0 <= (a + b)[i] <= hi
  {
    var s := a + b;
    forall i, j | 0 <= i < j < |s|
      ensures s[i] <= s[j]
    {
      if j < |a| {
        assert s[i] == a[i] && s[j] == a[j];
      } else if i >= |a| {
        assert s[i] == b[i - |a|] && s[j] == b[j - |a|];
      } else {
        assert s[i] == a[i] && s[j] == b[j - |a|];
      }
    }
    forall i | 0 <= i < |s|
      ensures 0 <= s[i] <= hi
    {
      if i < |a| {
        assert s[i] == a[i];
      } else {
        assert s[i] == b[i - |a|];
      }
    }
  }

  /** Numerators that never decrease and lie in 0..100*n, taken over n, stand for
      values that never decrease and lie in 0..100; 100*n stands for exactly 100. */
  lemma {:induction false} OverallShape(s: seq<int>, n: Positive)
    requires PdfService.NonDecreasing(s)
    requires forall j :: 0 <= j < |s| ==> 0 <= s[j] <= 100 * n
    ensures var r := Values(Overall(s, n));
            && NonDecreasingReals(r)
            && (forall j :: 0 <= j < |r| ==> 0.0 <= r[j] <= 100.0)
            && (s != [] && s[|s| - 1] == 100 * n ==> r[|r| - 1] == 100.0)
  {
    var r := Values(Overall(s, n));
    forall i, j | 0 <= i < j < |r|
      ensures r[i] <= r[j]
    {
      DivideMonotone(s[i], s[j], n);
    }
    forall j | 0 <= j < |r|
      ensures 0.0 <= r[j] <= 100.0
    {
      DivideMonotone(0, s[j], n);
      DivideMonotone(s[j], 100 * n, n);
      DivideHundred(n);
    }
    DivideHundred(n);
  }

  lemma {:induction false} DivideMonotone(a: int, b: int, n: Positive)
    ensures a <= b ==> a as real / n as real <= b as real / n as real
  {
    JsMath.RealMulMonotone(b as real / n as real, a as real / n as real, n as real);
  }

  lemma {:induction false} DivideHundred(n: Positive)
    ensures (100 * n) as real / n as real == 100.0
  {
  }

  /** What the screen shows during a compression batch: it starts at 0, never goes
      back, stays within 0..100, and ends at 100 when the batch succeeds. */
  lemma {:induction false} BatchProgressShape(outcomes: seq<Outcome>, reports: seq<seq<int>>)
    requires outcomes != [] && WellBehaved(outcomes, reports)
    ensures var r := Values(BatchProgress(outcomes, reports));
            && r != [] && r[0] == 0.0
            && NonDecreasingReals(r)
            && (forall j :: 0 <= j < |r| ==> 0.0 <= r[j] <= 100.0)
            && (BatchOutcome(outcomes, |outcomes|).Ok? ==> r[|r| - 1] == 100.0)
  {
    var n := |outcomes|;
    var s := BatchNumerators(outcomes, reports, n);
    NumeratorsShape(outcomes, reports, n);
    OverallShape(s, n);
    ValuesPrepend(Zero, Overall(s, n));
    PrependZeroShape(Values(Overall(s, n)));
  }

  lemma {:induction false} ValuesPrepend(f: Fraction, fs: seq<Fraction>)
    ensures Values([f] + fs) == [Value(f)] + Values(fs)
  {
    var a, b := Values([f] + fs), [Value(f)] + Values(fs);
    forall j | 0 <= j < |a|
      ensures a[j] == b[j]
    {
      if j > 0 {
        assert ([f] + fs)[j] == fs[j - 1];
      }
    }
  }

  /** A 0 put in front of a non-decreasing run in 0..100 keeps it non-decreasing. */
  lemma {:induction false} PrependZeroShape(tail: seq<real>)
    requires NonDecreasingReals(tail) && forall j :: 0 <= j < |tail| ==> 0.0 <= tail[j] <= 100.0
    ensures var r := [0.0] + tail;
            && NonDecreasingReals(r)
            && (forall j :: 0 <= j < |r| ==> 0.0 <= r[j] <= 100.0)
            && (tail != [] ==> r[|r| - 1] == tail[|tail| - 1])
  {
    var r := [0.0] + tail;
    forall i, j | 0 <= i < j < |r|
      ensures r[i] <= r[j]
    {
      if i > 0 {
        assert r[i] == tail[i - 1] && r[j] == tail[j - 1];
      } else {
        assert r[j] == tail[j - 1];
      }
    }
    forall j | 0 <= j < |r|
      ensures 0.0 <= r[j] <= 100.0
    {
      if j > 0 {
        assert r[j] == tail[j - 1];
      }
    }
  }

  /** Every value the compression batch reports is already within range for the
      progress screen, which shows it unchanged. */
  lemma {:induction false} BatchProgressDisplayed(files: seq<File>, level: CompressionLevel, serialize: seq<Page> -> nat)
    requires files != []
    ensures var r := Values(BatchProgress(Outcomes(files, level, serialize), Reports(files)));
            forall j :: 0 <= j < |r| ==> ProcessingState.SafeProgress(ProcessingState.Finite(r[j])) == r[j]
  {
    CompressPdfWellBehaved(files, level, serialize);
    BatchProgressShape(Outcomes(files, level, serialize), Reports(files));
  }

  /** The conversion's whole percentages are shown as they are. */
  lemma {:induction false} ConversionProgressDisplayed(images: seq<File>)
    ensures var p := Whole(PdfService.ConversionProgress(images));
            forall j :: 0 <= j < |p| ==> ProcessingState.DisplayedPercent(ProcessingState.Finite(Value(p[j]))) == p[j].numerator
  {
    PdfService.ConversionProgressShape(images);
  }
}
