/** The transcoding pipelines of services/pdfService.ts: the level policy, the
    page-by-page recompression loop and the image-to-PDF loop. The rendering
    engine, the JPEG encoder and the PDF serializer are external: a file's
    Content says what the decoders read, ImageData.Jpeg names what the encoder
    was asked to encode, and `serialize` gives the byte length of the output. */
module PdfService {
  import opened Types
  import JsMath
  import SizeFormat

  // ---------------------------------------------------------------------------
  // Level policy

  datatype LevelParameters = LevelParameters(scale: real, quality: real)

  /** The (render scale, JPEG quality) pair each level uses. */
  function Parameters(level: CompressionLevel): (p: LevelParameters)
    ensures p.scale > 0.0 && 0.0 <= p.quality <= 1.0
  {
    match level
    case Low => LevelParameters(1.5, 0.8)
    case Medium => LevelParameters(1.0, 0.6)
    case High => LevelParameters(0.7, 0.4)
  }

  /** Higher compression means a smaller scale and a lower quality, strictly, and
      no level falls back to the defaults (1.0, 0.5) the switch starts from. */
  lemma {:induction false} LevelsOrdered()
    ensures Parameters(Low).scale > Parameters(Medium).scale > Parameters(High).scale
    ensures Parameters(Low).quality > Parameters(Medium).quality > Parameters(High).quality
    ensures forall level :: Parameters(level) != LevelParameters(1.0, 0.5)
  {
  }

  /** The `let` defaults and the switch at the head of compressPdf: every level
      overrides both defaults with its own pair. */
  method LevelSettings(level: CompressionLevel) returns (scale: real, imageQuality: real)
    ensures LevelParameters(scale, imageQuality) == Parameters(level)
  {
    scale := 1.0;
    imageQuality := 0.5;
    match level {
      case Low =>
        scale, imageQuality := 1.5, 0.8;
      case Medium =>
        scale, imageQuality := 1.0, 0.6;
      case High =>
        scale, imageQuality := 0.7, 0.4;
    }
  }

  // ---------------------------------------------------------------------------
  // The document builder (jsPDF)

  /** An output document under construction. jsPDF creates it with its first
      page; addPage appends a page; addImage draws on the current, last, page. */
  class PdfDocument {
    var pages: seq<Page>

    ghost predicate Valid()
      reads this
    {
      pages != []
    }

    constructor (width: real, height: real, orientation: Orientation)
      ensures Valid() && pages == [Page(width, height, orientation, [])]
    {
      pages := [Page(width, height, orientation, [])];
    }

    method AddPage(width: real, height: real, orientation: Orientation)
      requires Valid()
      modifies this
      ensures Valid() && pages == old(pages) + [Page(width, height, orientation, [])]
    {
      pages := pages + [Page(width, height, orientation, [])];
    }

    method AddImage(data: ImageData, x: real, y: real, width: real, height: real)
      requires Valid()
      modifies this
      ensures Valid()
      ensures var n := |old(pages)| - 1;
              pages == old(pages)[..n] + [old(pages)[n].(images := old(pages)[n].images + [Placement(data, x, y, width, height)])]
    {
      var n := |pages| - 1;
      var last := pages[n];
      pages := pages[..n] + [last.(images := last.images + [Placement(data, x, y, width, height)])];
    }

    /** doc.output('blob'). */
    function Output(serialize: seq<Page> -> nat): Blob
      reads this
    {
      Blob(pages, serialize(pages))
    }
  }

  // ---------------------------------------------------------------------------
  // What the pipelines produce

  /** 'l' exactly when the page is wider than it is tall. */
  function OrientationOf(width: real, height: real): (o: Orientation)
    ensures o == Landscape <==> width > height
  {
    if width > height then Landscape else Portrait
  }

  /** Scaling both sides by the same positive factor keeps the orientation. */
  lemma {:induction false} OrientationScaleInvariant(width: real, height: real, scale: real)
    requires scale > 0.0
    ensures OrientationOf(width * scale, height * scale) == OrientationOf(width, height)
  {
    JsMath.RealMulMonotone(height, width, scale);
    JsMath.RealMulMonotone(width, height, scale);
  }

  /** A side of page.getViewport({ scale }): the page's side times the scale. */
  function ViewportSize(side: real, scale: real): real
  {
    side * scale
  }

  /** A page of the given size covered by exactly one image, drawn at (0,0) at the
      page's own size. */
  function FullPage(data: ImageData, width: real, height: real): Page
  {
    Page(width, height, OrientationOf(width, height), [Placement(data, 0.0, 0.0, width, height)])
  }

  /** Page `number` (1-based) of the source, rendered at the level's scale and
      placed as a JPEG of the level's quality. */
  function RenderedPage(src: SourcePage, number: nat, params: LevelParameters): Page
  {
    FullPage(Jpeg(number, params.scale, params.quality), ViewportSize(src.width, params.scale), ViewportSize(src.height, params.scale))
  }

  /** The output pages of a fully rendered document, in source order. */
  function RenderedPages(pages: seq<SourcePage>, params: LevelParameters): seq<Page>
  {
    seq(|pages|, i requires 0 <= i < |pages| => RenderedPage(pages[i], i + 1, params))
  }

  /** Index of the first page the renderer rejects, or the page count. */
  function FirstUnrenderable(pages: seq<SourcePage>): (k: nat)
    ensures k <= |pages|
    ensures forall j :: 0 <= j < k ==> pages[j].renders
    ensures k < |pages| ==> !pages[k].renders
  {
    if pages == [] then 0
    else if !pages[0].renders then 0
    else 1 + FirstUnrenderable(pages[1..])
  }

  /** The image page for an image whose size could be read. */
  function ImagePage(file: File): Page
    requires file.content.image.Some?
  {
    FullPage(FileData(file), file.content.image.value.width as real, file.content.image.value.height as real)
  }

  /** Index of the first image that cannot be read, or the image count. */
  function FirstUnreadable(files: seq<File>): (k: nat)
    ensures k <= |files|
    ensures forall j :: 0 <= j < k ==> files[j].content.image.Some?
    ensures k < |files| ==> files[k].content.image.None?
  {
    if files == [] then 0
    else if files[0].content.image.None? then 0
    else 1 + FirstUnreadable(files[1..])
  }

  /** One page per image, in input order. */
  function ImagePages(files: seq<File>): (r: seq<Page>)
    requires forall j :: 0 <= j < |files| ==> files[j].content.image.Some?
    ensures |r| == |files|
    ensures forall i :: 0 <= i < |r| ==> r[i] == ImagePage(files[i])
  {
    if files == [] then []
    else ImagePages(files[..|files| - 1]) + [ImagePage(files[|files| - 1])]
  }

  // ---------------------------------------------------------------------------
  // Progress

  /** The values emitted before steps 0 .. count-1 of a loop over `total` steps:
      Math.round(j / total * 100) before step j. */
  function ProgressBefore(count: nat, total: nat): (r: seq<int>)
    requires count <= total
    ensures |r| == count
  {
    seq(count, j requires 0 <= j < count => JsMath.RoundPercent(j, total))
  }

  /** All progress values of a loop over `total` steps that stops at step `stop`
      (stop == total when no step fails): one value before each step reached, and
      100 after the loop when it completes. */
  function LoopProgress(stop: nat, total: nat): seq<int>
    requires stop <= total
  {
    if stop < total then ProgressBefore(stop + 1, total) else ProgressBefore(total, total) + [100]
  }

  predicate NonDecreasing(s: seq<int>)
  {
    forall i, j :: 0 <= i < j < |s| ==> s[i] <= s[j]
  }

  /** Progress never decreases, stays within 0..100, starts at 0, and ends at 100
      exactly when the loop completes. */
  lemma {:induction false} LoopProgressShape(stop: nat, total: nat)
    requires stop <= total
    ensures var p := LoopProgress(stop, total);
            && NonDecreasing(p)
            && (forall i :: 0 <= i < |p| ==> 0 <= p[i] <= 100)
            && p != [] && p[0] == (if total == 0 then 100 else 0)
            && (total == 0 ==> p == [100])
            && (p[|p| - 1] == 100 <==> stop == total || JsMath.RoundPercent(stop, total) == 100)
  {
    var p := LoopProgress(stop, total);
    forall i | 0 <= i < |p|
      ensures 0 <= p[i] <= 100
    {
      if i < |p| - 1 || stop < total {
        JsMath.RoundPercentRange(i, total);
      }
    }
    forall i, j | 0 <= i < j < |p|
      ensures p[i] <= p[j]
    {
      JsMath.RoundPercentRange(i, total);
      if j < |p| - 1 || stop < total {
        JsMath.RoundPercentMonotone(i, j, total);
      }
    }
    if total > 0 {
      JsMath.RoundPercentRange(0, total);
    }
    if stop < total {
      JsMath.RoundPercentRange(stop, total);
      JsMath.RoundPercentMonotone(stop, total - 1, total);
      JsMath.RoundPercentBelowHundred(total);
    }
  }

  /** With fewer than 200 steps, every value before the final one is below 100;
      from 200 steps on, the value before the last step already rounds to 100. */
  lemma {:induction false} LoopProgressBelowHundred(total: nat)
    requires total > 0
    ensures var p := LoopProgress(total, total);
            (forall i :: 0 <= i < |p| - 1 ==> p[i] < 100) <==> total < 200
  {
    var p := LoopProgress(total, total);
    JsMath.RoundPercentBelowHundred(total);
    if total < 200 {
      forall i | 0 <= i < |p| - 1
        ensures p[i] < 100
      {
        JsMath.RoundPercentMonotone(i, total - 1, total);
      }
    } else {
      assert p[total - 1] == JsMath.RoundPercent(total - 1, total);
    }
  }

  // ---------------------------------------------------------------------------
  // compressPdf

  /** Math.round((original - new) / original * 100); a zero original size gives a
      value that is not a finite number. */
  function SavingsRatio(original: nat, newSize: nat): Ratio
  {
    if original == 0 then NotFinite
    else Percent(JsMath.RoundPercent(original - newSize, original))
  }

  /** The result record compressPdf returns for a file and its output blob. */
  function MakeResult(file: File, blob: Blob): CompressionResult
  {
    CompressionResult(
      file.size, SizeFormat.FormatSize(file.size),
      blob.size, SizeFormat.FormatSize(blob.size),
      SavingsRatio(file.size, blob.size),
      blob.size > file.size,
      blob, file.name)
  }

  /** The serialized document of a fully rendered source. */
  function CompressedBlob(pages: seq<SourcePage>, level: CompressionLevel, serialize: seq<Page> -> nat): Blob
  {
    var out := RenderedPages(pages, Parameters(level));
    Blob(out, serialize(out))
  }

  /** What compressPdf resolves or rejects with. */
  function CompressionOutcome(file: File, level: CompressionLevel, serialize: seq<Page> -> nat): Result<CompressionResult>
  {
    match file.content.pdfPages
    case None => Err(DecodeError)
    case Some(pages) =>
      var k := FirstUnrenderable(pages);
      if k < |pages| then Err(RenderError(k + 1))
      else if pages == [] then Err(NoDocument)
      else Ok(MakeResult(file, CompressedBlob(pages, level, serialize)))
  }

  /** The values compressPdf passes to onProgress, in order. */
  function CompressionProgress(file: File): seq<int>
  {
    match file.content.pdfPages
    case None => []
    case Some(pages) => LoopProgress(FirstUnrenderable(pages), |pages|)
  }

  lemma {:induction false} ProgressBeforeStep(count: nat, total: nat)
    requires count < total
    ensures ProgressBefore(count + 1, total) == ProgressBefore(count, total) + [JsMath.RoundPercent(count, total)]
  {
  }

  lemma {:induction false} RenderedPagesStep(pdf: seq<SourcePage>, i: nat, params: LevelParameters)
    requires i < |pdf|
    ensures RenderedPages(pdf[..i + 1], params) == RenderedPages(pdf[..i], params) + [RenderedPage(pdf[i], i + 1, params)]
  {
  }

  /** Drawing a full-size image on a freshly added last page. */
  lemma {:induction false} ImageOnNewPage(pages: seq<Page>, before: seq<Page>, data: ImageData, width: real, height: real, orientation: Orientation)
    requires pages == before + [Page(width, height, orientation, [])]
    ensures var n := |pages| - 1;
            pages[..n] + [pages[n].(images := pages[n].images + [Placement(data, 0.0, 0.0, width, height)])]
            == before + [Page(width, height, orientation, [Placement(data, 0.0, 0.0, width, height)])]
  {
    var n := |pages| - 1;
    assert pages[..n] == before;
    assert pages[n].images + [Placement(data, 0.0, 0.0, width, height)] == [Placement(data, 0.0, 0.0, width, height)];
  }

  /** The step both loops share: the first step creates the document with the
      page's size and orientation, every later step adds a page; then the image is
      drawn over the whole new page. */
  method AddFullPageImage(doc: PdfDocument?, first: bool, data: ImageData, width: real, height: real)
    returns (out: PdfDocument)
    requires first <==> doc == null
    requires doc != null ==> doc.Valid()
    modifies doc
    ensures out.Valid()
    ensures first ==> fresh(out) && out.pages == [FullPage(data, width, height)]
    ensures !first ==> out == doc && out.pages == old(doc.pages) + [FullPage(data, width, height)]
  {
    var orientation := if width > height then Landscape else Portrait;
    ghost var before := if first then [] else doc.pages;
    if first {
      out := new PdfDocument(width, height, orientation);
    } else {
      out := doc;
      out.AddPage(width, height, orientation);
    }
    ImageOnNewPage(out.pages, before, data, width, height, orientation);
    out.AddImage(data, 0.0, 0.0, width, height);
  }

  method CompressPdf(file: File, level: CompressionLevel, serialize: seq<Page> -> nat)
    returns (result: Result<CompressionResult>, progress: seq<int>)
    ensures result == CompressionOutcome(file, level, serialize)
    ensures progress == CompressionProgress(file)
  {
    progress := [];
    if file.content.pdfPages.None? {
      return Err(DecodeError), progress;
    }
    var pdf := file.content.pdfPages.value;
    var totalPages := |pdf|;
    var scale, imageQuality := LevelSettings(level);
    ghost var params := Parameters(level);

    var doc: PdfDocument? := null;
    var i := 1;
    while i <= totalPages
      invariant 1 <= i <= totalPages + 1
      invariant progress == ProgressBefore(i - 1, totalPages)
      invariant forall j :: 0 <= j < i - 1 ==> pdf[j].renders
      invariant doc == null <==> i == 1
      invariant doc != null ==> fresh(doc) && doc.Valid() && doc.pages == RenderedPages(pdf[..i - 1], params)
    {
      ProgressBeforeStep(i - 1, totalPages);
      progress := progress + [JsMath.RoundPercent(i - 1, totalPages)];
      var page := pdf[i - 1];
      if !page.renders {
        assert FirstUnrenderable(pdf) == i - 1;
        return Err(RenderError(i)), progress;
      }
      var width, height := ViewportSize(page.width, scale), ViewportSize(page.height, scale);
      var imgData := Jpeg(i, scale, imageQuality);
      doc := AddFullPageImage(doc, i == 1, imgData, width, height);
      assert RenderedPage(page, i, params) == FullPage(imgData, width, height);
      RenderedPagesStep(pdf, i - 1, params);
      i := i + 1;
    }
    assert FirstUnrenderable(pdf) == totalPages;
    progress := progress + [100];
    if doc == null {
      return Err(NoDocument), progress;
    }
    assert pdf[..totalPages] == pdf;
    var blob := doc.Output(serialize);
    result := Ok(MakeResult(file, blob));
  }

  // ---------------------------------------------------------------------------
  // convertImagesToPdf

  /** What convertImagesToPdf resolves or rejects with. */
  function ConversionOutcome(files: seq<File>, serialize: seq<Page> -> nat): Result<Blob>
  {
    var k := FirstUnreadable(files);
    if k < |files| then Err(ImageDecodeError(k))
    else if files == [] then Err(NoDocument)
    else
      var out := ImagePages(files);
      Ok(Blob(out, serialize(out)))
  }

  /** The values convertImagesToPdf passes to onProgress, in order. */
  function ConversionProgress(files: seq<File>): seq<int>
  {
    LoopProgress(FirstUnreadable(files), |files|)
  }

  method ConvertImagesToPdf(files: seq<File>, serialize: seq<Page> -> nat)
    returns (result: Result<Blob>, progress: seq<int>)
    ensures result == ConversionOutcome(files, serialize)
    ensures progress == ConversionProgress(files)
  {
    progress := [];
    var doc: PdfDocument? := null;
    var i := 0;
    while i < |files|
      invariant 0 <= i <= |files|
      invariant progress == ProgressBefore(i, |files|)
      invariant forall j :: 0 <= j < i ==> files[j].content.image.Some?
      invariant doc == null <==> i == 0
      invariant doc != null ==> fresh(doc) && doc.Valid() && doc.pages == ImagePages(files[..i])
    {
      ProgressBeforeStep(i, |files|);
      progress := progress + [JsMath.RoundPercent(i, |files|)];
      if files[i].content.image.None? {
        assert FirstUnreadable(files) == i;
        return Err(ImageDecodeError(i)), progress;
      }
      var imageInfo := files[i].content.image.value;
      var width, height := imageInfo.width as real, imageInfo.height as real;
      doc := AddFullPageImage(doc, i == 0, FileData(files[i]), width, height);
      assert files[..i + 1][..i] == files[..i];
      i := i + 1;
    }
    assert FirstUnreadable(files) == |files|;
    progress := progress + [100];
    if doc == null {
      return Err(NoDocument), progress;
    }
    assert files[..|files|] == files;
    result := Ok(doc.Output(serialize));
  }

  // ---------------------------------------------------------------------------
  // Properties of the pipelines

  /** compressPdf resolves exactly when the file parses, has a page, and every
      page renders. */
  lemma {:induction false} CompressionSucceeds(file: File, level: CompressionLevel, serialize: seq<Page> -> nat)
    ensures CompressionOutcome(file, level, serialize).Ok? <==>
            file.content.pdfPages.Some? && file.content.pdfPages.value != [] &&
            forall j :: 0 <= j < |file.content.pdfPages.value| ==> file.content.pdfPages.value[j].renders
  {
    if file.content.pdfPages.Some? {
      var pages := file.content.pdfPages.value;
      var k := FirstUnrenderable(pages);
      if k < |pages| {
        assert !pages[k].renders;
      }
    }
  }

  /** The output document has one page per source page, in source order, each the
      page's viewport at the level's scale, with the right orientation and one
      JPEG of that page over the whole page; its size is the serializer's. */
  lemma {:induction false} CompressedBlobPages(pages: seq<SourcePage>, level: CompressionLevel, serialize: seq<Page> -> nat)
    ensures var b, params := CompressedBlob(pages, level, serialize), Parameters(level);
            && |b.pages| == |pages|
            && (forall i :: 0 <= i < |pages| ==>
                  var pg := b.pages[i];
                  && pg.width == pages[i].width * params.scale
                  && pg.height == pages[i].height * params.scale
                  && (pg.orientation == Landscape <==> pg.width > pg.height)
                  && pg.images == [Placement(Jpeg(i + 1, params.scale, params.quality), 0.0, 0.0, pg.width, pg.height)])
            && b.size == serialize(b.pages)
  {
    var params := Parameters(level);
    var out := RenderedPages(pages, params);
    forall i | 0 <= i < |pages|
      ensures && out[i].width == pages[i].width * params.scale
              && out[i].height == pages[i].height * params.scale
              && (out[i].orientation == Landscape <==> out[i].width > out[i].height)
              && out[i].images == [Placement(Jpeg(i + 1, params.scale, params.quality), 0.0, 0.0, out[i].width, out[i].height)]
    {
      RenderedPageShape(pages[i], i + 1, params);
    }
  }

  /** One rendered page: the viewport at the level's scale, its orientation, and
      one JPEG of that page over the whole page. */
  lemma {:induction false} RenderedPageShape(src: SourcePage, number: nat, params: LevelParameters)
    ensures var pg := RenderedPage(src, number, params);
            && pg.width == src.width * params.scale
            && pg.height == src.height * params.scale
            && (pg.orientation == Landscape <==> pg.width > pg.height)
            && pg.images == [Placement(Jpeg(number, params.scale, params.quality), 0.0, 0.0, pg.width, pg.height)]
  {
  }

  /** The record of a successful compressPdf holds the compressed document of the
      file's pages, carries the raw sizes and the name, flags exactly the outputs
      larger than their input, and carries the savings ratio. */
  lemma {:induction false} CompressionRecord(file: File, level: CompressionLevel, serialize: seq<Page> -> nat)
    requires CompressionOutcome(file, level, serialize).Ok?
    ensures var r := CompressionOutcome(file, level, serialize).value;
            && r.blob == CompressedBlob(file.content.pdfPages.value, level, serialize)
            && r.originalSizeRaw == file.size && r.newSizeRaw == r.blob.size && r.fileName == file.name
            && r.isLarger == (r.newSizeRaw > r.originalSizeRaw)
            && r.ratio == SavingsRatio(file.size, r.blob.size)
  {
  }

  /** A file that does not parse emits no progress; otherwise the values follow the
      page loop: non-decreasing, within 0..100, starting at 0, the rounded share of
      pages done before each page, and ending with 100 after every page rendered. */
  lemma {:induction false} CompressionProgressShape(file: File)
    ensures file.content.pdfPages.None? ==> CompressionProgress(file) == []
    ensures var p := CompressionProgress(file);
            && NonDecreasing(p)
            && (forall i :: 0 <= i < |p| ==> 0 <= p[i] <= 100)
    ensures file.content.pdfPages.Some? && file.content.pdfPages.value != [] ==>
            var p, pages := CompressionProgress(file), file.content.pdfPages.value;
            && p[0] == 0
            && (forall i :: 0 <= i < |p| && i < |pages| ==> p[i] == JsMath.RoundPercent(i, |pages|))
            && (FirstUnrenderable(pages) == |pages| ==> |p| == |pages| + 1 && p[|p| - 1] == 100)
            && (FirstUnrenderable(pages) < |pages| && |pages| < 200 ==> p[|p| - 1] < 100)
  {
    if file.content.pdfPages.Some? {
      var pages := file.content.pdfPages.value;
      var k := FirstUnrenderable(pages);
      LoopProgressShape(k, |pages|);
      if k < |pages| && |pages| < 200 {
        JsMath.RoundPercentMonotone(k, |pages| - 1, |pages|);
        JsMath.RoundPercentBelowHundred(|pages|);
      }
    }
  }

  /** A one-page document yields a one-page output and the progress values 0, 100. */
  lemma {:induction false} SinglePageDocument(file: File, level: CompressionLevel, serialize: seq<Page> -> nat)
    requires file.content.pdfPages.Some? && |file.content.pdfPages.value| == 1
    requires file.content.pdfPages.value[0].renders
    ensures CompressionProgress(file) == [0, 100]
    ensures CompressionOutcome(file, level, serialize).Ok?
    ensures |CompressionOutcome(file, level, serialize).value.blob.pages| == 1
  {
    var pages := file.content.pdfPages.value;
    assert FirstUnrenderable(pages) == 1;
    assert ProgressBefore(1, 1) == [0];
  }

  /** With no pages the builder is never created: onProgress(100) is still called,
      then asking the missing builder for its output fails. */
  lemma {:induction false} ZeroPageDocument(file: File, level: CompressionLevel, serialize: seq<Page> -> nat)
    requires file.content.pdfPages == Some([])
    ensures CompressionProgress(file) == [100]
    ensures CompressionOutcome(file, level, serialize) == Err(NoDocument)
  {
    assert ProgressBefore(0, 0) == [];
  }

  /** The ratio is Math.round of the relative saving in percent; it lies in 0..100
      when the output is no larger than the input and is at most 0 when it is larger. */
  lemma {:induction false} SavingsRatioArithmetic(original: nat, newSize: nat)
    requires original > 0
    ensures SavingsRatio(original, newSize)
            == Percent(JsMath.JsRound((original - newSize) as real / original as real * 100.0))
    ensures newSize <= original ==> 0 <= SavingsRatio(original, newSize).value <= 100
    ensures newSize > original ==> SavingsRatio(original, newSize).value <= 0
  {
    JsMath.RoundPercentIsJsRound(original - newSize, original);
    if newSize <= original {
      JsMath.RoundPercentRange(original - newSize, original);
    } else {
      JsMath.RoundPercentMonotone(original - newSize, 0, original);
      JsMath.RoundPercentRange(0, original);
    }
  }

  /** 1,000,000 bytes compressed to 400,000 bytes save 60 percent. */
  lemma {:induction false} SavingsRatioExample()
    ensures SavingsRatio(1000000, 400000) == Percent(60)
  {
    JsMath.FloorDivIsDiv(600000 * 200 + 1000000, 2 * 1000000);
  }

  /** convertImagesToPdf resolves exactly when there is an image and every image
      can be read; the output then has one page per image, in input order, sized
      to the image, with the right orientation and the image's own bytes over the
      whole page. */
  lemma {:induction false} ConversionOutput(files: seq<File>, serialize: seq<Page> -> nat)
    ensures ConversionOutcome(files, serialize).Ok? <==>
            files != [] && forall j :: 0 <= j < |files| ==> files[j].content.image.Some?
    ensures ConversionOutcome(files, serialize).Ok? ==>
            var b := ConversionOutcome(files, serialize).value;
            && |b.pages| == |files|
            && (forall i :: 0 <= i < |files| ==>
                  var pg := b.pages[i];
                  && pg.width == files[i].content.image.value.width as real
                  && pg.height == files[i].content.image.value.height as real
                  && (pg.orientation == Landscape <==> pg.width > pg.height)
                  && pg.images == [Placement(FileData(files[i]), 0.0, 0.0, pg.width, pg.height)])
            && b.size == serialize(b.pages)
  {
    var k := FirstUnreadable(files);
    if k < |files| {
      assert files[k].content.image.None?;
    }
  }

  /** Progress of the image loop: round(i / N * 100) before image i, non-decreasing,
      within 0..100, and 100 at the end exactly when every image was read. */
  lemma {:induction false} ConversionProgressShape(files: seq<File>)
    ensures var p := ConversionProgress(files);
            && NonDecreasing(p)
            && (forall i :: 0 <= i < |p| ==> 0 <= p[i] <= 100)
            && (forall i :: 0 <= i < |p| && i < |files| ==> p[i] == JsMath.RoundPercent(i, |files|))
            && (FirstUnreadable(files) == |files| ==> |p| == |files| + 1 && p[|files|] == 100)
  {
    LoopProgressShape(FirstUnreadable(files), |files|);
  }
}
