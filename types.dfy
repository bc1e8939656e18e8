/** The data model shared by the transcoding pipeline and the application state
    (the unions and records of types.ts, plus the browser values they refer to). */
module Types {

  datatype Option<+T> = None | Some(value: T)

  /** Lifecycle of the application screen. */
  datatype AppStatus = LoadingLibs | Idle | Ready | Processing | Done | Error

  /** Which of the two tools is selected. */
  datatype AppMode = Compress | Convert

  /** The three compression levels offered to the user. */
  datatype CompressionLevel = Low | Medium | High

  /** What the page rendering engine reports about one page of a PDF: its size at
      scale 1, and whether rasterizing it succeeds. */
  datatype SourcePage = SourcePage(width: real, height: real, renders: bool)

  /** The pixel size an image decoder reports for an image file. */
  datatype ImageSize = ImageSize(width: nat, height: nat)

  /** What the external decoders read from a file's bytes: the page list when the
      bytes parse as a PDF, the pixel size when they decode as an image. */
  datatype Content = Content(pdfPages: Option<seq<SourcePage>>, image: Option<ImageSize>)

  /** A file chosen by the user: name, MIME type, byte length and its bytes as the
      decoders see them. */
  datatype File = File(name: string, mimeType: string, size: nat, content: Content)

  /** jsPDF's orientation letter: 'l' or 'p'. */
  datatype Orientation = Landscape | Portrait

  /** Image bytes handed to the document builder: a JPEG encoding of a rendered
      page (which page, at which scale and quality), or an image file's own bytes. */
  datatype ImageData = Jpeg(page: nat, scale: real, quality: real) | FileData(file: File)

  /** One addImage call: the data and the rectangle it covers. */
  datatype Placement = Placement(data: ImageData, x: real, y: real, width: real, height: real)

  /** One page of the output document. */
  datatype Page = Page(width: real, height: real, orientation: Orientation, images: seq<Placement>)

  /** A serialized output document: the pages it holds and its byte length. */
  datatype Blob = Blob(pages: seq<Page>, size: nat)

  /** The savings percentage; JavaScript yields NaN or -Infinity when the original size is 0. */
  datatype Ratio = Percent(value: int) | NotFinite

  /** The record compressPdf returns for one file. */
  datatype CompressionResult = CompressionResult(
    originalSizeRaw: nat,
    originalSize: string,
    newSizeRaw: nat,
    newSize: string,
    ratio: Ratio,
    isLarger: bool,
    blob: Blob,
    fileName: string)

  /** The ways a pipeline call fails. NoDocument is the TypeError raised when the
      output is requested from a builder that was never created. */
  datatype PipelineError = DecodeError | RenderError(page: nat) | ImageDecodeError(index: nat) | NoDocument

  datatype Result<+T> = Ok(value: T) | Err(error: PipelineError)
}
