/**
 * The enumerations and record shapes of the public API: input formats,
 * resize fit modes, compression methods, the conversion result, the
 * validation result and the batch records.
 */
module Types {
  import opened Common
  import opened Errors

  datatype SupportedInputFormat = Jpeg | Jpg | Png | Gif | Bmp | Tiff | Webp

  function FormatName(f: SupportedInputFormat): string {
    match f
    case Jpeg => "jpeg"
    case Jpg => "jpg"
    case Png => "png"
    case Gif => "gif"
    case Bmp => "bmp"
    case Tiff => "tiff"
    case Webp => "webp"
  }

  /** The format whose name is `s`, if any. */
  function ParseFormat(s: string): (r: Option<SupportedInputFormat>)
    ensures r.Some? ==> FormatName(r.value) == s
  {
    if s == "jpeg" then Some(Jpeg)
    else if s == "jpg" then Some(Jpg)
    else if s == "png" then Some(Png)
    else if s == "gif" then Some(Gif)
    else if s == "bmp" then Some(Bmp)
    else if s == "tiff" then Some(Tiff)
    else if s == "webp" then Some(Webp)
    else None
  }

  lemma ParseFormatName(f: SupportedInputFormat)
    ensures ParseFormat(FormatName(f)) == Some(f)
  {
  }

  datatype ResizeFit = Cover | Contain | Fill | Inside | Outside

  function FitName(f: ResizeFit): string {
    match f
    case Cover => "cover"
    case Contain => "contain"
    case Fill => "fill"
    case Inside => "inside"
    case Outside => "outside"
  }

  function ParseFit(s: string): (r: Option<ResizeFit>)
    ensures r.Some? ==> FitName(r.value) == s
  {
    if s == "cover" then Some(Cover)
    else if s == "contain" then Some(Contain)
    else if s == "fill" then Some(Fill)
    else if s == "inside" then Some(Inside)
    else if s == "outside" then Some(Outside)
    else None
  }

  lemma ParseFitName(f: ResizeFit)
    ensures ParseFit(FitName(f)) == Some(f)
  {
  }

  datatype CompressionMethod = Default | Fast | Best

  function MethodName(m: CompressionMethod): string {
    match m
    case Default => "default"
    case Fast => "fast"
    case Best => "best"
  }

  function ParseMethod(s: string): (r: Option<CompressionMethod>)
    ensures r.Some? ==> MethodName(r.value) == s
  {
    if s == "default" then Some(Default)
    else if s == "fast" then Some(Fast)
    else if s == "best" then Some(Best)
    else None
  }

  lemma ParseMethodName(m: CompressionMethod)
    ensures ParseMethod(MethodName(m)) == Some(m)
  {
  }

  /**
   * `1 - convertedSize / originalSize` as a JavaScript number: finite when
   * the original is non-empty; otherwise the division gives `Infinity`
   * (so the ratio is `-Infinity`) or, for `0 / 0`, `NaN`.
   */
  datatype Ratio = Finite(value: real) | NegativeInfinity | NotANumber

  function CompressionRatio(originalSize: nat, convertedSize: nat): (r: Ratio)
    ensures r.Finite? <==> originalSize > 0
    ensures r.Finite? ==> r.value * originalSize as real == (originalSize - convertedSize) as real
  {
    if originalSize > 0 then Finite(1.0 - convertedSize as real / originalSize as real)
    else if convertedSize > 0 then NegativeInfinity
    else NotANumber
  }

  const WebpFormat := "webp"

  /** `ConvertResult`: the encoded bytes and the metrics of one conversion. */
  datatype ConvertResult = ConvertResult(
    data: seq<byte>,
    originalSize: nat,
    convertedSize: nat,
    compressionRatio: Ratio,
    width: real,
    height: real,
    format: string)

  /** The metrics every returned result satisfies. */
  predicate WellFormedResult(r: ConvertResult) {
    && r.convertedSize == |r.data|
    && r.compressionRatio == CompressionRatio(r.originalSize, r.convertedSize)
    && r.format == WebpFormat
  }

  /** The result record both conversion paths assemble. */
  function MakeResult(data: seq<byte>, originalSize: nat, width: real, height: real): (r: ConvertResult)
    ensures WellFormedResult(r)
    ensures r.data == data && r.originalSize == originalSize && r.width == width && r.height == height
  {
    ConvertResult(data, originalSize, |data|, CompressionRatio(originalSize, |data|), width, height, WebpFormat)
  }

  /** `ImageMetadata` (declared by the API; no operation of the core fills it in). */
  datatype ImageMetadata = ImageMetadata(
    width: nat, height: nat, format: SupportedInputFormat, size: nat, hasAlpha: bool)

  datatype ValidationResult = ValidationResult(valid: bool, error: Option<string>, metadata: Option<ImageMetadata>)

  datatype ProgressStatus = Pending | Processing | Completed | Failed

  /** `BatchProgress`: one call of the batch observer. */
  datatype BatchProgress = BatchProgress(current: nat, total: nat, file: string, status: ProgressStatus)

  /** `BatchResultItem`: the outcome recorded for one input of a batch. */
  datatype BatchResultItem = BatchResultItem(
    file: string, success: bool, result: Option<ConvertResult>, error: Option<Error>)

  /** `NodeInput`: a file path or a `Buffer`; `OtherInput` is any other value a caller passes anyway. */
  datatype NodeInput = PathInput(path: string) | BufferInput(bytes: seq<byte>) | OtherInput(typeName: string)

  /** A browser `Blob`: its `size`, and what `arrayBuffer()` resolves to or rejects with. */
  datatype Blob = Blob(size: nat, contents: Result<seq<byte>, Thrown>)

  /** A blob whose `size` is the number of bytes it reads back as, whenever the read succeeds. */
  type SizedBlob = b: Blob | b.contents.Success? ==> b.size == |b.contents.value| witness Blob(0, Success([]))

  /** `BrowserInput`: a `File` or a `Blob`; `NonBlobInput` is any other value a caller passes anyway. */
  datatype BrowserInput = FileInput(file: SizedBlob) | BlobInput(blob: SizedBlob) | NonBlobInput(typeName: string)
}
