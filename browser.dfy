/**
 * The browser entry points of `browser.ts`. The canvas, the image
 * decoder and object URLs belong to the host, so they come in as a
 * `CanvasHost` value; what the module itself decides is modelled exactly:
 * the input check, the target size of the canvas, the quality handed to
 * the encoder, which failures are reported with which message, that the
 * object URL is released on every path that created it, and the two-byte
 * `validateImage`.
 */
module Browser {
  import opened Common
  import opened Values
  import opened Errors
  import opened Types
  import opened Validation
  import Validate

  /** A decoded image has at least one pixel in each direction. */
  type Pixels = n: nat | n > 0 witness 1

  datatype ImageSize = ImageSize(width: Pixels, height: Pixels)

  /** `targetWidth` / `targetHeight`: numbers, since a requested size is used as given. */
  datatype Dimensions = Dimensions(width: real, height: real)

  /** `Math.round` on a finite number: the nearest integer, halves rounded up. */
  function MathRound(x: real): (n: int)
    ensures x - 0.5 < n as real <= x + 0.5
  {
    (x + 0.5).Floor
  }

  function Min(a: real, b: real): (m: real)
    ensures m <= a && m <= b && (m == a || m == b)
  {
    if a <= b then a else b
  }

  function Max(a: real, b: real): (m: real)
    ensures m >= a && m >= b && (m == a || m == b)
  {
    if a >= b then a else b
  }

  /**
   * The size the canvas is given (`browser.ts` lines 19-37), for a
   * `resize` option that passed validation: absent, or an object whose
   * `width` and `height` are absent or positive numbers.
   */
  function TargetDimensions(source: ImageSize, resize: Value): (d: Dimensions)
    requires resize.Undef? || ResizeOk(resize)
  {
    if !Truthy(resize) then Dimensions(source.width as real, source.height as real)
    else
      var fit := if Get(resize.fields, "fit").Undef? then Str("cover") else Get(resize.fields, "fit");
      Scale(source, Get(resize.fields, "width"), Get(resize.fields, "height"), fit)
  }

  /** The common scale factor: the smaller of the two for `contain`, the larger otherwise. */
  function FitRatio(fit: Value, scaleX: real, scaleY: real): (ratio: real)
    ensures fit == Str("contain") ==> ratio == Min(scaleX, scaleY)
    ensures fit != Str("contain") ==> ratio == Max(scaleX, scaleY)
  {
    if fit == Str("contain") then Min(scaleX, scaleY) else Max(scaleX, scaleY)
  }

  /** Both sides multiplied by the same factor, then rounded. */
  function ScaleBoth(source: ImageSize, ratio: real): Dimensions {
    Dimensions(Rounded(source.width as real, ratio), Rounded(source.height as real, ratio))
  }

  /** `Math.round(x * factor)`: within one half of the exact product. */
  function Rounded(x: real, factor: real): (r: real)
    ensures x * factor - 0.5 < r <= x * factor + 0.5
  {
    MathRound(x * factor) as real
  }

  /** The branches on the destructured `width`, `height` and `fit` (lines 24-37). */
  function Scale(source: ImageSize, width: Value, height: Value, fit: Value): Dimensions
    requires DimensionOk(width) && DimensionOk(height)
  {
    var w := source.width as real;
    var h := source.height as real;
    if Truthy(width) && Truthy(height) then
      ScaleBoth(source, FitRatio(fit, width.n / w, height.n / h))
    else if Truthy(width) then
      Dimensions(width.n, Rounded(h, width.n / w))
    else if Truthy(height) then
      Dimensions(Rounded(w, height.n / h), height.n)
    else
      Dimensions(w, h)
  }

  // ---------------------------------------------------------------------------
  // Properties of the target size
  // ---------------------------------------------------------------------------

  lemma ScaleAtMost(w: real, target: real, ratio: real)
    requires w > 0.0 && ratio <= target / w
    ensures w * ratio <= target
  {
    assert w * (target / w) == target;
  }

  lemma ScaleAtLeast(w: real, target: real, ratio: real)
    requires w > 0.0 && ratio >= target / w
    ensures w * ratio >= target
  {
    assert w * (target / w) == target;
  }

  /** The arithmetic of `cover`: scaling by the larger ratio reaches both sides and meets one. */
  lemma CoverArithmetic(w: real, h: real, width: real, height: real)
    requires w > 0.0 && h > 0.0
    ensures var ratio := Max(width / w, height / h);
      var dw, dh := Rounded(w, ratio), Rounded(h, ratio);
      dw >= width - 0.5 && dh >= height - 0.5 && (dw <= width + 0.5 || dh <= height + 0.5)
  {
    var ratio := Max(width / w, height / h);
    ScaleAtLeast(w, width, ratio);
    ScaleAtLeast(h, height, ratio);
    if ratio == width / w {
      ScaleAtMost(w, width, ratio);
    } else {
      ScaleAtMost(h, height, ratio);
    }
  }

  /** The arithmetic of `contain`: scaling by the smaller ratio stays inside both sides and meets one. */
  lemma ContainArithmetic(w: real, h: real, width: real, height: real)
    requires w > 0.0 && h > 0.0
    ensures var ratio := Min(width / w, height / h);
      var dw, dh := Rounded(w, ratio), Rounded(h, ratio);
      dw <= width + 0.5 && dh <= height + 0.5 && (dw >= width - 0.5 || dh >= height - 0.5)
  {
    var ratio := Min(width / w, height / h);
    ScaleAtMost(w, width, ratio);
    ScaleAtMost(h, height, ratio);
    if ratio == width / w {
      ScaleAtLeast(w, width, ratio);
    } else {
      ScaleAtLeast(h, height, ratio);
    }
  }

  /** Without a resize, or with neither width nor height, the source size is kept. */
  lemma NoResizeKeepsSize(source: ImageSize, resize: Value)
    requires resize.Undef? || ResizeOk(resize)
    requires resize.Obj? ==> Get(resize.fields, "width").Undef? && Get(resize.fields, "height").Undef?
    ensures TargetDimensions(source, resize) == Dimensions(source.width as real, source.height as real)
  {
  }

  /** Width and height with `contain`: the result fits inside the box and meets it on one side, up to rounding. */
  lemma ContainFitsInsideBox(source: ImageSize, m: map<string, Value>)
    requires ResizeOk(Obj(m)) && Get(m, "width").Num? && Get(m, "height").Num?
    requires Get(m, "fit") == Str("contain")
    ensures var d := TargetDimensions(source, Obj(m));
      && d.width <= Get(m, "width").n + 0.5
      && d.height <= Get(m, "height").n + 0.5
      && (d.width >= Get(m, "width").n - 0.5 || d.height >= Get(m, "height").n - 0.5)
  {
    var w, h := source.width as real, source.height as real;
    var width, height := Get(m, "width").n, Get(m, "height").n;
    var d := TargetDimensions(source, Obj(m));
    assert d == ScaleBoth(source, Min(width / w, height / h));
    ContainArithmetic(w, h, width, height);
  }

  /** Width and height with any other fit: the result covers the box and meets it on one side, up to rounding. */
  lemma OtherFitsCoverBox(source: ImageSize, m: map<string, Value>)
    requires ResizeOk(Obj(m)) && Get(m, "width").Num? && Get(m, "height").Num?
    requires Get(m, "fit") != Str("contain")
    ensures var d := TargetDimensions(source, Obj(m));
      && d.width >= Get(m, "width").n - 0.5
      && d.height >= Get(m, "height").n - 0.5
      && (d.width <= Get(m, "width").n + 0.5 || d.height <= Get(m, "height").n + 0.5)
  {
    var w, h := source.width as real, source.height as real;
    var width, height := Get(m, "width").n, Get(m, "height").n;
    var d := TargetDimensions(source, Obj(m));
    assert d == ScaleBoth(source, Max(width / w, height / h));
    CoverArithmetic(w, h, width, height);
  }

  /** `fill`, `inside` and `outside` are all treated like `cover`: only `contain` picks the smaller scale. */
  lemma OtherFitsAreCover(source: ImageSize, width: Value, height: Value, f: string)
    requires DimensionOk(width) && DimensionOk(height) && f != "contain"
    ensures Scale(source, width, height, Str(f)) == Scale(source, width, height, Str("cover"))
  {
  }

  /** Width only: the width is used as given and the height follows the aspect ratio, rounded. */
  lemma WidthOnlyKeepsAspect(source: ImageSize, m: map<string, Value>)
    requires ResizeOk(Obj(m)) && Get(m, "width").Num? && Get(m, "height").Undef?
    ensures var d := TargetDimensions(source, Obj(m));
      var exact := source.height as real * (Get(m, "width").n / source.width as real);
      && d.width == Get(m, "width").n
      && exact - 0.5 < d.height <= exact + 0.5
  {
    var w, h, width := source.width as real, source.height as real, Get(m, "width").n;
    assert Truthy(Get(m, "width")) && !Truthy(Get(m, "height"));
    var fit := if Get(m, "fit").Undef? then Str("cover") else Get(m, "fit");
    assert Scale(source, Get(m, "width"), Get(m, "height"), fit) == Dimensions(width, Rounded(h, width / w));
    assert TargetDimensions(source, Obj(m)) == Scale(source, Get(m, "width"), Get(m, "height"), fit);
  }

  /** Height only: the mirror image of the width-only case. */
  lemma HeightOnlyKeepsAspect(source: ImageSize, m: map<string, Value>)
    requires ResizeOk(Obj(m)) && Get(m, "height").Num? && Get(m, "width").Undef?
    ensures var d := TargetDimensions(source, Obj(m));
      var exact := source.width as real * (Get(m, "height").n / source.height as real);
      && d.height == Get(m, "height").n
      && exact - 0.5 < d.width <= exact + 0.5
  {
    var w, h, height := source.width as real, source.height as real, Get(m, "height").n;
    assert Truthy(Get(m, "height")) && !Truthy(Get(m, "width"));
    var fit := if Get(m, "fit").Undef? then Str("cover") else Get(m, "fit");
    assert Scale(source, Get(m, "width"), Get(m, "height"), fit) == Dimensions(Rounded(w, height / h), height);
    assert TargetDimensions(source, Obj(m)) == Scale(source, Get(m, "width"), Get(m, "height"), fit);
  }

  /** `allowUpscale` is never read on this path: enlargement is always allowed. */
  lemma AllowUpscaleIgnored(source: ImageSize, m: map<string, Value>, x: Value)
    requires ResizeOk(Obj(m))
    ensures ResizeOk(Obj(m["allowUpscale" := x]))
    ensures TargetDimensions(source, Obj(m["allowUpscale" := x])) == TargetDimensions(source, Obj(m))
  {
    var m' := m["allowUpscale" := x];
    assert Get(m', "width") == Get(m, "width");
    assert Get(m', "height") == Get(m, "height");
    assert Get(m', "fit") == Get(m, "fit");
  }

  // ---------------------------------------------------------------------------
  // convertToWebP
  // ---------------------------------------------------------------------------

  /**
   * What the host provides: `load` decodes the bytes behind an object URL
   * (`onload` with the natural size, or `onerror`), `hasContext` says
   * whether `getContext("2d")` gives a context, and `toBlob` draws the
   * image at the given size and encodes it with the given quality, or
   * yields `null`.
   */
  datatype CanvasHost = CanvasHost(
    load: seq<byte> -> Option<ImageSize>,
    hasContext: bool,
    toBlob: (seq<byte>, Dimensions, real) -> Option<seq<byte>>)

  /** The calls `convertWithCanvas` makes on the host, in order; `BlobRequested` carries the canvas size and the quality. */
  datatype HostCall = UrlCreated | UrlRevoked | ContextRequested | BlobRequested(size: Dimensions, quality: real)

  /** What one call resolves or rejects with, and the host calls it made. */
  datatype BrowserRun = BrowserRun(result: Result<ConvertResult, Thrown>, calls: seq<HostCall>)

  /** `(options.quality ?? 80) / 100`. */
  function CanvasQuality(quality: Value): (q: real)
    requires quality.Undef? || QualityOk(quality)
    ensures quality.Undef? ==> q == 0.8
    ensures 0.01 <= q <= 1.0
  {
    if quality.Undef? then 0.8 else quality.n / 100.0
  }

  const BrowserInputMessage := "Input must be File or Blob in browser"
  const LoadFailedMessage := "Failed to load image"
  const NoContextMessage := "Failed to get canvas context"
  const EncodeFailedMessage := "Failed to convert to WebP"

  /** The blob behind a `File` or `Blob` input. */
  function BlobOf(input: BrowserInput): SizedBlob
    requires !input.NonBlobInput?
  {
    if input.FileInput? then input.file else input.blob
  }

  /**
   * The object URL is created first and revoked next, in whichever callback
   * runs; every later call is on the canvas.
   */
  predicate RevokedBeforeCanvas(calls: seq<HostCall>) {
    && |calls| >= 2 && calls[0] == UrlCreated && calls[1] == UrlRevoked
    && forall i :: 2 <= i < |calls| ==> calls[i].ContextRequested? || calls[i].BlobRequested?
  }

  /** The canvas size for bytes the host decodes, under checked options. */
  function CanvasTarget(bytes: seq<byte>, opts: map<string, Value>, host: CanvasHost): Dimensions
    requires ConvertOptionsOk(Obj(opts)) && host.load(bytes).Some?
  {
    assert FieldOk(opts, ConvertFields[2]);
    TargetDimensions(host.load(bytes).value, Get(opts, "resize"))
  }

  /** The quality handed to `toBlob` under checked options. */
  function CanvasQualityOf(opts: map<string, Value>): real
    requires ConvertOptionsOk(Obj(opts))
  {
    assert FieldOk(opts, ConvertFields[0]);
    CanvasQuality(Get(opts, "quality"))
  }

  /** `convertWithCanvas`, once the bytes have been read; `originalSize` is the input's `size`. */
  function CanvasConvert(originalSize: nat, bytes: seq<byte>, opts: map<string, Value>, host: CanvasHost): (run: BrowserRun)
    requires ConvertOptionsOk(Obj(opts))
    // the URL is revoked on both callbacks, before the canvas is touched
    ensures RevokedBeforeCanvas(run.calls)
    // a failed load touches no canvas
    ensures host.load(bytes).None? <==> |run.calls| == 2
    // the canvas is asked for a context exactly when the image loaded, and for a blob only once it has one
    ensures host.load(bytes).Some? ==> run.calls[2] == ContextRequested
    ensures host.load(bytes).Some? && host.hasContext ==>
      run.calls == [UrlCreated, UrlRevoked, ContextRequested,
                    BlobRequested(CanvasTarget(bytes, opts, host), CanvasQualityOf(opts))]
    // success exactly when every host step succeeds, with the encoded blob at the target size
    ensures run.result.Success? <==>
      host.load(bytes).Some? && host.hasContext
      && host.toBlob(bytes, CanvasTarget(bytes, opts, host), CanvasQualityOf(opts)).Some?
    ensures run.result.Success? ==>
      var t := CanvasTarget(bytes, opts, host);
      var out := host.toBlob(bytes, t, CanvasQualityOf(opts)).value;
      run.result.value == MakeResult(out, originalSize, t.width, t.height)
  {
    var created := [UrlCreated];
    match host.load(bytes)
    case None =>
      // onerror
      BrowserRun(Failure(ThrownError(Conversion(LoadFailedMessage, None))), created + [UrlRevoked])
    case Some(size) =>
      // onload
      var revoked := created + [UrlRevoked];
      var target := CanvasTarget(bytes, opts, host);
      var asked := revoked + [ContextRequested];
      if !host.hasContext then BrowserRun(Failure(ThrownError(Conversion(NoContextMessage, None))), asked)
      else
        var quality := CanvasQualityOf(opts);
        var encoding := asked + [BlobRequested(target, quality)];
        match host.toBlob(bytes, target, quality)
        case None => BrowserRun(Failure(ThrownError(Conversion(EncodeFailedMessage, None))), encoding)
        case Some(out) => BrowserRun(Success(MakeResult(out, originalSize, target.width, target.height)), encoding)
  }

  /** `convertToWebP` of the browser entry point. */
  function ConvertToWebP(input: BrowserInput, options: Value, host: CanvasHost): (run: BrowserRun)
    // the input type is checked before the options
    ensures input.NonBlobInput? ==>
      run == BrowserRun(Failure(ThrownError(InvalidInput(BrowserInputMessage, input.typeName))), [])
    ensures !input.NonBlobInput? && ValidateConvertOptions(options).Some? ==>
      run == BrowserRun(Failure(ThrownError(ValidateConvertOptions(options).value)), [])
    // a failed read is passed on as it was thrown, before any URL exists
    ensures !input.NonBlobInput? && ConvertOptionsOk(options) && BlobOf(input).contents.Failure? ==>
      run == BrowserRun(Failure(BlobOf(input).contents.error), [])
    // once the bytes are read, the canvas conversion decides, with the input's size as the original size
    ensures !input.NonBlobInput? && ConvertOptionsOk(options) && BlobOf(input).contents.Success? ==>
      run == CanvasConvert(BlobOf(input).size, BlobOf(input).contents.value, OwnProps(options), host)
    // every URL created is revoked before the canvas is used
    ensures run.calls == [] || RevokedBeforeCanvas(run.calls)
    ensures run.calls != [] <==> !input.NonBlobInput? && ConvertOptionsOk(options) && BlobOf(input).contents.Success?
    ensures run.result.Success? ==>
      && RevokedBeforeCanvas(run.calls)
      && WellFormedResult(run.result.value)
      && run.result.value.originalSize == BlobOf(input).size == |BlobOf(input).contents.value|
  {
    match input
    case NonBlobInput(t) => BrowserRun(Failure(ThrownError(InvalidInput(BrowserInputMessage, t))), [])
    case _ =>
      var invalid := ValidateConvertOptions(options);
      if invalid.Some? then BrowserRun(Failure(ThrownError(invalid.value)), [])
      else
        var blob := BlobOf(input);
        var opts := OwnProps(options);
        assert ConvertOptionsOk(Obj(opts));
        match blob.contents
        case Failure(t) => BrowserRun(Failure(t), [])
        case Success(bytes) => CanvasConvert(blob.size, bytes, opts, host)
  }

  /**
   * A browser conversion succeeds exactly when the input is a readable blob,
   * the options pass, the image loads, a context exists and `toBlob` yields
   * a blob; the result is that blob, at the size `TargetDimensions` gives
   * for the loaded image, with the bytes read as the original size.
   */
  lemma BrowserSuccessIsCanvasOutput(input: BrowserInput, options: Value, host: CanvasHost)
    requires !input.NonBlobInput? && ConvertOptionsOk(options) && BlobOf(input).contents.Success?
    ensures var bytes := BlobOf(input).contents.value;
      var opts := OwnProps(options);
      var run := ConvertToWebP(input, options, host);
      && (run.result.Success? <==>
           host.load(bytes).Some? && host.hasContext
           && host.toBlob(bytes, CanvasTarget(bytes, opts, host), CanvasQualityOf(opts)).Some?)
      && (run.result.Success? ==>
           var t := TargetDimensions(host.load(bytes).value, Get(opts, "resize"));
           && run.result.value.data == host.toBlob(bytes, t, CanvasQualityOf(opts)).value
           && run.result.value.width == t.width && run.result.value.height == t.height
           && run.result.value.originalSize == |bytes|)
  {
    var bytes := BlobOf(input).contents.value;
    var opts := OwnProps(options);
    assert ConvertOptionsOk(Obj(opts));
    var run := CanvasConvert(BlobOf(input).size, bytes, opts, host);
    assert ConvertToWebP(input, options, host) == run;
  }

  /** The host failures each give their own conversion error, with no cause attached. */
  lemma CanvasFailureMessages(originalSize: nat, bytes: seq<byte>, opts: map<string, Value>, host: CanvasHost)
    requires ConvertOptionsOk(Obj(opts))
    ensures host.load(bytes).None? ==>
      CanvasConvert(originalSize, bytes, opts, host).result == Failure(ThrownError(Conversion(LoadFailedMessage, None)))
    ensures host.load(bytes).Some? && !host.hasContext ==>
      CanvasConvert(originalSize, bytes, opts, host).result == Failure(ThrownError(Conversion(NoContextMessage, None)))
    ensures (host.load(bytes).Some? && host.hasContext
             && host.toBlob(bytes, CanvasTarget(bytes, opts, host), CanvasQualityOf(opts)).None?) ==>
      CanvasConvert(originalSize, bytes, opts, host).result == Failure(ThrownError(Conversion(EncodeFailedMessage, None)))
    ensures CanvasConvert(originalSize, bytes, opts, host).result.Failure? ==>
      var t := CanvasConvert(originalSize, bytes, opts, host).result.error;
      t.ThrownError? && t.error.Conversion? && t.error.originalError.None?
      && Message(t.error) in {LoadFailedMessage, NoContextMessage, EncodeFailedMessage}
  {
  }

  /** Valid quality settings reach the encoder as a fraction in [0.01, 1]; the default is 0.8. */
  lemma CanvasQualityScaled(k: int)
    requires 1 <= k <= 100
    ensures CanvasQuality(Num(k as real)) == k as real / 100.0
  {
  }

  // ---------------------------------------------------------------------------
  // validateImage
  // ---------------------------------------------------------------------------

  /** The two-byte prefixes the browser accepts: PNG, JPEG, GIF and RIFF. */
  predicate KnownPrefix(bytes: seq<byte>) {
    |bytes| >= 2 && [bytes[0], bytes[1]] in [[0x89, 0x50], [0xFF, 0xD8], [0x47, 0x49], [0x52, 0x49]]
  }

  /** `bytes[i]`, where a missing index reads as `undefined`. */
  function ByteAt(bytes: seq<byte>, i: nat): Option<byte> {
    if i < |bytes| then Some(bytes[i]) else None
  }

  const UnsupportedImageMessage := "Unsupported image format"

  /** `validateImage` of the browser entry point, for a `File` or `Blob`. */
  function ValidateImage(blob: Blob): (r: ValidationResult)
    ensures r.metadata.None?
    ensures blob.contents.Success? ==> (r.valid <==> KnownPrefix(blob.contents.value))
    ensures blob.contents.Success? && !r.valid ==> r.error == Some(UnsupportedImageMessage)
    ensures r.valid ==> r == ValidationResult(true, None, None)
    ensures blob.contents.Failure? ==> r == ValidationResult(false, Some(ThrownMessage(blob.contents.error)), None)
  {
    match blob.contents
    case Failure(t) => ValidationResult(false, Some(ThrownMessage(t)), None)
    case Success(contents) =>
      var bytes := Validate.Slice(contents, 0, 12);
      assert |contents| >= 2 ==> bytes[0] == contents[0] && bytes[1] == contents[1];
      var isPng := ByteAt(bytes, 0) == Some(0x89) && ByteAt(bytes, 1) == Some(0x50);
      var isJpeg := ByteAt(bytes, 0) == Some(0xFF) && ByteAt(bytes, 1) == Some(0xD8);
      var isGif := ByteAt(bytes, 0) == Some(0x47) && ByteAt(bytes, 1) == Some(0x49);
      var isWebp := ByteAt(bytes, 0) == Some(0x52) && ByteAt(bytes, 1) == Some(0x49);
      if isPng || isJpeg || isGif || isWebp then ValidationResult(true, None, None)
      else ValidationResult(false, Some(UnsupportedImageMessage), None)
  }

  /** Everything the Node sniffer detects except BMP passes the browser check. */
  lemma NodeDetectionImpliesBrowserValid(bytes: seq<byte>)
    requires Validate.DetectFormat(bytes).Some? && Validate.DetectFormat(bytes) != Some("bmp")
    ensures KnownPrefix(bytes)
  {
    var i :| 0 <= i < |Validate.Signatures| && Validate.Signatures[i].format == Validate.DetectFormat(bytes).value
      && Validate.Accepts(bytes, Validate.Signatures[i]);
    var signature := Validate.Signatures[i].bytes;
    assert |signature| >= 2;
    assert 1 < |bytes| && bytes[1] == signature[1];
    assert bytes[0] == signature[0];
  }

  /** Every known signature starts with one of four bytes. */
  lemma KnownPrefixLeadByte(bytes: seq<byte>)
    ensures KnownPrefix(bytes) ==> bytes[0] in {0x89, 0xFF, 0x47, 0x52}
  {
    if KnownPrefix(bytes) {
      var pair: seq<byte> := [bytes[0], bytes[1]];
      assert pair[0] == bytes[0];
    }
  }

  /** The two checks disagree: RIFF without "WEBP" passes only the browser's, BMP only the Node one. */
  lemma BrowserAndNodeDisagree()
    ensures KnownPrefix([0x52, 0x49, 0x46, 0x46, 0, 0, 0, 0, 0x41, 0x56, 0x49, 0x20])
    ensures Validate.DetectFormat([0x52, 0x49, 0x46, 0x46, 0, 0, 0, 0, 0x41, 0x56, 0x49, 0x20]) == None
    ensures !KnownPrefix([0x42, 0x4D, 0, 0])
    ensures Validate.DetectFormat([0x42, 0x4D, 0, 0]) == Some("bmp")
  {
    var avi: seq<byte> := [0x52, 0x49, 0x46, 0x46, 0, 0, 0, 0, 0x41, 0x56, 0x49, 0x20];
    assert Validate.Slice(avi, 8, 12) == [0x41, 0x56, 0x49, 0x20];
    assert Validate.AsciiDecode(Validate.Slice(avi, 8, 12))[0] == 'A';
    Validate.RiffWithoutMarkerUndetected(avi);
    var bmp: seq<byte> := [0x42, 0x4D, 0, 0];
    KnownPrefixLeadByte(bmp);
    Validate.DetectFormatIsTheAcceptingEntry(bmp, 4);
  }
}
