/**
 * The Node conversion path of `converter.ts`: options are validated, merged
 * over the defaults, the input is normalized to bytes, and the bytes go to
 * the encoder (sharp) with arguments derived from the merged options. The
 * encoder itself is a parameter: a function from the input bytes and the
 * derived arguments to the encoded bytes and their size, or the error it
 * throws.
 */
module Converter {
  import opened Common
  import opened Values
  import opened Errors
  import opened Types
  import opened Validation
  import opened FileUtil

  /** `DEFAULT_OPTIONS`. */
  const DefaultOptions: map<string, Value> := map[
    "quality" := Num(80.0),
    "lossless" := Bool(false),
    "preserveMetadata" := Bool(false),
    "method" := Str("default")
  ]

  /** `mergeOptions`: `{ ...DEFAULT_OPTIONS, ...options }`. */
  function MergeOptions(options: Value): (merged: map<string, Value>)
    requires Nullish(options) || options.Obj?
    ensures forall k :: k in merged <==> k in DefaultOptions || k in OwnProps(options)
    ensures forall k :: k in OwnProps(options) ==> merged[k] == OwnProps(options)[k]
    ensures forall k :: k in DefaultOptions && k !in OwnProps(options) ==> merged[k] == DefaultOptions[k]
  {
    DefaultOptions + OwnProps(options)
  }

  // ---------------------------------------------------------------------------
  // Encoder arguments
  // ---------------------------------------------------------------------------

  /** The object passed to sharp's `resize`. */
  datatype SharpResize = SharpResize(width: Value, height: Value, fit: Value, withoutEnlargement: bool)

  /** What the pipeline is configured with: an optional resize, then the `webp` settings. */
  datatype SharpArgs = SharpArgs(resize: Option<SharpResize>, quality: Value, lossless: Value, effort: nat)

  /** `method === "fast" ? 1 : method === "best" ? 6 : 4`. */
  function Effort(compression: Value): (effort: nat)
    ensures compression == Str("fast") ==> effort == 1
    ensures compression == Str("best") ==> effort == 6
    ensures compression != Str("fast") && compression != Str("best") ==> effort == 4
  {
    if compression == Str("fast") then 1 else if compression == Str("best") then 6 else 4
  }

  /** The resize arguments derived from a resize option object. */
  function ResizeArgs(resize: map<string, Value>): (r: SharpResize)
    ensures r.width == Get(resize, "width") && r.height == Get(resize, "height")
    ensures r.fit == (if Nullish(Get(resize, "fit")) then Str("cover") else Get(resize, "fit"))
    ensures r.withoutEnlargement <==> !Truthy(Get(resize, "allowUpscale")) || Get(resize, "allowUpscale").Null?
  {
    SharpResize(
      Get(resize, "width"),
      Get(resize, "height"),
      Coalesce(Get(resize, "fit"), Str("cover")),
      !Truthy(Coalesce(Get(resize, "allowUpscale"), Bool(false))))
  }

  /** The arguments `convertWithSharp` derives from the merged options. */
  function SharpArgsOf(merged: map<string, Value>): (args: SharpArgs)
    requires Get(merged, "resize").Undef? || Get(merged, "resize").Obj?
    ensures args.resize.None? <==> Get(merged, "resize").Undef?
    ensures args.resize.Some? ==> args.resize.value == ResizeArgs(Get(merged, "resize").fields)
    ensures args.quality == Get(merged, "quality") && args.lossless == Get(merged, "lossless")
    ensures args.effort == Effort(Get(merged, "method"))
  {
    var resize := Get(merged, "resize");
    SharpArgs(
      if resize.Undef? then None else Some(ResizeArgs(resize.fields)),
      Get(merged, "quality"),
      Get(merged, "lossless"),
      Effort(Get(merged, "method")))
  }

  /** The arguments for options that passed validation (whose `resize` is then absent or an object). */
  function ArgsFor(options: Value): SharpArgs
    requires ConvertOptionsOk(options)
  {
    if options.Obj? then
      assert FieldOk(options.fields, ConvertFields[2]);
      SharpArgsOf(MergeOptions(options))
    else
      SharpArgsOf(MergeOptions(options))
  }

  /** Effort for each compression method; the default method gives the middle effort. */
  lemma EffortPerMethod(m: CompressionMethod)
    ensures Effort(Str(MethodName(m))) == (match m case Fast => 1 case Best => 6 case Default => 4)
    ensures Effort(DefaultOptions["method"]) == 4
  {
  }

  /** Without options, sharp gets quality 80, lossy, effort 4 and no resize. */
  lemma DefaultArguments()
    ensures SharpArgsOf(MergeOptions(Undef)) == SharpArgs(None, Num(80.0), Bool(false), 4)
  {
  }

  /** A key present with the value `undefined` still overrides its default: the spread copies it. */
  lemma ExplicitUndefinedOverridesDefault()
    ensures SharpArgsOf(MergeOptions(Obj(map["quality" := Undef]))).quality == Undef
  {
  }

  /** Enlargement is allowed exactly when `allowUpscale` is truthy. */
  lemma WithoutEnlargementUnlessUpscale(resize: map<string, Value>)
    ensures ResizeArgs(resize).withoutEnlargement <==> !Truthy(Get(resize, "allowUpscale"))
    ensures "allowUpscale" !in resize ==> ResizeArgs(resize).withoutEnlargement
  {
  }

  // ---------------------------------------------------------------------------
  // The conversion
  // ---------------------------------------------------------------------------

  /** What the encoder produces: the bytes and the output size, or the error it throws. */
  datatype EncodeOutcome = Encoded(data: seq<byte>, width: nat, height: nat) | EncodeFailed(cause: Error)

  type Encoder = (seq<byte>, SharpArgs) -> EncodeOutcome

  const ModuleNotFoundCode := "MODULE_NOT_FOUND"
  const SharpMissingMessage := "Sharp is required. Install: npm install sharp"

  /** The `catch` of `convertWithSharp`: every failure becomes a conversion error keeping its cause. */
  function WrapEncoderFailure(cause: Error): (e: Error)
    ensures e.Conversion? && e.originalError == Some(cause)
    ensures Code(cause) == Some(ModuleNotFoundCode) ==> Message(e) == SharpMissingMessage
    ensures Code(cause) != Some(ModuleNotFoundCode) ==> Message(e) == "Conversion failed: " + Message(cause)
  {
    if Code(cause) == Some(ModuleNotFoundCode) then Conversion(SharpMissingMessage, Some(cause))
    else Conversion("Conversion failed: " + Message(cause), Some(cause))
  }

  /** `convertToWebP` of the Node entry point. */
  function ConvertToWebP(input: NodeInput, options: Value, fs: FileSystem, encode: Encoder): (r: Result<ConvertResult, Error>)
    // options first: bad options win over a bad input
    ensures ValidateConvertOptions(options).Some? ==> r == Failure(ValidateConvertOptions(options).value)
    ensures ConvertOptionsOk(options) && NormalizeInput(input, fs).Failure? ==> r == Failure(NormalizeInput(input, fs).error)
    ensures r.Failure? ==>
      || r.error.InvalidOptions? || r.error.InvalidInput? || r.error.FileNotFound? || r.error.Conversion?
      || HostReadError(fs, input, r.error)
    // valid options, readable input and an encoded image give the result built from them
    ensures (ConvertOptionsOk(options) && NormalizeInput(input, fs).Success?
             && encode(NormalizeInput(input, fs).value, ArgsFor(options)).Encoded?) ==>
      var buffer := NormalizeInput(input, fs).value;
      var out := encode(buffer, ArgsFor(options));
      r == Success(MakeResult(out.data, |buffer|, out.width as real, out.height as real))
    ensures r.Success? ==>
      && ConvertOptionsOk(options)
      && NormalizeInput(input, fs).Success?
      && var buffer := NormalizeInput(input, fs).value;
      && var out := encode(buffer, ArgsFor(options));
      && out.Encoded?
      && r.value == MakeResult(out.data, |buffer|, out.width as real, out.height as real)
      && WellFormedResult(r.value)
  {
    var invalid := ValidateConvertOptions(options);
    if invalid.Some? then Failure(invalid.value)
    else
      var merged := MergeOptions(options);
      match NormalizeInput(input, fs)
      case Failure(e) => Failure(e)
      case Success(buffer) =>
        match encode(buffer, SharpArgsOf(merged))
        case EncodeFailed(cause) => Failure(WrapEncoderFailure(cause))
        case Encoded(data, width, height) =>
          Success(MakeResult(data, |buffer|, width as real, height as real))
  }

  /** A path to no file fails with the file-not-found error naming its absolute path. */
  lemma MissingFileRejected(p: string, options: Value, fs: FileSystem, encode: Encoder)
    requires ConvertOptionsOk(options)
    requires fs.resolve(fs.resolve(p)) !in fs.files
    ensures ConvertToWebP(PathInput(p), options, fs, encode) == Failure(FileNotFound(fs.resolve(p)))
  {
  }

  /**
   * A path to a directory or to a file that cannot be read passes the
   * existence check, and the host's read error comes through unchanged: it
   * is not one of the library's errors.
   */
  lemma UnreadablePathRejected(p: string, options: Value, fs: FileSystem, encode: Encoder)
    requires ConvertOptionsOk(options) && ResolvesStably(fs, p)
    requires fs.resolve(p) in fs.files && fs.files[fs.resolve(p)].Unreadable?
    ensures ConvertToWebP(PathInput(p), options, fs, encode) == Failure(fs.files[fs.resolve(p)].readError)
    ensures !IsConverterError(fs.files[fs.resolve(p)].readError)
  {
    assert NormalizeInput(PathInput(p), fs) == Failure(fs.files[fs.resolve(p)].readError);
  }

  /** Encoder failures all surface as conversion errors carrying the cause. */
  lemma EncoderFailuresWrapped(input: NodeInput, options: Value, fs: FileSystem, encode: Encoder)
    requires ConvertOptionsOk(options) && NormalizeInput(input, fs).Success?
    requires encode(NormalizeInput(input, fs).value, ArgsFor(options)).EncodeFailed?
    ensures var cause := encode(NormalizeInput(input, fs).value, ArgsFor(options)).cause;
      ConvertToWebP(input, options, fs, encode) == Failure(WrapEncoderFailure(cause))
  {
  }

  /** The sizes recorded in a result: the input's length, the output's length, the ratio between them. */
  lemma ResultMetrics(input: NodeInput, options: Value, fs: FileSystem, encode: Encoder)
    requires ConvertToWebP(input, options, fs, encode).Success?
    ensures var res := ConvertToWebP(input, options, fs, encode).value;
      && res.originalSize == |NormalizeInput(input, fs).value|
      && res.convertedSize == |res.data|
      && res.format == "webp"
      && (res.originalSize > 0 ==>
           res.compressionRatio == Finite(1.0 - res.convertedSize as real / res.originalSize as real))
  {
  }

  /** The three rejected calls of tests/converter.test.ts are refused as invalid options, whatever the input. */
  lemma InvalidOptionsExamples(input: NodeInput, fs: FileSystem, encode: Encoder)
    ensures var r := ConvertToWebP(input, Obj(map["quality" := Num(150.0)]), fs, encode);
      r.Failure? && r.error.InvalidOptions?
    ensures var r := ConvertToWebP(input, Obj(map["quality" := Num(80.5)]), fs, encode);
      r.Failure? && r.error.InvalidOptions?
    ensures var r := ConvertToWebP(input, Obj(map["resize" := Obj(map["width" := Num(-100.0)])]), fs, encode);
      r.Failure? && r.error.InvalidOptions?
  {
    SingleBadFieldRejected("quality", Num(150.0));
    assert !IsInteger(80.5);
    SingleBadFieldRejected("quality", Num(80.5));
    SingleBadFieldRejected("resize", Obj(map["width" := Num(-100.0)]));
  }

  // ---------------------------------------------------------------------------
  // createConverter
  // ---------------------------------------------------------------------------

  /** The object `createConverter` returns: it remembers the base options. */
  datatype WebPConverter = WebPConverter(baseOptions: map<string, Value>)

  /** `createConverter(defaultOptions)`: base options are `defaultOptions ?? {}`. */
  function CreateConverter(defaultOptions: Value): (c: WebPConverter)
    requires Nullish(defaultOptions) || defaultOptions.Obj?
    ensures Nullish(defaultOptions) ==> c.baseOptions == map[]
    ensures defaultOptions.Obj? ==> c.baseOptions == defaultOptions.fields
  {
    WebPConverter(OwnProps(defaultOptions))
  }

  /** `getDefaultOptions`: a copy of the base options. */
  function GetDefaultOptions(c: WebPConverter): map<string, Value> {
    c.baseOptions
  }

  /** The options one call of `convert` hands to `convertToWebP`: `{ ...baseOptions, ...options }`. */
  function LayeredOptions(c: WebPConverter, options: Value): (layered: map<string, Value>)
    requires Nullish(options) || options.Obj?
    ensures forall k :: k in layered <==> k in c.baseOptions || k in OwnProps(options)
    ensures forall k :: k in OwnProps(options) ==> layered[k] == OwnProps(options)[k]
    ensures forall k :: k in c.baseOptions && k !in OwnProps(options) ==> layered[k] == c.baseOptions[k]
  {
    c.baseOptions + OwnProps(options)
  }

  /** `convert(input, options)`. */
  function Convert(c: WebPConverter, input: NodeInput, options: Value, fs: FileSystem, encode: Encoder): Result<ConvertResult, Error>
    requires Nullish(options) || options.Obj?
  {
    ConvertToWebP(input, Obj(LayeredOptions(c, options)), fs, encode)
  }

  /**
   * Three layers, most specific first: a per-call option wins over a base
   * option, which wins over the library default.
   */
  lemma OptionLayering(c: WebPConverter, options: Value, k: string)
    requires Nullish(options) || options.Obj?
    ensures var merged := MergeOptions(Obj(LayeredOptions(c, options)));
      && (k in OwnProps(options) ==> Get(merged, k) == OwnProps(options)[k])
      && (k !in OwnProps(options) && k in c.baseOptions ==> Get(merged, k) == c.baseOptions[k])
      && (k !in OwnProps(options) && k !in c.baseOptions ==> Get(merged, k) == Get(DefaultOptions, k))
  {
  }

  /** A converter with no base options and no per-call options converts like a plain call. */
  lemma EmptyConverterIsPlainCall(input: NodeInput, fs: FileSystem, encode: Encoder)
    ensures Convert(CreateConverter(Undef), input, Undef, fs, encode) == ConvertToWebP(input, Obj(map[]), fs, encode)
    ensures ConvertToWebP(input, Obj(map[]), fs, encode) == ConvertToWebP(input, Undef, fs, encode)
  {
    assert MergeOptions(Obj(map[])) == MergeOptions(Undef);
  }

  /** The example of tests/converter.test.ts: the base options come back unchanged. */
  lemma CreateConverterExample()
    ensures GetDefaultOptions(CreateConverter(Obj(map["quality" := Num(90.0)]))) == map["quality" := Num(90.0)]
    ensures GetDefaultOptions(CreateConverter(Undef)) == map[]
  {
  }
}
