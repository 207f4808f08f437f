/**
 * The option validator of `utils/validation.ts`: guard-and-throw checks
 * over dynamically typed option values, here returning the error they
 * would throw (`Some(error)`) or `None` when they return normally; plus
 * the extension-based format lookup and the `ValidationResult` builder.
 */
module Validation {
  import opened Common
  import opened Values
  import opened Errors
  import opened Types

  const SupportedFormats: seq<string> := ["jpeg", "jpg", "png", "gif", "bmp", "tiff", "webp"]

  const QualityMin: int := 1
  const QualityMax: int := 100

  const ValidFits: seq<string> := ["cover", "contain", "fill", "inside", "outside"]
  const ValidMethods: seq<string> := ["default", "fast", "best"]

  /** The option fields `validateConvertOptions` checks, in the order it checks them. */
  const ConvertFields: seq<string> := ["quality", "lossless", "resize", "preserveMetadata", "method"]

  // ---------------------------------------------------------------------------
  // Reference definitions: which values each check accepts
  // ---------------------------------------------------------------------------

  predicate QualityOk(q: Value) {
    q.Num? && IsInteger(q.n) && QualityMin as real <= q.n <= QualityMax as real
  }

  /** An optional dimension: absent, or a number greater than zero. */
  predicate DimensionOk(v: Value) {
    v.Undef? || (v.Num? && v.n > 0.0)
  }

  predicate FitOk(v: Value) {
    v.Undef? || (v.Str? && v.s in ValidFits)
  }

  predicate ResizeOk(v: Value) {
    v.Obj? && DimensionOk(Get(v.fields, "width")) && DimensionOk(Get(v.fields, "height"))
    && FitOk(Get(v.fields, "fit"))
  }

  /** Whether option field `f` of `m` is acceptable; absent fields and unknown keys always are. */
  predicate FieldOk(m: map<string, Value>, f: string) {
    var v := Get(m, f);
    v.Undef? ||
    if f == "quality" then QualityOk(v)
    else if f == "lossless" || f == "preserveMetadata" then v.Bool?
    else if f == "resize" then ResizeOk(v)
    else if f == "method" then v.Str? && v.s in ValidMethods
    else true
  }

  predicate ConvertOptionsOk(v: Value) {
    Nullish(v) || (v.Obj? && forall i :: 0 <= i < |ConvertFields| ==> FieldOk(v.fields, ConvertFields[i]))
  }

  /** The option field an error's option name belongs to (`resize.width` belongs to `resize`). */
  function OwnerField(option: string): string {
    if option in ["resize.width", "resize.height", "resize.fit"] then "resize" else option
  }

  // ---------------------------------------------------------------------------
  // The checks
  // ---------------------------------------------------------------------------

  function ValidateQuality(quality: Value): (r: Option<Error>)
    ensures r.None? <==> QualityOk(quality)
    ensures r.Some? ==> r.value.InvalidOptions? && r.value.option == "quality" && r.value.value == quality
  {
    if !quality.Num? then
      Some(InvalidOptions("quality", quality, "number"))
    else if !IsInteger(quality.n) then
      Some(InvalidOptions("quality", quality, "integer between 1 and 100"))
    else if quality.n < QualityMin as real || quality.n > QualityMax as real then
      Some(InvalidOptions("quality", quality, "number between 1 and 100"))
    else
      None
  }

  function ValidateResizeOptions(options: Value): (r: Option<Error>)
    ensures r.None? <==> ResizeOk(options)
    ensures r.Some? ==> r.value.InvalidOptions? && OwnerField(r.value.option) == "resize"
    ensures !options.Obj? ==> r == Some(InvalidOptions("resize", options, "object"))
  {
    if !options.Obj? then
      Some(InvalidOptions("resize", options, "object"))
    else
      var resizeOpts := options.fields;
      var width := Get(resizeOpts, "width");
      var height := Get(resizeOpts, "height");
      var fit := Get(resizeOpts, "fit");
      if !width.Undef? && !(width.Num? && width.n > 0.0) then
        Some(InvalidOptions("resize.width", width, "positive number"))
      else if !height.Undef? && !(height.Num? && height.n > 0.0) then
        Some(InvalidOptions("resize.height", height, "positive number"))
      else if !fit.Undef? && !(fit.Str? && fit.s in ValidFits) then
        Some(InvalidOptions("resize.fit", fit, "one of: " + Join(ValidFits, ", ")))
      else
        None
  }

  function ValidateConvertOptions(options: Value): (r: Option<Error>)
    ensures r.None? <==> ConvertOptionsOk(options)
    ensures r.Some? ==> r.value.InvalidOptions?
    ensures !Nullish(options) && !options.Obj? ==> r == Some(InvalidOptions("options", options, "object"))
  {
    if Nullish(options) then None
    else if !options.Obj? then Some(InvalidOptions("options", options, "object"))
    else
      var opts := options.fields;
      var quality := Get(opts, "quality");
      var lossless := Get(opts, "lossless");
      var resize := Get(opts, "resize");
      var preserveMetadata := Get(opts, "preserveMetadata");
      var compression := Get(opts, "method");
      if !quality.Undef? && ValidateQuality(quality).Some? then
        assert !FieldOk(opts, ConvertFields[0]);
        ValidateQuality(quality)
      else if !lossless.Undef? && !lossless.Bool? then
        assert !FieldOk(opts, ConvertFields[1]);
        Some(InvalidOptions("lossless", lossless, "boolean"))
      else if !resize.Undef? && ValidateResizeOptions(resize).Some? then
        assert !FieldOk(opts, ConvertFields[2]);
        ValidateResizeOptions(resize)
      else if !preserveMetadata.Undef? && !preserveMetadata.Bool? then
        assert !FieldOk(opts, ConvertFields[3]);
        Some(InvalidOptions("preserveMetadata", preserveMetadata, "boolean"))
      else if !compression.Undef? && !(compression.Str? && compression.s in ValidMethods) then
        assert !FieldOk(opts, ConvertFields[4]);
        Some(InvalidOptions("method", compression, "one of: " + Join(ValidMethods, ", ")))
      else
        assert forall i :: 0 <= i < |ConvertFields| ==> FieldOk(opts, ConvertFields[i]);
        None
  }

  // ---------------------------------------------------------------------------
  // Properties of the checks
  // ---------------------------------------------------------------------------

  /** On numbers that are integers, quality is accepted exactly on 1..100. */
  lemma QualityAcceptsExactlyOneToHundred(k: int)
    ensures ValidateQuality(Num(k as real)) == None <==> 1 <= k <= 100
  {
    assert IsInteger(k as real);
  }

  /** The three kinds of rejected quality carry three different expected descriptions. */
  lemma QualityExpectedDescriptions(q: Value)
    ensures !q.Num? ==> ValidateQuality(q) == Some(InvalidOptions("quality", q, "number"))
    ensures q.Num? && !IsInteger(q.n) ==>
      ValidateQuality(q) == Some(InvalidOptions("quality", q, "integer between 1 and 100"))
    ensures q.Num? && IsInteger(q.n) && !(1.0 <= q.n <= 100.0) ==>
      ValidateQuality(q) == Some(InvalidOptions("quality", q, "number between 1 and 100"))
  {
  }

  /** The width is checked before the height, and both before the fit. */
  lemma ResizeCheckOrder(m: map<string, Value>)
    ensures !DimensionOk(Get(m, "width")) ==>
      ValidateResizeOptions(Obj(m)) == Some(InvalidOptions("resize.width", Get(m, "width"), "positive number"))
    ensures DimensionOk(Get(m, "width")) && !DimensionOk(Get(m, "height")) ==>
      ValidateResizeOptions(Obj(m)) == Some(InvalidOptions("resize.height", Get(m, "height"), "positive number"))
    ensures DimensionOk(Get(m, "width")) && DimensionOk(Get(m, "height")) && !FitOk(Get(m, "fit")) ==>
      ValidateResizeOptions(Obj(m)).Some? && ValidateResizeOptions(Obj(m)).value.option == "resize.fit"
  {
  }

  /**
   * The first violated field, in the order quality, lossless, resize,
   * preserveMetadata, method, is the one reported.
   */
  lemma FirstViolationRaised(m: map<string, Value>, i: nat)
    requires i < |ConvertFields|
    requires !FieldOk(m, ConvertFields[i])
    requires forall j :: 0 <= j < i ==> FieldOk(m, ConvertFields[j])
    ensures ValidateConvertOptions(Obj(m)).Some?
    ensures OwnerField(ValidateConvertOptions(Obj(m)).value.option) == ConvertFields[i]
  {
    var f := ConvertFields[i];
    if i == 0 {
      assert f == "quality";
    } else if i == 1 {
      assert FieldOk(m, ConvertFields[0]);
      assert f == "lossless";
    } else if i == 2 {
      assert FieldOk(m, ConvertFields[0]) && FieldOk(m, ConvertFields[1]);
      assert f == "resize";
    } else if i == 3 {
      assert FieldOk(m, ConvertFields[0]) && FieldOk(m, ConvertFields[1]) && FieldOk(m, ConvertFields[2]);
      assert f == "preserveMetadata";
    } else {
      assert FieldOk(m, ConvertFields[0]) && FieldOk(m, ConvertFields[1]) && FieldOk(m, ConvertFields[2]);
      assert FieldOk(m, ConvertFields[3]);
      assert f == "method";
    }
  }

  /** An options object whose only key is an option field holding a bad value is rejected. */
  lemma SingleBadFieldRejected(k: string, v: Value)
    requires k in ConvertFields && !FieldOk(map[k := v], k)
    ensures ValidateConvertOptions(Obj(map[k := v])).Some?
  {
  }

  /** Keys other than the five option fields are never looked at. */
  lemma UnknownKeysIgnored(m: map<string, Value>, k: string, x: Value)
    requires k !in ConvertFields
    ensures ValidateConvertOptions(Obj(m[k := x])) == ValidateConvertOptions(Obj(m))
  {
    var m' := m[k := x];
    forall f | f in ConvertFields
      ensures Get(m', f) == Get(m, f)
    {
      assert f != k;
    }
    SameFieldsSameVerdict(m', m);
  }

  /** Two objects that agree on the five option fields get the same verdict. */
  lemma SameFieldsSameVerdict(m1: map<string, Value>, m2: map<string, Value>)
    requires forall f :: f in ConvertFields ==> Get(m1, f) == Get(m2, f)
    ensures ValidateConvertOptions(Obj(m1)) == ValidateConvertOptions(Obj(m2))
  {
    assert Get(m1, "quality") == Get(m2, "quality");
    assert Get(m1, "lossless") == Get(m2, "lossless");
    assert Get(m1, "resize") == Get(m2, "resize");
    assert Get(m1, "preserveMetadata") == Get(m2, "preserveMetadata");
    assert Get(m1, "method") == Get(m2, "method");
  }

  /** The test cases of tests/validation.test.ts for resize options. */
  lemma ResizeExamples()
    ensures ValidateResizeOptions(Obj(map["width" := Num(100.0)])) == None
    ensures ValidateResizeOptions(Obj(map["width" := Num(100.0), "height" := Num(200.0), "fit" := Str("cover")])) == None
    ensures ValidateResizeOptions(Str("100x200")).Some?
    ensures ValidateResizeOptions(Obj(map["width" := Num(-100.0)])).Some?
  {
    var m := map["width" := Num(100.0), "height" := Num(200.0), "fit" := Str("cover")];
    assert Get(m, "fit") == Str("cover");
    assert ResizeOk(Obj(m));
  }

  // ---------------------------------------------------------------------------
  // The enumerations agree with the validator's literal lists
  // ---------------------------------------------------------------------------

  /** `SupportedInputFormat` is exactly `SUPPORTED_FORMATS`. */
  lemma SupportedFormatsAreInputFormats(s: string)
    ensures s in SupportedFormats <==> ParseFormat(s).Some?
    ensures forall f: SupportedInputFormat :: FormatName(f) in SupportedFormats
  {
  }

  /** `ResizeFit` is exactly the list the resize validator accepts. */
  lemma ValidFitsAreResizeFits(s: string)
    ensures s in ValidFits <==> ParseFit(s).Some?
    ensures forall f: ResizeFit :: FitName(f) in ValidFits
  {
  }

  /** `CompressionMethod` is exactly the list the option validator accepts. */
  lemma ValidMethodsAreCompressionMethods(s: string)
    ensures s in ValidMethods <==> ParseMethod(s).Some?
    ensures forall m: CompressionMethod :: MethodName(m) in ValidMethods
  {
  }

  // ---------------------------------------------------------------------------
  // Format by extension, and the validation-result builder
  // ---------------------------------------------------------------------------

  /** `filename.split(".").pop().toLowerCase()`, looked up in the supported formats. */
  function DetectFormatFromExtension(filename: string): (r: Option<SupportedInputFormat>)
    ensures r.Some? ==> FormatName(r.value) == ToLower(AfterLast(filename, '.'))
    ensures r.None? <==> ToLower(AfterLast(filename, '.')) !in SupportedFormats
  {
    var ext := ToLower(AfterLast(filename, '.'));
    if ext in SupportedFormats then ParseFormat(ext) else None
  }

  /** The lookup ignores letter case. */
  lemma DetectFormatFromExtensionIgnoresCase(filename: string)
    ensures DetectFormatFromExtension(ToLower(filename)) == DetectFormatFromExtension(filename)
  {
    AfterLastToLower(filename, '.');
    ToLowerIdempotent(AfterLast(filename, '.'));
  }

  /** A name without a dot is looked up whole. */
  lemma DetectFormatFromExtensionWithoutDot(filename: string)
    requires '.' !in filename
    ensures DetectFormatFromExtension(filename) == ParseFormat(ToLower(filename))
  {
    SplitWithoutSeparator(filename, '.');
    assert AfterLast(filename, '.') == filename;
    DetectFormatIsParse(filename);
  }

  /** The lookup is the parse of the lower-cased last piece: no supported name is missed and no other is let through. */
  lemma DetectFormatIsParse(filename: string)
    ensures DetectFormatFromExtension(filename) == ParseFormat(ToLower(AfterLast(filename, '.')))
  {
    SupportedFormatsAreInputFormats(ToLower(AfterLast(filename, '.')));
  }

  /** The accepted cases of tests/validation.test.ts. */
  lemma DetectFormatFromExtensionExamples()
    ensures DetectFormatFromExtension("image.png") == Some(Png)
    ensures DetectFormatFromExtension("photo.JPG") == Some(Jpg)
  {
    ExtensionLookup("image", "png");
    ExtensionLookup("photo", "JPG");
    assert "image" + "." + "png" == "image.png" && ToLower("png") == "png" by {
      ExampleFileNames();
    }
    assert "photo" + "." + "JPG" == "photo.JPG" && ToLower("JPG") == "jpg" by {
      ExampleFileNames();
    }
  }

  /** The rejected case of tests/validation.test.ts: an unknown extension. */
  lemma UnknownExtensionExample()
    ensures DetectFormatFromExtension("doc.pdf") == None
  {
    ExtensionLookup("doc", "pdf");
    assert "doc" + "." + "pdf" == "doc.pdf" && ToLower("pdf") == "pdf" by {
      UnknownExampleName();
    }
    assert ParseFormat("pdf") == None;
  }

  /** The example names spelled out as stem, dot and extension. */
  lemma ExampleFileNames()
    ensures "image" + "." + "png" == "image.png" && ToLower("png") == "png"
    ensures "photo" + "." + "JPG" == "photo.JPG" && ToLower("JPG") == "jpg"
  {
  }

  lemma UnknownExampleName()
    ensures "doc" + "." + "pdf" == "doc.pdf" && ToLower("pdf") == "pdf"
  {
  }

  /** A dotted name is looked up by its lower-cased extension. */
  lemma ExtensionLookup(stem: string, ext: string)
    requires '.' !in ext
    ensures DetectFormatFromExtension(stem + "." + ext) == ParseFormat(ToLower(ext))
  {
    AfterLastAfterSeparator(stem, '.', ext);
    DetectFormatIsParse(stem + "." + ext);
  }

  function CreateValidationResult(valid: bool, error: Option<string>): (r: ValidationResult)
    ensures r.valid == valid && r.metadata.None?
    ensures valid ==> r.error.None?
    ensures !valid ==> r.error == error
  {
    if valid then ValidationResult(true, None, None)
    else if error.None? then ValidationResult(false, None, None)
    else ValidationResult(false, error, None)
  }
}
