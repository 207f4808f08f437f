/**
 * The pure helpers of `cli.ts` and the bytes-saved accumulation of its
 * action handler: `Number.parseInt` in base 10, `parseResize`,
 * `buildResizeOptions`, the quality gate, the extension filter of the
 * directory scan, the options object handed to the batch, and the
 * `saved` total over the batch results.
 */
module Cli {
  import opened Common
  import opened Values
  import opened Errors
  import opened Types
  import opened Validation
  import Batch

  // ---------------------------------------------------------------------------
  // Number.parseInt(s, 10)
  // ---------------------------------------------------------------------------

  /** A parsed integer, or `NaN` when no digits follow the optional sign. */
  datatype ParsedInt = IntValue(value: int) | NaN

  /** The characters `parseInt` skips at the start: white space and line terminators. */
  predicate IsJsWhitespace(c: char) {
    || c == '\t' || c == '\n' || c == '\U{000B}' || c == '\U{000C}' || c == '\r' || c == ' '
    || c == '\U{00A0}' || c == '\U{1680}' || ('\U{2000}' <= c <= '\U{200A}')
    || c == '\U{2028}' || c == '\U{2029}' || c == '\U{202F}' || c == '\U{205F}'
    || c == '\U{3000}' || c == '\U{FEFF}'
  }

  /** The string with its leading white space removed. */
  function TrimStart(s: string): string {
    if s != [] && IsJsWhitespace(s[0]) then TrimStart(s[1..]) else s
  }

  /** Trimming removes a prefix made of white space and stops at the first other character. */
  lemma {:induction false} TrimStartDropsOnlyWhitespace(s: string)
    ensures var r := TrimStart(s);
      && |r| <= |s| && r == s[|s| - |r|..]
      && (r == [] || !IsJsWhitespace(r[0]))
      && forall i :: 0 <= i < |s| - |r| ==> IsJsWhitespace(s[i])
  {
    if s != [] && IsJsWhitespace(s[0]) {
      TrimStartDropsOnlyWhitespace(s[1..]);
      assert TrimStart(s) == TrimStart(s[1..]);
      forall i | 1 <= i < |s| - |TrimStart(s)|
        ensures IsJsWhitespace(s[i])
      {
        assert s[i] == s[1..][i - 1];
      }
    }
  }

  /** The longest prefix made of decimal digits. */
  function LeadingDigits(s: string): (d: string)
    ensures forall i :: 0 <= i < |d| ==> IsDigit(d[i])
  {
    if s != [] && IsDigit(s[0]) then [s[0]] + LeadingDigits(s[1..]) else []
  }

  /** `Number.parseInt(s, 10)`: white space, an optional sign, then as many digits as there are. */
  function ParseInt(s: string): ParsedInt {
    ParseSigned(TrimStart(s))
  }

  /** The parse of text that does not start with white space: an optional sign, then digits. */
  function ParseSigned(t: string): ParsedInt {
    var negative := t != [] && t[0] == '-';
    var digits := LeadingDigits(Unsigned(t));
    if digits == [] then NaN
    else IntValue(if negative then -(DigitsValue(digits) as int) else DigitsValue(digits))
  }

  /** The text after an optional leading sign. */
  function Unsigned(t: string): string {
    if t != [] && (t[0] == '-' || t[0] == '+') then t[1..] else t
  }

  /** The digit prefix is a prefix of the text, and the character after it, if any, is not a digit. */
  lemma {:induction false} LeadingDigitsLongest(s: string)
    ensures var d := LeadingDigits(s);
      && |d| <= |s| && d == s[..|d|]
      && (|d| == |s| || !IsDigit(s[|d|]))
  {
    if s != [] && IsDigit(s[0]) {
      LeadingDigitsLongest(s[1..]);
      var d := LeadingDigits(s[1..]);
      assert LeadingDigits(s) == [s[0]] + d;
      assert s[..|d| + 1] == [s[0]] + s[1..][..|d|];
    }
  }

  lemma {:induction false} LeadingDigitsOfDigits(digits: string, rest: string)
    requires forall i :: 0 <= i < |digits| ==> IsDigit(digits[i])
    requires rest == [] || !IsDigit(rest[0])
    ensures LeadingDigits(digits + rest) == digits
  {
    if digits != [] {
      LeadingDigitsOfDigits(digits[1..], rest);
      assert (digits + rest)[1..] == digits[1..] + rest;
    }
  }

  lemma {:induction false} TrimStartSkipsWhitespace(ws: string, s: string)
    requires forall i :: 0 <= i < |ws| ==> IsJsWhitespace(ws[i])
    ensures TrimStart(ws + s) == TrimStart(s)
  {
    if ws != [] {
      var t := ws + s;
      assert t[0] == ws[0] && IsJsWhitespace(t[0]);
      assert TrimStart(t) == TrimStart(t[1..]);
      assert t[1..] == ws[1..] + s;
      TrimStartSkipsWhitespace(ws[1..], s);
    } else {
      assert ws + s == s;
    }
  }

  /** Digits followed by a non-digit are read as their value, whatever sign precedes them. */
  lemma ParseIntOfDigits(ws: string, sign: string, n: nat, rest: string)
    requires forall i :: 0 <= i < |ws| ==> IsJsWhitespace(ws[i])
    requires sign == "" || sign == "-" || sign == "+"
    requires rest == [] || !IsDigit(rest[0])
    ensures ParseInt(ws + sign + NatToString(n) + rest) == IntValue(if sign == "-" then -(n as int) else n)
  {
    var d := NatToString(n);
    var t := sign + d + rest;
    assert ws + sign + d + rest == ws + t;
    TrimStartSkipsWhitespace(ws, t);
    TrimmedStart(sign, d, rest);
    ParseSignedOfDigits(sign, n, rest);
  }

  lemma ParseSignedOfDigits(sign: string, n: nat, rest: string)
    requires sign == "" || sign == "-" || sign == "+"
    requires rest == [] || !IsDigit(rest[0])
    ensures ParseSigned(sign + NatToString(n) + rest) == IntValue(if sign == "-" then -(n as int) else n)
  {
    var d := NatToString(n);
    var t := sign + d + rest;
    UnsignedOf(sign, d, rest);
    LeadingDigitsOfDigits(d, rest);
    NatToStringRoundTrip(n);
    assert (t != [] && t[0] == '-') <==> sign == "-";
  }

  lemma TrimmedStart(sign: string, d: string, rest: string)
    requires sign == "" || sign == "-" || sign == "+"
    requires |d| > 0 && IsDigit(d[0])
    ensures TrimStart(sign + d + rest) == sign + d + rest
  {
    var t := sign + d + rest;
    assert t[0] == if sign == "" then d[0] else sign[0];
  }

  lemma UnsignedOf(sign: string, d: string, rest: string)
    requires sign == "" || sign == "-" || sign == "+"
    requires |d| > 0 && IsDigit(d[0])
    ensures Unsigned(sign + d + rest) == d + rest
  {
    var t := sign + d + rest;
    if sign != "" {
      assert t[1..] == d + rest;
    } else {
      assert t == d + rest;
    }
  }

  /** A rendered number, on its own, parses to itself. */
  lemma ParseIntOfRendering(n: nat)
    ensures ParseInt(NatToString(n)) == IntValue(n)
  {
    var d := NatToString(n);
    TrimmedStart("", d, "");
    UnsignedOf("", d, "");
    LeadingDigitsOfDigits(d, "");
    assert "" + d + "" == d && d + "" == d;
    NatToStringRoundTrip(n);
  }

  /**
   * Parsing reads back a rendered number, with or without a sign, after
   * any leading white space, and stops at the first character that is not
   * a digit.
   */
  lemma ParseIntReadsRendering(ws: string, n: nat, rest: string)
    requires forall i :: 0 <= i < |ws| ==> IsJsWhitespace(ws[i])
    requires rest == [] || !IsDigit(rest[0])
    ensures ParseInt(ws + NatToString(n) + rest) == IntValue(n)
    ensures ParseInt(ws + "-" + NatToString(n) + rest) == IntValue(-(n as int))
  {
    ParseIntOfDigits(ws, "", n, rest);
    assert ws + "" + NatToString(n) + rest == ws + NatToString(n) + rest;
    ParseIntOfDigits(ws, "-", n, rest);
  }

  /** What `parseInt` makes of text that is not a number. */
  lemma ParseIntExamples()
    ensures ParseInt("") == NaN
    ensures ParseInt("abc") == NaN
    ensures ParseInt("-") == NaN
    ensures ParseInt("80.5") == IntValue(80)
    ensures ParseInt(" 42px") == IntValue(42)
  {
    assert NatToString(80) == "80";
    ParseIntReadsRendering("", 80, ".5");
    assert "" + "80" + ".5" == "80.5";
    assert NatToString(42) == "42";
    ParseIntReadsRendering(" ", 42, "px");
    assert " " + "42" + "px" == " 42px";
  }

  // ---------------------------------------------------------------------------
  // The quality gate
  // ---------------------------------------------------------------------------

  /** The handler continues only when the quality text parses to an integer in 1..100. */
  predicate QualityGate(quality: string) {
    var q := ParseInt(quality);
    q.IntValue? && 1 <= q.value <= 100
  }

  /** A quality that passes the gate also passes the library's own check. */
  lemma QualityGateImpliesValidQuality(quality: string)
    requires QualityGate(quality)
    ensures ValidateQuality(Num(ParseInt(quality).value as real)) == None
  {
  }

  /** On rendered numbers, the gate lets through exactly 1..100; the default "80" passes. */
  lemma QualityGateOnRenderings(k: nat)
    ensures QualityGate(NatToString(k)) <==> 1 <= k <= 100
  {
    ParseIntOfRendering(k);
  }

  /** The default quality text "80" passes the gate; "0", "101" and "high" do not. */
  lemma QualityGateExamples()
    ensures QualityGate("80")
    ensures !QualityGate("0") && !QualityGate("101") && !QualityGate("high")
  {
    assert NatToString(80) == "80" by { }
    QualityGateOnRenderings(80);
    assert NatToString(0) == "0" by { }
    QualityGateOnRenderings(0);
    assert NatToString(101) == "101" by { }
    QualityGateOnRenderings(101);
    WordIsNaN();
  }

  /** A word is not a number. */
  lemma WordIsNaN()
    ensures ParseInt("high") == NaN
  {
    assert TrimStart("high") == "high";
    assert Unsigned("high") == "high";
    assert LeadingDigits("high") == [];
  }

  // ---------------------------------------------------------------------------
  // --resize parsing
  // ---------------------------------------------------------------------------

  /** `parseResize`'s result: each dimension present or not, and what `parseInt` gave. */
  datatype ResizeDims = ResizeDims(width: Option<ParsedInt>, height: Option<ParsedInt>)

  /** `const [w, h] = resize.toLowerCase().split("x")`, then a dimension per non-empty piece. */
  function ParseResize(resize: string): ResizeDims {
    DimensionsOf(Split(ToLower(resize), 'x'))
  }

  /** The first two pieces, if present and non-empty, as the width and the height. */
  function DimensionsOf(pieces: seq<string>): ResizeDims
    requires |pieces| >= 1
  {
    ResizeDims(DimensionOf(pieces[0]), if |pieces| >= 2 then DimensionOf(pieces[1]) else None)
  }

  /** A present dimension holds the parse of its piece. */
  function DimensionOf(piece: string): Option<ParsedInt> {
    if piece != "" then Some(ParseInt(piece)) else None
  }

  /** The upper-case separator works like the lower-case one: parsing ignores case. */
  lemma ParseResizeIgnoresCase(resize: string)
    ensures ParseResize(ToLower(resize)) == ParseResize(resize)
  {
    ToLowerIdempotent(resize);
  }

  /** Lower-casing around a separator `x` leaves the separator. */
  lemma LowerAroundSeparator(a: string, b: string)
    ensures ToLower(a + "x" + b) == ToLower(a) + ['x'] + ToLower(b)
  {
    ToLowerConcat(a + "x", b);
    ToLowerConcat(a, "x");
    assert ToLower("x") == ['x'];
  }

  lemma SplitAroundSeparator(a: string, b: string)
    requires 'x' !in ToLower(a) && 'x' !in ToLower(b)
    ensures Split(ToLower(a + "x" + b), 'x') == [ToLower(a), ToLower(b)]
  {
    var la, lb := ToLower(a), ToLower(b);
    LowerAroundSeparator(a, b);
    SplitAtFirst(la, 'x', lb);
    SplitWithoutSeparator(lb, 'x');
  }

  lemma SplitTwo(la: string, lb: string, lr: string)
    requires 'x' !in la && 'x' !in lb
    ensures Split(la + "x" + lb + "x" + lr, 'x') == [la, lb] + Split(lr, 'x')
  {
    var tail := lb + ['x'] + lr;
    assert la + "x" + lb + "x" + lr == la + ['x'] + tail;
    SplitAtFirst(lb, 'x', lr);
    SplitAtFirst(la, 'x', tail);
  }

  lemma LowerTwo(a: string, b: string, rest: string)
    ensures ToLower(a + "x" + b + "x" + rest) == ToLower(a) + "x" + ToLower(b) + "x" + ToLower(rest)
  {
    LowerAroundSeparator(a + "x" + b, rest);
    LowerAroundSeparator(a, b);
  }

  lemma SplitAroundTwoSeparators(a: string, b: string, rest: string)
    requires 'x' !in ToLower(a) && 'x' !in ToLower(b)
    ensures Split(ToLower(a + "x" + b + "x" + rest), 'x') == [ToLower(a), ToLower(b)] + Split(ToLower(rest), 'x')
  {
    LowerTwo(a, b, rest);
    SplitTwo(ToLower(a), ToLower(b), ToLower(rest));
  }

  /**
   * The width is read from before the first `x` and the height from
   * between the first and the second; anything after a second `x` is
   * ignored.
   */
  lemma ParseResizePieces(a: string, b: string, rest: string)
    requires 'x' !in ToLower(a) && 'x' !in ToLower(b)
    ensures ParseResize(a + "x" + b) == ResizeDims(DimensionOf(ToLower(a)), DimensionOf(ToLower(b)))
    ensures ParseResize(a + "x" + b + "x" + rest) == ParseResize(a + "x" + b)
  {
    SplitAroundSeparator(a, b);
    SplitAroundTwoSeparators(a, b, rest);
    var pieces := [ToLower(a), ToLower(b)] + Split(ToLower(rest), 'x');
    assert pieces[0] == ToLower(a) && pieces[1] == ToLower(b);
  }

  /** `WxH` with two rendered numbers reads back both sizes. */
  lemma ParseResizeReadsBoth(w: nat, h: nat)
    ensures ParseResize(NatToString(w) + "x" + NatToString(h)) == ResizeDims(Some(IntValue(w)), Some(IntValue(h)))
  {
    var a, b := NatToString(w), NatToString(h);
    DigitsHaveNoSeparator(a);
    DigitsHaveNoSeparator(b);
    ParseResizePieces(a, b, "");
    RenderedDimension(w);
    RenderedDimension(h);
  }

  lemma RenderedDimension(n: nat)
    ensures DimensionOf(ToLower(NatToString(n))) == Some(IntValue(n))
  {
    var a := NatToString(n);
    DigitsHaveNoSeparator(a);
    ParseIntReadsRendering("", n, "");
    assert "" + a + "" == a;
  }

  lemma DigitsHaveNoSeparator(digits: string)
    requires forall i :: 0 <= i < |digits| ==> IsDigit(digits[i])
    ensures 'x' !in digits && ToLower(digits) == digits
  {
    assert forall i :: 0 <= i < |digits| ==> LowerChar(digits[i]) == digits[i];
  }

  /** A missing side: `"1920x"` sets only the width, `"x1080"` only the height. */
  lemma ParseResizeOneSide(w: nat)
    ensures ParseResize(NatToString(w) + "x") == ResizeDims(Some(IntValue(w)), None)
    ensures ParseResize("x" + NatToString(w)) == ResizeDims(None, Some(IntValue(w)))
  {
    var a := NatToString(w);
    DigitsHaveNoSeparator(a);
    ParseIntReadsRendering("", w, "");
    assert "" + a + "" == a;
    ParseResizePieces(a, "", "");
    assert a + "x" + "" == a + "x";
    ParseResizePieces("", a, "");
    assert "" + "x" + a == "x" + a;
  }

  /** An upper-case separator: `"800X600"` reads 800 by 600. */
  lemma UpperCaseSeparatorExample()
    ensures ParseResize("800X600") == ResizeDims(Some(IntValue(800)), Some(IntValue(600)))
  {
    assert NatToString(800) == "800" && NatToString(600) == "600";
    ParseResizeReadsBoth(800, 600);
    assert "800X600" == "800" + "X" + "600";
    ToLowerConcat("800" + "X", "600");
    ToLowerConcat("800", "X");
    DigitsHaveNoSeparator("800");
    DigitsHaveNoSeparator("600");
    assert ToLower("X") == "x";
    assert ToLower("800X600") == "800" + "x" + "600";
    ParseResizeIgnoresCase("800X600");
  }

  /** The value `buildResizeOptions` returns, before it is handed on as an option object. */
  datatype ResizeRequest = ResizeRequest(dims: ResizeDims, fit: Option<string>)

  /** `buildResizeOptions(resize, fit)`. */
  function BuildResizeOptions(resize: Option<string>, fit: Option<string>): (r: Option<ResizeRequest>)
    ensures r.None? <==> resize.None? || resize.value == ""
    ensures r.Some? ==> r.value.dims == ParseResize(resize.value)
    ensures r.Some? ==> (r.value.fit.Some? <==> fit.Some? && fit.value != "")
    ensures r.Some? && r.value.fit.Some? ==> r.value.fit == fit
  {
    if resize.None? || resize.value == "" then None
    else Some(ResizeRequest(ParseResize(resize.value), if fit.Some? && fit.value != "" then Some(fit.value) else None))
  }

  /** A dimension as the option object holds it; a `NaN` has no counterpart among the modelled values. */
  function DimensionValue(d: Option<ParsedInt>): Value
    requires d.None? || d.value.IntValue?
  {
    if d.None? then Undef else Num(d.value.value as real)
  }

  /** Whether each requested dimension is absent or parsed as a number. */
  predicate Numeric(request: ResizeRequest) {
    && (request.dims.width.None? || request.dims.width.value.IntValue?)
    && (request.dims.height.None? || request.dims.height.value.IntValue?)
  }

  /** The `resize` option object for a request whose dimensions parsed as numbers. */
  function ResizeValue(request: ResizeRequest): (v: Value)
    requires Numeric(request)
    ensures v.Obj?
    ensures Get(v.fields, "width") == DimensionValue(request.dims.width)
    ensures Get(v.fields, "height") == DimensionValue(request.dims.height)
    ensures Get(v.fields, "fit") == if request.fit.Some? then Str(request.fit.value) else Undef
  {
    var width := if request.dims.width.Some? then map["width" := DimensionValue(request.dims.width)] else map[];
    var height := if request.dims.height.Some? then map["height" := DimensionValue(request.dims.height)] else map[];
    var fit := if request.fit.Some? then map["fit" := Str(request.fit.value)] else map[];
    Obj(width + height + fit)
  }

  /** `--resize WxH` with positive sizes and a known `--fit` passes the library's resize check. */
  lemma ResizeFlagAccepted(w: nat, h: nat, fit: string)
    requires w >= 1 && h >= 1 && fit in ValidFits
    ensures var request := BuildResizeOptions(Some(NatToString(w) + "x" + NatToString(h)), Some(fit));
      && request.Some? && Numeric(request.value)
      && ValidateResizeOptions(ResizeValue(request.value)) == None
  {
    ParseResizeReadsBoth(w, h);
  }

  /** A zero side parses, but is then refused by the library's check on that side. */
  lemma ZeroSideRejected(h: nat)
    ensures var request := BuildResizeOptions(Some(NatToString(0) + "x" + NatToString(h)), None);
      && request.Some? && Numeric(request.value)
      && ValidateResizeOptions(ResizeValue(request.value)) == Some(InvalidOptions("resize.width", Num(0.0), "positive number"))
  {
    ParseResizeReadsBoth(0, h);
  }

  // ---------------------------------------------------------------------------
  // The extension filter of the directory scan
  // ---------------------------------------------------------------------------

  /** The position of the last `.`, if any. */
  function LastDot(s: string): (r: Option<nat>)
    ensures r.Some? ==> r.value < |s|
  {
    if s == [] then None
    else if s[|s| - 1] == '.' then Some(|s| - 1)
    else LastDot(s[..|s| - 1])
  }

  /** `LastDot` finds nothing exactly when there is no dot; otherwise it finds a dot with no dot after it. */
  lemma {:induction false} LastDotIsLast(s: string)
    ensures LastDot(s).None? <==> '.' !in s
    ensures LastDot(s).Some? ==>
      (s[LastDot(s).value] == '.' && forall j :: LastDot(s).value < j < |s| ==> s[j] != '.')
  {
    if s != [] && s[|s| - 1] != '.' {
      var init := s[..|s| - 1];
      LastDotIsLast(init);
      assert s == init + [s[|s| - 1]];
    }
  }

  /** `path.extname` of a directory entry name (no `/`): from the last dot, unless the name starts with it or is `..`. */
  function Extname(entry: string): (ext: string)
    requires '/' !in entry
  {
    match LastDot(entry)
    case None => ""
    case Some(d) => if d == 0 || entry == ".." then "" else entry[d..]
  }

  /** `SUPPORTED_FORMATS.includes(extname(entry).toLowerCase().slice(1))`. */
  predicate IsSupportedImageFile(entry: string)
    requires '/' !in entry
  {
    var ext := ToLower(Extname(entry));
    (if ext == [] then "" else ext[1..]) in SupportedFormats
  }

  /** The last dot of a name whose extension holds no dot sits right after the stem. */
  lemma {:induction false} LastDotBeforeExtension(stem: string, ext: string)
    requires '.' !in ext
    ensures LastDot(stem + ['.'] + ext) == Some(|stem|)
  {
    var s := stem + ['.'] + ext;
    if ext != [] {
      var shorter := ext[..|ext| - 1];
      LastDotBeforeExtension(stem, shorter);
      assert s[..|s| - 1] == stem + ['.'] + shorter;
      assert s[|s| - 1] == ext[|ext| - 1];
    }
  }

  /** A name `stem.ext` with a stem and a dot-free extension is kept exactly when its lower-cased extension is a supported format. */
  lemma FilterOfExtension(stem: string, ext: string)
    requires '/' !in stem && '/' !in ext && '.' !in ext && stem != []
    ensures '/' !in stem + ['.'] + ext
    ensures IsSupportedImageFile(stem + ['.'] + ext) <==> ToLower(ext) in SupportedFormats
  {
    var entry := stem + ['.'] + ext;
    LastDotBeforeExtension(stem, ext);
    assert entry[|stem|..] == ['.'] + ext;
    ToLowerConcat(['.'], ext);
    assert ToLower(['.']) == ['.'];
    assert "" !in SupportedFormats;
  }

  /** A name cut at its last dot: the stem, the dot, and an extension without dots. */
  lemma SplitAtLastDot(entry: string)
    requires LastDot(entry).Some?
    ensures var d := LastDot(entry).value;
      entry == entry[..d] + ['.'] + entry[d + 1..] && '.' !in entry[d + 1..]
  {
    LastDotIsLast(entry);
    var d := LastDot(entry).value;
    var ext := entry[d + 1..];
    assert entry == entry[..d] + ['.'] + ext;
    assert '.' !in ext by {
      assert forall j :: 0 <= j < |ext| ==> ext[j] == entry[d + 1 + j];
    }
  }

  /**
   * For a name with an extension, the scan's filter agrees with the
   * library's extension lookup.
   */
  lemma FilterAgreesWithLookup(entry: string)
    requires '/' !in entry
    ensures LastDot(entry).Some? && LastDot(entry).value > 0 ==>
      (IsSupportedImageFile(entry) <==> DetectFormatFromExtension(entry).Some?)
  {
    if LastDot(entry).Some? && LastDot(entry).value > 0 {
      var d := LastDot(entry).value;
      SplitAtLastDot(entry);
      var stem, ext := entry[..d], entry[d + 1..];
      assert '/' !in stem && '/' !in ext;
      FilterOfExtension(stem, ext);
      ExtensionLookup(stem, ext);
      SupportedFormatsAreInputFormats(ToLower(ext));
    }
  }

  /** A name with no dot, or only a leading one, is never picked by the scan, whatever the lookup says of it. */
  lemma DotlessNamesSkipped(entry: string)
    requires '/' !in entry
    ensures LastDot(entry).None? || LastDot(entry) == Some(0) ==> !IsSupportedImageFile(entry)
  {
    assert "" !in SupportedFormats;
  }

  /** The example names spelled out as stem, dot and extension. */
  lemma ExampleNames()
    ensures "photo" + ['.'] + "JPG" == "photo.JPG" && ToLower("JPG") == "jpg"
    ensures "notes" + ['.'] + "txt" == "notes.txt" && ToLower("txt") == "txt"
  {
  }

  /** An upper-case extension is accepted. */
  lemma UpperCaseExtensionExample()
    ensures IsSupportedImageFile("photo.JPG")
  {
    FilterOfExtension("photo", "JPG");
    ExampleNames();
  }

  /** A file that is not an image is skipped. */
  lemma SkippedFileExample()
    ensures !IsSupportedImageFile("notes.txt")
  {
    FilterOfExtension("notes", "txt");
    ExampleNames();
  }

  /** A name that is only an extension, with or without its dot, is skipped. */
  lemma BareExtensionSkipped()
    ensures !IsSupportedImageFile("png")
    ensures !IsSupportedImageFile(".png")
  {
    LastDotIsLast("png");
    FilterAgreesWithLookup("png");
    LastDotBeforeExtension("", "png");
    assert "" + ['.'] + "png" == ".png";
    FilterAgreesWithLookup(".png");
  }

  /** A directory entry as `statSync` classifies it; `children` is the listing of a directory. */
  datatype Entry =
    | FileEntry(name: string)
    | DirectoryEntry(name: string, children: seq<Entry>)
    | OtherEntry(name: string)

  /** Entry names never contain the path separator. */
  predicate PlainNames(entries: seq<Entry>)
    decreases entries
  {
    forall i :: 0 <= i < |entries| ==>
      && '/' !in entries[i].name
      && (entries[i].DirectoryEntry? ==> (assert entries[i] in entries; PlainNames(entries[i].children)))
  }

  /** `join(dir, entry)` for a directory path and a plain entry name. */
  function JoinPath(dir: string, name: string): string {
    dir + "/" + name
  }

  /** What a file entry contributes to the scan. */
  function EntryFiles(dir: string, entry: Entry): seq<string>
    requires '/' !in entry.name
  {
    if entry.FileEntry? && IsSupportedImageFile(entry.name) then [JoinPath(dir, entry.name)] else []
  }

  /** The files the scan of a listing collects, in listing order, descending into directories when asked. */
  function CollectSpec(dir: string, entries: seq<Entry>, recursive: bool): seq<string>
    requires PlainNames(entries)
    decreases entries
  {
    if entries == [] then []
    else
      var last := entries[|entries| - 1];
      assert last in entries;
      assert PlainNames(entries[..|entries| - 1]) by {
        assert forall i :: 0 <= i < |entries| - 1 ==> entries[..|entries| - 1][i] == entries[i];
      }
      CollectSpec(dir, entries[..|entries| - 1], recursive)
      + if last.DirectoryEntry? then
          if recursive then CollectSpec(JoinPath(dir, last.name), last.children, recursive) else []
        else EntryFiles(dir, last)
  }

  /** A prefix of a listing with plain names has plain names. */
  lemma PlainNamesPrefix(entries: seq<Entry>, n: nat)
    requires PlainNames(entries) && n <= |entries|
    ensures PlainNames(entries[..n])
  {
    assert forall i :: 0 <= i < n ==> entries[..n][i] == entries[i];
  }

  /** Scanning one more entry of a listing appends what that entry contributes. */
  lemma CollectSpecStep(dir: string, entries: seq<Entry>, recursive: bool, i: nat)
    requires PlainNames(entries) && i < |entries|
    ensures PlainNames(entries[..i]) && PlainNames(entries[..i + 1])
    ensures '/' !in entries[i].name
    ensures entries[i].DirectoryEntry? ==> PlainNames(entries[i].children)
    ensures CollectSpec(dir, entries[..i + 1], recursive) == CollectSpec(dir, entries[..i], recursive)
      + if entries[i].DirectoryEntry? then
          if recursive then CollectSpec(JoinPath(dir, entries[i].name), entries[i].children, recursive) else []
        else EntryFiles(dir, entries[i])
  {
    PlainNamesPrefix(entries, i);
    PlainNamesPrefix(entries, i + 1);
    assert entries[i] in entries;
    var prefix := entries[..i + 1];
    assert prefix[..i] == entries[..i] && prefix[i] == entries[i];
  }

  /** `collectImageFiles(dir, recursive)` over a listing of `dir`. */
  method CollectImageFiles(dir: string, entries: seq<Entry>, recursive: bool) returns (files: seq<string>)
    requires PlainNames(entries)
    ensures files == CollectSpec(dir, entries, recursive)
    decreases entries
  {
    files := [];
    for i := 0 to |entries|
      invariant PlainNames(entries[..i])
      invariant files == CollectSpec(dir, entries[..i], recursive)
    {
      var entry := entries[i];
      CollectSpecStep(dir, entries, recursive, i);
      assert entry in entries;
      if entry.DirectoryEntry? {
        if recursive {
          var nested := CollectImageFiles(JoinPath(dir, entry.name), entry.children, recursive);
          files := files + nested;
        }
      } else if entry.FileEntry? && IsSupportedImageFile(entry.name) {
        files := files + [JoinPath(dir, entry.name)];
      }
    }
    assert entries[..|entries|] == entries;
  }

  /** Every path's last segment is a name the extension filter keeps. */
  predicate AllPassFilter(files: seq<string>) {
    forall k :: 0 <= k < |files| ==> IsSupportedImageFile(AfterLast(files[k], '/'))
  }

  lemma AllPassFilterAppend(a: seq<string>, b: seq<string>)
    requires AllPassFilter(a) && AllPassFilter(b)
    ensures AllPassFilter(a + b)
  {
    assert forall k :: 0 <= k < |a + b| ==> (a + b)[k] == if k < |a| then a[k] else b[k - |a|];
  }

  /** The last segment of every collected path is a name the extension filter keeps. */
  lemma {:induction false} CollectedFilesPassFilter(dir: string, entries: seq<Entry>, recursive: bool)
    requires PlainNames(entries)
    ensures AllPassFilter(CollectSpec(dir, entries, recursive))
    decreases entries
  {
    if entries != [] {
      var n := |entries| - 1;
      var last := entries[n];
      CollectSpecStep(dir, entries, recursive, n);
      assert entries[..n + 1] == entries;
      assert last in entries;
      CollectedFilesPassFilter(dir, entries[..n], recursive);
      var tail := if last.DirectoryEntry? then
          if recursive then CollectSpec(JoinPath(dir, last.name), last.children, recursive) else []
        else EntryFiles(dir, last);
      if last.DirectoryEntry? {
        if recursive {
          CollectedFilesPassFilter(JoinPath(dir, last.name), last.children, recursive);
        }
      } else if last.FileEntry? && IsSupportedImageFile(last.name) {
        AfterLastAfterSeparator(dir, '/', last.name);
        assert JoinPath(dir, last.name) == dir + ['/'] + last.name;
      }
      AllPassFilterAppend(CollectSpec(dir, entries[..n], recursive), tail);
    }
  }

  /** A listing entry that the non-recursive scan keeps. */
  predicate KeptFile(e: Entry) {
    e.FileEntry? && '/' !in e.name && IsSupportedImageFile(e.name)
  }

  /** Without `--recursive`, each entry of the listing gives at most one file. */
  lemma {:induction false} NonRecursiveScanBound(dir: string, entries: seq<Entry>)
    requires PlainNames(entries)
    ensures |CollectSpec(dir, entries, false)| <= |entries|
  {
    if entries != [] {
      var n := |entries| - 1;
      CollectSpecStep(dir, entries, false, n);
      assert entries[..n + 1] == entries;
      NonRecursiveScanBound(dir, entries[..n]);
    }
  }

  /** `path` is `dir` joined with a supported file listed directly in `entries`. */
  predicate ListedFile(dir: string, entries: seq<Entry>, path: string) {
    exists i :: 0 <= i < |entries| && KeptFile(entries[i]) && path == JoinPath(dir, entries[i].name)
  }

  /** A file listed in a prefix of the listing is listed in the listing. */
  lemma ListedInPrefix(dir: string, entries: seq<Entry>, n: nat, path: string)
    requires n <= |entries| && ListedFile(dir, entries[..n], path)
    ensures ListedFile(dir, entries, path)
  {
    var i :| 0 <= i < n && KeptFile(entries[..n][i]) && path == JoinPath(dir, entries[..n][i].name);
    assert entries[..n][i] == entries[i];
  }

  /** Without `--recursive`, only the supported files directly in the directory are collected. */
  lemma {:induction false} NonRecursiveScanIsTopLevel(dir: string, entries: seq<Entry>)
    requires PlainNames(entries)
    ensures var files := CollectSpec(dir, entries, false);
      forall k :: 0 <= k < |files| ==> ListedFile(dir, entries, files[k])
  {
    if entries != [] {
      var n := |entries| - 1;
      CollectSpecStep(dir, entries, false, n);
      assert entries[..n + 1] == entries;
      NonRecursiveScanIsTopLevel(dir, entries[..n]);
      var files := CollectSpec(dir, entries, false);
      var before := CollectSpec(dir, entries[..n], false);
      forall k | 0 <= k < |files|
        ensures ListedFile(dir, entries, files[k])
      {
        if k < |before| {
          assert files[k] == before[k];
          ListedInPrefix(dir, entries, n, files[k]);
        } else {
          assert KeptFile(entries[n]) && files[k] == JoinPath(dir, entries[n].name);
        }
      }
    }
  }

  // ---------------------------------------------------------------------------
  // The batch call and the saved total
  // ---------------------------------------------------------------------------

  /** The options object the handler passes to the batch; `stopOnError` is not among them. */
  function CliBatchOptions(quality: int, lossless: bool, preserveMetadata: bool, compression: string,
                           resize: Option<Value>): (v: Value)
    ensures v.Obj? && "stopOnError" !in v.fields
    ensures Get(v.fields, "onProgress") == Other(FunctionValue)
    ensures Get(v.fields, "quality") == Num(quality as real)
  {
    var base := map[
      "quality" := Num(quality as real),
      "lossless" := Bool(lossless),
      "preserveMetadata" := Bool(preserveMetadata),
      "method" := Str(compression)];
    var withResize := if resize.Some? then base["resize" := resize.value] else base;
    Obj(withResize["onProgress" := Other(FunctionValue)])
  }

  /** Every file is a path input. */
  function PathInputs(files: seq<string>): (inputs: seq<NodeInput>)
    ensures |inputs| == |files|
    ensures forall i :: 0 <= i < |files| ==> inputs[i] == PathInput(files[i])
  {
    seq(|files|, i requires 0 <= i < |files| => PathInput(files[i]))
  }

  /**
   * `results[i]` belongs to `files[i]`: without `stopOnError` the batch
   * returns one item per file, in order, each named after its file.
   */
  lemma ResultsPairWithFiles(files: seq<string>, options: Value, convert: Batch.SingleConverter)
    requires options.Obj? && "stopOnError" !in options.fields
    ensures !Batch.StopOnError(options)
    ensures var run := Batch.BatchSpec(PathInputs(files), options, convert);
      && run.outcome.Returned?
      && |run.outcome.items| == |files|
      && forall i :: 0 <= i < |files| ==> run.outcome.items[i].file == files[i]
  {
    Batch.CollectAllOneItemPerInput(PathInputs(files), options, convert);
  }

  /** The progress callback prints a line when `--verbose` is set or the status is not pending. */
  predicate PrintsProgress(verbose: bool, p: BatchProgress) {
    verbose || p.status != Pending
  }

  /** The batch never reports `pending`, so every progress event is printed, verbose or not. */
  lemma EveryProgressEventPrinted(files: seq<string>, options: Value, convert: Batch.SingleConverter, verbose: bool)
    requires options.Obj?
    ensures var events := Batch.BatchSpec(PathInputs(files), options, convert).events;
      forall k :: 0 <= k < |events| ==> PrintsProgress(verbose, events[k])
  {
    var inputs := PathInputs(files);
    var outs := Batch.Outcomes(inputs, convert, Batch.ConvertOptionsOf(options));
    var failure := Batch.FirstFailure(outs);
    if Batch.StopOnError(options) && failure.Some? {
      Batch.EventsMonotoneNeverPending(inputs, outs, failure.value + 1);
    } else {
      Batch.EventsMonotoneNeverPending(inputs, outs, |inputs|);
    }
  }

  /** Whether an item is written out and counted: `r.success && r.result`. */
  predicate Written(r: BatchResultItem) {
    r.success && r.result.Some?
  }

  /** What one item adds to `saved`. */
  function Contribution(r: BatchResultItem): int {
    if Written(r) then r.result.value.originalSize - r.result.value.convertedSize else 0
  }

  /** The `saved` total over the items, in order. */
  function SavedSpec(results: seq<BatchResultItem>): int {
    if results == [] then 0 else SavedSpec(results[..|results| - 1]) + Contribution(results[|results| - 1])
  }

  /** The positions whose item is written, in increasing order. */
  function WrittenIndices(results: seq<BatchResultItem>): (ws: seq<nat>)
    ensures forall i :: 0 <= i < |results| ==> (i in ws <==> Written(results[i]))
    ensures forall j :: 0 <= j < |ws| ==> ws[j] < |results|
    ensures forall j, k :: 0 <= j < k < |ws| ==> ws[j] < ws[k]
  {
    if results == [] then []
    else
      var prefix := results[..|results| - 1];
      var before := WrittenIndices(prefix);
      assert forall i :: 0 <= i < |prefix| ==> results[i] == prefix[i];
      if Written(results[|results| - 1]) then before + [|results| - 1] else before
  }

  /** The `forEach` of the handler: the positions written out and the bytes saved. */
  method TotalSaved(results: seq<BatchResultItem>) returns (saved: int, written: seq<nat>)
    ensures saved == SavedSpec(results)
    ensures written == WrittenIndices(results)
  {
    saved := 0;
    written := [];
    for i := 0 to |results|
      invariant saved == SavedSpec(results[..i])
      invariant written == WrittenIndices(results[..i])
    {
      var r := results[i];
      assert results[..i + 1][..i] == results[..i];
      if r.success && r.result.Some? {
        written := written + [i];
        saved := saved + (r.result.value.originalSize - r.result.value.convertedSize);
      }
    }
    assert results[..|results|] == results;
  }

  /** The total over two runs of items is the sum of their totals. */
  lemma {:induction false} SavedSpecAppend(a: seq<BatchResultItem>, b: seq<BatchResultItem>)
    ensures SavedSpec(a + b) == SavedSpec(a) + SavedSpec(b)
  {
    if b != [] {
      SavedSpecAppend(a, b[..|b| - 1]);
      assert (a + b)[..|a + b| - 1] == a + b[..|b| - 1];
    } else {
      assert a + b == a;
    }
  }

  /** Failed items are neither written nor counted. */
  lemma {:induction false} FailuresCountNothing(results: seq<BatchResultItem>)
    requires forall i :: 0 <= i < |results| ==> !results[i].success
    ensures SavedSpec(results) == 0 && WrittenIndices(results) == []
  {
    if results != [] {
      FailuresCountNothing(results[..|results| - 1]);
    }
  }

  /** For well-formed results, each written item saves its original size less its encoded length. */
  lemma ContributionOfResult(r: BatchResultItem)
    requires Written(r) && WellFormedResult(r.result.value)
    ensures Contribution(r) == r.result.value.originalSize - |r.result.value.data|
  {
  }
}
