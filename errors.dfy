/**
 * The converter's error taxonomy. The source's class hierarchy (a base
 * class carrying a machine-readable code, five subclasses with their own
 * payloads) becomes one datatype with a constructor per class; every
 * value of it is an `Error`, and every constructor except `PlainError`
 * is a `WebPConverterError`.
 */
module Errors {
  import opened Common
  import opened Values

  datatype Error =
      /** An `Error` that does not come from this library (the host's, or `new Error(text)`); `errno` is its `.code`, if any. */
    | PlainError(plainMessage: string, errno: Option<string>)
      /** `new WebPConverterError(message, code)`. */
    | ConverterBase(baseMessage: string, baseCode: string)
    | InvalidInput(inputMessage: string, receivedType: string)
    | UnsupportedFormat(format: string, supportedFormats: seq<string>)
    | FileNotFound(filePath: string)
    | InvalidOptions(option: string, value: Value, expectedType: string)
    | Conversion(conversionMessage: string, originalError: Option<Error>)

  /** What a `catch` clause receives: an `Error`, or any other thrown value (carried as its `String(v)` text). */
  datatype Thrown = ThrownError(error: Error) | ThrownValue(text: string)

  const InvalidInputCode := "INVALID_INPUT"
  const UnsupportedFormatCode := "UNSUPPORTED_FORMAT"
  const FileNotFoundCode := "FILE_NOT_FOUND"
  const InvalidOptionsCode := "INVALID_OPTIONS"
  const ConversionFailedCode := "CONVERSION_FAILED"

  /** `instanceof WebPConverterError`. */
  predicate IsConverterError(e: Error) {
    !e.PlainError?
  }

  /** The `code` property. */
  function Code(e: Error): Option<string> {
    match e
    case PlainError(_, errno) => errno
    case ConverterBase(_, code) => Some(code)
    case InvalidInput(_, _) => Some(InvalidInputCode)
    case UnsupportedFormat(_, _) => Some(UnsupportedFormatCode)
    case FileNotFound(_) => Some(FileNotFoundCode)
    case InvalidOptions(_, _, _) => Some(InvalidOptionsCode)
    case Conversion(_, _) => Some(ConversionFailedCode)
  }

  /** The `name` property each constructor sets. */
  function Name(e: Error): string {
    match e
    case PlainError(_, _) => "Error"
    case ConverterBase(_, _) => "WebPConverterError"
    case InvalidInput(_, _) => "InvalidInputError"
    case UnsupportedFormat(_, _) => "UnsupportedFormatError"
    case FileNotFound(_) => "FileNotFoundError"
    case InvalidOptions(_, _, _) => "InvalidOptionsError"
    case Conversion(_, _) => "ConversionError"
  }

  /** The `message` property each constructor builds. */
  function Message(e: Error): string {
    match e
    case PlainError(m, _) => m
    case ConverterBase(m, _) => m
    case InvalidInput(m, _) => m
    case UnsupportedFormat(f, list) =>
      "Unsupported format: " + f + ". Supported formats: " + Join(list, ", ")
    case FileNotFound(p) => "File not found: " + p
    case InvalidOptions(option, value, expected) =>
      "Invalid option \"" + option + "\": expected " + expected + ", received " + TypeOf(value)
    case Conversion(m, _) => m
  }

  /** `error instanceof Error ? error.message : "Unknown error"`. */
  function ThrownMessage(t: Thrown): string {
    match t
    case ThrownError(e) => Message(e)
    case ThrownValue(_) => "Unknown error"
  }

  /** `error instanceof Error ? error : new Error(String(error))`. */
  function AsError(t: Thrown): (e: Error)
    ensures t.ThrownError? ==> e == t.error
    ensures t.ThrownValue? ==> e.PlainError? && Message(e) == t.text && Code(e) == None
  {
    match t
    case ThrownError(e) => e
    case ThrownValue(text) => PlainError(text, None)
  }

  /** The five subclasses, one enumerant each. */
  datatype Kind = InvalidInputKind | UnsupportedFormatKind | FileNotFoundKind | InvalidOptionsKind | ConversionKind

  /** Errors built by one of the five subclass constructors. */
  predicate IsSubclassError(e: Error) {
    !e.PlainError? && !e.ConverterBase?
  }

  function KindOf(e: Error): Kind
    requires IsSubclassError(e)
  {
    match e
    case InvalidInput(_, _) => InvalidInputKind
    case UnsupportedFormat(_, _) => UnsupportedFormatKind
    case FileNotFound(_) => FileNotFoundKind
    case InvalidOptions(_, _, _) => InvalidOptionsKind
    case Conversion(_, _) => ConversionKind
  }

  /** Reading a machine-readable code back as the subclass that sets it. */
  function KindOfCode(code: string): Option<Kind> {
    if code == InvalidInputCode then Some(InvalidInputKind)
    else if code == UnsupportedFormatCode then Some(UnsupportedFormatKind)
    else if code == FileNotFoundCode then Some(FileNotFoundKind)
    else if code == InvalidOptionsCode then Some(InvalidOptionsKind)
    else if code == ConversionFailedCode then Some(ConversionKind)
    else None
  }

  /** Every library error carries a code, and a subclass's code identifies the subclass. */
  lemma CodeIdentifiesKind(e: Error)
    ensures IsConverterError(e) ==> Code(e).Some?
    ensures IsSubclassError(e) ==> KindOfCode(Code(e).value) == Some(KindOf(e))
  {
  }

  /** Two subclass errors have the same code exactly when they come from the same subclass. */
  lemma SameCodeSameKind(e1: Error, e2: Error)
    requires IsSubclassError(e1) && IsSubclassError(e2)
    ensures Code(e1) == Code(e2) <==> KindOf(e1) == KindOf(e2)
  {
    CodeIdentifiesKind(e1);
    CodeIdentifiesKind(e2);
  }

  /** The base class keeps whatever code it is given. */
  lemma BaseKeepsCode(message: string, code: string)
    ensures Code(ConverterBase(message, code)) == Some(code)
    ensures IsConverterError(ConverterBase(message, code))
    ensures Message(ConverterBase(message, code)) == message
  {
  }

  /** A file-not-found message names the path after a fixed prefix, so the path can be read back from it. */
  lemma FileNotFoundMessageNamesPath(p: string)
    ensures |Message(FileNotFound(p))| == 16 + |p|
    ensures Message(FileNotFound(p))[..16] == "File not found: "
    ensures Message(FileNotFound(p))[16..] == p
  {
  }

  /** An invalid-option message depends on the value only through its `typeof`. */
  lemma InvalidOptionsMessageReportsTypeOnly(option: string, v1: Value, v2: Value, expected: string)
    requires TypeOf(v1) == TypeOf(v2)
    ensures Message(InvalidOptions(option, v1, expected)) == Message(InvalidOptions(option, v2, expected))
  {
  }

  /** The message of tests/errors.test.ts's unsupported-format error joins the list with ", ". */
  lemma UnsupportedFormatMessageExample()
    ensures Message(UnsupportedFormat("pdf", ["png", "jpg"]))
         == "Unsupported format: pdf. Supported formats: png, jpg"
  {
    var list: seq<string> := ["png", "jpg"];
    assert list[1..] == ["jpg"];
    assert Join(list, ", ") == "png" + ", " + "jpg";
    ExampleMessagePieces();
  }

  lemma ExampleMessagePieces()
    ensures "png" + ", " + "jpg" == "png, jpg"
    ensures "Unsupported format: " + "pdf" + ". Supported formats: " + "png, jpg"
         == "Unsupported format: pdf. Supported formats: png, jpg"
  {
  }
}
