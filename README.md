# webp-converter, modelled in Dafny

This project models the logic of the `webp-converter` library and its
command-line front end. It leaves out the pixel encoding, which the
library hands to sharp (Node) or to the browser canvas.

The model proves properties of these parts:

- **Batch orchestrator.** Converts inputs one after another, reports progress
  and can stop at the first failure.
- **Image sniffer** (Node). Reads magic bytes and applies a 12-byte minimum.
- **Image sniffer** (browser). A looser 2-byte version.
- **Option validators.** Check dynamically typed option objects.
- **Extension-based format lookup.**
- **Node conversion contract.** Validate, then normalise the input, then encode,
  and assemble the result metrics.
- **Option layering** of `createConverter`.
- **Browser target-size rule** for cover, contain and single-axis resizes.
- **Input normalisation and output naming.**
- **Error taxonomy.**
- **CLI helpers.** Base-10 `parseInt`, `--resize` parsing, the quality gate, the
  directory scan with its extension filter, and the bytes-saved total.

The modules follow the source files:

- `Common`: Option/Result, bytes, digit strings, ASCII lower-casing, `split`/`join`
- `Values`: JavaScript values: `typeof`, truthiness, `??`, property lookup
- `Errors`: `src/errors.ts`
- `Types`: `src/types.ts`
- `Validation`: `src/utils/validation.ts`
- `FileUtil`: `src/utils/file.ts`
- `Validate`: `src/validate.ts`
- `Converter`: `src/converter.ts`
- `Browser`: `src/browser.ts`
- `Batch`: `src/batch.ts`
- `Cli`: `src/cli.ts`

Option objects are their own datatype, `Values.Value`: `undefined`, `null`,
a boolean, a number (a Dafny `real`), a string, an object (a map from
property names) or another primitive kind. The validators run over this
type exactly as the source's `typeof` checks do: by type and by truthiness.

Three things the core depends on become parameters:

- **The file system** is a value pairing a path resolver with a map from
  absolute paths to what is there: a regular file with its bytes, or
  something that exists and has a stat size but that `readFile` rejects
  (a directory, EISDIR, or a file the process may not read, EACCES), with
  the host's own error.
- **The sharp encoder** is a function from bytes and the derived sharp
  arguments to encoded bytes and a size, or an error.
- **A browser `Blob`** is its `size` and what `arrayBuffer()` resolves or
  rejects with; when the read succeeds, the size is the number of bytes
  (`Types.SizedBlob`).
- **The browser host** supplies the image loader, the 2-D context check and
  `toBlob`.

In the batch loop, the per-item converter is a parameter too. The calls to
`onProgress` are returned as an event log.

## Model

| member | source | states |
|---|---|---|
| `Values.TypeOf` | src/utils/validation.ts:23 | `typeof` is "object" exactly for null and objects, "number" exactly for numbers, "boolean" exactly for booleans, "undefined" exactly for undefined |
| `Values.Coalesce` | src/converter.ts:29-30 | `v ?? d` is `d` for null or undefined and `v` otherwise |
| `Values.Get` | src/utils/validation.ts:51 | a missing property reads as undefined; a present one reads as its value |
| `Values.OwnProps` | src/converter.ts:14 | spreading an object copies its properties; spreading null or undefined copies none |
| `Errors.AsError` | src/batch.ts:29 | a thrown Error is kept as it is; any other thrown value becomes a plain Error whose message is its string form and which has no code |
| `Errors.CodeIdentifiesKind` | src/errors.ts:4-13 | every library error has a code, and each subclass's code maps back to that subclass |
| `Errors.SameCodeSameKind` | src/errors.ts:18-86 | two subclass errors share a code exactly when they come from the same subclass |
| `Errors.BaseKeepsCode` | src/errors.ts:4-13 | the base error keeps the code and message it is given and counts as a library error |
| `Errors.FileNotFoundMessageNamesPath` | src/errors.ts:46-54 | the message is the fixed prefix "File not found: " followed by the path, so the path can be read back from it |
| `Errors.InvalidOptionsMessageReportsTypeOnly` | src/errors.ts:59-71 | two values with the same `typeof` give the same invalid-option message |
| `Errors.UnsupportedFormatMessageExample` | src/errors.ts:31-41 | the supported list is joined with ", " into the message |
| `Types.ParseFormat` | src/types.ts:4-11 | a parsed format name renders back as the same string |
| `Types.ParseFormatName` | src/types.ts:4-11 | every input format's name parses back to that format |
| `Types.ParseFit` | src/types.ts:16 | a parsed fit name renders back as the same string |
| `Types.ParseFitName` | src/types.ts:16 | every fit mode's name parses back to that mode |
| `Types.ParseMethod` | src/types.ts:21 | a parsed method name renders back as the same string |
| `Types.ParseMethodName` | src/types.ts:21 | every compression method's name parses back to that method |
| `Types.CompressionRatio` | src/converter.ts:61 | the ratio is finite exactly when the original is non-empty, and then ratio × originalSize = originalSize − convertedSize |
| `Types.MakeResult` | src/converter.ts:57-65 | the assembled result is well formed (convertedSize is the data length, the ratio follows from the two sizes, format is "webp") and keeps the given data, original size and dimensions |
| `Validation.ValidateQuality` | src/utils/validation.ts:22-40 | no error exactly for an integral number in 1..100; any error is an invalid-option error for "quality" that carries the value |
| `Validation.QualityAcceptsExactlyOneToHundred` | src/utils/validation.ts:33-39 | an integer quality passes exactly when it lies in 1..100 |
| `Validation.QualityExpectedDescriptions` | src/utils/validation.ts:23-39 | a non-number gives "number"; a non-integer gives "integer between 1 and 100"; an integer out of range gives "number between 1 and 100" |
| `Validation.ValidateResizeOptions` | src/utils/validation.ts:42-81 | no error exactly when the width and height are each absent or a positive number and the fit is absent or one of the five modes; a non-object (null included) fails as "resize"; every other error names a resize field |
| `Validation.ResizeCheckOrder` | src/utils/validation.ts:51-80 | width is checked first, then height, then fit; the first bad field is the one reported, with "positive number" expected for width and height |
| `Validation.ResizeExamples` | src/utils/validation.ts:42-81 | a width alone, or width, height and fit together, are accepted; a string and a negative width are rejected |
| `Validation.ValidateConvertOptions` | src/utils/validation.ts:83-119 | no error exactly when the options are null or undefined, or an object whose five known fields are all acceptable; any other non-object fails as "options" |
| `Validation.FirstViolationRaised` | src/utils/validation.ts:94-118 | when the first bad field, in the order quality, lossless, resize, preserveMetadata, method, is field i, the error raised belongs to field i |
| `Validation.UnknownKeysIgnored` | src/utils/validation.ts:92-118 | adding or changing a key other than the five fields does not change the outcome |
| `Validation.SameFieldsSameVerdict` | src/utils/validation.ts:92-118 | two options objects that agree on the five option fields get the same verdict |
| `Validation.SingleBadFieldRejected` | src/utils/validation.ts:92-118 | an object whose only key is an option field holding a value that field refuses is rejected |
| `Validation.SupportedFormatsAreInputFormats` | src/utils/validation.ts:9-17 | the supported list holds exactly the names of the seven input formats |
| `Validation.ValidFitsAreResizeFits` | src/utils/validation.ts:72 | the accepted fit list holds exactly the names of the resize fit modes |
| `Validation.ValidMethodsAreCompressionMethods` | src/utils/validation.ts:110 | the accepted method list holds exactly the names of the compression methods |
| `Validation.DetectFormatFromExtension` | src/utils/validation.ts:121-130 | the result is the format named by the lower-cased text after the last ".", and is absent exactly when that text is not a supported name |
| `Validation.DetectFormatFromExtensionIgnoresCase` | src/utils/validation.ts:124 | lower-casing the file name first does not change the result |
| `Validation.DetectFormatFromExtensionWithoutDot` | src/utils/validation.ts:124-128 | a name without a dot is looked up whole |
| `Validation.DetectFormatFromExtensionExamples` | src/utils/validation.ts:121-130 | "image.png" gives png and "photo.JPG" gives jpg |
| `Validation.UnknownExtensionExample` | src/utils/validation.ts:121-130 | "doc.pdf" gives no format |
| `Validation.DetectFormatIsParse` | src/utils/validation.ts:124-129 | the lookup is the format parse of the lower-cased last piece: it accepts exactly the supported names |
| `Validation.ExtensionLookup` | src/utils/validation.ts:124-128 | for a name `stem.ext` whose extension has no dot, the result is the format named by the lower-cased extension |
| `Validation.CreateValidationResult` | src/utils/validation.ts:132-139 | validity is as given and no metadata is set; a valid result drops the error; an invalid one carries exactly the given error |
| `FileUtil.GetFileSize` | src/utils/file.ts:12-15 | fails exactly when nothing exists at the path, with a file-not-found error for the path as given; otherwise returns the stat size, which for a regular file is the length of its contents |
| `FileUtil.ReadFileAsBuffer` | src/utils/file.ts:25-29 | a missing path fails with file-not-found under its absolute path; the read succeeds exactly on a regular file and yields its contents; a directory or unreadable file passes the existence check and fails with the host's read error |
| `FileUtil.ReadAndSizeAgree` | src/utils/file.ts:12-29 | when resolving is stable, everything readable has a size equal to the length read; a path is missing for both or for neither, each naming it its own way; something that exists but cannot be read still has a size while the read fails with the host's error |
| `FileUtil.NormalizeInput` | src/utils/file.ts:31-38 | a buffer is returned unchanged; a path is read as `readFileAsBuffer` reads it; any other input fails with an invalid-input error carrying its `typeof` |
| `FileUtil.NormalizeInputErrors` | src/utils/file.ts:31-38 | normalisation fails only with file-not-found (for a path that names nothing), invalid-input (for other values), or the host's read error of the path's entry |
| `FileUtil.StripExtension` | src/utils/file.ts:45 | a name with no dot, or nothing after its last dot, is kept whole; otherwise the base followed by "." and the last piece rebuilds the name, so exactly the final dot and the non-empty, dot-free text after it are removed |
| `FileUtil.LastExtensionSplit` | src/utils/file.ts:45 | a dotless name is its own last piece; otherwise it is the text before the last dot, the dot and the last piece |
| `FileUtil.GenerateOutputFilename` | src/utils/file.ts:40-48 | the output name always ends in ".webp" |
| `FileUtil.OutputFilenameWithoutDirectory` | src/utils/file.ts:44-47 | without an output directory, the name contains no "/" |
| `FileUtil.OutputFilenameWithDirectory` | src/utils/file.ts:47 | with an output directory, the result is the directory, "/" and the bare name |
| `FileUtil.OutputFilenameReplacesLastExtension` | src/utils/file.ts:44-46 | for a plain `stem.ext`, only the last extension is replaced by ".webp" |
| `FileUtil.StripLastExtension` | src/utils/file.ts:45 | stripping `stem.ext` with a non-empty, dot-free extension leaves the stem, earlier dots included |
| `FileUtil.OutputFilenameOfPath` | src/utils/file.ts:44-46 | for a path `dir/stem.ext`, the output name is the last segment with its last extension replaced: `stem.webp` |
| `FileUtil.DoubleExtensionExample` | src/utils/file.ts:45 | "a.tar.gz" becomes "a.tar.webp" |
| `Validate.Slice` | src/validate.ts:19 | `buffer.slice(start, end)` clamped to the buffer: the bytes from start to end when both are in range, from start to the end of the buffer when only start is, and nothing otherwise |
| `Validate.AsciiDecode` | src/validate.ts:19 | Node's ascii decoding keeps the length and maps each byte to its low seven bits |
| `Validate.DetectFrom` | src/validate.ts:16-25 | no format exactly when no entry accepts the buffer; otherwise the format of the first accepting entry |
| `Validate.FirstBytesDistinct` | src/validate.ts:8-14 | the signatures' first bytes are pairwise distinct |
| `Validate.AcceptingEntryUnique` | src/validate.ts:8-20 | at most one signature accepts a given buffer |
| `Validate.DetectFormatIsTheAcceptingEntry` | src/validate.ts:16-25 | if some signature accepts the buffer, the detected format is that signature's |
| `Validate.DetectFormatOrderIndependent` | src/validate.ts:8-25 | searching the table in any permuted order gives the same answer |
| `Validate.RiffWithoutMarkerUndetected` | src/validate.ts:12-20 | a RIFF prefix without "WEBP" at bytes 8-11 is reported as no format |
| `Validate.RiffWithMarkerIsWebp` | src/validate.ts:12-21 | a RIFF prefix with the "WEBP" marker is webp |
| `Validate.HighBitMarkerIsWebp` | src/validate.ts:19 | because ascii decoding drops the high bit, "WEBP" with every high bit set also passes |
| `Validate.PngAndJpegDetected` | src/validate.ts:9-10 | the PNG and JPEG prefixes are detected as such |
| `Validate.TiffNeverDetected` | src/validate.ts:8-14 | "tiff" is a supported name, yet no buffer is ever detected as tiff |
| `Validate.ValidateImage` | src/validate.ts:27-52 | valid exactly when normalisation succeeds, the buffer has at least 12 bytes and a format is detected; a valid result carries no error or metadata; a normalisation error becomes its message; a short buffer gets the too-small message; an undetected buffer gets the unsupported-format message listing the supported formats |
| `Converter.MergeOptions` | src/converter.ts:6-15 | the merged keys are the defaults' and the caller's; a caller's key wins, an explicit undefined included; the others keep their defaults |
| `Converter.Effort` | src/converter.ts:37 | fast gives 1, best gives 6, anything else gives 4 |
| `Converter.EffortPerMethod` | src/converter.ts:10-37 | effort per compression method, and 4 for the default method |
| `Converter.ResizeArgs` | src/converter.ts:25-31 | width and height are passed unchanged; fit defaults to "cover" when nullish; enlargement is forbidden unless allowUpscale is truthy |
| `Converter.SharpArgsOf` | src/converter.ts:25-38 | the resize step exists exactly when the merged resize is defined; quality and lossless come from the merged options; effort follows the method |
| `Converter.DefaultArguments` | src/converter.ts:6-38 | with no options, sharp gets no resize, quality 80, lossless false and effort 4 |
| `Converter.ExplicitUndefinedOverridesDefault` | src/converter.ts:14 | `{quality: undefined}` overrides the default quality with undefined |
| `Converter.WithoutEnlargementUnlessUpscale` | src/converter.ts:30 | enlargement is forbidden exactly when allowUpscale is falsy, and by default |
| `Converter.WrapEncoderFailure` | src/converter.ts:42-47 | every encoder failure becomes a conversion error whose original error is the cause; a MODULE_NOT_FOUND cause gets the "Sharp is required" message, and any other cause gets "Conversion failed: " plus its message |
| `Converter.ConvertToWebP` | src/converter.ts:50-66 | option errors come first, then normalisation errors; failures are only invalid-options, file-not-found, invalid-input, conversion errors or the host's error for an unreadable path; a success is the encoder's output on the normalised bytes and derived arguments, well formed; and valid options, a readable input and an encoded image always give that success |
| `Converter.MissingFileRejected` | src/converter.ts:51-53 | with valid options, a path that does not resolve to a file fails with file-not-found for the resolved path |
| `Converter.UnreadablePathRejected` | src/converter.ts:50-53 | a path to a directory or unreadable file fails with the host's read error unchanged, which is not a library error |
| `Converter.EncoderFailuresWrapped` | src/converter.ts:42-55 | when the encoder fails, the conversion fails with the wrapped error of that cause |
| `Converter.ResultMetrics` | src/converter.ts:54-64 | original size is the input length, converted size is the output length, format is webp, and the ratio times the original size is the bytes saved |
| `Converter.InvalidOptionsExamples` | src/converter.ts:51 | quality 150, quality 80.5 and width −100 are rejected as invalid options whatever the input |
| `Converter.CreateConverter` | src/converter.ts:68-69 | with no defaults the base options are empty; otherwise they are the given object's properties |
| `Converter.LayeredOptions` | src/converter.ts:71 | per-call keys override the base options; other base keys are kept |
| `Converter.OptionLayering` | src/converter.ts:13-71 | after merging, a key takes the per-call value, else the base value, else the library default |
| `Converter.EmptyConverterIsPlainCall` | src/converter.ts:68-71 | a converter made without defaults, called without options, behaves like a plain call |
| `Converter.CreateConverterExample` | src/converter.ts:72 | a converter made with `{quality: 90}` returns exactly that from `getDefaultOptions`; one made without defaults returns `{}` |
| `Browser.MathRound` | src/browser.ts:29-35 | `Math.round` lands within one half of its argument (half-up) |
| `Browser.FitRatio` | src/browser.ts:25-28 | contain takes the smaller of the two scale factors; every other fit takes the larger |
| `Browser.Rounded` | src/browser.ts:29-35 | a rounded scaled side is within one half of the exact product |
| `Browser.NoResizeKeepsSize` | src/browser.ts:19-38 | with no resize, or with neither width nor height, the target is the source size |
| `Browser.ContainFitsInsideBox` | src/browser.ts:24-30 | with both sides and fit contain, neither target side exceeds its box side by more than one half, and at least one side comes within one half of its box side |
| `Browser.ContainArithmetic` | src/browser.ts:24-30 | scaling both sides by the smaller of the two ratios and rounding stays within one half of the box on both sides and meets it on one |
| `Browser.OtherFitsCoverBox` | src/browser.ts:24-30 | with both sides and any other fit, neither target side falls short of its box side by more than one half, and at least one side comes within one half of its box side |
| `Browser.CoverArithmetic` | src/browser.ts:24-30 | scaling both sides by the larger of the two ratios and rounding reaches the box on both sides, up to one half, and meets it on one |
| `Browser.OtherFitsAreCover` | src/browser.ts:25-28 | fill, inside, outside and cover all give the same target size |
| `Browser.WidthOnlyKeepsAspect` | src/browser.ts:31-33 | with only a width, the target width is exactly that width and the height is the aspect-preserving height rounded |
| `Browser.HeightOnlyKeepsAspect` | src/browser.ts:34-37 | with only a height, the target height is exactly that height and the width is the aspect-preserving width rounded |
| `Browser.AllowUpscaleIgnored` | src/browser.ts:23 | allowUpscale never changes the target size |
| `Browser.CanvasQuality` | src/browser.ts:53 | the canvas quality is 0.8 when no quality is given, and between 0.01 and 1 for every valid quality |
| `Browser.CanvasQualityScaled` | src/browser.ts:53 | an integer quality k becomes k/100 |
| `Browser.CanvasConvert` | src/browser.ts:9-62 | the object URL is created first and revoked next, in both callbacks, before any canvas call; a failed load makes no canvas call; a loaded image asks for a context, and with one asks `toBlob` for the target size and quality; the result succeeds exactly when load, context and `toBlob` all succeed and is then the blob at the target size with the input's size as the original size |
| `Browser.CanvasFailureMessages` | src/browser.ts:44-60 | a load failure, a missing context and a null blob each reject with a conversion error carrying their own message and no cause; every canvas failure is a conversion error with one of the three host messages |
| `Browser.ConvertToWebP` | src/browser.ts:65-82 | a non-Blob input fails with invalid-input, before options are checked; option errors come next; a failed read is passed through with no URL made; otherwise the canvas conversion decides, with the input's size as the original size; every URL made is revoked before the canvas is used; a success is well formed and its original size is the Blob's size, which is the number of bytes read |
| `Browser.BrowserSuccessIsCanvasOutput` | src/browser.ts:17-79 | for a readable blob under valid options, the conversion succeeds exactly when the image loads, a context exists and `toBlob` yields a blob; the result's data is that blob and its width and height are `TargetDimensions` of the loaded size |
| `Browser.ValidateImage` | src/browser.ts:84-96 | for readable data, valid exactly when the first two bytes are 89 50, FF D8, 47 49 or 52 49; an invalid result says "Unsupported image format"; a failed read becomes an invalid result with the error's message |
| `Browser.NodeDetectionImpliesBrowserValid` | src/browser.ts:87-91 | every format the Node sniffer detects except bmp passes the browser check |
| `Browser.KnownPrefixLeadByte` | src/browser.ts:87-91 | data the browser check accepts starts with byte 89, FF, 47 or 52 |
| `Browser.BrowserAndNodeDisagree` | src/browser.ts:87-91 | a RIFF "AVI " file passes the browser check but not the Node sniffer; a BMP file passes the Node sniffer but not the browser check |
| `Batch.ConvertOptionsOf` | src/batch.ts:8 | the per-item options are the caller's properties minus onProgress and stopOnError |
| `Batch.ItemFile` | src/batch.ts:14 | a path names itself; any other input at position i is named "buffer-i" |
| `Batch.ItemFor` | src/batch.ts:19-30 | a success item carries the result and no error; a failure item carries the error, with non-Error values wrapped |
| `Batch.Outcomes` | src/batch.ts:13-18 | the converter is applied to every input with the same per-item options |
| `Batch.Items` | src/batch.ts:13-32 | the first n items are the items of the first n inputs, in order |
| `Batch.FirstFailure` | src/batch.ts:22-25 | the first failed position: none exactly when every conversion succeeds; otherwise failed, with every earlier conversion succeeded |
| `Batch.BatchConvert` | src/batch.ts:4-35 | the loop's outcome and observer log are those of the batch specification: every item in order, or a rethrow of the first failure when stopOnError is set |
| `Batch.EventsShape` | src/batch.ts:14-24 | each reached item emits two events: processing with current = i, then completed or failed with current = i + 1; total is the input count and the file is the item's name |
| `Batch.EventAt` | src/batch.ts:14-24 | the record at position k belongs to input k / 2: its processing record when k is even, its completed or failed record when k is odd |
| `Batch.LoopStep` | src/batch.ts:13-32 | one more input adds exactly its item and its two records |
| `Batch.EventsMonotoneNeverPending` | src/batch.ts:14-24 | no event is pending, every total is the input count, and current never decreases |
| `Batch.CollectAllOneItemPerInput` | src/batch.ts:13-34 | without stopOnError the batch returns one item per input, in order, named after its input, succeeding exactly when its conversion did; an observer sees two events per input |
| `Batch.FailFastRethrowsFirstFailure` | src/batch.ts:23-25 | with stopOnError, the first failure is rethrown unchanged right after its failed event, and no later input is reported |
| `Batch.StopOnErrorWithoutFailure` | src/batch.ts:25 | when no conversion fails, the batch returns and every item is a success, whether or not stopOnError is set |
| `Batch.EmptyBatch` | src/batch.ts:13-34 | an empty batch returns no items and emits no events |
| `Batch.BufferNamesDistinct` | src/batch.ts:14 | non-path inputs at different positions get different names |
| `Batch.MixedInputNames` | src/batch.ts:14 | a path keeps its name; buffers at positions 1 and 2 become "buffer-1" and "buffer-2" |
| `Batch.BatchKeysInvisibleToValidation` | src/batch.ts:8 | removing the batch-only keys does not change option validation, and concurrency is passed through |
| `Batch.InvalidOptionsFailEveryItem` | src/batch.ts:17-30 | with the Node converter and invalid options, the batch returns and every item fails with that option error |
| `Cli.TrimStartDropsOnlyWhitespace` | src/cli.ts:86 | `parseInt` skips a leading run of white space and stops at the first other character |
| `Cli.LeadingDigitsLongest` | src/cli.ts:86 | the digits read are the longest digit prefix |
| `Cli.ParseIntOfDigits` | src/cli.ts:86 | after white space and an optional sign, digits followed by a non-digit parse to their value, negated after "-" |
| `Cli.ParseIntOfRendering` | src/cli.ts:86 | a rendered natural number reads back as itself |
| `Cli.ParseIntReadsRendering` | src/cli.ts:86 | a rendered number reads back as itself, with or without a minus sign |
| `Cli.ParseIntExamples` | src/cli.ts:86 | "", "abc" and "-" give NaN; "80.5" gives 80; " 42px" gives 42 |
| `Cli.QualityGateImpliesValidQuality` | src/cli.ts:86-90 | a quality that passes the gate also passes the library's quality check |
| `Cli.QualityGateOnRenderings` | src/cli.ts:86-90 | a rendered number passes the gate exactly when it lies in 1..100 |
| `Cli.QualityGateExamples` | src/cli.ts:86-90 | the default "80" passes; "0", "101" and "high" are refused |
| `Cli.WordIsNaN` | src/cli.ts:86 | "high" is not a number |
| `Cli.ParseResizeIgnoresCase` | src/cli.ts:26 | lower-casing the argument first does not change the parse |
| `Cli.ParseResizePieces` | src/cli.ts:25-31 | the width comes from before the first "x" and the height from between the first and second, each only when non-empty; anything after a second "x" is ignored |
| `Cli.ParseResizeReadsBoth` | src/cli.ts:25-31 | "WxH" with rendered numbers reads back both sides |
| `Cli.ParseResizeOneSide` | src/cli.ts:28-29 | "Wx" sets only the width and "xH" only the height |
| `Cli.UpperCaseSeparatorExample` | src/cli.ts:26 | "800X600" reads as 800 by 600 |
| `Cli.BuildResizeOptions` | src/cli.ts:33-40 | no resize exactly when the string is absent or empty; otherwise the parsed sides, with the fit added exactly when a non-empty fit was given |
| `Cli.ResizeValue` | src/cli.ts:36-39 | the resize object holds the parsed width and height, and the fit only when given |
| `Cli.ResizeFlagAccepted` | src/cli.ts:33-40 | "WxH" with positive sides and a valid fit gives a resize object the library accepts |
| `Cli.ZeroSideRejected` | src/cli.ts:28 | a zero width parses, but the library then rejects it as resize.width |
| `Cli.LastDotIsLast` | src/cli.ts:50 | the position of the last dot: absent exactly when there is none, and no dot follows it |
| `Cli.SplitAtLastDot` | src/cli.ts:50 | a name with a dot is its stem, the dot and a dot-free extension |
| `Cli.FilterAgreesWithLookup` | src/cli.ts:50-51 | for a name with a real extension, the scan keeps it exactly when the extension lookup recognises it |
| `Cli.DotlessNamesSkipped` | src/cli.ts:50-51 | a name with no dot, or only a leading one, is never kept |
| `Cli.FilterOfExtension` | src/cli.ts:50-51 | a name `stem.ext` with a stem and a dot-free extension is kept exactly when its lower-cased extension is a supported format |
| `Cli.LastDotBeforeExtension` | src/cli.ts:50 | in `stem.ext` with a dot-free extension, the last dot follows the stem |
| `Cli.UpperCaseExtensionExample` | src/cli.ts:50-51 | "photo.JPG" is kept |
| `Cli.SkippedFileExample` | src/cli.ts:50-51 | "notes.txt" is skipped |
| `Cli.BareExtensionSkipped` | src/cli.ts:50-51 | "png" and ".png" are skipped |
| `Cli.CollectImageFiles` | src/cli.ts:42-55 | the scan returns the specified listing-order walk: supported files, and the contents of subdirectories when recursive |
| `Cli.CollectedFilesPassFilter` | src/cli.ts:49-51 | every collected path ends in a name the extension filter keeps |
| `Cli.NonRecursiveScanIsTopLevel` | src/cli.ts:47-52 | without --recursive, each collected path is the directory joined with a supported file listed directly in it |
| `Cli.NonRecursiveScanBound` | src/cli.ts:47-52 | without --recursive, there are at most as many collected paths as entries |
| `Cli.ListedInPrefix` | src/cli.ts:43-52 | a file listed in the first n entries is listed in the whole directory |
| `Cli.CollectSpecStep` | src/cli.ts:43-52 | one more entry adds its own contribution at the end: a kept file, nothing, or the walk of a subdirectory when recursive |
| `Cli.CliBatchOptions` | src/cli.ts:115-127 | the handler's batch options carry the parsed quality and an observer, and never stopOnError |
| `Cli.PathInputs` | src/cli.ts:98-115 | every file becomes a path input, in order |
| `Cli.ResultsPairWithFiles` | src/cli.ts:115-131 | with no stopOnError, the batch returns one item per file, in order, and item i is named after file i |
| `Cli.EveryProgressEventPrinted` | src/cli.ts:121-126 | the batch never reports pending, so every progress event is printed whether or not --verbose is set |
| `Cli.WrittenIndices` | src/cli.ts:129-131 | exactly the positions of successful items with a result are written, in increasing order |
| `Cli.TotalSaved` | src/cli.ts:129-136 | the loop's total is the sum of the per-item savings, and it lists exactly the written positions |
| `Cli.SavedSpecAppend` | src/cli.ts:129-136 | the total over two runs of items is the sum of their totals |
| `Cli.FailuresCountNothing` | src/cli.ts:130-134 | failed items are neither written nor counted |
| `Cli.ContributionOfResult` | src/cli.ts:134 | for a well-formed result, an item saves its original size less its encoded length |
| `Common.NatToStringRoundTrip` | src/batch.ts:14 | the decimal rendering of a number reads back as that number |
| `Common.NatToStringInjective` | src/batch.ts:14 | different numbers have different decimal renderings |
| `Common.SplitJoin` | src/utils/validation.ts:124 | joining the pieces of a split with the separator rebuilds the string |
| `Common.ToLowerIdempotent` | src/utils/validation.ts:124 | lower-casing twice is the same as lower-casing once |

## Left out

- **Pixel work.** What sharp and the browser canvas do with the pixels is not modelled (src/converter.ts:22-41, src/browser.ts:40-55). The encoder and the canvas host are parameters.
- **Dynamic import of sharp.** A failed `import("sharp")` is one more encoder failure, distinguished by its `MODULE_NOT_FOUND` code.
- **Browser host APIs.** `Image`, `URL.createObjectURL`/`revokeObjectURL`, `Blob` construction and promise scheduling are abstract. The host calls are kept as an event log: the URL's creation and revocation, the context request, and the `toBlob` request with its size and quality. The 2-D drawing itself is part of the `toBlob` parameter.
- **Canvas sizing.** The canvas truncates a fractional `width`/`height` when they are assigned. `Browser.TargetDimensions` returns the exact numbers the source computes, before that truncation.
- **Numbers.** They are exact reals, so NaN, ±Infinity and floating-point rounding are not modelled:
  - `Math.round` is round-half-up on reals.
  - A NaN width would slip through `validateResizeOptions`, because `NaN <= 0` is false. The model has no NaN value.
  - The division by zero in `compressionRatio` is named explicitly (`Types.Ratio`).
- **`parseInt` results that are NaN.** `Cli.ResizeValue` requires both sides to have parsed, because the model has no NaN number. A `--resize abc` argument is therefore outside what the CLI-to-library connection covers.
- **`formatBytes`** (src/utils/file.ts:50-59) uses `Math.log`, `Math.pow` and `toFixed`. It is only used to print the total.
- **The real file system.**
  - `existsSync`, `statSync` and `readFile` are lookups in the file-system value. All three see the same value, so a file that disappears or changes between the existence check and the read is not modelled.
  - Which error `readFile` rejects with for a directory or an unreadable file is the host's; the model carries it as a plain `Error` value and does not spell out Node's messages.
  - `path.resolve` is the resolver parameter of that value.
  - `getExtension` (src/utils/file.ts:17-19) is not modelled on its own. The equivalent test the CLI applies is `Cli.IsSupportedImageFile`.
  - Node's `extname` is modelled only for directory entry names, which contain no "/".
- **`getOutputPath`** (src/cli.ts:57-68) is not modelled. It asks the real file system whether the output is an existing directory and creates directories.
- **The directory walk.** It runs over a listing value: file, directory with its own listing, or other entry. A file is read from disk and written to disk only in the source. `JoinPath` joins with "/" and does not normalise the path.
- **CLI surface.** Not modelled: the commander wiring, console output, `process.exit`, the dry-run listing, and writing the converted files.
  - The quality gate and the file filter are the predicates the handler tests.
  - The handler's `forEach` is `Cli.TotalSaved`.
- **Concurrency.** `async`/`await` is sequential here, so each await is an ordinary call. The `concurrency` option is passed through but has no effect, so it has no behaviour to model.
- **Exceptions thrown by `onProgress`.** The observer is modelled as always returning normally.
- **Non-function `onProgress`.** A non-function value other than null or undefined is excluded by `Batch.ObserverCallable`, the type the source declares.
- **Unicode case mapping.** `toLowerCase` is modelled on ASCII letters only. Lower-casing other characters can only matter for strings compared against the ASCII format names.
- **Thrown non-Error values** are carried as their `String(v)` text. JavaScript's number-to-string conversion is not modelled.
- **Browser `validateImage` on a non-Blob argument.** The function only takes a Blob; `arrayBuffer()` rejecting is modelled.
- **`src/index.ts`** re-exports only. The build and lint configuration files are not part of this model.
