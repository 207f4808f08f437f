/**
 * Magic-byte sniffing and the image validator of `validate.ts`: the
 * leading bytes of a buffer are compared against a fixed table of
 * signatures, first match wins, and a RIFF container counts as WebP only
 * when bytes 8 to 11 decode as "WEBP".
 */
module Validate {
  import opened Common
  import opened Errors
  import opened Types
  import opened Validation
  import opened FileUtil

  datatype Signature = Signature(format: string, bytes: seq<byte>)

  const RiffBytes: seq<byte> := [0x52, 0x49, 0x46, 0x46]

  /** The signature table, in the order it is searched. */
  const Signatures: seq<Signature> := [
    Signature("png", [0x89, 0x50, 0x4E, 0x47]),
    Signature("jpeg", [0xFF, 0xD8, 0xFF]),
    Signature("gif", [0x47, 0x49, 0x46]),
    Signature("webp", RiffBytes),
    Signature("bmp", [0x42, 0x4D])
  ]

  const MinimumImageSize := 12
  const TooSmallMessage := "File is too small to be a valid image"

  /** `signature.every((byte, index) => buffer[index] === byte)`: a missing byte reads as `undefined` and never matches. */
  predicate PrefixMatches(buffer: seq<byte>, signature: seq<byte>) {
    forall i :: 0 <= i < |signature| ==> i < |buffer| && buffer[i] == signature[i]
  }

  /** `buffer.slice(start, end)`, clamped to the buffer. */
  function Slice(buffer: seq<byte>, start: nat, end: nat): (r: seq<byte>)
    requires start <= end
    ensures |r| <= end - start
    ensures end <= |buffer| ==> r == buffer[start..end]
    ensures start <= |buffer| < end ==> r == buffer[start..]
    ensures |buffer| <= start ==> r == []
  {
    var e := if end <= |buffer| then end else |buffer|;
    var s := if start <= e then start else e;
    buffer[s..e]
  }

  /** Node's `"ascii"` decoding: each byte with its high bit cleared, as a character. */
  function AsciiDecode(bytes: seq<byte>): (s: string)
    ensures |s| == |bytes|
    ensures forall i :: 0 <= i < |bytes| ==> s[i] as int == bytes[i] as int % 128
  {
    if bytes == [] then "" else [((bytes[0] as int) % 128) as char] + AsciiDecode(bytes[1..])
  }

  predicate HasWebpMarker(buffer: seq<byte>) {
    AsciiDecode(Slice(buffer, 8, 12)) == "WEBP"
  }

  /** Whether the search stops at this entry. */
  predicate Accepts(buffer: seq<byte>, entry: Signature) {
    PrefixMatches(buffer, entry.bytes) && (entry.format == "webp" ==> HasWebpMarker(buffer))
  }

  /** First-match search of a table. */
  function DetectFrom(buffer: seq<byte>, table: seq<Signature>): (r: Option<string>)
    ensures r.None? <==> forall i :: 0 <= i < |table| ==> !Accepts(buffer, table[i])
    ensures r.Some? ==> exists i :: (0 <= i < |table| && table[i].format == r.value && Accepts(buffer, table[i])
      && forall j :: 0 <= j < i ==> !Accepts(buffer, table[j]))
  {
    if table == [] then None
    else if Accepts(buffer, table[0]) then Some(table[0].format)
    else
      var r := DetectFrom(buffer, table[1..]);
      assert forall i :: 1 <= i < |table| ==> table[i] == table[1..][i - 1];
      r
  }

  /** `detectFormat`. */
  function DetectFormat(buffer: seq<byte>): Option<string> {
    DetectFrom(buffer, Signatures)
  }

  // ---------------------------------------------------------------------------
  // Properties of the sniffer
  // ---------------------------------------------------------------------------

  /** The first bytes of the signatures are pairwise distinct. */
  lemma FirstBytesDistinct(i: nat, j: nat)
    requires i < |Signatures| && j < |Signatures| && i != j
    ensures |Signatures[i].bytes| > 0 && |Signatures[j].bytes| > 0
    ensures Signatures[i].bytes[0] != Signatures[j].bytes[0]
  {
  }

  /** At most one table entry accepts a buffer. */
  lemma AcceptingEntryUnique(buffer: seq<byte>, i: nat, j: nat)
    requires i < |Signatures| && j < |Signatures|
    requires Accepts(buffer, Signatures[i]) && Accepts(buffer, Signatures[j])
    ensures i == j
  {
    if i != j {
      FirstBytesDistinct(i, j);
    }
  }

  /** The detected format is that of the one accepting entry; which entry comes first does not matter. */
  lemma DetectFormatIsTheAcceptingEntry(buffer: seq<byte>, i: nat)
    requires i < |Signatures| && Accepts(buffer, Signatures[i])
    ensures DetectFormat(buffer) == Some(Signatures[i].format)
  {
    var r := DetectFormat(buffer);
    assert r.Some?;
    var k :| 0 <= k < |Signatures| && Signatures[k].format == r.value && Accepts(buffer, Signatures[k]);
    AcceptingEntryUnique(buffer, i, k);
  }

  /** Searching the table in any other order gives the same answer. */
  lemma DetectFormatOrderIndependent(buffer: seq<byte>, table: seq<Signature>)
    requires multiset(table) == multiset(Signatures)
    ensures DetectFrom(buffer, table) == DetectFormat(buffer)
  {
    var r := DetectFrom(buffer, table);
    if r.Some? {
      var k :| 0 <= k < |table| && table[k].format == r.value && Accepts(buffer, table[k]);
      assert table[k] in multiset(Signatures);
      var i :| 0 <= i < |Signatures| && Signatures[i] == table[k];
      DetectFormatIsTheAcceptingEntry(buffer, i);
    } else {
      forall i | 0 <= i < |Signatures|
        ensures !Accepts(buffer, Signatures[i])
      {
        assert Signatures[i] in multiset(table);
      }
    }
  }

  /** A RIFF container whose bytes 8..11 do not decode as "WEBP" is reported as no format at all. */
  lemma RiffWithoutMarkerUndetected(buffer: seq<byte>)
    requires PrefixMatches(buffer, RiffBytes) && !HasWebpMarker(buffer)
    ensures DetectFormat(buffer) == None
  {
    assert buffer[0] == 0x52;
    forall i | 0 <= i < |Signatures|
      ensures !Accepts(buffer, Signatures[i])
    {
      if i != 3 {
        FirstBytesDistinct(i, 3);
        assert Signatures[i].bytes[0] != buffer[0];
      }
    }
  }

  /** A RIFF container marked "WEBP" is detected as webp. */
  lemma RiffWithMarkerIsWebp(buffer: seq<byte>)
    requires PrefixMatches(buffer, RiffBytes) && HasWebpMarker(buffer)
    ensures DetectFormat(buffer) == Some("webp")
  {
    DetectFormatIsTheAcceptingEntry(buffer, 3);
  }

  /** The ASCII decoding ignores the high bit, so "WEBP" with the high bits set passes the marker check too. */
  lemma HighBitMarkerIsWebp()
    ensures DetectFormat([0x52, 0x49, 0x46, 0x46, 0, 0, 0, 0, 0xD7, 0xC5, 0xC2, 0xD0]) == Some("webp")
  {
    var buffer: seq<byte> := [0x52, 0x49, 0x46, 0x46, 0, 0, 0, 0, 0xD7, 0xC5, 0xC2, 0xD0];
    assert Slice(buffer, 8, 12) == [0xD7, 0xC5, 0xC2, 0xD0];
    assert AsciiDecode(Slice(buffer, 8, 12)) == "WEBP";
    RiffWithMarkerIsWebp(buffer);
  }

  /** PNG and JPEG prefixes are detected as such. */
  lemma PngAndJpegDetected(buffer: seq<byte>)
    ensures PrefixMatches(buffer, [0x89, 0x50, 0x4E, 0x47]) ==> DetectFormat(buffer) == Some("png")
    ensures PrefixMatches(buffer, [0xFF, 0xD8, 0xFF]) ==> DetectFormat(buffer) == Some("jpeg")
  {
    if PrefixMatches(buffer, [0x89, 0x50, 0x4E, 0x47]) {
      DetectFormatIsTheAcceptingEntry(buffer, 0);
    }
    if PrefixMatches(buffer, [0xFF, 0xD8, 0xFF]) {
      DetectFormatIsTheAcceptingEntry(buffer, 1);
    }
  }

  /** TIFF is a supported input format, yet no buffer is ever detected as TIFF. */
  lemma TiffNeverDetected(buffer: seq<byte>)
    ensures "tiff" in SupportedFormats
    ensures DetectFormat(buffer) != Some("tiff")
  {
  }

  // ---------------------------------------------------------------------------
  // validateImage
  // ---------------------------------------------------------------------------

  function UnsupportedMessage(): string {
    "Unsupported format. Supported: " + Join(SupportedFormats, ", ")
  }

  /** `validateImage`: never throws; every failure becomes an invalid result with a message. */
  function ValidateImage(input: NodeInput, fs: FileSystem): (r: ValidationResult)
    ensures r.metadata.None?
    ensures r.valid <==>
      NormalizeInput(input, fs).Success? && |NormalizeInput(input, fs).value| >= MinimumImageSize
      && DetectFormat(NormalizeInput(input, fs).value).Some?
    ensures r.valid ==> r.error.None?
    ensures NormalizeInput(input, fs).Failure? ==> r.error == Some(Message(NormalizeInput(input, fs).error))
    ensures NormalizeInput(input, fs).Success? && |NormalizeInput(input, fs).value| < MinimumImageSize ==>
      r.error == Some(TooSmallMessage)
    ensures (NormalizeInput(input, fs).Success? && |NormalizeInput(input, fs).value| >= MinimumImageSize
             && DetectFormat(NormalizeInput(input, fs).value).None?) ==>
      r.error == Some(UnsupportedMessage())
  {
    match NormalizeInput(input, fs)
    case Failure(e) => CreateValidationResult(false, Some(Message(e)))
    case Success(buffer) =>
      if |buffer| < MinimumImageSize then CreateValidationResult(false, Some(TooSmallMessage))
      else if DetectFormat(buffer).None? then CreateValidationResult(false, Some(UnsupportedMessage()))
      else ValidationResult(true, None, None)
  }
}
