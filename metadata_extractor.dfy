/** The pure part of the metadata-extraction function that runs on every upload
    (`lambda-metadata-extractor/index.js`): recognising the file kind from its first bytes and
    reading image dimensions from JPEG and PNG headers. A file is a sequence of bytes; reads past
    the end follow Node's `Buffer`: indexing gives `undefined`, `readUInt16BE`/`readUInt32BE`
    throw a `RangeError`. */
module MetadataExtractor {
  import opened Wrappers
  import opened Strings

  newtype byte = x: int | 0 <= x < 256

  datatype Dimensions = Dimensions(width: nat, height: nat)

  /** The outcome of the JPEG marker scan. */
  datatype Scan = Found(dims: Dimensions) | NotFound | RangeError

  /** The metadata object; `width` and `height` are set only when dimensions were read. */
  datatype FileMetadata = FileMetadata(
    fileSize: string,
    mediaType: string,
    format: string,
    width: Option<string>,
    height: Option<string>)

  /** `extractMetadata` returns its object or lets the JPEG reader's `RangeError` escape. */
  datatype Extraction = Extracted(metadata: FileMetadata) | Threw

  // ---------------------------------------------------------------------------------------
  // Big-endian reads

  /** `buffer.readUInt16BE(o)`, in range. */
  function U16(buf: seq<byte>, o: nat): nat
    requires o + 2 <= |buf|
  {
    buf[o] as nat * 256 + buf[o + 1] as nat
  }

  /** `buffer.readUInt32BE(o)`, in range. */
  function U32(buf: seq<byte>, o: nat): nat
    requires o + 4 <= |buf|
  {
    ((buf[o] as nat * 256 + buf[o + 1] as nat) * 256 + buf[o + 2] as nat) * 256 + buf[o + 3] as nat
  }

  /** The big-endian bytes of a 16-bit value. */
  function Be16(n: nat): (b: seq<byte>)
    requires n < 0x1_0000
    ensures |b| == 2 && U16(b, 0) == n
  {
    [(n / 256) as byte, (n % 256) as byte]
  }

  /** The big-endian bytes of a 32-bit value. */
  function Be32(n: nat): (b: seq<byte>)
    requires n < 0x1_0000_0000
    ensures |b| == 4 && U32(b, 0) == n
  {
    var hi := n / 0x1_0000;
    var lo := n % 0x1_0000;
    Be16(hi) + Be16(lo)
  }

  // ---------------------------------------------------------------------------------------
  // JPEG

  /** Start-of-frame markers (ITU-T T.81, Table B.1): 0xC0 to 0xCF except DHT (0xC4),
      JPG (0xC8) and DAC (0xCC). */
  predicate IsSof(marker: byte)
  {
    0xC0 <= marker <= 0xCF && marker != 0xC4 && marker != 0xC8 && marker != 0xCC
  }

  /** The scan of `extractJpegDimensions` from `offset` on. At a marker (0xFF, then the marker
      byte) the offset moves past the two marker bytes. A start-of-frame header carries the
      height at offset+3 and the width at offset+5 (the frame header of ITU-T T.81, section
      B.2.2). Any other segment is skipped by its big-endian length. A byte other than 0xFF
      where a marker should be ends the scan without a result. */
  function ScanFrom(buf: seq<byte>, offset: nat): Scan
    decreases |buf| - offset
  {
    if offset >= |buf| || buf[offset] != 0xFF then NotFound
    else if offset + 1 == |buf| then RangeError  // undefined marker: the length read at offset + 2 is out of range
    else
      var o := offset + 2;
      if IsSof(buf[offset + 1]) then
        if o + 7 <= |buf| then Found(Dimensions(U16(buf, o + 5), U16(buf, o + 3))) else RangeError
      else if o + 2 <= |buf| then ScanFrom(buf, o + U16(buf, o))
      else RangeError
  }

  /** `extractJpegDimensions`: the scan starts past the start-of-image marker. */
  method ExtractJpegDimensions(buf: seq<byte>) returns (r: Scan)
    ensures r == ScanFrom(buf, 2)
    ensures r.Found? ==> r.dims.width < 0x1_0000 && r.dims.height < 0x1_0000
  {
    var offset := 2;
    while offset < |buf|
      invariant ScanFrom(buf, offset) == ScanFrom(buf, 2)
      decreases |buf| - offset
    {
      if buf[offset] != 0xFF {
        break;
      }
      if offset + 1 == |buf| {
        return RangeError;
      }
      var marker := buf[offset + 1];
      offset := offset + 2;
      if IsSof(marker) {
        if offset + 7 > |buf| {
          return RangeError;
        }
        var height := U16(buf, offset + 3);
        var width := U16(buf, offset + 5);
        return Found(Dimensions(width, height));
      }
      if offset + 2 > |buf| {
        return RangeError;
      }
      var segmentLength := U16(buf, offset);
      offset := offset + segmentLength;
    }
    return NotFound;
  }

  /** The scan reads nothing before its offset: what precedes it can be replaced. */
  lemma {:induction false} ScanIgnoresPrefix(p: seq<byte>, q: seq<byte>, t: seq<byte>, k: nat)
    ensures ScanFrom(p + t, |p| + k) == ScanFrom(q + t, |q| + k)
    decreases |t| - k
  {
    var a := p + t;
    var b := q + t;
    if k < |t| {
      assert a[|p| + k] == t[k] == b[|q| + k];
      if k + 1 < |t| {
        assert a[|p| + k + 1] == t[k + 1] == b[|q| + k + 1];
        var o := k + 2;
        if o + 7 <= |t| {
          U16Shifted(p, q, t, o + 3);
          U16Shifted(p, q, t, o + 5);
        }
        if o + 2 <= |t| {
          U16Shifted(p, q, t, o);
          ScanIgnoresPrefix(p, q, t, o + U16(t, o));
        }
      }
    }
  }

  lemma U16Shifted(p: seq<byte>, q: seq<byte>, t: seq<byte>, o: nat)
    requires o + 2 <= |t|
    ensures U16(p + t, |p| + o) == U16(t, o) == U16(q + t, |q| + o)
  {
    assert (p + t)[|p| + o] == t[o] == (q + t)[|q| + o];
    assert (p + t)[|p| + o + 1] == t[o + 1] == (q + t)[|q| + o + 1];
  }

  /** Start of image (0xFF 0xD8). */
  const Soi: seq<byte> := [0xFF, 0xD8]

  /** A well-formed segment that is not a frame header: marker, big-endian length counting
      itself, payload. */
  predicate SkippableSegment(seg: seq<byte>)
  {
    |seg| >= 4 && seg[0] == 0xFF && !IsSof(seg[1]) && U16(seg, 2) == |seg| - 2
  }

  /** A skippable segment after the start of image is stepped over. */
  lemma SkipSegment(seg: seq<byte>, tail: seq<byte>)
    requires SkippableSegment(seg)
    ensures ScanFrom(Soi + seg + tail, 2) == ScanFrom(Soi + tail, 2)
  {
    var buf := Soi + seg + tail;
    assert buf[2] == 0xFF && buf[3] == seg[1];
    assert U16(buf, 4) == U16(seg, 2) by {
      assert buf[4] == seg[2] && buf[5] == seg[3];
    }
    assert ScanFrom(buf, 2) == ScanFrom(buf, |Soi + seg|);
    assert buf == (Soi + seg) + tail;
    ScanIgnoresPrefix(Soi + seg, Soi, tail, 0);
  }

  /** A baseline frame header (SOF0) with 8-bit precision for an image of `width` by `height`. */
  function Sof0(width: nat, height: nat): seq<byte>
    requires width < 0x1_0000 && height < 0x1_0000
  {
    [0xFF, 0xC0, 0x00, 0x11, 0x08] + Be16(height) + Be16(width)
  }

  /** Writing a frame header and scanning it gives back the dimensions. */
  lemma JpegDimensionsRoundTrip(width: nat, height: nat, tail: seq<byte>)
    requires width < 0x1_0000 && height < 0x1_0000
    ensures ScanFrom(Soi + Sof0(width, height) + tail, 2) == Found(Dimensions(width, height))
  {
    var buf := Soi + Sof0(width, height) + tail;
    assert buf[2] == 0xFF && buf[3] == 0xC0;
    assert U16(buf, 7) == U16(Be16(height), 0) by {
      assert buf[7] == Be16(height)[0] && buf[8] == Be16(height)[1];
    }
    assert U16(buf, 9) == U16(Be16(width), 0) by {
      assert buf[9] == Be16(width)[0] && buf[10] == Be16(width)[1];
    }
  }

  // ---------------------------------------------------------------------------------------
  // PNG

  /** `extractPngDimensions`: the IHDR chunk's width and height, the big-endian 32-bit values at
      offsets 16 and 20 (PNG specification, section 11.2.2, after the 8-byte signature and the
      chunk's length and type). Too short a buffer has none. */
  function ExtractPngDimensions(buf: seq<byte>): (r: Option<Dimensions>)
    ensures r.Some? <==> |buf| >= 24
  {
    if |buf| < 24 then None else Some(Dimensions(U32(buf, 16), U32(buf, 20)))
  }

  /** The PNG signature (PNG specification, section 5.2). */
  const PngSignature: seq<byte> := [0x89, 0x50, 0x4E, 0x47, 0x0D, 0x0A, 0x1A, 0x0A]

  /** The signature and the start of an IHDR chunk for an image of `width` by `height`. */
  function PngHeader(width: nat, height: nat): (h: seq<byte>)
    requires width < 0x1_0000_0000 && height < 0x1_0000_0000
    ensures |h| == 24
  {
    PngSignature + [0x00, 0x00, 0x00, 0x0D, 0x49, 0x48, 0x44, 0x52] + Be32(width) + Be32(height)
  }

  /** Writing an IHDR header and reading it gives back the dimensions. */
  lemma PngDimensionsRoundTrip(width: nat, height: nat, tail: seq<byte>)
    requires width < 0x1_0000_0000 && height < 0x1_0000_0000
    ensures ExtractPngDimensions(PngHeader(width, height) + tail) == Some(Dimensions(width, height))
  {
    var buf := PngHeader(width, height) + tail;
    var w := Be32(width);
    var h := Be32(height);
    assert buf[16..20] == w && buf[20..24] == h;
    assert U32(buf, 16) == U32(w, 0) by {
      assert buf[16] == w[0] && buf[17] == w[1] && buf[18] == w[2] && buf[19] == w[3];
    }
    assert U32(buf, 20) == U32(h, 0) by {
      assert buf[20] == h[0] && buf[21] == h[1] && buf[22] == h[2] && buf[23] == h[3];
    }
  }

  // ---------------------------------------------------------------------------------------
  // Classification

  /** The bytes of an ASCII string. */
  function Ascii(s: string): (b: seq<byte>)
    requires forall i :: 0 <= i < |s| ==> s[i] as int < 128
    ensures |b| == |s| && forall i :: 0 <= i < |s| ==> b[i] as int == s[i] as int
  {
    if s == [] then [] else [s[0] as int as byte] + Ascii(s[1..])
  }

  predicate HasJpegMagic(buf: seq<byte>)
  {
    |buf| >= 3 && buf[0] == 0xFF && buf[1] == 0xD8 && buf[2] == 0xFF
  }

  predicate HasPngMagic(buf: seq<byte>)
  {
    |buf| >= 4 && buf[0] == 0x89 && buf[1] == 0x50 && buf[2] == 0x4E && buf[3] == 0x47
  }

  /** `buffer.slice(from, to).toString() === text` for an ASCII `text` of length `to - from`:
      UTF-8 decoding yields those characters exactly when the bytes are their codes. */
  predicate SliceIs(buf: seq<byte>, from: nat, text: string)
    requires forall i :: 0 <= i < |text| ==> text[i] as int < 128
  {
    from + |text| <= |buf| && buf[from..from + |text|] == Ascii(text)
  }

  /** An ISO base media file whose `ftyp` box (ISO/IEC 14496-12, section 4.3) names one of the
      four brands the function knows, at bytes 4 to 11. */
  predicate HasMp4Brand(buf: seq<byte>)
  {
    SliceIs(buf, 4, "ftypmp42") || SliceIs(buf, 4, "ftypisom") || SliceIs(buf, 4, "ftypMSNV")
    || SliceIs(buf, 4, "ftypM4V ")
  }

  predicate HasAviMagic(buf: seq<byte>)
  {
    SliceIs(buf, 0, "RIFF") && SliceIs(buf, 8, "AVI ")
  }

  const ImageExtensions: seq<string> := ["jpg", "jpeg", "png", "gif", "webp", "heic"]
  const VideoExtensions: seq<string> := ["mp4", "mov", "avi", "mkv", "webm", "m4v"]

  /** `key.split('.').pop().toLowerCase()`: the lower-cased text after the last '.'. */
  function Extension(key: string): (ext: string)
    ensures '.' !in ext
  {
    var parts := Split(key, '.');
    SplitPiecesFree(key, '.');
    var last := parts[|parts| - 1];
    assert forall i :: 0 <= i < |last| ==> LowerChar(last[i]) != '.';
    Lower(last)
  }

  /** `contentType.split('/')[1]`, for a content type holding a '/'. */
  function Subtype(contentType: string): (s: string)
    requires '/' in contentType
    ensures '/' !in s
  {
    SplitAtLeastTwo(contentType, '/');
    SplitPiecesFree(contentType, '/');
    Split(contentType, '/')[1]
  }

  /** A JavaScript truthy content type: present and not empty. */
  predicate Truthy(contentType: Option<string>)
  {
    contentType.Some? && contentType.value != ""
  }

  /** The media type and format the fallbacks give when no signature matched. */
  function Fallback(contentType: Option<string>, key: string): (r: (string, string))
  {
    if Truthy(contentType) then
      var ct := contentType.value;
      if StartsWith(ct, "image/") then
        assert ct[5] == '/';
        ("image", Subtype(ct))
      else if StartsWith(ct, "video/") then
        assert ct[5] == '/';
        ("video", Subtype(ct))
      else ("unknown", "")
    else
      var ext := Extension(key);
      if ext in ImageExtensions then ("image", ext)
      else if ext in VideoExtensions then ("video", ext)
      else ("unknown", "")
  }

  /** `extractMetadata(buffer, contentType, key)`: the size of the buffer as decimal text, then
      the first matching rule: JPEG signature, PNG signature, MP4 brand, AVI header, content
      type, file extension. */
  function ExtractMetadata(buf: seq<byte>, contentType: Option<string>, key: string): Extraction
  {
    var size := NatToString(|buf|);
    if HasJpegMagic(buf) then
      match ScanFrom(buf, 2)
      case RangeError => Threw
      case NotFound => Extracted(FileMetadata(size, "image", "jpeg", None, None))
      case Found(d) => Extracted(FileMetadata(size, "image", "jpeg", Some(NatToString(d.width)), Some(NatToString(d.height))))
    else if HasPngMagic(buf) then
      match ExtractPngDimensions(buf)
      case None => Extracted(FileMetadata(size, "image", "png", None, None))
      case Some(d) => Extracted(FileMetadata(size, "image", "png", Some(NatToString(d.width)), Some(NatToString(d.height))))
    else if HasMp4Brand(buf) then Extracted(FileMetadata(size, "video", "mp4", None, None))
    else if HasAviMagic(buf) then Extracted(FileMetadata(size, "video", "avi", None, None))
    else
      var (mediaType, format) := Fallback(contentType, key);
      Extracted(FileMetadata(size, mediaType, format, None, None))
  }

  // ---------------------------------------------------------------------------------------
  // Properties of the classification

  /** The fallbacks name one of three media types and leave the format empty for an unknown
      one; a content type of just "image/" gives an image with an empty format. */
  lemma FallbackShape(contentType: Option<string>, key: string)
    ensures var (mediaType, format) := Fallback(contentType, key);
      mediaType in {"image", "video", "unknown"} && (mediaType == "unknown" ==> format == "")
  {
  }

  /** Whatever the input, only a JPEG whose scan overruns the buffer throws. */
  lemma OnlyJpegThrows(buf: seq<byte>, contentType: Option<string>, key: string)
    ensures ExtractMetadata(buf, contentType, key).Threw? <==> HasJpegMagic(buf) && ScanFrom(buf, 2).RangeError?
  {
  }

  /** Whatever the input, the size is the buffer length in decimal, the media type is one of
      three, and width and height come together. */
  lemma ExtractionShape(buf: seq<byte>, contentType: Option<string>, key: string)
    requires ExtractMetadata(buf, contentType, key).Extracted?
    ensures var m := ExtractMetadata(buf, contentType, key).metadata;
      DigitsValue(m.fileSize) == |buf|
      && m.mediaType in {"image", "video", "unknown"}
      && (m.mediaType == "unknown" ==> m.format == "")
      && (m.width.Some? <==> m.height.Some?)
  {
    NatToStringRoundTrip(|buf|);
    FallbackShape(contentType, key);
  }

  /** The file's own signature wins over the content type and the key. */
  lemma SignatureWins(buf: seq<byte>, ct1: Option<string>, key1: string, ct2: Option<string>, key2: string)
    requires HasJpegMagic(buf) || HasPngMagic(buf) || HasMp4Brand(buf) || HasAviMagic(buf)
    ensures ExtractMetadata(buf, ct1, key1) == ExtractMetadata(buf, ct2, key2)
  {
  }

  /** A truthy content type silences the extension, even one naming neither images nor videos. */
  lemma ContentTypeSilencesExtension(buf: seq<byte>, contentType: Option<string>, key1: string, key2: string)
    requires Truthy(contentType)
    ensures ExtractMetadata(buf, contentType, key1) == ExtractMetadata(buf, contentType, key2)
  {
  }

  /** Without a signature or a content type, the lower-cased extension decides: an image or
      video extension becomes the format, anything else leaves the file unknown. */
  lemma ExtensionDecides(buf: seq<byte>, contentType: Option<string>, key: string)
    requires !HasJpegMagic(buf) && !HasPngMagic(buf) && !HasMp4Brand(buf) && !HasAviMagic(buf)
    requires !Truthy(contentType)
    ensures var e := ExtractMetadata(buf, contentType, key); var ext := Extension(key);
      e.Extracted?
      && (e.metadata.mediaType == "image" <==> ext in ImageExtensions)
      && (e.metadata.mediaType == "video" <==> ext !in ImageExtensions && ext in VideoExtensions)
      && (e.metadata.mediaType != "unknown" ==> e.metadata.format == ext)
  {
  }

  /** A PNG file with an IHDR header reports its dimensions, whose decimal text reads back as
      the numbers written. */
  lemma PngMetadataRoundTrip(width: nat, height: nat, tail: seq<byte>, contentType: Option<string>, key: string)
    requires width < 0x1_0000_0000 && height < 0x1_0000_0000
    ensures var e := ExtractMetadata(PngHeader(width, height) + tail, contentType, key);
      e.Extracted? && e.metadata.mediaType == "image" && e.metadata.format == "png"
      && e.metadata.width.Some? && DigitsValue(e.metadata.width.value) == width
      && e.metadata.height.Some? && DigitsValue(e.metadata.height.value) == height
  {
    var buf := PngHeader(width, height) + tail;
    assert buf[..8] == PngSignature;
    assert !HasJpegMagic(buf) && HasPngMagic(buf);
    PngDimensionsRoundTrip(width, height, tail);
    NatToStringRoundTrip(width);
    NatToStringRoundTrip(height);
  }

  /** A JPEG file whose first segment is a baseline frame header reports its dimensions. */
  lemma JpegMetadataRoundTrip(width: nat, height: nat, tail: seq<byte>, contentType: Option<string>, key: string)
    requires width < 0x1_0000 && height < 0x1_0000
    ensures var e := ExtractMetadata(Soi + Sof0(width, height) + tail, contentType, key);
      e.Extracted? && e.metadata.mediaType == "image" && e.metadata.format == "jpeg"
      && e.metadata.width.Some? && DigitsValue(e.metadata.width.value) == width
      && e.metadata.height.Some? && DigitsValue(e.metadata.height.value) == height
  {
    var buf := Soi + Sof0(width, height) + tail;
    assert buf[0] == 0xFF && buf[1] == 0xD8 && buf[2] == 0xFF;
    JpegDimensionsRoundTrip(width, height, tail);
    NatToStringRoundTrip(width);
    NatToStringRoundTrip(height);
  }
}
