/**
 * The Khoros VIFF file header: its 1024-byte layout, the enumerations the
 * coder accepts, and the errors the reader raises. A header is an
 * identifier byte 0xAB, four single-byte fields, three reserved bytes, a
 * 512-byte comment, 21 32-bit fields in the byte order its machine
 * dependency names, and 420 bytes of padding.
 */
module ViffFormat {
  import opened Bits
  import opened Wrappers

  const HeaderSize: nat := 1024
  const CommentSize: nat := 512
  /** Offset of the first 32-bit field. */
  const LongsOffset: nat := 520

  const Identifier: byte := 0xAB

  // Machine dependencies: 0x4 (DEC order) and 0x8 (NS order) are
  // little-endian; the writer uses 0x2 (IEEE order, big-endian).
  const DepIeeeOrder: nat := 0x2
  const DepDecOrder: nat := 0x4
  const DepNsOrder: nat := 0x8

  // Data storage types.
  const TypBit: nat := 0
  const Typ1Byte: nat := 1
  const Typ2Byte: nat := 2
  const Typ4Byte: nat := 4
  const TypFloat: nat := 5
  const TypDouble: nat := 9

  // Map storage types.
  const MapTypNone: nat := 0
  const MapTyp1Byte: nat := 1
  const MapTyp2Byte: nat := 2
  const MapTyp4Byte: nat := 4
  const MapTypFloat: nat := 5
  const MapTypDouble: nat := 7

  // Map schemes.
  const MsNone: nat := 0
  const MsOnePerBand: nat := 1
  const MsShared: nat := 3

  // Colour space models.
  const CmNone: nat := 0
  const CmNtscRGB: nat := 1
  const CmGenericRGB: nat := 15

  const LocImplicit: nat := 1
  const DesRaw: nat := 0

  datatype ViffError =
    | NotAVIFFImage
    | ImproperImageHeader
    | UnexpectedEndOfFile
    | InsufficientImageDataInFile
    | ImageColumnOrRowSizeIsNotSupported
    | DataStorageTypeIsNotSupported
    | DataEncodingSchemeIsNotSupported
    | MapStorageTypeIsNotSupported
    | ColorspaceModelIsNotSupported
    | LocationTypeIsNotSupported
    | NumberOfImagesIsNotSupported
    | ColormapTypeNotSupported

  /** The header fields, as read. `rows` and `columns` are the header's own
    * names: the image is `rows` pixels wide and `columns` pixels high. */
  datatype Header = Header(
    fileType: byte, release: byte, version: byte, machineDependency: byte,
    reserve: seq<byte>, comment: seq<byte>,
    rows: uint32, columns: uint32, subrows: uint32,
    xOffset: int, yOffset: int,
    xBitsPerPixel: uint32, yBitsPerPixel: uint32,
    locationType: uint32, locationDimension: uint32, numberOfImages: uint32,
    bands: uint32, storage: uint32, encoding: uint32,
    mapScheme: uint32, mapStorage: uint32, mapRows: uint32, mapColumns: uint32,
    mapSubrows: uint32, mapEnable: uint32, mapsPerCycle: uint32,
    colorModel: uint32)

  /** IsVIFF: at least two bytes, the first two 0xAB 0x01. */
  function IsVIFF(magick: seq<byte>): (r: bool)
    ensures r <==> |magick| >= 2 && magick[0] == Identifier && magick[1] == 0x01
  {
    |magick| >= 2 && magick[0] == 0xAB && magick[1] == 0x01
  }

  /** The little-endian machine dependencies. */
  predicate LsbFirst(machineDependency: nat)
  {
    machineDependency == DepDecOrder || machineDependency == DepNsOrder
  }

  /** A 32-bit value from four bytes, least significant first or last. */
  function Long32(b: seq<byte>, at: nat, lsb: bool): (v: uint32)
    requires at + 4 <= |b|
  {
    var b0, b1, b2, b3 := b[at] as int, b[at + 1] as int, b[at + 2] as int, b[at + 3] as int;
    if lsb then b0 + 256 * b1 + 65536 * b2 + 16777216 * b3
    else 16777216 * b0 + 65536 * b1 + 256 * b2 + b3
  }

  /** A two's-complement 32-bit value. */
  function Signed32(v: uint32): int
  {
    if v < 0x8000_0000 then v else v - 0x1_0000_0000
  }

  /** The four bytes of a 32-bit value, most significant first. */
  function MSBLong(v: uint32): (b: seq<byte>)
    ensures |b| == 4
  {
    [v / 16777216, v / 65536 % 256, v / 256 % 256, v % 256]
  }

  lemma MSBLongRoundTrip(v: uint32, pre: seq<byte>, post: seq<byte>)
    ensures Long32(pre + MSBLong(v) + post, |pre|, false) == v
  {
    var b := pre + MSBLong(v) + post;
    assert b[|pre|..|pre| + 4] == MSBLong(v);
    assert b[|pre|] == v / 16777216 && b[|pre| + 1] == v / 65536 % 256;
    assert b[|pre| + 2] == v / 256 % 256 && b[|pre| + 3] == v % 256;
    LongBytes(v);
  }

  /** A 32-bit value is the weighted sum of its four bytes. */
  lemma LongBytes(v: uint32)
    ensures v == 16777216 * (v / 16777216) + 65536 * (v / 65536 % 256) + 256 * (v / 256 % 256) + v % 256
  {
    var q1, r0 := v / 256, v % 256;
    var q2, r1 := q1 / 256, q1 % 256;
    var q3, r2 := q2 / 256, q2 % 256;
    assert v == 256 * q1 + r0 && q1 == 256 * q2 + r1 && q2 == 256 * q3 + r2;
    DivUnique(v, 65536, q2, 256 * r1 + r0);
    DivUnique(v, 16777216, q3, 65536 * r2 + 256 * r1 + r0);
  }

  /** Field `k` (0-based) of the 21 32-bit header fields starting at `off`. */
  function Field(blob: seq<byte>, off: nat, k: nat, lsb: bool): uint32
    requires k < 21 && off + HeaderSize <= |blob|
  {
    Long32(blob, off + LongsOffset + 4 * k, lsb)
  }

  /** The header starting at `off`: not VIFF unless the first byte is 0xAB, an
    * improper header when the comment cannot be read in full, an early end
    * of file when the fields and padding cannot. The comment keeps its 512
    * bytes with the last forced to zero. */
  function ParseHeader(blob: seq<byte>, off: nat): (r: Result<Header, ViffError>)
    ensures r.Failure? <==> off >= |blob| || blob[off] != Identifier || off + HeaderSize > |blob|
    ensures off >= |blob| || blob[off] != Identifier ==> r == Failure(NotAVIFFImage)
    ensures r.Success? ==> |r.value.comment| == CommentSize && r.value.comment[CommentSize - 1] == 0
  {
    if off >= |blob| || blob[off] != Identifier then Failure(NotAVIFFImage)
    else if off + LongsOffset > |blob| then Failure(ImproperImageHeader)
    else if off + HeaderSize > |blob| then Failure(UnexpectedEndOfFile)
    else
      var lsb := LsbFirst(blob[off + 4]);
      Success(Header(
        blob[off + 1], blob[off + 2], blob[off + 3], blob[off + 4],
        blob[off + 5..off + 8], blob[off + 8..off + 519] + [0],
        Field(blob, off, 0, lsb), Field(blob, off, 1, lsb), Field(blob, off, 2, lsb),
        Signed32(Field(blob, off, 3, lsb)), Signed32(Field(blob, off, 4, lsb)),
        Field(blob, off, 5, lsb), Field(blob, off, 6, lsb),
        Field(blob, off, 7, lsb), Field(blob, off, 8, lsb), Field(blob, off, 9, lsb),
        Field(blob, off, 10, lsb), Field(blob, off, 11, lsb), Field(blob, off, 12, lsb),
        Field(blob, off, 13, lsb), Field(blob, off, 14, lsb), Field(blob, off, 15, lsb),
        Field(blob, off, 16, lsb), Field(blob, off, 17, lsb), Field(blob, off, 18, lsb),
        Field(blob, off, 19, lsb), Field(blob, off, 20, lsb)))
  }

  /** The comment up to its first zero byte. */
  function CString(s: seq<byte>): (r: seq<byte>)
    ensures |r| <= |s| && r == s[..|r|]
    ensures 0 !in r
    ensures |r| < |s| ==> s[|r|] == 0
  {
    if s == [] || s[0] == 0 then [] else [s[0]] + CString(s[1..])
  }

  /** The image's comment property: set only when the comment string is
    * longer than four characters. */
  function CommentProperty(h: Header): (c: Option<seq<byte>>)
    ensures c.Some? <==> |CString(h.comment)| > 4
  {
    var s := CString(h.comment);
    if |s| > 4 then Some(s) else None
  }

  /** The header checks, in the reader's order, that do not depend on the
    * colormap or the pixel data: the pixel count against eight times the
    * blob size and against zero, then the closed sets of band counts,
    * storage types, encodings, map storage types, colour models, location
    * types and image counts. */
  function CheckHeader(h: Header, blobSize: nat): (r: Option<ViffError>)
    ensures var n := h.columns * h.rows;
      r.None? <==>
        0 < n <= 8 * blobSize && 1 <= h.bands <= 4 &&
        h.storage in {TypBit, Typ1Byte, Typ2Byte, Typ4Byte, TypFloat, TypDouble} && h.encoding == DesRaw &&
        h.mapStorage in {MapTypNone, MapTyp1Byte, MapTyp2Byte, MapTyp4Byte, MapTypFloat, MapTypDouble} &&
        h.colorModel in {CmNone, CmNtscRGB, CmGenericRGB} && h.locationType == LocImplicit && h.numberOfImages == 1
    // Each check, reached with the earlier ones passed, fails with its own error.
    ensures var n := h.columns * h.rows;
      n > 8 * blobSize ==> r == Some(InsufficientImageDataInFile)
    ensures var n := h.columns * h.rows;
      n == 0 ==> r == Some(ImageColumnOrRowSizeIsNotSupported)
    ensures var n := h.columns * h.rows;
      0 < n <= 8 * blobSize && !(1 <= h.bands <= 4) ==> r == Some(ImproperImageHeader)
    ensures var n := h.columns * h.rows;
      (0 < n <= 8 * blobSize && 1 <= h.bands <= 4 &&
       h.storage !in {TypBit, Typ1Byte, Typ2Byte, Typ4Byte, TypFloat, TypDouble}) ==>
        r == Some(DataStorageTypeIsNotSupported)
    ensures var n := h.columns * h.rows;
      (0 < n <= 8 * blobSize && 1 <= h.bands <= 4 &&
       h.storage in {TypBit, Typ1Byte, Typ2Byte, Typ4Byte, TypFloat, TypDouble} &&
       h.encoding != DesRaw) ==>
        r == Some(DataEncodingSchemeIsNotSupported)
    ensures var n := h.columns * h.rows;
      (0 < n <= 8 * blobSize && 1 <= h.bands <= 4 &&
       h.storage in {TypBit, Typ1Byte, Typ2Byte, Typ4Byte, TypFloat, TypDouble} && h.encoding == DesRaw &&
       h.mapStorage !in {MapTypNone, MapTyp1Byte, MapTyp2Byte, MapTyp4Byte, MapTypFloat, MapTypDouble}) ==>
        r == Some(MapStorageTypeIsNotSupported)
    ensures var n := h.columns * h.rows;
      (0 < n <= 8 * blobSize && 1 <= h.bands <= 4 &&
       h.storage in {TypBit, Typ1Byte, Typ2Byte, Typ4Byte, TypFloat, TypDouble} && h.encoding == DesRaw &&
       h.mapStorage in {MapTypNone, MapTyp1Byte, MapTyp2Byte, MapTyp4Byte, MapTypFloat, MapTypDouble} &&
       h.colorModel !in {CmNone, CmNtscRGB, CmGenericRGB}) ==>
        r == Some(ColorspaceModelIsNotSupported)
    ensures var n := h.columns * h.rows;
      (0 < n <= 8 * blobSize && 1 <= h.bands <= 4 &&
       h.storage in {TypBit, Typ1Byte, Typ2Byte, Typ4Byte, TypFloat, TypDouble} && h.encoding == DesRaw &&
       h.mapStorage in {MapTypNone, MapTyp1Byte, MapTyp2Byte, MapTyp4Byte, MapTypFloat, MapTypDouble} &&
       h.colorModel in {CmNone, CmNtscRGB, CmGenericRGB} &&
       h.locationType != LocImplicit) ==>
        r == Some(LocationTypeIsNotSupported)
    ensures var n := h.columns * h.rows;
      (0 < n <= 8 * blobSize && 1 <= h.bands <= 4 &&
       h.storage in {TypBit, Typ1Byte, Typ2Byte, Typ4Byte, TypFloat, TypDouble} && h.encoding == DesRaw &&
       h.mapStorage in {MapTypNone, MapTyp1Byte, MapTyp2Byte, MapTyp4Byte, MapTypFloat, MapTypDouble} &&
       h.colorModel in {CmNone, CmNtscRGB, CmGenericRGB} && h.locationType == LocImplicit &&
       h.numberOfImages != 1) ==>
        r == Some(NumberOfImagesIsNotSupported)
  {
    var n := h.columns * h.rows;
    if n > 8 * blobSize then Some(InsufficientImageDataInFile)
    else if n == 0 then Some(ImageColumnOrRowSizeIsNotSupported)
    else if h.bands < 1 || h.bands > 4 then Some(ImproperImageHeader)
    else if h.storage !in {TypBit, Typ1Byte, Typ2Byte, Typ4Byte, TypFloat, TypDouble} then Some(DataStorageTypeIsNotSupported)
    else if h.encoding != DesRaw then Some(DataEncodingSchemeIsNotSupported)
    else if h.mapStorage !in {MapTypNone, MapTyp1Byte, MapTyp2Byte, MapTyp4Byte, MapTypFloat, MapTypDouble} then Some(MapStorageTypeIsNotSupported)
    else if h.colorModel !in {CmNone, CmNtscRGB, CmGenericRGB} then Some(ColorspaceModelIsNotSupported)
    else if h.locationType != LocImplicit then Some(LocationTypeIsNotSupported)
    else if h.numberOfImages != 1 then Some(NumberOfImagesIsNotSupported)
    else None
  }

  /** The map scheme in force: none when the map has no rows. */
  function MapScheme(h: Header): (s: nat)
    ensures h.mapRows == 0 ==> s == MsNone
    ensures h.mapRows != 0 ==> s == h.mapScheme
  {
    if h.mapRows == 0 then MsNone else h.mapScheme
  }

  /** Bytes per map entry; a map without a storage type counts one byte. */
  function MapEntryBytes(mapStorage: nat): (n: nat)
    ensures 1 <= n <= 8
  {
    if mapStorage == MapTyp2Byte then 2
    else if mapStorage == MapTyp4Byte || mapStorage == MapTypFloat then 4
    else if mapStorage == MapTypDouble then 8
    else 1
  }

  /** Bytes per data sample; bit storage counts one byte per packed byte. */
  function SampleBytes(storage: nat): (n: nat)
    ensures 1 <= n <= 8
  {
    if storage == Typ2Byte then 2
    else if storage == Typ4Byte || storage == TypFloat then 4
    else if storage == TypDouble then 8
    else 1
  }

  /** Samples in the data section: packed bytes of `(width + 7) / 8` per row
    * for bit storage, one per pixel and band otherwise. */
  function MaxPackets(h: Header): (n: nat)
  {
    if h.storage == TypBit then (h.rows + 7) / 8 * h.columns
    else h.columns * h.rows * h.bands
  }
}
