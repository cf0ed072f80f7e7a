/**
 * What the VIFF reader makes of what the writer produces: the header it
 * parses back, the checks that header passes, the colormap, the sample
 * buffer and the raster it recovers, and the image list a file written
 * with or without joining reads back as. The writer quantizes every
 * sample to eight bits, so the round trip is stated against the image as
 * quantized.
 */
module ViffRoundTrip {
  import opened Bits
  import opened Wrappers
  import opened QuantumTypes
  import opened ViffFormat
  import opened ViffSamples
  import opened ViffRaster
  import opened ViffDecode
  import opened ViffEncode

  /** The header a written header means, from its fields and comment
    * field: the fixed single-byte fields, zero reserved bytes, the comment
    * field with its last byte zero, and both offsets read as signed
    * values. */
  function HeaderOf(f: seq<uint32>, c: seq<byte>): (h: Header)
    requires |f| == 21 && |c| == CommentSize
    ensures h.machineDependency == DepIeeeOrder && h.comment == c[..CommentSize - 1] + [0]
  {
    Header(1, 1, 3, DepIeeeOrder as byte, [0, 0, 0], c[..CommentSize - 1] + [0],
           f[0], f[1], f[2], Signed32(f[3]), Signed32(f[4]), f[5], f[6],
           f[7], f[8], f[9], f[10], f[11], f[12], f[13], f[14], f[15],
           f[16], f[17], f[18], f[19], f[20])
  }

  /** The header the reader sees in a written header: the image's width
    * and height in `rows` and `columns`, no subrows, both offsets -1 (the
    * `~0` the writer stores, read as signed), the bit pattern of 1.0 as
    * bits per pixel, implicit locations, one image, the band count, bit
    * storage for a bitmap and one byte otherwise, raw encoding, a
    * three-plane one-byte map of the colormap's size for a colormapped
    * image and no map otherwise, and the generic RGB colour model for
    * direct colour only. */
  function WrittenHeader(img: SourceImage, c: seq<byte>): (h: Header)
    requires |c| == CommentSize
    ensures h.machineDependency == DepIeeeOrder && h.comment == c[..CommentSize - 1] + [0]
  {
    var rep := RepresentationOf(img);
    var mapped := rep == Colormapped;
    Header(1, 1, 3, DepIeeeOrder as byte, [0, 0, 0], c[..CommentSize - 1] + [0],
           Wrap32(img.columns), Wrap32(img.rows), 0, -1, -1,
           BitsPerPixelWritten, BitsPerPixelWritten, LocImplicit, 0, 1,
           Bands(img), if rep == Monochrome then TypBit else Typ1Byte, DesRaw,
           if mapped then MsOnePerBand else MsNone, if mapped then MapTyp1Byte else MapTypNone,
           if mapped then 3 else 0, if mapped then Wrap32(|img.colormap|) else 0,
           0, 1, 0, if img.direct then CmGenericRGB else CmNone)
  }

  /** The fields the writer stores mean the header the reader sees. */
  lemma WrittenFieldsMean(img: SourceImage, c: seq<byte>)
    requires |c| == CommentSize
    ensures HeaderOf(HeaderFields(img), c) == WrittenHeader(img, c)
  {
    var f := HeaderFields(img);
    assert Signed32(f[3]) == -1 && Signed32(f[4]) == -1;
  }

  /** The bytes of a header with fields `f` and comment field `c`. */
  function FieldsBytes(f: seq<uint32>, c: seq<byte>): (b: seq<byte>)
  {
    [Identifier, 1, 1, 3, DepIeeeOrder as byte, 0, 0, 0] + c + Longs(f) + seq(420, _ => 0)
  }

  /** Four bytes written most significant first read back as the value in
    * big-endian order. */
  lemma ReadBackLong(b: seq<byte>, at: nat, v: uint32)
    requires at + 4 <= |b| && b[at..at + 4] == MSBLong(v)
    ensures Long32(b, at, false) == v
  {
    assert b[at] == b[at..at + 4][0] && b[at + 1] == b[at..at + 4][1];
    assert b[at + 2] == b[at..at + 4][2] && b[at + 3] == b[at..at + 4][3];
    LongBytes(v);
  }

  /** Bytes `b` sit at offset `at` of a blob. */
  predicate At(blob: seq<byte>, at: nat, b: seq<byte>)
  {
    at + |b| <= |blob| && blob[at..at + |b|] == b
  }

  /** A slice of a slice is a slice of the whole. */
  lemma SubSlice(blob: seq<byte>, off: nat, part: seq<byte>, i: nat, j: nat)
    requires At(blob, off, part) && i <= j <= |part|
    ensures blob[off + i..off + j] == part[i..j]
  {
    forall t | 0 <= t < j - i
      ensures blob[off + i..off + j][t] == part[i..j][t]
    {
      assert blob[off + i..off + j][t] == blob[off..off + |part|][i + t];
    }
  }

  /** Where the parts of a header sit. */
  lemma HeaderLayout(f: seq<uint32>, c: seq<byte>)
    requires |f| == 21 && |c| == CommentSize
    ensures var hb := FieldsBytes(f, c);
      |hb| == HeaderSize
      && hb[..5] == [Identifier, 1, 1, 3, DepIeeeOrder as byte] && hb[5..8] == [0, 0, 0]
      && hb[8..LongsOffset] == c && hb[LongsOffset..LongsOffset + 84] == Longs(f)
  {
    var hb := FieldsBytes(f, c);
    var front := [Identifier, 1, 1, 3, DepIeeeOrder as byte, 0, 0, 0];
    assert hb[..5] == front[..5];
  }

  /** Field `k` of a header reads back as the value written. */
  lemma FieldReadsBack(f: seq<uint32>, c: seq<byte>, blob: seq<byte>, off: nat, k: nat)
    requires |f| == 21 && |c| == CommentSize && k < 21
    requires off + HeaderSize <= |blob| && blob[off..off + HeaderSize] == FieldsBytes(f, c)
    ensures Field(blob, off, k, false) == f[k]
  {
    var hb := FieldsBytes(f, c);
    var at := LongsOffset + 4 * k;
    HeaderLayout(f, c);
    LongsAt(f, k);
    SubSlice(hb, LongsOffset, Longs(f), 4 * k, 4 * k + 4);
    SubSlice(blob, off, hb, at, at + 4);
    ReadBackLong(blob, off + at, f[k]);
  }

  /** A header parses back as the header its fields and comment field
    * mean, whatever surrounds it. */
  lemma FieldsRoundTrip(f: seq<uint32>, c: seq<byte>, blob: seq<byte>, off: nat)
    requires |f| == 21 && |c| == CommentSize
    requires off + HeaderSize <= |blob| && blob[off..off + HeaderSize] == FieldsBytes(f, c)
    ensures ParseHeader(blob, off) == Success(HeaderOf(f, c))
  {
    var hb := FieldsBytes(f, c);
    HeaderLayout(f, c);
    SubSlice(blob, off, hb, 0, 5);
    assert blob[off..off + 5][1] == blob[off + 1] && blob[off..off + 5][2] == blob[off + 2];
    assert blob[off..off + 5][3] == blob[off + 3] && blob[off..off + 5][4] == blob[off + 4];
    SubSlice(blob, off, hb, 5, 8);
    SubSlice(blob, off, hb, 8, 519);
    SubSlice(hb, 8, c, 0, 511);
    forall k | 0 <= k < 21
      ensures Field(blob, off, k, false) == f[k]
    {
      FieldReadsBack(f, c, blob, off, k);
    }
  }

  /** A written header parses back as the header the writer means. */
  lemma HeaderRoundTrip(img: SourceImage, c: seq<byte>, blob: seq<byte>, off: nat)
    requires |c| == CommentSize
    requires At(blob, off, HeaderBytes(img, c))
    ensures ParseHeader(blob, off) == Success(WrittenHeader(img, c))
  {
    assert HeaderBytes(img, c) == FieldsBytes(HeaderFields(img), c);
    FieldsRoundTrip(HeaderFields(img), c, blob, off);
    WrittenFieldsMean(img, c);
  }

  /** An image whose sizes fit the header's 32-bit fields. */
  predicate Writable(img: SourceImage)
  {
    Valid(img) && 1 <= img.columns < 0x1_0000_0000 && 1 <= img.rows < 0x1_0000_0000
    && |img.colormap| < 0x1_0000_0000
  }

  /** What the written header says about an image that fits: its width in
    * `rows`, its height in `columns`, the band count, bit storage for a
    * bitmap and one byte otherwise, a three-plane one-byte map of the
    * colormap's size for a colormapped image and no map otherwise, and
    * the bit pattern of 1.0 as bits per pixel. */
  lemma WrittenFields(img: SourceImage, c: seq<byte>)
    requires Writable(img) && |c| == CommentSize
    ensures var h := WrittenHeader(img, c); var rep := RepresentationOf(img);
      h.rows == img.columns && h.columns == img.rows && h.bands == Bands(img)
      && h.storage == (if rep == Monochrome then TypBit else Typ1Byte)
      && h.encoding == DesRaw && h.locationType == LocImplicit && h.numberOfImages == 1
      && h.colorModel == (if img.direct then CmGenericRGB else CmNone)
      && h.mapScheme == (if rep == Colormapped then MsOnePerBand else MsNone)
      && h.mapStorage == (if rep == Colormapped then MapTyp1Byte else MapTypNone)
      && h.mapRows == (if rep == Colormapped then 3 else 0)
      && h.mapColumns == (if rep == Colormapped then |img.colormap| else 0)
      && h.xBitsPerPixel == BitsPerPixelWritten
  {
  }

  /** The raster holds one sample per pixel and band, or `Stride` bytes per
    * row for a bitmap. */
  lemma RasterLength(img: SourceImage)
    requires Valid(img)
    ensures |RasterBytes(img)| ==
      if RepresentationOf(img) == Monochrome then img.rows * Stride(img.columns)
      else img.rows * img.columns * Bands(img)
  {
    if RepresentationOf(img) == DirectColor {
      var n := img.columns * img.rows;
      assert |DirectBytes(img)| == n * Bands(img);
    }
  }

  lemma EightTimes(a: nat, b: nat)
    ensures (8 * a) * b == 8 * (a * b) == 8 * (b * a)
  {
  }

  /** The written header announces exactly the raster's bytes, and the
    * raster has room for the pixels at eight per byte. */
  lemma RasterSize(img: SourceImage, c: seq<byte>)
    requires Writable(img) && |c| == CommentSize
    ensures DataBytes(WrittenHeader(img, c)) == |RasterBytes(img)|
    ensures img.columns * img.rows <= 8 * |RasterBytes(img)|
  {
    var h := WrittenHeader(img, c);
    var cols, rows, len := img.columns, img.rows, |RasterBytes(img)|;
    WrittenFields(img, c);
    RasterLength(img);
    assert SampleBytes(h.storage) == 1;
    if RepresentationOf(img) == Monochrome {
      var st := Stride(cols);
      assert MaxPackets(h) == st * rows;
      assert len == rows * st == st * rows;
      MulMono(cols, 8 * st, rows);
      EightTimes(st, rows);
    } else {
      var b := Bands(img);
      assert MaxPackets(h) == rows * cols * b;
      MulMono(1, b, rows * cols);
      assert b * (rows * cols) == len;
    }
  }

  /** A written header passes the reader's checks in any blob holding its
    * raster. */
  lemma WrittenHeaderChecks(img: SourceImage, c: seq<byte>, blobSize: nat)
    requires Writable(img) && |c| == CommentSize && |RasterBytes(img)| <= blobSize
    ensures CheckHeader(WrittenHeader(img, c), blobSize).None?
  {
    WrittenFields(img, c);
    RasterSize(img, c);
    MulMono(1, img.columns, img.rows);
  }

  /** A sample cut to eight bits and scaled back. */
  function Quantized(q: Quantum): (r: Quantum)
    ensures r % 257 == 0 && r / 257 == ScaleQuantumToChar(q)
  {
    ScaleCharToQuantum(ScaleQuantumToChar(q))
  }

  /** A colormap entry as read back: its colour quantized, opaque. */
  function MapEntry(p: Pixel): Pixel
  {
    Pixel(Quantized(p.red), Quantized(p.green), Quantized(p.blue), OpaqueOpacity)
  }

  /** The colormap the reader recovers: the written colormap quantized for
    * a colormapped image, the ramps of two and 256 entries for bitmaps and
    * gray images, and none for direct colour. */
  function WrittenColormap(img: SourceImage): (m: Option<seq<Pixel>>)
    ensures m.Some? <==> !img.direct
    ensures RepresentationOf(img) == Colormapped ==> |m.value| == |img.colormap|
  {
    match RepresentationOf(img)
    case DirectColor => None
    case Colormapped => Some(seq(|img.colormap|, j requires 0 <= j < |img.colormap| => MapEntry(img.colormap[j])))
    case Monochrome => Some(Ramp(2))
    case Grayscale => Some(Ramp(256))
  }

  /** The map bytes the writer puts between header and raster. */
  function MapBytesWritten(img: SourceImage): (b: seq<byte>)
    ensures |b| == if RepresentationOf(img) == Colormapped then 3 * |img.colormap| else 0
  {
    if RepresentationOf(img) == Colormapped then ColormapBytes(img) else []
  }

  /** A byte read as a map value gives the byte scaled up. */
  lemma MapQuantumOfByte(v: byte)
    ensures MapQuantum(v as real) == ScaleCharToQuantum(v)
  {
    assert (v as real).Floor == v;
  }

  /** Entry `j` of the colormap dump, read as one-byte map values in
    * three planes, is entry `j` of the colormap quantized. */
  lemma DumpEntryReadBack(img: SourceImage, codec: RealCodec, j: nat)
    requires RepresentationOf(img) == Colormapped && j < |img.colormap|
    ensures var colors := |img.colormap|;
      PlaneMap(Samples(ColormapBytes(img), Typ1Byte, codec), colors, 3)[j] == MapEntry(img.colormap[j])
  {
    var colors := |img.colormap|;
    var bytes := ColormapBytes(img);
    var p := img.colormap[j];
    assert bytes[j] == ScaleQuantumToChar(p.red);
    assert bytes[colors + j] == ScaleQuantumToChar(p.green);
    assert bytes[2 * colors + j] == ScaleQuantumToChar(p.blue);
    MapQuantumOfByte(bytes[j]);
    MapQuantumOfByte(bytes[colors + j]);
    MapQuantumOfByte(bytes[2 * colors + j]);
  }

  /** The colormap dump, read as one-byte map values in three planes,
    * gives the colormap quantized. */
  lemma DumpReadBack(img: SourceImage, codec: RealCodec)
    requires RepresentationOf(img) == Colormapped
    ensures var colors := |img.colormap|;
      PlaneMap(Samples(ColormapBytes(img), Typ1Byte, codec), colors, 3) == WrittenColormap(img).value
  {
    var colors := |img.colormap|;
    var m := PlaneMap(Samples(ColormapBytes(img), Typ1Byte, codec), colors, 3);
    forall j | 0 <= j < colors
      ensures m[j] == MapEntry(img.colormap[j])
    {
      DumpEntryReadBack(img, codec, j);
    }
  }

  /** The map planes after a written header read back as the colormap,
    * quantized. */
  lemma PlanesReadBack(img: SourceImage, c: seq<byte>, blob: seq<byte>, at: nat, codec: RealCodec)
    requires Writable(img) && |c| == CommentSize && RepresentationOf(img) == Colormapped
    requires At(blob, at, ColormapBytes(img))
    ensures var h := WrittenHeader(img, c);
      h.mapRows >= 1 && at + MapBytes(h) <= |blob| && PlaneColormap(blob, at, h, codec) == WrittenColormap(img).value
  {
    var h := WrittenHeader(img, c);
    WrittenFields(img, c);
    assert MapBytes(h) == 3 * |img.colormap|;
    assert MapSampleStorage(h.mapStorage) == Typ1Byte;
    DumpReadBack(img, codec);
  }

  /** The colormap stage after a written header recovers the written
    * colormap and ends just past the map bytes. */
  lemma MapRoundTrip(img: SourceImage, c: seq<byte>, blob: seq<byte>, at: nat, codec: RealCodec)
    requires Writable(img) && |c| == CommentSize && HeaderSize <= at
    requires At(blob, at, MapBytesWritten(img))
    ensures ReadMap(blob, at, WrittenHeader(img, c), codec)
      == Success(MapRead(WrittenColormap(img), at + |MapBytesWritten(img)|))
  {
    WrittenFields(img, c);
    if RepresentationOf(img) == Colormapped {
      PlanesReadBack(img, c, blob, at, codec);
    }
  }

  /** One-byte and bit samples are neither swapped nor rescaled: the
    * converted buffer is the data as read, zero-padded. */
  lemma UnscaledData(blob: seq<byte>, at: nat, h: Header, codec: RealCodec)
    requires CheckHeader(h, |blob|).None? && DataError(blob, at, h).None?
    requires h.storage == TypBit || h.storage == Typ1Byte
    ensures SampleData(blob, at, h, codec) == Padded(blob, at, h)
  {
    CheckedHeader(h, |blob|);
    BufferFits(h);
    var b := Padded(blob, at, h);
    assert InHostOrder(b, h.storage, LsbFirst(h.machineDependency), DataBytes(h)) == b;
    assert ScalingFor(b, h.storage, codec, MaxPackets(h), MapScheme(h) == MsNone) == Unscaled;
    ConvertBytes(b, h.storage, codec, MaxPackets(h), MapScheme(h) == MsNone);
  }

  /** The converted buffer after a written header starts with the raster
    * bytes. */
  lemma SamplesReadBack(img: SourceImage, c: seq<byte>, blob: seq<byte>, at: nat, codec: RealCodec)
    requires Writable(img) && |c| == CommentSize
    requires At(blob, at, RasterBytes(img))
    ensures var h := WrittenHeader(img, c);
      CheckHeader(h, |blob|).None? && DataError(blob, at, h).None?
      && |RasterBytes(img)| <= |SampleData(blob, at, h, codec)|
      && SampleData(blob, at, h, codec)[..|RasterBytes(img)|] == RasterBytes(img)
  {
    var h := WrittenHeader(img, c);
    WrittenFields(img, c);
    RasterSize(img, c);
    WrittenHeaderChecks(img, c, |blob|);
    UnscaledData(blob, at, h, codec);
  }

  /** A direct-colour pixel as read back: each channel quantized, and the
    * alpha quantized when there is a matte. */
  function DirectPixel(p: Pixel, matte: bool): Pixel
  {
    Pixel(Quantized(p.red), Quantized(p.green), Quantized(p.blue),
          if matte then QuantumRange - Quantized(Alpha(p)) else OpaqueOpacity)
  }

  /** The bitmap indexes the writer means: 0 (black) for a dark pixel, 1
    * (white) otherwise. */
  function MonoIndexes(img: SourceImage): (r: seq<nat>)
    requires Valid(img)
    ensures |r| == img.columns * img.rows
  {
    seq(|img.luma|, i requires 0 <= i < |img.luma| => if Dark(img.luma[i]) then 0 else 1)
  }

  /** The raster the reader recovers from a written image: quantized
    * pixels for direct colour; for a colormapped image the quantized
    * colormap and each index cut to a byte; for a bitmap the two-entry
    * ramp and the dark flags; for a gray image the 256-entry ramp and
    * each pixel's luma cut to eight bits. */
  function ReadBackRaster(img: SourceImage): Raster
    requires Valid(img)
  {
    match RepresentationOf(img)
    case DirectColor => Direct(seq(|img.pixels|, i requires 0 <= i < |img.pixels| => DirectPixel(img.pixels[i], img.matte)))
    case Colormapped => Indexed(WrittenColormap(img).value, seq(|img.indexes|, i requires 0 <= i < |img.indexes| => img.indexes[i] % 256))
    case Monochrome => Indexed(Ramp(2), MonoIndexes(img))
    case Grayscale => Indexed(Ramp(256), GrayIndexes(img))
  }

  /** The gray indexes the writer means: each pixel's luma, clamped and cut
    * to eight bits. */
  function GrayIndexes(img: SourceImage): (r: seq<nat>)
  {
    seq(|img.luma|, i requires 0 <= i < |img.luma| => ScaleQuantumToChar(ClampToQuantum(img.luma[i])))
  }

  /** Flag `x` of `n` sits in byte `x / 8` of a packed row, at bit
    * `x mod 8`. */
  lemma ByteOfFlag(x: nat, n: nat)
    requires x < n
    ensures x / 8 < Stride(n) && 8 * (x / 8) <= x < 8 * (x / 8) + 8 && x % 8 == x - 8 * (x / 8)
  {
  }

  /** Bit `x mod 8` of byte `x / 8` of a packed row is flag `x`. */
  lemma MonoRowBit(ds: seq<bool>, x: nat)
    requires x < |ds|
    ensures x / 8 < |MonoRow(ds)| && (Bit(MonoRow(ds)[x / 8], x % 8) <==> ds[x])
  {
    ByteOfFlag(x, |ds|);
    MonoRowBitAt(ds, x / 8, x % 8);
  }

  /** Bit `k` of byte `j` of a packed row is flag `8 j + k`. */
  lemma MonoRowBitAt(ds: seq<bool>, j: nat, k: nat)
    requires k < 8 && 8 * j + k < |ds| && j < Stride(|ds|)
    ensures j < |MonoRow(ds)| && (Bit(MonoRow(ds)[j], k) <==> ds[8 * j + k])
  {
    var lo := 8 * j;
    var e := if lo + 8 <= |ds| then lo + 8 else |ds|;
    var chunk := ds[lo..e];
    assert MonoRow(ds)[j] == PackedByte(chunk);
    assert chunk[k] == ds[lo + k];
    PackBitsBit(chunk, k);
  }

  /** Row `y` of a buffer starting with the bitmap raster is row `y`'s
    * flags packed. */
  lemma RowBytesAt(img: SourceImage, data: seq<byte>, y: nat, at: nat)
    requires Valid(img) && y < img.rows && at == y * Stride(img.columns)
    requires img.rows * Stride(img.columns) <= |data|
    requires data[..img.rows * Stride(img.columns)] == MonoBytes(img, img.rows)
    ensures at + Stride(img.columns) <= |data|
    ensures data[at..at + Stride(img.columns)] == MonoRow(RowDarks(img, y))
  {
    var st := Stride(img.columns);
    MonoBytesRow(img, y);
    MulMono(y + 1, img.rows, st);
    AddMul(y, 1, st);
    SubSlice(data, 0, MonoBytes(img, img.rows), at, at + st);
  }

  /** Pixel `x` of a packed row of flags, wherever the row sits, reads
    * back as its flag. */
  lemma BitPixelReadBack(ds: seq<bool>, data: seq<byte>, at: nat, x: nat)
    requires x < |ds| && at + |MonoRow(ds)| <= |data| && data[at..at + |MonoRow(ds)|] == MonoRow(ds)
    ensures at + x / 8 < |data| && BitIndex(data, at, x) == if ds[x] then 0 else 1
  {
    var row := MonoRow(ds);
    MonoRowBit(ds, x);
    assert data[at + x / 8] == data[at..at + |row|][x / 8];
  }

  /** A packed row of dark flags at `at` reads back as the flags of the
    * pixels from `base` on. */
  lemma PackedRowReadBack(img: SourceImage, data: seq<byte>, y: nat, at: nat, base: nat)
    requires Valid(img) && y < img.rows && base == y * img.columns && base + img.columns <= |img.luma|
    requires at + Stride(img.columns) <= |data| && data[at..at + Stride(img.columns)] == MonoRow(RowDarks(img, y))
    ensures BitRow(data, at, img.columns) == MonoIndexes(img)[base..base + img.columns]
  {
    var cols := img.columns;
    var ds := RowDarks(img, y);
    var all := MonoIndexes(img);
    var want := all[base..base + cols];
    var got := BitRow(data, at, cols);
    forall x | 0 <= x < cols
      ensures got[x] == want[x]
    {
      assert want[x] == all[base + x];
      assert ds[x] == Dark(img.luma[base + x]);
      BitPixelReadBack(ds, data, at, x);
    }
  }

  /** The first `r` bitmap rows read back as the first `r` rows of dark
    * flags. */
  lemma {:induction false} BitmapReadBack(img: SourceImage, data: seq<byte>, r: nat)
    requires Valid(img) && r <= img.rows
    requires img.rows * Stride(img.columns) <= |data|
    requires data[..img.rows * Stride(img.columns)] == MonoBytes(img, img.rows)
    ensures r * Stride(img.columns) <= |data| && r * img.columns <= |MonoIndexes(img)|
    ensures Bitmap(data, img.columns, r) == MonoIndexes(img)[..r * img.columns]
  {
    var cols, st := img.columns, Stride(img.columns);
    MulMono(r, img.rows, st);
    MulMono(r, img.rows, cols);
    if r > 0 {
      var y := r - 1;
      MulMono(0, y, st);
      MulMono(0, y, cols);
      AddMul(y, 1, st);
      AddMul(y, 1, cols);
      var at, base := y * st, y * cols;
      BitmapReadBack(img, data, y);
      RowBytesAt(img, data, y, at);
      PackedRowReadBack(img, data, y, at, base);
      var all := MonoIndexes(img);
      assert Bitmap(data, cols, r) == Bitmap(data, cols, y) + BitRow(data, at, cols);
      assert all[..r * cols] == all[..base] + all[base..base + cols];
    }
  }

  /** The colormapped raster reads back as the indexes cut to a byte. */
  lemma IndexesReadBack(img: SourceImage, data: seq<byte>)
    requires |img.indexes| <= |data| && data[..|img.indexes|] == IndexBytes(img)
    ensures ByteIndexes(data, |img.indexes|) == seq(|img.indexes|, i requires 0 <= i < |img.indexes| => img.indexes[i] % 256)
  {
    forall i | 0 <= i < |img.indexes|
      ensures data[i] == IndexBytes(img)[i]
    {
      assert data[i] == data[..|img.indexes|][i];
    }
  }

  /** The gray raster reads back as the luma cut to eight bits. */
  lemma GrayReadBack(img: SourceImage, data: seq<byte>)
    requires |img.luma| <= |data| && data[..|img.luma|] == GrayBytes(img)
    ensures ByteIndexes(data, |img.luma|) == GrayIndexes(img)
  {
    forall i | 0 <= i < |img.luma|
      ensures data[i] == GrayBytes(img)[i]
    {
      assert data[i] == data[..|img.luma|][i];
    }
  }

  /** The direct-colour planes read back as the pixels quantized. */
  lemma PlanarReadBack(img: SourceImage, data: seq<byte>)
    requires |DirectBytes(img)| <= |data| && data[..|DirectBytes(img)|] == DirectBytes(img)
    ensures var n := |img.pixels|; (if img.matte then 4 * n else 3 * n) <= |data|
    ensures PlanarPixels(data, |img.pixels|, img.matte)
      == seq(|img.pixels|, i requires 0 <= i < |img.pixels| => DirectPixel(img.pixels[i], img.matte))
  {
    var n := |img.pixels|;
    var b := DirectBytes(img);
    forall p | 0 <= p < n
      ensures PlanarPixel(data, n, img.matte, p) == DirectPixel(img.pixels[p], img.matte)
    {
      var px := img.pixels[p];
      assert data[p] == b[p] == ScaleQuantumToChar(px.red);
      assert data[p + n] == b[p + n] == ScaleQuantumToChar(px.green);
      assert data[p + 2 * n] == b[p + 2 * n] == ScaleQuantumToChar(px.blue);
      if img.matte {
        assert data[p + 3 * n] == b[p + 3 * n] == ScaleQuantumToChar(Alpha(px));
      }
    }
  }

  /** Direct colour reads back plane by plane. */
  lemma DirectRasterReadBack(img: SourceImage, c: seq<byte>, data: seq<byte>)
    requires Writable(img) && |c| == CommentSize
    requires MaxPackets(WrittenHeader(img, c)) <= |data| && PixelCount(WrittenHeader(img, c)) <= |data|
    requires |RasterBytes(img)| <= |data| && data[..|RasterBytes(img)|] == RasterBytes(img)
    requires RepresentationOf(img) == DirectColor
    ensures var h := WrittenHeader(img, c); 3 <= h.bands <= 4 && MaxPackets(h) == PixelCount(h) * h.bands
    ensures RasterOf(WrittenHeader(img, c), WrittenColormap(img), data) == ReadBackRaster(img)
  {
    var h := WrittenHeader(img, c);
    WrittenFields(img, c);
    assert PixelCount(h) == img.rows * img.columns == |img.pixels|;
    PlanarReadBack(img, data);
  }

  /** Colormap indexes read back cut to a byte. */
  lemma MappedRasterReadBack(img: SourceImage, c: seq<byte>, data: seq<byte>)
    requires Writable(img) && |c| == CommentSize
    requires MaxPackets(WrittenHeader(img, c)) <= |data| && PixelCount(WrittenHeader(img, c)) <= |data|
    requires |RasterBytes(img)| <= |data| && data[..|RasterBytes(img)|] == RasterBytes(img)
    requires RepresentationOf(img) == Colormapped
    ensures RasterOf(WrittenHeader(img, c), WrittenColormap(img), data) == ReadBackRaster(img)
  {
    var h := WrittenHeader(img, c);
    WrittenFields(img, c);
    assert PixelCount(h) == img.rows * img.columns == |img.pixels|;
    IndexesReadBack(img, data);
  }

  /** A bitmap reads back row by row. */
  lemma MonoRasterReadBack(img: SourceImage, c: seq<byte>, data: seq<byte>)
    requires Writable(img) && |c| == CommentSize
    requires MaxPackets(WrittenHeader(img, c)) <= |data| && PixelCount(WrittenHeader(img, c)) <= |data|
    requires |RasterBytes(img)| <= |data| && data[..|RasterBytes(img)|] == RasterBytes(img)
    requires RepresentationOf(img) == Monochrome
    ensures RasterOf(WrittenHeader(img, c), WrittenColormap(img), data) == ReadBackRaster(img)
  {
    var h := WrittenHeader(img, c);
    WrittenFields(img, c);
    assert RasterBytes(img) == MonoBytes(img, img.rows);
    BitmapReadBack(img, data, img.rows);
    var all := MonoIndexes(img);
    assert all[..img.rows * img.columns] == all;
    assert RasterOf(h, WrittenColormap(img), data) == Indexed(Ramp(2), Bitmap(data, img.columns, img.rows));
  }

  /** Gray levels read back as indexes into the 256-entry ramp. */
  lemma GrayRasterReadBack(img: SourceImage, c: seq<byte>, data: seq<byte>)
    requires Writable(img) && |c| == CommentSize
    requires MaxPackets(WrittenHeader(img, c)) <= |data| && PixelCount(WrittenHeader(img, c)) <= |data|
    requires |RasterBytes(img)| <= |data| && data[..|RasterBytes(img)|] == RasterBytes(img)
    requires RepresentationOf(img) == Grayscale
    ensures RasterOf(WrittenHeader(img, c), WrittenColormap(img), data) == ReadBackRaster(img)
  {
    var h := WrittenHeader(img, c);
    WrittenFields(img, c);
    assert PixelCount(h) == img.rows * img.columns == |img.pixels|;
    GrayReadBack(img, data);
  }

  /** The raster stage on a buffer that starts with a written raster
    * recovers the raster the writer means. */
  lemma RasterReadBack(img: SourceImage, c: seq<byte>, data: seq<byte>)
    requires Writable(img) && |c| == CommentSize
    requires MaxPackets(WrittenHeader(img, c)) <= |data| && PixelCount(WrittenHeader(img, c)) <= |data|
    requires |RasterBytes(img)| <= |data| && data[..|RasterBytes(img)|] == RasterBytes(img)
    ensures var h := WrittenHeader(img, c);
      h.storage != TypBit && img.direct ==> 3 <= h.bands <= 4 && MaxPackets(h) == PixelCount(h) * h.bands
    ensures RasterOf(WrittenHeader(img, c), WrittenColormap(img), data) == ReadBackRaster(img)
  {
    match RepresentationOf(img)
    case DirectColor => DirectRasterReadBack(img, c, data);
    case Colormapped => MappedRasterReadBack(img, c, data);
    case Monochrome => MonoRasterReadBack(img, c, data);
    case Grayscale => GrayRasterReadBack(img, c, data);
  }

  /** The image the data stage builds after a written header: the width
    * and height, depth 16 (the header's bits per pixel is the bit pattern
    * of 1.0, read as an integer above 8), a matte exactly for direct
    * colour with a matte, the header's comment and the raster the writer
    * means. */
  lemma DataReadBack(img: SourceImage, c: seq<byte>, blob: seq<byte>, at: nat, codec: RealCodec)
    requires Writable(img) && |c| == CommentSize
    requires At(blob, at, RasterBytes(img))
    ensures var h := WrittenHeader(img, c);
      CheckHeader(h, |blob|).None? && (img.direct ==> MapScheme(h) == MsNone && h.bands >= 3)
      && DecodeData(blob, at, h, WrittenColormap(img), codec) == Success(Decoded(HeaderImage(img, c), at + |RasterBytes(img)|))
  {
    var h := WrittenHeader(img, c);
    WrittenFields(img, c);
    SamplesReadBack(img, c, blob, at, codec);
    RasterSize(img, c);
    BufferFits(h);
    RasterReadBack(img, c, SampleData(blob, at, h, codec));
  }

  /** Where the parts of a written image sit. */
  lemma ImageLayout(img: SourceImage, c: seq<byte>, blob: seq<byte>, off: nat)
    requires Valid(img) && |c| == CommentSize
    requires At(blob, off, ImageBytes(img, c))
    ensures var m, r := MapBytesWritten(img), RasterBytes(img);
      |ImageBytes(img, c)| == HeaderSize + |m| + |r| && At(blob, off, HeaderBytes(img, c))
      && At(blob, off + HeaderSize, m) && At(blob, off + HeaderSize + |m|, r)
  {
    assert ImageBytes(img, c) == HeaderBytes(img, c) + MapBytesWritten(img) + RasterBytes(img);
    ThreeParts(blob, off, HeaderBytes(img, c), MapBytesWritten(img), RasterBytes(img));
  }

  /** Three byte strings placed one after the other. */
  lemma ThreeParts(blob: seq<byte>, off: nat, a: seq<byte>, b: seq<byte>, d: seq<byte>)
    requires At(blob, off, a + b + d)
    ensures At(blob, off, a) && At(blob, off + |a|, b) && At(blob, off + |a| + |b|, d)
  {
    var s := a + b + d;
    SubSlice(blob, off, s, 0, |a|);
    SubSlice(blob, off, s, |a|, |a| + |b|);
    SubSlice(blob, off, s, |a| + |b|, |s|);
    assert s[..|a|] == a;
    assert s[|a|..|a| + |b|] == b;
    assert s[|a| + |b|..] == d;
  }

  /** The comment field holds at most 511 characters before a zero, so
    * cutting its last byte to zero keeps its string. */
  lemma {:induction false} CStringCut(s: seq<byte>)
    requires |CString(s)| < |s|
    ensures CString(s[..|s| - 1] + [0]) == CString(s)
  {
    if s[0] != 0 {
      assert (s[..|s| - 1] + [0])[1..] == s[1..][..|s[1..]| - 1] + [0];
      CStringCut(s[1..]);
    }
  }

  /** The image read back from a written image whose comment was
    * `comment`: the comment cut to 511 characters, kept only when longer
    * than four. */
  function CommentReadBack(comment: Option<seq<byte>>): (r: Option<seq<byte>>)
    ensures r.Some? ==> comment.Some? && 4 < |r.value| <= 511 && r.value <= CString(comment.value)
  {
    if comment.None? then None
    else
      var s := CString(comment.value);
      var t := if |s| < 511 then s else s[..511];
      if |t| > 4 then Some(t) else None
  }

  /** What the reader recovers of a written image. */
  function ReadBackImage(img: SourceImage): ViffImage
    requires Valid(img)
  {
    ViffImage(img.columns, img.rows, 16, img.direct && img.matte, CommentReadBack(img.comment), ReadBackRaster(img))
  }

  /** The comment property read back from the comment field the writer
    * fills from an image's comment. */
  lemma CommentRoundTrip(img: SourceImage, prev: seq<byte>)
    requires |prev| == CommentSize
    ensures CommentProperty(WrittenHeader(img, CommentBuffer(prev, img.comment))) == CommentReadBack(img.comment)
  {
    var c := CommentBuffer(prev, img.comment);
    CommentBufferString(prev, img.comment);
    assert |CString(c)| < |c| by {
      if img.comment.Some? {
        assert |CString(c)| <= 511;
      }
    }
    CStringCut(c);
    assert c[..CommentSize - 1] == c[..|c| - 1];
    assert WrittenHeader(img, c).comment == c[..|c| - 1] + [0];
    if img.comment.Some? {
      var s := CString(img.comment.value);
      assert s[..|s|] == s;
    }
  }

  /** The image a written header and its comment field describe. */
  function HeaderImage(img: SourceImage, c: seq<byte>): ViffImage
    requires Valid(img) && |c| == CommentSize
  {
    ViffImage(img.columns, img.rows, 16, img.direct && img.matte, CommentProperty(WrittenHeader(img, c)), ReadBackRaster(img))
  }

  /** The body of an image is read as its colormap and data stages are. */
  lemma BodyOf(blob: seq<byte>, at: nat, h: Header, codec: RealCodec, mr: MapRead, d: Decoded)
    requires CheckHeader(h, |blob|).None? && ReadMap(blob, at, h, codec) == Success(mr)
    requires mr.colormap.None? ==> MapScheme(h) == MsNone && h.bands >= 3
    requires DecodeData(blob, mr.next, h, mr.colormap, codec) == Success(d)
    ensures DecodeBody(blob, at, h, codec) == Success(d)
  {
  }

  /** The colormap and data stages after a written header read the map
    * bytes and the raster that follow it. */
  lemma BodyReadBack(img: SourceImage, c: seq<byte>, blob: seq<byte>, at: nat, codec: RealCodec)
    requires Writable(img) && |c| == CommentSize && HeaderSize <= at
    requires At(blob, at, MapBytesWritten(img)) && At(blob, at + |MapBytesWritten(img)|, RasterBytes(img))
    ensures CheckHeader(WrittenHeader(img, c), |blob|).None?
    ensures DecodeBody(blob, at, WrittenHeader(img, c), codec)
      == Success(Decoded(HeaderImage(img, c), at + |MapBytesWritten(img)| + |RasterBytes(img)|))
  {
    var next := at + |MapBytesWritten(img)|;
    MapRoundTrip(img, c, blob, at, codec);
    DataReadBack(img, c, blob, next, codec);
    BodyOf(blob, at, WrittenHeader(img, c), codec, MapRead(WrittenColormap(img), next),
      Decoded(HeaderImage(img, c), next + |RasterBytes(img)|));
  }

  /** A written image's header, colormap and raster bytes, one after the
    * other from `off`. */
  predicate Placed(img: SourceImage, c: seq<byte>, blob: seq<byte>, off: nat)
  {
    Writable(img) && |c| == CommentSize && At(blob, off, HeaderBytes(img, c))
    && At(blob, off + HeaderSize, MapBytesWritten(img))
    && At(blob, off + HeaderSize + |MapBytesWritten(img)|, RasterBytes(img))
  }

  /** Where the bytes of a written image placed at `off` end. */
  function ImageEnd(img: SourceImage, off: nat): nat
    requires Valid(img)
  {
    off + HeaderSize + |MapBytesWritten(img)| + |RasterBytes(img)|
  }

  /** The body stages of a placed image. */
  lemma BodyPlaced(img: SourceImage, c: seq<byte>, blob: seq<byte>, off: nat, codec: RealCodec)
    requires Placed(img, c, blob, off)
    ensures CheckHeader(WrittenHeader(img, c), |blob|).None?
    ensures DecodeBody(blob, off + HeaderSize, WrittenHeader(img, c), codec)
      == Success(Decoded(HeaderImage(img, c), ImageEnd(img, off)))
  {
    var at := off + HeaderSize;
    BodyReadBack(img, c, blob, at, codec);
    assert at + |MapBytesWritten(img)| + |RasterBytes(img)| == ImageEnd(img, off);
  }

  /** A written header, in a blob holding its raster, parses back and
    * passes the checks. */
  lemma HeaderAtWritten(img: SourceImage, c: seq<byte>, blob: seq<byte>, off: nat)
    requires Writable(img) && |c| == CommentSize
    requires At(blob, off, HeaderBytes(img, c)) && |RasterBytes(img)| <= |blob|
    ensures HeaderAt(blob, off) == Success(WrittenHeader(img, c))
  {
    HeaderRoundTrip(img, c, blob, off);
    WrittenHeaderChecks(img, c, |blob|);
  }

  /** The header stage of a placed image. */
  lemma HeaderPlaced(img: SourceImage, c: seq<byte>, blob: seq<byte>, off: nat)
    requires Placed(img, c, blob, off)
    ensures HeaderAt(blob, off) == Success(WrittenHeader(img, c))
  {
    HeaderAtWritten(img, c, blob, off);
  }

  /** One image is read as its header and body are. */
  lemma ReadOneOf(blob: seq<byte>, off: nat, codec: RealCodec, h: Header, d: Decoded)
    requires HeaderAt(blob, off) == Success(h)
    requires CheckHeader(h, |blob|).None? && DecodeBody(blob, off + HeaderSize, h, codec) == Success(d)
    ensures ReadOne(blob, off, codec) == Success(d)
  {
  }

  /** A written image reads back, from wherever it sits in a blob, as the
    * image its header describes, and the read ends just past its raster. */
  lemma ImageReadBack(img: SourceImage, c: seq<byte>, blob: seq<byte>, off: nat, codec: RealCodec)
    requires Placed(img, c, blob, off)
    ensures ReadOne(blob, off, codec) == Success(Decoded(HeaderImage(img, c), ImageEnd(img, off)))
  {
    // The body first: its preconditions are cheaper to discharge before
    // the parsed header is in view.
    BodyPlaced(img, c, blob, off, codec);
    HeaderPlaced(img, c, blob, off);
    ReadOneOf(blob, off, codec, WrittenHeader(img, c), Decoded(HeaderImage(img, c), ImageEnd(img, off)));
  }

  /** A written image's bytes, wherever they sit, are placed there. */
  lemma PlacedLayout(img: SourceImage, c: seq<byte>, blob: seq<byte>, off: nat)
    requires Writable(img) && |c| == CommentSize
    requires At(blob, off, ImageBytes(img, c))
    ensures Placed(img, c, blob, off) && off + |ImageBytes(img, c)| == ImageEnd(img, off)
  {
    ImageLayout(img, c, blob, off);
  }

  /** The image a written header describes is the image read back. */
  lemma HeaderImageReadBack(img: SourceImage, prev: seq<byte>)
    requires Valid(img) && |prev| == CommentSize
    ensures HeaderImage(img, CommentBuffer(prev, img.comment)) == ReadBackImage(img)
  {
    CommentRoundTrip(img, prev);
  }

  /** A written image reads back, from wherever it sits in a blob, as
    * what the reader recovers of it, and the read ends just past it
    * (`PlacedLayout`: at `off + |ImageBytes(img, c)|`). */
  lemma ReadOneWritten(img: SourceImage, prev: seq<byte>, blob: seq<byte>, off: nat, codec: RealCodec)
    requires Writable(img) && |prev| == CommentSize
    requires At(blob, off, ImageBytes(img, CommentBuffer(prev, img.comment)))
    ensures ReadOne(blob, off, codec) == Success(Decoded(ReadBackImage(img), ImageEnd(img, off)))
  {
    var c := CommentBuffer(prev, img.comment);
    PlacedLayout(img, c, blob, off);
    HeaderImageReadBack(img, prev);
    ImageReadBack(img, c, blob, off, codec);
  }

  /** The images a list of written images reads back as. */
  function ReadBackImages(images: seq<SourceImage>): (r: seq<ViffImage>)
    requires forall k :: 0 <= k < |images| ==> Valid(images[k])
    ensures |r| == |images|
  {
    seq(|images|, k requires 0 <= k < |images| => ReadBackImage(images[k]))
  }

  /** A written list starts with the identifier byte. */
  lemma EncodeListHead(images: seq<SourceImage>, adjoin: bool, comment: seq<byte>)
    requires |images| >= 1 && |comment| == CommentSize
    requires forall k :: 0 <= k < |images| ==> Valid(images[k])
    ensures |EncodeList(images, adjoin, comment)| >= HeaderSize
    ensures EncodeList(images, adjoin, comment)[0] == Identifier && EncodeList(images, adjoin, comment)[1] == 1
  {
    var c := CommentBuffer(comment, images[0].comment);
    var hb := HeaderBytes(images[0], c);
    assert hb[0] == Identifier && hb[1] == 1;
    assert ImageBytes(images[0], c)[..HeaderSize] == hb;
    assert EncodeList(images, adjoin, comment)[..HeaderSize] == hb;
  }

  /** The image list is read one image at a time: the image at `off`,
    * then, when the byte after it is the identifier, the images from
    * there on. */
  lemma ReadAllOf(blob: seq<byte>, off: nat, codec: RealCodec, image: ViffImage, next: nat)
    requires ReadOne(blob, off, codec) == Success(Decoded(image, next))
    ensures next < |blob| && blob[next] == Identifier ==>
      ReadAll(blob, off, codec) == Prepend([image], ReadAll(blob, next, codec))
    ensures !(next < |blob| && blob[next] == Identifier) ==> ReadAll(blob, off, codec) == Success([image])
  {
  }

  /** Where scene `i` of a written list ends: at the end of the bytes
    * when it is the last one written, and otherwise where the next
    * scene's bytes begin. */
  lemma ListLayout(images: seq<SourceImage>, i: nat, adjoin: bool, comment: seq<byte>, blob: seq<byte>, off: nat)
    requires i < |images| && |comment| == CommentSize
    requires forall k :: 0 <= k < |images| ==> Valid(images[k])
    requires off <= |blob| && blob[off..] == EncodeList(images[i..], adjoin, comment)
    ensures var img, c := images[i], CommentBuffer(comment, images[i].comment);
      At(blob, off, ImageBytes(img, c)) && ImageEnd(img, off) <= |blob|
      && (i + 1 == |images| || !adjoin ==> ImageEnd(img, off) == |blob|)
      && (i + 1 < |images| && adjoin ==>
            ImageEnd(img, off) < |blob| && blob[ImageEnd(img, off)] == Identifier
            && blob[ImageEnd(img, off)..] == EncodeList(images[i + 1..], adjoin, c))
  {
    var img := images[i];
    var c := CommentBuffer(comment, img.comment);
    var b := ImageBytes(img, c);
    var last := i + 1 == |images| || !adjoin;
    var rest := if last then [] else EncodeList(images[i + 1..], adjoin, c);
    ListUnfold(images, i, adjoin, comment);
    ImageEndIs(img, c, off);
    SceneSplit(blob, off, b, rest, ImageEnd(img, off), last);
    if !last {
      NextScene(images[i + 1..], adjoin, c, blob, ImageEnd(img, off));
    }
  }

  /** The list from scene `i` on is scene `i`'s bytes, followed by the
    * rest of the list when joining. */
  lemma ListUnfold(images: seq<SourceImage>, i: nat, adjoin: bool, comment: seq<byte>)
    requires i < |images| && |comment| == CommentSize
    requires forall k :: 0 <= k < |images| ==> Valid(images[k])
    ensures var c := CommentBuffer(comment, images[i].comment);
      EncodeList(images[i..], adjoin, comment) ==
        if i + 1 == |images| || !adjoin then ImageBytes(images[i], c)
        else ImageBytes(images[i], c) + EncodeList(images[i + 1..], adjoin, c)
  {
    assert images[i..][0] == images[i];
    assert images[i..][1..] == images[i + 1..];
  }

  /** One image's bytes end where `ImageEnd` says. */
  lemma ImageEndIs(img: SourceImage, c: seq<byte>, off: nat)
    requires Valid(img) && |c| == CommentSize
    ensures off + |ImageBytes(img, c)| == ImageEnd(img, off)
  {
    assert ImageBytes(img, c) == HeaderBytes(img, c) + MapBytesWritten(img) + RasterBytes(img);
  }

  /** Bytes from `off` on that are `b`, followed by `rest` unless `b` is
    * the last: `b` stands at `off`, and `rest` follows it or the bytes end
    * with `b`. */
  lemma SceneSplit(blob: seq<byte>, off: nat, b: seq<byte>, rest: seq<byte>, e: nat, last: bool)
    requires off <= |blob| && e == off + |b|
    requires blob[off..] == if last then b else b + rest
    ensures At(blob, off, b) && e <= |blob|
    ensures last ==> e == |blob|
    ensures !last ==> blob[e..] == rest
  {
    var t := if last then b else b + rest;
    assert blob[off..off + |b|] == t[..|b|];
    assert blob[e..] == t[|b|..];
  }

  /** Where the bytes of a further scene begin, the identifier stands. */
  lemma NextScene(images: seq<SourceImage>, adjoin: bool, c: seq<byte>, blob: seq<byte>, next: nat)
    requires |images| >= 1 && |c| == CommentSize
    requires forall k :: 0 <= k < |images| ==> Valid(images[k])
    requires next <= |blob| && blob[next..] == EncodeList(images, adjoin, c)
    ensures next < |blob| && blob[next] == Identifier
  {
    EncodeListHead(images, adjoin, c);
    assert blob[next] == blob[next..][0];
  }

  /** The images read back from a list, the first one apart. */
  lemma ReadBackImagesCons(images: seq<SourceImage>, i: nat)
    requires i < |images| && forall k :: 0 <= k < |images| ==> Valid(images[k])
    ensures ReadBackImages(images[i..]) == [ReadBackImage(images[i])] + ReadBackImages(images[i + 1..])
  {
    assert images[i..][0] == images[i];
  }

  /** The images read back from scene `i` on: scene `i` read back, then
    * the images read back from scene `i + 1` on. */
  lemma JoinedReadBack(images: seq<SourceImage>, i: nat, r: Result<seq<ViffImage>, ViffError>,
                       rest: Result<seq<ViffImage>, ViffError>)
    requires i + 1 < |images| && forall k :: 0 <= k < |images| ==> Valid(images[k])
    requires r == Prepend([ReadBackImage(images[i])], rest)
    requires rest == Success(ReadBackImages(images[i + 1..]))
    ensures r == Success(ReadBackImages(images[i..]))
  {
    ReadBackImagesCons(images, i);
  }

  /** The images read back from the last scene on: that scene alone. */
  lemma LastReadBack(images: seq<SourceImage>, i: nat)
    requires i + 1 == |images| && forall k :: 0 <= k < |images| ==> Valid(images[k])
    ensures ReadBackImages(images[i..]) == [ReadBackImage(images[i])]
  {
    ReadBackImagesCons(images, i);
    assert ReadBackImages(images[i..]) == [ReadBackImage(images[i])] + [];
  }

  /** The image list read from a written image: the image read back,
    * then the images from just past it when the identifier follows. */
  lemma ReadAllAt(img: SourceImage, comment: seq<byte>, blob: seq<byte>, off: nat, codec: RealCodec)
    requires Writable(img) && |comment| == CommentSize
    requires At(blob, off, ImageBytes(img, CommentBuffer(comment, img.comment)))
    ensures var next := ImageEnd(img, off);
      next < |blob| && blob[next] == Identifier ==>
        ReadAll(blob, off, codec) == Prepend([ReadBackImage(img)], ReadAll(blob, next, codec))
    ensures var next := ImageEnd(img, off);
      !(next < |blob| && blob[next] == Identifier) ==> ReadAll(blob, off, codec) == Success([ReadBackImage(img)])
  {
    ReadOneWritten(img, comment, blob, off, codec);
    ReadAllOf(blob, off, codec, ReadBackImage(img), ImageEnd(img, off));
  }

  /** The bytes from `off` to the end, written from scene `i` on with the
    * comment field `comment` left by the scenes before, read back as
    * every scene from `i` on when joining, and as scene `i` alone
    * otherwise. */
  lemma {:induction false} ReadAllWritten(images: seq<SourceImage>, i: nat, adjoin: bool, comment: seq<byte>,
                                          blob: seq<byte>, off: nat, codec: RealCodec)
    requires i < |images| && |comment| == CommentSize
    requires forall k :: 0 <= k < |images| ==> Valid(images[k])
    requires forall k :: 0 <= k < |images| ==> Writable(images[k])
    requires off <= |blob| && blob[off..] == EncodeList(images[i..], adjoin, comment)
    ensures ReadAll(blob, off, codec)
      == Success(if adjoin then ReadBackImages(images[i..]) else [ReadBackImage(images[i])])
    decreases |images| - i
  {
    var img := images[i];
    var next := ImageEnd(img, off);
    ListLayout(images, i, adjoin, comment, blob, off);
    ReadAllAt(img, comment, blob, off, codec);
    if i + 1 < |images| && adjoin {
      ReadAllWritten(images, i + 1, adjoin, CommentBuffer(comment, img.comment), blob, next, codec);
      JoinedReadBack(images, i, ReadAll(blob, off, codec), ReadAll(blob, next, codec));
    } else if adjoin {
      LastReadBack(images, i);
    }
  }

  /** A VIFF file written from an image list is recognized as VIFF and
    * reads back as every image of the list when joining, and as the
    * first image alone otherwise. */
  lemma EncodeVIFFReadBack(images: seq<SourceImage>, adjoin: bool, codec: RealCodec)
    requires |images| >= 1 && forall k :: 0 <= k < |images| ==> Valid(images[k])
    requires forall k :: 0 <= k < |images| ==> Writable(images[k])
    ensures IsVIFF(EncodeVIFF(images, adjoin))
    ensures ReadAll(EncodeVIFF(images, adjoin), 0, codec)
      == Success(if adjoin then ReadBackImages(images) else [ReadBackImage(images[0])])
  {
    var blob := EncodeVIFF(images, adjoin);
    EncodeListHead(images, adjoin, ClearedComment());
    assert images[0..] == images;
    assert blob[0..] == blob;
    ReadAllWritten(images, 0, adjoin, ClearedComment(), blob, 0, codec);
  }
}
