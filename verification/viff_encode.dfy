/**
 * What the VIFF writer produces, stated as functions: the representation
 * it chooses for an image, the 1024-byte header it writes in big-endian
 * (IEEE) order, the colormap it dumps, the raster bytes of each
 * representation, and the bytes of a whole image list.
 */
module ViffEncode {
  import opened Bits
  import opened Wrappers
  import opened QuantumTypes
  import opened ViffFormat
  import opened ViffRaster

  /** An image as the writer sees it. `direct` is its storage class,
    * `gray` what the gray test finds, `pixels`, `indexes` and `luma` hold
    * one entry per pixel in row order (`luma` stands for the luma the
    * library computes from the pixel), and `comment` is the image's
    * comment property. */
  datatype SourceImage = SourceImage(
    columns: nat, rows: nat, direct: bool, matte: bool, gray: bool,
    colormap: seq<Pixel>, pixels: seq<Pixel>, indexes: seq<nat>, luma: seq<real>,
    comment: Option<seq<byte>>)

  /** One entry per pixel in each per-pixel sequence. */
  predicate Valid(img: SourceImage)
  {
    |img.pixels| == img.columns * img.rows && |img.indexes| == img.columns * img.rows
    && |img.luma| == img.columns * img.rows
  }

  /** The four rasters the writer produces. */
  datatype Representation = DirectColor | Colormapped | Monochrome | Grayscale

  /** Direct colour for direct-class images; a pseudo-class image is
    * colormapped unless it is gray, and gray images with at most two
    * colours become bitmaps. */
  function RepresentationOf(img: SourceImage): Representation
  {
    if img.direct then DirectColor
    else if !img.gray then Colormapped
    else if |img.colormap| <= 2 then Monochrome
    else Grayscale
  }

  /** The header's `(unsigned int)` conversion of a size. */
  function Wrap32(x: nat): uint32
  {
    x % 0x1_0000_0000
  }

  /** Data bands: three or four for direct colour, one otherwise. */
  function Bands(img: SourceImage): uint32
  {
    if img.direct then (if img.matte then 4 else 3) else 1
  }

  /** The bit pattern of the single-precision 1.0 the writer stores as bits
    * per pixel. */
  const BitsPerPixelWritten: uint32 := 0x3F80_0000

  /** The 21 32-bit header fields in file order. The header's `rows` is
    * the image width and its `columns` the image height; both offsets are
    * `~0`. */
  function HeaderFields(img: SourceImage): (f: seq<uint32>)
    ensures |f| == 21
  {
    var rep := RepresentationOf(img);
    var mapped := rep == Colormapped;
    [Wrap32(img.columns), Wrap32(img.rows), 0, 0xFFFF_FFFF, 0xFFFF_FFFF,
     BitsPerPixelWritten, BitsPerPixelWritten, LocImplicit, 0, 1,
     Bands(img), if rep == Monochrome then TypBit else Typ1Byte, DesRaw,
     if mapped then MsOnePerBand else MsNone, if mapped then MapTyp1Byte else MapTypNone,
     if mapped then 3 else 0, if mapped then Wrap32(|img.colormap|) else 0,
     0, 1, 0, if img.direct then CmGenericRGB else CmNone]
  }

  /** 32-bit values, each most significant byte first. */
  function Longs(fields: seq<uint32>): (b: seq<byte>)
    ensures |b| == 4 * |fields|
  {
    if fields == [] then [] else MSBLong(fields[0]) + Longs(fields[1..])
  }

  /** Value `k` sits in bytes `4k` to `4k + 3`. */
  lemma {:induction false} LongsAt(fields: seq<uint32>, k: nat)
    requires k < |fields|
    ensures Longs(fields)[4 * k..4 * k + 4] == MSBLong(fields[k])
  {
    if k > 0 {
      LongsAt(fields[1..], k - 1);
      assert Longs(fields) == MSBLong(fields[0]) + Longs(fields[1..]);
      assert Longs(fields)[4 * k..4 * k + 4] == Longs(fields[1..])[4 * (k - 1)..4 * (k - 1) + 4];
    }
  }

  /** The string length the comment copy stops at: the property's first
    * zero byte, if any. */
  function StrLen(value: seq<byte>): nat
  {
    |CString(value)|
  }

  /** The 512-byte comment field after a scene: its first byte is cleared,
    * and a comment property overwrites the start with at most 511 of its
    * characters and a terminating zero. The rest keeps what the previous
    * scene left, as the header structure is cleared only once. */
  function CommentBuffer(prev: seq<byte>, value: Option<seq<byte>>): (c: seq<byte>)
    requires |prev| == CommentSize
    ensures |c| == CommentSize
  {
    if value.None? then [0] + prev[1..]
    else
      var k := if StrLen(value.value) < 511 then StrLen(value.value) else 511;
      CString(value.value)[..k] + [0] + prev[k + 1..]
  }

  /** The comment the buffer holds: the property's string cut to 511
    * characters, or nothing without a property. */
  lemma CommentBufferString(prev: seq<byte>, value: Option<seq<byte>>)
    requires |prev| == CommentSize
    ensures value.None? ==> CString(CommentBuffer(prev, value)) == []
    ensures value.Some? ==>
      CString(CommentBuffer(prev, value)) == CString(value.value)[..if StrLen(value.value) < 511 then StrLen(value.value) else 511]
  {
    if value.Some? {
      var k := if StrLen(value.value) < 511 then StrLen(value.value) else 511;
      var s := CString(value.value)[..k];
      assert 0 !in s;
      CStringPrefix(s, prev[k + 1..]);
      assert CommentBuffer(prev, value) == s + ([0] + prev[k + 1..]);
    }
  }

  /** A zero-free prefix followed by a zero is the C string. */
  lemma {:induction false} CStringPrefix(s: seq<byte>, rest: seq<byte>)
    requires 0 !in s
    ensures CString(s + ([0] + rest)) == s
  {
    if s != [] {
      assert (s + ([0] + rest))[1..] == s[1..] + ([0] + rest);
      CStringPrefix(s[1..], rest);
    } else {
      assert s + ([0] + rest) == [0] + rest;
    }
  }

  /** The header: identifier, file type 1, release 1, version 3, IEEE
    * order, three zero reserved bytes, the comment field, the 21 fields
    * and 420 zero bytes of padding. */
  function HeaderBytes(img: SourceImage, comment: seq<byte>): (b: seq<byte>)
    requires |comment| == CommentSize
    ensures |b| == HeaderSize
  {
    [Identifier, 1, 1, 3, DepIeeeOrder as byte, 0, 0, 0] + comment + Longs(HeaderFields(img)) + seq(420, _ => 0)
  }

  /** Channel `c` of a pixel: red, green, blue, then alpha. */
  function Channel(p: Pixel, c: nat): Quantum
  {
    if c == 0 then p.red else if c == 1 then p.green else if c == 2 then p.blue else Alpha(p)
  }

  /** Channel `c` of every pixel, scaled to eight bits. */
  function Plane(pixels: seq<Pixel>, c: nat): (b: seq<byte>)
    ensures |b| == |pixels|
  {
    seq(|pixels|, i requires 0 <= i < |pixels| => ScaleQuantumToChar(Channel(pixels[i], c)))
  }

  /** The direct-colour raster: the red, green and blue planes, and the
    * alpha plane when the image has a matte. */
  function DirectBytes(img: SourceImage): (b: seq<byte>)
  {
    Plane(img.pixels, 0) + Plane(img.pixels, 1) + Plane(img.pixels, 2) + (if img.matte then Plane(img.pixels, 3) else [])
  }

  /** The colormap dump: red, green and blue planes of the colormap. */
  function ColormapBytes(img: SourceImage): (b: seq<byte>)
  {
    Plane(img.colormap, 0) + Plane(img.colormap, 1) + Plane(img.colormap, 2)
  }

  /** The colormapped raster: each index cut to a byte. */
  function IndexBytes(img: SourceImage): (b: seq<byte>)
    ensures |b| == |img.indexes|
    ensures forall i :: 0 <= i < |b| ==> b[i] == img.indexes[i] % 256
  {
    seq(|img.indexes|, i requires 0 <= i < |img.indexes| => img.indexes[i] % 256)
  }

  /** A pixel the bitmap marks: luma below half the quantum range. */
  predicate Dark(luma: real)
  {
    luma < QuantumRange as real / 2.0
  }

  /** Flags packed least significant first. */
  function PackBits(ds: seq<bool>): (v: nat)
    ensures v < Pow2(|ds|)
  {
    if ds == [] then 0 else (if ds[0] then 1 else 0) + 2 * PackBits(ds[1..])
  }

  /** Bit `k` of a packed byte is flag `k`. */
  lemma {:induction false} PackBitsBit(ds: seq<bool>, k: nat)
    requires k < |ds|
    ensures Bit(PackBits(ds), k) <==> ds[k]
  {
    if k > 0 {
      PackBitsBit(ds[1..], k - 1);
      assert PackBits(ds) / 2 == PackBits(ds[1..]);
    }
  }

  /** One more flag lands one bit higher. */
  lemma {:induction false} PackBitsAppend(ds: seq<bool>, d: bool)
    ensures PackBits(ds + [d]) == PackBits(ds) + (if d then Pow2(|ds|) else 0)
  {
    if ds != [] {
      assert (ds + [d])[1..] == ds[1..] + [d];
      PackBitsAppend(ds[1..], d);
    } else {
      assert [] + [d] == [d];
    }
  }

  /** The dark flags of row `y`. */
  function RowDarks(img: SourceImage, y: nat): (ds: seq<bool>)
    requires Valid(img) && y < img.rows
    ensures |ds| == img.columns
  {
    MulMono(y + 1, img.rows, img.columns);
    seq(img.columns, x requires 0 <= x < img.columns => Dark(img.luma[y * img.columns + x]))
  }

  /** At most eight flags packed into one byte. */
  function PackedByte(ds: seq<bool>): (b: byte)
    requires |ds| <= 8
  {
    Pow2Constants();
    Pow2Mono(|ds|, 8);
    PackBits(ds)
  }

  /** One bitmap row: `Stride` bytes, byte `j` packing flags `8j` to
    * `8j + 7` (fewer in the last byte). */
  function MonoRow(ds: seq<bool>): (b: seq<byte>)
    ensures |b| == Stride(|ds|)
  {
    seq(Stride(|ds|), j requires 0 <= j < Stride(|ds|) =>
      PackedByte(ds[8 * j..if 8 * j + 8 <= |ds| then 8 * j + 8 else |ds|]))
  }

  /** The first `y` rows of the bitmap raster. */
  function MonoBytes(img: SourceImage, y: nat): (b: seq<byte>)
    requires Valid(img) && y <= img.rows
    ensures |b| == y * Stride(img.columns)
  {
    if y == 0 then [] else MonoBytes(img, y - 1) + MonoRow(RowDarks(img, y - 1))
  }

  /** The first `y` rows stay the first `y` rows when more are added. */
  lemma {:induction false} MonoBytesPrefix(img: SourceImage, y: nat, n: nat)
    requires Valid(img) && y <= n <= img.rows
    ensures y * Stride(img.columns) <= |MonoBytes(img, n)|
    ensures MonoBytes(img, n)[..y * Stride(img.columns)] == MonoBytes(img, y)
    decreases n - y
  {
    MulMono(y, n, Stride(img.columns));
    if y < n {
      MonoBytesPrefix(img, y, n - 1);
      MulMono(y, n - 1, Stride(img.columns));
      var before := MonoBytes(img, n - 1);
      assert MonoBytes(img, n) == before + MonoRow(RowDarks(img, n - 1));
      assert MonoBytes(img, n)[..y * Stride(img.columns)] == before[..y * Stride(img.columns)];
    }
  }

  /** Row `y` of the bitmap raster is row `y`'s flags packed, at offset
    * `y` times the stride. */
  lemma MonoBytesRow(img: SourceImage, y: nat)
    requires Valid(img) && y < img.rows
    ensures y * Stride(img.columns) + Stride(img.columns) <= |MonoBytes(img, img.rows)|
    ensures MonoBytes(img, img.rows)[y * Stride(img.columns)..y * Stride(img.columns) + Stride(img.columns)]
      == MonoRow(RowDarks(img, y))
  {
    var s := Stride(img.columns);
    MonoBytesPrefix(img, y + 1, img.rows);
    AddMul(y, 1, s);
    var all := MonoBytes(img, img.rows);
    assert all[y * s..y * s + s] == all[..(y + 1) * s][y * s..];
  }

  /** The grayscale raster: each pixel's luma, clamped and scaled to eight
    * bits. */
  function GrayBytes(img: SourceImage): (b: seq<byte>)
    ensures |b| == |img.luma|
  {
    seq(|img.luma|, i requires 0 <= i < |img.luma| => ScaleQuantumToChar(ClampToQuantum(img.luma[i])))
  }

  /** The raster bytes of the chosen representation. */
  function RasterBytes(img: SourceImage): seq<byte>
    requires Valid(img)
  {
    match RepresentationOf(img)
    case DirectColor => DirectBytes(img)
    case Colormapped => IndexBytes(img)
    case Monochrome => MonoBytes(img, img.rows)
    case Grayscale => GrayBytes(img)
  }

  /** An image's bytes: the header, the colormap dump when colormapped, and
    * the raster. */
  function ImageBytes(img: SourceImage, comment: seq<byte>): seq<byte>
    requires Valid(img) && |comment| == CommentSize
  {
    HeaderBytes(img, comment) + (if RepresentationOf(img) == Colormapped then ColormapBytes(img) else [])
      + RasterBytes(img)
  }

  /** The images from the first on, with the comment field the previous
    * scene left; the next image is written only when joining is asked
    * for. */
  function EncodeList(images: seq<SourceImage>, adjoin: bool, comment: seq<byte>): seq<byte>
    requires |images| >= 1 && |comment| == CommentSize
    requires forall i :: 0 <= i < |images| ==> Valid(images[i])
    decreases |images|
  {
    var c := CommentBuffer(comment, images[0].comment);
    var b := ImageBytes(images[0], c);
    if |images| == 1 || !adjoin then b else b + EncodeList(images[1..], adjoin, c)
  }

  /** Scene `i` is written with the comment field the scenes before it
    * left, and the later scenes follow only when joining is asked for;
    * stated after bytes `prefix` already written. */
  lemma EncodeListStep(images: seq<SourceImage>, i: nat, adjoin: bool, comment: seq<byte>, prefix: seq<byte>)
    requires i < |images| && |comment| == CommentSize
    requires forall j :: 0 <= j < |images| ==> Valid(images[j])
    ensures var c := CommentBuffer(comment, images[i].comment);
      var written := prefix + ImageBytes(images[i], c);
      prefix + EncodeList(images[i..], adjoin, comment) ==
        if i + 1 == |images| || !adjoin then written else written + EncodeList(images[i + 1..], adjoin, c)
  {
    assert images[i..][0] == images[i];
    assert images[i..][1..] == images[i + 1..];
    var c := CommentBuffer(comment, images[i].comment);
    if !(i + 1 == |images| || !adjoin) {
      var b := ImageBytes(images[i], c);
      var r := EncodeList(images[i + 1..], adjoin, c);
      assert prefix + (b + r) == (prefix + b) + r;
    }
  }

  /** The comment field before the first scene. */
  function ClearedComment(): (c: seq<byte>)
    ensures |c| == CommentSize
  {
    seq(CommentSize, _ => 0)
  }

  /** A VIFF file of the image list. */
  function EncodeVIFF(images: seq<SourceImage>, adjoin: bool): seq<byte>
    requires |images| >= 1
    requires forall i :: 0 <= i < |images| ==> Valid(images[i])
  {
    EncodeList(images, adjoin, ClearedComment())
  }
}
