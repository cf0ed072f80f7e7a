/**
 * The VIFF writer's steps, in the order the coder performs them: the
 * comment copy into the header structure, the pixel buffer filled row by
 * row for each representation (planar direct colour, the colormap dump
 * and its indexes, the LSB-first bitmap packing, gray bytes), and the loop
 * over the scenes of an image list. Each method is proved to produce what
 * the functions of `ViffEncode` describe. Two steps are the corrected ones
 * rather than the coder's: the bitmap tests each pixel's own luma, and the
 * gray byte is the luma scaled to eight bits (`ViffFindings.SecondPixelLost`
 * and `ViffFindings.MidGrayDarkened` model the coder's steps).
 */
module ViffWriter {
  import opened Bits
  import opened Wrappers
  import opened QuantumTypes
  import opened ViffFormat
  import opened ViffRaster
  import opened ViffEncode

  /** The comment copy: the first byte cleared, then at most 511
    * characters of the property and a terminating zero. */
  method SetComment(comment: array<byte>, value: Option<seq<byte>>)
    requires comment.Length == CommentSize
    modifies comment
    ensures comment[..] == CommentBuffer(old(comment[..]), value)
  {
    ghost var prev := comment[..];
    comment[0] := 0;
    if value.Some? {
      var s := value.value;
      var k := if StrLen(s) < 511 then StrLen(s) else 511;
      ghost var start := comment[..];
      var i := 0;
      while i < k
        invariant 0 <= i <= k
        invariant comment[..] == s[..i] + start[i..]
      {
        Overwrite(s, start, i, s[i]);
        comment[i] := s[i];
        i := i + 1;
      }
      Overwrite(s, start, k, 0);
      comment[k] := 0;
      assert start[k + 1..] == prev[k + 1..];
      assert CString(s)[..k] == s[..k];
      assert comment[..] == CString(s)[..k] + [0] + prev[k + 1..];
    } else {
      assert comment[..] == [0] + prev[1..];
    }
  }

  /** A buffer holding `s`'s first `i` elements and then `t`'s, after
    * element `i` is overwritten. */
  lemma Overwrite<T>(s: seq<T>, t: seq<T>, i: nat, v: T)
    requires i <= |s| && i < |t|
    ensures (s[..i] + t[i..])[i := v] == s[..i] + [v] + t[i + 1..]
    ensures i < |s| && v == s[i] ==> (s[..i] + t[i..])[i := v] == s[..i + 1] + t[i + 1..]
  {
    if i < |s| {
      assert s[..i] + [s[i]] == s[..i + 1];
    }
  }

  /** Pixel `y * columns + x` is within an image of `rows` rows. */
  lemma RowPixel(columns: nat, rows: nat, y: nat, x: nat)
    requires y < rows && x < columns
    ensures y * columns + x < columns * rows
    ensures y * columns + columns <= columns * rows
  {
    MulBelow(columns, rows, y);
  }

  /** A buffer of `b`'s length holding `b`'s first `q` bytes and zeros
    * after them. */
  function Masked(b: seq<byte>, q: nat): (r: seq<byte>)
    ensures |r| == |b|
  {
    seq(|b|, i requires 0 <= i < |b| => if i < q then b[i] else 0)
  }

  lemma MaskedStep(b: seq<byte>, q: nat)
    requires q < |b|
    ensures Masked(b, q + 1) == Masked(b, q)[q := b[q]]
  {
  }

  lemma MaskedAll(b: seq<byte>)
    ensures Masked(b, |b|) == b
  {
  }

  /** The planes with the first `q` pixels written and the rest zero. */
  function FilledPlanes(img: SourceImage, q: nat): (b: seq<byte>)
    ensures |b| == if img.matte then 4 * |img.pixels| else 3 * |img.pixels|
  {
    Masked(Plane(img.pixels, 0), q) + Masked(Plane(img.pixels, 1), q) + Masked(Plane(img.pixels, 2), q)
      + (if img.matte then Masked(Plane(img.pixels, 3), q) else [])
  }

  /** Writing pixel `q` updates one position in each plane. */
  lemma FilledPlanesStep(img: SourceImage, q: nat)
    requires q < |img.pixels|
    ensures var n, p := |img.pixels|, img.pixels[q];
      var f := FilledPlanes(img, q)[q := ScaleQuantumToChar(p.red)][q + n := ScaleQuantumToChar(p.green)]
                                   [q + n * 2 := ScaleQuantumToChar(p.blue)];
      FilledPlanes(img, q + 1) == if img.matte then f[q + n * 3 := ScaleQuantumToChar(Alpha(p))] else f
  {
    var n := |img.pixels|;
    forall c | 0 <= c < 4 {
      MaskedStep(Plane(img.pixels, c), q);
    }
  }

  /** No pixel written leaves zeros; all pixels written give the raster. */
  lemma FilledPlanesEnds(img: SourceImage)
    ensures img.direct ==> |FilledPlanes(img, 0)| == Bands(img) * |img.pixels|
    ensures FilledPlanes(img, 0) == seq(|FilledPlanes(img, 0)|, _ => 0)
    ensures FilledPlanes(img, |img.pixels|) == DirectBytes(img)
  {
    forall c | 0 <= c < 4 {
      MaskedAll(Plane(img.pixels, c));
    }
  }

  /** The loop body for one direct-colour pixel. */
  method PutPixel(pixels: array<byte>, img: SourceImage, q: nat)
    requires q < |img.pixels| && pixels[..] == FilledPlanes(img, q)
    modifies pixels
    ensures pixels[..] == FilledPlanes(img, q + 1)
  {
    var n := |img.pixels|;
    FilledPlanesStep(img, q);
    var p := img.pixels[q];
    ghost var f := pixels[..];
    pixels[q] := ScaleQuantumToChar(p.red);
    f := f[q := ScaleQuantumToChar(p.red)];
    assert pixels[..] == f;
    pixels[q + n] := ScaleQuantumToChar(p.green);
    f := f[q + n := ScaleQuantumToChar(p.green)];
    assert pixels[..] == f;
    pixels[q + n * 2] := ScaleQuantumToChar(p.blue);
    f := f[q + n * 2 := ScaleQuantumToChar(p.blue)];
    assert pixels[..] == f;
    if img.matte {
      pixels[q + n * 3] := ScaleQuantumToChar(Alpha(p));
    }
  }

  /** The direct-colour loop: each pixel's red, green, blue (and alpha)
    * at its offset in the first, second, third (and fourth) plane. */
  method FillPlanes(img: SourceImage) returns (pixels: array<byte>)
    requires Valid(img) && img.direct
    ensures pixels[..] == DirectBytes(img)
  {
    var n := img.columns * img.rows;
    var packets := Bands(img) * n;
    FilledPlanesEnds(img);
    pixels := new byte[packets](_ => 0);
    assert pixels[..] == FilledPlanes(img, 0);
    var q := 0;
    var y := 0;
    while y < img.rows
      invariant 0 <= y <= img.rows && q == y * img.columns
      invariant pixels[..] == FilledPlanes(img, q)
    {
      MulBelow(img.columns, img.rows, y);
      var x := 0;
      while x < img.columns
        invariant 0 <= x <= img.columns && q == y * img.columns + x
        invariant pixels[..] == FilledPlanes(img, q)
      {
        PutPixel(pixels, img, q);
        q := q + 1;
        x := x + 1;
      }
      AddMul(y, 1, img.columns);
      y := y + 1;
    }
    assert q == |img.pixels|;
  }

  /** The colormap dump: all reds, then all greens, then all blues. */
  method DumpColormap(img: SourceImage) returns (viffColormap: array<byte>)
    ensures viffColormap[..] == ColormapBytes(img)
  {
    var colors := |img.colormap|;
    ghost var dump := ColormapBytes(img);
    viffColormap := new byte[3 * colors](_ => 0);
    assert viffColormap[..] == Masked(dump, 0);
    var q := 0;
    var i := 0;
    while i < colors
      invariant 0 <= i <= colors && q == i
      invariant viffColormap[..] == Masked(dump, q)
    {
      MaskedStep(dump, q);
      viffColormap[q] := ScaleQuantumToChar(img.colormap[i].red);
      q := q + 1;
      i := i + 1;
    }
    i := 0;
    while i < colors
      invariant 0 <= i <= colors && q == colors + i
      invariant viffColormap[..] == Masked(dump, q)
    {
      MaskedStep(dump, q);
      viffColormap[q] := ScaleQuantumToChar(img.colormap[i].green);
      q := q + 1;
      i := i + 1;
    }
    i := 0;
    while i < colors
      invariant 0 <= i <= colors && q == 2 * colors + i
      invariant viffColormap[..] == Masked(dump, q)
    {
      MaskedStep(dump, q);
      viffColormap[q] := ScaleQuantumToChar(img.colormap[i].blue);
      q := q + 1;
      i := i + 1;
    }
    MaskedAll(dump);
  }

  /** The colormapped loop: one byte per pixel, its index cut to eight
    * bits. */
  method FillIndexes(img: SourceImage) returns (pixels: array<byte>)
    requires Valid(img)
    ensures pixels[..] == IndexBytes(img)
  {
    var n := img.columns * img.rows;
    ghost var raster := IndexBytes(img);
    pixels := new byte[n](_ => 0);
    assert pixels[..] == Masked(raster, 0);
    var q := 0;
    var y := 0;
    while y < img.rows
      invariant 0 <= y <= img.rows && q == y * img.columns && q <= n
      invariant pixels[..] == Masked(raster, q)
    {
      MulBelow(img.columns, img.rows, y);
      var x := 0;
      while x < img.columns
        invariant 0 <= x <= img.columns && q == y * img.columns + x
        invariant pixels[..] == Masked(raster, q)
      {
        RowPixel(img.columns, img.rows, y, x);
        MaskedStep(raster, q);
        pixels[q] := img.indexes[q] % 256;
        q := q + 1;
        x := x + 1;
      }
      y := y + 1;
    }
    MaskedAll(raster);
  }

  /** `p * c` stays a step of `c` below `a * c` when `p < a`. */
  lemma ProductBelow(p: nat, c: nat, a: nat)
    requires p < a
    ensures p * c + c <= a * c
  {
    MulMono(p + 1, a, c);
    AddMul(p, 1, c);
  }

  lemma MulTwice(p: nat, c: nat)
    ensures p * (2 * c) == 2 * (p * c)
  {
  }

  /** One pixel shifted into the bitmap byte: the byte moves right and a
    * dark pixel sets the top bit, so after the shift the flags so far sit
    * one position lower. */
  lemma {:induction false} ShiftInStep(ds: seq<bool>, d: bool, b: nat)
    requires |ds| < 8 && b == PackBits(ds) * Pow2(8 - |ds|)
    ensures (if d then Or(b / 2, 0x80) else b / 2) == PackBits(ds + [d]) * Pow2(7 - |ds|)
  {
    var k := |ds|;
    var p := PackBits(ds);
    var c := Pow2(7 - k);
    assert Pow2(8 - k) == 2 * c;
    MulTwice(p, c);
    assert b / 2 == p * c;
    PackBitsAppend(ds, d);
    if d {
      Pow2Add(k, 7 - k);
      Pow2Constants();
      SetTopBit(p, Pow2(k), c);
    }
  }

  /** Setting the top bit of a byte whose flags sit below it adds the
    * flag's weight. */
  lemma SetTopBit(p: nat, a: nat, c: nat)
    requires p < a && a * c == 0x80
    ensures Or(p * c, 0x80) == (p + a) * c
  {
    ProductBelow(p, c, a);
    Pow2Constants();
    OrShlDisjoint(p * c, 1, 7);
    assert Shl(1, 7) == 0x80;
    AddMul(p, a, c);
  }

  /** The packed byte is below 256. */
  lemma PackedFits(ds: seq<bool>)
    requires |ds| <= 8
    ensures PackBits(ds) * Pow2(8 - |ds|) < 256
  {
    var k := |ds|;
    var p := PackBits(ds);
    var c := Pow2(8 - k);
    var a := Pow2(k);
    Pow2Add(k, 8 - k);
    Pow2Constants();
    assert a * c == 256;
    ProductBelow(p, c, a);
  }

  /** The bitmap byte while flags `lo` to `hi - 1` are shifted in: they
    * sit in its top `hi - lo` bits. */
  function Pending(ds: seq<bool>, lo: nat, hi: nat): nat
    requires lo <= hi <= |ds| && hi - lo <= 8
  {
    PackBits(ds[lo..hi]) * Pow2(8 - (hi - lo))
  }

  lemma PendingStep(ds: seq<bool>, lo: nat, x: nat)
    requires lo <= x < |ds| && x - lo < 8
    ensures (if ds[x] then Or(Pending(ds, lo, x) / 2, 0x80) else Pending(ds, lo, x) / 2) == Pending(ds, lo, x + 1)
  {
    ShiftInStep(ds[lo..x], ds[x], Pending(ds, lo, x));
    assert ds[lo..x] + [ds[x]] == ds[lo..x + 1];
  }

  /** Eight flags shifted in make byte `j` of the row. */
  lemma FullByte(ds: seq<bool>, j: nat)
    requires 8 * j + 8 <= |ds|
    ensures j < Stride(|ds|)
    ensures Pending(ds, 8 * j, 8 * j + 8) == MonoRow(ds)[j]
  {
  }

  /** The flags left at the end of the row, shifted down, make the last
    * byte, and no byte follows it. */
  lemma LastByte(ds: seq<bool>, j: nat)
    requires 8 * j < |ds| < 8 * j + 8
    ensures j + 1 == Stride(|ds|)
    ensures Shr(Pending(ds, 8 * j, |ds|), 8 - (|ds| - 8 * j)) == MonoRow(ds)[j]
  {
    var lo := 8 * j;
    var k := |ds| - lo;
    DivUnique(|ds| + 7, 8, j + 1, k - 1);
    assert MonoRow(ds)[j] == PackedByte(ds[lo..|ds|]);
    var p := PackBits(ds[lo..|ds|]);
    var c := Pow2(8 - k);
    assert Pending(ds, lo, |ds|) == p * c;
    ShrIsDiv(p * c, 8 - k);
    DivUnique(p * c, c, p, 0);
  }

  /** A row of exactly `j` full bytes. */
  lemma WholeBytes(n: nat, j: nat)
    requires n == 8 * j
    ensures Stride(n) == j
  {
    DivUnique(n + 7, 8, j, 7);
  }

  /** Pixel `x` of row `y` shifted in from the top of the pending byte:
    * the byte then holds the flags from `lo` to `x` inclusive. */
  method ShiftPixel(byte: nat, img: SourceImage, y: nat, x: nat, ghost lo: nat) returns (b: nat)
    requires Valid(img) && y < img.rows && lo <= x < img.columns && x - lo < 8
    requires byte == Pending(RowDarks(img, y), lo, x)
    ensures b == Pending(RowDarks(img, y), lo, x + 1)
  {
    RowPixel(img.columns, img.rows, y, x);
    PendingStep(RowDarks(img, y), lo, x);
    b := byte / 2;
    if Dark(img.luma[y * img.columns + x]) {
      b := Or(b, 0x80);
    }
  }

  /** Byte `q` of `raster` stored into a buffer holding the bytes before
    * it. */
  method StoreByte(pixels: array<byte>, q: nat, v: byte, ghost raster: seq<byte>)
    requires q < |raster| == pixels.Length && raster[q] == v
    requires pixels[..] == Masked(raster, q)
    modifies pixels
    ensures pixels[..] == Masked(raster, q + 1)
  {
    MaskedStep(raster, q);
    pixels[q] := v;
  }

  /** The end of a row of flags `ds` written from offset `at`: the bits
    * still pending, when there are any, shifted down into the last byte. */
  method FlushRow(pixels: array<byte>, at: nat, ghost ds: seq<bool>, ghost raster: seq<byte>, q: nat, bit: nat, byte: nat)
    requires |raster| == pixels.Length && at + Stride(|ds|) <= |raster|
    requires raster[at..at + Stride(|ds|)] == MonoRow(ds)
    requires bit < 8 && bit <= |ds| && at <= q && |ds| - bit == 8 * (q - at)
    requires byte == Pending(ds, |ds| - bit, |ds|)
    requires pixels[..] == Masked(raster, q)
    modifies pixels
    ensures pixels[..] == Masked(raster, at + Stride(|ds|))
  {
    if bit != 0 {
      LastByte(ds, q - at);
      assert raster[q] == raster[at..at + Stride(|ds|)][q - at];
      StoreByte(pixels, q, Shr(byte, 8 - bit), raster);
    } else {
      WholeBytes(|ds|, q - at);
    }
  }

  /** Pixel `x` of row `y` shifted in, and the byte stored when it is
    * full. */
  method PackPixel(pixels: array<byte>, at: nat, img: SourceImage, y: nat, ghost raster: seq<byte>,
                   x: nat, q: nat, bit: nat, byte: nat) returns (q': nat, bit': nat, byte': nat)
    requires Valid(img) && y < img.rows && x < img.columns
    requires |raster| == pixels.Length && at + Stride(img.columns) <= |raster|
    requires raster[at..at + Stride(img.columns)] == MonoRow(RowDarks(img, y))
    requires bit < 8 && bit <= x && at <= q && x - bit == 8 * (q - at)
    requires byte == Pending(RowDarks(img, y), x - bit, x)
    requires pixels[..] == Masked(raster, q)
    modifies pixels
    ensures bit' < 8 && bit' <= x + 1 && at <= q' && x + 1 - bit' == 8 * (q' - at)
    ensures byte' == Pending(RowDarks(img, y), x + 1 - bit', x + 1)
    ensures pixels[..] == Masked(raster, q')
  {
    q', bit' := q, bit + 1;
    byte' := ShiftPixel(byte, img, y, x, x - bit);
    if bit' == 8 {
      FullByte(RowDarks(img, y), q - at);
      assert raster[q] == raster[at..at + Stride(img.columns)][q - at];
      StoreByte(pixels, q, byte', raster);
      q', bit', byte' := q + 1, 0, 0;
    }
  }

  /** The bitmap loop over row `y`, written from offset `at` of a buffer
    * that holds `raster` up to `at` and zeros after: each pixel shifted in
    * from the top, a full byte stored after eight pixels, and a last
    * partial byte shifted down into place. */
  method PackRow(pixels: array<byte>, at: nat, img: SourceImage, y: nat, ghost raster: seq<byte>)
    requires Valid(img) && y < img.rows
    requires |raster| == pixels.Length && at + Stride(img.columns) <= |raster|
    requires raster[at..at + Stride(img.columns)] == MonoRow(RowDarks(img, y))
    requires pixels[..] == Masked(raster, at)
    modifies pixels
    ensures pixels[..] == Masked(raster, at + Stride(img.columns))
  {
    ghost var ds := RowDarks(img, y);
    var columns := img.columns;
    var q := at;
    var bit := 0;
    var byte: nat := 0;
    var x := 0;
    while x < columns
      invariant 0 <= bit < 8 && bit <= x <= columns
      invariant at <= q && x - bit == 8 * (q - at)
      invariant byte == Pending(ds, x - bit, x)
      invariant pixels[..] == Masked(raster, q)
    {
      q, bit, byte := PackPixel(pixels, at, img, y, raster, x, q, bit, byte);
      x := x + 1;
    }
    FlushRow(pixels, at, ds, raster, q, bit, byte);
  }

  /** The monochrome loop: one packed row after another. */
  method PackMonochrome(img: SourceImage) returns (pixels: array<byte>)
    requires Valid(img)
    ensures pixels[..] == MonoBytes(img, img.rows)
  {
    ghost var raster := MonoBytes(img, img.rows);
    var stride := Stride(img.columns);
    pixels := new byte[stride * img.rows](_ => 0);
    assert pixels[..] == Masked(raster, 0);
    var q := 0;
    var y := 0;
    while y < img.rows
      invariant 0 <= y <= img.rows && q == y * stride
      invariant pixels[..] == Masked(raster, q)
    {
      MonoBytesRow(img, y);
      PackRow(pixels, q, img, y, raster);
      assert q + stride == (y + 1) * stride;
      q := q + stride;
      y := y + 1;
    }
    MaskedAll(raster);
  }

  /** The grayscale loop: each pixel's luma, clamped and scaled to eight
    * bits. */
  method FillGray(img: SourceImage) returns (pixels: array<byte>)
    requires Valid(img)
    ensures pixels[..] == GrayBytes(img)
  {
    var n := img.columns * img.rows;
    ghost var raster := GrayBytes(img);
    pixels := new byte[n](_ => 0);
    assert pixels[..] == Masked(raster, 0);
    var q := 0;
    var y := 0;
    while y < img.rows
      invariant 0 <= y <= img.rows && q == y * img.columns && q <= n
      invariant pixels[..] == Masked(raster, q)
    {
      MulBelow(img.columns, img.rows, y);
      var x := 0;
      while x < img.columns
        invariant 0 <= x <= img.columns && q == y * img.columns + x
        invariant pixels[..] == Masked(raster, q)
      {
        RowPixel(img.columns, img.rows, y, x);
        MaskedStep(raster, q);
        pixels[q] := ScaleQuantumToChar(ClampToQuantum(img.luma[q]));
        q := q + 1;
        x := x + 1;
      }
      y := y + 1;
    }
    MaskedAll(raster);
  }

  /** The bytes following the header for one image: the colormap dump when
    * colormapped, then the raster. */
  method WriteRaster(img: SourceImage) returns (b: seq<byte>)
    requires Valid(img)
    ensures b == (if RepresentationOf(img) == Colormapped then ColormapBytes(img) else []) + RasterBytes(img)
  {
    var pixels;
    if img.direct {
      pixels := FillPlanes(img);
      b := [];
    } else if !img.gray {
      var viffColormap := DumpColormap(img);
      b := viffColormap[..];
      pixels := FillIndexes(img);
    } else if |img.colormap| <= 2 {
      pixels := PackMonochrome(img);
      b := [];
    } else {
      pixels := FillGray(img);
      b := [];
    }
    b := b + pixels[..];
  }

  /** One scene: the comment updated in the header structure, then the
    * header, the colormap dump and the raster. */
  method WriteScene(img: SourceImage, comment: array<byte>) returns (b: seq<byte>)
    requires Valid(img) && comment.Length == CommentSize
    modifies comment
    ensures comment[..] == CommentBuffer(old(comment[..]), img.comment)
    ensures b == ImageBytes(img, comment[..])
  {
    SetComment(comment, img.comment);
    b := HeaderBytes(img, comment[..]);
    var raster := WriteRaster(img);
    b := b + raster;
  }

  /** The writer's scene loop: the header structure is cleared once, each
    * scene updates its comment and writes header, colormap and raster, and
    * the next scene follows only when the list has one and joining is
    * asked for. */
  method WriteVIFFImage(images: seq<SourceImage>, adjoin: bool) returns (blob: seq<byte>)
    requires |images| >= 1
    requires forall i :: 0 <= i < |images| ==> Valid(images[i])
    ensures blob == EncodeVIFF(images, adjoin)
  {
    blob := [];
    var comment := new byte[CommentSize](_ => 0);
    assert comment[..] == ClearedComment();
    var scene := 0;
    while true
      invariant 0 <= scene < |images|
      invariant EncodeVIFF(images, adjoin) == blob + EncodeList(images[scene..], adjoin, comment[..])
      decreases |images| - scene
    {
      EncodeListStep(images, scene, adjoin, comment[..], blob);
      var b := WriteScene(images[scene], comment);
      blob := blob + b;
      if scene + 1 == |images| || !adjoin {
        return;
      }
      scene := scene + 1;
    }
  }
}
