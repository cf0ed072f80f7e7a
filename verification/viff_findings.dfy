/**
 * Three places where the VIFF coder does not do what it evidently means
 * to, each modelled as written beside an input that shows the difference.
 * The rest of the model uses the corrected behaviour (`Rescales`,
 * `RowDarks`, `GrayBytes`), and `ViffRoundTrip` proves that a written
 * image reads back with it.
 */
module ViffFindings {
  import opened Bits
  import opened Wrappers
  import opened QuantumTypes
  import opened ViffFormat
  import opened ViffSamples
  import opened ViffRaster
  import opened ViffDecode
  import opened ViffEncode

  // ---------------------------------------------------------------------
  // The reader rescales packed bitmap bytes

  /** As written: every storage type but one-byte samples is scanned and
    * rescaled when there is no map, bit storage included. */
  predicate RescalesAsWritten(storage: nat, mapNone: bool)
  {
    mapNone && storage != Typ1Byte
  }

  /** The scaling the reader as written applies to the first `n` samples. */
  function ScalingForAsWritten(b: seq<byte>, storage: nat, codec: RealCodec, n: nat, mapNone: bool): (sc: Scaling)
    requires 1 <= n <= |b| / SampleBytes(storage)
    ensures !RescalesAsWritten(storage, mapNone) ==> sc == Unscaled
  {
    if RescalesAsWritten(storage, mapNone) then
      var s := Samples(b, storage, codec)[..n];
      ScaleOf(Least(s), Greatest(s))
    else Unscaled
  }

  /** The flags of a 16-pixel row whose first pixel alone is dark. */
  function FirstDark(): (ds: seq<bool>)
    ensures |ds| == 16
  {
    [true] + seq(15, _ => false)
  }

  /** The writer packs that row into the bytes 0x01, 0x00. */
  lemma FirstDarkPacked()
    ensures MonoRow(FirstDark()) == [1, 0]
  {
    var ds := FirstDark();
    assert ds[0..8] == [true] + seq(7, _ => false);
    assert ds[8..16] == seq(8, _ => false);
    assert PackBits(ds[1..8]) == 0 by {
      ZeroFlags(ds[1..8]);
    }
    ZeroFlags(ds[8..16]);
  }

  /** Flags that are all clear pack to zero. */
  lemma {:induction false} ZeroFlags(ds: seq<bool>)
    requires forall i :: 0 <= i < |ds| ==> !ds[i]
    ensures PackBits(ds) == 0
    decreases |ds|
  {
    if ds != [] {
      ZeroFlags(ds[1..]);
    }
  }

  /** The bitmap row above, read without a map: as written the bytes are
    * scanned (least 0, greatest 1) and stretched onto the quantum range,
    * so 0x01 becomes 0xFF and the one dark pixel becomes eight; the
    * corrected reader leaves the bytes alone. */
  lemma BitmapRescaled(codec: RealCodec)
    ensures var b := MonoRow(FirstDark());
      ConvertedBuffer(b, TypBit, codec, 2, true, ScalingForAsWritten(b, TypBit, codec, 2, true)) == [255, 0]
    ensures var b := MonoRow(FirstDark());
      ConvertedBuffer(b, TypBit, codec, 2, true, ScalingFor(b, TypBit, codec, 2, true)) == b
  {
    FirstDarkPacked();
    var b: seq<byte> := [1, 0];
    var s := Samples(b, TypBit, codec);
    assert s[0] == 1.0 && s[1] == 0.0;
    assert s[..2] == [1.0, 0.0];
    assert Least(s[..2]) == 0.0 && Greatest(s[..2]) == 1.0 by {
      assert [1.0, 0.0][..1] == [1.0];
    }
    var sc := ScaleOf(0.0, 1.0);
    assert sc == Scaling(0.0, QuantumRange as real);
    assert Rescale(1.0, sc) == QuantumRange as real;
    assert Rescale(0.0, sc) == 0.0;
    assert ConvertedBuffer(b, TypBit, codec, 2, true, sc)[0] == 255;
    assert ConvertedBuffer(b, TypBit, codec, 2, true, sc)[1] == 0;
    ConvertBytes(b, TypBit, codec, 2, true);
  }

  // ---------------------------------------------------------------------
  // The monochrome writer never steps to the next pixel

  /** As written: the luma tested for every pixel of row `y` is that of the
    * row's first pixel. */
  function RowDarksAsWritten(img: SourceImage, y: nat): (ds: seq<bool>)
    requires Valid(img) && y < img.rows
    ensures |ds| == img.columns
    ensures forall x :: 0 <= x < img.columns ==> ds[x] == ds[0]
  {
    MulMono(y + 1, img.rows, img.columns);
    seq(img.columns, x requires 0 <= x < img.columns => Dark(img.luma[y * img.columns]))
  }

  /** A one-row image, black then white. */
  function BlackWhite(): (img: SourceImage)
    ensures Valid(img) && img.columns == 2 && img.rows == 1
  {
    SourceImage(2, 1, false, false, true, [Gray(0), Gray(QuantumRange)], [Gray(0), Gray(QuantumRange)],
      [0, 1], [0.0, QuantumRange as real], None)
  }

  /** As written, the black-then-white row packs both pixels as dark
    * (0x03); the corrected row packs only the first (0x01). */
  lemma SecondPixelLost()
    ensures MonoRow(RowDarksAsWritten(BlackWhite(), 0)) == [3]
    ensures MonoRow(RowDarks(BlackWhite(), 0)) == [1]
  {
    var img := BlackWhite();
    var asWritten := RowDarksAsWritten(img, 0);
    var corrected := RowDarks(img, 0);
    assert img.luma[0] == 0.0 && Dark(0.0);
    assert img.luma[1] == QuantumRange as real && !Dark(QuantumRange as real);
    assert asWritten[0] && asWritten[1];
    assert corrected[0] && !corrected[1];
    assert asWritten == [true, true];
    assert corrected == [true, false];
    assert asWritten[0..2] == asWritten && corrected[0..2] == corrected;
    assert PackBits([true]) == 1 && PackBits([false]) == 0;
    assert [true, true][1..] == [true] && [true, false][1..] == [false];
  }

  // ---------------------------------------------------------------------
  // The grayscale writer keeps the low byte of a 16-bit quantum

  /** As written: each pixel's luma clamped to a quantum and cast to an
    * unsigned char, which keeps its low eight bits. */
  function GrayBytesAsWritten(img: SourceImage): (b: seq<byte>)
    ensures |b| == |img.luma|
  {
    seq(|img.luma|, i requires 0 <= i < |img.luma| => ClampToQuantum(img.luma[i]) % 256)
  }

  /** A one-pixel mid-gray image. */
  function MidGray(): (img: SourceImage)
    ensures Valid(img) && |img.luma| == 1
  {
    SourceImage(1, 1, false, false, true, [Gray(32768)], [Gray(32768)], [0], [32768.0], None)
  }

  /** As written, mid-gray is stored as 0 (black); the corrected byte is
    * 128. */
  lemma MidGrayDarkened()
    ensures GrayBytesAsWritten(MidGray()) == [0]
    ensures GrayBytes(MidGray()) == [128]
  {
    assert ClampToQuantum(32768.0) == 32768;
  }
}
