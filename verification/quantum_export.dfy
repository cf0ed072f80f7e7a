/**
 * ExportQuantumPixels: the entry point that prepares the row (alpha
 * association, the red/green swap of the CbYCr types), resets the packing
 * state and hands the row to the routine of the requested quantum type.
 */
module QuantumExport {
  import opened Wrappers
  import opened QuantumTypes
  import opened QuantumStream
  import opened QuantumLayouts
  import opened QuantumPacker

  /** The kinds of row an exporter can write. */
  datatype QuantumType =
    | UndefinedQuantum | AlphaQuantum | BGRQuantum | BGRAQuantum | BGROQuantum
    | BlackQuantum | BlueQuantum | CbYCrAQuantum | CbYCrQuantum | CbYCrYQuantum
    | CMYKAQuantum | CMYKOQuantum | CMYKQuantum | CyanQuantum | GrayAlphaQuantum
    | GrayQuantum | GreenQuantum | IndexAlphaQuantum | IndexQuantum | MagentaQuantum
    | OpacityQuantum | RedQuantum | RGBAQuantum | RGBOQuantum | RGBQuantum
    | YellowQuantum

  /** What the routines ask of the image: whether it is in the CMYK
    * colorspace, whether it is colormapped (PseudoClass), and its width. */
  datatype Image = Image(cmyk: bool, pseudoClass: bool, columns: nat)

  datatype ExportError = ColorSeparatedImageRequired | ColormappedImageRequired

  /** The image error a routine raises before writing anything: the black and
    * CMYK routines need a CMYK image, the index routines a colormapped one. */
  function RoutineError(img: Image, kind: QuantumType): (e: Option<ExportError>)
    ensures e == Some(ColorSeparatedImageRequired) <==>
      !img.cmyk && kind in {BlackQuantum, CMYKQuantum, CMYKAQuantum, CMYKOQuantum}
    ensures e == Some(ColormappedImageRequired) <==>
      !img.pseudoClass && kind in {IndexQuantum, IndexAlphaQuantum}
    ensures e.None? || e.value in {ColorSeparatedImageRequired, ColormappedImageRequired}
  {
    match kind
    case BlackQuantum | CMYKQuantum | CMYKAQuantum | CMYKOQuantum =>
      if img.cmyk then None else Some(ColorSeparatedImageRequired)
    case IndexQuantum | IndexAlphaQuantum =>
      if img.pseudoClass then None else Some(ColormappedImageRequired)
    case _ => None
  }

  /** The CMYK routines: red, green, blue (cyan, magenta, yellow), the black
    * from the index row, then the channels in `extra`, at every depth. */
  function CMYKLayout(extra: seq<Channel>): Layout
  {
    EachPixel(Samples([RedSample, GreenSample, BlueSample, BlackSample] + extra, false))
  }

  /** The layout the routine of `kind` uses; the colour aliases share the
    * routine of their channel (cyan is red, magenta green, yellow blue), CbYCr
    * and CbYCrA share RGB and RGBA, and a type without a routine writes
    * nothing. */
  function RoutineLayout(cfg: QuantumConfig, kind: QuantumType): Layout
  {
    match kind
    case AlphaQuantum => SingleLayout(AlphaSample)
    case BGRQuantum => BGRLayout(cfg)
    case BGRAQuantum => FourLayout(cfg, [BlueSample, GreenSample, RedSample, AlphaSample], AlphaSample)
    case BGROQuantum => FourLayout(cfg, [BlueSample, GreenSample, RedSample, OpacitySample], OpacitySample)
    case BlackQuantum => SingleLayout(BlackSample)
    case BlueQuantum | YellowQuantum => SingleLayout(BlueSample)
    case CbYCrYQuantum => CbYCrYLayout(cfg)
    case CMYKQuantum => CMYKLayout([])
    case CMYKAQuantum => CMYKLayout([AlphaSample])
    case CMYKOQuantum => CMYKLayout([OpacitySample])
    case GrayQuantum => GrayLayout(cfg)
    case GrayAlphaQuantum => GrayAlphaLayout(cfg)
    case GreenQuantum | MagentaQuantum => SingleLayout(GreenSample)
    case IndexQuantum => IndexLayout(cfg)
    case IndexAlphaQuantum => IndexAlphaLayout(cfg)
    case OpacityQuantum => SingleLayout(OpacitySample)
    case RedQuantum | CyanQuantum => SingleLayout(RedSample)
    case RGBQuantum | CbYCrQuantum => RGBLayout(cfg)
    case RGBAQuantum | CbYCrAQuantum => FourLayout(cfg, [RedSample, GreenSample, BlueSample, AlphaSample], AlphaSample)
    case RGBOQuantum => FourLayout(cfg, [RedSample, GreenSample, BlueSample, OpacitySample], OpacitySample)
    case UndefinedQuantum => NoOutput
  }

  /** The writes of an export of row `ts`: none when the routine refuses the
    * image, the routine's layout otherwise. */
  function ExportOps(cfg: QuantumConfig, img: Image, kind: QuantumType, ts: seq<Texel>): (ops: seq<Op>)
    ensures RoutineError(img, kind).Some? ==> ops == []
    ensures RoutineError(img, kind).None? ==> ops == LayoutOps(cfg, RoutineLayout(cfg, kind), ts)
  {
    if RoutineError(img, kind).Some? then [] else LayoutOps(cfg, RoutineLayout(cfg, kind), ts)
  }

  /** What the routines read for pixel `i`: the pixel, its index-row entry (0
    * past the end of the index row) and its luma. */
  function Texels(row: seq<Pixel>, indexes: seq<Quantum>, luma: Pixel -> real): (ts: seq<Texel>)
    ensures |ts| == |row|
    ensures forall i :: 0 <= i < |row| ==> ts[i].p == row[i] && ts[i].luma == luma(row[i])
    ensures forall i :: 0 <= i < |row| ==> ts[i].index == if i < |indexes| then indexes[i] else 0
  {
    seq(|row|, i requires 0 <= i < |row| => Texel(row[i], if i < |indexes| then indexes[i] else 0, luma(row[i])))
  }

  // ---------------------------------------------------------------------
  // Preparing the row

  /** Associated alpha: each colour channel multiplied by alpha (as a fraction
    * of the range), rounded and clamped; opacity is kept. */
  function Associate(p: Pixel): (r: Pixel)
    ensures r.opacity == p.opacity
  {
    var alpha := (1.0 / QuantumRange as real) * Alpha(p) as real;
    p.(red := Scaled(alpha, p.red), green := Scaled(alpha, p.green), blue := Scaled(alpha, p.blue))
  }

  /** A channel multiplied by a factor, rounded and clamped. */
  function Scaled(alpha: real, c: Quantum): Quantum
  {
    ClampToQuantum(alpha * c as real)
  }

  /** The red and green channels exchanged. */
  function SwapRG(p: Pixel): (r: Pixel)
    ensures r.red == p.green && r.green == p.red && r.blue == p.blue && r.opacity == p.opacity
  {
    p.(red := p.green, green := p.red)
  }

  /** The first `n` pixels associated, the rest as they are. */
  function AssociateRow(row: seq<Pixel>, n: nat): (r: seq<Pixel>)
    ensures |r| == |row|
  {
    seq(|row|, i requires 0 <= i < |row| => if i < n then Associate(row[i]) else row[i])
  }

  /** The first `n` pixels with red and green exchanged, the rest as they are. */
  function SwapRow(row: seq<Pixel>, n: nat): (r: seq<Pixel>)
    ensures |r| == |row|
  {
    seq(|row|, i requires 0 <= i < |row| => if i < n then SwapRG(row[i]) else row[i])
  }

  predicate SwapsRG(kind: QuantumType)
  {
    kind == CbYCrQuantum || kind == CbYCrAQuantum
  }

  /** The row the routine reads: associated over the image width when the
    * alpha is associated, then red and green exchanged over the pixels to
    * export for the CbYCr types. */
  function Prepared(cfg: QuantumConfig, kind: QuantumType, row: seq<Pixel>, columns: nat, n: nat): (r: seq<Pixel>)
    ensures |r| == |row|
  {
    var a := if cfg.alphaType == AssociatedQuantumAlpha then AssociateRow(row, columns) else row;
    if SwapsRG(kind) then SwapRow(a, n) else a
  }

  /** Rounding and clamping an exact quantum gives it back. */
  lemma ClampExact(x: Quantum)
    ensures ClampToQuantum(x as real) == x
  {
    if 0 < x < QuantumRange {
      var q := ClampToQuantum(x as real);
      assert q as real <= x as real + 0.5 < q as real + 1.0;
    }
  }

  /** Associating an opaque pixel changes nothing. */
  lemma AssociateOpaque(p: Pixel)
    requires p.opacity == OpaqueOpacity
    ensures Associate(p) == p
  {
    assert (1.0 / QuantumRange as real) * Alpha(p) as real == 1.0;
    ClampExact(p.red);
    ClampExact(p.green);
    ClampExact(p.blue);
  }

  /** Associating a fully transparent pixel makes it black. */
  lemma AssociateTransparent(p: Pixel)
    requires p.opacity == TransparentOpacity
    ensures Associate(p).red == 0 && Associate(p).green == 0 && Associate(p).blue == 0
  {
    assert (1.0 / QuantumRange as real) * Alpha(p) as real == 0.0;
  }

  lemma MulNonNegative(a: real, b: real)
    requires 0.0 <= a && 0.0 <= b
    ensures 0.0 <= a * b
  {
  }

  /** Scaling by a fraction of the range never raises a channel. */
  lemma ScaleNoHigher(alpha: real, c: Quantum)
    requires 0.0 <= alpha <= 1.0
    ensures Scaled(alpha, c) <= c
  {
    var x := alpha * c as real;
    assert x <= c as real by {
      assert c as real - x == (1.0 - alpha) * c as real;
      MulNonNegative(1.0 - alpha, c as real);
    }
    var q := ClampToQuantum(x);
    if 0.0 < x < QuantumRange as real {
      assert q as real <= c as real + 0.5;
    } else if x >= QuantumRange as real {
      assert c == QuantumRange;
    }
  }

  /** A channel as a fraction of the range lies in [0, 1]. */
  lemma AlphaFraction(a: Quantum)
    ensures 0.0 <= (1.0 / QuantumRange as real) * a as real <= 1.0
  {
    var u := 1.0 / QuantumRange as real;
    assert u * QuantumRange as real == 1.0;
    assert u * a as real <= u * QuantumRange as real by {
      assert u * QuantumRange as real - u * a as real == u * (QuantumRange - a) as real;
    }
  }

  /** Association never raises a colour channel. */
  lemma AssociateDarkens(p: Pixel)
    ensures Associate(p).red <= p.red && Associate(p).green <= p.green && Associate(p).blue <= p.blue
  {
    var alpha := (1.0 / QuantumRange as real) * Alpha(p) as real;
    AlphaFraction(Alpha(p));
    ScaleNoHigher(alpha, p.red);
    ScaleNoHigher(alpha, p.green);
    ScaleNoHigher(alpha, p.blue);
  }

  /** Swapping twice restores the row. */
  lemma SwapRowTwice(row: seq<Pixel>, n: nat)
    ensures SwapRow(SwapRow(row, n), n) == row
  {
    assert forall i :: 0 <= i < |row| ==> SwapRow(SwapRow(row, n), n)[i] == row[i];
  }

  // ---------------------------------------------------------------------
  // The entry point

  /** Associate the first `n` pixels of `row` in place. */
  method AssociateAlpha(row: array<Pixel>, n: nat)
    requires n <= row.Length
    modifies row
    ensures row[..] == AssociateRow(old(row[..]), n)
  {
    var x := 0;
    while x < n
      invariant x <= n
      invariant forall i :: 0 <= i < x ==> row[i] == Associate(old(row[i]))
      invariant forall i :: x <= i < row.Length ==> row[i] == old(row[i])
    {
      row[x] := Associate(row[x]);
      x := x + 1;
    }
    assert forall i :: 0 <= i < row.Length ==> row[..][i] == AssociateRow(old(row[..]), n)[i];
  }

  /** Exchange red and green in the first `n` pixels of `row`. */
  method SwapRedGreen(row: array<Pixel>, n: nat)
    requires n <= row.Length
    modifies row
    ensures row[..] == SwapRow(old(row[..]), n)
  {
    var x := 0;
    while x < n
      invariant x <= n
      invariant forall i :: 0 <= i < x ==> row[i] == SwapRG(old(row[i]))
      invariant forall i :: x <= i < row.Length ==> row[i] == old(row[i])
    {
      var quantum := row[x].red;
      row[x] := row[x].(red := row[x].green, green := quantum);
      x := x + 1;
    }
    assert forall i :: 0 <= i < row.Length ==> row[..][i] == SwapRow(old(row[..]), n)[i];
  }

  /** ExportQuantumPixels: export the first `numberPixels` pixels of `row`
    * (with their `indexes` entries and lumas) as `kind` into the packer's
    * buffer, from its start. The buffer must hold what the routine writes.
    * The routine's image error is returned and then nothing is written;
    * `extentOf` is the extent the quantum layer computes for the row, which
    * is returned as it is. The row keeps its association; the red/green swap
    * is undone. */
  method ExportQuantumPixels(packer: Packer, img: Image, row: array<Pixel>, indexes: seq<Quantum>,
                             numberPixels: nat, luma: Pixel -> real, kind: QuantumType, extentOf: nat)
      returns (extent: nat, err: Option<ExportError>)
    requires img.columns <= row.Length && numberPixels <= row.Length
    requires FitsAll(packer.cfg, packer.Cur().(q := 0, bits := 0, pixel := 0),
                     ExportOps(packer.cfg, img, kind,
                       Texels(Prepared(packer.cfg, kind, row[..], img.columns, numberPixels)[..numberPixels], indexes, luma)))
    modifies packer, packer.pixels, row
    ensures extent == extentOf && err == RoutineError(img, kind)
    ensures row[..] == if packer.cfg.alphaType == AssociatedQuantumAlpha then AssociateRow(old(row[..]), img.columns) else old(row[..])
    ensures packer.Cur() == Run(packer.cfg, old(packer.Cur()).(q := 0, bits := 0, pixel := 0),
                               ExportOps(packer.cfg, img, kind,
                                 Texels(Prepared(packer.cfg, kind, old(row[..]), img.columns, numberPixels)[..numberPixels], indexes, luma)))
  {
    ghost var prepared := Prepared(packer.cfg, kind, row[..], img.columns, numberPixels);
    if packer.cfg.alphaType == AssociatedQuantumAlpha {
      AssociateAlpha(row, img.columns);
    }
    ghost var associated := row[..];
    if SwapsRG(kind) {
      SwapRedGreen(row, numberPixels);
    }
    assert row[..] == prepared;
    packer.q := 0;
    packer.ResetQuantumState();
    extent := extentOf;
    var ts := Texels(row[..numberPixels], indexes, luma);
    err := RoutineError(img, kind);
    if err.None? {
      packer.ExportLayout(RoutineLayout(packer.cfg, kind), ts);
    }
    if SwapsRG(kind) {
      SwapRedGreen(row, numberPixels);
      SwapRowTwice(associated, numberPixels);
    }
  }
}
