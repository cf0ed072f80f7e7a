/**
 * Three places where the exporter does not do what it evidently means to,
 * each modelled as written beside an input that shows the difference. The
 * rest of the model uses the corrected behaviour (`AlphaNibble`,
 * `Gray10Ops`, `FieldBytes` of every field), whose properties are proved in
 * `QuantumProperties`.
 */
module QuantumFindings {
  import opened Bits
  import opened QuantumTypes
  import opened QuantumStream
  import opened QuantumLayouts
  import opened QuantumProperties

  // ---------------------------------------------------------------------
  // The 4-bit alpha of the gray-alpha and index-alpha routines

  /** As written: `16 * alpha / QuantumRange + 0.5` converted to an unsigned
    * char, then masked with 0xf. */
  function AlphaNibbleAsWritten(a: Quantum): (r: int)
    ensures 0 <= r < 16
  {
    (16.0 * (1.0 / QuantumRange as real) * a as real + 0.5).Floor % 256 % 16
  }

  /** Below 63488 the rounding stays under 16, the mask keeps it whole, and
    * the corrected nibble is the value written; from 63488 on the corrected
    * nibble is held at 15. */
  lemma AlphaNibbleAgrees(a: Quantum)
    ensures a < 63488 ==> AlphaNibble(a) == AlphaNibbleAsWritten(a)
    ensures a >= 63488 ==> AlphaNibble(a) == 15
  {
    var n := 32 * a + QuantumRange;
    var d := 2 * QuantumRange;
    var x := 16.0 * (1.0 / QuantumRange as real) * a as real + 0.5;
    assert x == n as real / d as real;
    RealFloorDiv(n, d);
    AlphaNibbleRange(a, a);
  }

  /** The floor of an exact quotient is the integer quotient. */
  lemma RealFloorDiv(n: nat, d: nat)
    requires d > 0
    ensures (n as real / d as real).Floor == n / d
  {
    var q := n / d;
    var r := n as real / d as real;
    var dr := d as real;
    assert r * dr == n as real;
    assert q as real * dr == (q * d) as real;
    assert (q + 1) as real * dr == ((q + 1) * d) as real;
    assert q * d <= n < (q + 1) * d;
    ScaleCompare(q as real, r, dr);
    ScaleCompare((q + 1) as real, r, dr);
    FloorBetween(r, q);
  }

  /** Multiplying by a positive real keeps the order. */
  lemma ScaleCompare(a: real, b: real, d: real)
    requires d > 0.0
    ensures a <= b <==> a * d <= b * d
  {
  }

  /** A real between `q` and `q + 1` has floor `q`. */
  lemma FloorBetween(r: real, q: int)
    requires q as real <= r < (q + 1) as real
    ensures r.Floor == q
  {
  }

  /** Nearly opaque pixels round up to 16, which the mask turns into 0 (fully
    * transparent); the corrected nibble is 15. */
  lemma AlphaNibbleWraps(a: Quantum)
    requires a >= 63488
    ensures AlphaNibbleAsWritten(a) == 0
    ensures AlphaNibble(a) == 15
  {
    var x := 16.0 * (1.0 / QuantumRange as real) * a as real + 0.5;
    assert 16.0 <= x < 17.0;
    assert x.Floor == 16;
    AlphaNibbleRange(a, a);
  }

  // ---------------------------------------------------------------------
  // The last word of the 10-bit gray routine

  /** As written: the trailing one or two pixels go through the tests
    * `x++ < n - 1` (the second trailing pixel, slot 1) and `x++ < n` (the
    * first, slot 0), with `x` starting at the first trailing pixel; a single
    * trailing pixel fails both. */
  function Gray10OpsAsWritten(cfg: QuantumConfig, l: seq<nat>): seq<Op>
    decreases |l|
  {
    if |l| >= 3 then [Long(SlotWord(l[2], l[1], l[0])), Pad(cfg.pad)] + Gray10OpsAsWritten(cfg, l[3..])
    else if |l| == 0 then []
    else
      var n := |l|;
      var x := 0;
      var slot1 := if x < n - 1 then l[1] else 0;
      var slot0 := if x + 1 < n then l[0] else 0;
      [Long(SlotWord(0, slot1, slot0))]
  }

  /** A row of `3 g + 1` pixels leaves one pixel over and loses it: its word
    * is zero whatever the pixel, where the corrected layout keeps it in slot
    * 0 of write `2 g`. */
  lemma {:induction false} Gray10LastPixelLost(cfg: QuantumConfig, l: seq<nat>, g: nat)
    requires forall i :: 0 <= i < |l| ==> l[i] < 1024
    requires |l| == 3 * g + 1
    ensures Gray10OpsAsWritten(cfg, l)[|Gray10OpsAsWritten(cfg, l)| - 1] == Long(0)
    ensures 2 * g < |Gray10Ops(cfg, l)| && Gray10Ops(cfg, l)[2 * g].Long?
    ensures Slot10(Gray10Ops(cfg, l)[2 * g].w, 0) == l[|l| - 1]
    decreases g
  {
    if g > 0 {
      Gray10LastPixelLost(cfg, l[3..], g - 1);
      assert Gray10OpsAsWritten(cfg, l)[2..] == Gray10OpsAsWritten(cfg, l[3..]);
    } else {
      SlotWordValue(0, 0, 0);
    }
    Gray10Keeps(cfg, l, g, 0);
  }

  // ---------------------------------------------------------------------
  // The trailing byte of the 1-bit gray-alpha and index-alpha routines

  /** Iterations of `for (bit = b; bit <= r; bit += 2)`. */
  function CountUp(b: int, r: int): nat
    decreases if b <= r then r - b + 1 else 0
  {
    if b <= r then 1 + CountUp(b + 2, r) else 0
  }

  /** Iterations of `for (bit = b; bit >= lim; bit -= 2)`. */
  function CountDown(b: int, lim: int): nat
    decreases if b >= lim then b - lim + 1 else 0
  {
    if b >= lim then 1 + CountDown(b - 2, lim) else 0
  }

  /** As written, how many of the `r` pixels left over after the groups of
    * four the trailing loop writes: gray-alpha counts `bit` up from 0 while
    * `bit <= r`, index-alpha down from 3 while `bit >= 4 - r`. */
  function TrailingAsWritten(kind: FieldKind, r: nat): nat
  {
    if kind == GrayAlphaBits then CountUp(0, r) else CountDown(3, 4 - r)
  }

  /** As written: the 1-bit gray-alpha or index-alpha row with only
    * `TrailingAsWritten` of the leftover pixels in its last byte. */
  function AlphaBitsAsWritten(cfg: QuantumConfig, kind: FieldKind, ts: seq<Texel>): seq<Op>
    requires kind == GrayAlphaBits || kind == IndexAlphaBits
  {
    var vs := FieldList(cfg, kind, ts);
    var r := |vs| % 4;
    var t := TrailingAsWritten(kind, r);
    var keep := |vs| - r + (if r == 0 then 0 else if t <= r then t else r);
    FieldBytes(vs[..keep], 0, 2)
  }

  /** How many leftover pixels the gray-alpha loop writes: all of one or
    * two, but only two of three. */
  lemma GrayAlphaTrailing()
    ensures TrailingAsWritten(GrayAlphaBits, 1) == 1 && TrailingAsWritten(GrayAlphaBits, 2) == 2
    ensures TrailingAsWritten(GrayAlphaBits, 3) == 2
  {
    assert CountUp(4, 3) == 0 && CountUp(2, 3) == 1;
    assert CountUp(4, 2) == 0 && CountUp(2, 2) == 1;
    assert CountUp(2, 1) == 0;
  }

  /** How many leftover pixels the index-alpha loop writes: all of one, but
    * only one of two and two of three. */
  lemma IndexAlphaTrailing()
    ensures TrailingAsWritten(IndexAlphaBits, 1) == 1 && TrailingAsWritten(IndexAlphaBits, 2) == 1
    ensures TrailingAsWritten(IndexAlphaBits, 3) == 2
  {
    assert CountDown(1, 3) == 0 && CountDown(1, 2) == 0;
    assert CountDown(-1, 1) == 0 && CountDown(1, 1) == 1;
  }

  /** A row of one to four 2-bit fields fills a single byte. */
  lemma OneTwoBitByte(vs: seq<nat>)
    requires FitIn(vs, 2) && 1 <= |vs| <= 4
    ensures FieldBytes(vs, 0, 2) == [Char(FieldByte(vs, 2))]
  {
    assert vs[0..|vs|] == vs;
  }

  /** The bytes of the two 2-bit rows of the gray-alpha example. */
  lemma GrayAlphaBytes()
    ensures FitIn([0, 0], 2) && FieldBytes([0, 0], 0, 2) == [Char(0)]
    ensures FitIn([0, 0, 1], 2) && FieldBytes([0, 0, 1], 0, 2) == [Char(4)]
  {
    Pow2Constants();
    OneTwoBitByte([0, 0]);
    OneTwoBitByte([0, 0, 1]);
    assert Fields([0, 0, 1], 2) == 1 by {
      assert [0, 0, 1][..2] == [0, 0] && [0, 0][..1] == [0];
    }
  }

  /** The bytes of the two 2-bit rows of the index-alpha example. */
  lemma IndexAlphaBytes()
    ensures FitIn([0], 2) && FieldBytes([0], 0, 2) == [Char(0)]
    ensures FitIn([0, 1], 2) && FieldBytes([0, 1], 0, 2) == [Char(16)]
  {
    Pow2Constants();
    OneTwoBitByte([0]);
    OneTwoBitByte([0, 1]);
    assert Fields([0, 1], 2) == 1 by {
      assert [0, 1][..1] == [0];
    }
  }

  /** Three gray-alpha pixels, all bright and the third opaque: as written its
    * fields are missing from the byte, which the corrected layout sets to
    * 0b00000100. */
  lemma GrayAlphaThirdPixelLost(cfg: QuantumConfig)
    requires !cfg.minIsWhite
    ensures var clear := Texel(Pixel(0, 0, 0, TransparentOpacity), 0, QuantumRange as real);
            var solid := Texel(Pixel(0, 0, 0, OpaqueOpacity), 0, QuantumRange as real);
            AlphaBitsAsWritten(cfg, GrayAlphaBits, [clear, clear, solid]) == [Char(0)] &&
            LayoutOps(cfg, BitFields(GrayAlphaBits), [clear, clear, solid]) == [Char(4)]
  {
    var clear := Texel(Pixel(0, 0, 0, TransparentOpacity), 0, QuantumRange as real);
    var solid := Texel(Pixel(0, 0, 0, OpaqueOpacity), 0, QuantumRange as real);
    var vs := FieldList(cfg, GrayAlphaBits, [clear, clear, solid]);
    assert vs == [0, 0, 1];
    GrayAlphaTrailing();
    GrayAlphaBytes();
    assert vs[..2] == [0, 0];
  }

  /** Two index-alpha pixels, the second transparent: as written its fields
    * are missing from the byte, which the corrected layout sets to
    * 0b00010000. */
  lemma IndexAlphaSecondPixelLost(cfg: QuantumConfig)
    ensures var solid := Texel(Pixel(0, 0, 0, OpaqueOpacity), 0, 0.0);
            var clear := Texel(Pixel(0, 0, 0, TransparentOpacity), 0, 0.0);
            AlphaBitsAsWritten(cfg, IndexAlphaBits, [solid, clear]) == [Char(0)] &&
            LayoutOps(cfg, BitFields(IndexAlphaBits), [solid, clear]) == [Char(16)]
  {
    var solid := Texel(Pixel(0, 0, 0, OpaqueOpacity), 0, 0.0);
    var clear := Texel(Pixel(0, 0, 0, TransparentOpacity), 0, 0.0);
    var vs := FieldList(cfg, IndexAlphaBits, [solid, clear]);
    assert vs == [0, 1];
    IndexAlphaTrailing();
    IndexAlphaBytes();
    assert vs[..1] == [0];
  }
}
