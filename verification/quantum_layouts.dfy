/**
 * What each export routine writes, as a sequence of primitive writes (`Op`s)
 * computed from the row it is given. One function per kind of layout, and one
 * per routine saying which layout it uses at which depth. The routines
 * themselves are the methods of `QuantumPacker.Packer`, proved to perform
 * exactly these writes. Four layouts are the corrected ones rather than the
 * routines' own: the last word of the 10-bit gray row, the left-over pixels
 * of the 1-bit gray-alpha and index-alpha rows, and the 4-bit alpha held at
 * 15 instead of wrapping to 0; `QuantumFindings` models the routines' own
 * and shows where they differ.
 */
module QuantumLayouts {
  import opened Bits
  import opened QuantumTypes
  import opened QuantumStream

  /** What the exporter reads for one pixel: the pixel, its entry in the index
    * row (colormap index, or the black channel of a CMYK image) and its luma.
    * The luma is computed by the caller from the pixel. */
  datatype Texel = Texel(p: Pixel, index: Quantum, luma: real)

  /** The sample kinds a routine writes. `BlackSample` and `IndexSample` both
    * come from the index row: black is scaled like a colour sample, an index
    * is written as it is. */
  datatype Channel = RedSample | GreenSample | BlueSample | AlphaSample | OpacitySample
                   | BlackSample | GraySample | IndexSample

  function Sample(t: Texel, ch: Channel): Quantum
  {
    match ch
    case RedSample => t.p.red
    case GreenSample => t.p.green
    case BlueSample => t.p.blue
    case AlphaSample => Alpha(t.p)
    case OpacitySample => t.p.opacity
    case BlackSample => t.index
    case GraySample => ClampToQuantum(t.luma)
    case IndexSample => t.index
  }

  /** The write of one sample at the configured depth: 8, 16 and 32 bits use the
    * byte, short and word scalings; any other depth packs the sample scaled to
    * `depth` bits; `wide` selects packing into 32-bit words. An index is never
    * scaled (its 8-bit write keeps the low byte). */
  function Encode(cfg: QuantumConfig, t: Texel, ch: Channel, wide: bool): Op
  {
    var s := Sample(t, ch);
    if ch == IndexSample then
      if cfg.depth == 8 then Char(s % 256)
      else if cfg.depth == 16 then Short(s)
      else if cfg.depth == 32 then Long(s)
      else Pack(s)
    else if wide then PackLong(ScaleQuantumToAny(s, QuantumRangeOf(cfg.depth)))
    else if cfg.depth == 8 then Char(ScaleQuantumToChar(s))
    else if cfg.depth == 16 then Short(ScaleQuantumToShort(s))
    else if cfg.depth == 32 then Long(ScaleQuantumToLong(s))
    else Pack(ScaleQuantumToAny(s, QuantumRangeOf(cfg.depth)))
  }

  /** A sample scaled to 10 bits. */
  function Scale10(s: Quantum): nat
  {
    ScaleQuantumToAny(s, QuantumRangeOf(10))
  }

  /** A sample scaled to 12 bits. */
  function Scale12(s: Quantum): nat
  {
    ScaleQuantumToAny(s, QuantumRangeOf(12))
  }

  /** `(unsigned int) (a << 22 | b << 12 | c << 2)`: three 10-bit slots of a
    * 32-bit word, the lowest two bits unused. */
  function SlotWord(a: nat, b: nat, c: nat): uint32
  {
    Or(Or(Shl(a, 22), Shl(b, 12)), Shl(c, 2)) % 0x1_0000_0000
  }

  // ---------------------------------------------------------------------
  // Layouts that treat every pixel alike

  /** The writes of one pixel. `Samples` is one write per channel, then the pad;
    * `Words10` three 10-bit samples in one word, then the pad; `GrayShort12`
    * the 16-bit gray shifted right by four bits (its top 12 bits) in a short,
    * then the pad; `AlphaNibbles`
    * one byte, a 4-bit sample in the high nibble and the 4-bit alpha in the low
    * one, without pad. */
  datatype PixelLayout =
    | Samples(chans: seq<Channel>, wide: bool)
    | Words10(a: Channel, b: Channel, c: Channel)
    | GrayShort12
    | AlphaNibbles(high: Channel)

  /** The 4-bit alpha of the 4-bit gray-alpha and index-alpha layouts:
    * `16 * alpha / QuantumRange` rounded half up, held at 15 where that
    * rounds to 16. In integers, `floor((32 * alpha + QuantumRange) /
    * (2 * QuantumRange))`. */
  function AlphaNibble(a: Quantum): nat
  {
    var v := (32 * a + QuantumRange) / (2 * QuantumRange);
    if v > 15 then 15 else v
  }

  /** The high nibble: the top four bits of the 8-bit gray, or the low four
    * bits of the index. */
  function HighNibble(t: Texel, ch: Channel): nat
  {
    if ch == IndexSample then t.index % 16 else ScaleQuantumToChar(Sample(t, ch)) / 16
  }

  function PixelOps(cfg: QuantumConfig, l: PixelLayout, t: Texel): seq<Op>
  {
    match l
    case Samples(chans, wide) =>
      seq(|chans|, j requires 0 <= j < |chans| => Encode(cfg, t, chans[j], wide)) + [Pad(cfg.pad)]
    case Words10(a, b, c) =>
      [Long(SlotWord(Scale10(Sample(t, a)), Scale10(Sample(t, b)), Scale10(Sample(t, c)))), Pad(cfg.pad)]
    case GrayShort12 =>
      [Short(ScaleQuantumToShort(Sample(t, GraySample)) / 16), Pad(cfg.pad)]
    case AlphaNibbles(h) =>
      AlphaNibbleBound(Alpha(t.p));
      [Char(HighNibble(t, h) * 16 + AlphaNibble(Alpha(t.p)))]
  }

  lemma AlphaNibbleBound(a: Quantum)
    ensures AlphaNibble(a) < 16
  {
  }

  /** The writes of a row in which every pixel is written alike. */
  function RowOps(cfg: QuantumConfig, l: PixelLayout, ts: seq<Texel>): seq<Op>
    decreases |ts|
  {
    if ts == [] then [] else PixelOps(cfg, l, ts[0]) + RowOps(cfg, l, ts[1..])
  }

  // ---------------------------------------------------------------------
  // 10-bit samples rotating through the slots of successive words

  /** Shift of slot `phase` of a 10-bit word. */
  function SlotShift(phase: nat): nat
  {
    if phase == 0 then 22 else if phase == 1 then 12 else 2
  }

  /** `(unsigned int) (acc | v << shift)`: sample `v` ORed into slot `phase`. */
  function SlotIn(acc: uint32, v: nat, phase: nat): uint32
  {
    Or(acc, Shl(v, SlotShift(phase))) % 0x1_0000_0000
  }

  /** Sample `v` ORed into slot `phase` of the pending word `acc`: when that
    * is the last slot the word is written and a new one started. Returns the
    * writes, the next slot and the pending word. */
  function SampleStep(v: nat, phase: nat, acc: uint32): (r: (seq<Op>, nat, uint32))
    requires phase < 3
    ensures r.1 < 3
  {
    var acc1 := SlotIn(acc, v, phase);
    if phase == 2 then ([Long(acc1)], 0, 0) else ([], phase + 1, acc1)
  }

  /** Samples `s` of one pixel taken in turn by `SampleStep`. */
  function RotSamples(s: seq<nat>, phase: nat, acc: uint32): (r: (seq<Op>, nat, uint32))
    requires phase < 3
    ensures r.1 < 3
    decreases |s|
  {
    if s == [] then ([], phase, acc)
    else
      var st := SampleStep(s[0], phase, acc);
      var rest := RotSamples(s[1..], st.1, st.2);
      (st.0 + rest.0, rest.1, rest.2)
  }

  /** One step of `RotSamples` from sample `i`. */
  lemma RotSamplesStep(s: seq<nat>, i: nat, phase: nat, w: uint32)
    requires i < |s| && phase < 3
    ensures var st := SampleStep(s[i], phase, w);
      var rest := RotSamples(s[i + 1..], st.1, st.2);
      RotSamples(s[i..], phase, w) == (st.0 + rest.0, rest.1, rest.2)
  {
    assert s[i..][0] == s[i] && s[i..][1..] == s[i + 1..];
  }

  /** The four channels of a pixel, scaled to 10 bits. */
  function Scaled10(t: Texel, chans: seq<Channel>): (s: seq<nat>)
    ensures |s| == |chans|
  {
    seq(|chans|, j requires 0 <= j < |chans| => Scale10(Sample(t, chans[j])))
  }

  /** The 10-bit unpacked layout of the four-channel routines from pixel `x`
    * on, slot `phase` of the pending word `acc` being the next to fill:
    * samples fill the three slots of one word after another across pixel
    * boundaries, the pad follows each pixel, and a word still pending after
    * the last pixel is not written. */
  function RotOps(cfg: QuantumConfig, chans: seq<Channel>, ts: seq<Texel>, x: nat, phase: nat, acc: uint32): seq<Op>
    requires phase < 3
    decreases |ts| - x
  {
    if x >= |ts| then []
    else
      var r := RotSamples(Scaled10(ts[x], chans), phase, acc);
      r.0 + ([Pad(cfg.pad)] + RotOps(cfg, chans, ts, x + 1, r.1, r.2))
  }

  // ---------------------------------------------------------------------
  // 12-bit samples, two to a pair of shorts

  /** The samples of a row, pixel by pixel and channel by channel, scaled to
    * 12 bits. */
  function Flat12(ts: seq<Texel>, a: Channel, b: Channel, c: Channel): (s: seq<nat>)
    ensures |s| == 3 * |ts|
  {
    seq(3 * |ts|, k requires 0 <= k < 3 * |ts| =>
      var ch := if k % 3 == 0 then a else if k % 3 == 1 then b else c;
      Scale12(Sample(ts[k / 3], ch)))
  }

  lemma Scale12Bound(s: Quantum)
    ensures Scale12(s) < 4096
  {
    assert QuantumRangeOf(12) == 4095 by {
      Pow2Add(4, 8);
      Pow2Constants();
    }
  }

  /** The 12-bit unpacked layout: each sample in the high 12 bits of a short,
    * two shorts and then the pad; an odd last sample gets its own pad. */
  function Pairs12Ops(cfg: QuantumConfig, s: seq<nat>): seq<Op>
    requires forall k :: 0 <= k < |s| ==> s[k] < 4096
    decreases |s|
  {
    if |s| == 0 then []
    else if |s| == 1 then [Short(s[0] * 16), Pad(cfg.pad)]
    else [Short(s[0] * 16), Short(s[1] * 16), Pad(cfg.pad)] + Pairs12Ops(cfg, s[2..])
  }

  // ---------------------------------------------------------------------
  // 10-bit gray, three pixels to a word

  /** The lumas of a row, clamped and scaled to 10 bits. */
  function Lumas10(ts: seq<Texel>): (l: seq<nat>)
    ensures |l| == |ts|
  {
    seq(|ts|, k requires 0 <= k < |ts| => Scale10(ClampToQuantum(ts[k].luma)))
  }

  /** The 10-bit unpacked gray layout: three pixels per word, the first in the
    * lowest slot, each full word followed by the pad; one or two trailing
    * pixels share a last word (without pad) whose unused slots are zero. */
  function Gray10Ops(cfg: QuantumConfig, l: seq<nat>): seq<Op>
    decreases |l|
  {
    if |l| >= 3 then [Long(SlotWord(l[2], l[1], l[0])), Pad(cfg.pad)] + Gray10Ops(cfg, l[3..])
    else if |l| == 2 then [Long(SlotWord(0, l[1], l[0]))]
    else if |l| == 1 then [Long(SlotWord(0, 0, l[0]))]
    else []
  }

  // ---------------------------------------------------------------------
  // CbYCrY

  /** Component `n mod 3` of a pixel: red, green, blue in turn. */
  function Component(t: Texel, n: nat): Quantum
  {
    if n % 3 == 0 then t.p.red else if n % 3 == 1 then t.p.green else t.p.blue
  }

  /** The four components of a pixel pair, from component `n`. */
  function Components(t: Texel, n: nat): (cbcr: seq<Quantum>)
    ensures |cbcr| == 4
  {
    [Component(t, n), Component(t, n + 1), Component(t, n + 2), Component(t, n + 3)]
  }

  /** The writes of one pixel pair from its four components `cbcr`. */
  function CbYCrYPair(cfg: QuantumConfig, cbcr: seq<Quantum>, words: bool): seq<Op>
    requires |cbcr| == 4
  {
    var range := QuantumRangeOf(cfg.depth);
    if words then [Long(SlotWord(cbcr[1], cbcr[0], cbcr[2])), Long(SlotWord(cbcr[3], cbcr[0], cbcr[2])), Pad(cfg.pad)]
    else [Pack(ScaleQuantumToAny(cbcr[1], range)), Pack(ScaleQuantumToAny(cbcr[0], range)),
          Pack(ScaleQuantumToAny(cbcr[2], range)), Pack(ScaleQuantumToAny(cbcr[3], range)),
          Pack(ScaleQuantumToAny(cbcr[0], range)), Pack(ScaleQuantumToAny(cbcr[2], range)), Pad(cfg.pad)]
  }

  /** The CbYCrY layout from pixel `x` on: pixels are taken in pairs, the
    * pair at `x` using components `2x` to `2x + 3` (red, green, blue in
    * rotation) of pixel `x` alone. */
  function CbYCrYOps(cfg: QuantumConfig, ts: seq<Texel>, x: nat, words: bool): seq<Op>
    decreases |ts| - x
  {
    if x >= |ts| then []
    else CbYCrYPair(cfg, Components(ts[x], 2 * x), words) + CbYCrYOps(cfg, ts, x + 2, words)
  }

  // ---------------------------------------------------------------------
  // 1-, 2- and 4-bit fields packed into bytes

  /** The big-endian concatenation of `w`-bit fields. */
  function Fields(vs: seq<nat>, w: nat): nat
    decreases |vs|
  {
    if vs == [] then 0 else Fields(vs[..|vs| - 1], w) * Pow2(w) + vs[|vs| - 1]
  }

  lemma FieldsSnoc(vs: seq<nat>, j: nat, w: nat)
    requires j < |vs|
    ensures Fields(vs[..j + 1], w) == Fields(vs[..j], w) * Pow2(w) + vs[j]
  {
    assert vs[..j + 1][..j] == vs[..j];
  }

  /** Every field fits in `w` bits. */
  predicate FitIn(vs: seq<nat>, w: nat)
  {
    forall k :: 0 <= k < |vs| ==> vs[k] < Pow2(w)
  }

  lemma FitInSlice(vs: seq<nat>, w: nat, i: nat, j: nat)
    requires FitIn(vs, w) && i <= j <= |vs|
    ensures FitIn(vs[i..j], w)
  {
  }

  predicate FieldWidth(w: nat)
  {
    w == 1 || w == 2 || w == 4
  }

  /** How many `w`-bit fields make a byte. */
  function PerByte(w: nat): (k: nat)
    requires FieldWidth(w)
    ensures (w == 1 && k == 8) || (w == 2 && k == 4) || (w == 4 && k == 2)
  {
    if w == 1 then 8 else if w == 2 then 4 else 2
  }

  lemma {:induction false} FieldsBound(vs: seq<nat>, w: nat)
    requires FitIn(vs, w)
    ensures Fields(vs, w) < Pow2(w * |vs|)
    decreases |vs|
  {
    if vs != [] {
      var init := vs[..|vs| - 1];
      FieldsBound(init, w);
      StackBound(vs[|vs| - 1], Fields(init, w), w, w * |init|);
      assert Fields(vs, w) == vs[|vs| - 1] + Fields(init, w) * Pow2(w);
      assert w * |vs| == w + w * |init|;
    }
  }

  /** The byte holding fields `vs`, the first in the most significant bits and
    * the unused low bits zero. */
  function FieldByte(vs: seq<nat>, w: nat): byte
    requires FieldWidth(w) && |vs| <= PerByte(w) && FitIn(vs, w)
  {
    assert w * |vs| <= 8 by {
      assert |vs| <= PerByte(w);
    }
    ShiftedFieldsBound(vs, w, 8 - w * |vs|);
    Shl(Fields(vs, w), 8 - w * |vs|)
  }

  /** One more field ORed into the byte of the fields before it. */
  lemma FieldByteStep(vs: seq<nat>, j: nat, w: nat, shift: nat)
    requires FieldWidth(w) && j < |vs| <= PerByte(w) && FitIn(vs, w)
    requires shift + w * j == 8
    ensures shift >= w
    ensures Or(Shl(Fields(vs[..j], w), shift), Shl(vs[j], shift - w)) == Shl(Fields(vs[..j + 1], w), shift - w)
    ensures Shl(Fields(vs[..j + 1], w), shift - w) < 256
  {
    assert w * (j + 1) <= 8 by {
      assert j + 1 <= PerByte(w);
    }
    FieldsSnoc(vs, j, w);
    OrAppendField(Fields(vs[..j], w), vs[j], w, shift - w);
    assert FitIn(vs[..j + 1], w);
    ShiftedFieldsBound(vs[..j + 1], w, shift - w);
  }

  /** Fields filling a byte from its top bit fit in it. */
  lemma ShiftedFieldsBound(vs: seq<nat>, w: nat, s: nat)
    requires FitIn(vs, w) && w * |vs| + s == 8
    ensures Shl(Fields(vs, w), s) < 256
  {
    FieldsBound(vs, w);
    ShlBound(Fields(vs, w), w * |vs|, s);
    Pow2Constants();
  }

  /** Fields `vs` from field `x` on, `PerByte(w)` to a byte in order, the last
    * byte padded with zero bits. */
  function FieldBytes(vs: seq<nat>, x: nat, w: nat): seq<Op>
    requires FieldWidth(w) && FitIn(vs, w)
    decreases |vs| - x
  {
    if x >= |vs| then []
    else
      var k := if |vs| - x < PerByte(w) then |vs| - x else PerByte(w);
      [Char(FieldByte(vs[x..x + k], w))] + FieldBytes(vs, x + k, w)
  }

  /** The per-pixel field of each bit-packed layout. */
  datatype FieldKind = GrayBit | IndexBit | GrayAlphaBits | IndexAlphaBits | GrayNibble | IndexNibble

  function KindWidth(k: FieldKind): (w: nat)
    ensures FieldWidth(w)
  {
    match k
    case GrayBit => 1
    case IndexBit => 1
    case GrayAlphaBits => 2
    case IndexAlphaBits => 2
    case GrayNibble => 4
    case IndexNibble => 4
  }

  /** The 1-bit gray value of a pixel: black when `black` holds (the luma
    * below half the range for `GrayBit`, above it for `GrayAlphaBits`), white
    * otherwise; black is bit 0 and white bit 1 unless the configuration says
    * minimum is white. */
  function GrayValue(cfg: QuantumConfig, black: bool): nat
  {
    if black == cfg.minIsWhite then 1 else 0
  }

  function FieldOf(cfg: QuantumConfig, k: FieldKind, t: Texel): (v: nat)
    ensures v < Pow2(KindWidth(k))
  {
    assert Pow2(1) == 2 && Pow2(2) == 4 && Pow2(4) == 16 by {
      Pow2Add(1, 1);
      Pow2Add(2, 2);
    }
    match k
    case GrayBit => GrayValue(cfg, t.luma < QuantumRange as real / 2.0)
    case IndexBit => t.index % 2
    case GrayAlphaBits =>
      2 * GrayValue(cfg, t.luma > QuantumRange as real / 2.0) + (if t.p.opacity == OpaqueOpacity then 1 else 0)
    case IndexAlphaBits =>
      2 * (t.index % 2) + (if t.p.opacity == TransparentOpacity then 1 else 0)
    case GrayNibble => ScaleQuantumToChar(ClampToQuantum(t.luma)) / 16
    case IndexNibble => t.index % 16
  }

  /** The fields of a row. */
  function FieldList(cfg: QuantumConfig, k: FieldKind, ts: seq<Texel>): (vs: seq<nat>)
    ensures |vs| == |ts| && FitIn(vs, KindWidth(k))
  {
    seq(|ts|, i requires 0 <= i < |ts| => FieldOf(cfg, k, ts[i]))
  }

  // ---------------------------------------------------------------------
  // Routines

  /** How a routine lays out a row. */
  datatype Layout =
    | EachPixel(l: PixelLayout)
    | Rotation10(chans: seq<Channel>)
    | Pairs12(a: Channel, b: Channel, c: Channel)
    | Gray10
    | CbYCrY(words: bool)
    | BitFields(kind: FieldKind)
    | NoOutput

  function LayoutOps(cfg: QuantumConfig, layout: Layout, ts: seq<Texel>): seq<Op>
  {
    match layout
    case EachPixel(l) => RowOps(cfg, l, ts)
    case Rotation10(chans) => RotOps(cfg, chans, ts, 0, 0, 0)
    case Pairs12(a, b, c) =>
      forall k | 0 <= k < 3 * |ts| ensures Flat12(ts, a, b, c)[k] < 4096 {
        var ch := if k % 3 == 0 then a else if k % 3 == 1 then b else c;
        Scale12Bound(Sample(ts[k / 3], ch));
      }
      Pairs12Ops(cfg, Flat12(ts, a, b, c))
    case Gray10 => Gray10Ops(cfg, Lumas10(ts))
    case CbYCrY(words) => CbYCrYOps(cfg, ts, 0, words)
    case BitFields(k) => FieldBytes(FieldList(cfg, k, ts), 0, KindWidth(k))
    case NoOutput => []
  }

  /** The routines of a single channel (alpha, opacity, red, green, blue and
    * black) write that channel at every depth. */
  function SingleLayout(ch: Channel): Layout
  {
    EachPixel(Samples([ch], false))
  }

  /** RGB: red, green, blue; at 10 bits unpacked one word per pixel, at 12 bits
    * unpacked pairs of shorts; packed 10 and 12 bits use 32-bit words when the
    * packing quantum is 32. */
  function RGBLayout(cfg: QuantumConfig): Layout
  {
    var rgb := [RedSample, GreenSample, BlueSample];
    if cfg.depth == 10 && !cfg.pack then EachPixel(Words10(RedSample, GreenSample, BlueSample))
    else if cfg.depth == 12 && !cfg.pack then Pairs12(RedSample, GreenSample, BlueSample)
    else if cfg.depth == 10 || cfg.depth == 12 then EachPixel(Samples(rgb, cfg.quantum == 32))
    else EachPixel(Samples(rgb, false))
  }

  /** BGR: blue, green, red at 8, 16 and 32 bits; every other depth is laid out
    * as RGB. */
  function BGRLayout(cfg: QuantumConfig): Layout
  {
    if cfg.depth == 8 || cfg.depth == 16 || cfg.depth == 32 then EachPixel(Samples([BlueSample, GreenSample, RedSample], false))
    else RGBLayout(cfg)
  }

  /** The four-channel routines RGBA, RGBO, BGRA and BGRO: `order` at every
    * depth but 10 bits, where red, green, blue and `last` rotate through the
    * slots of successive words (unpacked) or are packed in that order. */
  function FourLayout(cfg: QuantumConfig, order: seq<Channel>, last: Channel): Layout
  {
    var rgbx := [RedSample, GreenSample, BlueSample, last];
    if cfg.depth == 10 && !cfg.pack then Rotation10(rgbx)
    else if cfg.depth == 10 then EachPixel(Samples(rgbx, cfg.quantum == 32))
    else EachPixel(Samples(order, false))
  }

  /** Gray: 1 bit per pixel with a threshold, 4-bit nibbles, 10 bits three to a
    * word (unpacked), 12 bits in a short (unpacked), the clamped luma
    * otherwise. */
  function GrayLayout(cfg: QuantumConfig): Layout
  {
    if cfg.depth == 1 then BitFields(GrayBit)
    else if cfg.depth == 4 then BitFields(GrayNibble)
    else if cfg.depth == 10 && !cfg.pack then Gray10
    else if cfg.depth == 12 && !cfg.pack then EachPixel(GrayShort12)
    else EachPixel(Samples([GraySample], false))
  }

  function GrayAlphaLayout(cfg: QuantumConfig): Layout
  {
    if cfg.depth == 1 then BitFields(GrayAlphaBits)
    else if cfg.depth == 4 then EachPixel(AlphaNibbles(GraySample))
    else EachPixel(Samples([GraySample, AlphaSample], false))
  }

  function IndexLayout(cfg: QuantumConfig): Layout
  {
    if cfg.depth == 1 then BitFields(IndexBit)
    else if cfg.depth == 4 then BitFields(IndexNibble)
    else EachPixel(Samples([IndexSample], false))
  }

  function IndexAlphaLayout(cfg: QuantumConfig): Layout
  {
    if cfg.depth == 1 then BitFields(IndexAlphaBits)
    else if cfg.depth == 4 then EachPixel(AlphaNibbles(IndexSample))
    else EachPixel(Samples([IndexSample, AlphaSample], false))
  }

  /** CbYCrY: nothing at 10 bits packed. */
  function CbYCrYLayout(cfg: QuantumConfig): Layout
  {
    if cfg.depth == 10 && cfg.pack then NoOutput else CbYCrY(cfg.depth == 10)
  }
}
