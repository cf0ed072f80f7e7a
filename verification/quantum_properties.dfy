/**
 * What the export layouts promise a reader of the buffer: every sample can be
 * found again where the layout puts it.
 */
module QuantumProperties {
  import opened Bits
  import opened QuantumTypes
  import opened QuantumStream
  import opened QuantumLayouts

  // ---------------------------------------------------------------------
  // Words of three 10-bit slots

  /** Slot `j` of a word written by `SlotWord`: slot 0 at bit 2, slot 1 at
    * bit 12, slot 2 at bit 22. */
  function Slot10(w: nat, j: nat): nat
  {
    if j == 0 then w / 4 % 1024 else if j == 1 then w / 4096 % 1024 else w / 4194304 % 1024
  }

  lemma Pow2Ten()
    ensures Pow2(2) == 4 && Pow2(10) == 1024 && Pow2(12) == 4096 && Pow2(22) == 4194304
  {
    Pow2Constants();
    Pow2Add(2, 8);
    Pow2Add(4, 8);
    Pow2Add(10, 12);
  }

  /** With 10-bit samples the word is their plain sum at the three slots. */
  lemma SlotWordValue(a: nat, b: nat, c: nat)
    requires a < 1024 && b < 1024 && c < 1024
    ensures SlotWord(a, b, c) == 4194304 * a + 4096 * b + 4 * c
  {
    Pow2Ten();
    OrAppendField(a, b, 10, 12);
    OrAppendField(a * 1024 + b, c, 10, 2);
    assert Or(Or(Shl(a, 22), Shl(b, 12)), Shl(c, 2)) == ((a * 1024 + b) * 1024 + c) * 4;
  }

  /** Each 10-bit sample is found again in its slot. */
  lemma SlotWordFields(a: nat, b: nat, c: nat)
    requires a < 1024 && b < 1024 && c < 1024
    ensures Slot10(SlotWord(a, b, c), 0) == c
    ensures Slot10(SlotWord(a, b, c), 1) == b
    ensures Slot10(SlotWord(a, b, c), 2) == a
  {
    SlotWordValue(a, b, c);
    var w := SlotWord(a, b, c);
    DivUnique(w, 4, 1048576 * a + 1024 * b + c, 0);
    DivUnique(1048576 * a + 1024 * b + c, 1024, 1024 * a + b, c);
    DivUnique(w, 4096, 1024 * a + b, 4 * c);
    DivUnique(1024 * a + b, 1024, a, b);
    DivUnique(w, 4194304, a, 4096 * b + 4 * c);
    DivUnique(a, 1024, 0, a);
  }

  lemma Scale10Bound(s: Quantum)
    ensures Scale10(s) < 1024
  {
    Pow2Ten();
  }

  /** The corrected 10-bit gray layout keeps every pixel: pixel `3 g + s`
    * is in slot `s` of the word written for group `g`, which is write
    * number `2 g` (each full word is followed by the pad). */
  lemma {:induction false} Gray10Keeps(cfg: QuantumConfig, l: seq<nat>, g: nat, s: nat)
    requires forall i :: 0 <= i < |l| ==> l[i] < 1024
    requires s < 3 && 3 * g + s < |l|
    ensures 2 * g < |Gray10Ops(cfg, l)|
    ensures Gray10Ops(cfg, l)[2 * g].Long?
    ensures Slot10(Gray10Ops(cfg, l)[2 * g].w, s) == l[3 * g + s]
    decreases g
  {
    if g > 0 {
      var rest := Gray10Ops(cfg, l[3..]);
      var ops := Gray10Ops(cfg, l);
      var j := 2 * (g - 1);
      assert ops == [Long(SlotWord(l[2], l[1], l[0])), Pad(cfg.pad)] + rest;
      Gray10Keeps(cfg, l[3..], g - 1, s);
      assert 2 * g == j + 2 && 3 * g + s == 3 * (g - 1) + s + 3;
      assert ops[j + 2] == rest[j];
      assert l[3..][3 * (g - 1) + s] == l[3 * (g - 1) + s + 3];
    } else {
      Gray10FirstWord(cfg, l, s);
    }
  }

  /** The first write of the 10-bit gray layout is a word holding the first
    * pixels, the first in slot 0. */
  lemma Gray10FirstWord(cfg: QuantumConfig, l: seq<nat>, s: nat)
    requires forall i :: 0 <= i < |l| ==> l[i] < 1024
    requires s < 3 && s < |l|
    ensures 0 < |Gray10Ops(cfg, l)| && Gray10Ops(cfg, l)[0].Long?
    ensures Slot10(Gray10Ops(cfg, l)[0].w, s) == l[s]
  {
    if |l| >= 3 {
      SlotWordFields(l[2], l[1], l[0]);
    } else if |l| == 2 {
      SlotWordFields(0, l[1], l[0]);
    } else {
      SlotWordFields(0, 0, l[0]);
    }
  }

  /** For the gray routine at 10 bits unpacked: every pixel's scaled luma is
    * in the output, pixel `3 g + s` in slot `s` of write `2 g`. */
  lemma Gray10RowKeeps(cfg: QuantumConfig, ts: seq<Texel>, g: nat, s: nat)
    requires s < 3 && 3 * g + s < |ts|
    ensures var ops := LayoutOps(cfg, Gray10, ts);
      2 * g < |ops| && ops[2 * g].Long? && Slot10(ops[2 * g].w, s) == Scale10(ClampToQuantum(ts[3 * g + s].luma))
  {
    var l := Lumas10(ts);
    Lumas10Bound(ts);
    assert LayoutOps(cfg, Gray10, ts) == Gray10Ops(cfg, l);
    Gray10Keeps(cfg, l, g, s);
    assert l[3 * g + s] == Scale10(ClampToQuantum(ts[3 * g + s].luma));
  }

  /** Every scaled luma fits in ten bits. */
  lemma Lumas10Bound(ts: seq<Texel>)
    ensures forall i :: 0 <= i < |ts| ==> Lumas10(ts)[i] < 1024
  {
    forall i | 0 <= i < |ts| ensures Lumas10(ts)[i] < 1024 {
      Scale10Bound(ClampToQuantum(ts[i].luma));
    }
  }

  // ---------------------------------------------------------------------
  // Bit fields

  /** Field `j` of a byte of `w`-bit fields, counted from the top bits. */
  function ByteField(b: nat, w: nat, j: nat): nat
    requires w * (j + 1) <= 8
  {
    b / Pow2(8 - w * (j + 1)) % Pow2(w)
  }

  lemma MulDiv(x: nat, a: nat)
    requires a > 0
    ensures x * a / a == x
  {
    DivUnique(x * a, a, x, 0);
  }

  /** Field `j` of a concatenation, counted from the first. */
  lemma {:induction false} FieldsDigit(vs: seq<nat>, w: nat, j: nat)
    requires FitIn(vs, w) && j < |vs|
    ensures Fields(vs, w) / Pow2(w * (|vs| - 1 - j)) % Pow2(w) == vs[j]
    decreases |vs|
  {
    var init := vs[..|vs| - 1];
    var last := vs[|vs| - 1];
    assert Fields(vs, w) == Fields(init, w) * Pow2(w) + last;
    var n := |vs| - 1 - j;
    if n == 0 {
      assert w * n == 0 && Pow2(w * n) == 1;
      DivUnique(Fields(vs, w), Pow2(w), Fields(init, w), last);
    } else {
      DigitShift(Fields(vs, w), Fields(init, w), last, w, n);
      FieldsDigit(init, w, j);
      assert |init| - 1 - j == n - 1 && init[j] == vs[j];
    }
  }

  /** Dropping `n >= 1` digits of `w` bits from `f` followed by digit
    * `last` drops `n - 1` of `f`'s. */
  lemma DigitShift(x: nat, f: nat, last: nat, w: nat, n: nat)
    requires x == f * Pow2(w) + last && last < Pow2(w) && n >= 1
    ensures x / Pow2(w * n) == f / Pow2(w * (n - 1))
  {
    var e := w * (n - 1);
    assert w * n == w + e by {
      MulSplit(w, 1, n - 1, 1);
    }
    Pow2Add(w, e);
    DivStep(f, Pow2(w), last, Pow2(e));
  }

  /** Dropping the last `p`-digit, then `q` more. */
  lemma DivStep(f: nat, p: nat, last: nat, q: nat)
    requires last < p && q > 0
    ensures (f * p + last) / (p * q) == f / q
  {
    DivUnique(f * p + last, p, f, last);
    DivDiv(f * p + last, p, q);
  }

  /** Field `j` of the byte of fields `vs` is `vs[j]`. */
  lemma FieldByteDigit(vs: seq<nat>, w: nat, j: nat)
    requires FieldWidth(w) && |vs| <= PerByte(w) && FitIn(vs, w) && j < |vs|
    ensures w * (j + 1) <= 8
    ensures ByteField(FieldByte(vs, w), w, j) == vs[j]
  {
    assert w * |vs| <= 8 by {
      assert |vs| <= PerByte(w);
    }
    assert w * (j + 1) <= w * |vs| by {
      MulMono(j + 1, |vs|, w);
    }
    var s := 8 - w * |vs|;
    var e := w * (|vs| - 1 - j);
    assert 8 - w * (j + 1) == s + e;
    Pow2Add(s, e);
    DivDiv(Fields(vs, w) * Pow2(s), Pow2(s), Pow2(e));
    MulDiv(Fields(vs, w), Pow2(s));
    FieldsDigit(vs, w, j);
  }

  /** Dropping the first `d` bytes of a bit-packed row counted from field
    * `x` leaves the row counted from field `x + d k`, `k` fields to a
    * byte. */
  lemma {:induction false} FieldBytesDrop(vs: seq<nat>, w: nat, x: nat, d: nat, y: nat)
    requires FieldWidth(w) && FitIn(vs, w)
    requires y == x + d * PerByte(w) <= |vs|
    ensures d <= |FieldBytes(vs, x, w)|
    ensures FieldBytes(vs, x, w)[d..] == FieldBytes(vs, y, w)
    decreases d
  {
    if d > 0 {
      var per := PerByte(w);
      AddMul(d - 1, 1, per);
      var rest := FieldBytes(vs, x + per, w);
      assert FieldBytes(vs, x, w)[1..] == rest;
      FieldBytesDrop(vs, w, x + per, d - 1, y);
      assert FieldBytes(vs, x, w)[d..] == rest[d - 1..];
    }
  }

  /** Field `m` of the first byte of a bit-packed row counted from field
    * `at` is field `at + m`. */
  lemma FieldOfFirstByte(vs: seq<nat>, w: nat, at: nat, m: nat)
    requires FieldWidth(w) && FitIn(vs, w)
    requires m < PerByte(w) && at + m < |vs|
    ensures 1 <= |FieldBytes(vs, at, w)| && FieldBytes(vs, at, w)[0].Char?
    ensures w * (m + 1) <= 8
    ensures ByteField(FieldBytes(vs, at, w)[0].c, w, m) == vs[at + m]
  {
    var k := if |vs| - at < PerByte(w) then |vs| - at else PerByte(w);
    var chunk := vs[at..at + k];
    assert FieldBytes(vs, at, w)[0] == Char(FieldByte(chunk, w));
    FieldByteDigit(chunk, w, m);
    assert chunk[m] == vs[at + m];
  }

  /** Every field of a bit-packed row is in the output: counting from field
    * `x`, field `d k + m` is field `m` of byte `d`, `k` fields to a byte. */
  lemma FieldBytesKeep(vs: seq<nat>, w: nat, x: nat, d: nat, m: nat)
    requires FieldWidth(w) && FitIn(vs, w)
    requires m < PerByte(w) && x + d * PerByte(w) + m < |vs|
    ensures d < |FieldBytes(vs, x, w)| && FieldBytes(vs, x, w)[d].Char?
    ensures w * (m + 1) <= 8
    ensures ByteField(FieldBytes(vs, x, w)[d].c, w, m) == vs[x + d * PerByte(w) + m]
  {
    var at := x + d * PerByte(w);
    FieldBytesDrop(vs, w, x, d, at);
    FieldOfFirstByte(vs, w, at, m);
    assert FieldBytes(vs, x, w)[d] == FieldBytes(vs, at, w)[0];
  }

  /** Field `i` of a bit-packed row is field `i mod k` of byte `i / k`. */
  lemma FieldBytesKeepRow(vs: seq<nat>, w: nat, i: nat)
    requires FieldWidth(w) && FitIn(vs, w) && i < |vs|
    ensures i / PerByte(w) < |FieldBytes(vs, 0, w)| && FieldBytes(vs, 0, w)[i / PerByte(w)].Char?
    ensures w * (i % PerByte(w) + 1) <= 8
    ensures ByteField(FieldBytes(vs, 0, w)[i / PerByte(w)].c, w, i % PerByte(w)) == vs[i]
  {
    var per := PerByte(w);
    var d, m := i / per, i % per;
    assert i == d * per + m;
    FieldBytesKeep(vs, w, 0, d, m);
  }

  /** For the 1- and 4-bit routines: each pixel's field is in the output, in
    * byte `i / k`, slot `i mod k`. */
  lemma BitFieldsRowKeeps(cfg: QuantumConfig, kind: FieldKind, ts: seq<Texel>, i: nat)
    requires i < |ts|
    ensures i / PerByte(KindWidth(kind)) < |LayoutOps(cfg, BitFields(kind), ts)|
    ensures LayoutOps(cfg, BitFields(kind), ts)[i / PerByte(KindWidth(kind))].Char?
    ensures KindWidth(kind) * (i % PerByte(KindWidth(kind)) + 1) <= 8
    ensures ByteField(LayoutOps(cfg, BitFields(kind), ts)[i / PerByte(KindWidth(kind))].c,
                      KindWidth(kind), i % PerByte(KindWidth(kind))) == FieldOf(cfg, kind, ts[i])
  {
    FieldBytesKeepRow(FieldList(cfg, kind, ts), KindWidth(kind), i);
  }

  /** A row of `n` fields takes `n / k` bytes, rounded up. */
  lemma {:induction false} FieldBytesLength(vs: seq<nat>, w: nat, x: nat)
    requires FieldWidth(w) && FitIn(vs, w) && x <= |vs|
    ensures |FieldBytes(vs, x, w)| == (|vs| - x + PerByte(w) - 1) / PerByte(w)
    decreases |vs| - x
  {
    var per := PerByte(w);
    if x < |vs| {
      var k := if |vs| - x < per then |vs| - x else per;
      FieldBytesLength(vs, w, x + k);
      if k == per {
        DivUnique(|vs| - x + per - 1, per, (|vs| - x - 1) / per + 1, (|vs| - x - 1) % per);
      } else {
        DivUnique(|vs| - x + per - 1, per, 1, |vs| - x - 1);
      }
    }
  }

  // ---------------------------------------------------------------------
  // CbYCrY

  /** CbYCrY reads only the first pixel of each pair: rows that agree on
    * the even pixels give the same output. */
  lemma {:induction false} CbYCrYReadsEvenPixels(cfg: QuantumConfig, ts: seq<Texel>, us: seq<Texel>, x: nat, words: bool)
    requires |ts| == |us| && x % 2 == 0
    requires forall i :: 0 <= i < |ts| && i % 2 == 0 ==> ts[i].p == us[i].p
    ensures CbYCrYOps(cfg, ts, x, words) == CbYCrYOps(cfg, us, x, words)
    decreases |ts| - x
  {
    if x < |ts| {
      assert ts[x].p == us[x].p;
      var cbcr := Components(ts[x], 2 * x);
      assert cbcr == Components(us[x], 2 * x);
      assert (x + 2) % 2 == 0;
      CbYCrYReadsEvenPixels(cfg, ts, us, x + 2, words);
      var tail := CbYCrYOps(cfg, ts, x + 2, words);
      assert CbYCrYOps(cfg, ts, x, words) == CbYCrYPair(cfg, cbcr, words) + tail;
      assert CbYCrYOps(cfg, us, x, words) == CbYCrYPair(cfg, cbcr, words) + tail;
    }
  }

  // ---------------------------------------------------------------------
  // The 4-bit alpha

  /** The corrected 4-bit alpha runs from 0 (transparent) to 15 (opaque) and
    * never decreases as alpha grows. */
  lemma AlphaNibbleRange(a: Quantum, b: Quantum)
    requires a <= b
    ensures AlphaNibble(0) == 0 && AlphaNibble(QuantumRange) == 15
    ensures AlphaNibble(a) <= AlphaNibble(b)
    ensures b >= 63488 ==> AlphaNibble(b) == 15
  {
  }
}
