/**
 * The exporter's mutable state: the output buffer, the write position, and the
 * packing state `bits`/`pixel` that PopQuantumPixel and
 * PopQuantumLongPixel carry from one call to the next. Every primitive write
 * is a method proved to do exactly what `Step` says.
 */
module QuantumPacker {
  import opened Bits
  import opened QuantumTypes
  import opened QuantumStream
  import opened QuantumPacking
  import opened QuantumLayouts

  class Packer {
    /** The export configuration (depth, pack, quantum, pad, endian, ...). */
    const cfg: QuantumConfig
    /** The caller's output buffer. */
    const pixels: array<byte>
    /** Write position in `pixels`. */
    var q: nat
    /** Free bits left in the current byte or word; 0 after a reset. */
    var bits: nat
    /** The pending 32-bit word of PopQuantumLongPixel. */
    var pixel: nat

    /** The state as a value. */
    function Cur(): Cursor
      reads this, pixels
    {
      Cursor(pixels[..], q, bits, pixel)
    }

    constructor (cfg: QuantumConfig, pixels: array<byte>)
      ensures this.cfg == cfg && this.pixels == pixels
      ensures q == 0 && bits == 0 && pixel == 0
    {
      this.cfg := cfg;
      this.pixels := pixels;
      q := 0;
      bits := 0;
      pixel := 0;
    }

    /** ResetQuantumState: the next packed write starts a fresh byte or word. */
    method ResetQuantumState()
      modifies this
      ensures Cur() == old(Cur()).(bits := 0, pixel := 0)
    {
      bits := 0;
      pixel := 0;
    }

    /** PopCharPixel */
    method PopChar(b: byte)
      requires Fits(cfg, Cur(), Char(b))
      modifies this, pixels
      ensures Cur() == Step(cfg, old(Cur()), Char(b))
    {
      pixels[q] := b;
      q := q + 1;
    }

    /** PopShortPixel: two bytes in the configured byte order. */
    method PopShort(s: uint16)
      requires Fits(cfg, Cur(), Short(s))
      modifies this, pixels
      ensures Cur() == Step(cfg, old(Cur()), Short(s))
    {
      var bytes := ShortBytes(cfg.endian, s);
      pixels[q] := bytes[0];
      pixels[q + 1] := bytes[1];
      assert pixels[..] == Put(old(pixels[..]), q, bytes);
      q := q + 2;
    }

    /** PopLongPixel: four bytes in the configured byte order. */
    method PopLong(w: uint32)
      requires Fits(cfg, Cur(), Long(w))
      modifies this, pixels
      ensures Cur() == Step(cfg, old(Cur()), Long(w))
    {
      var bytes := LongBytes(cfg.endian, w);
      pixels[q] := bytes[0];
      pixels[q + 1] := bytes[1];
      pixels[q + 2] := bytes[2];
      pixels[q + 3] := bytes[3];
      assert pixels[..] == Put(old(pixels[..]), q, bytes);
      q := q + 4;
    }

    /** The `q += quantum_info->pad` after each pixel. */
    method Skip(n: nat)
      modifies this
      ensures Cur() == Step(cfg, old(Cur()), Pad(n))
    {
      q := q + n;
    }

    /** PopQuantumPixel: the low `depth` bits of `v`, most significant first,
      * into the partially filled byte and the bytes after it. */
    method PopQuantum(v: nat)
      requires Fits(cfg, Cur(), Pack(v))
      modifies this, pixels
      ensures Cur() == Step(cfg, old(Cur()), Pack(v))
    {
      if bits == 0 {
        bits := 8;
      }
      var i: nat := cfg.depth;
      while i > 0
        invariant 1 <= bits <= 8
        invariant q + PackNeed(bits, i) <= pixels.Length
        invariant PackChunks(Cur(), v, i) == Step(cfg, old(Cur()), Pack(v))
        decreases i
      {
        i := PopChunk(v, i);
      }
    }

    /** One pass of PopQuantumPixel's loop, with `i` bits of `v` left: as many
      * of them as the current byte has room for, cleared first if fresh. */
    method PopChunk(v: nat, i: nat) returns (left: nat)
      requires 1 <= bits <= 8 && i > 0
      requires q + PackNeed(bits, i) <= pixels.Length
      modifies this, pixels
      ensures left == i - ChunkSize(old(bits), i) && left < i
      ensures Cur() == ChunkWrite(old(Cur()), v, i)
    {
      var n := if i < bits then i else bits;
      left := i - n;
      if bits == 8 {
        pixels[q] := 0;
      }
      bits := bits - n;
      pixels[q] := OrChunk(pixels[q], v, left, n, bits);
      if bits == 0 {
        q := q + 1;
        bits := 8;
      }
    }

    /** PopQuantumPixel's 32-bit variant: the `depth` bits of `v`, least
      * significant first, into the pending word above its used bits; a full
      * word is written with PopLongPixel and a new one started. */
    method PopQuantumLong(v: nat)
      requires Fits(cfg, Cur(), PackLong(v))
      modifies this, pixels
      ensures Cur() == Step(cfg, old(Cur()), PackLong(v))
    {
      if bits == 0 {
        bits := 32;
      }
      var i: nat := cfg.depth;
      while i > 0
        invariant 1 <= bits <= 32 && i <= cfg.depth <= 31
        invariant bits <= i ==> q + 4 <= pixels.Length
        invariant PackLongChunks(cfg.endian, Cur(), v, cfg.depth, i) == Step(cfg, old(Cur()), PackLong(v))
        decreases i
      {
        i := PopLongPass(v, i);
      }
    }

    /** One pass of the 32-bit variant's loop, with `i` bits of `v` left. */
    method PopLongPass(v: nat, i: nat) returns (left: nat)
      requires 1 <= bits <= 32 && 0 < i <= cfg.depth <= 31
      requires bits <= i ==> q + 4 <= pixels.Length
      modifies this, pixels
      ensures left == i - LongChunkSize(old(bits), i) && left < i
      ensures Cur() == LongPass(cfg.endian, old(Cur()), v, cfg.depth, i)
    {
      var n := if i < bits then i else bits;
      pixel := LongWord(pixel, v, cfg.depth - i, n, bits);
      left := i - n;
      bits := bits - n;
      if bits == 0 {
        PopLong(pixel);
        pixel := 0;
        bits := 32;
      }
    }

    /** One primitive write. */
    method Emit(op: Op)
      requires Fits(cfg, Cur(), op)
      modifies this, pixels
      ensures Cur() == Step(cfg, old(Cur()), op)
    {
      match op
      case Char(b) => PopChar(b);
      case Short(s) => PopShort(s);
      case Long(w) => PopLong(w);
      case Pad(n) => Skip(n);
      case Pack(v) => PopQuantum(v);
      case PackLong(v) => PopQuantumLong(v);
    }

    /** The writes `ops`, in order, ahead of the writes `rest`. */
    method EmitAll(ops: seq<Op>, ghost rest: seq<Op>)
      requires FitsAll(cfg, Cur(), ops + rest)
      modifies this, pixels
      ensures FitsAll(cfg, Cur(), rest)
      ensures Run(cfg, Cur(), rest) == Run(cfg, old(Cur()), ops + rest)
    {
      RunAppend(cfg, Cur(), ops, rest);
      for j := 0 to |ops|
        invariant FitsAll(cfg, Cur(), ops[j..])
        invariant Run(cfg, Cur(), ops[j..]) == Run(cfg, old(Cur()), ops)
      {
        assert ops[j..][0] == ops[j] && ops[j..][1..] == ops[j + 1..];
        Emit(ops[j]);
      }
      assert ops[|ops|..] == [];
    }

    /** A row written pixel by pixel alike: the per-pixel writes of `l`, pixel
      * after pixel. */
    method ExportRow(l: PixelLayout, ts: seq<Texel>)
      requires FitsAll(cfg, Cur(), RowOps(cfg, l, ts))
      modifies this, pixels
      ensures Cur() == Run(cfg, old(Cur()), RowOps(cfg, l, ts))
    {
      for x := 0 to |ts|
        invariant FitsAll(cfg, Cur(), RowOps(cfg, l, ts[x..]))
        invariant Run(cfg, Cur(), RowOps(cfg, l, ts[x..])) == Run(cfg, old(Cur()), RowOps(cfg, l, ts))
      {
        assert ts[x..][0] == ts[x] && ts[x..][1..] == ts[x + 1..];
        EmitAll(PixelOps(cfg, l, ts[x]), RowOps(cfg, l, ts[x + 1..]));
      }
      assert ts[|ts|..] == [];
    }

    /** The 10-bit unpacked layout of the four-channel routines: a running
      * sample count `n` picks the slot of each sample, and the word is written
      * and cleared when its last slot is filled. */
    method ExportRotation10(chans: seq<Channel>, ts: seq<Texel>)
      requires FitsAll(cfg, Cur(), RotOps(cfg, chans, ts, 0, 0, 0))
      modifies this, pixels
      ensures Cur() == Run(cfg, old(Cur()), RotOps(cfg, chans, ts, 0, 0, 0))
    {
      ghost var goal := Run(cfg, old(Cur()), RotOps(cfg, chans, ts, 0, 0, 0));
      var n: nat := 0;
      var word: uint32 := 0;
      for x := 0 to |ts|
        invariant FitsAll(cfg, Cur(), RotOps(cfg, chans, ts, x, n % 3, word))
        invariant Run(cfg, Cur(), RotOps(cfg, chans, ts, x, n % 3, word)) == goal
      {
        var s := Scaled10(ts[x], chans);
        ghost var end := RotSamples(s, n % 3, word);
        ghost var after := RotOps(cfg, chans, ts, x + 1, end.1, end.2);
        n, word := RotatePixel(s, n, word, [Pad(cfg.pad)] + after);
        EmitAll([Pad(cfg.pad)], after);
      }
    }

    /** The samples of one pixel in the 10-bit rotation: each is ORed into its
      * slot of `word`; the word is written when its last slot is filled. */
    method RotatePixel(s: seq<nat>, n0: nat, word0: uint32, ghost after: seq<Op>) returns (n: nat, word: uint32)
      requires FitsAll(cfg, Cur(), RotSamples(s, n0 % 3, word0).0 + after)
      modifies this, pixels
      ensures n == n0 + |s|
      ensures n % 3 == RotSamples(s, n0 % 3, word0).1 && word == RotSamples(s, n0 % 3, word0).2
      ensures FitsAll(cfg, Cur(), after)
      ensures Run(cfg, Cur(), after) == Run(cfg, old(Cur()), RotSamples(s, n0 % 3, word0).0 + after)
    {
      n, word := n0, word0;
      ghost var end := RotSamples(s, n0 % 3, word0);
      ghost var tail := end;
      for i := 0 to |s|
        invariant n == n0 + i
        invariant tail == RotSamples(s[i..], n % 3, word)
        invariant tail.1 == end.1 && tail.2 == end.2
        invariant FitsAll(cfg, Cur(), tail.0 + after)
        invariant Run(cfg, Cur(), tail.0 + after) == Run(cfg, old(Cur()), end.0 + after)
      {
        ghost var st := SampleStep(s[i], n % 3, word);
        ghost var rest := RotSamples(s[i + 1..], st.1, st.2);
        RotSamplesStep(s, i, n % 3, word);
        AppendAssoc(st.0, rest.0, after);
        word := RotateSample(s[i], n, word, rest.0 + after);
        Mod3Next(n);
        n := n + 1;
        assert n % 3 == st.1 && word == st.2;
        tail := rest;
      }
      assert s[|s|..] == [] && [] + after == after;
    }

    /** `pixel |= v << shift[n % 3]`, and the word written and cleared when
      * that was its last slot. */
    method RotateSample(v: nat, n: nat, word: uint32, ghost rest: seq<Op>) returns (next: uint32)
      requires FitsAll(cfg, Cur(), SampleStep(v, n % 3, word).0 + rest)
      modifies this, pixels
      ensures next == SampleStep(v, n % 3, word).2
      ensures FitsAll(cfg, Cur(), rest)
      ensures Run(cfg, Cur(), rest) == Run(cfg, old(Cur()), SampleStep(v, n % 3, word).0 + rest)
    {
      next := SlotIn(word, v, n % 3);
      if n % 3 == 2 {
        EmitAll([Long(next)], rest);
        next := 0;
      } else {
        assert [] + rest == rest;
      }
    }

    /** The writes of a routine's layout for row `ts`. */
    method ExportLayout(layout: Layout, ts: seq<Texel>)
      requires FitsAll(cfg, Cur(), LayoutOps(cfg, layout, ts))
      modifies this, pixels
      ensures Cur() == Run(cfg, old(Cur()), LayoutOps(cfg, layout, ts))
    {
      match layout
      case EachPixel(l) => ExportRow(l, ts);
      case Rotation10(chans) => ExportRotation10(chans, ts);
      case Pairs12(a, b, c) =>
        forall k | 0 <= k < 3 * |ts| ensures Flat12(ts, a, b, c)[k] < 4096 {
          var ch := if k % 3 == 0 then a else if k % 3 == 1 then b else c;
          Scale12Bound(Sample(ts[k / 3], ch));
        }
        ExportPairs12(Flat12(ts, a, b, c));
      case Gray10 => ExportGray10(Lumas10(ts));
      case CbYCrY(words) => ExportCbYCrY(ts, words);
      case BitFields(k) => ExportFields(FieldList(cfg, k, ts), KindWidth(k));
      case NoOutput =>
    }

    /** The 12-bit unpacked layout: samples two at a time, each in the high
      * bits of a short, then the pad; an odd last sample alone, then the pad. */
    method ExportPairs12(s: seq<nat>)
      requires forall k :: 0 <= k < |s| ==> s[k] < 4096
      requires FitsAll(cfg, Cur(), Pairs12Ops(cfg, s))
      modifies this, pixels
      ensures Cur() == Run(cfg, old(Cur()), Pairs12Ops(cfg, s))
    {
      ghost var goal := Run(cfg, Cur(), Pairs12Ops(cfg, s));
      var x := 0;
      while x + 1 < |s|
        invariant x <= |s|
        invariant FitsAll(cfg, Cur(), Pairs12Ops(cfg, s[x..]))
        invariant Run(cfg, Cur(), Pairs12Ops(cfg, s[x..])) == goal
      {
        assert s[x..][2..] == s[x + 2..];
        EmitAll([Short(s[x] * 16), Short(s[x + 1] * 16), Pad(cfg.pad)], Pairs12Ops(cfg, s[x + 2..]));
        x := x + 2;
      }
      if x < |s| {
        assert Pairs12Ops(cfg, s[x..]) == [Short(s[x] * 16), Pad(cfg.pad)] + [];
        EmitAll([Short(s[x] * 16), Pad(cfg.pad)], []);
      }
    }

    /** The 10-bit unpacked gray layout: three lumas to a word, the first in
      * the lowest slot, then the pad; one or two lumas left over share a last
      * word without pad. */
    method ExportGray10(l: seq<nat>)
      requires FitsAll(cfg, Cur(), Gray10Ops(cfg, l))
      modifies this, pixels
      ensures Cur() == Run(cfg, old(Cur()), Gray10Ops(cfg, l))
    {
      ghost var goal := Run(cfg, Cur(), Gray10Ops(cfg, l));
      var x := 0;
      while x + 2 < |l|
        invariant x <= |l|
        invariant FitsAll(cfg, Cur(), Gray10Ops(cfg, l[x..]))
        invariant Run(cfg, Cur(), Gray10Ops(cfg, l[x..])) == goal
      {
        assert l[x..][3..] == l[x + 3..];
        EmitAll([Long(SlotWord(l[x + 2], l[x + 1], l[x])), Pad(cfg.pad)], Gray10Ops(cfg, l[x + 3..]));
        x := x + 3;
      }
      if x < |l| {
        var word := SlotWord(0, if x + 1 < |l| then l[x + 1] else 0, l[x]);
        assert Gray10Ops(cfg, l[x..]) == [Long(word)] + [];
        EmitAll([Long(word)], []);
      }
    }

    /** CbYCrY: for each pair of pixels, four components taken in rotation
      * from the first pixel of the pair, then its two words or six samples and
      * the pad. */
    method ExportCbYCrY(ts: seq<Texel>, words: bool)
      requires FitsAll(cfg, Cur(), CbYCrYOps(cfg, ts, 0, words))
      modifies this, pixels
      ensures Cur() == Run(cfg, old(Cur()), CbYCrYOps(cfg, ts, 0, words))
    {
      ghost var goal := Run(cfg, Cur(), CbYCrYOps(cfg, ts, 0, words));
      var n := 0;
      var x := 0;
      while x < |ts|
        invariant n == 2 * x
        invariant FitsAll(cfg, Cur(), CbYCrYOps(cfg, ts, x, words))
        invariant Run(cfg, Cur(), CbYCrYOps(cfg, ts, x, words)) == goal
        decreases |ts| - x
      {
        var cbcr;
        cbcr, n := PairComponents(ts[x], n);
        EmitAll(CbYCrYPair(cfg, cbcr, words), CbYCrYOps(cfg, ts, x + 2, words));
        x := x + 2;
      }
    }

    /** Bit-packed fields of `w` bits, `PerByte(w)` to a byte: whole bytes first,
      * then the fields left over in a last byte whose unused bits are zero. */
    method ExportFields(vs: seq<nat>, w: nat)
      requires FieldWidth(w) && FitIn(vs, w)
      requires FitsAll(cfg, Cur(), FieldBytes(vs, 0, w))
      modifies this, pixels
      ensures Cur() == Run(cfg, old(Cur()), FieldBytes(vs, 0, w))
    {
      ghost var goal := Run(cfg, Cur(), FieldBytes(vs, 0, w));
      var per := PerByte(w);
      var x := 0;
      while x + per <= |vs|
        invariant x <= |vs|
        invariant FitsAll(cfg, Cur(), FieldBytes(vs, x, w))
        invariant Run(cfg, Cur(), FieldBytes(vs, x, w)) == goal
      {
        x := EmitFieldByte(vs, w, x, x + per);
      }
      if x < |vs| {
        x := EmitFieldByte(vs, w, x, |vs|);
      }
    }

    /** The byte of fields `x` to `next`, the first chunk of the rest of
      * the row. */
    method EmitFieldByte(vs: seq<nat>, w: nat, x: nat, next: nat) returns (after: nat)
      requires FieldWidth(w) && FitIn(vs, w) && x < next <= |vs|
      requires next == if |vs| - x < PerByte(w) then |vs| else x + PerByte(w)
      requires FitsAll(cfg, Cur(), FieldBytes(vs, x, w))
      modifies this, pixels
      ensures after == next
      ensures FitsAll(cfg, Cur(), FieldBytes(vs, next, w))
      ensures Run(cfg, Cur(), FieldBytes(vs, next, w)) == Run(cfg, old(Cur()), FieldBytes(vs, x, w))
    {
      FitInSlice(vs, w, x, next);
      var b := PackFieldByte(vs[x..next], w);
      EmitAll([Char(b)], FieldBytes(vs, next, w));
      after := next;
    }
  }

  /** The four components `cbcr` of a CbYCrY pixel pair, taken in rotation
    * from pixel `t` starting with component `n0`; `n` counts on. */
  method PairComponents(t: Texel, n0: nat) returns (cbcr: seq<Quantum>, n: nat)
    ensures cbcr == Components(t, n0) && n == n0 + 4
  {
    cbcr := [];
    n := n0;
    for i := 0 to 4
      invariant n == n0 + i && cbcr == Components(t, n0)[..i]
    {
      cbcr := cbcr + [Component(t, n)];
      n := n + 1;
    }
  }

  /** The byte holding fields `vs`: each ORed in below the ones before it,
    * starting at the most significant bits. */
  method PackFieldByte(vs: seq<nat>, w: nat) returns (b: byte)
    requires FieldWidth(w) && |vs| <= PerByte(w) && FitIn(vs, w)
    ensures b == FieldByte(vs, w)
  {
    b := 0;
    var shift := 8;
    for j := 0 to |vs|
      invariant shift + w * j == 8
      invariant b == Shl(Fields(vs[..j], w), shift)
    {
      assert w * (j + 1) == w * j + w;
      FieldByteStep(vs, j, w, shift);
      shift := shift - w;
      b := Or(b, Shl(vs[j], shift));
    }
    assert vs[..|vs|] == vs;
  }
}
