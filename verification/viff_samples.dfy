/**
 * The VIFF data section as the reader turns it into one byte per sample:
 * the in-place swap of multi-byte samples into host order (the host is
 * taken to be little-endian), the decoding of a sample, the scan for the
 * smallest and largest sample, the rescale of the range onto
 * [0, QuantumRange], and the in-place conversion of every sample to one
 * byte at the front of the same buffer.
 */
module ViffSamples {
  import opened Bits
  import opened QuantumTypes
  import opened ViffFormat

  /** The decoders of the floating-point storage types, which this model
    * does not define: `single` receives the four bytes of an IEEE single in
    * host order, `double` the eight bytes of a double as stored. */
  datatype RealCodec = RealCodec(single: seq<byte> -> real, double: seq<byte> -> real)

  /** The position whose byte lands at `i` when each `unit`-byte group of a
    * buffer is reversed. */
  function Mirror(i: nat, unit: nat): (j: nat)
    requires unit == 2 || unit == 4
    ensures j / unit == i / unit && j % unit == unit - 1 - i % unit
  {
    if unit == 2 then i - i % 2 + (1 - i % 2) else i - i % 4 + (3 - i % 4)
  }

  /** The buffer after its first `length` bytes are reversed group by group;
    * the rest is left alone. */
  function HostOrder(b: seq<byte>, unit: nat, length: nat): (r: seq<byte>)
    requires unit == 2 || unit == 4
    requires length % unit == 0 && length <= |b|
    ensures |r| == |b|
  {
    seq(|b|, i requires 0 <= i < |b| => if i < length then b[Mirror(i, unit)] else b[i])
  }

  /** A position inside the reversed part has its mirror inside it too,
    * and mirroring twice returns to it. */
  lemma MirrorInside(i: nat, unit: nat, length: nat)
    requires unit == 2 || unit == 4
    requires length % unit == 0 && i < length
    ensures Mirror(i, unit) < length && Mirror(Mirror(i, unit), unit) == i
  {
    var g := i - i % unit;
    assert g % unit == 0 && g < length;
    assert g + unit <= length;
  }

  /** Reversing the groups twice restores the buffer. */
  lemma HostOrderTwice(b: seq<byte>, unit: nat, length: nat)
    requires unit == 2 || unit == 4
    requires length % unit == 0 && length <= |b|
    ensures HostOrder(HostOrder(b, unit, length), unit, length) == b
  {
    var h := HostOrder(b, unit, length);
    var r := HostOrder(h, unit, length);
    forall i | 0 <= i < |b|
      ensures r[i] == b[i]
    {
      if i < length {
        MirrorInside(i, unit, length);
        assert r[i] == h[Mirror(i, unit)];
      }
    }
  }

  /** Position `p + k` of a group starting at `p` mirrors onto
    * `p + unit - 1 - k`. */
  lemma MirrorInGroup(p: nat, k: nat, unit: nat)
    requires unit == 2 || unit == 4
    requires p % unit == 0 && k < unit
    ensures Mirror(p + k, unit) == p + unit - 1 - k
  {
    DivUnique(p + k, unit, p / unit, k);
  }

  /** Reversing one more group extends the reversed part by that group. */
  lemma HostOrderStep(b: seq<byte>, unit: nat, p: nat)
    requires unit == 2 || unit == 4
    requires p % unit == 0 && p + unit <= |b|
    ensures HostOrder(b, unit, p + unit) ==
      if unit == 2 then HostOrder(b, 2, p)[p := b[p + 1]][p + 1 := b[p]]
      else HostOrder(b, 4, p)[p := b[p + 3]][p + 3 := b[p]][p + 1 := b[p + 2]][p + 2 := b[p + 1]]
  {
    MirrorInGroup(p, 0, unit);
    MirrorInGroup(p, 1, unit);
    if unit == 4 {
      MirrorInGroup(p, 2, unit);
      MirrorInGroup(p, 3, unit);
    }
  }

  /** `MSBOrderShort`: swaps the two bytes of each 16-bit sample in place. */
  method SwapShorts(buf: array<byte>, length: nat)
    requires length % 2 == 0 && length <= buf.Length
    modifies buf
    ensures buf[..] == HostOrder(old(buf[..]), 2, length)
  {
    ghost var b := buf[..];
    var p := 0;
    while p < length
      invariant 0 <= p <= length && p % 2 == 0
      invariant buf[..] == HostOrder(b, 2, p)
    {
      HostOrderStep(b, 2, p);
      var c := buf[p];
      buf[p] := buf[p + 1];
      buf[p + 1] := c;
      p := p + 2;
    }
  }

  /** `MSBOrderLong`: reverses the four bytes of each 32-bit sample in place. */
  method SwapLongs(buf: array<byte>, length: nat)
    requires length % 4 == 0 && length <= buf.Length
    modifies buf
    ensures buf[..] == HostOrder(old(buf[..]), 4, length)
  {
    ghost var b := buf[..];
    var p := 0;
    while p < length
      invariant 0 <= p <= length && p % 4 == 0
      invariant buf[..] == HostOrder(b, 4, p)
    {
      HostOrderStep(b, 4, p);
      var c := buf[p];
      buf[p] := buf[p + 3];
      buf[p + 3] := c;
      c := buf[p + 1];
      buf[p + 1] := buf[p + 2];
      buf[p + 2] := c;
      p := p + 4;
    }
  }

  /** A two's-complement 16-bit value. */
  function Signed16(v: uint16): (s: int)
    ensures -0x8000 <= s < 0x8000 && s % 0x1_0000 == v
  {
    if v < 0x8000 then v else v - 0x1_0000
  }

  /** Sample `i` of a buffer in host order: a signed 16- or 32-bit integer,
    * a float or a double, or the byte itself for the one-byte and bit
    * storage types. */
  function Decode(b: seq<byte>, storage: nat, codec: RealCodec, i: nat): real
    requires i < |b| / SampleBytes(storage)
  {
    if storage == Typ2Byte then Signed16(b[2 * i] as int + 256 * b[2 * i + 1] as int) as real
    else if storage == Typ4Byte then Signed32(Long32(b, 4 * i, true)) as real
    else if storage == TypFloat then codec.single(b[4 * i..4 * i + 4])
    else if storage == TypDouble then codec.double(b[8 * i..8 * i + 8])
    else b[i] as real
  }

  /** Every whole sample of a buffer. */
  function Samples(b: seq<byte>, storage: nat, codec: RealCodec): (s: seq<real>)
    ensures |s| == |b| / SampleBytes(storage)
  {
    seq(|b| / SampleBytes(storage), i requires 0 <= i < |b| / SampleBytes(storage) => Decode(b, storage, codec, i))
  }

  /** A sample depends only on bytes at or after its own index. */
  lemma DecodeFrame(a: seq<byte>, b: seq<byte>, storage: nat, codec: RealCodec, i: nat)
    requires |a| == |b| && i < |a| / SampleBytes(storage)
    requires forall k :: i <= k < |a| ==> a[k] == b[k]
    ensures Decode(a, storage, codec, i) == Decode(b, storage, codec, i)
  {
    if storage == TypFloat {
      assert a[4 * i..4 * i + 4] == b[4 * i..4 * i + 4];
    } else if storage == TypDouble {
      assert a[8 * i..8 * i + 8] == b[8 * i..8 * i + 8];
    }
  }

  /** Swapping a big-endian buffer into host order makes the host decoding
    * read each 16- or 32-bit sample most significant byte first. */
  lemma SwappedSamples(b: seq<byte>, storage: nat, codec: RealCodec, length: nat, i: nat)
    requires storage == Typ2Byte || storage == Typ4Byte
    requires length % SampleBytes(storage) == 0 && length <= |b|
    requires i < length / SampleBytes(storage)
    ensures var h := HostOrder(b, SampleBytes(storage), length);
      Decode(h, storage, codec, i) ==
        if storage == Typ2Byte then Signed16(256 * b[2 * i] as int + b[2 * i + 1] as int) as real
        else Signed32(Long32(b, 4 * i, false)) as real
  {
    GroupInside(i, SampleBytes(storage), length, |b|);
    if storage == Typ2Byte {
      SwappedShort(b, length, i);
    } else {
      SwappedLong(b, length, i);
    }
  }

  lemma SwappedShort(b: seq<byte>, length: nat, i: nat)
    requires length % 2 == 0 && length <= |b| && 2 * i + 2 <= length
    ensures var h := HostOrder(b, 2, length); h[2 * i] == b[2 * i + 1] && h[2 * i + 1] == b[2 * i]
  {
    assert Mirror(2 * i, 2) == 2 * i + 1 && Mirror(2 * i + 1, 2) == 2 * i;
  }

  lemma SwappedLong(b: seq<byte>, length: nat, i: nat)
    requires length % 4 == 0 && length <= |b| && 4 * i + 4 <= length
    ensures Long32(HostOrder(b, 4, length), 4 * i, true) == Long32(b, 4 * i, false)
  {
    var h := HostOrder(b, 4, length);
    assert Mirror(4 * i, 4) == 4 * i + 3 && Mirror(4 * i + 1, 4) == 4 * i + 2;
    assert Mirror(4 * i + 2, 4) == 4 * i + 1 && Mirror(4 * i + 3, 4) == 4 * i;
    assert h[4 * i] == b[4 * i + 3] && h[4 * i + 1] == b[4 * i + 2];
    assert h[4 * i + 2] == b[4 * i + 1] && h[4 * i + 3] == b[4 * i];
  }

  /** Group `i` of the first `length` bytes lies inside them, and inside
    * any buffer of `n >= length` bytes. */
  lemma GroupInside(i: nat, unit: nat, length: nat, n: nat)
    requires unit > 0 && i < length / unit && length <= n
    ensures unit * i + unit <= length && i < n / unit
  {
    MulMono(i + 1, length / unit, unit);
    AddMul(i, 1, unit);
    if n / unit <= i {
      MulMono(n / unit, i, unit);
    }
  }

  /** The smallest element. */
  function Least(s: seq<real>): real
    requires |s| >= 1
  {
    if |s| == 1 then s[0]
    else if s[|s| - 1] < Least(s[..|s| - 1]) then s[|s| - 1]
    else Least(s[..|s| - 1])
  }

  /** The largest element. */
  function Greatest(s: seq<real>): real
    requires |s| >= 1
  {
    if |s| == 1 then s[0]
    else if s[|s| - 1] > Greatest(s[..|s| - 1]) then s[|s| - 1]
    else Greatest(s[..|s| - 1])
  }

  /** `Least` and `Greatest` bound every element and are elements. */
  lemma {:induction false} RangeBounds(s: seq<real>)
    requires |s| >= 1
    ensures forall i :: 0 <= i < |s| ==> Least(s) <= s[i] <= Greatest(s)
    ensures Least(s) in s && Greatest(s) in s
  {
    if |s| > 1 {
      var t := s[..|s| - 1];
      RangeBounds(t);
      assert forall i :: 0 <= i < |t| ==> s[i] == t[i];
    }
  }

  /** The reader's scan of the first `n` samples: both bounds start at the
    * first sample; a sample above the maximum raises it, otherwise one
    * below the minimum lowers it. */
  method ScanRange(buf: array<byte>, storage: nat, codec: RealCodec, n: nat) returns (lo: real, hi: real)
    requires 1 <= n <= buf.Length / SampleBytes(storage)
    ensures lo == Least(Samples(buf[..], storage, codec)[..n])
    ensures hi == Greatest(Samples(buf[..], storage, codec)[..n])
  {
    ghost var s := Samples(buf[..], storage, codec);
    var value := Decode(buf[..], storage, codec, 0);
    lo, hi := value, value;
    var i := 0;
    while i < n
      invariant 0 <= i <= n
      invariant lo <= hi
      invariant lo == Least(s[..if i == 0 then 1 else i])
      invariant hi == Greatest(s[..if i == 0 then 1 else i])
    {
      value := Decode(buf[..], storage, codec, i);
      assert value == s[i];
      if i > 0 {
        assert s[..i + 1][..i] == s[..i];
      }
      if value > hi {
        hi := value;
      } else if value < lo {
        lo := value;
      }
      i := i + 1;
    }
  }

  /** The offset and factor that map the sample range onto [0, QuantumRange]. */
  datatype Scaling = Scaling(offset: real, factor: real)

  /** The identity scaling the reader keeps when it does not scan. */
  const Unscaled: Scaling := Scaling(0.0, 1.0)

  /** The scaling for a range: none at all when both ends are zero, a
    * constant range scaled from zero, otherwise the span. */
  function ScaleOf(lo: real, hi: real): Scaling
  {
    if lo == 0.0 && hi == 0.0 then Scaling(0.0, 0.0)
    else if lo == hi then Scaling(0.0, QuantumRange as real / lo)
    else Scaling(lo, QuantumRange as real / (hi - lo))
  }

  /** A real limited to [0, QuantumRange]. */
  function Clamp(w: real): (c: real)
    ensures 0.0 <= c <= QuantumRange as real
    ensures 0.0 <= w <= QuantumRange as real ==> c == w
  {
    if w > QuantumRange as real then QuantumRange as real else if w < 0.0 then 0.0 else w
  }

  /** A sample rescaled and clamped, in exact arithmetic; the build
    * computes the product in double precision, which can land just below
    * an integer the exact product reaches. */
  function Rescale(v: real, sc: Scaling): real
  {
    Clamp((v - sc.offset) * sc.factor)
  }

  /** A factor that spreads `d` over the quantum range. */
  lemma SpreadFactor(d: real)
    requires d > 0.0
    ensures QuantumRange as real / d > 0.0
    ensures d * (QuantumRange as real / d) == QuantumRange as real
  {
  }

  /** Within a proper range `lo < hi`, rescaling preserves order and maps
    * the least sample onto zero and the greatest onto QuantumRange. */
  lemma ScaledSpan(lo: real, hi: real, v: real, w: real)
    requires lo <= v <= w <= hi && lo < hi
    ensures var sc := ScaleOf(lo, hi);
      0.0 <= Rescale(v, sc) <= Rescale(w, sc) <= QuantumRange as real &&
      Rescale(lo, sc) == 0.0 && Rescale(hi, sc) == QuantumRange as real
  {
    var f := QuantumRange as real / (hi - lo);
    SpreadFactor(hi - lo);
    assert ScaleOf(lo, hi) == Scaling(lo, f);
    SpanOrder(v - lo, w - lo, hi - lo, f);
    SpanOrder(0.0, 0.0, hi - lo, f);
    SpanOrder(hi - lo, hi - lo, hi - lo, f);
  }

  /** Offsets `a <= b` within a span `d` that `f` stretches onto the
    * quantum range rescale, in order, to themselves times `f`. */
  lemma SpanOrder(a: real, b: real, d: real, f: real)
    requires 0.0 <= a <= b <= d && f >= 0.0 && d * f == QuantumRange as real
    ensures 0.0 <= a * f <= b * f <= QuantumRange as real
    ensures Clamp(a * f) == a * f && Clamp(b * f) == b * f
  {
    MulMonoReal(0.0, a, f);
    MulMonoReal(a, b, f);
    MulMonoReal(b, d, f);
  }

  /** A constant range: all zero stays zero, any other constant is taken
    * to QuantumRange. */
  lemma ScaledConstant(c: real)
    ensures Rescale(c, ScaleOf(c, c)) == if c == 0.0 then 0.0 else QuantumRange as real
  {
    if c != 0.0 {
      assert c * (QuantumRange as real / c) == QuantumRange as real;
    }
  }

  lemma MulMonoReal(a: real, b: real, f: real)
    requires a <= b && f >= 0.0
    ensures a * f <= b * f
  {
  }

  /** C's conversion of a real to an integer: truncation toward zero. */
  function Trunc(x: real): (t: int)
    ensures 0.0 <= x ==> t == x.Floor
    ensures x < 0.0 ==> t == -((-x).Floor)
  {
    if x >= 0.0 then x.Floor else -((-x).Floor)
  }

  /** `(unsigned char)` of a real, through the integer conversion; a value
    * outside the target's range keeps its low eight bits. */
  function ToUChar(x: real): (c: byte)
    ensures 0.0 <= x < 256.0 ==> c == x.Floor
  {
    Trunc(x) % 256
  }

  /** The byte the reader stores for a sample: under map scheme none the
    * sample is rescaled and clamped first. */
  function Convert(v: real, mapNone: bool, sc: Scaling): byte
  {
    ToUChar(if mapNone then Rescale(v, sc) else v)
  }

  /** The buffer after the first `n` samples are converted to bytes at the
    * front of it. */
  function ConvertedBuffer(b: seq<byte>, storage: nat, codec: RealCodec, n: nat, mapNone: bool, sc: Scaling): (r: seq<byte>)
    requires n <= |b| / SampleBytes(storage)
    ensures |r| == |b|
  {
    seq(|b|, k requires 0 <= k < |b| =>
      if k < n then Convert(Decode(b, storage, codec, k), mapNone, sc) else b[k])
  }

  /** One-byte and bit samples pass through the identity scaling unchanged. */
  lemma ConvertBytes(b: seq<byte>, storage: nat, codec: RealCodec, n: nat, mapNone: bool)
    requires storage == Typ1Byte || storage == TypBit
    requires n <= |b|
    ensures ConvertedBuffer(b, storage, codec, n, mapNone, Unscaled) == b
  {
    var r := ConvertedBuffer(b, storage, codec, n, mapNone, Unscaled);
    forall k | 0 <= k < n
      ensures r[k] == b[k]
    {
      var v := b[k] as real;
      assert Decode(b, storage, codec, k) == v;
      assert Rescale(v, Unscaled) == v;
    }
  }

  /** The in-place conversion: sample `i` is decoded, rescaled when the map
    * scheme is none, and stored as one byte at index `i`. Since sample `i`
    * starts at or after index `i`, no sample is overwritten before it is
    * read. */
  method ConvertSamples(buf: array<byte>, storage: nat, codec: RealCodec, n: nat, mapNone: bool, sc: Scaling)
    requires n <= buf.Length / SampleBytes(storage)
    modifies buf
    ensures buf[..] == ConvertedBuffer(old(buf[..]), storage, codec, n, mapNone, sc)
  {
    ghost var b0 := buf[..];
    var i := 0;
    while i < n
      invariant 0 <= i <= n
      invariant forall k :: 0 <= k < i ==> buf[k] == Convert(Decode(b0, storage, codec, k), mapNone, sc)
      invariant forall k :: i <= k < buf.Length ==> buf[k] == b0[k]
    {
      DecodeFrame(buf[..], b0, storage, codec, i);
      var value := Decode(buf[..], storage, codec, i);
      buf[i] := Convert(value, mapNone, sc);
      i := i + 1;
    }
  }
}
