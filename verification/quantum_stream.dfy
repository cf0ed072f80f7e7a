/**
 * The output side of the pixel exporter as values: an output cursor (the byte
 * buffer, the write position `q`, and the bit-packing state `bits`/`pixel`
 * that the configuration record carries between calls), the primitive writes
 * the exporter is built from, and what a sequence of writes does to a cursor.
 */
module QuantumStream {
  import opened Bits
  import opened QuantumTypes

  /** Buffer contents, write position, and the packing state
    * (`state.bits`, `state.pixel`). */
  datatype Cursor = Cursor(buf: seq<byte>, q: nat, bits: nat, pixel: nat)

  /** One primitive write:
    * `Char` is PopCharPixel, `Short` PopShortPixel, `Long` PopLongPixel,
    * `Pack` PopQuantumPixel (MSB-first bit packing into bytes),
    * `PackLong` PopQuantumLongPixel (LSB-first packing into 32-bit words),
    * `Pad` the `q += pad` that follows each pixel. */
  datatype Op = Char(c: byte) | Short(s: uint16) | Long(w: uint32) | Pack(v: nat) | PackLong(v: nat) | Pad(n: nat)

  /** Byte order of a 16-bit write. */
  function ShortBytes(e: Endian, s: uint16): (b: seq<byte>)
    ensures |b| == 2
  {
    if e == LSBEndian then [s % 256, s / 256] else [s / 256, s % 256]
  }

  /** Byte order of a 32-bit write. */
  function LongBytes(e: Endian, w: uint32): (b: seq<byte>)
    ensures |b| == 4
  {
    var b0, b1, b2, b3 := w % 256, (w / 256) % 256, (w / 0x1_0000) % 256, w / 0x100_0000;
    if e == LSBEndian then [b0, b1, b2, b3] else [b3, b2, b1, b0]
  }

  /** Reads back a 16-bit value written in byte order `e`. */
  function ReadShort(e: Endian, buf: seq<byte>, q: nat): uint16
    requires q + 2 <= |buf|
  {
    var b0: int, b1: int := buf[q], buf[q + 1];
    if e == LSBEndian then b0 + 256 * b1 else 256 * b0 + b1
  }

  /** Reads back a 32-bit value written in byte order `e`. */
  function ReadLong(e: Endian, buf: seq<byte>, q: nat): uint32
    requires q + 4 <= |buf|
  {
    var b0: int, b1: int, b2: int, b3: int := buf[q], buf[q + 1], buf[q + 2], buf[q + 3];
    if e == LSBEndian then b0 + 256 * (b1 + 256 * (b2 + 256 * b3))
    else b3 + 256 * (b2 + 256 * (b1 + 256 * b0))
  }

  /** Stores `bytes` at position `q`. */
  function Put(buf: seq<byte>, q: nat, bytes: seq<byte>): (r: seq<byte>)
    requires q + |bytes| <= |buf|
    ensures |r| == |buf|
    ensures forall j :: 0 <= j < |buf| ==> r[j] == if q <= j < q + |bytes| then bytes[j - q] else buf[j]
    decreases |bytes|
  {
    if bytes == [] then buf else Put(buf[q := bytes[0]], q + 1, bytes[1..])
  }

  /** PopShortPixel followed by a read at the same place returns the value written. */
  lemma ShortRoundTrip(e: Endian, buf: seq<byte>, q: nat, s: uint16)
    requires q + 2 <= |buf|
    ensures ReadShort(e, Put(buf, q, ShortBytes(e, s)), q) == s
  {
  }

  lemma LongDigits(w: uint32)
    ensures w % 256 + 256 * ((w / 256) % 256 + 256 * ((w / 0x1_0000) % 256 + 256 * (w / 0x100_0000))) == w
  {
    var a := w / 256;
    var b := a / 256;
    DivDiv(w, 256, 256);
    DivDiv(w, 0x1_0000, 256);
    assert b == w / 0x1_0000;
    assert b / 256 == w / 0x100_0000;
  }

  /** PopLongPixel followed by a read at the same place returns the value written. */
  lemma LongRoundTrip(e: Endian, buf: seq<byte>, q: nat, w: uint32)
    requires q + 4 <= |buf|
    ensures ReadLong(e, Put(buf, q, LongBytes(e, w)), q) == w
  {
    LongDigits(w);
  }

  // ---------------------------------------------------------------------
  // PopQuantumPixel

  /** Number of bytes from `q` that a `depth`-bit write touches when `bits`
    * bits are still free in the byte at `q`. */
  function PackNeed(bits: nat, depth: nat): nat
    requires 1 <= bits <= 8
  {
    if depth == 0 then 0 else (15 - bits + depth) / 8
  }

  /** Size of the next chunk of PopQuantumPixel: as many of the `i` remaining
    * bits as fit in the `bits` free bits of the current byte. */
  function ChunkSize(bits: nat, i: nat): nat
  {
    if i < bits then i else bits
  }

  /** `prior | (((v >> rest) & mask(n)) << left)`: the byte of one pass, with
    * the `n`-bit chunk placed just above the `left` bits still free. */
  function OrChunk(prior: byte, v: nat, rest: nat, n: nat, left: nat): (b: byte)
    requires n + left <= 8
  {
    var chunk := Low(Shr(v, rest), n);
    LowBound(Shr(v, rest), n);
    ShlBound(chunk, n, left);
    Pow2Mono(n + left, 8);
    OrBound(prior, Shl(chunk, left), 8);
    Or(prior, Shl(chunk, left))
  }

  /** One pass of PopQuantumPixel's chunk loop: a fresh byte (`bits == 8`) is
    * cleared, the chunk is ORed in below the bits already used, and a full
    * byte advances the cursor. */
  function ChunkWrite(c: Cursor, v: nat, i: nat): (r: Cursor)
    requires 1 <= c.bits <= 8 && i > 0
    requires c.q + PackNeed(c.bits, i) <= |c.buf|
    ensures |r.buf| == |c.buf| && 1 <= r.bits <= 8 && r.pixel == c.pixel
    ensures r.q + PackNeed(r.bits, i - ChunkSize(c.bits, i)) <= |r.buf|
  {
    var n := ChunkSize(c.bits, i);
    var left := c.bits - n;
    var prior := if c.bits == 8 then 0 else c.buf[c.q];
    var b := OrChunk(prior, v, i - n, n, left);
    if left == 0 then Cursor(c.buf[c.q := b], c.q + 1, 8, c.pixel)
    else Cursor(c.buf[c.q := b], c.q, left, c.pixel)
  }

  /** The chunk loop of PopQuantumPixel, from the state where `i` bits of `v`
    * remain to be written. */
  function PackChunks(c: Cursor, v: nat, i: nat): (r: Cursor)
    requires 1 <= c.bits <= 8
    requires c.q + PackNeed(c.bits, i) <= |c.buf|
    ensures |r.buf| == |c.buf| && 1 <= r.bits <= 8 && r.pixel == c.pixel
    decreases i
  {
    if i == 0 then c
    else PackChunks(ChunkWrite(c, v, i), v, i - ChunkSize(c.bits, i))
  }

  // ---------------------------------------------------------------------
  // PopQuantumLongPixel

  /** `(pixel | (((v >> skip) & mask(n)) << (32 - bits))) & 0xffffffff`: the
    * pending word after one pass of PopQuantumPixel's 32-bit variant. */
  function LongWord(pixel: nat, v: nat, skip: nat, n: nat, bits: nat): uint32
    requires bits <= 32
  {
    Or(pixel, Shl(Low(Shr(v, skip), n), 32 - bits)) % 0x1_0000_0000
  }

  /** Size of the next chunk of the 32-bit variant. */
  function LongChunkSize(bits: nat, i: nat): nat
  {
    if i < bits then i else bits
  }

  /** One pass of the 32-bit variant's chunk loop with `i` of the `depth` bits
    * of `v` left: the chunk joins the pending word; a full word is written
    * with PopLongPixel and a new one started. */
  function LongPass(e: Endian, c: Cursor, v: nat, depth: nat, i: nat): (r: Cursor)
    requires 1 <= c.bits <= 32 && 0 < i <= depth <= 31
    requires c.bits <= i ==> c.q + 4 <= |c.buf|
    ensures |r.buf| == |c.buf| && 1 <= r.bits <= 32
    ensures r.bits <= i - LongChunkSize(c.bits, i) ==> r.q + 4 <= |r.buf|
  {
    var n := LongChunkSize(c.bits, i);
    var word := LongWord(c.pixel, v, depth - i, n, c.bits);
    if c.bits - n == 0 then Cursor(Put(c.buf, c.q, LongBytes(e, word)), c.q + 4, 32, 0)
    else Cursor(c.buf, c.q, c.bits - n, word)
  }

  /** The chunk loop of PopQuantumPixel's 32-bit variant, from the state where
    * `i` of the `depth` bits of `v` remain. Chunks are taken from the least
    * significant end of `v` and ORed into `pixel` above the bits already
    * there. */
  function PackLongChunks(e: Endian, c: Cursor, v: nat, depth: nat, i: nat): (r: Cursor)
    requires 1 <= c.bits <= 32 && i <= depth && depth <= 31
    requires c.bits <= i ==> c.q + 4 <= |c.buf|
    ensures |r.buf| == |c.buf| && 1 <= r.bits <= 32
    decreases i
  {
    if i == 0 then c
    else PackLongChunks(e, LongPass(e, c, v, depth, i), v, depth, i - LongChunkSize(c.bits, i))
  }

  // ---------------------------------------------------------------------
  // Sequences of writes

  /** `state.bits == 0` after ResetQuantumState: PopQuantumPixel starts a fresh
    * byte, PopQuantumLongPixel a fresh word. */
  function Bits8(bits: nat): nat
  {
    if bits == 0 then 8 else bits
  }

  function Bits32(bits: nat): nat
  {
    if bits == 0 then 32 else bits
  }

  /** What a write needs of the cursor: room in the buffer, and the packing
    * state left by the same kind of packing. */
  predicate Fits(cfg: QuantumConfig, c: Cursor, op: Op)
  {
    match op
    case Char(_) => c.q + 1 <= |c.buf|
    case Short(_) => c.q + 2 <= |c.buf|
    case Long(_) => c.q + 4 <= |c.buf|
    case Pad(_) => true
    case Pack(_) => c.bits <= 8 && c.q + PackNeed(Bits8(c.bits), cfg.depth) <= |c.buf|
    case PackLong(_) =>
      c.bits <= 32 && cfg.depth <= 31 && (Bits32(c.bits) <= cfg.depth ==> c.q + 4 <= |c.buf|)
  }

  /** The effect of one write. */
  function Step(cfg: QuantumConfig, c: Cursor, op: Op): (r: Cursor)
    requires Fits(cfg, c, op)
    ensures |r.buf| == |c.buf|
  {
    match op
    case Char(b) => c.(buf := c.buf[c.q := b], q := c.q + 1)
    case Short(s) => c.(buf := Put(c.buf, c.q, ShortBytes(cfg.endian, s)), q := c.q + 2)
    case Long(w) => c.(buf := Put(c.buf, c.q, LongBytes(cfg.endian, w)), q := c.q + 4)
    case Pad(n) => c.(q := c.q + n)
    case Pack(v) => PackChunks(c.(bits := Bits8(c.bits)), v, cfg.depth)
    case PackLong(v) => PackLongChunks(cfg.endian, c.(bits := Bits32(c.bits)), v, cfg.depth, cfg.depth)
  }

  /** Whether every write of `ops`, in turn, fits. */
  predicate FitsAll(cfg: QuantumConfig, c: Cursor, ops: seq<Op>)
    decreases |ops|
  {
    ops == [] || (Fits(cfg, c, ops[0]) && FitsAll(cfg, Step(cfg, c, ops[0]), ops[1..]))
  }

  /** The effect of the writes `ops`, in order. */
  function Run(cfg: QuantumConfig, c: Cursor, ops: seq<Op>): (r: Cursor)
    requires FitsAll(cfg, c, ops)
    ensures |r.buf| == |c.buf|
    decreases |ops|
  {
    if ops == [] then c else Run(cfg, Step(cfg, c, ops[0]), ops[1..])
  }

  /** Writing `a` then `b` is writing `a + b`. */
  lemma {:induction false} RunAppend(cfg: QuantumConfig, c: Cursor, a: seq<Op>, b: seq<Op>)
    ensures FitsAll(cfg, c, a + b) <==> FitsAll(cfg, c, a) && FitsAll(cfg, Run(cfg, c, a), b)
    ensures FitsAll(cfg, c, a + b) ==> Run(cfg, c, a + b) == Run(cfg, Run(cfg, c, a), b)
    decreases |a|
  {
    if a != [] {
      assert (a + b)[0] == a[0];
      assert (a + b)[1..] == a[1..] + b;
      if Fits(cfg, c, a[0]) {
        RunAppend(cfg, Step(cfg, c, a[0]), a[1..], b);
      }
    } else {
      assert a + b == b;
    }
  }

  lemma RunOne(cfg: QuantumConfig, c: Cursor, op: Op)
    ensures FitsAll(cfg, c, [op]) <==> Fits(cfg, c, op)
    ensures Fits(cfg, c, op) ==> Run(cfg, c, [op]) == Step(cfg, c, op)
  {
    if Fits(cfg, c, op) {
      assert [op][1..] == [];
    }
  }

  lemma AppendAssoc(a: seq<Op>, b: seq<Op>, c: seq<Op>)
    ensures (a + b) + c == a + (b + c)
  {
  }
}
