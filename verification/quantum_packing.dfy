/**
 * What the two bit packers of the exporter write, stated independently of
 * their chunk loops.
 *
 * PopQuantumPixel treats the output buffer as one bit stream, most
 * significant bit of each byte first: a `depth`-bit write puts the value's
 * bits there most significant first, leaves every earlier bit alone and
 * leaves the unused rest of the current byte clear.
 *
 * PopQuantumLongPixel fills 32-bit words from their least significant end:
 * a `depth`-bit write adds the value above the bits already pending, and a
 * word that fills up is written out whole.
 */
module QuantumPacking {
  import opened Bits
  import opened QuantumTypes
  import opened QuantumStream

  /** Bit position of the cursor in the output stream. */
  function Pos(c: Cursor): nat
    requires 1 <= c.bits <= 8
  {
    8 * c.q + (8 - c.bits)
  }

  /** Bit `p` of the stream: byte `p / 8`, most significant bit first. */
  predicate StreamBit(buf: seq<byte>, p: nat)
    requires p / 8 < |buf|
  {
    Bit(buf[p / 8], 7 - p % 8)
  }

  /** The free low bits of a partly written byte are clear. */
  predicate Clean(c: Cursor)
    requires 1 <= c.bits <= 8
  {
    c.bits == 8 || (c.q < |c.buf| && forall j :: 0 <= j < c.bits ==> !Bit(c.buf[c.q], j))
  }

  /** The byte one chunk produces: `prior | chunk << left`, where `prior` has
    * no bit below `left + n` and `chunk` has `n` bits. */
  lemma ChunkByte(prior: nat, chunk: nat, n: nat, left: nat, j: nat)
    requires chunk < Pow2(n)
    ensures j < left ==> (Bit(Or(prior, Shl(chunk, left)), j) <==> Bit(prior, j))
    ensures left <= j < left + n ==> (Bit(Or(prior, Shl(chunk, left)), j) <==> Bit(prior, j) || Bit(chunk, j - left))
    ensures left + n <= j ==> (Bit(Or(prior, Shl(chunk, left)), j) <==> Bit(prior, j))
  {
    BitOr(prior, Shl(chunk, left), j);
    BitShl(chunk, left, j);
    if left + n <= j {
      HighBitsClear(chunk, n, j - left);
    }
  }

  /** The bits of the `n`-bit chunk that PopQuantumPixel cuts from `v` when
    * `rest` bits remain after it. */
  lemma ChunkOfValue(v: nat, rest: nat, n: nat, t: nat)
    requires t < n
    ensures Bit(Low(Shr(v, rest), n), t) <==> Bit(v, rest + t)
  {
    BitLow(Shr(v, rest), n, t);
    BitShr(v, rest, t);
  }

  /** The bits of the byte one pass of the chunk loop writes. */
  lemma ChunkByteBits(c: Cursor, v: nat, i: nat, j: nat)
    requires 1 <= c.bits <= 8 && i > 0 && j < 8
    requires c.q + PackNeed(c.bits, i) <= |c.buf|
    requires Clean(c)
    ensures c.q < |c.buf|
    ensures var b := ChunkWrite(c, v, i).buf[c.q];
      var n := ChunkSize(c.bits, i);
      && (j < c.bits - n ==> !Bit(b, j))
      && (c.bits - n <= j < c.bits ==> (Bit(b, j) <==> Bit(v, i - c.bits + j)))
      && (c.bits <= j ==> (Bit(b, j) <==> Bit(c.buf[c.q], j)))
  {
    var n := ChunkSize(c.bits, i);
    var left := c.bits - n;
    var prior := if c.bits == 8 then 0 else c.buf[c.q];
    var chunk := Low(Shr(v, i - n), n);
    LowBound(Shr(v, i - n), n);
    assert ChunkWrite(c, v, i).buf[c.q] == OrChunk(prior, v, i - n, n, left) == Or(prior, Shl(chunk, left));
    ChunkByte(prior, chunk, n, left, j);
    if c.bits == 8 {
      ZeroHasNoBits(j);
    }
    if left <= j < c.bits {
      ChunkOfValue(v, i - n, n, j - left);
    }
  }

  /** One pass of the chunk loop: the cursor moves `n` bits on, only the current
    * byte changes, and its free low bits stay clear. */
  lemma ChunkStepShape(c: Cursor, v: nat, i: nat)
    requires 1 <= c.bits <= 8 && i > 0
    requires c.q + PackNeed(c.bits, i) <= |c.buf|
    requires Clean(c)
    ensures var c1 := ChunkWrite(c, v, i);
      && c.q <= c1.q && c1.q + PackNeed(c1.bits, i - ChunkSize(c.bits, i)) <= c.q + PackNeed(c.bits, i)
      && Clean(c1) && Pos(c1) == Pos(c) + ChunkSize(c.bits, i)
      && forall j :: 0 <= j < |c.buf| && j != c.q ==> c1.buf[j] == c.buf[j]
  {
    var c1 := ChunkWrite(c, v, i);
    if c1.bits < 8 {
      forall j | 0 <= j < c1.bits
        ensures !Bit(c1.buf[c1.q], j)
      {
        ChunkByteBits(c, v, i, j);
      }
    }
  }

  /** One pass of the chunk loop, at stream bit `p`: an earlier bit is kept
    * and a bit of the chunk is the matching bit of `v`. */
  lemma ChunkStepBit(c: Cursor, v: nat, i: nat, p: nat)
    requires 1 <= c.bits <= 8 && i > 0
    requires c.q + PackNeed(c.bits, i) <= |c.buf|
    requires Clean(c)
    requires p < Pos(c) + ChunkSize(c.bits, i)
    requires p < Pos(c) ==> p / 8 < |c.buf|
    ensures p < Pos(c) ==> (StreamBit(ChunkWrite(c, v, i).buf, p) <==> StreamBit(c.buf, p))
    ensures Pos(c) <= p ==>
      p / 8 == c.q && c.q < |c.buf| && (StreamBit(ChunkWrite(c, v, i).buf, p) <==> Bit(v, Pos(c) + i - 1 - p))
  {
    ChunkByteBits(c, v, i, 0);
    if Pos(c) <= p || p / 8 == c.q {
      ChunkByteBits(c, v, i, 7 - p % 8);
    }
  }

  /** PopQuantumPixel's chunk loop moves the cursor `i` bits on, changes no
    * byte outside the ones it needs, and leaves the rest of the current byte
    * clear. */
  lemma {:induction false} PackChunksShape(c: Cursor, v: nat, i: nat)
    requires 1 <= c.bits <= 8
    requires c.q + PackNeed(c.bits, i) <= |c.buf|
    requires Clean(c)
    ensures Pos(PackChunks(c, v, i)) == Pos(c) + i
    ensures Clean(PackChunks(c, v, i))
    ensures forall j :: 0 <= j < |c.buf| && (j < c.q || c.q + PackNeed(c.bits, i) <= j) ==>
      PackChunks(c, v, i).buf[j] == c.buf[j]
    decreases i
  {
    if i > 0 {
      ChunkStepShape(c, v, i);
      PackChunksShape(ChunkWrite(c, v, i), v, i - ChunkSize(c.bits, i));
    }
  }

  /** PopQuantumPixel's chunk loop writes the `i` low bits of `v`, most
    * significant first, at the cursor's stream position and changes no
    * earlier bit. */
  lemma {:induction false} PackChunksStream(c: Cursor, v: nat, i: nat)
    requires 1 <= c.bits <= 8
    requires c.q + PackNeed(c.bits, i) <= |c.buf|
    requires Clean(c)
    ensures forall p: nat :: p < Pos(c) && p / 8 < |c.buf| ==>
      (StreamBit(PackChunks(c, v, i).buf, p) <==> StreamBit(c.buf, p))
    ensures forall p: nat :: Pos(c) <= p < Pos(c) + i ==>
      p / 8 < |c.buf| && (StreamBit(PackChunks(c, v, i).buf, p) <==> Bit(v, Pos(c) + i - 1 - p))
    decreases i
  {
    if i > 0 {
      var c1, n := ChunkWrite(c, v, i), ChunkSize(c.bits, i);
      ChunkStepShape(c, v, i);
      PackChunksStream(c1, v, i - n);
      var r := PackChunks(c1, v, i - n);
      assert r == PackChunks(c, v, i);
      assert Pos(c1) == Pos(c) + n && |c1.buf| == |c.buf|;
      forall p: nat | p < Pos(c) && p / 8 < |c.buf|
        ensures StreamBit(r.buf, p) <==> StreamBit(c.buf, p)
      {
        ChunkStepBit(c, v, i, p);
        assert StreamBit(r.buf, p) <==> StreamBit(c1.buf, p);
      }
      forall p: nat | Pos(c) <= p < Pos(c) + i
        ensures p / 8 < |c.buf|
        ensures StreamBit(r.buf, p) <==> Bit(v, Pos(c) + i - 1 - p)
      {
        if p < Pos(c1) {
          ChunkStepBit(c, v, i, p);
          assert StreamBit(r.buf, p) <==> StreamBit(c1.buf, p);
        } else {
          assert Pos(c1) <= p < Pos(c1) + (i - n);
          assert Pos(c1) + (i - n) - 1 - p == Pos(c) + i - 1 - p;
        }
      }
    }
  }

  /** One chunk of PopQuantumPixel's 32-bit variant lands above the pending bits
    * without disturbing them, and the word still fits in 32 bits. */
  lemma LongChunk(pixel: nat, chunk: nat, bits: nat, n: nat)
    requires 1 <= bits <= 32 && n <= bits
    requires pixel < Pow2(32 - bits) && chunk < Pow2(n)
    ensures Or(pixel, Shl(chunk, 32 - bits)) == pixel + chunk * Pow2(32 - bits)
    ensures pixel + chunk * Pow2(32 - bits) < 0x1_0000_0000
    ensures Or(pixel, Shl(chunk, 32 - bits)) % 0x1_0000_0000 == pixel + chunk * Pow2(32 - bits)
  {
    var w := pixel + chunk * Pow2(32 - bits);
    assert w < 0x1_0000_0000 by {
      StackBound(pixel, chunk, 32 - bits, n);
      Pow2Mono(32 - bits + n, 32);
      Pow2Constants();
    }
    assert Or(pixel, Shl(chunk, 32 - bits)) == w by {
      OrShlDisjoint(pixel, chunk, 32 - bits);
    }
    SmallMod(w, 0x1_0000_0000);
  }

  /** The word a pass builds is the pending bits plus the chunk above them. */
  lemma LongWordValue(pixel: nat, v: nat, skip: nat, n: nat, bits: nat)
    requires 1 <= bits <= 32 && n <= bits && pixel < Pow2(32 - bits)
    ensures LongWord(pixel, v, skip, n, bits) == pixel + Low(Shr(v, skip), n) * Pow2(32 - bits)
  {
    LowBound(Shr(v, skip), n);
    LongChunk(pixel, Low(Shr(v, skip), n), bits, n);
  }

  lemma SmallMod(x: nat, d: nat)
    requires x < d
    ensures x % d == x
  {
  }

  /** Regrouping the remaining bits: the chunk joins the pending word, the rest
    * sits `n` bits further up. */
  lemma Regroup(pixel: nat, chunk: nat, rest: nat, np: nat, pp: nat)
    ensures pixel + (chunk + rest * np) * pp == (pixel + chunk * pp) + rest * (np * pp)
  {
    MulDistrib(chunk, rest, np, pp);
  }

  /** The arithmetic of one pass: `x` (all remaining bits above the pending
    * ones) is the word the pass builds plus, when the word fills, the
    * remaining high bits one word further up. */
  lemma LongPassArith(pixel: nat, s: nat, bits: nat, i: nat)
    requires 1 <= bits <= 32 && i <= 31 && pixel < Pow2(32 - bits)
    ensures var n := if i < bits then i else bits;
      var p := Pow2(32 - bits);
      var x := pixel + Low(s, i) * p;
      var word := pixel + Low(s, n) * p;
      && word < 0x1_0000_0000
      && (i < bits ==> x == word)
      && (bits <= i ==> x % 0x1_0000_0000 == word && x / 0x1_0000_0000 == Low(Shr(s, n), i - n))
  {
    var n := if i < bits then i else bits;
    var p := Pow2(32 - bits);
    var chunk := Low(s, n);
    var rest := Low(Shr(s, n), i - n);
    var word := pixel + chunk * p;
    assert word < 0x1_0000_0000 by {
      LowBound(s, n);
      LongChunk(pixel, chunk, bits, n);
    }
    var x := pixel + Low(s, i) * p;
    assert x == word + rest * (Pow2(n) * p) by {
      LowSplit(s, n, i - n);
      Regroup(pixel, chunk, rest, Pow2(n), p);
    }
    if bits <= i {
      assert Pow2(n) * p == 0x1_0000_0000 by {
        Pow2Add(n, 32 - bits);
        Pow2Constants();
      }
      DivUnique(x, 0x1_0000_0000, rest, word);
    } else {
      assert rest == 0;
    }
  }

  /** While the remaining bits fit in the pending word, PopQuantumPixel's 32-bit
    * variant only adds them above the pending bits. */
  lemma PackLongPending(e: Endian, c: Cursor, v: nat, depth: nat, i: nat)
    requires 1 <= c.bits <= 32 && i <= depth <= 31 && i < c.bits
    requires c.pixel < Pow2(32 - c.bits)
    ensures PackLongChunks(e, c, v, depth, i)
      == c.(pixel := c.pixel + Low(Shr(v, depth - i), i) * Pow2(32 - c.bits), bits := c.bits - i)
  {
    if i > 0 {
      var s := Shr(v, depth - i);
      var word := c.pixel + Low(s, i) * Pow2(32 - c.bits);
      LongWordValue(c.pixel, v, depth - i, i, c.bits);
      assert LongPass(e, c, v, depth, i) == Cursor(c.buf, c.q, c.bits - i, word);
    }
  }

  /** When the remaining bits fill the pending word, the word is written in the
    * configured byte order and the bits left over start the next word. */
  lemma PackLongFill(e: Endian, c: Cursor, v: nat, depth: nat, i: nat)
    requires 1 <= c.bits <= i <= depth <= 31
    requires c.q + 4 <= |c.buf|
    ensures PackLongChunks(e, c, v, depth, i)
      == Cursor(Put(c.buf, c.q, LongBytes(e, LongWord(c.pixel, v, depth - i, c.bits, c.bits))),
                c.q + 4, 32 - (i - c.bits), Low(Shr(v, depth - i + c.bits), i - c.bits))
  {
    var n := c.bits;
    var c2 := LongPass(e, c, v, depth, i);
    LongPassFills(e, c, v, depth, i);
    assert PackLongChunks(e, c, v, depth, i) == PackLongChunks(e, c2, v, depth, i - n);
    var r2 := Low(Shr(v, depth - i + n), i - n);
    assert PackLongChunks(e, c2, v, depth, i - n) == c2.(pixel := r2, bits := 32 - (i - n)) by {
      assert depth - (i - n) == depth - i + n;
      PackLongPending(e, c2, v, depth, i - n);
      assert r2 * Pow2(0) == r2;
    }
  }

  /** A pass that fills the pending word writes it and starts an empty one. */
  lemma LongPassFills(e: Endian, c: Cursor, v: nat, depth: nat, i: nat)
    requires 1 <= c.bits <= i <= depth <= 31
    requires c.q + 4 <= |c.buf|
    ensures LongPass(e, c, v, depth, i)
      == Cursor(Put(c.buf, c.q, LongBytes(e, LongWord(c.pixel, v, depth - i, c.bits, c.bits))), c.q + 4, 32, 0)
  {
  }

  /** The pending bits and the `i` remaining bits of `v` make one number `x`;
    * a filled word is its low 32 bits and the new pending bits its high bits,
    * so no bit is lost or reordered across the word boundary. */
  lemma PackLongSplitsWord(pixel: nat, v: nat, depth: nat, bits: nat, i: nat)
    requires 1 <= bits <= i <= depth <= 31 && pixel < Pow2(32 - bits)
    ensures var x := pixel + Low(Shr(v, depth - i), i) * Pow2(32 - bits);
      && x % 0x1_0000_0000 == pixel + Low(Shr(v, depth - i), bits) * Pow2(32 - bits)
      && x / 0x1_0000_0000 == Low(Shr(v, depth - i + bits), i - bits)
  {
    LongPassArith(pixel, Shr(v, depth - i), bits, i);
    ShrShr(v, depth - i, bits);
  }
}
