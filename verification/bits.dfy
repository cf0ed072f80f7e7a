/**
 * Unsigned integer bit manipulation on unbounded naturals: the C operators
 * `<<`, `>>`, `& mask` and `|` that the pixel packers and the raster coder use,
 * written so that each operand width is explicit, together with the facts about
 * single bits that the packing proofs rest on.
 */
module Bits {

  /** One byte of a C `unsigned char` buffer. */
  type byte = x: int | 0 <= x < 256

  /** An `unsigned short`. */
  type uint16 = x: int | 0 <= x < 0x1_0000

  /** An `unsigned int` (32 bits). */
  type uint32 = x: int | 0 <= x < 0x1_0000_0000

  function Pow2(n: nat): (r: nat)
    ensures r >= 1
  {
    if n == 0 then 1 else 2 * Pow2(n - 1)
  }

  /** `x >> n` */
  function Shr(x: nat, n: nat): nat
  {
    if n == 0 then x else Shr(x / 2, n - 1)
  }

  /** `x & ((1 << n) - 1)`: the low `n` bits of `x`. */
  function Low(x: nat, n: nat): nat
  {
    if n == 0 then 0 else 2 * Low(x / 2, n - 1) + x % 2
  }

  /** `x << n` */
  function Shl(x: nat, n: nat): nat
  {
    x * Pow2(n)
  }

  /** Bit `j` of `x` (bit 0 is the least significant). */
  predicate Bit(x: nat, j: nat)
  {
    if j == 0 then x % 2 == 1 else Bit(x / 2, j - 1)
  }

  /** `a | b` */
  function Or(a: nat, b: nat): nat
    decreases a + b
  {
    if a == 0 then b
    else if b == 0 then a
    else 2 * Or(a / 2, b / 2) + (if a % 2 == 1 || b % 2 == 1 then 1 else 0)
  }

  /** Bit `j` of `a | b` is set exactly when it is set in `a` or in `b`. */
  lemma {:induction false} BitOr(a: nat, b: nat, j: nat)
    ensures Bit(Or(a, b), j) <==> Bit(a, j) || Bit(b, j)
    decreases a + b
  {
    if a == 0 {
      ZeroHasNoBits(j);
    } else if b == 0 {
      ZeroHasNoBits(j);
    } else if j > 0 {
      var r := Or(a / 2, b / 2);
      var bit := if a % 2 == 1 || b % 2 == 1 then 1 else 0;
      assert Or(a, b) == 2 * r + bit;
      assert Or(a, b) / 2 == r;
      BitOr(a / 2, b / 2, j - 1);
    }
  }

  lemma {:induction false} ZeroHasNoBits(j: nat)
    ensures !Bit(0, j)
  {
    if j > 0 {
      ZeroHasNoBits(j - 1);
    }
  }

  /** Shifting left by `s` moves bit `j - s` to bit `j` and clears bits below `s`. */
  lemma {:induction false} BitShl(x: nat, s: nat, j: nat)
    ensures Bit(Shl(x, s), j) <==> j >= s && Bit(x, j - s)
  {
    if s > 0 {
      var y := Shl(x, s - 1);
      assert Shl(x, s) == 2 * y;
      if j > 0 {
        assert (2 * y) / 2 == y;
        BitShl(x, s - 1, j - 1);
      }
    }
  }

  /** Shifting right by `n` moves bit `n + j` to bit `j`. */
  lemma {:induction false} BitShr(x: nat, n: nat, j: nat)
    ensures Bit(Shr(x, n), j) <==> Bit(x, n + j)
  {
    if n > 0 {
      BitShr(x / 2, n - 1, j);
      BitDiv2(x, n - 1 + j);
    }
  }

  lemma BitDiv2(x: nat, j: nat)
    ensures Bit(x / 2, j) <==> Bit(x, j + 1)
  {
  }

  /** Masking keeps bits below `n` and clears the others. */
  lemma {:induction false} BitLow(x: nat, n: nat, j: nat)
    ensures Bit(Low(x, n), j) <==> j < n && Bit(x, j)
  {
    if n == 0 {
      ZeroHasNoBits(j);
    } else {
      var y := Low(x / 2, n - 1);
      assert Low(x, n) == 2 * y + x % 2;
      if j > 0 {
        assert Low(x, n) / 2 == y;
        BitLow(x / 2, n - 1, j - 1);
      }
    }
  }

  lemma {:induction false} LowBound(x: nat, n: nat)
    ensures Low(x, n) < Pow2(n)
  {
    if n > 0 {
      LowBound(x / 2, n - 1);
    }
  }

  lemma {:induction false} LowOfSmall(x: nat, n: nat)
    requires x < Pow2(n)
    ensures Low(x, n) == x
  {
    if n > 0 {
      LowOfSmall(x / 2, n - 1);
    }
  }

  lemma {:induction false} ShrIsDiv(x: nat, n: nat)
    ensures Shr(x, n) == x / Pow2(n)
  {
    if n > 0 {
      ShrIsDiv(x / 2, n - 1);
      DivDiv(x, 2, Pow2(n - 1));
    }
  }

  lemma {:induction false} MulAtLeast(d: nat, k: nat)
    requires k >= 1
    ensures d * k >= d
  {
    if k > 1 {
      MulAtLeast(d, k - 1);
      assert d * k == d * (k - 1) + d;
    }
  }

  lemma MulAwayFromZero(d: int, k: int)
    requires d > 0
    ensures k == 0 || d * k >= d || d * k <= -d
  {
    if k > 0 {
      MulAtLeast(d, k);
    } else if k < 0 {
      MulAtLeast(d, -k);
      assert d * k == -(d * -k);
    }
  }

  lemma DivUnique(x: nat, d: nat, q: nat, r: nat)
    requires d > 0 && x == d * q + r && r < d
    ensures x / d == q && x % d == r
  {
    var q', r' := x / d, x % d;
    assert d * (q - q') == r' - r;
    MulAwayFromZero(d, q - q');
  }

  /** The slot counter of a three-slot word advances cyclically. */
  lemma Mod3Next(n: nat)
    ensures (n + 1) % 3 == if n % 3 == 2 then 0 else n % 3 + 1
  {
    DivUnique(n + 1, 3, if n % 3 == 2 then n / 3 + 1 else n / 3, if n % 3 == 2 then 0 else n % 3 + 1);
  }

  lemma MulSplit(a: nat, b: nat, q: nat, r: nat)
    ensures a * (b * q + r) == (a * b) * q + a * r
  {
  }

  lemma MulBelow(a: nat, b: nat, r: nat)
    requires r < b
    ensures a * r + a <= a * b
  {
    assert a * b - a * r == a * (b - r);
    if a > 0 {
      MulAwayFromZero(a, b - r);
    }
  }

  lemma DivDiv(x: nat, a: nat, b: nat)
    requires a > 0 && b > 0
    ensures x / a / b == x / (a * b)
  {
    var q1, r1 := x / a, x % a;
    var q2, r2 := q1 / b, q1 % b;
    MulSplit(a, b, q2, r2);
    MulBelow(a, b, r2);
    DivUnique(x, a * b, q2, a * r2 + r1);
  }

  lemma {:induction false} LowIsMod(x: nat, n: nat)
    ensures Low(x, n) == x % Pow2(n)
  {
    if n > 0 {
      var p := Pow2(n - 1);
      var y := x / 2;
      var q, r := y / p, y % p;
      assert Low(x, n) == 2 * r + x % 2 by {
        LowIsMod(x / 2, n - 1);
      }
      assert x == (2 * p) * q + (2 * r + x % 2) by {
        assert y == p * q + r;
        MulSplit(2, p, q, r);
      }
      DivUnique(x, 2 * p, q, 2 * r + x % 2);
    }
  }

  lemma {:induction false} Pow2Add(a: nat, b: nat)
    ensures Pow2(a + b) == Pow2(a) * Pow2(b)
  {
    if a > 0 {
      Pow2Add(a - 1, b);
    }
  }

  lemma {:induction false} Pow2Mono(a: nat, b: nat)
    requires a <= b
    ensures Pow2(a) <= Pow2(b)
  {
    if a < b {
      Pow2Mono(a, b - 1);
    }
  }

  /** A value below `2^n` has no bit at or above `n`. */
  lemma {:induction false} HighBitsClear(x: nat, n: nat, j: nat)
    requires x < Pow2(n) && j >= n
    ensures !Bit(x, j)
  {
    if n == 0 {
      assert x == 0;
      ZeroHasNoBits(j);
    } else {
      HighBitsClear(x / 2, n - 1, j - 1);
    }
  }

  lemma {:induction false} ShlBound(x: nat, n: nat, s: nat)
    requires x < Pow2(n)
    ensures Shl(x, s) < Pow2(n + s)
  {
    Pow2Add(n, s);
    MulBelow(Pow2(s), Pow2(n), x);
  }

  lemma {:induction false} OrBound(a: nat, b: nat, n: nat)
    requires a < Pow2(n) && b < Pow2(n)
    ensures Or(a, b) < Pow2(n)
    decreases a + b
  {
    if a != 0 && b != 0 {
      assert n > 0;
      OrBound(a / 2, b / 2, n - 1);
    }
  }

  /** Two values below `2^n` with the same `n` low bits are equal. */
  lemma {:induction false} BitsDetermine(x: nat, y: nat, n: nat)
    requires x < Pow2(n) && y < Pow2(n)
    requires forall j :: 0 <= j < n ==> (Bit(x, j) <==> Bit(y, j))
    ensures x == y
  {
    if n > 0 {
      forall j | 0 <= j < n - 1
        ensures Bit(x / 2, j) <==> Bit(y / 2, j)
      {
        assert Bit(x, j + 1) <==> Bit(y, j + 1);
      }
      BitsDetermine(x / 2, y / 2, n - 1);
      assert Bit(x, 0) <==> Bit(y, 0);
    }
  }

  /** `|` of values with no common bit is their sum. */
  lemma {:induction false} OrDisjoint(a: nat, b: nat)
    requires forall j: nat :: !(Bit(a, j) && Bit(b, j))
    ensures Or(a, b) == a + b
    decreases a + b
  {
    if a != 0 && b != 0 {
      assert !(Bit(a, 0) && Bit(b, 0));
      forall j: nat ensures !(Bit(a / 2, j) && Bit(b / 2, j)) {
        assert !(Bit(a, j + 1) && Bit(b, j + 1));
      }
      OrDisjoint(a / 2, b / 2);
    }
  }

  /** Adding a multiple of `2^s` to a value below `2^s` never mixes bits. */
  lemma OrShlDisjoint(lo: nat, hi: nat, s: nat)
    requires lo < Pow2(s)
    ensures Or(lo, Shl(hi, s)) == lo + Shl(hi, s)
  {
    forall j: nat ensures !(Bit(lo, j) && Bit(Shl(hi, s), j)) {
      BitShl(hi, s, j);
      if j >= s {
        HighBitsClear(lo, s, j);
      }
    }
    OrDisjoint(lo, Shl(hi, s));
  }

  lemma Pow2Constants()
    ensures Pow2(1) == 2 && Pow2(2) == 4 && Pow2(4) == 16 && Pow2(8) == 256
    ensures Pow2(16) == 0x1_0000 && Pow2(32) == 0x1_0000_0000
  {
    Pow2Add(1, 1);
    Pow2Add(2, 2);
    Pow2Add(4, 4);
    Pow2Add(8, 8);
    Pow2Add(16, 16);
  }

  /** `(x >> a) >> b == x >> (a + b)` */
  lemma {:induction false} ShrShr(x: nat, a: nat, b: nat)
    ensures Shr(Shr(x, a), b) == Shr(x, a + b)
  {
    if a > 0 {
      ShrShr(x / 2, a - 1, b);
    }
  }

  /** The low `a + b` bits are the low `a` bits plus the next `b` bits shifted up. */
  lemma {:induction false} LowSplit(x: nat, a: nat, b: nat)
    ensures Low(x, a + b) == Low(x, a) + Low(Shr(x, a), b) * Pow2(a)
  {
    if a > 0 {
      LowSplit(x / 2, a - 1, b);
      var r := Low(Shr(x / 2, a - 1), b);
      assert 2 * (r * Pow2(a - 1)) == r * Pow2(a);
    }
  }

  /** Multiplication distributes over a sum on the left. */
  lemma AddMul(p: nat, a: nat, c: nat)
    ensures (p + a) * c == p * c + a * c
  {
  }

  lemma MulMono(a: nat, b: nat, m: nat)
    requires a <= b
    ensures a * m <= b * m
  {
    assert b * m == a * m + (b - a) * m;
  }

  lemma MulDistrib(a: nat, b: nat, c: nat, d: nat)
    ensures (a + b * c) * d == a * d + b * (c * d)
  {
  }

  /** A value of `n` bits placed above `k` lower bits fits in `k + n` bits. */
  lemma StackBound(low: nat, high: nat, k: nat, n: nat)
    requires low < Pow2(k) && high < Pow2(n)
    ensures low + high * Pow2(k) < Pow2(k + n)
  {
    var p := Pow2(k);
    MulMono(high, Pow2(n) - 1, p);
    assert (Pow2(n) - 1) * p == Pow2(n) * p - p;
    Pow2Add(n, k);
  }

  lemma {:induction false} OrComm(a: nat, b: nat)
    ensures Or(a, b) == Or(b, a)
    decreases a + b
  {
    if a != 0 && b != 0 {
      OrComm(a / 2, b / 2);
    }
  }

  /** ORing a `w`-bit value in just below the bits of `hi << (s + w)` appends
    * it as a new low field. */
  lemma OrAppendField(hi: nat, v: nat, w: nat, s: nat)
    requires v < Pow2(w)
    ensures Or(Shl(hi, s + w), Shl(v, s)) == Shl(hi * Pow2(w) + v, s)
  {
    var lo := Shl(v, s);
    var top := Shl(hi, w + s);
    assert Or(top, lo) == lo + top by {
      ShlBound(v, w, s);
      OrShlDisjoint(lo, hi, w + s);
      OrComm(top, lo);
    }
    assert lo + top == Shl(hi * Pow2(w) + v, s) by {
      Pow2Add(w, s);
      MulDistrib(v, hi, Pow2(w), Pow2(s));
    }
  }
}
