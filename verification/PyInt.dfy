/** Python's unbounded integers as bit strings.

    A negative integer has infinitely many leading ones, as Python's `&`, `|`, `^`, `~`, `<<` and `>>` see it.
    Every operator is defined by recursion on halves, so that each fact below is an induction over bits. */
module PyInt {

  function Shl(x: int, n: nat): int
    decreases n, x
  {
    if n == 0 then x else Shl(2 * x, n - 1)
  }

  function Shr(x: int, n: nat): int
    decreases n, x
  {
    if n == 0 then x else Shr(x / 2, n - 1)
  }

  /** Bit `k` of `x`, bit 0 being the least significant. */
  predicate Bit(x: int, k: nat)
    decreases k, x
  {
    if k == 0 then x % 2 == 1 else Bit(x / 2, k - 1)
  }

  function Not(x: int): int {
    -x - 1
  }

  function Magnitude(x: int): nat {
    if x < 0 then -x - 1 else x
  }

  function And(x: int, y: int): int
    decreases Magnitude(x) + Magnitude(y)
  {
    if x == 0 || y == 0 then 0
    else if x == -1 then y
    else if y == -1 then x
    else 2 * And(x / 2, y / 2) + (if x % 2 == 1 && y % 2 == 1 then 1 else 0)
  }

  function Or(x: int, y: int): int {
    Not(And(Not(x), Not(y)))
  }

  function Xor(x: int, y: int): int {
    Or(And(x, Not(y)), And(Not(x), y))
  }

  function Pow2(n: nat): int {
    Shl(1, n)
  }

  /** The low `n` bits of `x`. */
  function Low(x: int, n: nat): int
    decreases n, x
  {
    if n == 0 then 0 else x % 2 + 2 * Low(x / 2, n - 1)
  }

  // ---------- bits of each operator ----------

  lemma {:induction false} BitOfZero(k: nat)
    ensures !Bit(0, k)
    ensures Bit(-1, k)
  {
    if k > 0 {
      BitOfZero(k - 1);
    }
  }

  lemma {:induction false} BitShl(x: int, n: nat, k: nat)
    ensures Bit(Shl(x, n), k) == (k >= n && Bit(x, k - n))
    decreases n
  {
    if n > 0 {
      BitShl(2 * x, n - 1, k);
    }
  }

  lemma {:induction false} BitShr(x: int, n: nat, k: nat)
    ensures Bit(Shr(x, n), k) == Bit(x, k + n)
    decreases n
  {
    if n > 0 {
      BitShr(x / 2, n - 1, k);
    }
  }

  lemma {:induction false} BitNot(x: int, k: nat)
    ensures Bit(Not(x), k) == !Bit(x, k)
    decreases k
  {
    if k > 0 {
      assert Not(x) / 2 == Not(x / 2);
      BitNot(x / 2, k - 1);
    }
  }

  lemma {:induction false} BitAnd(x: int, y: int, k: nat)
    ensures Bit(And(x, y), k) == (Bit(x, k) && Bit(y, k))
    decreases k
  {
    BitOfZero(k);
    if k > 0 && x != 0 && y != 0 && x != -1 && y != -1 {
      assert And(x, y) / 2 == And(x / 2, y / 2);
      BitAnd(x / 2, y / 2, k - 1);
    }
  }

  lemma BitOr(x: int, y: int, k: nat)
    ensures Bit(Or(x, y), k) == (Bit(x, k) || Bit(y, k))
  {
    BitNot(And(Not(x), Not(y)), k);
    BitAnd(Not(x), Not(y), k);
    BitNot(x, k);
    BitNot(y, k);
  }

  lemma BitXor(x: int, y: int, k: nat)
    ensures Bit(Xor(x, y), k) == (Bit(x, k) != Bit(y, k))
  {
    BitOr(And(x, Not(y)), And(Not(x), y), k);
    BitAnd(x, Not(y), k);
    BitAnd(Not(x), y, k);
    BitNot(x, k);
    BitNot(y, k);
  }

  /** Two integers with the same bits are the same integer. */
  lemma {:induction false} SameBits(x: int, y: int)
    requires forall k: nat :: Bit(x, k) == Bit(y, k)
    ensures x == y
    decreases Magnitude(x) + Magnitude(y)
  {
    assert Bit(x, 0) == Bit(y, 0);
    if (x == 0 || x == -1) && (y == 0 || y == -1) {
    } else {
      forall k: nat
        ensures Bit(x / 2, k) == Bit(y / 2, k)
      {
        assert Bit(x, k + 1) == Bit(y, k + 1);
      }
      SameBits(x / 2, y / 2);
    }
  }

  // ---------- shifts and powers ----------

  lemma {:induction false} ShlDouble(x: int, n: nat)
    ensures Shl(2 * x, n) == 2 * Shl(x, n)
    decreases n
  {
    if n > 0 {
      ShlDouble(2 * x, n - 1);
    }
  }

  lemma {:induction false} ShrShr(x: int, a: nat, b: nat)
    ensures Shr(Shr(x, a), b) == Shr(x, a + b)
    decreases a
  {
    if a > 0 {
      ShrShr(x / 2, a - 1, b);
    }
  }

  lemma {:induction false} ShrNot(x: int, n: nat)
    ensures Shr(Not(x), n) == Not(Shr(x, n))
    decreases n
  {
    if n > 0 {
      assert Not(x) / 2 == Not(x / 2);
      ShrNot(x / 2, n - 1);
    }
  }

  lemma {:induction false} Pow2Step(n: nat)
    ensures Pow2(n) > 0
    ensures Pow2(n + 1) == 2 * Pow2(n)
  {
    ShlDouble(1, n);
    if n > 0 {
      Pow2Step(n - 1);
    }
  }

  lemma {:induction false} ShlIsTimes(x: int, n: nat)
    ensures Shl(x, n) == x * Pow2(n)
    decreases n
  {
    if n > 0 {
      ShlIsTimes(2 * x, n - 1);
      Pow2Step(n - 1);
    }
  }

  lemma {:induction false} Pow2Add(a: nat, b: nat)
    ensures Pow2(a + b) == Pow2(a) * Pow2(b)
    decreases a
  {
    if a > 0 {
      Pow2Add(a - 1, b);
      Pow2Step(a - 1);
      Pow2Step(a - 1 + b);
      assert 2 * (Pow2(a - 1) * Pow2(b)) == Pow2(a) * Pow2(b);
    }
  }

  lemma Pow2Values()
    ensures Pow2(7) == 128 && Pow2(8) == 256
    ensures Pow2(16) == 0x1_0000
    ensures Pow2(32) == 0x1_0000_0000
    ensures Pow2(64) == 0x1_0000_0000_0000_0000
  {
    assert Pow2(7) == 128 && Pow2(8) == 256;
    Pow2Add(8, 8);
    Pow2Add(16, 16);
    Pow2Add(32, 32);
  }

  // ---------- the low bits ----------

  lemma {:induction false} BitMask(n: nat, k: nat)
    ensures Bit(Pow2(n) - 1, k) == (k < n)
    decreases n
  {
    if n == 0 {
      BitOfZero(k);
    } else {
      Pow2Step(n - 1);
      assert (Pow2(n) - 1) / 2 == Pow2(n - 1) - 1;
      if k > 0 {
        BitMask(n - 1, k - 1);
      }
    }
  }

  lemma {:induction false} BitLow(x: int, n: nat, k: nat)
    ensures Bit(Low(x, n), k) == (k < n && Bit(x, k))
    decreases n
  {
    if n == 0 {
      BitOfZero(k);
    } else if k > 0 {
      assert Low(x, n) / 2 == Low(x / 2, n - 1);
      BitLow(x / 2, n - 1, k - 1);
    }
  }

  lemma {:induction false} LowRange(x: int, n: nat)
    ensures 0 <= Low(x, n) < Pow2(n)
    decreases n
  {
    if n > 0 {
      LowRange(x / 2, n - 1);
      Pow2Step(n - 1);
    }
  }

  lemma {:induction false} LowSmall(x: int, n: nat)
    requires 0 <= x < Pow2(n)
    ensures Low(x, n) == x
    decreases n
  {
    if n > 0 {
      Pow2Step(n - 1);
      LowSmall(x / 2, n - 1);
    }
  }

  /** Python's `x & ((1 << n) - 1)` keeps the low `n` bits. */
  lemma {:induction false} AndMask(x: int, n: nat)
    ensures And(x, Pow2(n) - 1) == Low(x, n)
  {
    forall k: nat
      ensures Bit(And(x, Pow2(n) - 1), k) == Bit(Low(x, n), k)
    {
      BitAnd(x, Pow2(n) - 1, k);
      BitMask(n, k);
      BitLow(x, n, k);
    }
    SameBits(And(x, Pow2(n) - 1), Low(x, n));
  }

  /** The low `n` bits are the remainder modulo 2 to the `n`. */
  lemma {:induction false} LowIsMod(x: int, n: nat)
    ensures Pow2(n) > 0 && Low(x, n) == x % Pow2(n)
  {
    Pow2Step(n);
    LowRange(x, n);
    LowCongruent(x, n);
    var q := Shr(x, n);
    ModUnique(x, q, Low(x, n), Pow2(n));
  }

  lemma {:induction false} LowCongruent(x: int, n: nat)
    ensures x == Pow2(n) * Shr(x, n) + Low(x, n)
    decreases n
  {
    if n > 0 {
      LowCongruent(x / 2, n - 1);
      Pow2Step(n - 1);
      assert 2 * (Pow2(n - 1) * Shr(x, n)) == Pow2(n) * Shr(x, n);
    }
  }

  lemma TimesMonotone(p: int, a: int, b: int)
    requires p >= 0 && a <= b
    ensures p * a <= p * b
  {
    assert p * b - p * a == p * (b - a);
  }

  lemma TimesAtLeast(d: int, t: int)
    requires d > 0 && t >= 1
    ensures d * t >= d
  {
  }

  lemma ModUnique(x: int, q: int, r: int, d: int)
    requires d > 0 && 0 <= r < d && x == d * q + r
    ensures x % d == r
  {
    var t := q - x / d;
    assert d * t == x % d - r by {
      assert d * q - d * (x / d) == d * t;
    }
    if t >= 1 {
      TimesAtLeast(d, t);
    } else if t <= -1 {
      TimesAtLeast(d, -t);
    }
  }

  /** What is left after shifting out the low `n` bits is 0 or -1 exactly for the signed integers of `n + 1` bits. */
  lemma ShiftedOut(x: int, n: nat)
    ensures 0 <= x < Pow2(n) <==> Shr(x, n) == 0
    ensures -Pow2(n) <= x < 0 <==> Shr(x, n) == -1
    ensures x >= 0 <==> Shr(x, n) >= 0
  {
    LowCongruent(x, n);
    LowRange(x, n);
    var p, t := Pow2(n), Shr(x, n);
    if t >= 1 {
      TimesMonotone(p, 1, t);
    } else if t <= -2 {
      TimesMonotone(p, t, -2);
    }
  }

  /** The byte mask. */
  lemma AndByte(x: int)
    ensures And(x, 255) == x % 256
    ensures 0 <= And(x, 255) < 256
  {
    assert Pow2(8) == 256;
    AndMask(x, 8);
    LowIsMod(x, 8);
  }

  /** Disjoint bits add up. */
  lemma {:induction false} OrIsPlus(x: int, y: int, n: nat)
    requires 0 <= x < Pow2(n)
    ensures Or(x, Shl(y, n)) == x + Shl(y, n)
  {
    var z := x + Shl(y, n);
    ShlIsTimes(y, n);
    LowCongruent(z, n);
    LowIsMod(z, n);
    ModUnique(z, y, x, Pow2(n));
    assert Low(z, n) == x;
    assert Pow2(n) * (Shr(z, n) - y) == 0;
    Pow2Step(n);
    assert Shr(z, n) == y;
    forall k: nat
      ensures Bit(Or(x, Shl(y, n)), k) == Bit(z, k)
    {
      BitOr(x, Shl(y, n), k);
      BitShl(y, n, k);
      LowSmall(x, n);
      BitLow(x, n, k);
      BitLow(z, n, k);
      if k >= n {
        BitShr(z, n, k - n);
      }
    }
    SameBits(Or(x, Shl(y, n)), z);
  }
}
