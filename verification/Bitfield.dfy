/** The bitfield of received or acknowledged sequence IDs, with dynamic capacity. Position `k` (from 1 on) stands
    for the ID `k` before the latest one. */
module Bitfields {
  import opened PyInt
  import opened BitBuffer

  /** The value of a bitfield object. */
  datatype Marks = Marks(bits: int, count: nat, capacity: int) {

    function First8(): int {
      And(bits, 0xff)
    }

    function First16(): int {
      And(bits, 0xffff)
    }

    function Overflow(amount: int): int {
      count + amount - capacity
    }

    /** The capacity is the count from the first shift on. (The code only trims when a non-empty tuple is false.) */
    function Shifted(n: nat): Marks {
      Marks(Shl(bits, n), count + n, count + n)
    }

    /** Positions beyond the count are taken to be set. */
    predicate IsSet(k: int)
      requires k >= 1
    {
      k > count || Bit(bits, k - 1)
    }

    function With(k: int): Marks
      requires k >= 1
    {
      this.(bits := Or(bits, Shl(1, k - 1)))
    }

    function Combined(other: int): Marks {
      this.(bits := Or(bits, other))
    }
  }

  const EMPTY := Marks(0, 0, 4 * 4 * 8)

  class Bitfield {
    var bits: int
    var count: nat
    var capacity: int

    ghost function State(): Marks
      reads this
    {
      Marks(bits, count, capacity)
    }

    constructor ()
      ensures State() == EMPTY
    {
      bits, count, capacity := 0, 0, 4 * 4 * 8;
    }

    method HasCapacityFor(amount: int) returns (fits: bool, overflow: int)
      ensures overflow == State().Overflow(amount) && fits == (overflow < 0)
    {
      overflow := count + amount - capacity;
      fits := overflow < 0;
    }

    method ShiftLeft(n: nat)
      modifies this
      ensures State() == old(State()).Shifted(n)
    {
      count := count + n;
      capacity := count;
      bits := Shl(bits, n);
    }

    /** `None` for the exception on positions below one. */
    method IsSet(k: int) returns (r: Option<bool>)
      ensures k >= 1 ==> r == Some(State().IsSet(k))
      ensures k < 1 ==> r == if k > count then Some(true) else None
    {
      if k > count {
        return Some(true);
      }
      if k < 1 {
        return None;
      }
      AndOne(bits, k - 1);
      return Some(And(bits, Shl(1, k - 1)) != 0);
    }

    method Set(k: int) returns (ok: bool)
      modifies this
      ensures ok == (k >= 1)
      ensures State() == if k >= 1 then old(State()).With(k) else old(State())
    {
      if k < 1 {
        return false;
      }
      bits := Or(bits, Shl(1, k - 1));
      return true;
    }

    /** `None` for the exception on a shift by a negative count, when nothing is left to check. */
    method CheckAndTrimLast() returns (r: Option<(bool, int)>)
      modifies this
      ensures r == if old(count) < 1 then None else Some((Bit(old(bits), old(count) - 1), old(count)))
      ensures State() == if r.Some? then old(State()).(count := old(count) - 1) else old(State())
    {
      var checkedPos := count;
      if count - 1 < 0 {
        return None;
      }
      AndOne(bits, count - 1);
      var isSet := And(bits, Shl(1, count - 1)) != 0;
      count := count - 1;
      return Some((isSet, checkedPos));
    }

    method Combine(other: int)
      modifies this
      ensures State() == old(State()).Combined(other)
    {
      bits := Or(bits, other);
    }
  }

  lemma BitOfPower(n: nat, k: nat)
    ensures Bit(Shl(1, n), k) == (k == n)
  {
    hide Bit;
    BitShl(1, n, k);
    if k >= n {
      OneBit(k - n);
    }
  }

  lemma OneBit(k: nat)
    ensures Bit(1, k) == (k == 0)
  {
    if k > 0 {
      BitOfZero(k - 1);
    }
  }

  /** Testing a bit with a mask. */
  lemma AndOne(x: int, n: nat)
    ensures And(x, Shl(1, n)) != 0 <==> Bit(x, n)
  {
    hide Bit, And, Shl;
    forall k: nat
      ensures Bit(And(x, Shl(1, n)), k) == (k == n && Bit(x, n))
    {
      BitAnd(x, Shl(1, n), k);
      BitOfPower(n, k);
    }
    if Bit(x, n) {
      BitOfZero(n);
    } else {
      forall k: nat
        ensures Bit(0, k) == Bit(And(x, Shl(1, n)), k)
      {
        BitOfZero(k);
      }
      SameBits(And(x, Shl(1, n)), 0);
    }
  }

  lemma BitWith(f: Marks, k: nat, j: nat)
    requires k >= 1
    ensures Bit(f.With(k).bits, j) == (Bit(f.bits, j) || j == k - 1)
  {
    hide Bit;
    BitOr(f.bits, Shl(1, k - 1), j);
    BitOfPower(k - 1, j);
  }

  lemma First16Bits(f: Marks)
    ensures 0 <= f.First16() < 0x1_0000
    ensures forall k: nat | k < 16 :: Bit(f.First16(), k) == Bit(f.bits, k)
  {
    hide Bit, And;
    Pow2Values();
    AndMask(f.bits, 16);
    LowRange(f.bits, 16);
    forall k: nat | k < 16
      ensures Bit(f.First16(), k) == Bit(f.bits, k)
    {
      BitLow(f.bits, 16, k);
    }
  }

  lemma First8Bits(f: Marks)
    ensures 0 <= f.First8() < 0x100
    ensures forall k: nat | k < 8 :: Bit(f.First8(), k) == Bit(f.bits, k)
  {
    hide Bit, And;
    Pow2Values();
    AndMask(f.bits, 8);
    LowRange(f.bits, 8);
    forall k: nat | k < 8
      ensures Bit(f.First8(), k) == Bit(f.bits, k)
    {
      BitLow(f.bits, 8, k);
    }
  }
}
