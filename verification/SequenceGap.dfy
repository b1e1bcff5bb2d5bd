/** The distance between two 16-bit wrapping sequence IDs. */
module SequenceGap {

  function GetSequenceGap(seqId1: int, seqId2: int): int {
    var a, b := seqId1 % 0x1_0000, seqId2 % 0x1_0000;
    var gap := a - b;
    if -32768 <= gap <= 32768 then gap
    else (if a <= 32768 then 0x1_0000 + a else a) - (if b <= 32768 then 0x1_0000 + b else b)
  }

  /** The gap is the true difference of two unwrapped IDs exactly when that difference is below half the range;
      at half the range, only when the larger ID is in the upper half. */
  lemma GapExact(x: int, y: int)
    ensures GetSequenceGap(x, y) == x - y <==>
            || -32768 < x - y < 32768
            || (x - y == 32768 && x % 0x1_0000 >= 32768)
            || (x - y == -32768 && y % 0x1_0000 >= 32768)
  {
    GapCongruent(x, y);
    var d := (GetSequenceGap(x, y) - (x - y)) / 0x1_0000;
    assert GetSequenceGap(x, y) - (x - y) == 0x1_0000 * d;
  }

  /** Whatever the IDs, the gap is congruent to their difference and at most half the range. */
  lemma GapCongruent(x: int, y: int)
    ensures (GetSequenceGap(x, y) - (x - y)) % 0x1_0000 == 0
    ensures -32768 <= GetSequenceGap(x, y) <= 32768
  {
    var p, q := x / 0x1_0000, y / 0x1_0000;
    var k := if x % 0x1_0000 - y % 0x1_0000 > 32768 then -1 else if x % 0x1_0000 - y % 0x1_0000 < -32768 then 1 else 0;
    assert GetSequenceGap(x, y) - (x - y) == 0x1_0000 * (k - p + q);
  }

  lemma GapAntisymmetric(x: int, y: int)
    ensures GetSequenceGap(y, x) == -GetSequenceGap(x, y)
  {
  }

  /** IDs are only looked at modulo 65536. */
  lemma GapOfWire(x: int, y: int)
    ensures GetSequenceGap(x % 0x1_0000, y % 0x1_0000) == GetSequenceGap(x, y)
  {
  }
}
