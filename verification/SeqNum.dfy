/** 32-bit sequence numbers: `unsigned int` wraps modulo 2^32, and the cast
    `(int)(a - b) > 0` decides which of two numbers comes later. */
module SeqNum {
  const TWO31: int := 0x8000_0000
  const TWO32: int := 0x1_0000_0000

  type u32 = x: int | 0 <= x < 0x1_0000_0000

  /** The wire value of an unbounded stream position. */
  function Wrap(x: int): (r: u32) {
    x % TWO32
  }

  /** The cast from `unsigned int` to `int` (two's complement). */
  function AsInt32(x: u32): int {
    if x < TWO31 then x else x - TWO32
  }

  /** `(int)(a - b) > 0` on `unsigned int` operands. */
  predicate After(a: u32, b: u32) {
    AsInt32(Wrap(a - b)) > 0
  }

  lemma WrapUnique(x: int, k: int, r: u32)
    requires x == k * TWO32 + r
    ensures Wrap(x) == r
  {
  }

  /** Wrapping the operands first does not change a wrapped sum or difference. */
  lemma WrapSum(a: int, b: int)
    ensures Wrap(Wrap(a) + b) == Wrap(a + b)
    ensures Wrap(Wrap(a) - Wrap(b)) == Wrap(a - b)
  {
    var qa, qb := a / TWO32, b / TWO32;
    var q := (a + b) / TWO32;
    WrapUnique(Wrap(a) + b, q - qa, Wrap(a + b));
    var q' := (a - b) / TWO32;
    WrapUnique(Wrap(a) - Wrap(b), q' - qa + qb, Wrap(a - b));
  }

  /** Sequence numbers less than 2^31 apart compare exactly as the positions
      they stand for: the order of section 3.2 of RFC 1982 with 32 bits. */
  lemma AfterIsOrder(a: int, b: int)
    requires -TWO31 < a - b < TWO31
    ensures After(Wrap(a), Wrap(b)) <==> a > b
    ensures Wrap(a) == Wrap(b) <==> a == b
  {
    WrapSum(a, b);
    if a >= b {
      WrapUnique(a - b, 0, a - b);
    } else {
      WrapUnique(a - b, -1, a - b + TWO32);
    }
  }

  /** The order is lost as soon as the positions are 2^31 apart. */
  lemma AfterFailsAtHalfRange(b: int)
    ensures !After(Wrap(b + TWO31), Wrap(b))
    ensures After(Wrap(b + TWO31 + 1), Wrap(b)) == false
    ensures Wrap(b + TWO32) == Wrap(b)
  {
    WrapSum(b + TWO31, b);
    WrapSum(b + TWO31 + 1, b);
    WrapUnique(TWO31, 0, TWO31);
    WrapUnique(TWO31 + 1, 0, TWO31 + 1);
    WrapUnique(b + TWO32, b / TWO32 + 1, Wrap(b));
  }
}
