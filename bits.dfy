/** Bitwise OR on non-negative integers, the operation behind C's `usb_mode |= mode`
    for the non-negative `int` values the option parser produces. */
module Bits {

  function Pow2(k: nat): nat {
    if k == 0 then 1 else 2 * Pow2(k - 1)
  }

  /** Bit `k` of `x` is set. */
  predicate Bit(x: nat, k: nat)
    decreases k
  {
    if k == 0 then x % 2 == 1 else Bit(x / 2, k - 1)
  }

  /** `a | b`, computed one binary digit at a time from the least significant end. */
  function Or(a: nat, b: nat): (r: nat)
    ensures a <= r && b <= r && r <= a + b
    decreases a + b
  {
    if a == 0 then b
    else if b == 0 then a
    else 2 * Or(a / 2, b / 2) + (if a % 2 == 1 || b % 2 == 1 then 1 else 0)
  }

  lemma {:induction false} ZeroHasNoBits(k: nat)
    ensures !Bit(0, k)
    decreases k
  {
    if k > 0 {
      ZeroHasNoBits(k - 1);
    }
  }

  /** Or sets exactly the bits set in either operand. */
  lemma {:induction false} OrBit(a: nat, b: nat, k: nat)
    ensures Bit(Or(a, b), k) <==> Bit(a, k) || Bit(b, k)
    decreases k
  {
    ZeroHasNoBits(k);
    if a == 0 || b == 0 {
    } else {
      var rest := Or(a / 2, b / 2);
      var low := if a % 2 == 1 || b % 2 == 1 then 1 else 0;
      assert Or(a, b) == 2 * rest + low;
      assert (2 * rest + low) % 2 == low;
      assert (2 * rest + low) / 2 == rest;
      if k > 0 {
        OrBit(a / 2, b / 2, k - 1);
      }
    }
  }

  /** Bits 0 .. k-1 of `a` are all clear. */
  predicate LowClear(a: nat, k: nat)
    decreases k
  {
    k == 0 || (a % 2 == 0 && LowClear(a / 2, k - 1))
  }

  /** When every bit of `b` lies below bit `k` and no bit of `a` does, Or is addition. */
  lemma {:induction false} OrDisjoint(a: nat, b: nat, k: nat)
    requires LowClear(a, k) && b < Pow2(k)
    ensures Or(a, b) == a + b
    decreases k
  {
    if a == 0 || b == 0 {
    } else {
      assert k > 0;
      OrDisjoint(a / 2, b / 2, k - 1);
    }
  }

  lemma Double(a: nat, k: nat)
    requires LowClear(a, k)
    ensures LowClear(2 * a, k + 1)
  {
    assert (2 * a) / 2 == a;
  }

  /** The two-digit mode token's combination `(hi << 4) | lo`, for a low digit below 16. */
  lemma NibbleOr(hi: nat, lo: nat)
    requires lo < 16
    ensures Or(hi * 16, lo) == hi * 16 + lo
  {
    assert Pow2(4) == 16;
    Double(hi, 0);
    Double(2 * hi, 1);
    Double(4 * hi, 2);
    Double(8 * hi, 3);
    OrDisjoint(hi * 16, lo, 4);
  }
}
