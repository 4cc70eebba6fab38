/** Powers of two and the bitwise OR of naturals. */
module Bits {

  function Power2(bits: nat): (p: nat)
    ensures p > 0
  {
    if bits == 0 then 1 else 2 * Power2(bits - 1)
  }

  /** `a | b`. */
  function Or(a: nat, b: nat): nat
    decreases a + b
  {
    if a == 0 && b == 0 then 0
    else 2 * Or(a / 2, b / 2) + (if a % 2 == 1 || b % 2 == 1 then 1 else 0)
  }

  lemma {:induction false} OrWithZero(a: nat)
    ensures Or(a, 0) == a && Or(0, a) == a
  {
    if a != 0 {
      OrWithZero(a / 2);
    }
  }

  /** Low bits joined to a number that has none of them simply add. */
  lemma {:induction false} OrAdds(high: nat, low: nat, bits: nat)
    requires low < Power2(bits)
    ensures Or(high * Power2(bits), low) == high * Power2(bits) + low
  {
    if bits == 0 {
      OrWithZero(high);
    } else {
      OrAdds(high, low / 2, bits - 1);
      HalfOfShift(high, bits);
      var a := high * Power2(bits);
      if a == 0 && low == 0 {
        assert Or(a, low) == 0;
      }
    }
  }

  lemma {:induction false} HalfOfShift(high: nat, bits: nat)
    requires bits > 0
    ensures high * Power2(bits) / 2 == high * Power2(bits - 1) && high * Power2(bits) % 2 == 0
  {
    assert high * Power2(bits) == 2 * (high * Power2(bits - 1));
  }

  lemma {:induction false} OrDoubles(a: nat, b: nat)
    ensures Or(2 * a, 2 * b) == 2 * Or(a, b)
  {
    assert 2 * a / 2 == a && 2 * b / 2 == b;
  }

  lemma {:induction false} DoubleShift(a: nat, p: nat)
    ensures a * (2 * p) == 2 * (a * p)
  {
  }

  lemma {:induction false} OrShiftsOnce(a: nat, b: nat, p: nat)
    requires Or(a * p, b * p) == Or(a, b) * p
    ensures Or(a * (2 * p), b * (2 * p)) == Or(a, b) * (2 * p)
  {
    OrDoubles(a * p, b * p);
    DoubleShift(a, p);
    DoubleShift(b, p);
    DoubleShift(Or(a, b), p);
  }

  /** Shifting both sides shifts the OR. */
  lemma {:induction false} OrShifts(a: nat, b: nat, bits: nat)
    ensures Or(a * Power2(bits), b * Power2(bits)) == Or(a, b) * Power2(bits)
  {
    if bits != 0 {
      OrShifts(a, b, bits - 1);
      OrShiftsOnce(a, b, Power2(bits - 1));
    }
  }

  /** The lowest bit alone: set it, or find it set. */
  lemma {:induction false} OrOne(a: nat)
    ensures Or(a, 1) == if a % 2 == 1 then a else a + 1
  {
    OrWithZero(a / 2);
    assert Or(a, 1) == 2 * Or(a / 2, 0) + 1;
  }
}
