/** Multiplication and division by a number that is not a literal. */
module Arithmetic {
  lemma DigitBounds(digit: nat, radix: nat, f: nat)
    requires digit < radix
    ensures digit * f + f <= radix * f
  {
    assert (digit + 1) * f <= radix * f;
  }

  lemma DivMod(x: nat, f: nat)
    requires f > 0
    ensures x - (x / f) * f == x % f
  {
  }

  /** Quotient and remainder are unique. */
  lemma Divides(q: nat, f: nat, rest: nat)
    requires rest < f
    ensures (q * f + rest) / f == q && (q * f + rest) % f == rest
  {
    var x := q * f + rest;
    var q' := x / f;
    assert x == q' * f + x % f;
    if q' > q {
      DigitBounds(q, q', f);
    } else if q' < q {
      DigitBounds(q', q, f);
    }
  }

  lemma MultipleOf(q: nat, f: nat)
    requires f > 0
    ensures (q * f) % f == 0
  {
    Divides(q, f, 0);
  }
}
