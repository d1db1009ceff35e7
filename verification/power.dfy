/** Natural powers of a real number, used for the `(1 + r) ** -n` term of the annuity formula. */
module Power {

  /** x raised to the natural power n. */
  function Pow(x: real, n: nat): real
  {
    if n == 0 then 1.0 else x * Pow(x, n - 1)
  }

  /** Multiplying both sides of an inequality by a non-negative factor keeps it. */
  lemma MulMonotone(a: real, b: real, c: real)
    requires a <= b && c >= 0.0
    ensures a * c <= b * c
  {
    assert b * c - a * c == (b - a) * c;
  }

  /** MulMonotone for two quantities known to be those products. */
  lemma ScaledMonotone(a: real, b: real, c: real, x: real, y: real)
    requires a <= b && c >= 0.0 && x == a * c && y == b * c
    ensures x <= y
  {
    MulMonotone(a, b, c);
  }

  /** A base of at least one never yields a power below one. */
  lemma {:induction false} PowAtLeastOne(x: real, n: nat)
    requires x >= 1.0
    ensures Pow(x, n) >= 1.0
  {
    if n > 0 {
      PowAtLeastOne(x, n - 1);
      MulMonotone(1.0, x, Pow(x, n - 1));
    }
  }

  /** Powers of a base above one grow strictly with the exponent. */
  lemma {:induction false} PowStrictlyIncreasing(x: real, k: nat, n: nat)
    requires x > 1.0 && k < n
    ensures Pow(x, k) < Pow(x, n)
  {
    PowAtLeastOne(x, n - 1);
    assert Pow(x, n) - Pow(x, n - 1) == (x - 1.0) * Pow(x, n - 1);
    if k < n - 1 {
      PowStrictlyIncreasing(x, k, n - 1);
    }
  }

  /** A base above one raised to a positive power is above one. */
  lemma PowAboveOne(x: real, n: nat)
    requires x > 1.0 && n > 0
    ensures Pow(x, n) > 1.0
  {
    PowStrictlyIncreasing(x, 0, n);
  }
}
