/** Real arithmetic the proofs share. */
module Reals {

  function Max(x: real, y: real): real {
    if x < y then y else x
  }

  /** Multiplication, named so that proofs can keep its definition hidden. */
  function Times(x: real, y: real): real {
    x * y
  }

  lemma TimesMonotone(q: real, x: real, y: real)
    requires 0.0 <= q && x <= y
    ensures Times(q, x) <= Times(q, y)
  {
  }

  lemma TimesZero(q: real)
    ensures Times(q, 0.0) == 0.0
  {
  }

  lemma TimesInUnit(q: real, p: real)
    requires 0.0 <= q <= 1.0 && 0.0 <= p
    ensures 0.0 <= Times(q, p) <= p
  {
    TimesMonotone(p, 0.0, q);
    TimesMonotone(p, q, 1.0);
    assert Times(p, q) == Times(q, p);
  }

  lemma TimesAssociative(x: real, y: real, z: real)
    ensures Times(Times(x, y), z) == Times(x, Times(y, z))
  {
  }

  lemma TimesDistributes(x: real, y: real, z: real)
    ensures Times(x, y - z) == Times(x, y) - Times(x, z)
  {
  }

  lemma TimesCommute(x: real, y: real)
    ensures Times(x, y) == Times(y, x)
  {
  }

  lemma TimesOne(x: real)
    ensures Times(x, 1.0) == x && Times(1.0, x) == x
  {
  }

  lemma TimesPositive(x: real, y: real)
    requires 0.0 < x && 0.0 < y
    ensures 0.0 < Times(x, y)
  {
  }

  lemma StrictlyLess(q: real, x: real)
    requires 0.0 < q < 1.0 && 0.0 < Times(q, x)
    ensures Times(q, x) < x
  {
    if x <= 0.0 {
      TimesMonotone(q, x, 0.0);
      TimesZero(q);
    } else {
      TimesDistributes(x, 1.0, q);
      TimesOne(x);
      TimesPositive(x, 1.0 - q);
    }
  }

  function Pow(b: real, k: nat): real {
    if k == 0 then 1.0 else b * Pow(b, k - 1)
  }

  lemma {:induction false} PowStep(b: real, k: nat)
    ensures Pow(b, k + 1) == Times(b, Pow(b, k))
  {
  }

  lemma {:induction false} PowDecreases(b: real, i: nat, k: nat)
    requires 0.0 < b < 1.0 && i <= k
    ensures 0.0 < Pow(b, k) <= Pow(b, i)
    decreases k
  {
    if k > 0 {
      PowDecreases(b, if i < k then i else i - 1, k - 1);
      if i < k {
        TimesInUnit(b, Pow(b, k - 1));
        TimesPositive(b, Pow(b, k - 1));
      } else {
        TimesPositive(b, Pow(b, k - 1));
      }
    }
  }

  lemma {:induction false} PowAdds(b: real, i: nat, k: nat)
    ensures Pow(b, i + k) == Times(Pow(b, i), Pow(b, k))
  {
    hide Times;
    if i == 0 {
      TimesOne(Pow(b, k));
    } else {
      PowAdds(b, i - 1, k);
      PowStep(b, i + k - 1);
      PowStep(b, i - 1);
      TimesAssociative(b, Pow(b, i - 1), Pow(b, k));
    }
  }
}
