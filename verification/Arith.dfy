/** The few facts about products and quotients that the layout and the pointer tree rest on. */
module Arith {

  lemma MulMonotonic(a: nat, b: nat, d: nat)
    requires a <= b
    ensures a * d <= b * d
    ensures a < b ==> a * d + d <= b * d
  {
    TimesIsProduct(a, d);
    TimesIsProduct(b, d);
    TimesMonotonic(a, b, d);
  }

  lemma DivMod(a: nat, d: nat, q: nat, r: nat)
    requires a == q * d + r && r < d
    ensures a / d == q && a % d == r
  {
    var q', r' := a / d, a % d;
    assert a == q' * d + r';
    if q < q' {
      MulMonotonic(q, q', d);
    } else if q' < q {
      MulMonotonic(q', q, d);
    }
  }

  lemma Split(a: nat, d: nat)
    requires d > 0
    ensures a == (a / d) * d + a % d
    ensures 0 <= a % d < d
  {}

  // The pointer tree is described with these recursive forms of product, quotient and remainder: the verifier then
  // meets multiplication and division only in the lemmas below.

  function Times(a: nat, d: nat): nat {
    if a == 0 then 0 else Times(a - 1, d) + d
  }

  function Quot(a: nat, d: nat): nat
    requires d > 0
  {
    if a < d then 0 else Quot(a - d, d) + 1
  }

  function Rem(a: nat, d: nat): (r: nat)
    requires d > 0
    ensures r < d
  {
    if a < d then a else Rem(a - d, d)
  }

  lemma {:induction false} TimesIsProduct(a: nat, d: nat)
    ensures Times(a, d) == a * d
  {
    if a > 0 {
      TimesIsProduct(a - 1, d);
      assert a * d == (a - 1) * d + d;
    }
  }

  lemma {:induction false} TimesAdd(a: nat, b: nat, d: nat)
    ensures Times(a + b, d) == Times(a, d) + Times(b, d)
  {
    if b > 0 {
      TimesAdd(a, b - 1, d);
    }
  }

  lemma {:induction false} TimesTimes(a: nat, b: nat, d: nat)
    ensures Times(Times(a, b), d) == Times(a, Times(b, d))
  {
    if a > 0 {
      TimesTimes(a - 1, b, d);
      TimesAdd(Times(a - 1, b), b, d);
    }
  }

  lemma {:induction false} QuotRem(a: nat, d: nat)
    requires d > 0
    ensures a == Times(Quot(a, d), d) + Rem(a, d)
  {
    if a >= d {
      QuotRem(a - d, d);
    }
  }

  /** Quot and Rem are the division and remainder of the source's unsigned integers. */
  lemma QuotRemAreDivision(a: nat, d: nat)
    requires d > 0
    ensures Quot(a, d) == a / d && Rem(a, d) == a % d
  {
    QuotRem(a, d);
    TimesIsProduct(Quot(a, d), d);
    DivMod(a, d, Quot(a, d), Rem(a, d));
  }

  lemma {:induction false} TimesMonotonic(a: nat, b: nat, d: nat)
    requires a <= b
    ensures Times(a, d) <= Times(b, d)
    ensures a < b ==> Times(a, d) + d <= Times(b, d)
    decreases b - a
  {
    if a < b {
      TimesMonotonic(a, b - 1, d);
    }
  }

  lemma QuotRemUnique(a: nat, d: nat, q: nat, r: nat)
    requires a == Times(q, d) + r && r < d
    ensures Quot(a, d) == q && Rem(a, d) == r
  {
    QuotRem(a, d);
    var k := Quot(a, d);
    if q < k {
      TimesMonotonic(q, k, d);
    } else if k < q {
      TimesMonotonic(k, q, d);
    }
  }

  lemma HalfOf(bs: nat, half: nat)
    requires bs == 2 * half
    ensures Quot(bs, 2) == half
  {
    TimesIsProduct(half, 2);
    QuotRemUnique(bs, 2, half, 0);
  }

  lemma {:induction false} TimesNext(a: nat, d: nat)
    ensures Times(a, d + 1) == Times(a, d) + a
  {
    if a > 0 {
      TimesNext(a - 1, d);
    }
  }

  lemma {:induction false} TimesScale(a: nat, d: nat)
    ensures Times(a, 64 * d) == 64 * Times(a, d)
  {
    if a > 0 {
      TimesScale(a - 1, d);
    }
  }

  lemma {:induction false} QuotBound(a: nat, d: nat)
    requires d > 0
    ensures Quot(a, d) <= a
  {
    if a >= d {
      QuotBound(a - d, d);
    }
  }
}
