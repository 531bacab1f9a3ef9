/** Powers and the laws of integer division that the other modules share. */
module Division {

  function Pow(base: nat, exp: nat): nat {
    if exp == 0 then 1 else base * Pow(base, exp - 1)
  }

  lemma {:induction false} PowGrows(base: nat, e: nat, f: nat)
    requires base >= 2 && e <= f
    ensures Pow(base, e) >= 1 && (e < f ==> Pow(base, e) < Pow(base, f))
    decreases f
  {
    if e < f {
      PowGrows(base, e, f - 1);
    } else if e > 0 {
      PowGrows(base, e - 1, f - 1);
    }
  }

  lemma {:induction false} PowSum(base: nat, e: nat, f: nat)
    ensures Pow(base, e + f) == Pow(base, e) * Pow(base, f)
    decreases e
  {
    if e > 0 {
      PowSum(base, e - 1, f);
      assert base * (Pow(base, e - 1) * Pow(base, f)) == base * Pow(base, e - 1) * Pow(base, f);
    }
  }

  lemma DivisionLaw(n: nat, d: nat)
    requires d >= 1
    ensures n == n / d * d + n % d && 0 <= n % d < d && n / d >= 0
  {
  }

  lemma ProductGrows(a: int, b: int, d: nat)
    requires a <= b
    ensures a * d <= b * d
  {
  }

  lemma ProductSteps(a: int, b: int, d: nat)
    ensures a < b ==> a * d + d <= b * d
  {
    if a < b {
      ProductGrows(a + 1, b, d);
      assert (a + 1) * d == a * d + d;
    }
  }

  /** Quotient and remainder are the only ones. */
  lemma OneQuotient(d: nat, q: int, r: nat, k: int, s: nat)
    requires q * d + r == k * d + s && r < d && s < d
    ensures q == k
  {
    ProductSteps(q, k, d);
    ProductSteps(k, q, d);
  }

  lemma QuotientOf(n: nat, d: nat, q: int, r: nat)
    requires n == q * d + r && r < d
    ensures n / d == q
  {
    DivisionLaw(n, d);
    OneQuotient(d, q, r, n / d, n % d);
  }

  lemma QuotientMonotone(a: nat, b: nat, d: nat)
    requires d >= 1 && a <= b
    ensures a / d <= b / d
  {
    DivisionLaw(a, d);
    DivisionLaw(b, d);
    ProductSteps(b / d, a / d, d);
  }

  /** Dividing twice is dividing by the product. */
  lemma DivisionTwice(n: nat, a: nat, b: nat)
    requires a >= 1 && b >= 1
    ensures a * b >= 1 && n / (a * b) == n / a / b
  {
    ProductGrows(1, a, b);
    var once := n / a;
    var twice, left := once / b, once % b;
    DivisionLaw(n, a);
    DivisionLaw(once, b);
    assert (twice * b + left) * a == twice * (a * b) + left * a;
    ProductGrows(left + 1, b, a);
    assert (left + 1) * a == left * a + a;
    QuotientOf(n, a * b, twice, left * a + n % a);
  }
}
