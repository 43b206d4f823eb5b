/**
  Division of natural numbers by repeated subtraction.  Proofs about it stay clear of the
  solver's rules for `/` and `%`.
  */
module Division {

  function Quotient(n: nat, d: nat): nat
  {
    if d == 0 || n < d then 0 else 1 + Quotient(n - d, d)
  }

  lemma {:induction false} QuotientRemainder(n: nat, d: nat)
    requires d > 0
    ensures Quotient(n, d) * d <= n < Quotient(n, d) * d + d
  {
    if n >= d {
      QuotientRemainder(n - d, d);
      assert Quotient(n, d) * d == Quotient(n - d, d) * d + d;
    }
  }

  lemma {:induction false} QuotientUnique(n: nat, q: nat, r: nat, d: nat)
    requires n == q * d + r && r < d
    ensures Quotient(n, d) == q
    decreases q
  {
    if q > 0 {
      assert q * d == (q - 1) * d + d;
      QuotientUnique(n - d, q - 1, r, d);
    }
  }

  lemma QuotientIsDivision(n: nat, d: nat)
    requires d > 0
    ensures Quotient(n, d) == n / d
  {
    assert n == (n / d) * d + n % d;
    QuotientUnique(n, n / d, n % d, d);
  }

  lemma QuotientOfQuotient(n: nat, a: nat, b: nat)
    requires a > 0 && b > 0
    ensures Quotient(n, a * b) == Quotient(Quotient(n, a), b)
  {
    var q := Quotient(n, a);
    var h := Quotient(q, b);
    QuotientRemainder(n, a);
    QuotientRemainder(q, b);
    Regroup(n, q, h, a, b);
    QuotientUnique(n, h, n - h * (a * b), a * b);
  }

  /** What is left after dividing by a product has the remainder that dividing by the first factor leaves. */
  lemma RemainderOfProduct(n: nat, a: nat, b: nat, ab: nat)
    requires a > 0 && b > 0 && ab == a * b
    ensures var rest := n - Quotient(n, ab) * ab;
      && rest >= 0
      && Quotient(rest, a) == Quotient(n, a) - Quotient(Quotient(n, a), b) * b
      && rest - Quotient(rest, a) * a == n - Quotient(n, a) * a
  {
    RestOfQuotients(n, Quotient(n, a), Quotient(Quotient(n, a), b), a, b, ab);
  }

  lemma RestOfQuotients(n: nat, q: nat, h: nat, a: nat, b: nat, ab: nat)
    requires a > 0 && b > 0 && ab == a * b && q == Quotient(n, a) && h == Quotient(q, b)
    ensures var rest := n - h * ab;
      Quotient(n, ab) == h && rest >= 0 && Quotient(rest, a) == q - h * b && rest - Quotient(rest, a) * a == n - q * a
  {
    QuotientOfQuotient(n, a, b);
    QuotientRemainder(n, a);
    QuotientRemainder(q, b);
    RestDivided(n, q, h, a, b, ab);
  }

  lemma RestDivided(n: nat, q: nat, h: nat, a: nat, b: nat, ab: nat)
    requires q * a <= n < q * a + a && h * b <= q < h * b + b && ab == a * b
    ensures var rest := n - h * ab;
      rest >= 0 && Quotient(rest, a) == q - h * b && rest - Quotient(rest, a) * a == n - q * a
  {
    Regroup(n, q, h, a, b);
    Divided(n - h * ab, q - h * b, n - q * a, a);
  }

  lemma Divided(n: nat, q: nat, r: nat, d: nat)
    requires n == q * d + r && r < d
    ensures Quotient(n, d) == q && n - Quotient(n, d) * d == r
  {
    QuotientUnique(n, q, r, d);
  }

  lemma Regroup(n: nat, q: nat, h: nat, a: nat, b: nat)
    requires q * a <= n < q * a + a && h * b <= q < h * b + b
    ensures 0 <= n - h * (a * b) < a * b
    ensures n - h * (a * b) == (q - h * b) * a + (n - q * a)
  {
    var x := q - h * b;
    Distribute(h * b, x, a);
    Associate(h, b, a);
    assert q * a == h * (a * b) + x * a;
    Within(x, a, n - q * a, b);
  }

  lemma Distribute(x: int, y: int, a: int)
    ensures (x + y) * a == x * a + y * a
  {
  }

  lemma Associate(h: int, b: int, a: int)
    ensures (h * b) * a == h * (a * b)
  {
  }

  lemma Within(x: nat, a: nat, r: nat, b: nat)
    requires r < a && x < b
    ensures 0 <= x * a + r < a * b
  {
    Distribute(b - 1 - x, x, a);
    Distribute(b - 1, 1, a);
    NotNegative(b - 1 - x, a);
  }

  lemma NotNegative(x: nat, a: nat)
    ensures x * a >= 0
  {
  }
}
