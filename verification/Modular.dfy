/**
 Residues and powers: what the modular operations of src/security/gost3410.c compute, up to
 Fermat's little theorem, which makes the power with exponent q - 2 an inverse.
 */
module Modular {
  import Lengths

  ghost predicate Divides(d: int, x: int)
    requires d > 0
  {
    x % d == 0
  }

  function Pow(b: int, e: nat): int {
    if e == 0 then 1 else b * Pow(b, e - 1)
  }

  /** Equal up to a multiple of m, equal residues. */
  lemma SameResidue(x: int, y: int, k: int, m: int)
    requires m > 0 && x == y + k * m
    ensures x % m == y % m
  {
    assert x == (y / m + k) * m + y % m by {
      assert (y / m + k) * m == (y / m) * m + k * m;
      assert (y / m) * m == m * (y / m);
    }
    Lengths.DivUnique(x, m, y / m + k, y % m);
  }

  lemma Quotient(x: int, m: int)
    requires m > 0
    ensures x == (x / m) * m + x % m && 0 <= x % m < m
  {
    assert (x / m) * m == m * (x / m);
  }

  lemma AddResidues(x: int, y: int, m: int)
    requires m > 0
    ensures (x % m + y % m) % m == (x + y) % m
  {
    Quotient(x, m);
    Quotient(y, m);
    assert (x / m + y / m) * m == (x / m) * m + (y / m) * m;
    SameResidue(x + y, x % m + y % m, x / m + y / m, m);
  }

  lemma ResidueOfSum(x: int, y: int, m: int)
    requires m > 0
    ensures (x % m + y) % m == (x + y) % m
  {
    Quotient(x, m);
    SameResidue(x + y, x % m + y, x / m, m);
  }

  lemma ResidueOfProduct(x: int, y: int, m: int)
    requires m > 0
    ensures ((x % m) * y) % m == (x * y) % m
  {
    Quotient(x, m);
    assert ((x / m) * m + x % m) * y == ((x / m) * y) * m + (x % m) * y by {
      assert ((x / m) * m + x % m) * y == (x / m) * m * y + (x % m) * y;
      assert (x / m) * m * y == ((x / m) * y) * m;
    }
    SameResidue(x * y, (x % m) * y, (x / m) * y, m);
  }

  lemma MulResidues(x: int, y: int, m: int)
    requires m > 0
    ensures ((x % m) * (y % m)) % m == (x * y) % m
  {
    ResidueOfProduct(x, y % m, m);
    assert x * (y % m) == (y % m) * x && x * y == y * x;
    ResidueOfProduct(y, x, m);
  }

  lemma {:induction false} PowAdd(b: int, d: nat, e: nat)
    ensures Pow(b, d + e) == Pow(b, d) * Pow(b, e)
  {
    if d > 0 {
      PowAdd(b, d - 1, e);
      assert b * (Pow(b, d - 1) * Pow(b, e)) == (b * Pow(b, d - 1)) * Pow(b, e);
    }
  }

  lemma {:induction false} PowResidue(b: int, e: nat, m: int)
    requires m > 0
    ensures Pow(b % m, e) % m == Pow(b, e) % m
  {
    if e > 0 {
      PowResidue(b, e - 1, m);
      MulResidues(b % m, Pow(b % m, e - 1), m);
      MulResidues(b, Pow(b, e - 1), m);
      assert (b % m) % m == b % m by { Quotient(b, m); Lengths.DivUnique(b % m, m, 0, b % m); }
    }
  }

  // ── Primes ─────────────────────────────────────────────────────────────────

  ghost predicate IsPrime(q: int) {
    q > 1 && forall d :: 1 < d < q ==> !Divides(d, q)
  }

  lemma DividesProduct(d: int, k: int, x: int)
    requires d > 0 && Divides(d, x)
    ensures Divides(d, k * x)
  {
    ResidueOfProduct(x, k, d);
    assert x * k == k * x;
  }

  lemma DividesDifference(d: int, x: int, y: int)
    requires d > 0 && Divides(d, x) && Divides(d, y)
    ensures Divides(d, x - y)
  {
    Quotient(x, d);
    Quotient(y, d);
    assert (x / d - y / d) * d == (x / d) * d - (y / d) * d;
    SameResidue(x - y, 0, x / d - y / d, d);
  }

  /** Euclid: a prime that divides a product and not a smaller positive factor divides the other. */
  lemma {:induction false} Euclid(q: int, a: int, b: int)
    requires IsPrime(q) && 0 < a < q && Divides(q, a * b)
    ensures Divides(q, b)
    decreases a
  {
    if a > 1 {
      assert !Divides(a, q);
      Quotient(q, a);
      var t, r := q / a, q % a;
      DividesProduct(q, t, a * b);
      DividesProduct(q, b, q) by { Lengths.DivUnique(q, q, 1, 0); }
      DividesDifference(q, b * q, t * (a * b));
      assert r * b == b * q - t * (a * b) by {
        assert (t * a + r) * b == t * (a * b) + r * b;
      }
      Euclid(q, r, b);
    }
  }

  lemma PrimeDividesFactor(q: int, a: int, b: int)
    requires IsPrime(q) && Divides(q, a * b)
    ensures Divides(q, a) || Divides(q, b)
  {
    if !Divides(q, a) {
      Quotient(a, q);
      ResidueOfProduct(a, b, q);
      Euclid(q, a % q, b);
    }
  }

  // ── Fermat's little theorem ────────────────────────────────────────────────

  function Choose(n: nat, k: nat): nat {
    if k == 0 then 1
    else if n == 0 then 0
    else Choose(n - 1, k - 1) + Choose(n - 1, k)
  }

  lemma {:induction false} ChooseAbove(n: nat, k: nat)
    requires k > n
    ensures Choose(n, k) == 0
  {
    if n > 0 {
      ChooseAbove(n - 1, k - 1);
      ChooseAbove(n - 1, k);
    }
  }

  lemma {:induction false} ChooseAll(n: nat)
    ensures Choose(n, n) == 1
  {
    if n > 0 {
      ChooseAll(n - 1);
      ChooseAbove(n - 1, n);
    }
  }

  lemma {:induction false} Absorption(n: nat, k: nat)
    requires n > 0 && k > 0
    ensures k * Choose(n, k) == n * Choose(n - 1, k - 1)
  {
    if n == 1 {
      if k > 1 { ChooseAbove(1, k); ChooseAbove(0, k - 1); }
    } else if k == 1 {
      Absorption(n - 1, 1);
    } else {
      Absorption(n - 1, k);
      Absorption(n - 1, k - 1);
      AbsorptionStep(n, k, Choose(n - 1, k), Choose(n - 1, k - 1), Choose(n - 2, k - 1), Choose(n - 2, k - 2));
    }
  }

  lemma AbsorptionStep(n: int, k: int, x: int, y: int, u: int, v: int)
    requires k * x == (n - 1) * u && (k - 1) * y == (n - 1) * v && y == u + v
    ensures k * (y + x) == n * y
  {
    assert k * (y + x) == (k - 1) * y + y + k * x;
    assert (n - 1) * u + (n - 1) * v == (n - 1) * (u + v);
  }

  /** The first terms of the binomial sum of (a + 1)^n. */
  function BinomialSum(a: int, n: nat, k: nat): int {
    if k == 0 then 0 else BinomialSum(a, n, k - 1) + Choose(n, k - 1) * Pow(a, k - 1)
  }

  lemma {:induction false} Pascal(a: int, n: nat, k: nat)
    requires n > 0 && k > 0
    ensures BinomialSum(a, n, k) == BinomialSum(a, n - 1, k) + a * BinomialSum(a, n - 1, k - 1)
  {
    if k > 1 {
      Pascal(a, n, k - 1);
      var c, d, p := Choose(n - 1, k - 2), Choose(n - 1, k - 1), Pow(a, k - 2);
      PascalStep(a, c, d, p, BinomialSum(a, n - 1, k - 2));
    }
  }

  lemma PascalStep(a: int, c: int, d: int, p: int, s: int)
    ensures (c + d) * (a * p) == d * (a * p) + a * (c * p)
    ensures a * (s + c * p) == a * s + a * (c * p)
  {
    assert a * (c * p) == c * (a * p);
  }

  lemma {:induction false} Binomial(a: int, n: nat)
    ensures Pow(a + 1, n) == BinomialSum(a, n, n + 1)
  {
    if n == 0 {
      assert BinomialSum(a, 0, 1) == BinomialSum(a, 0, 0) + Choose(0, 0) * Pow(a, 0);
    } else {
      Binomial(a, n - 1);
      Pascal(a, n, n + 1);
      ChooseAbove(n - 1, n);
      BinomialStep(a, BinomialSum(a, n - 1, n), Choose(n - 1, n) * Pow(a, n));
    }
  }

  lemma BinomialStep(a: int, s: int, last: int)
    ensures (a + 1) * s + last == (s + last) + a * s
  {}

  lemma {:induction false} MiddleTermsVanish(a: int, q: nat, k: nat)
    requires IsPrime(q) && 1 <= k <= q
    ensures BinomialSum(a, q, k) % q == 1
  {
    if k == 1 {
      assert BinomialSum(a, q, 1) == BinomialSum(a, q, 0) + Choose(q, 0) * Pow(a, 0);
      Lengths.DivUnique(1, q, 0, 1);
    } else {
      MiddleTermsVanish(a, q, k - 1);
      var j := k - 1;
      Absorption(q, j);
      DividesProduct(q, Choose(q - 1, j - 1), q) by { Lengths.DivUnique(q, q, 1, 0); }
      assert Choose(q - 1, j - 1) * q == q * Choose(q - 1, j - 1);
      Euclid(q, j, Choose(q, j));
      DividesProduct(q, Pow(a, j), Choose(q, j));
      assert Pow(a, j) * Choose(q, j) == Choose(q, j) * Pow(a, j);
      AddResidues(BinomialSum(a, q, k - 1), Choose(q, j) * Pow(a, j), q);
      Lengths.DivUnique(1, q, 0, 1);
    }
  }

  lemma {:induction false} FermatPower(a: nat, q: nat)
    requires IsPrime(q)
    ensures Pow(a, q) % q == a % q
  {
    if a == 0 {
      assert Pow(0, q) == 0 * Pow(0, q - 1);
    } else {
      FermatPower(a - 1, q);
      Binomial(a - 1, q);
      MiddleTermsVanish(a - 1, q, q);
      ChooseAll(q);
      var low, top := BinomialSum(a - 1, q, q), Pow(a - 1, q);
      assert Pow(a, q) == low + 1 * top;
      AddResidues(low, top, q);
      AddResidues(1, a - 1, q);
      Lengths.DivUnique(1, q, 0, 1);
    }
  }

  lemma DifferenceDivides(x: int, y: int, m: int)
    requires m > 0
    ensures x % m == y % m <==> Divides(m, x - y)
  {
    Quotient(x, m);
    Quotient(y, m);
    Quotient(x - y, m);
    if x % m == y % m {
      assert (x / m - y / m) * m == (x / m) * m - (y / m) * m;
      SameResidue(x - y, 0, x / m - y / m, m);
    }
    if Divides(m, x - y) {
      SameResidue(x, y, (x - y) / m, m);
    }
  }

  /** Fermat's little theorem. */
  lemma Fermat(a: nat, q: nat)
    requires IsPrime(q) && !Divides(q, a)
    ensures Pow(a, q - 1) % q == 1
  {
    FermatPower(a, q);
    var p := Pow(a, q - 1);
    DifferenceDivides(a * p, a, q);
    assert a * (p - 1) == a * p - a;
    PrimeDividesFactor(q, a, p - 1);
    DifferenceDivides(p, 1, q);
    Lengths.DivUnique(1, q, 0, 1);
  }

  /** The power with exponent q - 2 is an inverse. */
  lemma FermatInverse(a: nat, v: nat, q: nat)
    requires IsPrime(q) && !Divides(q, a) && v == Pow(a, q - 2) % q
    ensures (a * v) % q == 1
  {
    Fermat(a, q);
    ResidueOfProduct(Pow(a, q - 2), a, q);
    assert v * a == a * v && Pow(a, q - 2) * a == a * Pow(a, q - 2);
  }
}
