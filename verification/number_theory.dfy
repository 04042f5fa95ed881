/** Divisibility, primes and unique factorisation: what the prime factorisation programs are measured against. */
module NumberTheory {

  predicate Divides(d: nat, n: nat)
    requires 1 <= d
  {
    n % d == 0
  }

  ghost predicate Prime(n: nat) {
    2 <= n && forall d :: 2 <= d < n ==> !Divides(d, n)
  }

  /** No number from 2 up to, not including, k divides n. */
  ghost predicate Rough(n: nat, k: nat) {
    forall d :: 2 <= d < k ==> !Divides(d, n)
  }

  lemma MultipleIsDivisible(d: nat, q: nat, n: nat)
    requires 1 <= d && n == d * q
    ensures Divides(d, n) && n / d == q
  {
    var r: int := q - n / d;
    assert n == d * (n / d) + n % d;
    assert d * r == n % d;
    assert r >= 1 ==> d * r >= d;
    assert r <= -1 ==> d * r <= 0 - d;
  }

  lemma DivisorDivides(d: nat, n: nat)
    requires 1 <= d && Divides(d, n)
    ensures n == d * (n / d)
  {
  }

  lemma DividesTransitive(c: nat, d: nat, n: nat)
    requires 1 <= c && 1 <= d && Divides(c, d) && Divides(d, n)
    ensures Divides(c, n)
  {
    DivisorDivides(c, d);
    DivisorDivides(d, n);
    assert n == c * ((d / c) * (n / d)) by {
      assert (c * (d / c)) * (n / d) == c * ((d / c) * (n / d));
    }
    MultipleIsDivisible(c, (d / c) * (n / d), n);
  }

  lemma QuotientBounds(n: nat, d: nat, q: nat)
    requires 1 <= n && 2 <= d && n == d * q
    ensures 1 <= q < n
  {
    assert q == 0 ==> d * q == 0;
    assert d * q >= 2 * q;
  }

  /** What divides n / d divides n. */
  lemma QuotientIsRough(n: nat, d: nat, k: nat)
    requires 1 <= n && 2 <= d && Divides(d, n) && Rough(n, k)
    ensures Rough(n / d, k) && 1 <= n / d < n
  {
    hide Divides;
    DivisorDivides(d, n);
    QuotientBounds(n, d, n / d);
    MultipleIsDivisible(n / d, d, n);
    forall c | 2 <= c < k
      ensures !Divides(c, n / d)
    {
      if Divides(c, n / d) { DividesTransitive(c, n / d, n); }
    }
  }

  // ---------------------------------------------------------------- the canonical factorisation

  /** The least number from k on that divides n. */
  function LeastFrom(n: nat, k: nat): (d: nat)
    requires 2 <= k <= n && Rough(n, k)
    ensures k <= d <= n && Divides(d, n) && Rough(n, d)
    decreases n - k
  {
    if Divides(k, n) then k else LeastFrom(n, k + 1)
  }

  function LeastDivisor(n: nat): (d: nat)
    requires 2 <= n
    ensures 2 <= d <= n && Divides(d, n) && Rough(n, d)
  {
    LeastFrom(n, 2)
  }

  lemma LeastDivisorIs(n: nat, d: nat)
    requires 2 <= n && 2 <= d && Divides(d, n) && Rough(n, d)
    ensures LeastDivisor(n) == d
  {
    if n < d { assert Divides(n, n); }
  }

  lemma RoughDivisorIsPrime(n: nat, d: nat)
    requires 1 <= n && 2 <= d && Divides(d, n) && Rough(n, d)
    ensures Prime(d)
  {
    forall c | 2 <= c < d
      ensures !Divides(c, d)
    {
      if Divides(c, d) { DividesTransitive(c, d, n); }
    }
  }

  /** The prime factors of n, taken least first. */
  function Factors(n: nat): (fs: seq<nat>)
    requires 1 <= n
  {
    if n == 1 then []
    else
      var d := LeastDivisor(n);
      QuotientIsRough(n, d, d);
      [d] + Factors(n / d)
  }

  function Product(fs: seq<nat>): nat {
    if fs == [] then 1 else fs[0] * Product(fs[1..])
  }

  ghost predicate Nondecreasing(fs: seq<nat>) {
    forall i, j :: 0 <= i < j < |fs| ==> fs[i] <= fs[j]
  }

  ghost predicate AllPrime(fs: seq<nat>) {
    forall i :: 0 <= i < |fs| ==> Prime(fs[i])
  }

  /** The canonical factorisation is a nondecreasing list of primes with product n. */
  lemma {:induction false} FactorsAreAFactorisation(n: nat)
    requires 1 <= n
    ensures Product(Factors(n)) == n && AllPrime(Factors(n)) && Nondecreasing(Factors(n))
    ensures forall k, i :: Rough(n, k) && 0 <= i < |Factors(n)| ==> k <= Factors(n)[i]
  {
    if n > 1 {
      var d := LeastDivisor(n);
      var rest := Factors(n / d);
      QuotientIsRough(n, d, d);
      FactorsAreAFactorisation(n / d);
      DivisorDivides(d, n);
      RoughDivisorIsPrime(n, d);
      assert Factors(n)[1..] == rest;
      forall k, i | Rough(n, k) && 0 <= i < |Factors(n)|
        ensures k <= Factors(n)[i]
      {
        assert k <= d;
        assert i > 0 ==> Factors(n)[i] == rest[i - 1] && d <= rest[i - 1];
      }
    }
  }

  // ---------------------------------------------------------------- uniqueness

  /** Euclid's lemma. */
  lemma {:induction false} Euclid(p: nat, a: nat, b: nat)
    requires Prime(p) && Divides(p, a * b)
    ensures Divides(p, a) || Divides(p, b)
    decreases a
  {
    hide Divides;
    if Divides(p, a) {
    } else if a >= p {
      MultipleIsDivisible(p, b, p * b);
      ReducedProduct(p, a, p, b);
      RemainderIsNot(p, a);
      Euclid(p, a % p, b);
    } else if a <= 1 {
      MultipleIsDivisible(p, 0, 0);
      assert a == 1 && a * b == b;
    } else {
      MultipleIsDivisible(p, b, p * b);
      ReducedProduct(p, p, a, b);
      RemainderIsNot(a, p);
      SmallIsNot(p, p % a);
      Euclid(p, p % a, b);
    }
  }

  lemma SmallIsNot(p: nat, r: nat)
    requires 1 <= r < p
    ensures !Divides(p, r)
  {
  }

  /** The remainder of a number that d does not divide is not divisible by d either. */
  lemma RemainderIsNot(d: nat, n: nat)
    requires 1 <= d && !Divides(d, n)
    ensures 1 <= n % d < d && !Divides(d, n % d)
  {
  }

  /** If p divides both x * b and y * b, it divides (x mod y) * b. */
  lemma ReducedProduct(p: nat, x: nat, y: nat, b: nat)
    requires 1 <= p && 1 <= y && Divides(p, x * b) && Divides(p, y * b)
    ensures Divides(p, (x % y) * b)
  {
    var q, s, t := x / y, x * b / p, y * b / p;
    DivisorDivides(p, x * b);
    DivisorDivides(p, y * b);
    assert x % y == x - y * q;
    assert (x % y) * b == x * b - q * (y * b) by {
      assert (x - y * q) * b == x * b - (y * q) * b;
      assert (y * q) * b == q * (y * b);
    }
    assert (x % y) * b == p * (s - q * t) by {
      assert q * (p * t) == p * (q * t);
      assert p * s - p * (q * t) == p * (s - q * t);
    }
    assert s - q * t >= 0;
    MultipleIsDivisible(p, s - q * t, (x % y) * b);
  }

  lemma {:induction false} PrimeOfProduct(q: nat, fs: seq<nat>)
    requires Prime(q) && AllPrime(fs) && Divides(q, Product(fs))
    ensures exists i :: 0 <= i < |fs| && fs[i] == q
  {
    SmallIsNot(q, 1);
    if fs != [] {
      Euclid(q, fs[0], Product(fs[1..]));
      if Divides(q, fs[0]) {
        assert Prime(fs[0]);
        PrimeDivisorOfPrime(q, fs[0]);
      } else {
        PrimeOfProduct(q, fs[1..]);
        var i :| 0 <= i < |fs[1..]| && fs[1..][i] == q;
        assert fs[i + 1] == q;
      }
    }
  }

  lemma PrimeDivisorOfPrime(q: nat, p: nat)
    requires Prime(q) && Prime(p) && Divides(q, p)
    ensures q == p
  {
    if p < q { SmallIsNot(q, p); }
  }

  lemma HeadDivides(fs: seq<nat>)
    requires AllPrime(fs) && fs != []
    ensures 2 <= fs[0] <= Product(fs) && Divides(fs[0], Product(fs)) && Product(fs) / fs[0] == Product(fs[1..])
  {
    hide Divides, Product;
    assert Prime(fs[0]);
    ProductIsPositive(fs[1..]);
    ProductStep(fs);
    MultipleIsDivisible(fs[0], Product(fs[1..]), Product(fs));
    MultipleIsLarger(fs[0], Product(fs[1..]));
  }

  lemma ProductStep(fs: seq<nat>)
    requires fs != []
    ensures Product(fs) == fs[0] * Product(fs[1..])
  {
  }

  lemma MultipleIsLarger(p: nat, q: nat)
    requires 1 <= q
    ensures p <= p * q
  {
  }

  /** The head of a nondecreasing list of primes is the least divisor of its product. */
  lemma HeadIsLeast(fs: seq<nat>)
    requires AllPrime(fs) && Nondecreasing(fs) && fs != [] && 2 <= Product(fs)
    ensures LeastDivisor(Product(fs)) == fs[0]
  {
    hide Divides, Product;
    HeadDivides(fs);
    var q := LeastDivisor(Product(fs));
    RoughDivisorIsPrime(Product(fs), q);
    PrimeOfProduct(q, fs);
    var i :| 0 <= i < |fs| && fs[i] == q;
    assert fs[0] <= q;
  }

  lemma FactorsStep(n: nat)
    requires 2 <= n
    ensures 1 <= n / LeastDivisor(n) && Factors(n) == [LeastDivisor(n)] + Factors(n / LeastDivisor(n))
  {
    QuotientIsRough(n, LeastDivisor(n), LeastDivisor(n));
  }

  lemma {:induction false} PrimeListIsCanonical(fs: seq<nat>)
    requires AllPrime(fs) && Nondecreasing(fs)
    ensures 1 <= Product(fs) && fs == Factors(Product(fs))
  {
    hide Factors, Divides;
    if fs == [] {
      NoFactors();
    } else {
      hide Product;
      HeadDivides(fs);
      HeadIsLeast(fs);
      PrimeListIsCanonical(fs[1..]);
      FactorsStep(Product(fs));
      assert fs == [fs[0]] + fs[1..];
    }
  }

  lemma NoFactors()
    ensures Factors(1) == []
  {
  }

  /** Unique factorisation: any nondecreasing list of primes with product n is the canonical one. */
  lemma FactorisationIsUnique(n: nat, fs: seq<nat>)
    requires 1 <= n && Product(fs) == n && AllPrime(fs) && Nondecreasing(fs)
    ensures fs == Factors(n)
  {
    PrimeListIsCanonical(fs);
  }

  lemma {:induction false} ProductIsPositive(fs: seq<nat>)
    requires AllPrime(fs)
    ensures 1 <= Product(fs)
  {
    if fs != [] {
      hide Product;
      assert Prime(fs[0]);
      ProductIsPositive(fs[1..]);
      ProductStep(fs);
      MultipleIsLarger(fs[0], Product(fs[1..]));
    }
  }
}
