/**
  The primality test and the two prime factorisation programs, on unbounded integers and with the
  exact integer ceiling of the square root.  Both programs are proved to print the canonical
  factorisation, so they print the same.
 */
module Primes {
  import opened NumberTheory

  /** The square root of n, rounded up. */
  function CeilSqrt(n: nat): (s: nat)
    ensures n <= s * s
    ensures s == 0 || (s - 1) * (s - 1) < n
  {
    CeilSqrtFrom(n, 0)
  }

  function CeilSqrtFrom(n: nat, k: nat): (s: nat)
    requires k == 0 || (k - 1) * (k - 1) < n
    ensures n <= s * s
    ensures s == 0 || (s - 1) * (s - 1) < n
    decreases n - k
  {
    if n <= k * k then k
    else
      assert k <= k * k;
      CeilSqrtFrom(n, k + 1)
  }

  /** Without a divisor up to its rounded-up square root, a number is prime. */
  lemma RoughIsPrime(n: nat, m: nat, s: nat)
    requires 2 <= n <= m <= s * s && Rough(n, s + 1)
    ensures Prime(n)
  {
    forall d | 2 <= d < n
      ensures !Divides(d, n)
    {
      if Divides(d, n) {
        var e := n / d;
        DivisorDivides(d, n);
        assert 2 <= e by {
          assert e != 0 && e != 1;
        }
        MultipleIsDivisible(e, d, n);
        assert d > s && e > s;
        BothLarge(d, e, s);
      }
    }
  }

  lemma BothLarge(d: nat, e: nat, s: nat)
    requires d > s && e > s
    ensures d * e > s * s
  {
    assert d * e >= (s + 1) * e >= (s + 1) * (s + 1);
  }

  lemma OddDivisorsOnly(n: nat, d: nat)
    requires n % 2 == 1 && 1 <= d && Divides(d, n)
    ensures d % 2 == 1
  {
    if d % 2 == 0 {
      MultipleIsDivisible(2, d / 2, d);
      DividesTransitive(2, d, n);
    }
  }

  /** An odd number without divisors below an odd k has none below k + 2 once k is ruled out. */
  lemma NextOdd(n: nat, k: nat)
    requires n % 2 == 1 && k % 2 == 1 && Rough(n, k) && !Divides(k, n)
    ensures Rough(n, k + 2)
  {
    if k + 1 >= 2 && Divides(k + 1, n) { OddDivisorsOnly(n, k + 1); }
  }

  /** Whether n is prime, where 1 counts as prime. */
  method IsPrime(n: nat) returns (r: bool)
    requires 1 <= n
    ensures r <==> n == 1 || Prime(n)
  {
    if n == 1 || n == 2 {
      return true;
    }
    if n % 2 == 0 {
      assert Divides(2, n);
      return false;
    }
    var k := 3;
    var sqrtn: int := CeilSqrt(n);
    RootIsSmaller(n);
    var notDivisibleYet := true;
    while notDivisibleYet && k <= sqrtn
      invariant 3 <= k && k % 2 == 1
      invariant notDivisibleYet ==> Rough(n, k)
      invariant !notDivisibleYet ==> !Prime(n)
      decreases notDivisibleYet, sqrtn + 1 - k
    {
      if n % k == 0 {
        assert Divides(k, n);
        notDivisibleYet := false;
      } else {
        NextOdd(n, k);
      }
      k := k + 2;
    }
    if notDivisibleYet {
      RoughIsPrime(n, n, sqrtn);
    }
    return notDivisibleYet;
  }

  lemma RootIsSmaller(n: nat)
    requires 3 <= n
    ensures CeilSqrt(n) < n
  {
    var s := CeilSqrt(n);
    assert s >= 3 ==> (s - 1) * (s - 1) >= 2 * (s - 1);
  }

  // ---------------------------------------------------------------- the printed factorisation

  const DIGITS := "0123456789"

  /** The decimal form of n. */
  function Decimal(n: nat): string {
    if n < 10 then [DIGITS[n]] else Decimal(n / 10) + [DIGITS[n % 10]]
  }

  /** The factors separated by " * ". */
  function Joined(fs: seq<nat>): string {
    if fs == [] then ""
    else if |fs| == 1 then Decimal(fs[0])
    else Joined(fs[..|fs| - 1]) + " * " + Decimal(fs[|fs| - 1])
  }

  /** What both programs print: "1" for 1, otherwise the prime factors in nondecreasing order. */
  function Printed(n: nat): string
    requires 1 <= n
  {
    if n == 1 then "1" else Joined(Factors(n))
  }

  /** What a program has printed after dividing out fs, with number left: a separator follows unless that is 1. */
  function SoFar(fs: seq<nat>, number: nat): string {
    Joined(fs) + if fs == [] || number == 1 then "" else " * "
  }

  lemma SoFarAppend(fs: seq<nat>, number: nat, d: nat)
    requires number != 1
    ensures SoFar(fs, number) + Decimal(d) == Joined(fs + [d])
  {
    assert (fs + [d])[..|fs|] == fs;
  }

  /** fs was divided out of n, number is left, and number has no divisor below k. */
  ghost predicate Divided(n: nat, fs: seq<nat>, number: nat, k: nat) {
    && 1 <= n && 1 <= number <= n && 2 <= k
    && Factors(n) == fs + Factors(number)
    && Rough(number, k)
  }

  /** Dividing by the least candidate takes off the next canonical factor. */
  lemma DivideOut(n: nat, fs: seq<nat>, number: nat, k: nat)
    requires Divided(n, fs, number, k) && number % k == 0
    ensures Divided(n, fs + [k], number / k, k) && 1 <= number / k < number
  {
    assert Divides(k, number);
    assert number != 1;
    LeastDivisorIs(number, k);
    QuotientIsRough(number, k, k);
    assert Factors(number) == [k] + Factors(number / k);
    assert fs + ([k] + Factors(number / k)) == (fs + [k]) + Factors(number / k);
  }

  lemma DividedBounds(n: nat, fs: seq<nat>, number: nat, k: nat)
    requires Divided(n, fs, number, k)
    ensures 1 <= number <= n && 2 <= k
  {
  }

  /** A candidate that is not prime divides nothing that is left. */
  lemma DividedSkips(n: nat, fs: seq<nat>, number: nat, k: nat)
    requires Divided(n, fs, number, k) && !Prime(k)
    ensures !Divides(k, number)
  {
    if Divides(k, number) { RoughDivisorIsPrime(number, k); }
  }

  /** When what is left is 1 or prime, printing it completes the factorisation. */
  lemma Finish(n: nat, fs: seq<nat>, number: nat, k: nat)
    requires Divided(n, fs, number, k) && (number == 1 || Prime(number))
    ensures SoFar(fs, number) + (if number > 1 then Decimal(number) else "") == Joined(Factors(n))
  {
    if number > 1 {
      hide Divides;
      SoFarAppend(fs, number, number);
      MultipleIsDivisible(number, 1, number);
      LeastDivisorIs(number, number);
      assert Factors(number) == [number];
    } else {
      assert fs + [] == fs;
    }
  }

  lemma OddQuotient(number: nat, i: nat)
    requires 1 <= i && number % i == 0 && number % 2 == 1
    ensures (number / i) % 2 == 1
  {
    DivisorDivides(i, number);
    assert number / i >= 1;
    MultipleIsDivisible(number / i, i, number);
    OddDivisorsOnly(number, number / i);
  }

  lemma Begin(n: nat)
    requires 1 <= n
    ensures Divided(n, [], n, 2) && SoFar([], n) == ""
  {
    assert [] + Factors(n) == Factors(n);
  }

  /** Once k has been divided out, the next candidate is k + 1, or k + 2 for an odd k and an odd rest. */
  lemma Advance(n: nat, fs: seq<nat>, number: nat, k: nat)
    requires Divided(n, fs, number, k) && !Divides(k, number)
    ensures Divided(n, fs, number, k + 1)
    ensures k % 2 == 1 && number % 2 == 1 ==> Divided(n, fs, number, k + 2)
    ensures k == 2 ==> number % 2 == 1
  {
    if k % 2 == 1 && number % 2 == 1 { NextOdd(number, k); }
  }

  /** Past the rounded-up square root of n, what is left is 1 or prime. */
  lemma LeftoverIsPrime(n: nat, fs: seq<nat>, number: nat, k: nat)
    requires Divided(n, fs, number, k) && CeilSqrt(n) < k
    ensures number == 1 || Prime(number)
  {
    if number > 1 { RoughIsPrime(number, n, CeilSqrt(n)); }
  }

  /** Divide i out of number as often as it goes, printing it each time. */
  method DivideAll(n: nat, result: string, number: nat, i: nat, ghost fs: seq<nat>)
    returns (result': string, number': nat, ghost fs': seq<nat>)
    requires Divided(n, fs, number, i) && result == SoFar(fs, number)
    ensures Divided(n, fs', number', i) && result' == SoFar(fs', number') && !Divides(i, number') && 1 <= number'
    ensures number % 2 == 1 ==> number' % 2 == 1
  {
    result', number', fs' := result, number, fs;
    while number' % i == 0
      invariant Divided(n, fs', number', i) && result' == SoFar(fs', number')
      invariant number % 2 == 1 ==> number' % 2 == 1
      decreases number'
    {
      DivideOut(n, fs', number', i);
      if number % 2 == 1 {
        OddQuotient(number', i);
      }
      SoFarAppend(fs', number', i);
      result' := result' + Decimal(i);
      number' := number' / i;
      if number' != 1 {
        result' := result' + " * ";
      }
      fs' := fs' + [i];
    }
  }

  /** Trial division by the primes up to the rounded-up square root. */
  method PrimeFactorization(n: nat) returns (result: string)
    requires 1 <= n
    ensures result == Printed(n)
  {
    if n == 1 {
      return "1";
    }
    hide Divided, SoFar, Divides, Rough, Factors, Joined, CeilSqrt;
    Begin(n);
    result := "";
    var sqrtn := CeilSqrt(n);
    var number := n;
    ghost var fs := [];
    var i := 2;
    while i <= sqrtn
      invariant Divided(n, fs, number, i) && result == SoFar(fs, number)
      invariant 2 <= i && 1 <= number
    {
      DividedBounds(n, fs, number, i);
      var prime := IsPrime(i);
      if prime {
        result, number, fs := DivideAll(n, result, number, i, fs);
      } else {
        DividedSkips(n, fs, number, i);
      }
      if number == 1 {
        break;
      }
      Advance(n, fs, number, i);
      i := i + 1;
    }
    if i > sqrtn {
      LeftoverIsPrime(n, fs, number, i);
    }
    Finish(n, fs, number, i);
    if number > 1 {
      result := result + Decimal(number);
    }
  }

  /** The faster program: primes at once, then 2, then odd primes, stopping as soon as what is left is prime. */
  method FasterPrimeFactorization(n: nat) returns (result: string)
    requires 1 <= n
    ensures result == Printed(n)
  {
    if n == 1 {
      return "1";
    }
    hide Divided, SoFar, Divides, Rough, Factors, Joined, CeilSqrt;
    Begin(n);
    var prime := IsPrime(n);
    if prime {
      Finish(n, [], n, 2);
      return Decimal(n) + "";
    }
    result := "";
    var sqrtn := CeilSqrt(n);
    var number := n;
    ghost var fs := [];
    result, number, fs := DivideAll(n, result, number, 2, fs);
    Advance(n, fs, number, 2);
    var i := 3;
    while i <= sqrtn + 2
      invariant Divided(n, fs, number, i) && result == SoFar(fs, number)
      invariant 3 <= i && i % 2 == 1 && number % 2 == 1
    {
      var iPrime := IsPrime(i);
      if iPrime {
        result, number, fs := DivideAll(n, result, number, i, fs);
      } else {
        DividedSkips(n, fs, number, i);
      }
      if number == 1 {
        break;
      }
      var rest := IsPrime(number);
      if rest {
        break;
      }
      Advance(n, fs, number, i);
      i := i + 2;
    }
    if i > sqrtn + 2 {
      LeftoverIsPrime(n, fs, number, i);
    }
    Finish(n, fs, number, i);
    if number > 1 {
      result := result + Decimal(number);
    }
  }

  // ---------------------------------------------------------------- reading what is printed

  predicate AllDigits(s: string) {
    forall i :: 0 <= i < |s| ==> '0' <= s[i] <= '9'
  }

  /** The number a string of digits stands for, read from the left. */
  function ValueOf(s: string): int {
    if s == "" then 0 else 10 * ValueOf(s[..|s| - 1]) + (s[|s| - 1] as int - '0' as int)
  }

  lemma DigitIs(d: nat)
    requires d < 10
    ensures '0' <= DIGITS[d] <= '9' && DIGITS[d] as int - '0' as int == d
  {
  }

  /** Decimal writes digits, without a leading zero, and reading them gives the number back. */
  lemma {:induction false} DecimalIsRead(n: nat)
    ensures var s := Decimal(n);
            && s != "" && AllDigits(s) && ValueOf(s) == n
            && (1 <= n ==> s[0] != '0') && (n < 10 ==> |s| == 1)
  {
    hide ValueOf;
    var s := Decimal(n);
    DigitIs(n % 10);
    ReadStep(s);
    if n < 10 {
      assert s[..0] == "";
      ReadNothing();
    } else {
      DecimalIsRead(n / 10);
      assert s[..|s| - 1] == Decimal(n / 10) && s[|s| - 1] == DIGITS[n % 10];
    }
  }

  lemma ReadNothing()
    ensures ValueOf("") == 0
  {
  }

  lemma ReadStep(s: string)
    ensures s != "" ==> ValueOf(s) == 10 * ValueOf(s[..|s| - 1]) + (s[|s| - 1] as int - '0' as int)
  {
  }

  /** The parts of a string between the separators, cur being what was read of the first. */
  function Parts(s: string, cur: string): seq<string>
    decreases |s|
  {
    if s == "" then [cur]
    else if " * " <= s then [cur] + Parts(s[3..], "")
    else Parts(s[1..], cur + [s[0]])
  }

  /** Digits are read up to what comes after them. */
  lemma {:induction false} PartsOfDigits(d: string, rest: string, cur: string)
    requires AllDigits(d)
    ensures Parts(d + rest, cur) == Parts(rest, cur + d)
    decreases |d|
  {
    if d == "" {
      assert d + rest == rest && cur + d == cur;
    } else {
      assert (d + rest)[1..] == d[1..] + rest && (d + rest)[0] == d[0];
      assert d[0] != ' ';
      PartsOfDigits(d[1..], rest, cur + [d[0]]);
      assert cur + [d[0]] + d[1..] == cur + d;
    }
  }

  lemma PartsOfSeparator(rest: string, cur: string)
    ensures Parts(" * " + rest, cur) == [cur] + Parts(rest, "")
  {
    assert (" * " + rest)[3..] == rest && (" * " + rest)[..3] == " * ";
  }

  function Decimals(fs: seq<nat>): (r: seq<string>)
    ensures |r| == |fs| && forall i :: 0 <= i < |fs| ==> r[i] == Decimal(fs[i])
  {
    seq(|fs|, i requires 0 <= i < |fs| => Decimal(fs[i]))
  }

  lemma DecimalsStep(fs: seq<nat>)
    requires fs != []
    ensures Decimals(fs) == [Decimal(fs[0])] + Decimals(fs[1..])
  {
  }

  /** Joined, read from the left: the first factor, and after a separator the others. */
  lemma {:induction false} JoinedFromLeft(fs: seq<nat>)
    requires |fs| >= 2
    ensures Joined(fs) == Decimal(fs[0]) + " * " + Joined(fs[1..])
  {
    var n := |fs| - 1;
    hide Decimal;
    if n == 1 {
      assert fs[..1] == [fs[0]] && fs[1..] == [fs[1]];
    } else {
      JoinedFromLeft(fs[..n]);
      assert fs[..n][1..] == fs[1..][..n - 1] && fs[1..][n - 1] == fs[n];
      assert Joined(fs[1..]) == Joined(fs[1..][..n - 1]) + " * " + Decimal(fs[n]);
      var a, b, c := Decimal(fs[0]) + " * ", Joined(fs[1..][..n - 1]), " * " + Decimal(fs[n]);
      assert (a + b) + c == a + (b + c);
    }
  }

  lemma {:induction false} JoinedIsRead(fs: seq<nat>)
    requires fs != []
    ensures Parts(Joined(fs), "") == Decimals(fs)
    decreases |fs|
  {
    hide Decimal;
    DecimalIsRead(fs[0]);
    var d := Decimal(fs[0]);
    assert "" + d == d;
    if |fs| == 1 {
      assert d + "" == d;
      PartsOfDigits(d, "", "");
    } else {
      JoinedFromLeft(fs);
      hide Joined, Parts, ValueOf, Decimals;
      DecimalsStep(fs);
      var more := Joined(fs[1..]);
      assert Joined(fs) == d + (" * " + more);
      PartsOfDigits(d, " * " + more, "");
      PartsOfSeparator(more, d);
      JoinedIsRead(fs[1..]);
    }
  }

  /**
    Splitting what is printed at the separators and reading each part gives the canonical factorisation:
    every part is a number without a leading zero.
   */
  lemma PrintedIsRead(n: nat)
    requires 2 <= n
    ensures var parts := Parts(Printed(n), "");
            && |parts| == |Factors(n)|
            && forall i :: 0 <= i < |parts| ==>
                 && AllDigits(parts[i]) && parts[i] != "" && parts[i][0] != '0'
                 && ValueOf(parts[i]) == Factors(n)[i]
    ensures Printed(1) == "1"
  {
    hide Decimal;
    FactorsAreAFactorisation(n);
    JoinedIsRead(Factors(n));
    forall i | 0 <= i < |Factors(n)|
      ensures var part := Decimal(Factors(n)[i]);
              AllDigits(part) && part != "" && part[0] != '0' && ValueOf(part) == Factors(n)[i]
    {
      DecimalIsRead(Factors(n)[i]);
    }
  }

  /** The two programs print the same for every n. */
  method FactorBoth(n: nat) returns (slow: string, fast: string)
    requires 1 <= n
    ensures slow == fast == Printed(n)
  {
    slow := PrimeFactorization(n);
    fast := FasterPrimeFactorization(n);
  }
}
