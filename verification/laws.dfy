/** Laws that several proofs share. */
module Laws {

  /** Division with remainder is unique. */
  lemma DivisionIsUnique(a: int, d: int, q: int, r: int)
    requires a == d * q + r && 0 <= r < d
    ensures a / d == q && a % d == r
  {
    var e := q - a / d;
    assert d * (a / d) + a % d == a;
    assert d * e == a % d - r;
    assert e >= 1 ==> d * e >= d;
    assert e <= -1 ==> d * e <= -d;
  }

  lemma Associate<T>(a: seq<T>, b: seq<T>, c: seq<T>)
    ensures (a + b) + c == a + (b + c)
  {
  }

  /** The sum of a weight over the elements of a sequence. */
  function Total<T>(weight: T -> nat, xs: seq<T>): nat {
    if xs == [] then 0 else weight(xs[|xs| - 1]) + Total(weight, xs[..|xs| - 1])
  }

  lemma {:induction false} TotalUpdate<T>(weight: T -> nat, xs: seq<T>, i: nat, x: T)
    requires i < |xs|
    ensures Total(weight, xs[i := x]) == Total(weight, xs) - weight(xs[i]) + weight(x)
  {
    var n := |xs| - 1;
    if i == n {
      assert xs[i := x][..n] == xs[..n];
    } else {
      TotalUpdate(weight, xs[..n], i, x);
      assert xs[i := x][..n] == xs[..n][i := x];
    }
  }

  /** When no element weighs more than d above its counterpart, the sums differ by at most d an element. */
  lemma {:induction false} TotalsApart<T>(weight: T -> nat, xs: seq<T>, ys: seq<T>, d: nat)
    requires |xs| == |ys| && forall i :: 0 <= i < |xs| ==> weight(xs[i]) <= weight(ys[i]) + d
    ensures Total(weight, xs) <= Total(weight, ys) + d * |xs|
  {
    if xs != [] {
      var n := |xs| - 1;
      TotalsApart(weight, xs[..n], ys[..n], d);
      assert d * |xs| == d * n + d;
    }
  }

  lemma {:induction false} TotalBound<T>(weight: T -> nat, xs: seq<T>, d: nat)
    requires forall i :: 0 <= i < |xs| ==> weight(xs[i]) <= d
    ensures Total(weight, xs) <= d * |xs|
  {
    if xs != [] {
      var n := |xs| - 1;
      TotalBound(weight, xs[..n], d);
      assert d * |xs| == d * n + d;
    }
  }
}
