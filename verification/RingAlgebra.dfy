/** What the ring proof computes with: base-n digits, and polynomials built one linear factor at a time. */
module RingAlgebra {
  import opened Digits
  import opened ScalarElement
  import opened Secp256k1

  /** Digit j of num in base n. */
  function Digit(j: nat, n: nat, num: nat): (d: nat)
    requires n > 0
    ensures d < n
  {
    if j == 0 then num % n else Digit(j - 1, n, num / n)
  }

  /** get_jth: strip j digits, then take the remainder of the last division. */
  method GetJth(j: nat, n: nat, num: nat) returns (d: nat)
    requires n > 0
    ensures d == Digit(j, n, num)
  {
    var i, rem := 0, num;
    while i < j
      invariant 0 <= i <= j && rem >= 0 && Digit(j - i, n, rem) == Digit(j, n, num)
    {
      QuotientNonneg(rem, n);
      rem := rem / n;
      i := i + 1;
    }
    DivModEq(rem, n);
    d := rem - rem / n * n;
  }

  lemma QuotientNonneg(v: int, n: int)
    requires v >= 0 && n > 0
    ensures v / n >= 0
  {
  }

  ghost predicate SameDigit(j: nat, n: nat, s: nat, t: nat)
    requires n > 0
  {
    Digit(j, n, s) == Digit(j, n, t)
  }

  /** Numbers below n^m are determined by their m digits: the ring positions get distinct addresses. */
  lemma {:induction false} DigitsDetermine(m: nat, n: nat, s: nat, t: nat)
    requires n > 0 && s < Power(n, m) && t < Power(n, m)
    requires forall j :: 0 <= j < m ==> SameDigit(j, n, s, t)
    ensures s == t
  {
    if m > 0 {
      DivModEq(s, n);
      DivModEq(t, n);
      QuotientBelowPower(s, n, m);
      QuotientBelowPower(t, n, m);
      forall j | 0 <= j < m - 1
        ensures SameDigit(j, n, s / n, t / n)
      {
        assert SameDigit(j + 1, n, s, t);
      }
      DigitsDetermine(m - 1, n, s / n, t / n);
      assert SameDigit(0, n, s, t);
    }
  }

  lemma QuotientBelowPower(s: nat, n: nat, m: nat)
    requires n > 0 && m > 0 && s < Power(n, m)
    ensures 0 <= s / n < Power(n, m - 1)
  {
    DivModEq(s, n);
    if s / n >= Power(n, m - 1) {
      MulNonneg(s / n - Power(n, m - 1), n);
    }
  }

  /** Coefficient d of the product of the linear factors xs[j] + ds[j]*X. */
  ghost function Coeff(xs: seq<int>, ds: seq<int>, d: int): int
    requires |xs| == |ds|
  {
    if |xs| == 0 then if d == 0 then 1 else 0
    else
      var k := |xs| - 1;
      xs[k] * Coeff(xs[..k], ds[..k], d) + ds[k] * Coeff(xs[..k], ds[..k], d - 1)
  }

  /** The product of the factors at the point x. */
  ghost function Product(xs: seq<int>, ds: seq<int>, x: int): int
    requires |xs| == |ds|
  {
    if |xs| == 0 then 1
    else
      var k := |xs| - 1;
      Product(xs[..k], ds[..k], x) * (xs[k] + ds[k] * x)
  }

  ghost function Factors(ds: seq<int>): int {
    if |ds| == 0 then 1 else Factors(ds[..|ds| - 1]) * ds[|ds| - 1]
  }

  // The coefficients below k, evaluated.
  ghost function Eval(xs: seq<int>, ds: seq<int>, k: nat, x: int): int
    requires |xs| == |ds|
  {
    if k == 0 then 0 else Eval(xs, ds, k - 1, x) + Coeff(xs, ds, k - 1) * Power(x, k - 1)
  }

  lemma {:induction false} CoeffOutside(xs: seq<int>, ds: seq<int>, d: int)
    requires |xs| == |ds| && (d < 0 || d > |xs|)
    ensures Coeff(xs, ds, d) == 0
  {
    if |xs| > 0 {
      var k := |xs| - 1;
      CoeffOutside(xs[..k], ds[..k], d);
      CoeffOutside(xs[..k], ds[..k], d - 1);
    }
  }

  /** The leading coefficient is the product of the slopes. */
  lemma {:induction false} CoeffLeading(xs: seq<int>, ds: seq<int>)
    requires |xs| == |ds|
    ensures Coeff(xs, ds, |xs|) == Factors(ds)
  {
    if |xs| > 0 {
      var k := |xs| - 1;
      CoeffLeading(xs[..k], ds[..k]);
      CoeffOutside(xs[..k], ds[..k], |xs|);
    }
  }

  // One factor more: the coefficients shift and mix.
  lemma {:induction false} EvalStep(xs: seq<int>, ds: seq<int>, k: nat, x: int)
    requires |xs| == |ds| > 0
    ensures var j := |xs| - 1;
      Eval(xs, ds, k, x) == xs[j] * Eval(xs[..j], ds[..j], k, x)
        + ds[j] * x * (if k == 0 then 0 else Eval(xs[..j], ds[..j], k - 1, x))
  {
    var j := |xs| - 1;
    var us, vs := xs[..j], ds[..j];
    if k > 0 {
      EvalStep(xs, ds, k - 1, x);
      if k == 1 {
        CoeffOutside(us, vs, -1);
      } else {
        assert Power(x, k - 1) == x * Power(x, k - 2);
        hide Power, Coeff;
        StepSum(xs[j], ds[j], x, Eval(us, vs, k - 1, x), Eval(us, vs, k - 2, x), Coeff(us, vs, k - 1),
          Coeff(us, vs, k - 2),
          Power(x, k - 1), Power(x, k - 2));
      }
    }
  }

  lemma StepSum(a: int, d: int, x: int, e1: int, e2: int, c1: int, c2: int, p1: int, p2: int)
    requires p1 == x * p2
    ensures a * e1 + d * x * e2 + (a * c1 + d * c2) * p1 == a * (e1 + c1 * p1) + d * x * (e2 + c2 * p2)
  {
    assert d * c2 * (x * p2) == d * x * (c2 * p2);
    assert a * (e1 + c1 * p1) == a * e1 + a * c1 * p1;
    assert d * x * (e2 + c2 * p2) == d * x * e2 + d * x * (c2 * p2);
  }

  /** Evaluating the coefficients gives the product of the factors. */
  lemma {:induction false} EvalIsProduct(xs: seq<int>, ds: seq<int>, x: int)
    requires |xs| == |ds|
    ensures Eval(xs, ds, |xs| + 1, x) == Product(xs, ds, x)
  {
    var j := |xs|;
    if j == 0 {
      assert Eval(xs, ds, 1, x) == Eval(xs, ds, 0, x) + Coeff(xs, ds, 0) * Power(x, 0);
    } else {
      var us, vs := xs[..j - 1], ds[..j - 1];
      EvalStep(xs, ds, j + 1, x);
      EvalIsProduct(us, vs, x);
      CoeffOutside(us, vs, j);
      assert Eval(us, vs, j + 1, x) == Eval(us, vs, j, x) + Coeff(us, vs, j) * Power(x, j);
      assert xs[j - 1] * Product(us, vs, x) + ds[j - 1] * x * Product(us, vs, x)
        == Product(us, vs, x) * (xs[j - 1] + ds[j - 1] * x);
    }
  }

  /** p holds the first coefficients modulo N. */
  ghost predicate Holds(p: seq<Scalar>, xs: seq<int>, ds: seq<int>)
    requires |xs| == |ds|
  {
    forall d :: 0 <= d < |p| ==> Rep(p[d], Coeff(xs, ds, d))
  }

  // One multiplication by a + b*X in place: the unchanged coefficient below is kept in a scratch variable.
  method TimesFactor(p: array<Scalar>, j: nat, a: Scalar, b: Scalar, ghost xs: seq<int>, ghost ds: seq<int>)
    requires |xs| == |ds| == j + 1 && j + 2 <= p.Length && xs[j] == a && ds[j] == b
    requires Holds(p[..j + 1], xs[..j], ds[..j])
    modifies p
    ensures Holds(p[..j + 2], xs, ds)
    ensures p[j + 2..] == old(p[j + 2..])
  {
    ghost var us, vs := xs[..j], ds[..j];
    hide Coeff, Rep;
    var saved := p[0];
    assert Rep(p[..j + 1][0], Coeff(us, vs, 0));
    p[0] := MulS(p[0], a);
    FirstCoefficient(old(p[0]), a, xs, ds);
    ghost var was := old(p[..]);
    for d := 1 to j + 1
      invariant forall i :: 0 <= i < d ==> Rep(p[i], Coeff(xs, ds, i))
      invariant forall i :: d <= i < p.Length ==> p[i] == was[i]
      invariant Rep(saved, Coeff(us, vs, d - 1))
    {
      var tmp := MulS(saved, b);
      ghost var below := saved;
      saved := p[d];
      assert Rep(was[..j + 1][d], Coeff(us, vs, d));
      p[d] := MulS(p[d], a);
      p[d] := AddS(p[d], tmp);
      MiddleCoefficient(saved, below, a, b, d, xs, ds);
    }
    p[j + 1] := MulS(saved, b);
    LastCoefficient(saved, b, xs, ds);
  }

  lemma FirstCoefficient(p0: Scalar, a: Scalar, xs: seq<int>, ds: seq<int>)
    requires |xs| == |ds| > 0 && xs[|xs| - 1] == a
    requires Rep(p0, Coeff(xs[..|xs| - 1], ds[..|xs| - 1], 0))
    ensures Rep(MulS(p0, a), Coeff(xs, ds, 0))
  {
    var us, vs := xs[..|xs| - 1], ds[..|xs| - 1];
    CoeffOutside(us, vs, -1);
    RepSelf(a);
    RepMul(p0, a, Coeff(us, vs, 0), a);
  }

  lemma MiddleCoefficient(upper: Scalar, lower: Scalar, a: Scalar, b: Scalar, d: int, xs: seq<int>, ds: seq<int>)
    requires |xs| == |ds| > 0 && xs[|xs| - 1] == a && ds[|xs| - 1] == b
    requires Rep(upper, Coeff(xs[..|xs| - 1], ds[..|xs| - 1], d))
    requires Rep(lower, Coeff(xs[..|xs| - 1], ds[..|xs| - 1], d - 1))
    ensures Rep(AddS(MulS(upper, a), MulS(lower, b)), Coeff(xs, ds, d))
  {
    var us, vs := xs[..|xs| - 1], ds[..|xs| - 1];
    RepSelf(a);
    RepSelf(b);
    RepMul(upper, a, Coeff(us, vs, d), a);
    RepMul(lower, b, Coeff(us, vs, d - 1), b);
    RepAdd(MulS(upper, a), MulS(lower, b), Coeff(us, vs, d) * a, Coeff(us, vs, d - 1) * b);
  }

  lemma LastCoefficient(lower: Scalar, b: Scalar, xs: seq<int>, ds: seq<int>)
    requires |xs| == |ds| > 0 && ds[|xs| - 1] == b
    requires Rep(lower, Coeff(xs[..|xs| - 1], ds[..|xs| - 1], |xs| - 1))
    ensures Rep(MulS(lower, b), Coeff(xs, ds, |xs|))
  {
    var us, vs := xs[..|xs| - 1], ds[..|xs| - 1];
    CoeffOutside(us, vs, |xs|);
    RepSelf(b);
    RepMul(lower, b, Coeff(us, vs, |xs| - 1), b);
  }
}
