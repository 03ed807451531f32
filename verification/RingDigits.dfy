/** Why responses that lie on lines and answer the bit equation spell out a ring position: the slopes are bits, each row
    has exactly one, and their places are the digits of the position. */
module RingDigits {
  import opened Digits
  import opened Secp256k1
  import opened ScalarElement
  import opened RingAlgebra
  import opened RingSpec
  import opened RingCodec

  ghost predicate Vanishes(v: int) {
    Rep(0, v)
  }

  lemma VanishSum(u: int, c: int, v: int)
    requires Vanishes(u) && Vanishes(v)
    ensures Vanishes(u + c * v)
  {
    var q := Representative(0, u);
    var p := Representative(0, v);
    hide ToScalar;
    assert c * (p * N) == c * p * N;
    assert (q + c * p) * N == q * N + c * p * N;
    ModShift(0, q + c * p);
    RepSelf(0);
  }

  lemma RepVanish(x: Scalar, v: int)
    ensures Rep(x, v) <==> Vanishes(x - v)
  {
    RepSelf(x);
    RepSelf(0);
    if Vanishes(x - v) {
      var q := Representative(0, x - v);
      ModShift(x, -q);
    }
    if Rep(x, v) {
      var q := Representative(x, v);
      ModShift(0, -q);
    }
  }

  /** The order has no zero divisors: every non-zero scalar has an inverse. */
  lemma CancelFactor(inv: Scalar -> Scalar, x: Scalar, y: Scalar, v: int)
    requires IsScalarInverse(inv) && x != y && Vanishes(((x as int) - y) * v)
    ensures Vanishes(v)
  {
    var d := (x as int) - y;
    var shift := if d > 0 then 0 else N;
    var e := d + shift;
    assert InvertsScalar(inv, e);
    var i := inv(e);
    assert MulS(e, i) == 1;
    RepVanish(1, e * i);
    VanishMultiples();
    hide Vanishes, ToScalar, IsScalarInverse;
    CancelInverse(i, d, shift, v);
  }

  lemma VanishMultiples()
    ensures Vanishes(0) && Vanishes(N)
  {
    RepSelf(0);
    ModShift(0, 1);
  }

  // i inverts d up to a multiple of the order.
  lemma CancelInverse(i: int, d: int, shift: int, v: int)
    requires Vanishes(1 - (d + shift) * i) && Vanishes(shift) && Vanishes(d * v)
    ensures Vanishes(v)
  {
    hide Vanishes;
    var w, u := 1 - (d + shift) * i, d * v;
    VanishMultiples();
    VanishSum(0, i, u);
    VanishSum(i * u, i * v, shift);
    VanishSum(i * u + i * v * shift, v, w);
    ExpandInverse(i, d, shift, v);
  }

  lemma ExpandInverse(i: int, d: int, shift: int, v: int)
    ensures i * (d * v) + i * v * shift + v * (1 - (d + shift) * i) == v
  {
    assert (d + shift) * i == d * i + shift * i;
    assert v * (1 - (d * i + shift * i)) == v - v * (d * i) - v * (shift * i);
    assert v * (d * i) == i * (d * v) && v * (shift * i) == i * v * shift;
  }

  function Quadratic(a: int, b: int, c: int, x: int): int {
    a * (x * x) + b * x + c
  }

  lemma Secant(a: int, b: int, c: int, x: int, y: int)
    ensures Quadratic(a, b, c, x) - Quadratic(a, b, c, y) == (x - y) * (a * (x + y) + b)
  {
    assert (x - y) * (a * (x + y)) == a * (x * x) - a * (y * y) by {
      assert (x - y) * (x + y) == x * x - y * y;
      assert (x - y) * (a * (x + y)) == a * ((x - y) * (x + y));
    }
  }

  /** A quadratic with three roots has leading coefficient zero. */
  lemma ThreeRoots(inv: Scalar -> Scalar, a: int, b: int, c: int, x: Scalar, y: Scalar, z: Scalar)
    requires IsScalarInverse(inv) && x != y && y != z && x != z
    requires Vanishes(Quadratic(a, b, c, x)) && Vanishes(Quadratic(a, b, c, y)) && Vanishes(Quadratic(a, b, c, z))
    ensures Vanishes(a)
  {
    hide Quadratic, Vanishes, IsScalarInverse;
    var u, v := a * ((x as int) + y) + b, a * ((x as int) + z) + b;
    Secant(a, b, c, x, y);
    Secant(a, b, c, x, z);
    VanishSum(Quadratic(a, b, c, x), -1, Quadratic(a, b, c, y));
    VanishSum(Quadratic(a, b, c, x), -1, Quadratic(a, b, c, z));
    CancelFactor(inv, x, y, u);
    CancelFactor(inv, x, z, v);
    VanishSum(u, -1, v);
    assert u + -1 * v == ((y as int) - z) * a;
    CancelFactor(inv, y, z, a);
  }

  // The response f is on a line, and so is its bit value.
  ghost predicate BitPoint(b: Scalar, a: Scalar, c: Scalar, d: Scalar, x: Scalar, f: Scalar, v: Scalar) {
    Rep(f, a + x * b) && Rep(v, Bit(f, x)) && Rep(v, d + x * c)
  }

  // The bit value depends on the residue alone.
  lemma SameBit(f: Scalar, e: int, x: int)
    requires Rep(f, e)
    ensures Vanishes(Bit(f, x) - Bit(e, x))
  {
    RepVanish(f, e);
    hide Vanishes, Rep, Bit;
    var g: int := f - e;
    BitDifference(f, e, x);
    VanishMultiples();
    VanishSum(0, x - f - e, g);
  }

  lemma BitDifference(f: int, e: int, x: int)
    ensures Bit(f, x) - Bit(e, x) == (x - f - e) * (f - e)
  {
    assert f * (x - f) == f * x - f * f && e * (x - e) == e * x - e * e;
    assert (x - f - e) * (f - e) == x * f - x * e - f * f + f * e - e * f + e * e;
  }

  lemma BitOfLine(a: int, b: int, x: int)
    ensures Bit(a + x * b, x) == b * (1 - b) * (x * x) + a * (1 - 2 * b) * x - a * a
  {
    hide Bit;
    LineSquare(a, x * b, x);
    LineProducts(a, b, x);
    SplitSquare(b, x * x);
    SplitCross(a, b, x);
  }

  lemma LineSquare(a: int, t: int, x: int)
    ensures Bit(a + t, x) == a * x - a * a - 2 * (a * t) + t * x - t * t
  {
  }

  lemma LineProducts(a: int, b: int, x: int)
    ensures x * b * x == b * (x * x) && a * (x * b) == a * b * x && x * b * (x * b) == b * b * (x * x)
  {
    assert x * b * (x * b) == x * (b * (x * b));
    assert b * (x * b) == b * b * x;
  }

  lemma SplitSquare(b: int, y: int)
    ensures b * (1 - b) * y == b * y - b * b * y
  {
    assert b * (1 - b) == b - b * b;
  }

  lemma SplitCross(a: int, b: int, x: int)
    ensures a * (1 - 2 * b) * x == a * x - 2 * (a * b * x)
  {
    assert a * (1 - 2 * b) == a - 2 * (a * b);
  }

  lemma RootForm(a: int, b: int, c: int, d: int, x: int)
    ensures b * (1 - b) * (x * x) + a * (1 - 2 * b) * x - a * a - (d + x * c)
      == Quadratic(b * (1 - b), a * (1 - 2 * b) - c, -(a * a) - d, x)
  {
  }

  /** Three answers to the bit equation on one line force its slope to be a bit. */
  lemma SlopeIsBit(inv: Scalar -> Scalar, b: Scalar, a: Scalar, c: Scalar, d: Scalar, xs: seq<Scalar>,
      fs: seq<Scalar>, vs: seq<Scalar>)
    requires IsScalarInverse(inv) && |xs| == |fs| == |vs| == 3 && xs[0] != xs[1] && xs[1] != xs[2] && xs[0] != xs[2]
    requires forall e :: 0 <= e < 3 ==> BitPoint(b, a, c, d, xs[e], fs[e], vs[e])
    ensures b == 0 || b == 1
  {
    hide Vanishes, IsScalarInverse, Quadratic, Rep, Bit;
    forall e | 0 <= e < 3
      ensures Vanishes(Quadratic(b * (1 - b), a * (1 - 2 * b) - c, -(a * a) - d, xs[e]))
    {
      var x, f: int, v: int, w, l := xs[e], fs[e], vs[e], a + xs[e] * b, d + xs[e] * c;
      assert BitPoint(b, a, c, d, x, fs[e], vs[e]);
      RepVanish(vs[e], Bit(f, x));
      RepVanish(vs[e], l);
      SameBit(fs[e], w, x);
      VanishSum(v - l, -1, v - Bit(f, x));
      VanishSum(v - l + -1 * (v - Bit(f, x)), -1, Bit(f, x) - Bit(w, x));
      BitOfLine(a, b, x);
      RootForm(a, b, c, d, x);
    }
    ThreeRoots(inv, b * (1 - b), a * (1 - 2 * b) - c, -(a * a) - d, xs[0], xs[1], xs[2]);
    if b != 0 && b != 1 {
      assert ((b as int) - 0) * (1 - b) == b * (1 - b);
      CancelFactor(inv, b, 0, 1 - b);
      NoSmallMultiple(1 - b);
    }
  }

  lemma NoSmallMultiple(v: int)
    requires -N < v < 0
    ensures !Vanishes(v)
  {
    ModShift(v, 1);
    RepSelf(v + N);
  }

  lemma SmallMultiple(v: int)
    requires 0 <= v < N && Vanishes(v)
    ensures v == 0
  {
    RepSelf(v);
  }

  function Total(s: seq<int>): int {
    if |s| == 0 then 0 else Total(s[..|s| - 1]) + s[|s| - 1]
  }

  lemma {:induction false} TotalOfSum(s: seq<Scalar>)
    ensures Rep(Sum(s), Total(s))
  {
    if |s| > 0 {
      var k := |s| - 1;
      TotalOfSum(s[..k]);
      RepSelf(s[k]);
      RepAdd(Sum(s[..k]), s[k], Total(s[..k]), s[k]);
    }
  }

  lemma {:induction false} TotalFirst(s: seq<int>)
    requires |s| > 0
    ensures Total(s) == s[0] + Total(s[1..])
  {
    var k := |s| - 1;
    if k > 0 {
      TotalFirst(s[..k]);
      assert s[1..][..k - 1] == s[..k][1..];
    }
  }

  // A row as the verifier rebuilds it adds up to the challenge.
  lemma RowTotal(row: seq<Scalar>, x: Scalar)
    requires |row| > 0 && row[0] == FirstOf(row[1..], x)
    ensures Vanishes(Total(row) - x)
  {
    hide Total, Sum;
    var t: int := Total(row[1..]);
    TotalOfSum(row[1..]);
    RepNegate(Sum(row[1..]), t);
    RepSelf(x);
    RepAdd(Negate(Sum(row[1..])), x, -t, x);
    RepVanish(row[0], -t + x);
    TotalFirst(row);
  }

  lemma {:induction false} TotalOfLine(r: seq<Scalar>, a: seq<Scalar>, b: seq<Scalar>, x: Scalar)
    requires |r| == |a| == |b| && forall k :: 0 <= k < |r| ==> Rep(r[k], a[k] + x * b[k])
    ensures Vanishes(Total(r) - (Total(a) + x * Total(b)))
  {
    hide Vanishes, Rep;
    if |r| == 0 {
      VanishZero();
    } else {
      var k := |r| - 1;
      TotalOfLine(r[..k], a[..k], b[..k], x);
      RepVanish(r[k], a[k] + x * b[k]);
      var u, v := Total(r[..k]) - (Total(a[..k]) + x * Total(b[..k])), r[k] - (a[k] + x * b[k]);
      VanishSum(u, 1, v);
      assert x * Total(b) == x * Total(b[..k]) + x * b[k];
    }
  }

  lemma VanishZero()
    ensures Vanishes(0)
  {
  }

  /** Two rows on one line that add up to their challenges: the slopes add up to one. */
  lemma SlopesTotalOne(inv: Scalar -> Scalar, a: seq<Scalar>, b: seq<Scalar>, r: seq<Scalar>, x: Scalar,
      s: seq<Scalar>, y: Scalar)
    requires IsScalarInverse(inv) && x != y && |a| == |b| == |r| == |s| > 0
    requires r[0] == FirstOf(r[1..], x) && s[0] == FirstOf(s[1..], y)
    requires forall k :: 0 <= k < |a| ==> Rep(r[k], a[k] + x * b[k]) && Rep(s[k], a[k] + y * b[k])
    ensures Vanishes(Total(b) - 1)
  {
    hide Total, Sum, Vanishes, IsScalarInverse, Rep;
    RowTotal(r, x);
    RowTotal(s, y);
    TotalOfLine(r, a, b, x);
    TotalOfLine(s, a, b, y);
    UnitSlope(inv, Total(a), Total(b), Total(r), x, Total(s), y);
  }

  // ta + x*tb = x at two points, modulo N.
  lemma UnitSlope(inv: Scalar -> Scalar, ta: int, tb: int, tr: int, x: Scalar, ts: int, y: Scalar)
    requires IsScalarInverse(inv) && x != y && Vanishes(tr - x) && Vanishes(ts - y)
    requires Vanishes(tr - (ta + x * tb)) && Vanishes(ts - (ta + y * tb))
    ensures Vanishes(tb - 1)
  {
    hide Vanishes, IsScalarInverse;
    VanishSum(tr - x, -1, tr - (ta + x * tb));
    VanishSum(ts - y, -1, ts - (ta + y * tb));
    VanishSum(ta + x * tb - x, -1, ta + y * tb - y);
    assert ((x as int) - y) * (tb - 1) == x * tb - x - (y * tb - y);
    CancelFactor(inv, x, y, tb - 1);
  }

  ghost predicate AllBits(b: seq<Scalar>) {
    forall k :: 0 <= k < |b| ==> b[k] == 0 || b[k] == 1
  }

  // 1 in place d and 0 elsewhere.
  ghost predicate OneHot(b: seq<Scalar>, d: nat) {
    d < |b| && forall k :: 0 <= k < |b| ==> b[k] == if k == d then 1 else 0
  }

  lemma {:induction false} BitsTotal(b: seq<Scalar>)
    requires AllBits(b)
    ensures 0 <= Total(b) <= |b|
    ensures Total(b) == 0 ==> forall k :: 0 <= k < |b| ==> b[k] == 0
  {
    if |b| > 0 {
      BitsTotal(b[..|b| - 1]);
    }
  }

  lemma {:induction false} HotPlace(b: seq<Scalar>) returns (d: nat)
    requires AllBits(b) && Total(b) == 1
    ensures OneHot(b, d)
  {
    var k := |b| - 1;
    BitsTotal(b[..k]);
    if b[k] == 1 {
      d := k;
    } else {
      d := HotPlace(b[..k]);
    }
  }

  /** Fewer bits than the order whose sum is one modulo the order: exactly one is set. */
  lemma HotRow(b: seq<Scalar>) returns (d: nat)
    requires AllBits(b) && |b| < N && Vanishes(Total(b) - 1)
    ensures OneHot(b, d)
  {
    hide Vanishes;
    BitsTotal(b);
    if Total(b) == 0 {
      NoSmallMultiple(-1);
    } else {
      SmallMultiple(Total(b) - 1);
    }
    d := HotPlace(b);
  }

  ghost predicate IsHot(row: seq<Scalar>) {
    exists d :: OneHot(row, d)
  }

  ghost predicate HotAt(b: seq<Scalar>, n: nat, j: nat) {
    0 <= j * n && j * n + n <= |b| && IsHot(b[j * n..j * n + n])
  }

  /** Rows with one bit each spell the digits of exactly one position. */
  lemma {:induction false} SpellsIndex(b: seq<Scalar>, n: nat, m: nat) returns (index: nat)
    requires n > 0 && |b| == m * n && forall j :: 0 <= j < m ==> HotAt(b, n, j)
    ensures index < Power(n, m) && forall k :: 0 <= k < |b| ==> b[k] == DeltaAt(k, n, index)
    decreases m
  {
    if m == 0 {
      index := 0;
    } else {
      var j, rest := m - 1, b[n..];
      hide Power, DeltaAt;
      MulNonneg(j, n);
      assert (m - 1) * n == m * n - n;
      forall i | 0 <= i < j
        ensures HotAt(rest, n, i)
      {
        RestHot(b, n, i);
      }
      var high := SpellsIndex(rest, n, j);
      assert HotAt(b, n, 0) && b[0 * n..0 * n + n] == b[..n];
      var d :| OneHot(b[..n], d);
      index := IndexFrom(high, d, n, j);
      hide HotAt;
      forall k | 0 <= k < |b|
        ensures b[k] == DeltaAt(k, n, index)
      {
        if k < n {
          FirstDigit(k, n, high, d);
          assert b[k] == b[..n][k];
        } else {
          LaterDigit(k, n, high, d);
          assert b[k] == rest[k - n];
        }
      }
    }
  }

  lemma IndexFrom(high: nat, d: nat, n: nat, j: nat) returns (index: nat)
    requires d < n && high < Power(n, j)
    ensures high * n >= 0 && index == high * n + d && index < Power(n, j + 1)
  {
    MulNonneg(high, n);
    MulNonneg(Power(n, j) - 1 - high, n);
    assert (Power(n, j) - 1 - high) * n == n * Power(n, j) - n - high * n;
    index := high * n + d;
  }

  lemma RestHot(b: seq<Scalar>, n: nat, i: nat)
    requires HotAt(b, n, i + 1) && n <= |b|
    ensures HotAt(b[n..], n, i)
  {
    MulNonneg(i, n);
    assert (i + 1) * n == i * n + n;
    assert b[n..][i * n..i * n + n] == b[(i + 1) * n..(i + 1) * n + n];
  }

  lemma FirstDigit(k: nat, n: nat, high: nat, d: nat)
    requires k < n && d < n && high * n >= 0
    ensures DeltaAt(k, n, high * n + d) == if k == d then 1 else 0
  {
    DivModUnique(k, n, 0, k);
    DivModUnique(high * n + d, n, high, d);
  }

  lemma LaterDigit(k: nat, n: nat, high: nat, d: nat)
    requires n <= k && d < n && high * n >= 0
    ensures DeltaAt(k, n, high * n + d) == DeltaAt(k - n, n, high)
  {
    DivModEq(k - n, n);
    var q, r := (k - n) / n, (k - n) % n;
    assert (q + 1) * n == q * n + n;
    DivModUnique(k, n, q + 1, r);
    DivModUnique(high * n + d, n, high, d);
  }

  // All places at once: slopes b, offsets a, and the same for the bit values.
  ghost predicate BitPoints(b: seq<Scalar>, a: seq<Scalar>, c: seq<Scalar>, d: seq<Scalar>, x: Scalar, f: seq<Scalar>,
      v: seq<Scalar>) {
    && |b| == |a| == |c| == |d| == |f| == |v|
    && forall k :: 0 <= k < |b| ==> BitPoint(b[k], a[k], c[k], d[k], x, f[k], v[k])
  }

  ghost predicate RowsOf(f: seq<Scalar>, n: nat, m: nat, x: Scalar)
    requires n > 0
  {
    forall j :: 0 <= j < m ==> RowFirst(f, n, x, j)
  }

  lemma SlopesAreBits(inv: Scalar -> Scalar, b: seq<Scalar>, a: seq<Scalar>, c: seq<Scalar>, d: seq<Scalar>,
      xs: seq<Scalar>, fs: seq<seq<Scalar>>, vs: seq<seq<Scalar>>)
    requires IsScalarInverse(inv) && |xs| == |fs| == |vs| == 3 && xs[0] != xs[1] && xs[1] != xs[2] && xs[0] != xs[2]
    requires forall e :: 0 <= e < 3 ==> BitPoints(b, a, c, d, xs[e], fs[e], vs[e])
    ensures AllBits(b)
  {
    hide IsScalarInverse, BitPoint;
    assert BitPoints(b, a, c, d, xs[0], fs[0], vs[0]) && BitPoints(b, a, c, d, xs[1], fs[1], vs[1])
        && BitPoints(b, a, c, d, xs[2], fs[2], vs[2]);
    forall k | 0 <= k < |b|
      ensures b[k] == 0 || b[k] == 1
    {
      SlopeIsBit(inv, b[k], a[k], c[k], d[k], xs, [fs[0][k], fs[1][k], fs[2][k]], [vs[0][k], vs[1][k], vs[2][k]]);
    }
  }

  lemma RowIsHot(inv: Scalar -> Scalar, b: seq<Scalar>, a: seq<Scalar>, f: seq<Scalar>, x: Scalar, h: seq<Scalar>,
      y: Scalar, n: nat, j: nat)
    requires IsScalarInverse(inv) && x != y && 0 < n < N && AllBits(b) && |a| == |b| == |f| == |h|
    requires forall k :: 0 <= k < |b| ==> Rep(f[k], a[k] + x * b[k]) && Rep(h[k], a[k] + y * b[k])
    requires RowFirst(f, n, x, j) && RowFirst(h, n, y, j)
    ensures HotAt(b, n, j)
  {
    hide IsScalarInverse, Rep, FirstOf;
    var lo := j * n;
    var row := b[lo..lo + n];
    assert f[lo..lo + n][1..] == f[lo + 1..lo + n] && h[lo..lo + n][1..] == h[lo + 1..lo + n];
    SlopesTotalOne(inv, a[lo..lo + n], row, f[lo..lo + n], x, h[lo..lo + n], y);
    var d := HotRow(row);
  }

  /** Responses to three challenges that lie on lines, answer the bit equation and add up by rows come from one
      position: each is the digit indicator times the challenge plus the offset. */
  lemma PositionOf(inv: Scalar -> Scalar, n: nat, m: nat, b: seq<Scalar>, a: seq<Scalar>, c: seq<Scalar>,
      d: seq<Scalar>, xs: seq<Scalar>, fs: seq<seq<Scalar>>, vs: seq<seq<Scalar>>) returns (index: nat)
    requires IsScalarInverse(inv) && 0 < n < N && |b| == m * n
    requires |xs| == |fs| == |vs| == 3 && xs[0] != xs[1] && xs[1] != xs[2] && xs[0] != xs[2]
    requires forall e :: 0 <= e < 3 ==> BitPoints(b, a, c, d, xs[e], fs[e], vs[e]) && RowsOf(fs[e], n, m, xs[e])
    ensures index < Power(n, m) && forall k :: 0 <= k < |b| ==> b[k] == DeltaAt(k, n, index)
  {
    hide IsScalarInverse, RowFirst, DeltaAt, Power, HotAt, Rep, Bit;
    SlopesAreBits(inv, b, a, c, d, xs, fs, vs);
    assert BitPoints(b, a, c, d, xs[0], fs[0], vs[0]) && BitPoints(b, a, c, d, xs[1], fs[1], vs[1]);
    assert RowsOf(fs[0], n, m, xs[0]) && RowsOf(fs[1], n, m, xs[1]);
    forall j | 0 <= j < m
      ensures HotAt(b, n, j)
    {
      RowIsHot(inv, b, a, fs[0], xs[0], fs[1], xs[1], n, j);
    }
    index := SpellsIndex(b, n, m);
  }
}
