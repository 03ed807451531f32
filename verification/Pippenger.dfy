/** Multi-scalar multiplication with buckets (Pippenger's algorithm). */
module Pippenger {
  import opened AbelianGroup
  import opened LinearCombination
  import opened Digits
  import opened Secp256k1
  import opened WnafFixed

  /** The weights 1, 3, 5, ... of the buckets. */
  ghost function OddWeights(n: nat): (ws: seq<int>)
    ensures |ws| == n && forall j :: 0 <= j < n ==> ws[j] == 2 * j + 1
  {
    seq(n, j => 2 * j + 1)
  }

  /** bucket[0] + 3*bucket[1] + 5*bucket[2] + ... */
  ghost function BucketSum<P>(g: Group<P>, buckets: seq<P>): P {
    Dot(g, OddWeights(|buckets|), buckets)
  }

  datatype PointState = PointState(wnaf: seq<int>, skew: int, inputPos: nat)

  ghost predicate ValidState(st: PointState, s: Scalar, w: nat)
    requires 1 <= w <= 31
  {
    Represents(st.wnaf, s, w, st.skew)
  }

  // The bucket of a digit: below the number of buckets, and weighted by the digit's absolute value.
  function BucketIndex(n: int, size: nat): (idx: nat)
    requires Bounded(n, 2 * size) && n != 0
    ensures idx < size && 2 * idx + 1 == (if n > 0 then n else -n)
  {
    if n > 0 then (n - 1) / 2 else -(n + 1) / 2
  }

  method AddTo<P(!new)>(g: Group<P>, buckets: array<P>, idx: nat, p: P)
    requires IsGroup(g) && idx < buckets.Length
    modifies buckets
    ensures BucketSum(g, buckets[..]) == g.add(old(BucketSum(g, buckets[..])), Mul(g, 2 * idx + 1, p))
  {
    ghost var bs := buckets[..];
    DotUpdatePoint(g, OddWeights(|bs|), bs, idx, p);
    buckets[idx] := g.add(buckets[idx], p);
    assert buckets[..] == bs[idx := g.add(bs[idx], p)];
  }

  lemma MulNegPoint<P(!new)>(g: Group<P>, n: int, p: P)
    requires IsGroup(g)
    ensures Mul(g, n, g.neg(p)) == Mul(g, -n, p)
  {
    MulOne(g, p);
    MulMul(g, n, -1, p);
    assert n * -1 == -n;
  }

  // Add p to the bucket of a positive digit, or -p to the bucket of a negative one.
  method Deposit<P(!new)>(g: Group<P>, buckets: array<P>, n: int, p: P)
    requires IsGroup(g) && Bounded(n, 2 * buckets.Length) && n != 0
    modifies buckets
    ensures BucketSum(g, buckets[..]) == g.add(old(BucketSum(g, buckets[..])), Mul(g, n, p))
  {
    var idx := BucketIndex(n, buckets.Length);
    if n > 0 {
      AddTo(g, buckets, idx, p);
    } else {
      MulNegPoint(g, -n, p);
      AddTo(g, buckets, idx, g.neg(p));
    }
  }

  // Subtract p from the lowest bucket.
  method CorrectSkew<P(!new)>(g: Group<P>, buckets: array<P>, p: P)
    requires IsGroup(g) && buckets.Length >= 1
    modifies buckets
    ensures BucketSum(g, buckets[..]) == g.add(old(BucketSum(g, buckets[..])), Mul(g, -1, p))
  {
    MulNegPoint(g, 1, p);
    AddTo(g, buckets, 0, g.neg(p));
  }

  ghost predicate ValidStates<P>(g: Group<P>, sts: seq<PointState>, ss: seq<Scalar>, ps: seq<P>, pt: seq<P>, w: nat)
    requires 1 <= w <= 31
  {
    && |sts| == |ss| == |ps|
    && forall k :: 0 <= k < |sts| ==>
      ValidState(sts[k], ss[k], w) && sts[k].inputPos < |pt| && ps[k] == pt[sts[k].inputPos]
  }

  // What point k contributes to the buckets at window i.
  ghost function Contribution(st: PointState, i: nat): int
    requires i < |st.wnaf|
  {
    st.wnaf[i] - (if i == 0 then st.skew else 0)
  }

  // Put one point into the bucket of its digit at window i.
  method Scatter<P(!new)>(g: Group<P>, buckets: array<P>, w: nat, st: PointState, i: nat, p: P, ghost s: Scalar)
    requires IsGroup(g) && 2 <= w <= 31 && buckets.Length == Pow2(w - 1) && i < Windows(w) && ValidState(st, s, w)
    modifies buckets
    ensures BucketSum(g, buckets[..]) == g.add(old(BucketSum(g, buckets[..])), Mul(g, Contribution(st, i), p))
  {
    var n := st.wnaf[i];
    assert Bounded(n, 2 * buckets.Length);
    ghost var x, skewed := BucketSum(g, buckets[..]), 0;
    MulOne(g, p);
    Unit(g, x);
    if i == 0 && st.skew != 0 {
      CorrectSkew(g, buckets, p);
      skewed := -1;
    }
    ghost var y := BucketSum(g, buckets[..]);
    Unit(g, y);
    if n != 0 {
      Deposit(g, buckets, n, p);
    }
    AddMultiples(g, x, skewed, n, Contribution(st, i), p);
  }

  lemma AddMultiples<P(!new)>(g: Group<P>, x: P, a: int, b: int, c: int, p: P)
    requires IsGroup(g) && c == a + b
    ensures g.add(g.add(x, Mul(g, a, p)), Mul(g, b, p)) == g.add(x, Mul(g, c, p))
  {
    Assoc(g, x, Mul(g, a, p), Mul(g, b, p));
    MulAdd(g, a, b, p);
  }

  method ClearBuckets<P(!new)>(g: Group<P>, buckets: array<P>)
    requires IsGroup(g)
    modifies buckets
    ensures BucketSum(g, buckets[..]) == g.zero
  {
    for j := 0 to buckets.Length
      invariant forall k :: 0 <= k < j ==> buckets[k] == g.zero
    {
      buckets[j] := g.zero;
    }
    DotZero(g, OddWeights(buckets.Length), buckets[..]);
  }

  // Put every point into the bucket of its digit at window i.
  method FillBuckets<P(!new)>(g: Group<P>, buckets: array<P>, w: nat, sts: seq<PointState>, pt: seq<P>, i: nat,
                              ghost ss: seq<Scalar>, ghost ps: seq<P>) returns (ghost cs: seq<int>)
    requires IsGroup(g) && 2 <= w <= 31 && buckets.Length == Pow2(w - 1) && i < Windows(w)
    requires ValidStates(g, sts, ss, ps, pt, w)
    modifies buckets
    ensures |cs| == |ps| && (forall k :: 0 <= k < |cs| ==> cs[k] == Contribution(sts[k], i))
    ensures BucketSum(g, buckets[..]) == Dot(g, cs, ps)
  {
    hide Mul, Dot;
    ClearBuckets(g, buckets);
    cs := seq(|ps|, k => 0);
    DotZero(g, cs, ps);
    for np := 0 to |sts|
      invariant |cs| == |ps| && (forall k :: 0 <= k < np ==> cs[k] == Contribution(sts[k], i))
      invariant forall k :: np <= k < |cs| ==> cs[k] == 0
      invariant BucketSum(g, buckets[..]) == Dot(g, cs, ps)
    {
      Scatter(g, buckets, w, sts[np], i, pt[sts[np].inputPos], ss[np]);
      DotUpdate(g, cs, ps, np, Contribution(sts[np], i));
      cs := cs[np := cs[np] + Contribution(sts[np], i)];
    }
  }

  method DoubleTimes<P(!new)>(g: Group<P>, r0: P, n: nat) returns (r: P)
    requires IsGroup(g)
    ensures r == Mul(g, Pow2(n), r0)
  {
    r := r0;
    MulOne(g, r0);
    for j := 0 to n
      invariant r == Mul(g, Pow2(j), r0)
    {
      MulAdd(g, Pow2(j), Pow2(j), r0);
      r := g.add(r, r);
    }
  }

  // r := 2^w * r + bucket[0] + 3*bucket[1] + ... with a running sum and one deferred doubling.
  method Accumulate<P(!new)>(g: Group<P>, r0: P, buckets: array<P>, w: nat) returns (r: P)
    requires IsGroup(g) && w >= 2 && buckets.Length >= 1
    ensures r == g.add(Mul(g, Pow2(w), r0), BucketSum(g, buckets[..]))
  {
    r := DoubleTimes(g, r0, w - 1);
    ghost var base, bs := r, buckets[..];
    var runningSum := g.zero;
    ghost var ind, tri := seq(|bs|, k => 0), seq(|bs|, k => 0);
    DotZero(g, ind, bs);
    Unit(g, r);
    var j := buckets.Length - 1;
    while j > 0
      invariant 0 <= j < |bs| == |ind| == |tri|
      invariant forall k :: 0 <= k < |bs| ==>
        ind[k] == (if k > j then 1 else 0) && tri[k] == (if k > j then k - j else 0)
      invariant runningSum == Dot(g, ind, bs) && r == g.add(base, Dot(g, tri, bs))
    {
      AddBucket(g, ind, bs, j);
      runningSum := g.add(runningSum, buckets[j]);
      ind := ind[j := 1];
      ghost var next := seq(|bs|, k requires 0 <= k < |bs| => tri[k] + ind[k]);
      Assoc(g, base, Dot(g, tri, bs), runningSum);
      DotAdd(g, tri, ind, next, bs);
      r := g.add(r, runningSum);
      tri := next;
      j := j - 1;
    }
    AddBucket(g, ind, bs, 0);
    runningSum := g.add(runningSum, buckets[0]);
    ind := ind[0 := 1];
    FinishSum(g, r0, base, r, ind, tri, bs, w);
    r := g.add(r, r);
    r := g.add(r, runningSum);
  }

  lemma AddBucket<P(!new)>(g: Group<P>, ind: seq<int>, bs: seq<P>, j: nat)
    requires IsGroup(g) && |ind| == |bs| && j < |bs| && ind[j] == 0
    ensures g.add(Dot(g, ind, bs), bs[j]) == Dot(g, ind[j := 1], bs)
  {
    DotUpdate(g, ind, bs, j, 1);
    MulOne(g, bs[j]);
  }

  lemma FinishSum<P(!new)>(g: Group<P>, r0: P, base: P, r: P, ind: seq<int>, tri: seq<int>, bs: seq<P>, w: nat)
    requires IsGroup(g) && w >= 1 && |ind| == |tri| == |bs|
    requires base == Mul(g, Pow2(w - 1), r0) && r == g.add(base, Dot(g, tri, bs))
    requires forall k :: 0 <= k < |bs| ==> ind[k] == 1 && tri[k] == k
    ensures g.add(g.add(r, r), Dot(g, ind, bs)) == g.add(Mul(g, Pow2(w), r0), BucketSum(g, bs))
  {
    hide Mul;
    var t := Dot(g, tri, bs);
    Swap(g, base, t, base, t);
    MulAdd(g, Pow2(w - 1), Pow2(w - 1), r0);
    var twice := seq(|bs|, k requires 0 <= k < |bs| => 2 * tri[k]);
    DotDouble(g, tri, twice, bs);
    Assoc(g, Mul(g, Pow2(w), r0), Dot(g, twice, bs), Dot(g, ind, bs));
    DotAdd(g, twice, ind, OddWeights(|bs|), bs);
  }

  // The coefficient of point k once the windows from i upwards are done.
  ghost function Reached(st: PointState, i: nat, b: int): int {
    High(st.wnaf, i, b) - (if i == 0 then st.skew else 0)
  }

  lemma ReachedStep(st: PointState, i: nat, b: int)
    requires i < |st.wnaf|
    ensures Reached(st, i, b) == b * Reached(st, i + 1, b) + Contribution(st, i)
  {
    HighStep(st.wnaf, i, b);
  }

  // Recode the scalars that matter.
  method Select<P(!new, ==)>(g: Group<P>, w: nat, sc: seq<Scalar>, pt: seq<P>)
    returns (sts: seq<PointState>, ghost ss: seq<Scalar>, ghost ps: seq<P>)
    requires IsGroup(g) && |sc| == |pt| && 1 <= w <= 31
    ensures ValidStates(g, sts, ss, ps, pt, w) && Dot(g, ss, ps) == Dot(g, sc, pt)
  {
    sts, ss, ps := [], [], [];
    for np := 0 to |pt|
      invariant ValidStates(g, sts, ss, ps, pt, w) && Dot(g, ss, ps) == Dot(g, sc[..np], pt[..np])
    {
      DotPrefix(g, sc, pt, np);
      if sc[np] == 0 || pt[np] == g.zero {
        MulZero(g, sc[np]);
        Unit(g, Dot(g, ss, ps));
        continue;
      }
      var wnaf := new int[Windows(w)];
      var skew := FixedWnaf(wnaf, sc[np], w);
      DotAppend(g, ss, ps, sc[np], pt[np]);
      sts, ss, ps := sts + [PointState(wnaf[..], skew, np)], ss + [sc[np]], ps + [pt[np]];
    }
    assert sc[..|pt|] == sc && pt[..|pt|] == pt;
  }

  ghost function ReachedAll(sts: seq<PointState>, i: nat, b: int): (cs: seq<int>)
    ensures |cs| == |sts| && forall k :: 0 <= k < |cs| ==> cs[k] == Reached(sts[k], i, b)
  {
    seq(|sts|, k requires 0 <= k < |sts| => Reached(sts[k], i, b))
  }

  // One window: the running result is multiplied by the base and the window's digits are added.
  lemma WindowDone<P(!new)>(g: Group<P>, sts: seq<PointState>, ps: seq<P>, cs: seq<int>, i: nat, b: int)
    requires IsGroup(g) && |cs| == |ps| == |sts|
    requires forall k :: 0 <= k < |sts| ==> i < |sts[k].wnaf| && cs[k] == Contribution(sts[k], i)
    ensures g.add(Mul(g, b, Dot(g, ReachedAll(sts, i + 1, b), ps)), Dot(g, cs, ps)) == Dot(g, ReachedAll(sts, i, b), ps)
  {
    var high := ReachedAll(sts, i + 1, b);
    var scaled := seq(|sts|, k requires 0 <= k < |sts| => b * high[k]);
    DotScale(g, b, high, scaled, ps);
    forall k | 0 <= k < |sts| ensures ReachedAll(sts, i, b)[k] == scaled[k] + cs[k] {
      ReachedStep(sts[k], i, b);
    }
    DotAdd(g, scaled, cs, ReachedAll(sts, i, b), ps);
  }

  lemma Ends<P(!new)>(g: Group<P>, sts: seq<PointState>, ss: seq<Scalar>, ps: seq<P>, pt: seq<P>, w: nat)
    requires IsGroup(g) && 1 <= w <= 31 && ValidStates(g, sts, ss, ps, pt, w)
    ensures Dot(g, ReachedAll(sts, Windows(w), Pow2(w)), ps) == g.zero
    ensures Dot(g, ReachedAll(sts, 0, Pow2(w)), ps) == Dot(g, ss, ps)
  {
    DotZero(g, ReachedAll(sts, Windows(w), Pow2(w)), ps);
    forall k | 0 <= k < |sts| ensures ReachedAll(sts, 0, Pow2(w))[k] == ss[k] {
      assert sts[k].wnaf[0..] == sts[k].wnaf;
    }
    assert ReachedAll(sts, 0, Pow2(w)) == ss;
  }

  /** secp256k1_ecmult_pippenger_wnaf: r is the sum of sc[i]*pt[i], in any abelian group. */
  method PippengerWnaf<P(!new, ==)>(g: Group<P>, buckets: array<P>, bucketWindow: nat, sc: seq<Scalar>, pt: seq<P>)
    returns (r: P)
    requires IsGroup(g) && |sc| == |pt| && 1 <= bucketWindow <= 12 && buckets.Length == Pow2(bucketWindow)
    modifies buckets
    ensures r == Dot(g, sc, pt)
  {
    var w := bucketWindow + 1;
    var sts;
    ghost var ss, ps;
    sts, ss, ps := Select(g, w, sc, pt);
    r := g.zero;
    Ends(g, sts, ss, ps, pt, w);
    if |sts| == 0 {
      return;
    }
    for i := Windows(w) downto 0
      invariant r == Dot(g, ReachedAll(sts, i, Pow2(w)), ps)
    {
      ghost var cs := FillBuckets(g, buckets, w, sts, pt, i, ss, ps);
      WindowDone(g, sts, ps, cs, i, Pow2(w));
      r := Accumulate(g, r, buckets, w);
    }
  }
}
