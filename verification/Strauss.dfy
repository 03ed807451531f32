/** Interleaved multiplication of several points by several scalars (Strauss' algorithm), and the
    single-point multiplication built on it. */
module Strauss {
  import opened AbelianGroup
  import opened LinearCombination
  import opened Digits
  import opened Secp256k1
  import opened Wnaf

  const WINDOW_A: nat := 5
  const WINDOW_G: nat := 16

  datatype Option<+T> = None | Some(value: T)

  // 1 << (w - 2)
  function TableSize(w: nat): (n: nat)
    requires w >= 2
    ensures n == Pow2(w - 2)
  {
    Pow2(w - 2)
  }

  /** pre holds 1a, 3a, 5a, ... */
  ghost predicate IsTable<P>(g: Group<P>, pre: seq<P>, a: P) {
    forall i :: 0 <= i < |pre| ==> pre[i] == Mul(g, 2 * i + 1, a)
  }

  /** secp256k1_ecmult_odd_multiples_table, as a list of points. */
  method OddMultiplesTable<P(!new)>(g: Group<P>, n: nat, a: P) returns (pre: seq<P>)
    requires IsGroup(g) && n >= 1
    ensures |pre| == n && IsTable(g, pre, a)
  {
    var d := g.add(a, a);
    MulOne(g, a);
    pre := [a];
    for i := 1 to n
      invariant |pre| == i && IsTable(g, pre, a)
    {
      MulAdd(g, 2 * i - 1, 2, a);
      pre := pre + [g.add(pre[i - 1], d)];
    }
  }

  /** ECMULT_TABLE_GET_GE: the multiple of a odd digit n selects, negated for a negative digit. */
  function TableGet<P>(g: Group<P>, pre: seq<P>, n: int): P
    requires n % 2 == 1 && -2 * |pre| < n < 2 * |pre|
  {
    if n > 0 then pre[(n - 1) / 2] else g.neg(pre[(-n - 1) / 2])
  }

  lemma TableGetIsMultiple<P(!new)>(g: Group<P>, pre: seq<P>, n: int, a: P)
    requires IsGroup(g) && IsTable(g, pre, a) && n % 2 == 1 && -2 * |pre| < n < 2 * |pre|
    ensures TableGet(g, pre, n) == Mul(g, n, a)
  {
    if n < 0 {
      assert pre[(-n - 1) / 2] == Mul(g, -n, a);
      MulNeg(g, -n, a);
    } else {
      assert pre[(n - 1) / 2] == Mul(g, n, a);
    }
  }

  /** One recoded scalar and where its point stands among the inputs. */
  datatype Recoding = Recoding(input: nat, wnaf: seq<int>, bits: nat)

  ghost predicate Recodes(st: Recoding, v: int, w: nat)
    requires w >= 2
  {
    |st.wnaf| == 256 && Encodes(st.wnaf, v, w, st.bits) && Value(st.wnaf, 2) == v
  }

  function DigitAt(st: Recoding, i: nat): int {
    if i < st.bits && i < |st.wnaf| then st.wnaf[i] else 0
  }

  lemma DigitAtStep(st: Recoding, v: int, w: nat, i: nat)
    requires w >= 2 && Recodes(st, v, w)
    ensures High(st.wnaf, i, 2) == DigitAt(st, i) + 2 * High(st.wnaf, i + 1, 2)
    ensures DigitAt(st, i) == 0 || (DigitAt(st, i) % 2 == 1 && -2 * TableSize(w) < DigitAt(st, i) < 2 * TableSize(w))
  {
    HighStep(st.wnaf, i, 2);
    assert Pow2(w - 1) == 2 * Pow2(w - 2);
  }

  method Recode(input: nat, na: Scalar, w: nat) returns (st: Recoding)
    requires 2 <= w <= 31
    ensures Recodes(st, Centered(na), w) && st.input == input
  {
    var wnaf := new int[256];
    var bits := EcmultWnaf(wnaf, na, w);
    FullLengthExact(wnaf[..], na, w, bits);
    st := Recoding(input, wnaf[..], bits);
  }

  /** A recoded scalar with the table of its point. */
  datatype PointState<+P> = PointState(rec: Recoding, pre: seq<P>)

  // A state that encodes the scalar whose centered value is v, for the point p.
  ghost predicate ValidState<P>(g: Group<P>, st: PointState<P>, v: int, p: P, w: nat)
    requires w >= 2
  {
    Recodes(st.rec, v, w) && |st.pre| == TableSize(w) && IsTable(g, st.pre, p)
  }

  ghost predicate ValidStates<P>(g: Group<P>, sts: seq<PointState<P>>, vs: seq<int>, ps: seq<P>) {
    |sts| == |vs| == |ps| && forall k :: 0 <= k < |sts| ==> ValidState(g, sts[k], vs[k], ps[k], WINDOW_A)
  }

  method MakeState<P(!new)>(g: Group<P>, a: P, na: Scalar, input: nat) returns (st: PointState<P>)
    requires IsGroup(g)
    ensures ValidState(g, st, Centered(na), a, WINDOW_A)
  {
    var rec := Recode(input, na, WINDOW_A);
    var pre := OddMultiplesTable(g, TableSize(WINDOW_A), a);
    st := PointState(rec, pre);
  }

  // r := r + digit*point, skipped for a zero digit.
  method AddDigit<P(!new)>(g: Group<P>, r: P, st: PointState<P>, i: nat, ghost v: int, ghost p: P, ghost w: nat)
    returns (q: P)
    requires IsGroup(g) && w >= 2 && ValidState(g, st, v, p, w)
    ensures q == g.add(r, Mul(g, DigitAt(st.rec, i), p))
  {
    DigitAtStep(st.rec, v, w, i);
    var n := DigitAt(st.rec, i);
    if n != 0 {
      TableGetIsMultiple(g, st.pre, n, p);
      q := g.add(r, TableGet(g, st.pre, n));
    } else {
      Unit(g, r);
      q := r;
    }
  }

  // Add the digits at position i of all points: every coefficient advances from 2*High(i+1) to High(i).
  method AddColumnTo<P(!new)>(g: Group<P>, r0: P, sts: seq<PointState<P>>, i: nat,
                              ghost vs: seq<int>, ghost ps: seq<P>, ghost cs: seq<int>, ghost rest: P)
    returns (r: P, ghost ds: seq<int>)
    requires IsGroup(g) && ValidStates(g, sts, vs, ps) && |cs| == |ps| && r0 == g.add(Dot(g, cs, ps), rest)
    requires forall k :: 0 <= k < |cs| ==> cs[k] == 2 * High(sts[k].rec.wnaf, i + 1, 2)
    ensures |ds| == |ps| && r == g.add(Dot(g, ds, ps), rest)
    ensures forall k :: 0 <= k < |ds| ==> ds[k] == High(sts[k].rec.wnaf, i, 2)
  {
    r, ds := r0, cs;
    for np := 0 to |sts|
      invariant |ds| == |ps| && r == g.add(Dot(g, ds, ps), rest)
      invariant forall k :: 0 <= k < np ==> ds[k] == High(sts[k].rec.wnaf, i, 2)
      invariant forall k :: np <= k < |ds| ==> ds[k] == cs[k]
    {
      DigitAtStep(sts[np].rec, vs[np], WINDOW_A, i);
      ghost var d := DigitAt(sts[np].rec, i);
      r := AddDigit(g, r, sts[np], i, vs[np], ps[np], WINDOW_A);
      SwapLast(g, Dot(g, ds, ps), rest, Mul(g, d, ps[np]));
      DotUpdate(g, ds, ps, np, d);
      ds := ds[np := ds[np] + d];
    }
  }

  /** Every point of the group vanishes under its order. */
  ghost predicate Killed<P>(g: Group<P>, p: P) {
    Mul(g, N, p) == g.zero
  }

  lemma CenteredMultiple<P(!new)>(g: Group<P>, a: Scalar, p: P)
    requires IsGroup(g) && Killed(g, p)
    ensures Mul(g, Centered(a), p) == Mul(g, a, p)
  {
    if Centered(a) != a {
      MulAdd(g, a - N, N, p);
      Unit(g, Mul(g, a - N, p));
    }
  }

  // Recode the scalars that matter; the others contribute nothing to the sum.
  method Select<P(!new, ==)>(g: Group<P>, a: seq<P>, na: seq<Scalar>)
    returns (sts: seq<PointState<P>>, bits: nat, ghost vs: seq<int>, ghost ps: seq<P>)
    requires IsGroup(g) && |a| == |na| && forall k :: 0 <= k < |a| ==> Killed(g, a[k])
    ensures ValidStates(g, sts, vs, ps) && bits <= 256 && forall k :: 0 <= k < |sts| ==> sts[k].rec.bits <= bits
    ensures Dot(g, vs, ps) == Dot(g, na, a)
  {
    sts, bits, vs, ps := [], 0, [], [];
    for np := 0 to |a|
      invariant ValidStates(g, sts, vs, ps) && bits <= 256 && forall k :: 0 <= k < |sts| ==> sts[k].rec.bits <= bits
      invariant Dot(g, vs, ps) == Dot(g, na[..np], a[..np])
    {
      DotPrefix(g, na, a, np);
      if na[np] == 0 || a[np] == g.zero {
        MulZero(g, na[np]);
        Unit(g, Dot(g, vs, ps));
        continue;
      }
      var st := MakeState(g, a[np], na[np], np);
      CenteredMultiple(g, na[np], a[np]);
      DotAppend(g, vs, ps, Centered(na[np]), a[np]);
      sts, vs, ps := sts + [st], vs + [Centered(na[np])], ps + [a[np]];
      bits := if st.rec.bits > bits then st.rec.bits else bits;
    }
    assert na[..|a|] == na && a[..|a|] == a;
  }

  // The value reached after the positions from i upwards have been processed.
  ghost predicate Reached<P>(g: Group<P>, r: P, sts: seq<PointState<P>>, ps: seq<P>, gst: PointState<P>, gen: P,
      i: nat, cs: seq<int>) {
    && |cs| == |ps| == |sts|
    && (forall k :: 0 <= k < |cs| ==> cs[k] == High(sts[k].rec.wnaf, i, 2))
    && r == g.add(Dot(g, cs, ps), Mul(g, High(gst.rec.wnaf, i, 2), gen))
  }

  // One iteration of the shared double-and-add loop.
  method Iterate<P(!new)>(g: Group<P>, r0: P, sts: seq<PointState<P>>, gst: PointState<P>, i: nat,
                          ghost vs: seq<int>, ghost ps: seq<P>, ghost vg: int, ghost gen: P, ghost cs: seq<int>)
    returns (r: P, ghost ds: seq<int>)
    requires IsGroup(g) && ValidStates(g, sts, vs, ps) && ValidState(g, gst, vg, gen, WINDOW_G)
    requires Reached(g, r0, sts, ps, gst, gen, i + 1, cs)
    ensures Reached(g, r, sts, ps, gst, gen, i, ds)
  {
    r := g.add(r0, r0);
    ghost var h, n := High(gst.rec.wnaf, i + 1, 2), DigitAt(gst.rec, i);
    ghost var es := Doubled(cs);
    DoubleSum(g, cs, ps, h, gen);
    r, ds := AddColumnTo(g, r, sts, i, vs, ps, es, Mul(g, 2 * h, gen));
    DigitAtStep(gst.rec, vg, WINDOW_G, i);
    r := AddDigit(g, r, gst, i, vg, gen, WINDOW_G);
    AppendMultiple(g, Dot(g, ds, ps), 2 * h, n, High(gst.rec.wnaf, i, 2), gen);
  }

  ghost function Doubled(cs: seq<int>): seq<int> {
    seq(|cs|, k requires 0 <= k < |cs| => 2 * cs[k])
  }

  lemma DoubleSum<P(!new)>(g: Group<P>, cs: seq<int>, ps: seq<P>, h: int, gen: P)
    requires IsGroup(g) && |cs| == |ps|
    ensures var r := g.add(Dot(g, cs, ps), Mul(g, h, gen));
      g.add(r, r) == g.add(Dot(g, Doubled(cs), ps), Mul(g, 2 * h, gen))
  {
    var x, y := Dot(g, cs, ps), Mul(g, h, gen);
    Swap(g, x, y, x, y);
    DotDouble(g, cs, Doubled(cs), ps);
    MulAdd(g, h, h, gen);
  }

  lemma AppendMultiple<P(!new)>(g: Group<P>, x: P, h: int, n: int, t: int, gen: P)
    requires IsGroup(g) && t == n + h
    ensures g.add(g.add(x, Mul(g, h, gen)), Mul(g, n, gen)) == g.add(x, Mul(g, t, gen))
  {
    Assoc(g, x, Mul(g, h, gen), Mul(g, n, gen));
    MulAdd(g, h, n, gen);
  }

  /** secp256k1_ecmult_strauss_wnaf: r = sum of na[i]*a[i], plus ng*gen when ng is given. */
  method StraussWnaf<P(!new, ==)>(g: Group<P>, a: seq<P>, na: seq<Scalar>, gen: P, preG: seq<P>, ng: Option<Scalar>)
    returns (r: P)
    requires IsGroup(g) && |a| == |na| && Killed(g, gen) && (forall k :: 0 <= k < |a| ==> Killed(g, a[k]))
    requires |preG| == TableSize(WINDOW_G) && IsTable(g, preG, gen)
    ensures r == g.add(Dot(g, na, a), Mul(g, OrZero(ng), gen))
  {
    var sts, bits;
    ghost var vs, ps;
    sts, bits, vs, ps := Select(g, a, na);
    var gst, bitsG := GeneratorState(g, gen, preG, ng);
    if bitsG > bits {
      bits := bitsG;
    }
    ghost var vg := Centered(OrZero(ng));
    r := g.zero;
    ghost var cs := seq(|ps|, k => 0);
    StartAtZero(g, sts, vs, ps, gst, vg, gen, bits, cs);
    for i := bits downto 0
      invariant Reached(g, r, sts, ps, gst, gen, i, cs)
    {
      r, cs := Iterate(g, r, sts, gst, i, vs, ps, vg, gen, cs);
    }
    FullSum(g, sts, vs, ps, gst, vg, cs);
    CenteredMultiple(g, OrZero(ng), gen);
  }

  function OrZero(s: Option<Scalar>): Scalar {
    match s
    case None => 0
    case Some(v) => v
  }

  // The generator's digits; all zero when there is no scalar for it.
  method RecodeGenerator(ng: Option<Scalar>) returns (st: Recoding)
    ensures Recodes(st, Centered(OrZero(ng)), WINDOW_G) && st.bits <= 256
  {
    if ng == None {
      var zeros := seq(256, k => 0);
      ValueZeroTail(zeros, 0, 256);
      assert zeros[..256] == zeros && zeros[..0] == [];
      NoScalar();
      return Recoding(0, zeros, 0);
    }
    st := Recode(0, ng.value, WINDOW_G);
  }

  // The generator's digits, with its precomputed table.
  method GeneratorState<P(!new)>(g: Group<P>, gen: P, preG: seq<P>, ng: Option<Scalar>)
    returns (st: PointState<P>, bits: nat)
    requires |preG| == TableSize(WINDOW_G) && IsTable(g, preG, gen)
    ensures ValidState(g, st, Centered(OrZero(ng)), gen, WINDOW_G) && st.rec.bits == bits
  {
    var rec := RecodeGenerator(ng);
    st, bits := PointState(rec, preG), rec.bits;
  }

  lemma NoScalar()
    ensures Centered(0) == 0
  {
    CenteredBound(0);
  }

  lemma StartAtZero<P(!new)>(g: Group<P>, sts: seq<PointState<P>>, vs: seq<int>, ps: seq<P>, gst: PointState<P>,
      vg: int, gen: P, bits: nat, cs: seq<int>)
    requires IsGroup(g) && ValidStates(g, sts, vs, ps) && ValidState(g, gst, vg, gen, WINDOW_G)
    requires gst.rec.bits <= bits && forall k :: 0 <= k < |sts| ==> sts[k].rec.bits <= bits
    requires |cs| == |ps| && forall k :: 0 <= k < |cs| ==> cs[k] == 0
    ensures Reached(g, g.zero, sts, ps, gst, gen, bits, cs)
  {
    forall k | 0 <= k < |cs| ensures cs[k] == High(sts[k].rec.wnaf, bits, 2) {
      HighZero(sts[k].rec.wnaf, bits, 2);
    }
    HighZero(gst.rec.wnaf, bits, 2);
    DotZero(g, cs, ps);
    MulOne(g, gen);
    Unit(g, g.zero);
  }

  lemma FullSum<P>(g: Group<P>, sts: seq<PointState<P>>, vs: seq<int>, ps: seq<P>, gst: PointState<P>, vg: int,
      cs: seq<int>)
    requires ValidStates(g, sts, vs, ps) && |cs| == |ps| && |gst.rec.wnaf| == 256 && Value(gst.rec.wnaf, 2) == vg
    requires forall k :: 0 <= k < |cs| ==> cs[k] == High(sts[k].rec.wnaf, 0, 2)
    ensures cs == vs && High(gst.rec.wnaf, 0, 2) == vg
  {
    forall k | 0 <= k < |cs| ensures cs[k] == vs[k] {
      assert sts[k].rec.wnaf[0..] == sts[k].rec.wnaf;
    }
    assert gst.rec.wnaf[0..] == gst.rec.wnaf;
  }

  /** secp256k1_ecmult: na*a + ng*gen for a single point. */
  method Ecmult<P(!new, ==)>(g: Group<P>, a: P, na: Scalar, gen: P, preG: seq<P>, ng: Option<Scalar>) returns (r: P)
    requires IsGroup(g) && Killed(g, a) && Killed(g, gen) && |preG| == TableSize(WINDOW_G) && IsTable(g, preG, gen)
    ensures r == g.add(Mul(g, na, a), Mul(g, OrZero(ng), gen))
  {
    r := StraussWnaf(g, [a], [na], gen, preG, ng);
    assert Dot(g, [na], [a]) == g.add(Dot(g, [na][..0], [a][..0]), Mul(g, na, a));
    Unit(g, Mul(g, na, a));
  }
}
