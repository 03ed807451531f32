/** Strauss' algorithm as the code runs it, on field elements: all tables over one z coordinate, the doublings and
    additions on the image of the curve under it, the generator's affine table with the inverse of its z coordinate, and
    one multiplication of z at the end.  It refines the algorithm over an abstract group. */
module CoordinateStrauss {
  import opened AbelianGroup
  import opened LinearCombination
  import opened Digits
  import opened Secp256k1
  import opened FieldElement
  import opened Points
  import opened Jacobian
  import opened CurveLaw
  import opened UnifiedAdd
  import opened PointTables
  import opened CurveGroup
  import opened IsomorphicCurve
  import opened CommonTables
  import opened Wnaf
  import opened Strauss
  import opened EcmultConst

  // ECMULT_TABLE_SIZE(WINDOW_A)
  const T: nat := 8

  function GeNeg(b: Ge): Ge {
    Ge(b.x, Neg(b.y), b.infinity)
  }

  // ECMULT_TABLE_GET_GE
  function Get(pre: seq<Ge>, n: int): Ge
    requires n % 2 == 1 && -2 * |pre| < n < 2 * |pre|
  {
    if n > 0 then pre[(n - 1) / 2] else GeNeg(pre[(-n - 1) / 2])
  }

  // ECMULT_TABLE_GET_GE_STORAGE
  function GetStored(pre: seq<Slot>, n: int): Ge
    requires n % 2 == 1 && -2 * |pre| < n < 2 * |pre|
  {
    if n > 0 then FromStorage(pre[(n - 1) / 2]) else GeNeg(FromStorage(pre[(-n - 1) / 2]))
  }

  function FromStorage(s: Slot): Ge {
    Ge(s.x, s.y, false)
  }

  /** The table of p on the image under w. */
  ghost predicate TableOn(inv: Element -> Element, pre: seq<Ge>, p: CurvePoint, w: Element) {
    forall k :: 0 <= k < |pre| ==> EntryOf(Mul(Curve(inv), 2 * k + 1, p), pre[k], w)
  }

  lemma NegatedMultiple(inv: Element -> Element, p: CurvePoint, n: int)
    requires IsSecp256k1(inv)
    ensures Mul(Curve(inv), -n, p) == Opposite(Mul(Curve(inv), n, p))
  {
    hide Mul, Curve, IsGroup;
    MulNeg(Curve(inv), n, p);
    NegIsOpposite(inv, Mul(Curve(inv), n, p));
  }

  lemma GetIsMultiple(inv: Element -> Element, pre: seq<Ge>, n: int, p: CurvePoint, w: Element)
    requires IsSecp256k1(inv) && TableOn(inv, pre, p, w) && n % 2 == 1 && -2 * |pre| < n < 2 * |pre|
    ensures EntryOf(Mul(Curve(inv), n, p), Get(pre, n), w)
  {
    hide Mul, Curve, PrimeOrder, Stretch, Neg;
    if n > 0 {
      assert EntryOf(Mul(Curve(inv), 2 * ((n - 1) / 2) + 1, p), pre[(n - 1) / 2], w);
    } else {
      var k := (-n - 1) / 2;
      assert EntryOf(Mul(Curve(inv), 2 * k + 1, p), pre[k], w);
      NegatedMultiple(inv, p, -n);
      StretchOpposite(Mul(Curve(inv), -n, p), w);
    }
  }

  lemma GetStoredIsMultiple(inv: Element -> Element, pre: seq<Slot>, n: int, p: CurvePoint)
    requires IsSecp256k1(inv) && HoldsMultiples(inv, pre, p) && n % 2 == 1 && -2 * |pre| < n < 2 * |pre|
    ensures var b := GetStored(pre, n); !b.infinity && Mul(Curve(inv), n, p) == Finite(b.x, b.y)
  {
    hide Mul, Curve, PrimeOrder, Neg;
    if n > 0 {
      assert Mul(Curve(inv), 2 * ((n - 1) / 2) + 1, p) == Finite(pre[(n - 1) / 2].x, pre[(n - 1) / 2].y);
    } else {
      var k := (-n - 1) / 2;
      assert Mul(Curve(inv), 2 * k + 1, p) == Finite(pre[k].x, pre[k].y);
      NegatedMultiple(inv, p, -n);
    }
  }

  /** The accumulator stands for s on the image under w. */
  ghost predicate Accumulates(r: Gej, s: CurvePoint, w: Element) {
    Represents(r, Image(s, w))
  }

  // r := r + digit*point from a table on the image, skipped for a zero digit.
  method AddEntry(inv: Element -> Element, r: Gej, pre: seq<Ge>, st: Recoding, i: nat, ghost v: int,
      ghost p: CurvePoint, ghost w: Element, ghost s: CurvePoint) returns (q: Gej)
    requires IsSecp256k1(inv) && w != 0 && Accumulates(r, s, w) && Recodes(st, v, WINDOW_A)
    requires |pre| == TableSize(WINDOW_A) && TableOn(inv, pre, p, w)
    ensures Accumulates(q, Curve(inv).add(s, Mul(Curve(inv), DigitAt(st, i), p)), w)
  {
    hide Mul, Curve, PrimeOrder, TableOn, Represents, Image, AddGeVar, Stretch, Recodes, IsGroup;
    DigitAtStep(st, v, WINDOW_A, i);
    var n := DigitAt(st, i);
    q := r;
    if n != 0 {
      GetIsMultiple(inv, pre, n, p, w);
      var tmpa := Get(pre, n);
      q := AddGeVar(r, tmpa).r;
      AddImage(inv, r, s, tmpa, Mul(Curve(inv), n, p), w);
    } else {
      AddNothing(inv, s, p);
    }
  }

  lemma AddNothing(inv: Element -> Element, s: CurvePoint, p: CurvePoint)
    requires IsSecp256k1(inv)
    ensures Curve(inv).add(s, Mul(Curve(inv), 0, p)) == s
  {
    hide IsGroup, Curve;
    Unit(Curve(inv), s);
  }

  // The same for the generator, whose table is affine on the curve itself.
  method AddStored(inv: Element -> Element, r: Gej, preG: seq<Slot>, st: Recoding, i: nat, w: Element, ghost v: int,
      ghost gen: CurvePoint, ghost s: CurvePoint) returns (q: Gej)
    requires IsSecp256k1(inv) && w != 0 && Accumulates(r, s, w) && Recodes(st, v, WINDOW_G)
    requires |preG| == TableSize(WINDOW_G) && HoldsMultiples(inv, preG, gen)
    ensures Accumulates(q, Curve(inv).add(s, Mul(Curve(inv), DigitAt(st, i), gen)), w)
  {
    hide Mul, Curve, PrimeOrder, HoldsMultiples, Represents, Image, AddZinvVar, Recodes, IsGroup, Pow2;
    DigitAtStep(st, v, WINDOW_G, i);
    var n := DigitAt(st, i);
    q := r;
    if n != 0 {
      GetStoredIsMultiple(inv, preG, n, gen);
      var tmpa := GetStored(preG, n);
      q := AddZinvVar(r, tmpa, w);
      AddZinvImage(inv, r, s, tmpa, Mul(Curve(inv), n, gen), w);
    } else {
      AddNothing(inv, s, gen);
    }
  }

  // The table of the point at index k.
  function TableOf(pre: seq<Ge>, k: nat): (t: seq<Ge>)
    requires k * T + T <= |pre|
    ensures |t| == T
  {
    pre[k * T..k * T + T]
  }

  lemma TableSizes()
    ensures TableSize(WINDOW_A) == T
  {
    assert Pow2(3) == 8;
  }

  /** Recoded scalars with the tables of their points, all of them on the image under w. */
  ghost predicate Ready(inv: Element -> Element, sts: seq<Recoding>, pre: seq<Ge>, vs: seq<int>, qs: seq<CurvePoint>,
      w: Element) {
    && |sts| == |vs| == |qs| && |pre| == |sts| * T && w != 0
    && (forall k :: 0 <= k < |sts| ==> Recodes(sts[k], vs[k], WINDOW_A))
    && (forall k :: 0 <= k < |sts| ==> TableOn(inv, TableOf(pre, k), qs[k], w))
  }

  // Add the digits at position i of all points.
  method AddColumn(inv: Element -> Element, r0: Gej, sts: seq<Recoding>, pre: seq<Ge>, i: nat, ghost vs: seq<int>,
      ghost qs: seq<CurvePoint>, ghost w: Element, ghost cs: seq<int>, ghost rest: CurvePoint, ghost s0: CurvePoint)
    returns (r: Gej, ghost ds: seq<int>, ghost s: CurvePoint)
    requires IsSecp256k1(inv) && Ready(inv, sts, pre, vs, qs, w) && Accumulates(r0, s0, w)
    requires |cs| == |qs| && s0 == Curve(inv).add(Dot(Curve(inv), cs, qs), rest)
    requires forall k :: 0 <= k < |cs| ==> cs[k] == 2 * High(sts[k].wnaf, i + 1, 2)
    ensures |ds| == |qs| && s == Curve(inv).add(Dot(Curve(inv), ds, qs), rest) && Accumulates(r, s, w)
    ensures forall k :: 0 <= k < |ds| ==> ds[k] == High(sts[k].wnaf, i, 2)
  {
    hide Mul, Curve, IsGroup, TableOn, Accumulates, Recodes, Dot, DigitAt, High, IsInverse;
    TableSizes();
    ghost var g := Curve(inv);
    r, ds, s := r0, cs, s0;
    for np := 0 to |sts|
      invariant |ds| == |qs| && s == g.add(Dot(g, ds, qs), rest) && Accumulates(r, s, w)
      invariant forall k :: 0 <= k < np ==> ds[k] == High(sts[k].wnaf, i, 2)
      invariant forall k :: np <= k < |ds| ==> ds[k] == cs[k]
    {
      DigitAtStep(sts[np], vs[np], WINDOW_A, i);
      ghost var d := DigitAt(sts[np], i);
      r := AddEntry(inv, r, TableOf(pre, np), sts[np], i, vs[np], qs[np], w, s);
      SwapLast(g, Dot(g, ds, qs), rest, Mul(g, d, qs[np]));
      DotUpdate(g, ds, qs, np, d);
      ds := ds[np := ds[np] + d];
      s := g.add(s, Mul(g, d, qs[np]));
    }
  }

  /** What the accumulator stands for once the positions from i upwards are done. */
  ghost predicate ReachedBy(inv: Element -> Element, r: Gej, sts: seq<Recoding>, qs: seq<CurvePoint>, gst: Recoding,
      gen: CurvePoint, w: Element, i: nat, cs: seq<int>) {
    && |cs| == |qs| == |sts| && (forall k :: 0 <= k < |cs| ==> cs[k] == High(sts[k].wnaf, i, 2))
    && Accumulates(r, Curve(inv).add(Dot(Curve(inv), cs, qs), Mul(Curve(inv), High(gst.wnaf, i, 2), gen)), w)
  }

  // One iteration of the loop.
  method Iterate(inv: Element -> Element, r0: Gej, sts: seq<Recoding>, pre: seq<Ge>, gst: Recoding, preG: seq<Slot>,
      i: nat, w: Element, ghost vs: seq<int>, ghost qs: seq<CurvePoint>, ghost vg: int, ghost gen: CurvePoint,
      ghost cs: seq<int>)
    returns (r: Gej, ghost ds: seq<int>)
    requires IsSecp256k1(inv) && Ready(inv, sts, pre, vs, qs, w) && Recodes(gst, vg, WINDOW_G)
    requires |preG| == TableSize(WINDOW_G) && HoldsMultiples(inv, preG, gen)
    requires ReachedBy(inv, r0, sts, qs, gst, gen, w, i + 1, cs)
    ensures ReachedBy(inv, r, sts, qs, gst, gen, w, i, ds)
  {
    hide Mul, Curve, IsGroup, TableOn, Recodes, Dot, DigitAt, High, IsInverse, HoldsMultiples, DoubleVar, Represents,
      Image, TableSize;
    ghost var g := Curve(inv);
    ghost var h, n := High(gst.wnaf, i + 1, 2), DigitAt(gst, i);
    ghost var s := g.add(Dot(g, cs, qs), Mul(g, h, gen));
    r := DoubleVar(r0).r;
    DoubleImage(inv, r0, s, w);
    DoubleSum(g, cs, qs, h, gen);
    ghost var t;
    r, ds, t := AddColumn(inv, r, sts, pre, i, vs, qs, w, Doubled(cs), Mul(g, 2 * h, gen), g.add(s, s));
    DigitAtStep(gst, vg, WINDOW_G, i);
    r := AddStored(inv, r, preG, gst, i, w, vg, gen, t);
    AppendMultiple(g, Dot(g, ds, qs), 2 * h, n, High(gst.wnaf, i, 2), gen);
  }

  // The inputs stand for points of the curve.
  ghost predicate Inputs(a: seq<Gej>, ps: seq<CurvePoint>) {
    |a| == |ps| && forall k :: 0 <= k < |a| ==> Represents(a[k], ps[k])
  }

  // The recoded scalars in the order of the inputs, without those that contribute nothing.
  ghost predicate Recoded(sts: seq<Recoding>, bits: nat, vs: seq<int>, qs: seq<CurvePoint>, ps: seq<CurvePoint>) {
    && |sts| == |vs| == |qs| && bits <= 256
    && (forall k :: 0 <= k < |sts| ==> Recodes(sts[k], vs[k], WINDOW_A) && sts[k].bits <= bits)
    && (forall k :: 0 <= k < |sts| ==> sts[k].input < |ps| && ps[sts[k].input] == qs[k] && qs[k].Finite?)
  }

  method RecodeAll(inv: Element -> Element, a: seq<Gej>, na: seq<Scalar>, ghost ps: seq<CurvePoint>)
    returns (sts: seq<Recoding>, bits: nat, ghost vs: seq<int>, ghost qs: seq<CurvePoint>)
    requires IsSecp256k1(inv) && Inputs(a, ps) && |na| == |a|
    ensures Recoded(sts, bits, vs, qs, ps) && Dot(Curve(inv), vs, qs) == Dot(Curve(inv), na, ps)
  {
    hide Mul, Curve, IsGroup, Dot, Recodes, IsInverse, OnCurve;
    ghost var g := Curve(inv);
    sts, bits, vs, qs := [], 0, [], [];
    for np := 0 to |a|
      invariant Recoded(sts, bits, vs, qs, ps) && Dot(g, vs, qs) == Dot(g, na[..np], ps[..np])
    {
      DotPrefix(g, na, ps, np);
      AddIsPlus(inv, ps[np], ps[np]);
      assert Represents(a[np], ps[np]);
      if na[np] == 0 || a[np].infinity {
        NothingAdded(inv, Dot(g, vs, qs), na[np], ps[np]);
        continue;
      }
      var st := Recode(np, na[np], WINDOW_A);
      KilledOnCurve(inv, ps[np]);
      CenteredMultiple(g, na[np], ps[np]);
      DotAppend(g, vs, qs, Centered(na[np]), ps[np]);
      RecodedBits(st, Centered(na[np]));
      sts, vs, qs := sts + [st], vs + [Centered(na[np])], qs + [ps[np]];
      bits := if st.bits > bits then st.bits else bits;
    }
    assert na[..|a|] == na && ps[..|a|] == ps;
  }

  lemma RecodedBits(st: Recoding, v: int)
    requires Recodes(st, v, WINDOW_A)
    ensures st.bits <= 256
  {
  }

  lemma KilledOnCurve(inv: Element -> Element, p: CurvePoint)
    requires IsSecp256k1(inv)
    ensures Killed(Curve(inv), p)
  {
    hide Mul, Curve, IsGroup;
    AddIsPlus(inv, p, p);
    if p.Infinity? {
      MulZero(Curve(inv), N);
    } else {
      assert HasOrderN(Curve(inv), p);
    }
  }

  lemma NothingAdded(inv: Element -> Element, s: CurvePoint, k: Scalar, p: CurvePoint)
    requires IsSecp256k1(inv) && (k == 0 || p.Infinity?)
    ensures Curve(inv).add(s, Mul(Curve(inv), k, p)) == s
  {
    hide Mul, Curve, IsGroup;
    var g := Curve(inv);
    AddIsPlus(inv, p, p);
    MulOne(g, p);
    MulZero(g, k);
    Unit(g, s);
  }

  // The odd multiples of all points, table by table.
  ghost function AllMultiples(inv: Element -> Element, qs: seq<CurvePoint>): (ps: seq<CurvePoint>)
    ensures |ps| == |qs| * T
  {
    if |qs| == 0 then [] else AllMultiples(inv, qs[..|qs| - 1]) + Multiples(inv, qs[|qs| - 1], T)
  }

  lemma {:induction false} AllMultiplesAt(inv: Element -> Element, qs: seq<CurvePoint>, k: nat, j: nat)
    requires k < |qs| && j < T
    ensures AllMultiples(inv, qs)[k * T + j] == Mul(Curve(inv), 2 * j + 1, qs[k])
  {
    hide Mul, Curve;
    if k < |qs| - 1 {
      AllMultiplesAt(inv, qs[..|qs| - 1], k, j);
    }
  }

  /** All tables over one z coordinate; without points that coordinate is 1. */
  method BuildTables(inv: Element -> Element, a: seq<Gej>, sts: seq<Recoding>, ghost bits: nat, ghost vs: seq<int>,
      ghost qs: seq<CurvePoint>, ghost ps: seq<CurvePoint>) returns (pre: seq<Ge>, w: Element)
    requires IsSecp256k1(inv) && Inputs(a, ps) && Recoded(sts, bits, vs, qs, ps)
    ensures Ready(inv, sts, pre, vs, qs, w)
  {
    hide Mul, Curve, PrimeOrder, Recodes, Represents, Linked, OnCurve, EntryOf, TableOn;
    pre, w := [], 1;
    if |sts| > 0 {
      var xs: seq<Gej>, zr: seq<Element> := [], [];
      ghost var l := Links([], []);
      NoLinks();
      for np := 0 to |sts|
        invariant Linked(l, xs, zr) && l.points == AllMultiples(inv, qs[..np])
      {
        assert Represents(a[sts[np].input], ps[sts[np].input]);
        assert qs[..np + 1][..np] == qs[..np];
        xs, zr, l := AppendTable(inv, a[sts[np].input], T, xs, zr, qs[np], l);
      }
      assert qs[..|sts|] == qs;
      LinkedLengths(l, xs, zr);
      pre, w := BringTogether(xs, zr, l);
      forall k | 0 <= k < |sts|
        ensures TableOn(inv, TableOf(pre, k), qs[k], w)
      {
        TableInPlace(inv, pre, qs, w, k);
      }
    }
  }

  lemma NoLinks()
    ensures Linked(Links([], []), [], [])
  {
  }

  lemma LinkedLengths(l: Links, xs: seq<Gej>, zr: seq<Element>)
    requires Linked(l, xs, zr)
    ensures |xs| == |zr| == |l.points|
  {
  }

  lemma TableInPlace(inv: Element -> Element, pre: seq<Ge>, qs: seq<CurvePoint>, w: Element, k: nat)
    requires |pre| == |qs| * T && k < |qs|
    requires forall i :: 0 <= i < |pre| ==> EntryOf(AllMultiples(inv, qs)[i], pre[i], w)
    ensures TableOn(inv, TableOf(pre, k), qs[k], w)
  {
    hide Mul, Curve, EntryOf;
    forall j | 0 <= j < T
      ensures EntryOf(Mul(Curve(inv), 2 * j + 1, qs[k]), TableOf(pre, k)[j], w)
    {
      AllMultiplesAt(inv, qs, k, j);
      assert TableOf(pre, k)[j] == pre[k * T + j];
    }
  }

  lemma StartsAtZero(inv: Element -> Element, sts: seq<Recoding>, bits: nat, vs: seq<int>, qs: seq<CurvePoint>,
      ps: seq<CurvePoint>, gst: Recoding, vg: int, gen: CurvePoint, top: nat, w: Element, r: Gej)
    requires IsSecp256k1(inv) && Recoded(sts, bits, vs, qs, ps) && Recodes(gst, vg, WINDOW_G) && bits <= top
    requires gst.bits <= top && r.infinity
    ensures ReachedBy(inv, r, sts, qs, gst, gen, w, top, seq(|qs|, k => 0))
  {
    var cs := seq(|qs|, k => 0);
    forall k | 0 <= k < |cs|
      ensures cs[k] == High(sts[k].wnaf, top, 2)
    {
      HighZero(sts[k].wnaf, top, 2);
    }
    HighZero(gst.wnaf, top, 2);
    hide IsGroup, Curve, Mul;
    var g := Curve(inv);
    AddIsPlus(inv, gen, gen);
    DotZero(g, cs, qs);
    MulOne(g, gen);
    Unit(g, g.zero);
  }

  /** secp256k1_ecmult_strauss_wnaf on coordinates: the Jacobian result stands for na[0]*ps[0] + ... + ng*gen. */
  method StraussOnCoordinates(inv: Element -> Element, a: seq<Gej>, na: seq<Scalar>, preG: seq<Slot>,
      ng: Option<Scalar>, ghost ps: seq<CurvePoint>, ghost gen: CurvePoint) returns (r: Gej)
    requires IsSecp256k1(inv) && Inputs(a, ps) && |na| == |a|
    requires |preG| == TableSize(WINDOW_G) && HoldsMultiples(inv, preG, gen)
    ensures Represents(r, Curve(inv).add(Dot(Curve(inv), na, ps), Mul(Curve(inv), OrZero(ng), gen)))
  {
    hide Mul, Curve, Dot, IsGroup, HoldsMultiples, Represents, Recodes, Ready, Recoded, ReachedBy, TableSize, Centered;
    ghost var g := Curve(inv);
    var sts, bits;
    ghost var vs, qs;
    sts, bits, vs, qs := RecodeAll(inv, a, na, ps);
    var pre, w := BuildTables(inv, a, sts, bits, vs, qs, ps);
    var gst := RecodeGenerator(ng);
    var top := if gst.bits > bits then gst.bits else bits;
    r := Gej(0, 0, 0, true);
    ghost var vg := Centered(OrZero(ng));
    StartsAtZero(inv, sts, bits, vs, qs, ps, gst, vg, gen, top, w, r);
    ghost var cs := seq(|qs|, k => 0);
    for i := top downto 0
      invariant ReachedBy(inv, r, sts, qs, gst, gen, w, i, cs)
    {
      r, cs := Iterate(inv, r, sts, pre, gst, preG, i, w, vs, qs, vg, gen, cs);
    }
    AllDigits(inv, r, sts, bits, vs, qs, ps, gst, vg, gen, w, cs);
    ReadyNonzero(inv, sts, pre, vs, qs, w);
    KilledOnCurve(inv, gen);
    CenteredMultiple(g, OrZero(ng), gen);
    ghost var s := g.add(Dot(g, na, ps), Mul(g, OrZero(ng), gen));
    BackFromImage(inv, r, s, w);
    if !r.infinity {
      r := r.(z := FMul(r.z, w));
    }
  }

  lemma ReadyNonzero(inv: Element -> Element, sts: seq<Recoding>, pre: seq<Ge>, vs: seq<int>, qs: seq<CurvePoint>,
      w: Element)
    requires Ready(inv, sts, pre, vs, qs, w)
    ensures w != 0
  {
  }

  // With all positions done the coefficients are the recoded scalars.
  lemma AllDigits(inv: Element -> Element, r: Gej, sts: seq<Recoding>, bits: nat, vs: seq<int>, qs: seq<CurvePoint>,
      ps: seq<CurvePoint>, gst: Recoding, vg: int, gen: CurvePoint, w: Element, cs: seq<int>)
    requires ReachedBy(inv, r, sts, qs, gst, gen, w, 0, cs) && Recoded(sts, bits, vs, qs, ps)
    requires Recodes(gst, vg, WINDOW_G)
    ensures Represents(r, Image(Curve(inv).add(Dot(Curve(inv), vs, qs), Mul(Curve(inv), vg, gen)), w))
  {
    hide Mul, Curve, Dot, Represents, Image, Encodes;
    forall k | 0 <= k < |cs|
      ensures cs[k] == vs[k]
    {
      assert sts[k].wnaf[0..] == sts[k].wnaf;
    }
    assert cs == vs;
    assert gst.wnaf[0..] == gst.wnaf;
  }

  /** secp256k1_ecmult on coordinates. */
  method EcmultOnCoordinates(inv: Element -> Element, a: Gej, na: Scalar, preG: seq<Slot>, ng: Option<Scalar>,
      ghost p: CurvePoint, ghost gen: CurvePoint) returns (r: Gej)
    requires IsSecp256k1(inv) && Represents(a, p) && |preG| == TableSize(WINDOW_G) && HoldsMultiples(inv, preG, gen)
    ensures Represents(r, Curve(inv).add(Mul(Curve(inv), na, p), Mul(Curve(inv), OrZero(ng), gen)))
  {
    hide Mul, Curve, IsGroup, HoldsMultiples, Represents, TableSize, IsInverse;
    r := StraussOnCoordinates(inv, [a], [na], preG, ng, [p], gen);
    ghost var g := Curve(inv);
    assert Dot(g, [na], [p]) == g.add(Dot(g, [na][..0], [p][..0]), Mul(g, na, p));
    Unit(g, Mul(g, na, p));
  }
}
