/** Tables of odd multiples: built on an isomorphic curve with one doubling, then brought to affine form or to a
    common z coordinate on the way back. */
module PointTables {
  import opened Secp256k1
  import opened FieldElement
  import opened Points
  import opened Jacobian
  import opened CurveLaw

  /** The i-th odd multiple, (2i+1)*p, by repeated addition of 2p. */
  function OddMultiple(inv: Element -> Element, p: Affine, i: nat): Affine {
    if i == 0 then p else Plus(inv, OddMultiple(inv, p, i - 1), Plus(inv, p, p))
  }

  /** The first n odd multiples are finite, and none but the last is 2p or its opposite: so it is for points whose order
      exceeds 2n. */
  ghost predicate Generic(inv: Element -> Element, p: Affine, n: nat) {
    && p.Finite? && p.y != 0
    && (forall i :: 0 <= i < n ==> OddMultiple(inv, p, i).Finite?)
    && (forall i :: 0 <= i < n - 1 ==> OddMultiple(inv, p, i).x != Plus(inv, p, p).x)
  }

  // The image of a finite point on the isomorphic curve.
  function Stretch(p: Affine, w: Element): Affine
    requires p.Finite?
  {
    Finite(FMul(p.x, FSqr(w)), FMul(p.y, Cube(w)))
  }

  // Back from the isomorphic curve: only the z coordinate changes.
  function Lift(a: Gej, w: Element): Gej {
    a.(z := FMul(a.z, w))
  }

  lemma LiftRepresents(inv: Element -> Element, a: Gej, w: Element, p: Affine)
    requires IsInverse(inv) && w != 0 && p.Finite? && Represents(a, Stretch(p, w))
    ensures Represents(Lift(a, w), p)
  {
    hide FMul;
    FNonzero(inv, a.z, w);
    FComm(a.z, w);
    SquareOfProduct(w, a.z);
    FAssoc(p.x, FSqr(w), FSqr(a.z));
    FAssoc(p.y, Cube(w), Cube(a.z));
  }

  lemma StretchScaled(p: Affine, w: Element)
    requires p.Finite?
    ensures ScaledBy(p.x, Stretch(p, w).x, w, 2) && ScaledBy(p.y, Stretch(p, w).y, w, 3)
  {
    FPowSmall(w);
  }

  // Scaling a slope by w scales the third point.
  lemma ThirdPointScaled(l: Element, l': Element, p: Affine, x2: Element, x2': Element, w: Element)
    requires p.Finite? && ScaledBy(l, l', w, 1) && ScaledBy(x2, x2', w, 2)
    ensures ThirdPoint(l', Stretch(p, w).x, Stretch(p, w).y, x2') == Stretch(ThirdPoint(l, p.x, p.y, x2), w)
  {
    hide FMul, FSub, ScaledBy, FPow;
    StretchScaled(p, w);
    var x, y, x', y' := p.x, p.y, Stretch(p, w).x, Stretch(p, w).y;
    ScaledMul(w, l, l', 1, l, l', 1);
    ScaledSub(w, FSqr(l), FSqr(l'), x, x', 2);
    ScaledSub(w, FSub(FSqr(l), x), FSub(FSqr(l'), x'), x2, x2', 2);
    var t, t' := FSub(FSub(FSqr(l), x), x2), FSub(FSub(FSqr(l'), x'), x2');
    ScaledSub(w, x, x', t, t', 2);
    ScaledMul(w, l, l', 1, FSub(x, t), FSub(x', t'), 2);
    ScaledSub(w, FMul(l, FSub(x, t)), FMul(l', FSub(x', t')), y, y', 3);
    FPowSmall(w);
    ScaledValue(t, t', w, 2);
    ScaledValue(FSub(FMul(l, FSub(x, t)), y), FSub(FMul(l', FSub(x', t')), y'), w, 3);
  }

  lemma ScaledValue(x: Element, x': Element, w: Element, n: nat)
    requires ScaledBy(x, x', w, n)
    ensures x' == FMul(x, FPow(w, n))
  {
  }

  // Quotients scale by the difference of the weights.
  lemma SlopeScaled(inv: Element -> Element, n: Element, n': Element, d: Element, d': Element, w: Element, k: nat)
    requires IsInverse(inv) && w != 0 && d != 0 && ScaledBy(n, n', w, k + 1) && ScaledBy(d, d', w, k)
    ensures d' != 0 && ScaledBy(FMul(n, inv(d)), FMul(n', inv(d')), w, 1)
  {
    hide FMul, FPow;
    ScaledNonzero(inv, d, d', w, k);
    Quotient(inv, n, d);
    Quotient(inv, n', d');
    var l, l' := FMul(n, inv(d)), FMul(n', inv(d'));
    var m := FMul(l, FPow(w, 1));
    SlopeTimes(l, m, d, d', n, n', w, k);
    SameFactor(inv, l', m, d');
  }

  lemma SlopeTimes(l: Element, m: Element, d: Element, d': Element, n: Element, n': Element, w: Element, k: nat)
    requires FMul(l, d) == n && ScaledBy(n, n', w, k + 1) && ScaledBy(d, d', w, k) && ScaledBy(l, m, w, 1)
    ensures FMul(m, d') == n'
  {
    hide FMul;
    ScaledMul(w, l, m, 1, d, d', k);
  }

  lemma SameFactor(inv: Element -> Element, x: Element, y: Element, d: Element)
    requires IsInverse(inv) && d != 0 && FMul(x, d) == FMul(y, d)
    ensures x == y
  {
    assert Inverts(inv, d);
    FCancel(x, d, inv(d));
    FCancel(y, d, inv(d));
  }

  lemma StretchInjective(inv: Element -> Element, p: Affine, q: Affine, w: Element)
    requires IsInverse(inv) && w != 0 && p.Finite? && q.Finite?
    ensures Stretch(p, w).x == Stretch(q, w).x <==> p.x == q.x
    ensures Stretch(p, w).y == Stretch(q, w).y <==> p.y == q.y
  {
    hide FMul;
    FNonzero(inv, w, w);
    FNonzero(inv, FSqr(w), w);
    if Stretch(p, w).x == Stretch(q, w).x {
      SameFactor(inv, p.x, q.x, FSqr(w));
    }
    if Stretch(p, w).y == Stretch(q, w).y {
      SameFactor(inv, p.y, q.y, Cube(w));
    }
  }

  /** The chord law commutes with the isomorphism. */
  lemma PlusStretched(inv: Element -> Element, p: Affine, q: Affine, w: Element)
    requires IsInverse(inv) && w != 0 && p.Finite? && q.Finite? && p.x != q.x
    ensures Plus(inv, p, q).Finite? && Plus(inv, Stretch(p, w), Stretch(q, w)) == Stretch(Plus(inv, p, q), w)
  {
    hide FMul, FSub, ScaledBy, ThirdPoint;
    StretchInjective(inv, p, q, w);
    StretchScaled(p, w);
    StretchScaled(q, w);
    var p', q' := Stretch(p, w), Stretch(q, w);
    SubZero(q.x, p.x);
    ScaledSub(w, q.y, q'.y, p.y, p'.y, 3);
    ScaledSub(w, q.x, q'.x, p.x, p'.x, 2);
    SlopeScaled(inv, FSub(q.y, p.y), FSub(q'.y, p'.y), FSub(q.x, p.x), FSub(q'.x, p'.x), w, 2);
    ThirdPointScaled(ChordSlope(inv, p, q), ChordSlope(inv, p', q'), p, q.x, q'.x, w);
  }

  // The chain of additions on the isomorphic curve.
  function ChainAt(start: Gej, d: Ge, k: nat): Gej {
    if k == 0 then start else AddGeVar(ChainAt(start, d, k - 1), d).r
  }

  function RatioAt(start: Gej, d: Ge, k: nat): Element
    requires k > 0
  {
    AddGeVar(ChainAt(start, d, k - 1), d).rzr
  }

  /** What the code sets up before the loop: 2p with its z coordinate dropped, and p stretched by it. */
  ghost predicate Setup(inv: Element -> Element, a: Gej, p: Affine, start: Gej, d: Ge, dz: Element) {
    && p.Finite? && Plus(inv, p, p).Finite? && dz != 0
    && Represents(start, Stretch(p, dz)) && !d.infinity && Finite(d.x, d.y) == Stretch(Plus(inv, p, p), dz)
  }

  method Begin(a: Gej, inv: Element -> Element, ghost p: Affine) returns (start: Gej, d: Ge, dz: Element)
    requires IsInverse(inv) && p.Finite? && p.y != 0 && Represents(a, p)
    ensures Setup(inv, a, p, start, d, dz) && start.z == a.z
  {
    hide FMul, ThirdPoint, DoubleVar;
    DoubleIsTangent(inv, a, p);
    var dj := DoubleVar(a).r;
    assert Plus(inv, p, p).Finite?;
    d := Ge(dj.x, dj.y, false);
    dz := dj.z;
    var s := SetGejZinv(a, dz);
    start := Gej(s.x, s.y, a.z, false);
    StretchedStart(a, p, dz);
  }

  lemma StretchedStart(a: Gej, p: Affine, w: Element)
    requires p.Finite? && Represents(a, p)
    ensures Represents(Gej(SetGejZinv(a, w).x, SetGejZinv(a, w).y, a.z, false), Stretch(p, w))
  {
    hide FMul;
    FSwapLast(p.x, FSqr(a.z), FSqr(w));
    FSwapLast(p.y, Cube(a.z), Cube(w));
  }

  /** Every link of the chain is the stretched odd multiple. */
  lemma {:induction false} ChainRepresents(inv: Element -> Element, a: Gej, p: Affine, start: Gej, d: Ge, dz: Element,
      n: nat, k: nat)
    requires IsInverse(inv) && Setup(inv, a, p, start, d, dz) && Generic(inv, p, n) && k < n
    ensures Represents(ChainAt(start, d, k), Stretch(OddMultiple(inv, p, k), dz))
  {
    if k > 0 {
      ChainRepresents(inv, a, p, start, d, dz, n, k - 1);
      var o, t := OddMultiple(inv, p, k - 1), Plus(inv, p, p);
      hide FMul, Plus, ThirdPoint, AddGeVar, Represents;
      PlusStretched(inv, o, t, dz);
      StretchInjective(inv, o, t, dz);
      AddGeVarIsPlus(inv, ChainAt(start, d, k - 1), Stretch(o, dz), d, Stretch(t, dz));
    }
  }

  // In a generic step the ratio of the z coordinates is the difference of the abscissas.
  lemma StepRatio(inv: Element -> Element, a: Gej, p: Affine, start: Gej, d: Ge, dz: Element, n: nat, k: nat)
    requires IsInverse(inv) && Setup(inv, a, p, start, d, dz) && Generic(inv, p, n) && 0 < k < n
    ensures var c := ChainAt(start, d, k - 1);
      && RatioAt(start, d, k) == FSub(FMul(d.x, FSqr(c.z)), c.x)
      && ChainAt(start, d, k).z == FMul(c.z, RatioAt(start, d, k))
  {
    ChainRepresents(inv, a, p, start, d, dz, n, k - 1);
    ChainRepresents(inv, a, p, start, d, dz, n, k);
    var c, o, t := ChainAt(start, d, k - 1), OddMultiple(inv, p, k - 1), Plus(inv, p, p);
    StretchInjective(inv, o, t, dz);
    assert FSub(FMul(d.x, FSqr(c.z)), c.x) != 0 by {
      hide FMul;
      SubZero(FMul(d.x, FSqr(c.z)), c.x);
      FNonzero(inv, c.z, c.z);
      if FMul(d.x, FSqr(c.z)) == c.x {
        SameFactor(inv, d.x, Stretch(o, dz).x, FSqr(c.z));
      }
    }
    hide FMul, FSub, ChordX, ChordY, DoubleVar;
  }

  /** A stored table entry: two field elements. */
  datatype Slot = Slot(x: Element, y: Element)

  ghost function Entry(inv: Element -> Element, p: Affine, i: nat): Slot
    requires OddMultiple(inv, p, i).Finite?
  {
    Slot(OddMultiple(inv, p, i).x, OddMultiple(inv, p, i).y)
  }

  ghost predicate Stored(s: seq<Slot>, start: Gej, d: Ge, from: nat, upTo: nat) {
    forall k :: from <= k < upTo && k < |s| ==>
      s[k].y == ChainAt(start, d, k).y && (k > 0 ==> s[k].x == RatioAt(start, d, k))
  }

  // Forward: every slot keeps the ratio of the z coordinates and the y coordinate.
  method StoreChain(pre: array<Slot>, start: Gej, d: Ge, dz: Element) returns (pj: Gej)
    requires pre.Length > 0
    modifies pre
    ensures pj == ChainAt(start, d, pre.Length - 1) && Stored(pre[..], start, d, 0, pre.Length)
  {
    hide AddGeVar;
    pj := start;
    pre[0] := Slot(dz, pj.y);
    for i := 1 to pre.Length
      invariant pj == ChainAt(start, d, i - 1)
      invariant forall k :: 0 <= k < i ==>
        pre[k].y == ChainAt(start, d, k).y && (k > 0 ==> pre[k].x == RatioAt(start, d, k))
    {
      var sum := AddGeVar(pj, d);
      pj := sum.r;
      pre[i] := Slot(sum.rzr, pj.y);
    }
  }

  // The abscissa is rebuilt from the ratio: x = dx/dz^2 - ratio/z^2.
  lemma RebuildX(c: Gej, dx: Element, dz: Element, dzInv: Element, ratio: Element, zi: Element)
    requires FMul(dz, dzInv) == 1 && FMul(zi, FMul(c.z, dz)) == 1 && ratio == FSub(FMul(dx, FSqr(c.z)), c.x)
    ensures FSub(FMul(FSqr(dzInv), dx), FMul(ratio, FSqr(zi))) == FMul(c.x, FSqr(zi))
  {
    hide FMul, FSub;
    // zi*c.z inverts dz, so its square is that of dzInv
    var u := FMul(zi, c.z);
    FAssoc(zi, c.z, dz);
    FComm(dz, dzInv);
    InverseUnique(u, dzInv, dz);
    SquareOfProduct(zi, c.z);
    FComm(FSqr(zi), FSqr(c.z));
    FAssoc(dx, FSqr(c.z), FSqr(zi));
    FComm(dx, FSqr(dzInv));
    FComm(ratio, FSqr(zi));
    FComm(FMul(dx, FSqr(c.z)), FSqr(zi));
    FComm(c.x, FSqr(zi));
    FDistribute(FSqr(zi), FMul(dx, FSqr(c.z)), c.x);
    SubSub(FMul(dx, FSqr(dzInv)), FMul(c.x, FSqr(zi)));
  }

  lemma SubSub(x: Element, y: Element)
    ensures FSub(x, FSub(x, y)) == y
  {
    IsSelf(x);
    IsSelf(y);
    IsSub(x, y, x, y);
    IsSub(x, FSub(x, y), x, x - y);
  }

  lemma InverseUnique(u: Element, v: Element, d: Element)
    requires FMul(u, d) == 1 && FMul(v, d) == 1
    ensures u == v
  {
    hide FMul;
    FComm(v, d);
    FCancel(u, d, v);
    FOne(v);
  }

  // Stepping the inverse z coordinate back by one ratio.
  lemma StepInverse(zi: Element, z: Element, ratio: Element, w: Element)
    requires FMul(zi, FMul(FMul(z, ratio), w)) == 1
    ensures FMul(FMul(zi, ratio), FMul(z, w)) == 1
  {
    hide FMul;
    FSwapLast(z, ratio, w);
    FComm(FMul(z, w), ratio);
    FAssoc(zi, ratio, FMul(z, w));
  }

  ghost predicate Finished(s: seq<Slot>, inv: Element -> Element, p: Affine, from: nat) {
    forall k :: from <= k < |s| ==> OddMultiple(inv, p, k).Finite? && s[k] == Entry(inv, p, k)
  }

  // With the inverse of its lifted z coordinate a link of the chain becomes the odd multiple.
  lemma LinkToEntry(inv: Element -> Element, a: Gej, p: Affine, start: Gej, d: Ge, dz: Element, n: nat, k: nat,
      zi: Element)
    requires IsInverse(inv) && Setup(inv, a, p, start, d, dz) && Generic(inv, p, n) && k < n
    requires FMul(zi, FMul(ChainAt(start, d, k).z, dz)) == 1
    ensures Slot(FMul(ChainAt(start, d, k).x, FSqr(zi)), FMul(ChainAt(start, d, k).y, Cube(zi))) == Entry(inv, p, k)
  {
    ChainRepresents(inv, a, p, start, d, dz, n, k);
    var c, o := ChainAt(start, d, k), OddMultiple(inv, p, k);
    LiftRepresents(inv, c, dz, o);
    hide FMul;
    FComm(zi, FMul(c.z, dz));
    AffineUnique(Lift(c, dz), zi, o.x, o.y);
  }

  /** secp256k1_ecmult_odd_multiples_table_storage_var: after the backward pass slot i holds the affine point (2i+1)*p.
      */
  method StorageTable(pre: array<Slot>, a: Gej, inv: Element -> Element, ghost p: Affine)
    requires IsInverse(inv) && Represents(a, p) && pre.Length > 0 && Generic(inv, p, pre.Length)
    modifies pre
    ensures Finished(pre[..], inv, p, 0)
  {
    hide FMul, FSub, OddMultiple, ChainAt, RatioAt, AffineOf, Plus, IsInverse, ThirdPoint;
    var n := pre.Length;
    assert p.Finite? && p.y != 0;
    var start, d, dz := Begin(a, inv, p);
    var pj := StoreChain(pre, start, d, dz);
    ChainRepresents(inv, a, p, start, d, dz, n, n - 1);
    var z := FMul(pj.z, dz);
    var zi := inv(z);
    InverseOf(inv, pj.z, dz);
    LinkToEntry(inv, a, p, start, d, dz, n, n - 1, zi);
    var last := pre[n - 1];
    pre[n - 1] := Slot(FMul(pj.x, FSqr(zi)), FMul(pj.y, Cube(zi)));
    var dzInv := inv(dz);
    OneInverse(inv, dz);
    var dx := FMul(FSqr(dzInv), d.x);
    var i := n - 1;
    while i > 0
      invariant 0 <= i < n && Stored(pre[..], start, d, 0, i) && Finished(pre[..], inv, p, i)
      invariant FMul(zi, FMul(ChainAt(start, d, i).z, dz)) == 1
      invariant i > 0 ==> last.x == RatioAt(start, d, i)
    {
      i := i - 1;
      StepRatio(inv, a, p, start, d, dz, n, i + 1);
      StepInverse(zi, ChainAt(start, d, i).z, last.x, dz);
      zi := FMul(zi, last.x);
      RebuildX(ChainAt(start, d, i), d.x, dz, dzInv, last.x, zi);
      LinkToEntry(inv, a, p, start, d, dz, n, i, zi);
      var x := FSub(dx, FMul(last.x, FSqr(zi)));
      last := pre[i];
      pre[i] := Slot(x, FMul(last.y, Cube(zi)));
    }
  }

  lemma InverseOf(inv: Element -> Element, z: Element, w: Element)
    requires IsInverse(inv) && z != 0 && w != 0
    ensures FMul(inv(FMul(z, w)), FMul(z, w)) == 1
  {
    FNonzero(inv, z, w);
    assert Inverts(inv, FMul(z, w));
    FComm(FMul(z, w), inv(FMul(z, w)));
  }

  lemma OneInverse(inv: Element -> Element, w: Element)
    requires IsInverse(inv) && w != 0
    ensures FMul(w, inv(w)) == 1
  {
    assert Inverts(inv, w);
  }

  /** secp256k1_ecmult_odd_multiples_table: Jacobian multiples and the ratios of neighbouring z coordinates. */
  method JacobianTable(prej: array<Gej>, zr: array<Element>, a: Gej, inv: Element -> Element, ghost p: Affine)
    returns (ghost start: Gej, ghost d: Ge, ghost dz: Element)
    requires IsInverse(inv) && p.Finite? && p.y != 0 && Represents(a, p) && prej.Length == zr.Length > 0
    modifies prej, zr
    ensures Setup(inv, a, p, start, d, dz) && start.z == a.z && zr[0] == dz
    ensures forall k :: 0 <= k < prej.Length - 1 ==> prej[k] == ChainAt(start, d, k)
    ensures prej[prej.Length - 1] == Lift(ChainAt(start, d, prej.Length - 1), dz)
    ensures forall k :: 0 < k < zr.Length ==> zr[k] == RatioAt(start, d, k)
  {
    hide AddGeVar, FMul, Setup, ChainAt, RatioAt;
    var s, e, ez := Begin(a, inv, p);
    start, d, dz := s, e, ez;
    prej[0] := s;
    zr[0] := ez;
    ChainStep(start, d, 1);
    for i := 1 to prej.Length
      invariant forall k :: 0 <= k < i ==> prej[k] == ChainAt(start, d, k)
      invariant zr[0] == ez && forall k :: 0 < k < i ==> zr[k] == RatioAt(start, d, k)
    {
      ChainStep(start, d, i);
      var sum := AddGeVar(prej[i - 1], e);
      prej[i] := sum.r;
      zr[i] := sum.rzr;
    }
    var last := prej.Length - 1;
    prej[last] := prej[last].(z := FMul(prej[last].z, ez));
  }

  lemma ChainStep(start: Gej, d: Ge, k: nat)
    requires k > 0
    ensures ChainAt(start, d, 0) == start
    ensures AddGeVar(ChainAt(start, d, k - 1), d) == Sum(ChainAt(start, d, k), RatioAt(start, d, k))
  {
    hide AddGeVar;
  }

  // The product of the ratios behind index i.
  ghost function Suffix(zr: seq<Element>, i: nat): Element
    decreases |zr| - i
  {
    if i + 1 >= |zr| then 1 else FMul(Suffix(zr, i + 1), zr[i + 1])
  }

  function ScaledXY(a: Gej, s: Element): Ge {
    Ge(FMul(a.x, FSqr(s)), FMul(a.y, Cube(s)), a.infinity)
  }

  lemma SuffixStep(zr: seq<Element>, i: nat)
    requires 0 < i < |zr|
    ensures Suffix(zr, |zr| - 1) == 1 && Suffix(zr, i - 1) == FMul(Suffix(zr, i), zr[i])
  {
  }

  /** secp256k1_ge_globalz_set_table_gej: the z coordinate of the last point becomes the common one. */
  method GlobalZ(r: array<Ge>, a: seq<Gej>, zr: seq<Element>) returns (globalz: Element)
    requires r.Length == |a| == |zr| > 0 && !a[|a| - 1].infinity
    modifies r
    ensures globalz == a[|a| - 1].z
    ensures forall k :: 0 <= k < |a| ==> r[k] == ScaledXY(a[k], Suffix(zr, k))
  {
    hide FMul, Suffix, ScaledXY;
    var i := |a| - 1;
    LastEntry(a, zr);
    r[i] := Ge(a[i].x, a[i].y, false);
    globalz := a[i].z;
    var zs := zr[i];
    while i > 0
      invariant 0 <= i < |a|
      invariant i == |a| - 1 ==> zs == zr[i]
      invariant i < |a| - 1 ==> zs == Suffix(zr, i)
      invariant forall k :: i <= k < |a| ==> r[k] == ScaledXY(a[k], Suffix(zr, k))
    {
      SuffixStep(zr, i);
      FOne(zr[i]);
      if i != |a| - 1 {
        zs := FMul(zs, zr[i]);
      }
      i := i - 1;
      r[i] := SetGejZinv(a[i], zs);
      SameAsScaled(a[i], zs);
    }
  }

  lemma SameAsScaled(a: Gej, s: Element)
    ensures SetGejZinv(a, s) == ScaledXY(a, s)
  {
  }

  lemma LastEntry(a: seq<Gej>, zr: seq<Element>)
    requires |a| == |zr| > 0 && !a[|a| - 1].infinity
    ensures Ge(a[|a| - 1].x, a[|a| - 1].y, false) == ScaledXY(a[|a| - 1], Suffix(zr, |a| - 1))
  {
    FOne(1);
    FOne(a[|a| - 1].x);
    FOne(a[|a| - 1].y);
  }

  // Every link's lifted z coordinate times the ratios behind it is the common z coordinate.
  lemma {:induction false} SuffixReachesLast(inv: Element -> Element, a: Gej, p: Affine, start: Gej, d: Ge,
      dz: Element, n: nat, k: nat, zr: seq<Element>)
    requires IsInverse(inv) && Setup(inv, a, p, start, d, dz) && Generic(inv, p, n) && k < n == |zr|
    requires forall i :: 0 < i < n ==> zr[i] == RatioAt(start, d, i)
    ensures FMul(FMul(ChainAt(start, d, k).z, dz), Suffix(zr, k)) == FMul(ChainAt(start, d, n - 1).z, dz)
    decreases n - k
  {
    hide FMul, ChainAt, RatioAt;
    if k == n - 1 {
      FOne(FMul(ChainAt(start, d, k).z, dz));
    } else {
      SuffixReachesLast(inv, a, p, start, d, dz, n, k + 1, zr);
      StepRatio(inv, a, p, start, d, dz, n, k + 1);
      var z, q, s := ChainAt(start, d, k).z, zr[k + 1], Suffix(zr, k + 1);
      FSwapLast(z, q, dz);
      FAssoc(FMul(z, dz), q, s);
      FComm(q, s);
    }
  }

  lemma CommonZEntry(o: Affine, c: Gej, w: Element, s: Element, globalz: Element)
    requires o.Finite? && AffineOf(o.x, o.y, Lift(c, w)) && FMul(FMul(c.z, w), s) == globalz
    ensures AffineOf(o.x, o.y, Gej(FMul(c.x, FSqr(s)), FMul(c.y, Cube(s)), globalz, false))
  {
    hide FMul;
    var z := FMul(c.z, w);
    SquareOfProduct(z, s);
    FAssoc(o.x, FSqr(z), FSqr(s));
    FAssoc(o.y, Cube(z), Cube(s));
  }

  /** secp256k1_ecmult_odd_multiples_table_globalz_windowa: all odd multiples over one z coordinate, without an
      inversion. */
  method GlobalTable(pre: array<Ge>, a: Gej, inv: Element -> Element, ghost p: Affine) returns (globalz: Element)
    requires IsInverse(inv) && Represents(a, p) && pre.Length > 0 && Generic(inv, p, pre.Length)
    modifies pre
    ensures forall k :: 0 <= k < pre.Length ==>
      OddMultiple(inv, p, k).Finite?
          && AffineOf(OddMultiple(inv, p, k).x, OddMultiple(inv, p, k).y, Gej(pre[k].x, pre[k].y, globalz, false))
  {
    hide FMul, OddMultiple, ChainAt, RatioAt, AffineOf, Plus, IsInverse, Setup, Suffix;
    var n := pre.Length;
    var prej, zr := new Gej[n](_ => Gej(0, 0, 0, true)), new Element[n](_ => 0);
    ghost var start, d, dz := JacobianTable(prej, zr, a, inv, p);
    ChainRepresents(inv, a, p, start, d, dz, n, n - 1);
    globalz := GlobalZ(pre, prej[..], zr[..]);
    hide ScaledXY;
    forall k | 0 <= k < n
      ensures OddMultiple(inv, p, k).Finite?
      ensures AffineOf(OddMultiple(inv, p, k).x, OddMultiple(inv, p, k).y, Gej(pre[k].x, pre[k].y, globalz, false))
    {
      SuffixReachesLast(inv, a, p, start, d, dz, n, k, zr[..]);
      ChainRepresents(inv, a, p, start, d, dz, n, k);
      assert dz != 0 by { SetupNonzero(inv, a, p, start, d, dz); }
      LiftRepresents(inv, ChainAt(start, d, k), dz, OddMultiple(inv, p, k));
      CommonZEntry(OddMultiple(inv, p, k), ChainAt(start, d, k), dz, Suffix(zr[..], k), globalz);
      LiftKeepsXY(ChainAt(start, d, k), dz, Suffix(zr[..], k));
    }
  }

  lemma LiftKeepsXY(c: Gej, w: Element, s: Element)
    ensures ScaledXY(Lift(c, w), s) == ScaledXY(c, s)
    ensures ScaledXY(c, s).x == FMul(c.x, FSqr(s)) && ScaledXY(c, s).y == FMul(c.y, Cube(s))
  {
  }

  lemma SetupNonzero(inv: Element -> Element, a: Gej, p: Affine, start: Gej, d: Ge, dz: Element)
    requires Setup(inv, a, p, start, d, dz)
    ensures dz != 0
  {
  }
}
