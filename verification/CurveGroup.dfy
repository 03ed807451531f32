/** The points of the curve under the chord-and-tangent law, and the formulas as the operations of that group: what the
    algorithms over an arbitrary group are run with. */
module CurveGroup {
  import opened AbelianGroup
  import opened Digits
  import opened Secp256k1
  import opened FieldElement
  import opened Points
  import opened Jacobian
  import opened CurveLaw
  import opened UnifiedAdd
  import opened PointTables
  import opened Strauss
  import opened EcmultConst

  type CurvePoint = p: Affine | OnCurve(p) witness Infinity

  const ORIGIN: CurvePoint := Infinity

  function Opposite(p: Affine): Affine {
    match p
    case Infinity => Infinity
    case Finite(x, y) => Finite(x, Neg(y))
  }

  lemma NegSquares(y: Element)
    ensures FSqr(Neg(y)) == FSqr(y)
  {
    hide FMul, FSub, Is;
    var minus: int := 0 - (y as int);
    IsSelf(y);
    NegValue(y, y);
    IsSqr(y, y);
    IsSqr(Neg(y), minus);
    SquareOfNegative(y);
    SameResidue(FSqr(Neg(y)), FSqr(y), minus * minus, y * y);
  }

  lemma SquareOfNegative(y: int)
    ensures (0 - y) * (0 - y) == y * y
  {
  }

  lemma OppositeOnCurve(p: Affine)
    requires OnCurve(p)
    ensures OnCurve(Opposite(p))
  {
    hide FMul, FAdd, Neg;
    if p.Finite? {
      NegSquares(p.y);
    }
  }

  /** The curve with its law.  That the law keeps to the curve is proved (PlusOnCurve, OppositeOnCurve). */
  ghost function Curve(inv: Element -> Element): Group<CurvePoint> {
    hide *;
    Group(ORIGIN, (p: CurvePoint, q: CurvePoint) => Kept(Plus(inv, p, q)), (p: CurvePoint) => Kept(Opposite(p)))
  }

  ghost function Kept(p: Affine): CurvePoint {
    if OnCurve(p) then p else Infinity
  }

  /** The curve is a group of prime order N: the one fact about the domain parameters that is taken from outside. */
  ghost predicate IsSecp256k1(inv: Element -> Element) {
    IsInverse(inv) && PrimeOrder(Curve(inv))
  }

  lemma AddIsPlus(inv: Element -> Element, p: CurvePoint, q: CurvePoint)
    requires IsInverse(inv)
    ensures Curve(inv).add(p, q) == Plus(inv, p, q) && Curve(inv).zero == Infinity
  {
    hide Plus, OnCurve;
    PlusOnCurve(inv, p, q);
  }

  lemma NegIsOpposite(inv: Element -> Element, p: CurvePoint)
    ensures Curve(inv).neg(p) == Opposite(p)
  {
    hide OnCurve, Opposite;
    OppositeOnCurve(p);
  }

  /** No point of the curve has ordinate 0: it would be its own opposite, and N is odd. */
  lemma NoZeroOrdinate(inv: Element -> Element, p: CurvePoint)
    requires IsSecp256k1(inv) && p.Finite?
    ensures p.y != 0
  {
    hide OnCurve, IsGroup, Mul;
    var g := Curve(inv);
    AddIsPlus(inv, p, p);
    assert HasOrderN(g, p);
    NoTwoTorsion(g, p);
  }

  /** secp256k1_gej_double_var doubles every point of the curve. */
  lemma DoubleAdds(inv: Element -> Element, a: Gej, p: CurvePoint)
    requires IsSecp256k1(inv) && Represents(a, p)
    ensures Represents(DoubleVar(a).r, Curve(inv).add(p, p))
  {
    AddIsPlus(inv, p, p);
    if p.Finite? {
      NoZeroOrdinate(inv, p);
      hide IsSecp256k1;
      DoubleIsTangent(inv, a, p);
    }
  }

  /** secp256k1_gej_add_var adds any two points of the curve. */
  lemma AddVarAdds(inv: Element -> Element, a: Gej, p: CurvePoint, b: Gej, q: CurvePoint)
    requires IsSecp256k1(inv) && Represents(a, p) && Represents(b, q)
    ensures Represents(AddVar(a, b).r, Curve(inv).add(p, q))
  {
    hide Represents, AddVar;
    AddIsPlus(inv, p, q);
    if p.Finite? {
      NoZeroOrdinate(inv, p);
    }
    AddVarIsPlus(inv, a, p, b, q);
  }

  /** secp256k1_gej_add_ge_var adds an affine point. */
  lemma AddGeVarAdds(inv: Element -> Element, a: Gej, p: CurvePoint, b: Ge, q: CurvePoint)
    requires IsSecp256k1(inv) && Represents(a, p) && q == if b.infinity then Infinity else Finite(b.x, b.y)
    ensures Represents(AddGeVar(a, b).r, Curve(inv).add(p, q))
  {
    hide Represents, AddGeVar;
    AddIsPlus(inv, p, q);
    if p.Finite? {
      NoZeroOrdinate(inv, p);
    }
    AddGeVarIsPlus(inv, a, p, b, q);
  }

  /** secp256k1_gej_add_zinv_var adds a point given with the inverse of its z coordinate. */
  lemma AddZinvAdds(inv: Element -> Element, a: Gej, p: CurvePoint, b: Ge, bzinv: Element, w: Element, q: CurvePoint)
    requires IsSecp256k1(inv) && Represents(a, p) && FMul(w, bzinv) == 1 && Represents(Gej(b.x, b.y, w, b.infinity), q)
    ensures Represents(AddZinvVar(a, b, bzinv), Curve(inv).add(p, q))
  {
    hide Represents, AddZinvVar;
    AddIsPlus(inv, p, q);
    if p.Finite? {
      NoZeroOrdinate(inv, p);
    }
    AddZinvIsPlus(inv, a, p, b, bzinv, w, q);
  }

  /** secp256k1_gej_add_ge, the branch-free addition, adds any finite affine point of the curve to any point of it. */
  lemma AddGeAdds(inv: Element -> Element, a: Gej, p: CurvePoint, q: CurvePoint)
    requires IsSecp256k1(inv) && Represents(a, p) && q.Finite?
    ensures Represents(UnifiedAdd.AddGe(a, Ge(q.x, q.y, false)), Curve(inv).add(p, q))
  {
    hide Represents, UnifiedAdd.AddGe;
    AddIsPlus(inv, p, q);
    NoZeroOrdinate(inv, q);
    AddGeIsPlus(inv, a, p, q);
  }

  /** The chain of additions of 2p yields the odd multiples. */
  lemma {:induction false} OddMultiples(inv: Element -> Element, p: CurvePoint, i: nat)
    requires IsSecp256k1(inv)
    ensures OddMultiple(inv, p, i) == Mul(Curve(inv), 2 * i + 1, p)
  {
    hide Mul, Plus, Curve, IsGroup;
    var g := Curve(inv);
    MulOne(g, p);
    if i > 0 {
      OddMultiples(inv, p, i - 1);
      AddIsPlus(inv, p, p);
      AddIsPlus(inv, Mul(g, 2 * i - 1, p), Mul(g, 2, p));
      MulAdd(g, 2 * i - 1, 2, p);
    }
  }

  lemma NonzeroIsFinite(inv: Element -> Element, p: CurvePoint, k: int)
    requires IsSecp256k1(inv) && p.Finite? && k != 0 && -N < k < N
    ensures Mul(Curve(inv), k, p).Finite?
  {
    hide Mul, IsGroup;
    assert HasOrderN(Curve(inv), p);
    NonzeroMultiple(Curve(inv), p, k);
  }

  // An odd multiple over the abscissa of 2p would be 2p or its opposite.
  lemma DistinctAbscissas(inv: Element -> Element, p: CurvePoint, i: nat)
    requires IsSecp256k1(inv) && p.Finite? && 2 * i + 3 < N
    ensures var g := Curve(inv);
      Mul(g, 2 * i + 1, p).Finite? && Mul(g, 2, p).Finite? && Mul(g, 2 * i + 1, p).x != Mul(g, 2, p).x
  {
    hide Mul, IsGroup;
    var g := Curve(inv);
    NonzeroIsFinite(inv, p, 2 * i + 1);
    NonzeroIsFinite(inv, p, 2);
    NonzeroIsFinite(inv, p, 2 * i + 3);
    NonzeroIsFinite(inv, p, 2 * i - 1);
    var q, t := Mul(g, 2 * i + 1, p), Mul(g, 2, p);
    MulAdd(g, 2 * i + 1, 2, p);
    AddIsPlus(inv, q, t);
    MulAdd(g, 2 * i - 1, 2, p);
    var u := Mul(g, 2 * i - 1, p);
    if q == t {
      // u + 2p = 2p
      Comm(g, u, t);
      Assoc(g, g.neg(t), t, u);
      Inverse(g, t);
      Unit(g, u);
    }
  }

  /** Every finite point of the curve is generic for tables of less than N/2 entries. */
  lemma GenericPoint(inv: Element -> Element, p: CurvePoint, n: nat)
    requires IsSecp256k1(inv) && p.Finite? && 2 * n < N
    ensures Generic(inv, p, n)
  {
    hide Mul, IsGroup, Plus, OddMultiple, Curve, OnCurve, HasOrderN;
    var g := Curve(inv);
    NoZeroOrdinate(inv, p);
    AddIsPlus(inv, p, p);
    MulOne(g, p);
    NonzeroIsFinite(inv, p, 2);
    hide IsSecp256k1;
    forall i | 0 <= i < n
      ensures OddMultiple(inv, p, i).Finite?
      ensures i < n - 1 ==> OddMultiple(inv, p, i).x != Plus(inv, p, p).x
    {
      OddMultiples(inv, p, i);
      NonzeroIsFinite(inv, p, 2 * i + 1);
      if i < n - 1 {
        DistinctAbscissas(inv, p, i);
      }
    }
  }

  /** The slots hold the affine coordinates of p, 3p, 5p, ... */
  ghost predicate HoldsMultiples(inv: Element -> Element, s: seq<Slot>, p: CurvePoint) {
    forall k :: 0 <= k < |s| ==> Mul(Curve(inv), 2 * k + 1, p) == Finite(s[k].x, s[k].y)
  }

  /** The table in storage, for every finite point of the curve. */
  method MultiplesInStorage(pre: array<Slot>, a: Gej, inv: Element -> Element, ghost p: CurvePoint)
    requires IsSecp256k1(inv) && p.Finite? && Represents(a, p) && 0 < pre.Length && 2 * pre.Length < N
    modifies pre
    ensures HoldsMultiples(inv, pre[..], p)
  {
    hide Mul, Curve, PrimeOrder, OddMultiple, Represents, Generic;
    GenericPoint(inv, p, pre.Length);
    StorageTable(pre, a, inv, p);
    forall k | 0 <= k < pre.Length
      ensures Mul(Curve(inv), 2 * k + 1, p) == Finite(pre[k].x, pre[k].y)
    {
      OddMultiples(inv, p, k);
    }
  }

  /** (x, y) with the z coordinate given stands for the finite point q. */
  ghost predicate ShownAt(q: Affine, b: Ge, z: Element) {
    q.Finite? && AffineOf(q.x, q.y, Gej(b.x, b.y, z, false))
  }

  /** The table over one z coordinate, for every finite point of the curve. */
  method MultiplesOverOneZ(pre: array<Ge>, a: Gej, inv: Element -> Element, ghost p: CurvePoint)
    returns (globalz: Element)
    requires IsSecp256k1(inv) && p.Finite? && Represents(a, p) && 0 < pre.Length && 2 * pre.Length < N
    modifies pre
    ensures forall k :: 0 <= k < pre.Length ==> ShownAt(Mul(Curve(inv), 2 * k + 1, p), pre[k], globalz)
  {
    hide Mul, Curve, PrimeOrder, OddMultiple, Represents, Generic, AffineOf, OnCurve, FMul;
    GenericPoint(inv, p, pre.Length);
    globalz := GlobalTable(pre, a, inv, p);
    forall k | 0 <= k < pre.Length
      ensures ShownAt(Mul(Curve(inv), 2 * k + 1, p), pre[k], globalz)
    {
      OddMultiples(inv, p, k);
    }
  }
}
