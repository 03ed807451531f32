/** The tables of several points over one z coordinate: each table starts from the last z coordinate of the one before,
    so that a single backward pass over the ratios brings all of them together. */
module CommonTables {
  import opened AbelianGroup
  import opened Secp256k1
  import opened FieldElement
  import opened Points
  import opened Jacobian
  import opened CurveLaw
  import opened PointTables
  import opened CurveGroup
  import opened IsomorphicCurve
  import opened EcmultConst

  /** secp256k1_gej_rescale */
  function Rescale(a: Gej, s: Element): Gej {
    var zz := FSqr(s);
    Gej(FMul(a.x, zz), FMul(FMul(a.y, zz), s), FMul(a.z, s), a.infinity)
  }

  lemma RescaleRepresents(inv: Element -> Element, a: Gej, s: Element, p: Affine)
    requires IsInverse(inv) && s != 0 && p.Finite? && Represents(a, p)
    ensures Represents(Rescale(a, s), p)
  {
    hide FMul;
    FPowSmall(s);
    FAssoc(a.y, FSqr(s), s);
    RescaledRepresents(inv, a, Rescale(a, s), s, p);
  }

  /** Points in the order of the tables, with coordinates, ratios, and the z coordinates that belong to them. */
  datatype Links = Links(points: seq<CurvePoint>, zs: seq<Element>)

  // Entry k has the z coordinate zs[k], whatever its own field says.
  ghost predicate LinkAt(p: CurvePoint, a: Gej, z: Element) {
    p.Finite? && !a.infinity && z != 0 && AffineOf(p.x, p.y, a.(z := z))
  }

  /** The ratios lead from each z coordinate to the next, and the last one is where the code keeps it. */
  ghost predicate Linked(l: Links, xs: seq<Gej>, zr: seq<Element>) {
    && |l.points| == |l.zs| == |xs| == |zr|
    && (forall k :: 0 <= k < |xs| ==> LinkAt(l.points[k], xs[k], l.zs[k]))
    && (forall k :: 0 < k < |xs| ==> l.zs[k] == FMul(l.zs[k - 1], zr[k]))
    && (|xs| > 0 ==> xs[|xs| - 1].z == l.zs[|xs| - 1])
  }

  ghost function Multiples(inv: Element -> Element, p: CurvePoint, n: nat): (ps: seq<CurvePoint>)
    ensures |ps| == n && forall k :: 0 <= k < n ==> ps[k] == Mul(Curve(inv), 2 * k + 1, p)
  {
    seq(n, k requires 0 <= k < n => Mul(Curve(inv), 2 * k + 1, p))
  }

  // The z coordinates of one table.
  ghost function ChainZs(start: Gej, d: Ge, dz: Element, n: nat): (zs: seq<Element>)
    ensures |zs| == n && forall k :: 0 <= k < n ==> zs[k] == FMul(ChainAt(start, d, k).z, dz)
  {
    hide FMul, ChainAt;
    seq(n, k requires 0 <= k < n => FMul(ChainAt(start, d, k).z, dz))
  }

  lemma ChainLinks(inv: Element -> Element, a: Gej, p: CurvePoint, start: Gej, d: Ge, dz: Element, n: nat, k: nat)
    requires IsSecp256k1(inv) && p.Finite? && Setup(inv, a, p, start, d, dz) && 2 * n < N && k < n
    ensures var c := ChainAt(start, d, k);
      && LinkAt(Mul(Curve(inv), 2 * k + 1, p), c, FMul(c.z, dz))
      && (k > 0 ==> FMul(c.z, dz) == FMul(FMul(ChainAt(start, d, k - 1).z, dz), RatioAt(start, d, k)))
  {
    hide Mul, Curve, PrimeOrder, OddMultiple, FMul, ChainAt, RatioAt, Generic;
    GenericPoint(inv, p, n);
    GenericAt(inv, p, n, k);
    OddMultiples(inv, p, k);
    ChainRepresents(inv, a, p, start, d, dz, n, k);
    LiftRepresents(inv, ChainAt(start, d, k), dz, OddMultiple(inv, p, k));
    if k > 0 {
      StepRatio(inv, a, p, start, d, dz, n, k);
      FSwapLast(ChainAt(start, d, k - 1).z, RatioAt(start, d, k), dz);
    }
  }

  lemma GenericAt(inv: Element -> Element, p: Affine, n: nat, k: nat)
    requires Generic(inv, p, n) && k < n
    ensures OddMultiple(inv, p, k).Finite?
  {
  }

  /** One more table: the point is rescaled by the last z coordinate, and the first ratio takes in the point's own. */
  method AppendTable(inv: Element -> Element, a: Gej, n: nat, xs: seq<Gej>, zr: seq<Element>, ghost p: CurvePoint,
      ghost l: Links)
    returns (xs': seq<Gej>, zr': seq<Element>, ghost l': Links)
    requires IsSecp256k1(inv) && p.Finite? && Represents(a, p) && 0 < n && 2 * n < N && Linked(l, xs, zr)
    ensures Linked(l', xs', zr') && l'.points == l.points + Multiples(inv, p, n)
  {
    hide Mul, Curve, PrimeOrder, FMul, ChainAt, RatioAt, Setup, Multiples, AffineOf, Rescale, DoubleVar, OnCurve;
    var tmp := a;
    if |xs| > 0 {
      tmp := Rescale(a, xs[|xs| - 1].z);
      RescaleRepresents(inv, a, xs[|xs| - 1].z, p);
    }
    NoZeroOrdinate(inv, p);
    var prej, zrs := new Gej[n](_ => Gej(0, 0, 0, true)), new Element[n](_ => 0);
    ghost var start, d, dz := JacobianTable(prej, zrs, tmp, inv, p);
    if |xs| > 0 {
      zrs[0] := FMul(zrs[0], a.z);
    }
    xs', zr' := xs + prej[..], zr + zrs[..];
    ghost var block := Links(Multiples(inv, p, n), ChainZs(start, d, dz, n));
    l' := Links(l.points + block.points, l.zs + block.zs);
    BlockLinked(inv, tmp, p, start, d, dz, n, prej[..], zrs[..]);
    if |xs| > 0 {
      JointZ(a, xs[|xs| - 1].z, dz);
      RescaleZ(a, xs[|xs| - 1].z);
      ChainStep(start, d, 1);
    }
    JoinLinks(l, xs, zr, block, prej[..], zrs[..]);
  }

  lemma JoinLinks(l: Links, xs: seq<Gej>, zr: seq<Element>, b: Links, ys: seq<Gej>, wr: seq<Element>)
    requires Linked(l, xs, zr) && Linked(b, ys, wr) && |ys| > 0
    requires |xs| > 0 ==> b.zs[0] == FMul(l.zs[|xs| - 1], wr[0])
    ensures Linked(Links(l.points + b.points, l.zs + b.zs), xs + ys, zr + wr)
  {
    hide LinkAt, FMul, OnCurve;
    var zs, ws := l.zs + b.zs, zr + wr;
    forall k | 0 < k < |zs|
      ensures zs[k] == FMul(zs[k - 1], ws[k])
    {
      if k < |xs| {
        assert l.zs[k] == FMul(l.zs[k - 1], zr[k]);
      } else if k > |xs| {
        assert b.zs[k - |xs|] == FMul(b.zs[k - |xs| - 1], wr[k - |xs|]);
      }
    }
  }

  lemma RescaleZ(a: Gej, s: Element)
    ensures Rescale(a, s).z == FMul(a.z, s)
  {
  }

  lemma JointZ(a: Gej, z: Element, dz: Element)
    ensures FMul(FMul(a.z, z), dz) == FMul(z, FMul(dz, a.z))
  {
    hide FMul;
    FComm(a.z, z);
    FAssoc(z, a.z, dz);
    FComm(a.z, dz);
  }

  // What the table builder leaves behind, up to the first ratio.
  lemma BlockLinked(inv: Element -> Element, a: Gej, p: CurvePoint, start: Gej, d: Ge, dz: Element, n: nat,
      xs: seq<Gej>, zr: seq<Element>)
    requires IsSecp256k1(inv) && p.Finite? && Setup(inv, a, p, start, d, dz) && 0 < n && 2 * n < N && |xs| == |zr| == n
    requires forall k :: 0 <= k < n - 1 ==> xs[k] == ChainAt(start, d, k)
    requires xs[n - 1] == Lift(ChainAt(start, d, n - 1), dz)
    requires forall k :: 0 < k < n ==> zr[k] == RatioAt(start, d, k)
    ensures Linked(Links(Multiples(inv, p, n), ChainZs(start, d, dz, n)), xs, zr)
  {
    hide Mul, Curve, PrimeOrder, FMul, ChainAt, RatioAt, Setup, AffineOf;
    forall k | 0 <= k < n
      ensures LinkAt(Multiples(inv, p, n)[k], xs[k], ChainZs(start, d, dz, n)[k])
      ensures k > 0 ==> ChainZs(start, d, dz, n)[k] == FMul(ChainZs(start, d, dz, n)[k - 1], zr[k])
    {
      ChainLinks(inv, a, p, start, d, dz, n, k);
    }
  }

  // Every z coordinate times the ratios behind it is the last one.
  lemma {:induction false} SuffixLeadsToLast(zs: seq<Element>, zr: seq<Element>, k: nat)
    requires |zs| == |zr| > k && forall i :: 0 < i < |zs| ==> zs[i] == FMul(zs[i - 1], zr[i])
    ensures FMul(zs[k], Suffix(zr, k)) == zs[|zs| - 1]
    decreases |zs| - k
  {
    hide FMul;
    if k + 1 == |zs| {
      FOne(zs[k]);
    } else {
      SuffixLeadsToLast(zs, zr, k + 1);
      FAssoc(zs[k], zr[k + 1], Suffix(zr, k + 1));
      FComm(zr[k + 1], Suffix(zr, k + 1));
    }
  }

  /** The entry is affine on the image of the curve under w, and stands for p there. */
  ghost predicate EntryOf(p: CurvePoint, b: Ge, w: Element) {
    p.Finite? && !b.infinity && Finite(b.x, b.y) == Stretch(p, w)
  }

  lemma LinkToCommonZ(p: CurvePoint, a: Gej, z: Element, s: Element, w: Element)
    requires LinkAt(p, a, z) && FMul(z, s) == w
    ensures EntryOf(p, ScaledXY(a, s), w)
  {
    hide FMul;
    SquareOfProduct(z, s);
    FAssoc(p.x, FSqr(z), FSqr(s));
    FAssoc(p.y, Cube(z), Cube(s));
  }

  /** All tables at once are affine on the image under the last z coordinate. */
  method BringTogether(xs: seq<Gej>, zr: seq<Element>, ghost l: Links) returns (pre: seq<Ge>, globalz: Element)
    requires |xs| > 0 && Linked(l, xs, zr)
    ensures |pre| == |xs| && globalz != 0 && forall k :: 0 <= k < |pre| ==> EntryOf(l.points[k], pre[k], globalz)
  {
    hide FMul, Suffix, ScaledXY, AffineOf, EntryOf;
    var r := new Ge[|xs|](_ => Ge(0, 0, true));
    assert LinkAt(l.points[|xs| - 1], xs[|xs| - 1], l.zs[|xs| - 1]);
    globalz := GlobalZ(r, xs, zr);
    pre := r[..];
    forall k | 0 <= k < |pre|
      ensures EntryOf(l.points[k], pre[k], globalz)
    {
      SuffixLeadsToLast(l.zs, zr, k);
      LinkToCommonZ(l.points[k], xs[k], l.zs[k], Suffix(zr, k), globalz);
    }
  }
}
