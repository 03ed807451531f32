/** Points in affine and in Jacobian coordinates. */
module Points {
  import opened Secp256k1
  import opened FieldElement

  datatype Ge = Ge(x: Element, y: Element, infinity: bool)
  datatype Gej = Gej(x: Element, y: Element, z: Element, infinity: bool)

  function Cube(z: Element): Element {
    FMul(FSqr(z), z)
  }

  /** (x, y) are the affine coordinates of the Jacobian point (X, Y, Z): x*Z^2 = X and y*Z^3 = Y. */
  ghost predicate AffineOf(x: Element, y: Element, p: Gej) {
    FMul(x, FSqr(p.z)) == p.x && FMul(y, Cube(p.z)) == p.y
  }

  /** secp256k1_ge_set_gej_zinv */
  function SetGejZinv(p: Gej, zi: Element): Ge {
    var zi2 := FSqr(zi);
    var zi3 := FMul(zi2, zi);
    Ge(FMul(p.x, zi2), FMul(p.y, zi3), p.infinity)
  }

  lemma SquareInverse(z: Element, zi: Element)
    requires FMul(z, zi) == 1
    ensures FMul(FSqr(zi), FSqr(z)) == 1 && FMul(Cube(zi), Cube(z)) == 1
  {
    hide FMul;
    FSwap(zi, zi, z, z);
    FComm(z, zi);
    FOne(1);
    FSwap(FSqr(zi), zi, FSqr(z), z);
  }

  /** With the inverse of its z coordinate a finite point becomes affine. */
  lemma ZinvIsAffine(p: Gej, zi: Element)
    requires FMul(p.z, zi) == 1
    ensures AffineOf(SetGejZinv(p, zi).x, SetGejZinv(p, zi).y, p)
  {
    hide FMul;
    SquareInverse(p.z, zi);
    FCancel(p.x, FSqr(zi), FSqr(p.z));
    FCancel(p.y, Cube(zi), Cube(p.z));
  }

  /** Affine coordinates of a finite point are unique. */
  lemma AffineUnique(p: Gej, zi: Element, x: Element, y: Element)
    requires FMul(p.z, zi) == 1 && AffineOf(x, y, p)
    ensures x == SetGejZinv(p, zi).x && y == SetGejZinv(p, zi).y
  {
    hide FMul;
    SquareInverse(p.z, zi);
    FComm(FSqr(zi), FSqr(p.z));
    FComm(Cube(zi), Cube(p.z));
    FCancel(x, FSqr(p.z), FSqr(zi));
    FCancel(y, Cube(p.z), Cube(zi));
  }
}
