/** Scalars as residues modulo the order of the group. */
module ScalarElement {
  import opened Digits
  import opened Residues
  import opened Secp256k1

  /** The residue of an integer. */
  function ToScalar(v: int): Scalar {
    Residue(v, N)
  }

  /** Equal modulo the order. */
  ghost predicate Same(u: int, v: int) {
    ToScalar(u) == ToScalar(v)
  }

  lemma ScalarIsMod(v: int)
    ensures ToScalar(v) == v % N
  {
    ResidueIsMod(v, N);
  }

  /** x is the residue that stands for the integer v. */
  ghost predicate Rep(x: Scalar, v: int) {
    x == ToScalar(v)
  }

  function MulS(x: Scalar, y: Scalar): Scalar {
    ToScalar(x * y)
  }

  function AddS(x: Scalar, y: Scalar): Scalar {
    ToScalar(x + y)
  }

  lemma ModShift(v: int, k: int)
    ensures ToScalar(v + k * N) == ToScalar(v)
  {
    ScalarIsMod(v);
    ScalarIsMod(v + k * N);
    DivModEq(v, N);
    DivModUnique(v + k * N, N, v / N + k, v % N);
  }

  // A representative differs from its residue by a multiple of the order.
  lemma Representative(x: Scalar, u: int) returns (k: int)
    requires Rep(x, u)
    ensures u == x + k * N
  {
    ScalarIsMod(u);
    DivModEq(u, N);
    k := u / N;
  }

  // Integers with the same residue differ by a multiple of the order.
  lemma Distance(u: int, v: int) returns (k: int)
    requires ToScalar(u) == ToScalar(v)
    ensures u == v + k * N
  {
    var p := Representative(ToScalar(u), u);
    var q := Representative(ToScalar(v), v);
    k := p - q;
  }

  lemma RepMul(x: Scalar, y: Scalar, u: int, v: int)
    requires Rep(x, u) && Rep(y, v)
    ensures Rep(MulS(x, y), u * v)
  {
    var p := Representative(x, u);
    var q := Representative(y, v);
    hide ToScalar;
    ProductResidue(x, y, p, q, u, v);
  }

  lemma ProductResidue(x: int, y: int, p: int, q: int, u: int, v: int)
    requires u == p * N + x && v == q * N + y
    ensures ToScalar(u * v) == ToScalar(x * y)
  {
    assert u * v == x * y + (p * v + x * q) * N by {
      assert u * v == p * N * v + x * v;
      assert x * v == x * q * N + x * y;
    }
    ModShift(x * y, p * v + x * q);
  }

  lemma RepAdd(x: Scalar, y: Scalar, u: int, v: int)
    requires Rep(x, u) && Rep(y, v)
    ensures Rep(AddS(x, y), u + v)
  {
    var p := Representative(x, u);
    var q := Representative(y, v);
    hide ToScalar;
    ModShift(x + y, p + q);
    assert u + v == x + y + (p + q) * N;
  }

  lemma RepNegate(x: Scalar, u: int)
    requires Rep(x, u)
    ensures Rep(Negate(x), -u)
  {
    var k := Representative(x, u);
    RepSelf(Negate(x));
    hide ToScalar;
    if x == 0 {
      ModShift(0, -k);
      assert -u == 0 + -k * N;
    } else {
      ModShift(N - x, -k - 1);
      assert -u == N - x + (-k - 1) * N;
    }
  }

  lemma RepSelf(x: Scalar)
    ensures Rep(x, x)
  {
  }

  ghost predicate InvertsScalar(inv: Scalar -> Scalar, s: Scalar) {
    s != 0 ==> MulS(s, inv(s)) == 1
  }

  /** inv inverts every non-zero scalar, as the exponentiation by the order less two does. */
  ghost predicate IsScalarInverse(inv: Scalar -> Scalar) {
    forall s {:trigger InvertsScalar(inv, s)} :: InvertsScalar(inv, s)
  }
}
