/** Domain parameters of the curve and the scalar operations every recoding uses. */
module Secp256k1 {
  import opened Digits

  // 2^256 minus a 129-bit constant: the order of the group of points.
  const N: int := 0xFFFFFFFF_FFFFFFFF_FFFFFFFF_FFFFFFFE_BAAEDCE6_AF48A03B_BFD25E8C_D0364141

  // 2^256 - 2^32 - 977: the characteristic of the coordinate field.
  const FIELD: int := 0xFFFFFFFF_FFFFFFFF_FFFFFFFF_FFFFFFFF_FFFFFFFF_FFFFFFFF_FFFFFFFE_FFFFFC2F

  type Scalar = s: int | 0 <= s < N

  function Negate(s: Scalar): Scalar {
    if s == 0 then 0 else N - s
  }

  predicate IsHigh(s: Scalar) {
    s > N / 2
  }

  // The constants lie where the window arithmetic needs them to.
  lemma OrderBounds()
    ensures Pow2(255) < N < Pow2(256) && 2 * N > FIELD > N && N % 2 == 1
  {
    Pow2Values();
  }
}
