/** The endomorphism split: a scalar becomes two halves of half the length. */
module SplitLambda {
  import opened Digits
  import opened Secp256k1
  import opened Scalar4x64
  import opened ScalarOps

  // A cube root of unity modulo N, and a short basis (A1, -C1), (A2, A1) of the pairs (x, y) with x + LAMBDA*y = 0
  // modulo N.
  const LAMBDA: int := 0x5363AD4C_C05C30E0_A5261C02_8812645A_122E22EA_20816678_DF02967C_1B23BD72
  const A1: int := 0x3086D221_A7D46BCD_E86C90E4_9284EB15
  const A2: int := 0x1_14CA50F7_A8E2F3F6_57C1108D_9D44CFD8
  const C1: int := 0xE4437ED6_010E8828_6F547FA9_0ABFE4C3
  const Q1: int := 0x4a5ac2bf7b5f37f9f1db10d7a2a9c981
  const Q2: int := 0xfce9b1dd4eb7dd2718a2906787061b2

  lemma Lattice()
    ensures A1 * A1 + C1 * A2 == N
    ensures LAMBDA * C1 == A1 + Q1 * N && LAMBDA * A1 == Q2 * N - A2
    ensures (LAMBDA * LAMBDA + LAMBDA + 1) % N == 0
  {
  }

  // The 272-bit estimates of A1/N and C1/N, scaled by 2^272.
  const G1: int := 0x3086_D221A7D4_6BCDE86C_90E49284_EB153DAB
  const G2: int := 0xE443_7ED6010E_88286F54_7FA90ABF_E4C42212

  const T: int := 0x1_0000_0000_0000_0000_0000_0000_0000_0000_0000_0000_0000_0000_0000_0000_0000_0000_0000
  const HALF: int := 0x8000_0000_0000_0000_0000_0000_0000_0000_0000_0000_0000_0000_0000_0000_0000_0000_0000

  const MINUS_LAMBDA: Limbs4 := Limbs4(0xE0CFC810B51283CF, 0xA880B9FC8EC739C2, 0x5AD9E3FD77ED9BA4, 0xAC9C52B33FA3CF1F)
  const MINUS_B1: Limbs4 := Limbs4(0x6F547FA90ABFE4C3, 0xE4437ED6010E8828, 0, 0)
  const MINUS_B2: Limbs4 := Limbs4(0xD765CDA83DB1562C, 0x8A280AC50774346D, 0xFFFFFFFFFFFFFFFE, 0xFFFFFFFFFFFFFFFF)
  const ESTIMATE1: Limbs4 := Limbs4(0x90E49284EB153DAB, 0xD221A7D46BCDE86C, 0x3086, 0)
  const ESTIMATE2: Limbs4 := Limbs4(0x7FA90ABFE4C42212, 0x7ED6010E88286F54, 0xE443, 0)

  lemma Constants()
    ensures Val4(MINUS_LAMBDA) == N - LAMBDA && Val4(MINUS_B1) == C1 && Val4(MINUS_B2) == N - A1
    ensures Val4(ESTIMATE1) == G1 && Val4(ESTIMATE2) == G2
  {
  }

  lemma ShiftConstants()
    ensures Pow2(272) == T && Pow2(271) == HALF
  {
    Pow2Values();
    Pow2Add(256, 16);
    assert Pow2(272) == 2 * Pow2(271);
  }

  // The signed half-length representatives for the rounded quotients c1 and c2.
  function Half1(k: int, c1: int, c2: int): int {
    k - c1 * A1 - c2 * A2
  }

  function Half2(c1: int, c2: int): int {
    c1 * C1 - c2 * A1
  }

  const SHORT: int := 0x1_0000_0000_0000_0000_0000_0000_0000_0000

  // A residue that stands for an integer of less than 128 bits and a sign.
  ghost predicate Short(x: int) {
    x < SHORT || N - x < SHORT
  }

  // c is the product of k with an estimate, divided by 2^272 and rounded.
  ghost predicate Rounded(c: int, k: int, g: int) {
    -HALF <= T * c - k * g <= HALF
  }

  lemma RoundedQuotient(k: int, g: int, c: int)
    requires c == (k * g + HALF) / T
    ensures Rounded(c, k, g)
  {
    var v := k * g;
    assert T * ((v + HALF) / T) <= v + HALF < T * ((v + HALF) / T) + T;
  }

  /** Despite the rounding and the estimates both halves stay below 2^128 in absolute value. */
  lemma HalvesAreShort(k: int, c1: int, c2: int)
    requires 0 <= k < N && Rounded(c1, k, G1) && Rounded(c2, k, G2)
    ensures -SHORT < Half1(k, c1, c2) < SHORT && -SHORT < Half2(c1, c2) < SHORT
  {
  }

  /** The halves recombine to the scalar. */
  lemma HalvesRecombine(k: int, c1: int, c2: int)
    ensures Half1(k, c1, c2) + LAMBDA * Half2(c1, c2) == k + (c1 * Q1 - c2 * Q2) * N
  {
    Lattice();
  }

  lemma SameResidue(x: int, y: int, q: int)
    requires x == y + q * N
    ensures x % N == y % N
  {
    ResidueShift(y, q);
  }

  lemma ShortResidue(x: int, y: int)
    requires 0 <= x < N && x == y % N && -SHORT < y < SHORT
    ensures Short(x)
  {
    if y >= 0 {
      DivModUnique(y, N, 0, y);
    } else {
      DivModUnique(y, N, -1, y + N);
    }
  }

  /** secp256k1_scalar_split_lambda: r1 + LAMBDA*r2 = k modulo N, and both stand for short signed numbers. */
  method Split(k: Limbs4) returns (r1: Limbs4, r2: Limbs4)
    requires Canonical(k)
    ensures Canonical(r1) && Canonical(r2)
    ensures (Val4(r1) + LAMBDA * Val4(r2)) % N == Val4(k)
    ensures Short(Val4(r1)) && Short(Val4(r2))
  {
    hide Val4, Pow2;
    Constants();
    ShiftConstants();
    var c1 := MulShiftVar(k, ESTIMATE1, 272);
    RoundedQuotient(Val4(k), G1, Val4(c1));
    var c2 := MulShiftVar(k, ESTIMATE2, 272);
    RoundedQuotient(Val4(k), G2, Val4(c2));
    var d1 := ScalarMul(c1, MINUS_B1);
    var d2 := ScalarMul(c2, MINUS_B2);
    var overflow;
    r2, overflow := Add(d1, d2);
    var e := ScalarMul(r2, MINUS_LAMBDA);
    r1, overflow := Add(e, k);
    Conclude(Val4(k), Val4(c1), Val4(c2), Val4(d1), Val4(d2), Val4(e), Val4(r1), Val4(r2));
  }

  lemma Conclude(k: int, c1: int, c2: int, d1: int, d2: int, e: int, r1: int, r2: int)
    requires 0 <= k < N && 0 <= r1 < N && 0 <= r2 < N && Rounded(c1, k, G1) && Rounded(c2, k, G2)
    requires d1 == (c1 * C1) % N && d2 == (c2 * (N - A1)) % N && r2 == (d1 + d2) % N
    requires e == (r2 * (N - LAMBDA)) % N && r1 == (e + k) % N
    ensures (r1 + LAMBDA * r2) % N == k && Short(r1) && Short(r2)
  {
    hide Rounded;
    HalvesAreShort(k, c1, c2);
    HalvesRecombine(k, c1, c2);
    DivModEq(c1 * C1, N);
    DivModEq(c2 * (N - A1), N);
    DivModEq(d1 + d2, N);
    DivModEq(r2 * (N - LAMBDA), N);
    DivModEq(e + k, N);
    Half2Residue(c1, c2, c1 * C1 / N, c2 * (N - A1) / N, (d1 + d2) / N, d1, d2, r2);
    Half1Residue(k, c1, c2, r2, (r2 - Half2(c1, c2)) / N, r2 * (N - LAMBDA) / N, (e + k) / N, e, r1);
  }

  lemma Half2Residue(c1: int, c2: int, q1: int, q2: int, q: int, d1: int, d2: int, r2: int)
    requires c1 * C1 == q1 * N + d1 && c2 * (N - A1) == q2 * N + d2 && d1 + d2 == q * N + r2
    requires 0 <= r2 < N && -SHORT < Half2(c1, c2) < SHORT
    ensures r2 == Half2(c1, c2) + (c2 - q1 - q2 - q) * N && Short(r2)
    ensures (r2 - Half2(c1, c2)) / N == c2 - q1 - q2 - q
  {
    var j := c2 - q1 - q2 - q;
    SameResidue(r2, Half2(c1, c2), j);
    DivModUnique(r2, N, 0, r2);
    ShortResidue(r2, Half2(c1, c2));
    DivModUnique(r2 - Half2(c1, c2), N, j, 0);
  }

  lemma Half1Residue(k: int, c1: int, c2: int, r2: int, j: int, p: int, q: int, e: int, r1: int)
    requires 0 <= k < N && 0 <= r1 < N && -SHORT < Half1(k, c1, c2) < SHORT
    requires Half1(k, c1, c2) + LAMBDA * Half2(c1, c2) == k + (c1 * Q1 - c2 * Q2) * N
    requires r2 == Half2(c1, c2) + j * N && r2 * (N - LAMBDA) == p * N + e && e + k == q * N + r1
    ensures (r1 + LAMBDA * r2) % N == k && Short(r1)
  {
    assert r1 + LAMBDA * r2 == k + (r2 - p - q) * N;
    SameResidue(r1 + LAMBDA * r2, k, r2 - p - q);
    DivModUnique(k, N, 0, k);
    var i := r2 - p - q - LAMBDA * j - (c1 * Q1 - c2 * Q2);
    assert LAMBDA * r2 == LAMBDA * Half2(c1, c2) + LAMBDA * j * N;
    assert r1 == Half1(k, c1, c2) + i * N;
    SameResidue(r1, Half1(k, c1, c2), i);
    DivModUnique(r1, N, 0, r1);
    ShortResidue(r1, Half1(k, c1, c2));
  }
}
