/** The fixed exponentiations: each chain of squarings and multiplications computes the announced power, in any
    structure with an associative multiplication. */
module AdditionChains {
  import opened Digits
  import opened Secp256k1
  import opened FieldElement

  datatype Monoid<!T> = Monoid(one: T, mul: (T, T) -> T)

  ghost predicate Regroups<T>(m: Monoid<T>, x: T, y: T, z: T) {
    m.mul(m.mul(x, y), z) == m.mul(x, m.mul(y, z))
  }

  ghost predicate HasOne<T>(m: Monoid<T>, x: T) {
    m.mul(x, m.one) == x && m.mul(m.one, x) == x
  }

  ghost predicate IsMonoid<T(!new)>(m: Monoid<T>) {
    && (forall x, y, z {:trigger Regroups(m, x, y, z)} :: Regroups(m, x, y, z))
    && (forall x {:trigger HasOne(m, x)} :: HasOne(m, x))
  }

  ghost function Exp<T>(m: Monoid<T>, a: T, n: nat): T {
    if n == 0 then m.one else m.mul(Exp(m, a, n - 1), a)
  }

  lemma {:induction false} ExpAdd<T(!new)>(m: Monoid<T>, a: T, i: nat, j: nat)
    requires IsMonoid(m)
    ensures Exp(m, a, i + j) == m.mul(Exp(m, a, i), Exp(m, a, j))
  {
    if j == 0 {
      assert HasOne(m, Exp(m, a, i));
    } else {
      ExpAdd(m, a, i, j - 1);
      assert Regroups(m, Exp(m, a, i), Exp(m, a, j - 1), a);
    }
  }

  lemma ExpOne<T(!new)>(m: Monoid<T>, a: T)
    requires IsMonoid(m)
    ensures Exp(m, a, 1) == a
  {
    assert HasOne(m, a);
    assert Exp(m, a, 1) == m.mul(Exp(m, a, 0), a);
  }

  // One multiplication adds the exponents.
  method Times<T(!new)>(m: Monoid<T>, x: T, y: T, ghost a: T, ghost i: nat, ghost j: nat) returns (r: T)
    requires IsMonoid(m) && x == Exp(m, a, i) && y == Exp(m, a, j)
    ensures r == Exp(m, a, i + j)
  {
    ExpAdd(m, a, i, j);
    r := m.mul(x, y);
  }

  // A run of squarings.
  method Squarings<T(!new)>(m: Monoid<T>, x: T, count: nat, ghost a: T, ghost i: nat) returns (r: T)
    requires IsMonoid(m) && x == Exp(m, a, i)
    ensures r == Exp(m, a, i * Pow2(count))
  {
    hide Exp, IsMonoid;
    r := x;
    for k := 0 to count
      invariant 0 <= i * Pow2(k) && r == Exp(m, a, i * Pow2(k))
    {
      ExpAdd(m, a, i * Pow2(k), i * Pow2(k));
      assert i * Pow2(k + 1) == i * Pow2(k) + i * Pow2(k);
      r := m.mul(r, r);
    }
  }

  // The lengths of the runs.
  lemma RunLengths()
    ensures Pow2(1) == 2 && Pow2(2) == 4 && Pow2(3) == 8 && Pow2(4) == 16 && Pow2(5) == 32 && Pow2(6) == 64
    ensures Pow2(8) == 256
    ensures Pow2(9) == 512 && Pow2(10) == 1024 && Pow2(11) == 2048 && Pow2(14) == 0x4000 && Pow2(22) == 0x40_0000
    ensures Pow2(23) == 0x80_0000 && Pow2(28) == 0x1000_0000 && Pow2(44) == 0x1000_0000_0000
    ensures Pow2(56) == 0x100_0000_0000_0000
    ensures Pow2(88) == 0x1_0000_0000_0000_0000_0000_00
  {
    Pow2Square(11, 2048);
    assert Pow2(23) == 2 * Pow2(22);
    Pow2Square(14, 0x4000);
    Pow2Square(22, 0x40_0000);
    Pow2Square(28, 0x1000_0000);
    Pow2Square(44, 0x1000_0000_0000);
  }

  // A run of squarings and a multiplication; e is the resulting exponent.
  method Step<T(!new)>(m: Monoid<T>, x: T, count: nat, y: T, ghost a: T, ghost i: nat, ghost j: nat,
      ghost e: nat) returns (r: T)
    requires IsMonoid(m) && x == Exp(m, a, i) && y == Exp(m, a, j) && e == i * Pow2(count) + j
    ensures r == Exp(m, a, e)
  {
    MulNonneg(i, Pow2(count));
    r := Squarings(m, x, count, a, i);
    r := Times(m, r, y, a, i * Pow2(count), j);
  }

  /** The blocks of ones that the inverse and the square root share: a^(2^n - 1) for n = 2, 22 and 223. */
  method Blocks<T(!new)>(m: Monoid<T>, a: T) returns (x2: T, x22: T, x223: T)
    requires IsMonoid(m)
    ensures x2 == Exp(m, a, 3) && x22 == Exp(m, a, 0x3FFFFF)
        && x223 == Exp(m, a, 0x7FFFFFFFFFFFFFFFFFFFFFFFFFFFFFFFFFFFFFFFFFFFFFFFFFFFFFFF)
  {
    hide Exp, IsMonoid, Pow2;
    RunLengths();
    ExpOne(m, a);
    x2 := Step(m, a, 1, a, a, 1, 1, 3);
    var x3 := Step(m, x2, 1, a, a, 3, 1, 7);
    var x6 := Step(m, x3, 3, x3, a, 7, 7, 0x3F);
    var x9 := Step(m, x6, 3, x3, a, 0x3F, 7, 0x1FF);
    var x11 := Step(m, x9, 2, x2, a, 0x1FF, 3, 0x7FF);
    x22 := Step(m, x11, 11, x11, a, 0x7FF, 0x7FF, 0x3FFFFF);
    var x44 := Step(m, x22, 22, x22, a, 0x3FFFFF, 0x3FFFFF, 0xFFFFFFFFFFF);
    var x88 := Step(m, x44, 44, x44, a, 0xFFFFFFFFFFF, 0xFFFFFFFFFFF, 0xFFFFFFFFFFFFFFFFFFFFFF);
    var x176 := Step(m, x88, 88, x88, a, 0xFFFFFFFFFFFFFFFFFFFFFF, 0xFFFFFFFFFFFFFFFFFFFFFF,
        0xFFFFFFFFFFFFFFFFFFFFFFFFFFFFFFFFFFFFFFFFFFFF);
    var x220 := Step(m, x176, 44, x44, a, 0xFFFFFFFFFFFFFFFFFFFFFFFFFFFFFFFFFFFFFFFFFFFF, 0xFFFFFFFFFFF,
        0xFFFFFFFFFFFFFFFFFFFFFFFFFFFFFFFFFFFFFFFFFFFFFFFFFFFFFFF);
    x223 := Step(m, x220, 3, x3, a, 0xFFFFFFFFFFFFFFFFFFFFFFFFFFFFFFFFFFFFFFFFFFFFFFFFFFFFFFF, 7,
        0x7FFFFFFFFFFFFFFFFFFFFFFFFFFFFFFFFFFFFFFFFFFFFFFFFFFFFFFF);
  }

  /** secp256k1_fe_inv computes a^(p - 2). */
  method FieldInverse<T(!new)>(m: Monoid<T>, a: T) returns (r: T)
    requires IsMonoid(m)
    ensures r == Exp(m, a, FIELD - 2)
  {
    hide Exp, IsMonoid, Pow2;
    RunLengths();
    ExpOne(m, a);
    var x2, x22, x223 := Blocks(m, a);
    var t := Step(m, x223, 23, x22, a, 0x7FFFFFFFFFFFFFFFFFFFFFFFFFFFFFFFFFFFFFFFFFFFFFFFFFFFFFFF, 0x3FFFFF,
        0x3FFFFFFFFFFFFFFFFFFFFFFFFFFFFFFFFFFFFFFFFFFFFFFFFFFFFFFFBFFFFF);
    t := Step(m, t, 5, a, a, 0x3FFFFFFFFFFFFFFFFFFFFFFFFFFFFFFFFFFFFFFFFFFFFFFFFFFFFFFFBFFFFF, 1,
        0x7FFFFFFFFFFFFFFFFFFFFFFFFFFFFFFFFFFFFFFFFFFFFFFFFFFFFFFF7FFFFE1);
    t := Step(m, t, 3, x2, a, 0x7FFFFFFFFFFFFFFFFFFFFFFFFFFFFFFFFFFFFFFFFFFFFFFFFFFFFFFF7FFFFE1, 3,
        0x3FFFFFFFFFFFFFFFFFFFFFFFFFFFFFFFFFFFFFFFFFFFFFFFFFFFFFFFBFFFFF0B);
    r := Step(m, t, 2, a, a, 0x3FFFFFFFFFFFFFFFFFFFFFFFFFFFFFFFFFFFFFFFFFFFFFFFFFFFFFFFBFFFFF0B, 1,
        0xFFFFFFFFFFFFFFFFFFFFFFFFFFFFFFFFFFFFFFFFFFFFFFFFFFFFFFFEFFFFFC2D);
  }

  /** secp256k1_fe_sqrt raises to (p + 1)/4 before it compares the square with the input. */
  method FieldRoot<T(!new)>(m: Monoid<T>, a: T) returns (r: T)
    requires IsMonoid(m)
    ensures r == Exp(m, a, (FIELD + 1) / 4)
  {
    hide Exp, IsMonoid, Pow2;
    RunLengths();
    var x2, x22, x223 := Blocks(m, a);
    var t := Step(m, x223, 23, x22, a, 0x7FFFFFFFFFFFFFFFFFFFFFFFFFFFFFFFFFFFFFFFFFFFFFFFFFFFFFFF, 0x3FFFFF,
        0x3FFFFFFFFFFFFFFFFFFFFFFFFFFFFFFFFFFFFFFFFFFFFFFFFFFFFFFFBFFFFF);
    t := Step(m, t, 6, x2, a, 0x3FFFFFFFFFFFFFFFFFFFFFFFFFFFFFFFFFFFFFFFFFFFFFFFFFFFFFFFBFFFFF, 3,
        0xFFFFFFFFFFFFFFFFFFFFFFFFFFFFFFFFFFFFFFFFFFFFFFFFFFFFFFFEFFFFFC3);
    r := Squarings(m, t, 2, a, 0xFFFFFFFFFFFFFFFFFFFFFFFFFFFFFFFFFFFFFFFFFFFFFFFFFFFFFFFEFFFFFC3);
  }

  /** The odd powers and blocks of ones of the scalar inverse. */
  method ScalarBlocks<T(!new)>(m: Monoid<T>, a: T)
    returns (x2: T, x3: T, u5: T, u9: T, u11: T, u13: T, x6: T, x8: T, x126: T)
    requires IsMonoid(m)
    ensures x2 == Exp(m, a, 3) && x3 == Exp(m, a, 7) && u5 == Exp(m, a, 5) && u9 == Exp(m, a, 9)
    ensures u11 == Exp(m, a, 11) && u13 == Exp(m, a, 13) && x6 == Exp(m, a, 0x3F) && x8 == Exp(m, a, 0xFF)
    ensures x126 == Exp(m, a, 0x3FFFFFFFFFFFFFFFFFFFFFFFFFFFFFFF)
  {
    hide Exp, IsMonoid, Pow2;
    RunLengths();
    ExpOne(m, a);
    var u2 := Squarings(m, a, 1, a, 1);
    x2 := Times(m, u2, a, a, 2, 1);
    u5 := Times(m, u2, x2, a, 2, 3);
    x3 := Times(m, u5, u2, a, 5, 2);
    u9 := Times(m, x3, u2, a, 7, 2);
    u11 := Times(m, u9, u2, a, 9, 2);
    u13 := Times(m, u11, u2, a, 0xB, 2);
    x6 := Step(m, u13, 2, u11, a, 0xD, 0xB, 0x3F);
    x8 := Step(m, x6, 2, x2, a, 0x3F, 3, 0xFF);
    var x14 := Step(m, x8, 6, x6, a, 0xFF, 0x3F, 0x3FFF);
    var x28 := Step(m, x14, 14, x14, a, 0x3FFF, 0x3FFF, 0xFFFFFFF);
    var x56 := Step(m, x28, 28, x28, a, 0xFFFFFFF, 0xFFFFFFF, 0xFFFFFFFFFFFFFF);
    var x112 := Step(m, x56, 56, x56, a, 0xFFFFFFFFFFFFFF, 0xFFFFFFFFFFFFFF, 0xFFFFFFFFFFFFFFFFFFFFFFFFFFFF);
    x126 := Step(m, x112, 14, x14, a, 0xFFFFFFFFFFFFFFFFFFFFFFFFFFFF, 0x3FFF, 0x3FFFFFFFFFFFFFFFFFFFFFFFFFFFFFFF);
  }

  // The first half of the sliding window over the bits of N - 2.
  method UpperWindow<T(!new)>(m: Monoid<T>, a: T, x126: T, u5: T, x3: T, u11: T, u13: T, u9: T) returns (t: T)
    requires IsMonoid(m) && x126 == Exp(m, a, 0x3FFFFFFFFFFFFFFFFFFFFFFFFFFFFFFF) && u5 == Exp(m, a, 5)
    requires x3 == Exp(m, a, 7)
    requires u11 == Exp(m, a, 11) && u13 == Exp(m, a, 13) && u9 == Exp(m, a, 9)
    ensures t == Exp(m, a, 0x7FFFFFFFFFFFFFFFFFFFFFFFFFFFFFFF5D576E7357A45)
  {
    hide Exp, IsMonoid, Pow2;
    RunLengths();
    t := Step(m, x126, 3, u5, a, 0x3FFFFFFFFFFFFFFFFFFFFFFFFFFFFFFF, 5, 0x1FFFFFFFFFFFFFFFFFFFFFFFFFFFFFFFD);
    t := Step(m, t, 4, x3, a, 0x1FFFFFFFFFFFFFFFFFFFFFFFFFFFFFFFD, 7, 0x1FFFFFFFFFFFFFFFFFFFFFFFFFFFFFFFD7);
    t := Step(m, t, 4, u5, a, 0x1FFFFFFFFFFFFFFFFFFFFFFFFFFFFFFFD7, 5, 0x1FFFFFFFFFFFFFFFFFFFFFFFFFFFFFFFD75);
    t := Step(m, t, 5, u11, a, 0x1FFFFFFFFFFFFFFFFFFFFFFFFFFFFFFFD75, 0xB, 0x3FFFFFFFFFFFFFFFFFFFFFFFFFFFFFFFAEAB);
    t := Step(m, t, 4, u11, a, 0x3FFFFFFFFFFFFFFFFFFFFFFFFFFFFFFFAEAB, 0xB, 0x3FFFFFFFFFFFFFFFFFFFFFFFFFFFFFFFAEABB);
    t := Step(m, t, 4, x3, a, 0x3FFFFFFFFFFFFFFFFFFFFFFFFFFFFFFFAEABB, 7, 0x3FFFFFFFFFFFFFFFFFFFFFFFFFFFFFFFAEABB7);
    t := Step(m, t, 5, x3, a, 0x3FFFFFFFFFFFFFFFFFFFFFFFFFFFFFFFAEABB7, 7, 0x7FFFFFFFFFFFFFFFFFFFFFFFFFFFFFFF5D576E7);
    t := Step(m, t, 6, u13, a, 0x7FFFFFFFFFFFFFFFFFFFFFFFFFFFFFFF5D576E7, 0xD,
      0x1FFFFFFFFFFFFFFFFFFFFFFFFFFFFFFFD755DB9CD);
    t := Step(m, t, 4, u5, a, 0x1FFFFFFFFFFFFFFFFFFFFFFFFFFFFFFFD755DB9CD, 5,
      0x1FFFFFFFFFFFFFFFFFFFFFFFFFFFFFFFD755DB9CD5);
    t := Step(m, t, 3, x3, a, 0x1FFFFFFFFFFFFFFFFFFFFFFFFFFFFFFFD755DB9CD5, 7,
      0xFFFFFFFFFFFFFFFFFFFFFFFFFFFFFFFEBAAEDCE6AF);
    t := Step(m, t, 5, u9, a, 0xFFFFFFFFFFFFFFFFFFFFFFFFFFFFFFFEBAAEDCE6AF, 9,
      0x1FFFFFFFFFFFFFFFFFFFFFFFFFFFFFFFD755DB9CD5E9);
    t := Step(m, t, 6, u5, a, 0x1FFFFFFFFFFFFFFFFFFFFFFFFFFFFFFFD755DB9CD5E9, 5,
      0x7FFFFFFFFFFFFFFFFFFFFFFFFFFFFFFF5D576E7357A45);
  }

  /** secp256k1_scalar_inverse computes a^(N - 2). */
  method ScalarInverse<T(!new)>(m: Monoid<T>, a: T) returns (t: T)
    requires IsMonoid(m)
    ensures t == Exp(m, a, N - 2)
  {
    hide Exp, IsMonoid, Pow2;
    RunLengths();
    ExpOne(m, a);
    var x2, x3, u5, u9, u11, u13, x6, x8, x126 := ScalarBlocks(m, a);
    t := UpperWindow(m, a, x126, u5, x3, u11, u13, u9);
    t := Step(m, t, 10, x3, a, 0x7FFFFFFFFFFFFFFFFFFFFFFFFFFFFFFF5D576E7357A45, 7,
        0x1FFFFFFFFFFFFFFFFFFFFFFFFFFFFFFFD755DB9CD5E91407);
    t := Step(m, t, 4, x3, a, 0x1FFFFFFFFFFFFFFFFFFFFFFFFFFFFFFFD755DB9CD5E91407, 7,
        0x1FFFFFFFFFFFFFFFFFFFFFFFFFFFFFFFD755DB9CD5E914077);
    t := Step(m, t, 9, x8, a, 0x1FFFFFFFFFFFFFFFFFFFFFFFFFFFFFFFD755DB9CD5E914077, 0xFF,
        0x3FFFFFFFFFFFFFFFFFFFFFFFFFFFFFFFAEABB739ABD2280EEFF);
    t := Step(m, t, 5, u9, a, 0x3FFFFFFFFFFFFFFFFFFFFFFFFFFFFFFFAEABB739ABD2280EEFF, 9,
        0x7FFFFFFFFFFFFFFFFFFFFFFFFFFFFFFF5D576E7357A4501DDFE9);
    t := Step(m, t, 6, u11, a, 0x7FFFFFFFFFFFFFFFFFFFFFFFFFFFFFFF5D576E7357A4501DDFE9, 0xB,
        0x1FFFFFFFFFFFFFFFFFFFFFFFFFFFFFFFD755DB9CD5E9140777FA4B);
    t := Step(m, t, 4, u13, a, 0x1FFFFFFFFFFFFFFFFFFFFFFFFFFFFFFFD755DB9CD5E9140777FA4B, 0xD,
        0x1FFFFFFFFFFFFFFFFFFFFFFFFFFFFFFFD755DB9CD5E9140777FA4BD);
    t := Step(m, t, 5, x2, a, 0x1FFFFFFFFFFFFFFFFFFFFFFFFFFFFFFFD755DB9CD5E9140777FA4BD, 3,
        0x3FFFFFFFFFFFFFFFFFFFFFFFFFFFFFFFAEABB739ABD2280EEFF497A3);
    t := Step(m, t, 6, u13, a, 0x3FFFFFFFFFFFFFFFFFFFFFFFFFFFFFFFAEABB739ABD2280EEFF497A3, 0xD,
        0xFFFFFFFFFFFFFFFFFFFFFFFFFFFFFFFEBAAEDCE6AF48A03BBFD25E8CD);
    t := Step(m, t, 10, u13, a, 0xFFFFFFFFFFFFFFFFFFFFFFFFFFFFFFFEBAAEDCE6AF48A03BBFD25E8CD, 0xD,
        0x3FFFFFFFFFFFFFFFFFFFFFFFFFFFFFFFAEABB739ABD2280EEFF497A3340D);
    t := Step(m, t, 4, u9, a, 0x3FFFFFFFFFFFFFFFFFFFFFFFFFFFFFFFAEABB739ABD2280EEFF497A3340D, 9,
        0x3FFFFFFFFFFFFFFFFFFFFFFFFFFFFFFFAEABB739ABD2280EEFF497A3340D9);
    t := Step(m, t, 6, a, a, 0x3FFFFFFFFFFFFFFFFFFFFFFFFFFFFFFFAEABB739ABD2280EEFF497A3340D9, 1,
        0xFFFFFFFFFFFFFFFFFFFFFFFFFFFFFFFEBAAEDCE6AF48A03BBFD25E8CD03641);
    t := Step(m, t, 8, x6, a, 0xFFFFFFFFFFFFFFFFFFFFFFFFFFFFFFFEBAAEDCE6AF48A03BBFD25E8CD03641, 0x3F,
        0xFFFFFFFFFFFFFFFFFFFFFFFFFFFFFFFEBAAEDCE6AF48A03BBFD25E8CD036413F);
  }

  function FieldMonoid(): Monoid<Element> {
    Monoid(1, (x, y) => FMul(x, y))
  }

  /** The multiplication of the coordinate field is such a structure. */
  lemma FieldIsMonoid()
    ensures IsMonoid(FieldMonoid())
  {
    var m := FieldMonoid();
    forall x, y, z
      ensures Regroups(m, x, y, z)
    {
      FAssoc(x, y, z);
    }
    forall x
      ensures HasOne(m, x)
    {
      FOne(x);
    }
  }
}
