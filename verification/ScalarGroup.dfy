/** The scalars under addition are a group generated by 1 with order N: what the other modules demand of a group and its
    generator can be met. */
module ScalarGroup {
  import opened AbelianGroup
  import opened Digits
  import opened Secp256k1
  import opened Strauss
  import opened EcmultConst

  function Scalars(): Group<Scalar> {
    Group(0, (x: Scalar, y: Scalar) => ((x + y) % N) as Scalar, (x: Scalar) => Negate(x))
  }

  lemma ScalarsAreGroup()
    ensures IsGroup(Scalars())
  {
    var g := Scalars();
    forall x, y, z
      ensures Associative(g, x, y, z)
    {
      AddAssociates(x, y, z);
    }
  }

  lemma AddAssociates(x: Scalar, y: Scalar, z: Scalar)
    ensures ((x + y) % N + z) % N == (x + (y + z) % N) % N
  {
  }

  lemma {:induction false} MultipleOfOne(k: nat)
    ensures Mul(Scalars(), k, 1) == k % N
  {
    if k > 0 {
      MultipleOfOne(k - 1);
      NextResidue(k - 1);
    }
  }

  lemma NextResidue(k: nat)
    ensures (k % N + 1) % N == (k + 1) % N
  {
    DivModEq(k, N);
    DivModEq(k % N + 1, N);
    DivModUnique(k + 1, N, k / N + (k % N + 1) / N, (k % N + 1) % N);
  }

  lemma ZeroOf()
    ensures Scalars().zero == 0
  {
  }

  /** The generator 1 has order exactly N. */
  lemma OneGenerates()
    ensures IsGroup(Scalars()) && HasOrderN(Scalars(), 1)
  {
    ScalarsAreGroup();
    MultipleOfOne(N);
    hide Mul, Scalars;
    assert Scalars().zero == 0 by { ZeroOf(); }
    forall k | 0 < k < N
      ensures Survives(Scalars(), 1, k)
    {
      MultipleOfOne(k);
    }
  }
}
