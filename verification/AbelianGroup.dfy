/** Points are elements of an arbitrary abelian group.  The group is a value (its operations are
    fields), so every theorem below holds for the curve group of secp256k1 and for any other one.
    Each law is hidden behind a marker predicate: the verifier uses a law only where a proof names it. */
module AbelianGroup {

  datatype Group<!P> = Group(zero: P, add: (P, P) -> P, neg: P -> P)

  ghost predicate Associative<P>(g: Group<P>, x: P, y: P, z: P) {
    g.add(g.add(x, y), z) == g.add(x, g.add(y, z))
  }

  ghost predicate Commutative<P>(g: Group<P>, x: P, y: P) {
    g.add(x, y) == g.add(y, x)
  }

  ghost predicate HasUnit<P>(g: Group<P>, x: P) {
    g.add(x, g.zero) == x
  }

  ghost predicate HasInverse<P>(g: Group<P>, x: P) {
    g.add(x, g.neg(x)) == g.zero
  }

  ghost predicate IsGroup<P(!new)>(g: Group<P>) {
    && (forall x, y, z {:trigger Associative(g, x, y, z)} :: Associative(g, x, y, z))
    && (forall x, y {:trigger Commutative(g, x, y)} :: Commutative(g, x, y))
    && (forall x {:trigger HasUnit(g, x)} :: HasUnit(g, x))
    && (forall x {:trigger HasInverse(g, x)} :: HasInverse(g, x))
  }

  lemma Assoc<P(!new)>(g: Group<P>, x: P, y: P, z: P)
    requires IsGroup(g)
    ensures g.add(g.add(x, y), z) == g.add(x, g.add(y, z))
  {
    assert Associative(g, x, y, z);
  }

  lemma Comm<P(!new)>(g: Group<P>, x: P, y: P)
    requires IsGroup(g)
    ensures g.add(x, y) == g.add(y, x)
  {
    assert Commutative(g, x, y);
  }

  lemma Unit<P(!new)>(g: Group<P>, x: P)
    requires IsGroup(g)
    ensures g.add(x, g.zero) == x && g.add(g.zero, x) == x
  {
    assert HasUnit(g, x);
    assert Commutative(g, x, g.zero);
  }

  lemma Inverse<P(!new)>(g: Group<P>, x: P)
    requires IsGroup(g)
    ensures g.add(x, g.neg(x)) == g.zero && g.add(g.neg(x), x) == g.zero
  {
    assert HasInverse(g, x);
    assert Commutative(g, x, g.neg(x));
  }

  // Regroup four summands: the workhorse of every proof about sums.
  lemma Swap<P(!new)>(g: Group<P>, a: P, b: P, c: P, d: P)
    requires IsGroup(g)
    ensures g.add(g.add(a, b), g.add(c, d)) == g.add(g.add(a, c), g.add(b, d))
  {
    Assoc(g, a, b, g.add(c, d));
    Assoc(g, b, c, d);
    Comm(g, b, c);
    Assoc(g, c, b, d);
    Assoc(g, a, c, g.add(b, d));
  }

  // Move the last summand of a sum of three past the second.
  lemma SwapLast<P(!new)>(g: Group<P>, a: P, b: P, c: P)
    requires IsGroup(g)
    ensures g.add(g.add(a, b), c) == g.add(g.add(a, c), b)
  {
    Assoc(g, a, b, c);
    Comm(g, b, c);
    Assoc(g, a, c, b);
  }

  // x + y = 0 determines y.
  lemma NegUnique<P(!new)>(g: Group<P>, x: P, y: P)
    requires IsGroup(g) && g.add(x, y) == g.zero
    ensures y == g.neg(x)
  {
    Inverse(g, x);
    Assoc(g, g.neg(x), x, y);
    Unit(g, y);
    Unit(g, g.neg(x));
  }

  lemma NegAdd<P(!new)>(g: Group<P>, x: P, y: P)
    requires IsGroup(g)
    ensures g.neg(g.add(x, y)) == g.add(g.neg(x), g.neg(y))
  {
    Swap(g, x, y, g.neg(x), g.neg(y));
    Inverse(g, x);
    Inverse(g, y);
    Unit(g, g.zero);
    NegUnique(g, g.add(x, y), g.add(g.neg(x), g.neg(y)));
  }

  lemma NegNeg<P(!new)>(g: Group<P>, x: P)
    requires IsGroup(g)
    ensures g.neg(g.neg(x)) == x && g.neg(g.zero) == g.zero
  {
    Inverse(g, x);
    NegUnique(g, g.neg(x), x);
    Unit(g, g.zero);
    NegUnique(g, g.zero, g.zero);
  }

  /** The k-th multiple of p, for any integer k: the meaning of scalar multiplication. */
  function Mul<P>(g: Group<P>, k: int, p: P): P
    decreases if k < 0 then -k else k
  {
    if k == 0 then g.zero
    else if k > 0 then g.add(Mul(g, k - 1, p), p)
    else g.add(Mul(g, k + 1, p), g.neg(p))
  }

  lemma {:induction false} MulSucc<P(!new)>(g: Group<P>, k: int, p: P)
    requires IsGroup(g)
    ensures Mul(g, k + 1, p) == g.add(Mul(g, k, p), p)
  {
    if k < 0 {
      Assoc(g, Mul(g, k + 1, p), g.neg(p), p);
      Inverse(g, p);
      Unit(g, Mul(g, k + 1, p));
    }
  }

  lemma {:induction false} MulAdd<P(!new)>(g: Group<P>, a: int, b: int, p: P)
    requires IsGroup(g)
    ensures Mul(g, a + b, p) == g.add(Mul(g, a, p), Mul(g, b, p))
    decreases if b < 0 then -b else b
  {
    if b == 0 {
      Unit(g, Mul(g, a, p));
    } else if b > 0 {
      MulAdd(g, a, b - 1, p);
      MulSucc(g, a + b - 1, p);
      Assoc(g, Mul(g, a, p), Mul(g, b - 1, p), p);
    } else {
      MulAdd(g, a, b + 1, p);
      MulSucc(g, a + b, p);
      var x := Mul(g, a + b, p);
      // x + p = a*p + (b+1)*p, so adding -p on both sides gives the claim
      Assoc(g, x, p, g.neg(p));
      Inverse(g, p);
      Unit(g, x);
      Assoc(g, Mul(g, a, p), Mul(g, b + 1, p), g.neg(p));
    }
  }

  lemma MulOne<P(!new)>(g: Group<P>, p: P)
    requires IsGroup(g)
    ensures Mul(g, 0, p) == g.zero && Mul(g, 1, p) == p && Mul(g, 2, p) == g.add(p, p) && Mul(g, -1, p) == g.neg(p)
  {
    Unit(g, p);
    Unit(g, g.neg(p));
    assert Mul(g, 1, p) == g.add(Mul(g, 0, p), p);
    assert Mul(g, 2, p) == g.add(Mul(g, 1, p), p);
    assert Mul(g, -1, p) == g.add(Mul(g, 0, p), g.neg(p));
  }

  lemma MulNeg<P(!new)>(g: Group<P>, k: int, p: P)
    requires IsGroup(g)
    ensures Mul(g, -k, p) == g.neg(Mul(g, k, p))
  {
    MulAdd(g, k, -k, p);
    NegUnique(g, Mul(g, k, p), Mul(g, -k, p));
  }

  lemma {:induction false} MulDistribute<P(!new)>(g: Group<P>, k: int, p: P, q: P)
    requires IsGroup(g)
    ensures Mul(g, k, g.add(p, q)) == g.add(Mul(g, k, p), Mul(g, k, q))
    decreases if k < 0 then -k else k
  {
    if k == 0 {
      Unit(g, g.zero);
    } else if k > 0 {
      MulDistribute(g, k - 1, p, q);
      Swap(g, Mul(g, k - 1, p), Mul(g, k - 1, q), p, q);
    } else {
      MulDistribute(g, k + 1, p, q);
      NegAdd(g, p, q);
      Swap(g, Mul(g, k + 1, p), Mul(g, k + 1, q), g.neg(p), g.neg(q));
    }
  }

  lemma {:induction false} MulMul<P(!new)>(g: Group<P>, a: int, b: int, p: P)
    requires IsGroup(g)
    ensures Mul(g, a, Mul(g, b, p)) == Mul(g, a * b, p)
    decreases if a < 0 then -a else a
  {
    if a > 0 {
      MulMul(g, a - 1, b, p);
      MulAdd(g, (a - 1) * b, b, p);
      assert (a - 1) * b + b == a * b;
    } else if a < 0 {
      MulMul(g, a + 1, b, p);
      MulNeg(g, b, p);
      MulAdd(g, (a + 1) * b, -b, p);
      assert (a + 1) * b + -b == a * b;
    }
  }

  lemma {:induction false} MulZero<P(!new)>(g: Group<P>, k: int)
    requires IsGroup(g)
    ensures Mul(g, k, g.zero) == g.zero
  {
    MulMul(g, k, 0, g.zero);
  }

  /** Scalars act modulo any multiple of the point's order. */
  lemma MulMod<P(!new)>(g: Group<P>, n: int, k: int, p: P)
    requires IsGroup(g) && n > 0 && Mul(g, n, p) == g.zero
    ensures Mul(g, k % n, p) == Mul(g, k, p)
  {
    var q := k / n;
    assert k == q * n + k % n;
    MulAdd(g, q * n, k % n, p);
    MulMul(g, q, n, p);
    MulZero(g, q);
    Unit(g, Mul(g, k % n, p));
  }
}
