/** Integer linear combinations of a list of points: the simple form that every multi-scalar
    algorithm is proved equal to. */
module LinearCombination {
  import opened AbelianGroup

  /** cs[0]*ps[0] + cs[1]*ps[1] + ... */
  ghost function Dot<P>(g: Group<P>, cs: seq<int>, ps: seq<P>): P
    requires |cs| == |ps|
  {
    if |cs| == 0 then g.zero
    else g.add(Dot(g, cs[..|cs| - 1], ps[..|ps| - 1]), Mul(g, cs[|cs| - 1], ps[|ps| - 1]))
  }

  lemma {:induction false} DotAppend<P(!new)>(g: Group<P>, cs: seq<int>, ps: seq<P>, c: int, p: P)
    requires |cs| == |ps|
    ensures Dot(g, cs + [c], ps + [p]) == g.add(Dot(g, cs, ps), Mul(g, c, p))
  {
    assert (cs + [c])[..|cs|] == cs;
    assert (ps + [p])[..|ps|] == ps;
  }

  lemma {:induction false} DotZero<P(!new)>(g: Group<P>, cs: seq<int>, ps: seq<P>)
    requires IsGroup(g) && |cs| == |ps|
    requires forall i :: 0 <= i < |cs| ==> cs[i] == 0 || ps[i] == g.zero
    ensures Dot(g, cs, ps) == g.zero
  {
    if |cs| > 0 {
      var n := |cs| - 1;
      DotZero(g, cs[..n], ps[..n]);
      MulZero(g, cs[n]);
      Unit(g, g.zero);
    }
  }

  lemma {:induction false} DotAdd<P(!new)>(g: Group<P>, xs: seq<int>, bs: seq<int>, cs: seq<int>, ps: seq<P>)
    requires IsGroup(g) && |xs| == |bs| == |cs| == |ps|
    requires forall i :: 0 <= i < |cs| ==> cs[i] == xs[i] + bs[i]
    ensures Dot(g, cs, ps) == g.add(Dot(g, xs, ps), Dot(g, bs, ps))
  {
    if |cs| == 0 {
      Unit(g, g.zero);
    } else {
      var n := |cs| - 1;
      DotAdd(g, xs[..n], bs[..n], cs[..n], ps[..n]);
      MulAdd(g, xs[n], bs[n], ps[n]);
      Swap(g, Dot(g, xs[..n], ps[..n]), Dot(g, bs[..n], ps[..n]), Mul(g, xs[n], ps[n]), Mul(g, bs[n], ps[n]));
    }
  }

  lemma {:induction false} DotScale<P(!new)>(g: Group<P>, k: int, xs: seq<int>, cs: seq<int>, ps: seq<P>)
    requires IsGroup(g) && |xs| == |cs| == |ps|
    requires forall i :: 0 <= i < |cs| ==> cs[i] == k * xs[i]
    ensures Dot(g, cs, ps) == Mul(g, k, Dot(g, xs, ps))
  {
    if |cs| == 0 {
      MulZero(g, k);
    } else {
      var n := |cs| - 1;
      DotScale(g, k, xs[..n], cs[..n], ps[..n]);
      MulMul(g, k, xs[n], ps[n]);
      MulDistribute(g, k, Dot(g, xs[..n], ps[..n]), Mul(g, xs[n], ps[n]));
    }
  }

  /** Doubling a point doubles its coefficients. */
  lemma DotDouble<P(!new)>(g: Group<P>, xs: seq<int>, cs: seq<int>, ps: seq<P>)
    requires IsGroup(g) && |xs| == |cs| == |ps|
    requires forall i :: 0 <= i < |cs| ==> cs[i] == 2 * xs[i]
    ensures Dot(g, cs, ps) == g.add(Dot(g, xs, ps), Dot(g, xs, ps))
  {
    DotAdd(g, xs, xs, cs, ps);
  }

  /** Adding d*ps[i] to a point changes one coefficient by d. */
  lemma {:induction false} DotUpdate<P(!new)>(g: Group<P>, cs: seq<int>, ps: seq<P>, i: nat, d: int)
    requires IsGroup(g) && |cs| == |ps| && i < |cs|
    ensures Dot(g, cs[i := cs[i] + d], ps) == g.add(Dot(g, cs, ps), Mul(g, d, ps[i]))
  {
    var n := |cs| - 1;
    var ds := cs[i := cs[i] + d];
    if i == n {
      assert ds[..n] == cs[..n];
      MulAdd(g, cs[n], d, ps[n]);
      Assoc(g, Dot(g, cs[..n], ps[..n]), Mul(g, cs[n], ps[n]), Mul(g, d, ps[n]));
    } else {
      DotUpdate(g, cs[..n], ps[..n], i, d);
      assert ds[..n] == cs[..n][i := cs[..n][i] + d];
      SwapLast(g, Dot(g, cs[..n], ps[..n]), Mul(g, d, ps[i]), Mul(g, cs[n], ps[n]));
    }
  }

  /** Adding d*p to the point at i changes the combination by (cs[i]*d)*p. */
  lemma {:induction false} DotUpdatePoint<P(!new)>(g: Group<P>, cs: seq<int>, ps: seq<P>, i: nat, p: P)
    requires IsGroup(g) && |cs| == |ps| && i < |cs|
    ensures Dot(g, cs, ps[i := g.add(ps[i], p)]) == g.add(Dot(g, cs, ps), Mul(g, cs[i], p))
  {
    var n := |cs| - 1;
    var qs := ps[i := g.add(ps[i], p)];
    if i == n {
      assert qs[..n] == ps[..n];
      MulDistribute(g, cs[n], ps[n], p);
      Assoc(g, Dot(g, cs[..n], ps[..n]), Mul(g, cs[n], ps[n]), Mul(g, cs[n], p));
    } else {
      DotUpdatePoint(g, cs[..n], ps[..n], i, p);
      assert qs[..n] == ps[..n][i := g.add(ps[..n][i], p)];
      SwapLast(g, Dot(g, cs[..n], ps[..n]), Mul(g, cs[i], p), Mul(g, cs[n], ps[n]));
    }
  }

  /** Reducing every scalar modulo the group order changes nothing. */
  lemma {:induction false} DotMod<P(!new)>(g: Group<P>, n: int, xs: seq<int>, bs: seq<int>, ps: seq<P>)
    requires IsGroup(g) && n > 0 && |xs| == |bs| == |ps|
    requires forall i :: 0 <= i < |ps| ==> Mul(g, n, ps[i]) == g.zero && xs[i] % n == bs[i] % n
    ensures Dot(g, xs, ps) == Dot(g, bs, ps)
  {
    if |ps| > 0 {
      var k := |ps| - 1;
      DotMod(g, n, xs[..k], bs[..k], ps[..k]);
      MulMod(g, n, xs[k], ps[k]);
      MulMod(g, n, bs[k], ps[k]);
    }
  }

  lemma {:induction false} DotConcat<P(!new)>(g: Group<P>, xs: seq<int>, ps: seq<P>, bs: seq<int>, qs: seq<P>)
    requires IsGroup(g) && |xs| == |ps| && |bs| == |qs|
    ensures Dot(g, xs + bs, ps + qs) == g.add(Dot(g, xs, ps), Dot(g, bs, qs))
  {
    if |bs| == 0 {
      assert xs + bs == xs && ps + qs == ps;
      Unit(g, Dot(g, xs, ps));
    } else {
      var n := |bs| - 1;
      DotConcat(g, xs, ps, bs[..n], qs[..n]);
      assert (xs + bs)[..|xs + bs| - 1] == xs + bs[..n];
      assert (ps + qs)[..|ps + qs| - 1] == ps + qs[..n];
      Assoc(g, Dot(g, xs, ps), Dot(g, bs[..n], qs[..n]), Mul(g, bs[n], qs[n]));
    }
  }

  lemma DotPrefix<P>(g: Group<P>, cs: seq<int>, ps: seq<P>, n: nat)
    requires |cs| == |ps| && n < |cs|
    ensures Dot(g, cs[..n + 1], ps[..n + 1]) == g.add(Dot(g, cs[..n], ps[..n]), Mul(g, cs[n], ps[n]))
  {
    assert cs[..n + 1][..n] == cs[..n] && ps[..n + 1][..n] == ps[..n];
  }
}
