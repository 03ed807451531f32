/** The prover of ring membership: draw nonces, multiply out the ring polynomials, commit, hash, respond. */
module RingProver {
  import opened AbelianGroup
  import opened LinearCombination
  import opened Digits
  import opened Secp256k1
  import opened Bytes
  import opened Strauss
  import opened WnafConst
  import opened EcmultConst
  import opened ScalarElement
  import opened RingAlgebra
  import opened RingSpec
  import opened RingCodec

  type Digest = b: seq<Byte> | |b| == 32 witness seq(32, _ => 0)

  lemma PrimeKills<P(!new)>(g: Group<P>)
    requires PrimeOrder(g)
    ensures AllKilled(g)
  {
    hide Mul;
    forall p
      ensures Killed(g, p)
    {
      if p == g.zero {
        MulZero(g, N);
      } else {
        assert HasOrderN(g, p);
      }
    }
  }

  lemma FullSize(s: Scalar)
    ensures Magnitude(s) < Pow2(256)
  {
    Pow2Values();
  }

  // secp256k1_ecmult_const with the full 256 bits.
  method Times<P(!new)>(g: Group<P>, p: P, s: Scalar) returns (r: P)
    requires PrimeOrder(g) && p != g.zero
    ensures r == Mul(g, s, p)
  {
    hide Mul, IsGroup;
    assert HasOrderN(g, p);
    FullSize(s);
    r := EcmultConst.EcmultConst(g, p, s, 256);
  }

  // secp256k1_gej_add_ge leaves the sum unspecified when its affine operand is infinity; the flag records that case.
  method AddAffine<P(!new, ==)>(g: Group<P>, a: P, b: P) returns (r: P, finite: bool)
    ensures finite <==> b != g.zero
    ensures finite ==> r == g.add(a, b)
  {
    finite := b != g.zero;
    r := a;
    if finite {
      r := AddGe(g, a, b);
    }
  }

  /** The loop that adds scalar multiples to an affine accumulator, one after the other. */
  method Accumulate<P(!new, ==)>(g: Group<P>, start: P, ss: seq<Scalar>, ps: seq<P>) returns (acc: P, finite: bool)
    requires PrimeOrder(g) && |ss| <= |ps| && FinitePoints(g, ps)
    ensures finite <==> RegularAfter(g, start, ss, ps[..|ss|])
    ensures finite ==> acc == g.add(start, Dot(g, ss, ps[..|ss|]))
  {
    hide Mul, IsGroup, Dot;
    acc, finite := start, true;
    DotZero(g, ss[..0], ps[..0]);
    Unit(g, start);
    for k := 0 to |ss|
      invariant finite <==> forall i :: 0 <= i < k ==> g.add(start, Dot(g, ss[..i], ps[..i])) != g.zero
      invariant finite ==> acc == g.add(start, Dot(g, ss[..k], ps[..k]))
    {
      var t := Times(g, ps[k], ss[k]);
      DotPrefixStep(g, ss, ps, k);
      Assoc(g, start, Dot(g, ss[..k], ps[..k]), t);
      Comm(g, t, acc);
      var ok;
      acc, ok := AddAffine(g, t, acc);
      finite := finite && ok;
    }
    assert ss[..|ss|] == ss;
    assert forall i :: 0 <= i < |ss| ==> ps[..|ss|][..i] == ps[..i];
  }

  lemma DotPrefixStep<P>(g: Group<P>, ss: seq<int>, ps: seq<P>, k: nat)
    requires k < |ss| <= |ps|
    ensures Dot(g, ss[..k + 1], ps[..k + 1]) == g.add(Dot(g, ss[..k], ps[..k]), Mul(g, ss[k], ps[k]))
  {
    assert ss[..k + 1][..k] == ss[..k] && ps[..k + 1][..k] == ps[..k];
  }

  ghost predicate ContextOk<P(!new)>(g: Group<P>, ctx: Context<P>) {
    ctx.n > 0 && ctx.m > 0 && |ctx.multigen| == ctx.m * ctx.n && FinitePoints(g, ctx.multigen) && ctx.genh != g.zero
  }

  /** A commitment to a vector; the exact integers it stands for are given as a ghost. */
  method CommitTo<P(!new, ==)>(g: Group<P>, ctx: Context<P>, r: Scalar, vals: seq<Scalar>, ghost v: seq<int>)
    returns (com: P, finite: bool)
    requires PrimeOrder(g) && ContextOk(g, ctx) && |vals| == |v| == |ctx.multigen|
    requires forall k :: 0 <= k < |v| ==> Rep(vals[k], v[k])
    ensures finite <==> Regular(g, [r] + v, Gens(ctx))
    ensures finite ==> com == Commit(g, ctx, r, v)
  {
    hide Mul, IsGroup, Dot, RegularAfter, Regular;
    PrimeKills(g);
    com := Times(g, ctx.genh, r);
    RegularFrom(g, r, ctx.genh, vals, ctx.multigen);
    RegularSame(g, [r] + vals, [r] + v, Gens(ctx));
    com, finite := Accumulate(g, com, vals, ctx.multigen);
    assert ctx.multigen[..|vals|] == ctx.multigen;
    RepSelf(r);
    forall k | 0 <= k < |v|
      ensures Same(vals[k], v[k])
    {
    }
    CommitMod(g, ctx, r, r, vals, v);
  }

  // The first multiple is always computed as it is.
  lemma RegularFrom<P(!new)>(g: Group<P>, c: int, p: P, v: seq<int>, ps: seq<P>)
    requires IsGroup(g) && |v| == |ps|
    ensures Regular(g, [c] + v, [p] + ps) <==> RegularAfter(g, Mul(g, c, p), v, ps)
  {
    hide Mul, IsGroup, Dot;
    var none: seq<P> := [];
    DotAppend(g, [], none, c, p);
    assert [] + [c] == [c] && none + [p] == [p];
    DotZero(g, [], none);
    Unit(g, Mul(g, c, p));
    RegularJoin(g, [c], [p], v, ps);
  }

  // secp256k1_scalar_set_int of a comparison
  function FromBool(b: bool): Scalar {
    if b then 1 else 0
  }

  method DeltaValues(n: nat, m: nat, index: nat) returns (vals: seq<Scalar>)
    requires n > 0
    ensures |vals| == m * n && forall k :: 0 <= k < |vals| ==> vals[k] == DeltaAt(k, n, index)
  {
    hide Digit;
    vals := [];
    for j := 0 to m
      invariant |vals| == j * n && forall k :: 0 <= k < |vals| ==> vals[k] == DeltaAt(k, n, index)
    {
      TailIndex(j, n);
      for i := 0 to n
        invariant |vals| == j * n + i && forall k :: 0 <= k < |vals| ==> vals[k] == DeltaAt(k, n, index)
      {
        var d := GetJth(j, n, index);
        FlatIndex(j, i, n);
        vals := vals + [FromBool(d == i)];
      }
    }
  }

  method MixedValues(a: seq<Scalar>, delta: seq<Scalar>, n: nat, index: nat) returns (vals: seq<Scalar>)
    requires n > 0 && |delta| == |a| && forall k :: 0 <= k < |delta| ==> delta[k] == DeltaAt(k, n, index)
    ensures |vals| == |a| && forall k :: 0 <= k < |a| ==> Rep(vals[k], MixedVec(a, n, index)[k])
  {
    hide DeltaAt, Rep;
    vals := [];
    for k := 0 to |a|
      invariant |vals| == k && forall i :: 0 <= i < k ==> Rep(vals[i], MixedVec(a, n, index)[i])
    {
      var v := MixedValue(a[k], delta[k]);
      vals := vals + [v];
    }
  }

  method MixedValue(a: Scalar, delta: Scalar) returns (v: Scalar)
    requires delta == 0 || delta == 1
    ensures Rep(v, Mixed(a, delta))
  {
    var twice: Scalar := if delta == 1 then 2 else 0;
    ghost var less: int := 0 - (twice as int);
    RepSelf(twice);
    RepSelf(1);
    RepSelf(a);
    RepNegate(twice, twice);
    RepAdd(Negate(twice), 1, less, 1);
    RepMul(AddS(Negate(twice), 1), a, less + 1, a);
    v := MulS(AddS(Negate(twice), 1), a);
  }

  method SquareValues(a: seq<Scalar>) returns (vals: seq<Scalar>)
    ensures |vals| == |a| && forall k :: 0 <= k < |a| ==> Rep(vals[k], SquareVec(a)[k])
  {
    hide Rep, NegSquare;
    vals := [];
    for k := 0 to |a|
      invariant |vals| == k && forall i :: 0 <= i < k ==> Rep(vals[i], SquareVec(a)[i])
    {
      var v := SquareValue(a[k]);
      vals := vals + [v];
    }
  }

  method SquareValue(a: Scalar) returns (v: Scalar)
    ensures Rep(v, NegSquare(a))
  {
    RepSelf(a);
    RepMul(a, a, a, a);
    RepNegate(MulS(a, a), a * a);
    v := Negate(MulS(a, a));
  }

  /** The coefficients of one ring position's polynomial, multiplied out factor by factor in one row of the table. */
  method Polynomial(a: seq<Scalar>, n: nat, m: nat, index: nat, t: nat) returns (p: seq<Scalar>)
    requires n > 0 && m > 0 && |a| == m * n
    ensures |p| == m + 1 && Holds(p, Offsets(a, n, m, t), Slopes(n, m, index, t))
  {
    hide Coeff, Offsets, Slopes, Holds;
    var row := new Scalar[m + 1](_ => 0);
    var first, own := FactorAt(a, n, 0, m, index, t);
    row[0] := first;
    row[1] := own;
    OneFactor(row[..2], Offsets(a, n, 1, t), Slopes(n, 1, index, t), first, own);
    for j := 1 to m
      invariant |a| >= j * n
      invariant Holds(row[..j + 1], Offsets(a, n, j, t), Slopes(n, j, index, t))
    {
      Index(j, 0, n, m);
      var x, d := FactorAt(a, n, j, m, index, t);
      ghost var us, vs := Offsets(a, n, j + 1, t), Slopes(n, j + 1, index, t);
      FactorPrefix(a, n, j, index, t);
      TimesFactor(row, j, x, d, us, vs);
    }
    p := row[..];
    assert row[..m + 1] == row[..];
  }

  method FactorAt(a: seq<Scalar>, n: nat, j: nat, m: nat, index: nat, t: nat) returns (x: Scalar, d: Scalar)
    requires n > 0 && |a| == m * n && j < m && 0 <= j * n <= m * n
    ensures |a| >= (j + 1) * n && x == Offsets(a, n, j + 1, t)[j] && d == Slopes(n, j + 1, index, t)[j]
  {
    var i := GetJth(j, n, t);
    Index(j, i, n, m);
    TailIndex(j, n);
    x := a[j * n + i];
    var s := GetJth(j, n, index);
    d := FromBool(s == i);
  }

  lemma FactorPrefix(a: seq<int>, n: nat, j: nat, index: nat, t: nat)
    requires n > 0 && |a| >= (j + 1) * n
    ensures |a| >= j * n
    ensures Offsets(a, n, j + 1, t)[..j] == Offsets(a, n, j, t)
    ensures Slopes(n, j + 1, index, t)[..j] == Slopes(n, j, index, t)
  {
    TailIndex(j, n);
  }

  lemma OneFactor(p: seq<Scalar>, xs: seq<int>, ds: seq<int>, x: Scalar, d: Scalar)
    requires |xs| == |ds| == 1 && xs[0] == x && ds[0] == d && p == [x, d]
    ensures Holds(p, xs, ds)
  {
    assert xs[..0] == [] && ds[..0] == [];
    assert Coeff([], [], 0) == 1 && Coeff([], [], -1) == 0 && Coeff([], [], 1) == 0;
    RepSelf(x);
    RepSelf(d);
  }

  // A first multiple followed by the multiples of the remaining points.
  lemma DotFront<P(!new)>(g: Group<P>, cs: seq<int>, ps: seq<P>)
    requires IsGroup(g) && |cs| == |ps| > 0
    ensures Dot(g, cs, ps) == g.add(Mul(g, cs[0], ps[0]), Dot(g, cs[1..], ps[1..]))
  {
    DotConcat(g, cs[..1], ps[..1], cs[1..], ps[1..]);
    assert cs == cs[..1] + cs[1..] && ps == ps[..1] + ps[1..];
    DotAppend(g, [], [], cs[0], ps[0]);
    assert [] + [cs[0]] == cs[..1] && [] + [ps[0]] == ps[..1];
    Unit(g, Mul(g, cs[0], ps[0]));
  }

  // Sum of multiples of a non-empty list of bases: the first is computed, the others are accumulated.
  method SumOfMultiples<P(!new, ==)>(g: Group<P>, ss: seq<Scalar>, ps: seq<P>) returns (acc: P, finite: bool)
    requires PrimeOrder(g) && |ss| == |ps| > 0 && FinitePoints(g, ps)
    ensures finite <==> Regular(g, ss, ps)
    ensures finite ==> acc == Dot(g, ss, ps)
  {
    hide Mul, IsGroup, Dot, Regular, RegularAfter;
    acc := Times(g, ps[0], ss[0]);
    RegularFrom(g, ss[0], ps[0], ss[1..], ps[1..]);
    assert [ss[0]] + ss[1..] == ss && [ps[0]] + ps[1..] == ps;
    acc, finite := Accumulate(g, acc, ss[1..], ps[1..]);
    assert ps[1..][..|ss[1..]|] == ps[1..];
    DotFront(g, ss, ps);
  }

  ghost predicate TableOk(table: seq<seq<Scalar>>, a: seq<Scalar>, n: nat, m: nat, index: nat)
    requires n > 0 && |a| == m * n
  {
    forall t :: 0 <= t < |table| ==> |table[t]| == m + 1 && Holds(table[t], Offsets(a, n, m, t), Slopes(n, m, index, t))
  }

  method RingTable(a: seq<Scalar>, n: nat, m: nat, index: nat, ring: nat) returns (table: seq<seq<Scalar>>)
    requires n > 0 && m > 0 && |a| == m * n
    ensures |table| == ring && TableOk(table, a, n, m, index)
  {
    hide Holds, Offsets, Slopes;
    table := [];
    for t := 0 to ring
      invariant |table| == t && TableOk(table, a, n, m, index)
    {
      var row := Polynomial(a, n, m, index, t);
      table := table + [row];
    }
  }

  // The running sums of a coefficient point are finite.
  ghost predicate RegularQ<P>(g: Group<P>, ctx: Context<P>, bases: seq<P>, cs: seq<P>, index: nat, s: Nonces, j: nat)
    requires ctx.n > 0 && |s.a| == ctx.m * ctx.n && j < |s.rho|
  {
    Regular(g, Repeated(s.rho[j], |bases|) + Column(s.a, ctx.n, ctx.m, index, |cs|, j), bases + cs)
  }

  // One coefficient point: the blinding multiples of the bases, then the ring weighted with one column of the table.
  method CoefficientPoint<P(!new, ==)>(g: Group<P>, ctx: Context<P>, bases: seq<P>, cs: seq<P>, index: nat, s: Nonces,
      table: seq<seq<Scalar>>, j: nat) returns (Q: P, finite: bool)
    requires PrimeOrder(g) && Shaped(ctx, s) && j < ctx.m && |bases| > 0 && FinitePoints(g, bases)
    requires FinitePoints(g, cs)
    requires |table| == |cs| && TableOk(table, s.a, ctx.n, ctx.m, index)
    ensures finite <==> RegularQ(g, ctx, bases, cs, index, s, j)
    ensures finite ==> Q == HonestQ(g, ctx, bases, cs, index, s, j)
  {
    hide Mul, IsGroup, Dot, Coeff, Offsets, Slopes, Regular, RegularAfter;
    var blind: seq<Scalar> := seq(|bases|, i => s.rho[j]);
    assert blind == Repeated(s.rho[j], |bases|);
    var ok;
    Q, ok := SumOfMultiples(g, blind, bases);
    var column: seq<Scalar> := seq(|cs|, t requires 0 <= t < |cs| => table[t][j]);
    ColumnAgrees(g, column, s.a, ctx.n, ctx.m, index, table, j, cs);
    RegularJoin(g, blind, bases, column, cs);
    ColumnRegular(g, blind, bases, column, s.a, ctx.n, ctx.m, index, table, j, cs);
    assert cs[..|column|] == cs;
    Q, finite := Accumulate(g, Q, column, cs);
    finite := finite && ok;
  }

  lemma ColumnAgrees<P(!new)>(g: Group<P>, column: seq<Scalar>, a: seq<Scalar>, n: nat, m: nat, index: nat,
      table: seq<seq<Scalar>>, j: nat, cs: seq<P>)
    requires PrimeOrder(g) && n > 0 && |a| == m * n && TableOk(table, a, n, m, index) && j <= m
    requires |column| == |table| == |cs| && forall t :: 0 <= t < |cs| ==> column[t] == table[t][j]
    ensures Dot(g, column, cs) == Dot(g, Column(a, n, m, index, |cs|, j), cs)
  {
    hide Mul, IsGroup, Dot, Coeff, Offsets, Slopes;
    ColumnSame(column, a, n, m, index, table, j);
    PrimeKills(g);
    AllKilledList(g, cs);
    DotSame(g, column, Column(a, n, m, index, |cs|, j), cs);
  }

  lemma ColumnSame(column: seq<Scalar>, a: seq<Scalar>, n: nat, m: nat, index: nat, table: seq<seq<Scalar>>, j: nat)
    requires n > 0 && |a| == m * n && TableOk(table, a, n, m, index) && j <= m
    requires |column| == |table| && forall t :: 0 <= t < |column| ==> column[t] == table[t][j]
    ensures forall t :: 0 <= t < |column| ==> Same(column[t], Column(a, n, m, index, |column|, j)[t])
  {
    hide Coeff, Offsets, Slopes;
    forall t | 0 <= t < |column|
      ensures Same(column[t], Column(a, n, m, index, |column|, j)[t])
    {
      assert Rep(table[t][j], Coeff(Offsets(a, n, m, t), Slopes(n, m, index, t), j));
    }
  }

  lemma ColumnRegular<P(!new)>(g: Group<P>, blind: seq<Scalar>, bases: seq<P>, column: seq<Scalar>, a: seq<Scalar>,
      n: nat, m: nat, index: nat, table: seq<seq<Scalar>>, j: nat, cs: seq<P>)
    requires PrimeOrder(g) && n > 0 && |a| == m * n && TableOk(table, a, n, m, index) && j <= m && |blind| == |bases|
    requires |column| == |table| == |cs| && forall t :: 0 <= t < |cs| ==> column[t] == table[t][j]
    ensures Regular(g, blind + column, bases + cs) <==> Regular(g, blind + Column(a, n, m, index, |cs|, j), bases + cs)
  {
    hide Mul, IsGroup, Dot, Coeff, Offsets, Slopes, Regular, TableOk;
    ColumnSame(column, a, n, m, index, table, j);
    PrimeKills(g);
    RegularSame(g, blind + column, blind + Column(a, n, m, index, |cs|, j), bases + cs);
  }

  function NonceAt(random: seq<seq<Byte>>, i: nat): Scalar {
    if i < |random| && |random[i]| == 32 then SetB32(random[i]).0 else 0
  }

  ghost predicate RowsDrawn(random: seq<seq<Byte>>, n: nat, a: seq<Scalar>)
    requires n > 0
  {
    forall k :: 0 <= k < |a| ==> k % n == 0 || a[k] == NonceAt(random, 4 + k)
  }

  /** Nonces come from the generator in a fixed order; each row's first entry cancels the others. */
  ghost predicate Drawn(random: seq<seq<Byte>>, n: nat, m: nat, s: Nonces)
    requires n > 0
  {
    && s.rA == NonceAt(random, 0) && s.rB == NonceAt(random, 1)
      && s.rC == NonceAt(random, 2) && s.rD == NonceAt(random, 3)
    && |s.rho| == m && (forall j :: 0 <= j < m ==> 0 <= j * n && s.rho[j] == NonceAt(random, 4 + j * n))
    && |s.a| == m * n && RowsDrawn(random, n, s.a) && (forall j :: 0 <= j < m ==> RowFirst(s.a, n, 0, j))
  }

  method DrawNonces(random: seq<seq<Byte>>, n: nat, m: nat) returns (s: Nonces, overflow: bool)
    requires n > 0 && |random| == 4 + m * n && forall i :: 0 <= i < |random| ==> |random[i]| == 32
    ensures Drawn(random, n, m, s)
    ensures overflow == SetB32(random[|random| - 1]).1
  {
    hide SetB32, Sum, RowsDrawn, RowFirst;
    var rA, _ := DrawScalar(random, 0);
    var rB, _ := DrawScalar(random, 1);
    var rC, _ := DrawScalar(random, 2);
    var rD;
    rD, overflow := DrawScalar(random, 3);
    var rho: seq<Scalar>, a: seq<Scalar> := [], [];
    NothingDrawn(random, n);
    for j := 0 to m
      invariant |rho| == j && forall i :: 0 <= i < j ==> 0 <= i * n && rho[i] == NonceAt(random, 4 + i * n)
      invariant |a| == j * n && RowsDrawn(random, n, a) && forall i :: 0 <= i < j ==> RowFirst(a, n, 0, i)
      invariant overflow == SetB32(random[3 + j * n]).1
    {
      Index(j, 0, n, m);
      TailIndex(j, n);
      var r;
      r, overflow := DrawScalar(random, 4 + j * n);
      rho := rho + [r];
      var row: seq<Scalar>, tmp: Scalar := [], 0;
      assert Sum([]) == 0 by { EmptySum(); }
      for i := 1 to n
        invariant |row| == i - 1 && tmp == Sum(row)
        invariant forall k :: 0 <= k < i - 1 ==> row[k] == NonceAt(random, 4 + j * n + 1 + k)
        invariant overflow == SetB32(random[3 + j * n + i]).1
      {
        Index(j, i, n, m);
        var v;
        v, overflow := DrawScalar(random, 4 + j * n + i);
        SumAppend(row, v);
        row := row + [v];
        tmp := AddS(tmp, v);
      }
      RowsExtend(random, a, row, n, j);
      a := a + [Negate(tmp)] + row;
    }
    s := Nonces(rA, rB, rC, rD, rho, a);
  }

  method DrawScalar(random: seq<seq<Byte>>, i: nat) returns (v: Scalar, overflow: bool)
    requires i < |random| && |random[i]| == 32
    ensures v == NonceAt(random, i) && overflow == SetB32(random[i]).1
  {
    var r := SetB32(random[i]);
    v, overflow := r.0, r.1;
  }

  lemma EmptySum()
    ensures Sum([]) == 0
  {
  }

  lemma SumAppend(row: seq<Scalar>, v: Scalar)
    ensures Sum(row + [v]) == AddS(Sum(row), v)
  {
    assert (row + [v])[..|row|] == row;
  }

  lemma NothingDrawn(random: seq<seq<Byte>>, n: nat)
    requires n > 0
    ensures RowsDrawn(random, n, [])
  {
  }

  lemma RowsExtend(random: seq<seq<Byte>>, a: seq<Scalar>, row: seq<Scalar>, n: nat, j: nat)
    requires n > 0 && |a| == j * n && |row| == n - 1 && forall i :: 0 <= i < j ==> RowFirst(a, n, 0, i)
    requires RowsDrawn(random, n, a) && forall k :: 0 <= k < n - 1 ==> row[k] == NonceAt(random, 4 + j * n + 1 + k)
    ensures RowsDrawn(random, n, a + [Negate(Sum(row))] + row)
    ensures forall i :: 0 <= i < j + 1 ==> RowFirst(a + [Negate(Sum(row))] + row, n, 0, i)
  {
    hide Sum, NonceAt;
    var b := a + [Negate(Sum(row))] + row;
    TailIndex(j, n);
    assert b[j * n + 1..j * n + n] == row;
    forall k | 0 <= k < |b|
      ensures k % n == 0 || b[k] == NonceAt(random, 4 + k)
    {
      if k >= j * n {
        FlatIndex(j, k - j * n, n);
      } else {
        assert b[k] == a[k];
      }
    }
    forall i | 0 <= i < j
      ensures RowFirst(b, n, 0, i)
    {
      assert RowFirst(a, n, 0, i);
      Index(i, 0, n, j);
      assert b[i * n + 1..i * n + n] == a[i * n + 1..i * n + n];
    }
  }

  // How many of the sent positions of a row carry the secret digit.
  function Hits(j: nat, n: nat, index: nat, k: nat): int
    requires n > 0
  {
    if k == 0 then 0 else Hits(j, n, index, k - 1) + Delta(j, k, n, index)
  }

  lemma {:induction false} HitsCount(j: nat, n: nat, index: nat, k: nat)
    requires n > 0
    ensures Hits(j, n, index, k) == if 1 <= Digit(j, n, index) <= k then 1 else 0
  {
    if k > 0 {
      HitsCount(j, n, index, k - 1);
    }
  }

  function Scaled(d: int, x: int): int {
    d * x
  }

  lemma RespondsAt(s: Nonces, f: seq<Scalar>, n: nat, m: nat, index: nat, x: Scalar, j: nat, i: nat)
    requires n > 0 && |s.a| == m * n && Responds(s, n, index, x, f) && j < m && i < n
    ensures 0 <= j * n && j * n + i < |f| == m * n
    ensures Rep(f[j * n + i], Scaled(Delta(j, i, n, index), x) + s.a[j * n + i])
  {
    hide Digit;
    Index(j, i, n, m);
    FlatIndex(j, i, n);
    assert Rep(f[j * n + i], DeltaAt(j * n + i, n, index) * x + s.a[j * n + i]);
  }

  lemma RepZero(x: int)
    ensures Rep(0, Scaled(0, x) + 0)
  {
  }

  lemma Shares(h: int, d: int, x: int)
    requires h + d == 1
    ensures Scaled(h, x) + Scaled(d, x) == x
  {
    assert (h + d) * x == h * x + d * x;
  }

  ghost predicate RowResponds(fr: seq<Scalar>, ar: seq<Scalar>, n: nat, index: nat, x: Scalar, j: nat)
    requires n > 0
  {
    |fr| == |ar| && forall i :: 0 <= i < |fr| ==> Rep(fr[i], Scaled(Delta(j, i + 1, n, index), x) + ar[i])
  }

  lemma {:induction false} RowSum(fr: seq<Scalar>, ar: seq<Scalar>, n: nat, index: nat, x: Scalar, j: nat)
    requires n > 0 && RowResponds(fr, ar, n, index, x, j)
    ensures Rep(Sum(fr), Scaled(Hits(j, n, index, |fr|), x) + Sum(ar))
  {
    hide Rep, Delta, Scaled;
    var k := |fr|;
    if k == 0 {
      RepZero(x);
    } else {
      RowSum(fr[..k - 1], ar[..k - 1], n, index, x, j);
      SumStep(Sum(fr[..k - 1]), fr[k - 1], Hits(j, n, index, k - 1), Delta(j, k, n, index), x, Sum(ar[..k - 1]),
        ar[k - 1]);
    }
  }

  lemma RespondingRow(s: Nonces, f: seq<Scalar>, n: nat, m: nat, index: nat, x: Scalar, j: nat, p: nat)
    requires n > 0 && |s.a| == m * n && Responds(s, n, index, x, f) && j < m && p == j * n
    ensures p + n <= |f| == |s.a| && RowResponds(f[p + 1..p + n], s.a[p + 1..p + n], n, index, x, j)
  {
    Index(j, 0, n, m);
    hide Rep, Delta, Scaled, Responds;
    RespondsAt(s, f, n, m, index, x, j, 0);
    var fr, ar := f[p + 1..p + n], s.a[p + 1..p + n];
    forall i | 0 <= i < n - 1
      ensures Rep(fr[i], Scaled(Delta(j, i + 1, n, index), x) + ar[i])
    {
      RespondsAt(s, f, n, m, index, x, j, i + 1);
    }
  }

  lemma SumStep(u: Scalar, v: Scalar, h: int, d: int, x: Scalar, su: Scalar, a: Scalar)
    requires Rep(u, Scaled(h, x) + su) && Rep(v, Scaled(d, x) + a)
    ensures Rep(AddS(u, v), Scaled(h + d, x) + AddS(su, a))
  {
    RepAdd(u, v, h * x + su, d * x + a);
    RepSelf(su);
    RepSelf(a);
    var k := Representative(AddS(su, a), su + a);
    hide ToScalar;
    assert h * x + su + (d * x + a) == (h + d) * x + AddS(su, a) + k * N;
    ModShift((h + d) * x + AddS(su, a), k);
  }

  /** The responses of every row add up to the challenge, so the first one can be left out. */
  lemma ResponseRows(s: Nonces, f: seq<Scalar>, n: nat, m: nat, index: nat, x: Scalar, j: nat)
    requires n > 0 && |s.a| == m * n && Responds(s, n, index, x, f) && j < m && RowFirst(s.a, n, 0, j)
    ensures RowFirst(f, n, x, j)
  {
    var p := j * n;
    Index(j, 0, n, m);
    RespondsAt(s, f, n, m, index, x, j, 0);
    RespondingRow(s, f, n, m, index, x, j, p);
    RowFirstMatches(f[p], f[p + 1..p + n], s.a[p], s.a[p + 1..p + n], n, index, x, j);
  }

  lemma RowFirstMatches(f: Scalar, fr: seq<Scalar>, a: Scalar, ar: seq<Scalar>, n: nat, index: nat, x: Scalar, j: nat)
    requires n > 0 && |fr| == n - 1 && RowResponds(fr, ar, n, index, x, j)
    requires Rep(f, Scaled(Delta(j, 0, n, index), x) + a) && a == FirstOf(ar, 0)
    ensures f == FirstOf(fr, x)
  {
    RowSum(fr, ar, n, index, x, j);
    HitsCount(j, n, index, n - 1);
    var h, d := Hits(j, n, index, n - 1), Delta(j, 0, n, index);
    assert h + d == 1;
    hide Digit, Sum, Hits, Delta, Rep, Scaled, RowResponds;
    Shares(h, d, x);
    FirstMatches(Sum(fr), Sum(ar), Scaled(h, x), Scaled(d, x), x, f, a);
  }

  // y is the share of the challenge in the sent positions, z the one in the first.
  lemma FirstMatches(u: Scalar, su: Scalar, y: int, z: int, x: Scalar, f: Scalar, a: Scalar)
    requires Rep(u, y + su) && y + z == x && Rep(f, z + a) && a == AddS(Negate(su), 0)
    ensures f == AddS(Negate(u), x)
  {
    RepNegate(u, y + su);
    RepSelf(x);
    RepAdd(Negate(u), x, -(y + su), x);
    var k := if su == 0 then 0 else 1;
    assert a == k * N - su;
    ModShift(z - su, k);
  }

  // f[j][i] = delta*x + a[j][i]
  method Respond(a: seq<Scalar>, delta: seq<Scalar>, x: Scalar, ghost s: Nonces, ghost n: nat,
      ghost index: nat) returns (f: seq<Scalar>)
    requires n > 0 && s.a == a && |delta| == |a| && forall k :: 0 <= k < |delta| ==> delta[k] == DeltaAt(k, n, index)
    ensures f == Response(s, n, index, x)
  {
    hide DeltaAt;
    f := [];
    for k := 0 to |a|
      invariant |f| == k && forall i :: 0 <= i < k ==> f[i] == Response(s, n, index, x)[i]
    {
      var v := RespondAt(delta[k], x, a[k]);
      f := f + [v];
    }
  }

  method RespondAt(delta: Scalar, x: Scalar, a: Scalar) returns (f: Scalar)
    requires delta == 0 || delta == 1
    ensures f == ToScalar(delta * x + a)
  {
    RepSelf(delta);
    RepSelf(x);
    RepMul(delta, x, delta, x);
    RepSelf(a);
    RepAdd(MulS(delta, x), a, delta * x, a);
    f := AddS(MulS(delta, x), a);
  }

  // r*x + s, the response for a blinding factor
  method Blinded(x: Scalar, r: Scalar, s: Scalar) returns (z: Scalar)
    ensures z == ToScalar(x * r + s)
  {
    RepSelf(x);
    RepSelf(r);
    RepSelf(s);
    RepMul(x, r, x, r);
    RepAdd(MulS(x, r), s, x * r, s);
    z := AddS(MulS(x, r), s);
  }

  /** key*x^m less the weighted blinding factors, by Horner-like powers of x. */
  method Opening(key: Scalar, rho: seq<Scalar>, x: Scalar) returns (z: Scalar)
    ensures z == ToScalar(OpeningOf(key, Power(x, |rho|), RhoSum(rho, x, |rho|)))
  {
    hide Rep, RhoSum, Power;
    z := 0;
    var power: Scalar := 1;
    OpeningStart(rho, x);
    for j := 0 to |rho|
      invariant Rep(z, RhoSum(rho, x, j)) && Rep(power, Power(x, j))
    {
      OpeningStep(z, power, rho, x, j);
      var tmp := MulS(rho[j], power);
      z := AddS(z, tmp);
      power := MulS(power, x);
    }
    OpeningEnd(z, power, key, Power(x, |rho|), RhoSum(rho, x, |rho|));
    z := Negate(z);
    z := AddS(z, MulS(key, power));
  }

  lemma OpeningStart(rho: seq<Scalar>, x: Scalar)
    ensures Rep(0, RhoSum(rho, x, 0)) && Rep(1, Power(x, 0))
  {
  }

  lemma OpeningStep(z: Scalar, power: Scalar, rho: seq<Scalar>, x: Scalar, j: nat)
    requires j < |rho| && Rep(z, RhoSum(rho, x, j)) && Rep(power, Power(x, j))
    ensures Rep(AddS(z, MulS(rho[j], power)), RhoSum(rho, x, j + 1)) && Rep(MulS(power, x), Power(x, j + 1))
  {
    RepSelf(rho[j]);
    RepSelf(x);
    RepMul(rho[j], power, rho[j], Power(x, j));
    RepAdd(z, MulS(rho[j], power), RhoSum(rho, x, j), rho[j] * Power(x, j));
    RepMul(power, x, Power(x, j), x);
  }

  lemma OpeningEnd(z: Scalar, power: Scalar, key: Scalar, p: int, r: int)
    requires Rep(z, r) && Rep(power, p)
    ensures Rep(AddS(Negate(z), MulS(key, power)), OpeningOf(key, p, r))
  {
    RepNegate(z, r);
    RepSelf(key);
    RepMul(key, power, key, p);
    RepAdd(Negate(z), MulS(key, power), -r, key * p);
  }

  method AllOpenings(keys: seq<Scalar>, rho: seq<Scalar>, x: Scalar) returns (z: seq<Scalar>)
    ensures z == Openings(keys, rho, x)
  {
    hide RhoSum, Power;
    z := [];
    for i := 0 to |keys|
      invariant |z| == i && forall k :: 0 <= k < i ==> z[k] == Openings(keys, rho, x)[k]
    {
      var v := Opening(keys[i], rho, x);
      z := z + [v];
    }
  }

  // The capacity n^m of m digits.
  method Capacity(n: nat, m: nat) returns (c: nat)
    ensures c == Power(n, m)
  {
    c := 1;
    for i := 0 to m
      invariant c == Power(n, i)
    {
      MulNonneg(c, n);
      c := c * n;
    }
  }

  function Concat(bs: seq<seq<Byte>>): seq<Byte> {
    if |bs| == 0 then [] else Concat(bs[..|bs| - 1]) + bs[|bs| - 1]
  }

  /** The challenge binds the ring, the outer challenge and every point of the proof. */
  function Challenge(hash: seq<Byte> -> Digest, ring: seq<seq<Byte>>, chal: seq<Byte>, points: seq<Byte>): Scalar {
    SetB32(hash(Hashed(ring, chal, points))).0
  }

  function Hashed(ring: seq<seq<Byte>>, chal: seq<Byte>, points: seq<Byte>): seq<Byte> {
    Concat(ring) + chal + points
  }

  ghost predicate Entries(ring: seq<seq<Byte>>) {
    forall t :: 0 <= t < |ring| ==> |ring[t]| == 33
  }

  lemma {:induction false} ConcatAt(ring: seq<seq<Byte>>)
    requires Entries(ring)
    ensures |Concat(ring)| == 33 * |ring|
    ensures forall t :: 0 <= t < |ring| ==> Concat(ring)[33 * t..33 * t + 33] == ring[t]
  {
    if |ring| > 0 {
      var k := |ring| - 1;
      ConcatAt(ring[..k]);
      var front := Concat(ring[..k]);
      forall t | 0 <= t < |ring|
        ensures (front + ring[k])[33 * t..33 * t + 33] == ring[t]
      {
        if t < k {
          assert (front + ring[k])[33 * t..33 * t + 33] == front[33 * t..33 * t + 33] == ring[..k][t];
        }
      }
    }
  }

  // The octets that are hashed, by their places.
  ghost predicate IsHashed(q: seq<Byte>, ring: seq<seq<Byte>>, chal: seq<Byte>, points: seq<Byte>) {
    && |q| == 33 * |ring| + |chal| + |points|
    && (forall t :: 0 <= t < |ring| ==> q[33 * t..33 * t + 33] == ring[t])
    && q[33 * |ring|..33 * |ring| + |chal|] == chal && q[33 * |ring| + |chal|..] == points
  }

  lemma PieceOfPrefix(q: seq<Byte>, n: nat, lo: nat)
    requires lo + 33 <= n <= |q|
    ensures q[..n][lo..lo + 33] == q[lo..lo + 33]
  {
  }

  lemma HashedPieces(ring: seq<seq<Byte>>, chal: seq<Byte>, points: seq<Byte>)
    requires Entries(ring)
    ensures IsHashed(Hashed(ring, chal, points), ring, chal, points)
  {
    ConcatAt(ring);
    hide Concat;
    var h, n := Hashed(ring, chal, points), 33 * |ring|;
    assert h[..n] == Concat(ring) && h[n..n + |chal|] == chal && h[n + |chal|..] == points;
    forall t | 0 <= t < |ring|
      ensures h[33 * t..33 * t + 33] == ring[t]
    {
      PieceOfPrefix(h, n, 33 * t);
    }
  }

  /** What is hashed for a challenge: the entries of the ring in order, the outer challenge, the points. */
  lemma HashedIff(q: seq<Byte>, ring: seq<seq<Byte>>, chal: seq<Byte>, points: seq<Byte>)
    requires Entries(ring)
    ensures q == Hashed(ring, chal, points) <==> IsHashed(q, ring, chal, points)
  {
    HashedPieces(ring, chal, points);
    hide Hashed;
    var h, n := Hashed(ring, chal, points), 33 * |ring|;
    if IsHashed(q, ring, chal, points) {
      forall t | 0 <= t < |ring|
        ensures q[..n][33 * t..33 * t + 33] == h[..n][33 * t..33 * t + 33]
      {
        PieceOfPrefix(q, n, 33 * t);
        PieceOfPrefix(h, n, 33 * t);
        assert q[33 * t..33 * t + 33] == ring[t] == h[33 * t..33 * t + 33];
      }
      SamePieces(q[..n], h[..n], |ring|);
      assert q == q[..n] + q[n..n + |chal|] + q[n + |chal|..];
      assert h == h[..n] + h[n..n + |chal|] + h[n + |chal|..];
    }
  }

  lemma {:induction false} SamePieces(q: seq<Byte>, h: seq<Byte>, k: nat)
    requires |q| == |h| == 33 * k && forall t :: 0 <= t < k ==> q[33 * t..33 * t + 33] == h[33 * t..33 * t + 33]
    ensures q == h
  {
    if k > 0 {
      var n := 33 * (k - 1);
      forall t | 0 <= t < k - 1
        ensures q[..n][33 * t..33 * t + 33] == h[..n][33 * t..33 * t + 33]
      {
        assert q[..n][33 * t..33 * t + 33] == q[33 * t..33 * t + 33];
        assert h[..n][33 * t..33 * t + 33] == h[33 * t..33 * t + 33];
      }
      SamePieces(q[..n], h[..n], k - 1);
      assert q[33 * (k - 1)..33 * (k - 1) + 33] == h[33 * (k - 1)..33 * (k - 1) + 33];
      assert q == q[..n] + q[n..n + 33] && h == h[..n] + h[n..n + 33];
    }
  }

  // A hash that singles one string out.
  function Marks(s: seq<Byte>): seq<Byte> -> Digest {
    b => if b == s then GetB32(1) else GetB32(0)
  }

  /** Two strings that are read as the same scalar under every hash are one. */
  lemma HashDecides(s: seq<Byte>, t: seq<Byte>)
    ensures (forall hash: seq<Byte> -> Digest :: SetB32(hash(s)).0 == SetB32(hash(t)).0) <==> s == t
  {
    hide SetB32, GetB32;
    if s != t {
      var hash := Marks(s);
      ScalarRoundTrip(0);
      ScalarRoundTrip(1);
      assert SetB32(hash(s)).0 == 1 && SetB32(hash(t)).0 == 0;
    }
  }

  /** The challenge depends on every entry of the ring, on the outer challenge and on every point, and on nothing else.
      */
  lemma ChallengeDecides(ring: seq<seq<Byte>>, chal: seq<Byte>, points: seq<Byte>, other: seq<seq<Byte>>,
      chal': seq<Byte>, points': seq<Byte>)
    requires Entries(ring) && Entries(other) && |ring| == |other| && |chal| == |chal'| && |points| == |points'|
    ensures (forall hash: seq<Byte> -> Digest ::
        Challenge(hash, ring, chal, points) == Challenge(hash, other, chal', points')) <==>
      ring == other && chal == chal' && points == points'
  {
    hide SetB32, Hashed;
    var s, t := Hashed(ring, chal, points), Hashed(other, chal', points');
    HashDecides(s, t);
    if s != t {
      var hash: seq<Byte> -> Digest :| SetB32(hash(s)).0 != SetB32(hash(t)).0;
      assert Challenge(hash, ring, chal, points) != Challenge(hash, other, chal', points');
    }
    HashedIff(s, ring, chal, points);
    HashedIff(t, other, chal', points');
    if s == t {
      forall i | 0 <= i < |ring|
        ensures ring[i] == other[i]
      {
        assert s[33 * i..33 * i + 33] == ring[i] && t[33 * i..33 * i + 33] == other[i];
      }
    }
  }

  // Hashing piece by piece, in the order the code feeds the pieces.
  method HashChallenge(hash: seq<Byte> -> Digest, ring: seq<seq<Byte>>, chal: seq<Byte>, points: seq<Byte>)
    returns (x: Scalar)
    ensures x == Challenge(hash, ring, chal, points)
  {
    var fed: seq<Byte> := [];
    for t := 0 to |ring|
      invariant fed == Concat(ring[..t])
    {
      fed := fed + ring[t];
      assert ring[..t + 1][..t] == ring[..t];
    }
    assert ring[..|ring|] == ring;
    x := SetB32(hash(fed + chal + points)).0;
  }

  function LoadAll<P>(c: Codec<P>, ring: seq<seq<Byte>>): (ps: seq<P>)
    ensures |ps| == |ring| && forall t :: 0 <= t < |ring| ==> ps[t] == c.load(ring[t])
  {
    seq(|ring|, t requires 0 <= t < |ring| => c.load(ring[t]))
  }

  lemma LoadedFinite<P(!new)>(g: Group<P>, c: Codec<P>, ring: seq<seq<Byte>>)
    requires IsCodec(g, c)
    ensures FinitePoints(g, LoadAll(c, ring))
  {
    forall t | 0 <= t < |ring|
      ensures LoadAll(c, ring)[t] != g.zero
    {
      assert Loads(g, c, ring[t]);
    }
  }

  // The first m rows of the generators.
  function Restrict<P>(ctx: Context<P>, m: nat): (r: Context<P>)
    requires m <= ctx.m && |ctx.multigen| == ctx.m * ctx.n
    ensures r.n == ctx.n && r.m == m && |r.multigen| == m * ctx.n
  {
    MulNonneg(m, ctx.n);
    MulNonneg(ctx.m - m, ctx.n);
    assert (ctx.m - m) * ctx.n == ctx.m * ctx.n - m * ctx.n;
    Context(ctx.n, m, ctx.multigen[..m * ctx.n], ctx.genh)
  }

  /** The generators that are kept are those of the first m digits, each in its place. */
  lemma RestrictKeeps<P>(ctx: Context<P>, m: nat, j: nat, i: nat)
    requires m <= ctx.m && |ctx.multigen| == ctx.m * ctx.n && j < m && i < ctx.n
    ensures Restrict(ctx, m).genh == ctx.genh && 0 <= j * ctx.n + i < |Restrict(ctx, m).multigen| <= |ctx.multigen|
    ensures Restrict(ctx, m).multigen[j * ctx.n + i] == ctx.multigen[j * ctx.n + i]
  {
    Index(j, i, ctx.n, m);
    Index(j, i, ctx.n, ctx.m);
  }

  // The octets that give these nonces.
  function DrawnFrom(n: nat, m: nat, s: Nonces): (random: seq<seq<Byte>>)
    requires n > 0 && |s.rho| == m && |s.a| == m * n
    ensures |random| == 4 + m * n && forall i :: 0 <= i < |random| ==> |random[i]| == 32
  {
    [GetB32(s.rA), GetB32(s.rB), GetB32(s.rC), GetB32(s.rD)]
    + seq(m * n, k requires 0 <= k < m * n =>
      if k % n == 0 then QuotientBelow(k, n, m); GetB32(s.rho[k / n]) else GetB32(s.a[k]))
  }

  lemma QuotientBelow(k: nat, n: nat, m: nat)
    requires n > 0 && k < m * n
    ensures 0 <= k / n < m
  {
    DivModEq(k, n);
    if k / n >= m {
      MulNonneg(k / n - m, n);
    }
  }

  /** Each nonce comes from octets of its own: every choice whose rows add up to zero can be drawn. */
  lemma EveryNonceDrawn(n: nat, m: nat, s: Nonces)
    requires n > 0 && |s.rho| == m && |s.a| == m * n && forall j :: 0 <= j < m ==> RowFirst(s.a, n, 0, j)
    ensures Drawn(DrawnFrom(n, m, s), n, m, s)
  {
    hide SetB32, GetB32, RowFirst;
    var random := DrawnFrom(n, m, s);
    ScalarRoundTrip(s.rA);
    ScalarRoundTrip(s.rB);
    ScalarRoundTrip(s.rC);
    ScalarRoundTrip(s.rD);
    forall j | 0 <= j < m
      ensures 0 <= j * n && s.rho[j] == NonceAt(random, 4 + j * n)
    {
      Index(j, 0, n, m);
      FlatIndex(j, 0, n);
      ScalarRoundTrip(s.rho[j]);
      assert random[4 + j * n] == GetB32(s.rho[j]);
    }
    forall k | 0 <= k < |s.a|
      ensures k % n == 0 || s.a[k] == NonceAt(random, 4 + k)
    {
      if k % n != 0 {
        ScalarRoundTrip(s.a[k]);
        assert random[4 + k] == GetB32(s.a[k]);
      }
    }
  }

  /** And what is drawn is determined by the octets. */
  lemma DrawnUnique(random: seq<seq<Byte>>, n: nat, m: nat, s: Nonces, u: Nonces)
    requires n > 0 && Drawn(random, n, m, s) && Drawn(random, n, m, u)
    ensures s == u
  {
    hide SetB32, Sum;
    forall j | 0 <= j < m
      ensures s.rho[j] == u.rho[j] && RowFirst(s.a, n, 0, j) && RowFirst(u.a, n, 0, j)
    {
      assert 0 <= j * n && s.rho[j] == NonceAt(random, 4 + j * n);
    }
    forall k | 0 <= k < m * n
      ensures s.a[k] == u.a[k]
    {
      if k % n == 0 {
        var j := k / n;
        QuotientBelow(k, n, m);
        DivModEq(k, n);
        SameRow(random, n, m, s.a, u.a, j);
      }
    }
    assert s.a == u.a && s.rho == u.rho;
  }

  lemma SameRow(random: seq<seq<Byte>>, n: nat, m: nat, a: seq<Scalar>, b: seq<Scalar>, j: nat)
    requires n > 0 && |a| == |b| == m * n && j < m && RowsDrawn(random, n, a) && RowsDrawn(random, n, b)
    requires RowFirst(a, n, 0, j) && RowFirst(b, n, 0, j)
    ensures a[j * n] == b[j * n]
  {
    hide NonceAt, FirstOf;
    var p := j * n;
    Index(j, 0, n, m);
    forall k | p < k < p + n
      ensures a[k] == b[k]
    {
      FlatIndex(j, k - p, n);
    }
    assert a[p + 1..p + n] == b[p + 1..p + n];
  }
}
