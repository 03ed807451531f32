/** Multi-scalar multiplication over a callback, cut into batches that fit the scratch space. */
module MultiVar {
  import opened AbelianGroup
  import opened LinearCombination
  import opened Digits
  import opened Secp256k1
  import opened Scratch
  import opened MultiSizes
  import opened Strauss
  import opened WnafFixed
  import Pippenger

  /** The callback delivers a scalar and a point for an index, or fails. */
  type Callback<!P> = nat -> Option<(Scalar, P)>

  ghost predicate Available<P>(cb: Callback<P>, lo: nat, n: nat) {
    forall i :: lo <= i < lo + n ==> cb(i).Some?
  }

  ghost predicate TermsKilled<P>(g: Group<P>, cb: Callback<P>) {
    forall i: nat :: cb(i).Some? ==> Killed(g, cb(i).value.1)
  }

  // The term at index i; a failing callback contributes nothing.
  function Term<P>(g: Group<P>, cb: Callback<P>, i: nat): P {
    match cb(i)
    case None => g.zero
    case Some((s, p)) => Mul(g, s, p)
  }

  /** The sum of scalar times point over the indices lo, ..., lo+n-1. */
  ghost function CallbackSum<P>(g: Group<P>, cb: Callback<P>, lo: nat, n: nat): P {
    if n == 0 then g.zero else g.add(CallbackSum(g, cb, lo, n - 1), Term(g, cb, lo + n - 1))
  }

  lemma {:induction false} CallbackSumSplit<P(!new)>(g: Group<P>, cb: Callback<P>, lo: nat, m: nat, n: nat)
    requires IsGroup(g)
    ensures CallbackSum(g, cb, lo, m + n) == g.add(CallbackSum(g, cb, lo, m), CallbackSum(g, cb, lo + m, n))
  {
    if n == 0 {
      Unit(g, CallbackSum(g, cb, lo, m));
    } else {
      CallbackSumSplit(g, cb, lo, m, n - 1);
      Assoc(g, CallbackSum(g, cb, lo, m), CallbackSum(g, cb, lo + m, n - 1), Term(g, cb, lo + m + n - 1));
    }
  }

  /** What every variant computes: the callback's terms plus ng times the generator. */
  ghost function Total<P>(g: Group<P>, cb: Callback<P>, lo: nat, n: nat, gen: P, ng: Option<Scalar>): P {
    g.add(CallbackSum(g, cb, lo, n), Mul(g, OrZero(ng), gen))
  }

  // The lists hold the callback's terms from offset on.
  ghost predicate Holds<P>(cb: Callback<P>, offset: nat, sc: seq<Scalar>, pt: seq<P>) {
    |sc| == |pt| && forall k :: 0 <= k < |sc| ==> cb(offset + k) == Some((sc[k], pt[k]))
  }

  lemma HoldsNothing<P>(g: Group<P>, cb: Callback<P>, offset: nat)
    ensures Holds(cb, offset, [], []) && Dot(g, [], []) == CallbackSum(g, cb, offset, 0)
  {
  }

  lemma HoldsStep<P(!new)>(g: Group<P>, cb: Callback<P>, offset: nat, sc: seq<Scalar>, pt: seq<P>, s: Scalar, p: P)
    requires IsGroup(g) && Holds(cb, offset, sc, pt) && cb(offset + |sc|) == Some((s, p))
    requires Available(cb, offset, |sc|) && Dot(g, sc, pt) == CallbackSum(g, cb, offset, |sc|)
    ensures Holds(cb, offset, sc + [s], pt + [p]) && Available(cb, offset, |sc| + 1)
    ensures Dot(g, sc + [s], pt + [p]) == CallbackSum(g, cb, offset, |sc| + 1)
  {
    DotAppend(g, sc, pt, s, p);
  }

  lemma HoldsKilled<P(!new)>(g: Group<P>, cb: Callback<P>, offset: nat, sc: seq<Scalar>, pt: seq<P>)
    requires Holds(cb, offset, sc, pt) && TermsKilled(g, cb)
    ensures forall k :: 0 <= k < |pt| ==> Killed(g, pt[k])
  {
    forall k | 0 <= k < |pt| ensures Killed(g, pt[k]) {
      assert cb(offset + k) == Some((sc[k], pt[k]));
    }
  }

  // Fetch n terms into lists; fails as soon as the callback does.
  method Fetch<P(!new)>(g: Group<P>, cb: Callback<P>, offset: nat, n: nat)
    returns (ok: bool, sc: seq<Scalar>, pt: seq<P>)
    requires IsGroup(g)
    ensures ok <==> Available(cb, offset, n)
    ensures ok ==> |sc| == n && Holds(cb, offset, sc, pt) && Dot(g, sc, pt) == CallbackSum(g, cb, offset, n)
  {
    HoldsNothing(g, cb, offset);
    hide Mul, CallbackSum, Dot, Holds;
    sc, pt := [], [];
    for i := 0 to n
      invariant |sc| == |pt| == i && Holds(cb, offset, sc, pt) && Available(cb, offset, i)
          && Dot(g, sc, pt) == CallbackSum(g, cb, offset, i)
    {
      var term := cb(offset + i);
      if term == None {
        return false, sc, pt;
      }
      HoldsStep(g, cb, offset, sc, pt, term.value.0, term.value.1);
      sc, pt := sc + [term.value.0], pt + [term.value.1];
    }
    ok := true;
  }

  // Six allocations whose sizes add up to what was requested all succeed, whatever their alignment.
  method AllocSix(s: ScratchSpace, x0: nat, x1: nat, x2: nat, x3: nat, x4: nat, x5: nat)
    requires s.Framed() && |s.frameSizes| > 0 && s.offsets[|s.offsets| - 1] == 0
    requires x0 + x1 + x2 + x3 + x4 + x5 + SCRATCH_OBJECTS * ALIGNMENT <= s.frameSizes[|s.frameSizes| - 1]
    modifies s
    ensures s.Framed() && s.frameSizes == old(s.frameSizes)
    ensures s.offsets[..|s.offsets| - 1] == old(s.offsets[..|s.offsets| - 1])
  {
    var n := |s.frameSizes|;
    var ok := s.Alloc(x0);
    assert ok;
    ok := s.Alloc(x1);
    assert ok;
    ok := s.Alloc(x2);
    assert ok;
    ok := s.Alloc(x3);
    assert ok;
    ok := s.Alloc(x4);
    assert ok;
    ok := s.Alloc(x5);
    assert ok;
  }

  // The frame requested for a Pippenger batch holds its pieces, and one int more for every point.
  lemma PippengerPieces(l: Layout, n: nat, w: nat)
    requires l.Valid() && 1 <= w <= MAX_BUCKET_WINDOW
    ensures var e := n + 1;
      PippengerScratchSize(l, n, w) == e * l.ge + e * l.scalar + l.pippengerState + e * l.pippengerPoint
        + e * Windows(w + 1) * l.intSize + Pow2(w) * l.gej + e * l.intSize
  {
    var e, k := n + 1, Windows(w + 1);
    assert e * (l.ge + l.scalar + l.pippengerPoint + (k + 1) * l.intSize)
        == e * l.ge + e * l.scalar + e * l.pippengerPoint + e * k * l.intSize + e * l.intSize by {
      assert e * ((k + 1) * l.intSize) == e * k * l.intSize + e * l.intSize;
    }
    MulNonneg(e, l.intSize);
  }

  // One more frame than before, or no change when the request does not fit.
  twostate predicate Reserved(scratch: ScratchSpace, ok: bool)
    reads scratch
  {
    && scratch.Framed()
    && |scratch.frameSizes| == |old(scratch.frameSizes)| + (if ok then 1 else 0)
    && |scratch.offsets| == |scratch.frameSizes|
    && scratch.frameSizes[..|old(scratch.frameSizes)|] == old(scratch.frameSizes)
    && scratch.offsets[..|old(scratch.frameSizes)|] == old(scratch.offsets)
    && (!ok ==> scratch.frameSizes == old(scratch.frameSizes) && scratch.offsets == old(scratch.offsets))
  }

  // Open a frame of six pieces; the code relies on none of the six allocations failing.
  method Reserve(scratch: ScratchSpace, size: nat, x0: nat, x1: nat, x2: nat, x3: nat, x4: nat, x5: nat)
    returns (ok: bool)
    requires scratch.Valid() && |scratch.frameSizes| < MAX_FRAMES
    requires x0 + x1 + x2 + x3 + x4 + x5 <= size
    modifies scratch
    ensures Reserved(scratch, ok) && (ok <==> size <= old(scratch.MaxAllocation(SCRATCH_OBJECTS)))
  {
    ok := scratch.AllocateFrame(size, SCRATCH_OBJECTS);
    if ok {
      AllocSix(scratch, x0, x1, x2, x3, x4, x5);
    }
  }

  method ReservePippenger(l: Layout, scratch: ScratchSpace, n: nat, w: nat) returns (ok: bool)
    requires l.Valid() && 1 <= w <= MAX_BUCKET_WINDOW && scratch.Valid() && |scratch.frameSizes| < MAX_FRAMES
    modifies scratch
    ensures Reserved(scratch, ok)
      && (ok <==> PippengerScratchSize(l, n, w) <= old(scratch.MaxAllocation(SCRATCH_OBJECTS)))
  {
    hide PippengerScratchSize, EntrySize, Pow2, Windows;
    var e := n + 1;
    PippengerPieces(l, n, w);
    ok := Reserve(scratch, PippengerScratchSize(l, n, w),
                  e * l.ge, e * l.scalar, l.pippengerState, e * l.pippengerPoint, e * Windows(w + 1) * l.intSize,
                      Pow2(w) * l.gej);
  }

  /** secp256k1_ecmult_pippenger_batch */
  method PippengerBatch<P(!new, ==)>(g: Group<P>, gen: P, l: Layout, scratch: ScratchSpace, ng: Option<Scalar>,
      cb: Callback<P>, n: nat, offset: nat)
    returns (ok: bool, r: P)
    requires IsGroup(g) && l.Valid() && scratch.Valid() && |scratch.frameSizes| < MAX_FRAMES
    modifies scratch
    ensures scratch.Valid() && scratch.frameSizes == old(scratch.frameSizes) && scratch.offsets == old(scratch.offsets)
    ensures ok <==>
      (ng == None && n == 0) || (Fits(l, old(scratch.MaxAllocation(SCRATCH_OBJECTS)), n) && Available(cb, offset, n))
    ensures ok ==> Available(cb, offset, n) && r == Total(g, cb, offset, n, gen, ng)
  {
    r := g.zero;
    if ng == None && n == 0 {
      EmptyTotal(g, cb, offset, gen);
      return true, r;
    }
    var w := BucketWindow(n);
    ok := ReservePippenger(l, scratch, n, w);
    if !ok {
      return;
    }
    ok, r := PippengerCompute(g, gen, w, ng, cb, n, offset);
    scratch.DeallocateFrame();
  }

  method PippengerCompute<P(!new, ==)>(g: Group<P>, gen: P, w: nat, ng: Option<Scalar>, cb: Callback<P>, n: nat,
      offset: nat)
    returns (ok: bool, r: P)
    requires IsGroup(g) && 1 <= w <= 12
    ensures ok <==> Available(cb, offset, n)
    ensures ok ==> r == Total(g, cb, offset, n, gen, ng)
  {
    r := g.zero;
    var sc, pt;
    ok, sc, pt := Fetch(g, cb, offset, n);
    if ok {
      var buckets := new P[Pow2(w)](_ => g.zero);
      r := PippengerList(g, buckets, w, gen, ng, sc, pt);
    }
  }

  lemma EmptyTotal<P(!new)>(g: Group<P>, cb: Callback<P>, offset: nat, gen: P)
    requires IsGroup(g)
    ensures Total(g, cb, offset, 0, gen, None) == g.zero
  {
    Unit(g, g.zero);
  }

  // The generator's term goes in front of the callback's.
  method PippengerList<P(!new, ==)>(g: Group<P>, buckets: array<P>, w: nat, gen: P, ng: Option<Scalar>,
      sc: seq<Scalar>, pt: seq<P>)
    returns (r: P)
    requires IsGroup(g) && |sc| == |pt| && 1 <= w <= 12 && buckets.Length == Pow2(w)
    modifies buckets
    ensures r == g.add(Dot(g, sc, pt), Mul(g, OrZero(ng), gen))
  {
    if ng == None {
      r := Pippenger.PippengerWnaf(g, buckets, w, sc, pt);
      Unit(g, r);
    } else {
      r := Pippenger.PippengerWnaf(g, buckets, w, [ng.value] + sc, [gen] + pt);
      DotConcat(g, [ng.value], [gen], sc, pt);
      DotSingle(g, ng.value, gen);
      Comm(g, Dot(g, sc, pt), Mul(g, ng.value, gen));
    }
  }

  lemma DotSingle<P(!new)>(g: Group<P>, c: int, p: P)
    requires IsGroup(g)
    ensures Dot(g, [c], [p]) == Mul(g, c, p)
  {
    assert Dot(g, [c], [p]) == g.add(Dot(g, [c][..0], [p][..0]), Mul(g, c, p));
    Unit(g, Mul(g, c, p));
  }

  // Bytes per point of a Strauss batch, and for n points: secp256k1_strauss_scratch_size.
  function StraussPointSize(l: Layout): (r: nat)
    requires l.Valid()
    ensures r > 0
  {
    (l.ge + l.gej + l.fe) * TableSize(WINDOW_A) + l.straussPoint + l.gej + l.scalar
  }

  method ReserveStrauss(l: Layout, scratch: ScratchSpace, n: nat) returns (ok: bool)
    requires l.Valid() && scratch.Valid() && |scratch.frameSizes| < MAX_FRAMES
    modifies scratch
    ensures Reserved(scratch, ok) && (ok <==> n * StraussPointSize(l) <= old(scratch.MaxAllocation(SCRATCH_OBJECTS)))
  {
    var t := TableSize(WINDOW_A);
    StraussPieces(n, t, l.gej, l.scalar, l.fe, l.ge, l.straussPoint);
    ok := Reserve(scratch, n * StraussPointSize(l), n * l.gej, n * l.scalar, n * t * l.gej, n * t * l.fe,
        n * t * l.ge, n * l.straussPoint);
  }

  lemma StraussPieces(n: nat, t: nat, gej: nat, scalar: nat, fe: nat, ge: nat, sp: nat)
    ensures n * gej + n * scalar + n * t * gej + n * t * fe + n * t * ge + n * sp
      == n * ((ge + gej + fe) * t + sp + gej + scalar)
  {
    assert n * ((ge + gej + fe) * t) == n * t * ge + n * t * gej + n * t * fe;
  }

  /** secp256k1_ecmult_strauss_batch */
  method StraussBatch<P(!new, ==)>(g: Group<P>, gen: P, preG: seq<P>, l: Layout, scratch: ScratchSpace,
      ng: Option<Scalar>, cb: Callback<P>, n: nat, offset: nat)
    returns (ok: bool, r: P)
    requires IsGroup(g) && l.Valid() && scratch.Valid() && |scratch.frameSizes| < MAX_FRAMES
    requires TermsKilled(g, cb) && Killed(g, gen) && |preG| == TableSize(WINDOW_G) && IsTable(g, preG, gen)
    modifies scratch
    ensures scratch.Valid() && scratch.frameSizes == old(scratch.frameSizes) && scratch.offsets == old(scratch.offsets)
    ensures ok <==> n * StraussPointSize(l) <= old(scratch.MaxAllocation(SCRATCH_OBJECTS)) && Available(cb, offset, n)
    ensures ok ==> Available(cb, offset, n) && r == Total(g, cb, offset, n, gen, ng)
  {
    r := g.zero;
    if ng == None && n == 0 {
      EmptyTotal(g, cb, offset, gen);
      return true, r;
    }
    ok := ReserveStrauss(l, scratch, n);
    if !ok {
      return;
    }
    var sc, pt;
    ok, sc, pt := Fetch(g, cb, offset, n);
    if ok {
      HoldsKilled(g, cb, offset, sc, pt);
      r := StraussWnaf(g, pt, sc, gen, preG, ng);
    }
    scratch.DeallocateFrame();
  }

  /** secp256k1_ecmult_multi_var_simple: multiply and add, one point at a time. */
  method MultiVarSimple<P(!new, ==)>(g: Group<P>, gen: P, preG: seq<P>, ng: Option<Scalar>, cb: Callback<P>, n: nat)
    returns (ok: bool, r: P)
    requires IsGroup(g) && TermsKilled(g, cb) && Killed(g, gen) && |preG| == TableSize(WINDOW_G)
    requires IsTable(g, preG, gen)
    ensures ok <==> Available(cb, 0, n)
    ensures ok ==> r == Total(g, cb, 0, n, gen, ng)
  {
    MulZero(g, N);
    r := Ecmult(g, g.zero, 0, gen, preG, ng);
    for i := 0 to n
      invariant Available(cb, 0, i) && r == Total(g, cb, 0, i, gen, ng)
    {
      var term := cb(i);
      if term == None {
        return false, r;
      }
      var tmp := Ecmult(g, term.value.1, term.value.0, gen, preG, None);
      TotalStep(g, cb, i, gen, ng, tmp);
      r := g.add(r, tmp);
    }
    ok := true;
  }

  lemma TotalStep<P(!new)>(g: Group<P>, cb: Callback<P>, i: nat, gen: P, ng: Option<Scalar>, tmp: P)
    requires IsGroup(g) && Available(cb, 0, i + 1)
    requires tmp == g.add(Mul(g, cb(i).value.0, cb(i).value.1), Mul(g, 0, gen))
    ensures g.add(Total(g, cb, 0, i, gen, ng), tmp) == Total(g, cb, 0, i + 1, gen, ng)
  {
    NoGenerator(g, Mul(g, cb(i).value.0, cb(i).value.1), gen);
    SwapLast(g, CallbackSum(g, cb, 0, i), Mul(g, OrZero(ng), gen), tmp);
  }

  lemma NoGenerator<P(!new)>(g: Group<P>, x: P, gen: P)
    requires IsGroup(g)
    ensures g.add(x, Mul(g, 0, gen)) == x
  {
    Unit(g, x);
  }

  // The two batch functions behind one pointer.
  method RunBatch<P(!new, ==)>(g: Group<P>, gen: P, preG: seq<P>, l: Layout, scratch: ScratchSpace, usePippenger: bool,
                               ng: Option<Scalar>, cb: Callback<P>, n: nat, offset: nat,
                                   ghost limit: nat) returns (ok: bool, r: P)
    requires IsGroup(g) && l.Valid() && scratch.Valid() && |scratch.frameSizes| < MAX_FRAMES && n > 0
    requires TermsKilled(g, cb) && Killed(g, gen) && |preG| == TableSize(WINDOW_G) && IsTable(g, preG, gen)
    requires AllFit(l, scratch.MaxAllocation(SCRATCH_OBJECTS), usePippenger, limit) && n <= limit
    modifies scratch
    ensures scratch.Valid() && scratch.frameSizes == old(scratch.frameSizes) && scratch.offsets == old(scratch.offsets)
    ensures ok <==> Available(cb, offset, n)
    ensures ok ==> r == Total(g, cb, offset, n, gen, ng)
  {
    assert BatchFits(l, scratch.MaxAllocation(SCRATCH_OBJECTS), usePippenger, n);
    if usePippenger {
      ok, r := PippengerBatch(g, gen, l, scratch, ng, cb, n, offset);
    } else {
      ok, r := StraussBatch(g, gen, preG, l, scratch, ng, cb, n, offset);
    }
  }

  ghost predicate BatchFits(l: Layout, maxAlloc: nat, usePippenger: bool, n: nat)
    requires l.Valid()
  {
    if usePippenger then Fits(l, maxAlloc, n) else n * StraussPointSize(l) <= maxAlloc
  }

  // Every batch of up to limit points fits.
  ghost predicate AllFit(l: Layout, maxAlloc: nat, usePippenger: bool, limit: nat)
    requires l.Valid()
  {
    forall k :: 1 <= k <= limit ==> BatchFits(l, maxAlloc, usePippenger, k)
  }

  /** How a job of n points is run: which algorithm, in how many batches of how many points. */
  datatype Plan = Plan(usePippenger: bool, batches: nat, batchPoints: nat)

  ghost predicate GoodPlan(p: Plan, l: Layout, maxAlloc: nat, n: nat)
    requires l.Valid()
  {
    && p.batches >= 1 && p.batchPoints >= 1
    && (p.batches - 1) * p.batchPoints < n <= p.batches * p.batchPoints
    && AllFit(l, maxAlloc, p.usePippenger, p.batchPoints)
  }

  lemma StraussFitsBelow(l: Layout, maxAlloc: nat, m: nat, k: nat)
    requires l.Valid() && k <= m && m * StraussPointSize(l) <= maxAlloc
    ensures BatchFits(l, maxAlloc, false, k)
  {
    MulNonneg(m - k, StraussPointSize(l));
    assert (m - k) * StraussPointSize(l) == m * StraussPointSize(l) - k * StraussPointSize(l);
  }

  // secp256k1_strauss_max_points
  method StraussMaxPoints(l: Layout, maxAlloc: nat) returns (m: nat)
    requires l.Valid()
    ensures m * StraussPointSize(l) <= maxAlloc < (m + 1) * StraussPointSize(l)
  {
    m := Quotient(0, StraussPointSize(l), maxAlloc);
  }

  // The largest batch that Pippenger's algorithm is given.
  ghost function BatchLimit(l: Layout, maxAlloc: nat): nat
    requires l.Valid()
  {
    var m := LargestFitting(l, maxAlloc);
    if m > MAX_POINTS_PER_BATCH then MAX_POINTS_PER_BATCH else m
  }

  /** With batches of that limit, those of a job of n points are large enough for Pippenger's algorithm. */
  ghost predicate ChoosesPippenger(l: Layout, maxAlloc: nat, n: nat)
    requires l.Valid() && n > 0
  {
    BatchLimit(l, maxAlloc) > 0 && BatchPoints(n, BatchLimit(l, maxAlloc)) >= PIPPENGER_THRESHOLD
  }

  /** The scratch space serves the job: one point fits for Pippenger's algorithm, and for Strauss' where that is chosen.
      */
  ghost predicate Served(l: Layout, maxAlloc: nat, n: nat)
    requires l.Valid() && n > 0
  {
    Fits(l, maxAlloc, 1) && (ChoosesPippenger(l, maxAlloc, n) || StraussPointSize(l) <= maxAlloc)
  }

  lemma OneFits(l: Layout, maxAlloc: nat)
    requires l.Valid()
    ensures LargestFitting(l, maxAlloc) > 0 <==> Fits(l, maxAlloc, 1)
  {
    hide Fits;
  }

  // The choice between the algorithms; fails when not even one point fits.
  method Schedule(l: Layout, maxAlloc: nat, n: nat) returns (ok: bool, p: Plan)
    requires l.Valid() && maxAlloc <= SIZE_MAX && n > 0
    ensures ok <==> Served(l, maxAlloc, n)
    ensures ok ==> GoodPlan(p, l, maxAlloc, n) && (p.usePippenger <==> ChoosesPippenger(l, maxAlloc, n))
  {
    hide Fits, BatchPoints, Batches, LargestFrom;
    p := Plan(true, 1, 1);
    var maxPoints := PippengerMaxPoints(l, maxAlloc);
    OneFits(l, maxAlloc);
    if maxPoints == 0 {
      return false, p;
    }
    maxPoints := if maxPoints > MAX_POINTS_PER_BATCH then MAX_POINTS_PER_BATCH else maxPoints;
    BatchesPartition(n, maxPoints);
    p := Plan(true, Batches(n, maxPoints), BatchPoints(n, maxPoints));
    if p.batchPoints >= PIPPENGER_THRESHOLD {
      return true, p;
    }
    maxPoints := StraussMaxPoints(l, maxAlloc);
    if maxPoints == 0 {
      return false, p;
    }
    OneBelow(maxPoints, StraussPointSize(l));
    BatchesPartition(n, maxPoints);
    p := Plan(false, Batches(n, maxPoints), BatchPoints(n, maxPoints));
    forall k | 1 <= k <= p.batchPoints ensures BatchFits(l, maxAlloc, false, k) {
      StraussFitsBelow(l, maxAlloc, maxPoints, k);
    }
    ok := true;
  }

  lemma OneBelow(m: nat, s: nat)
    requires m > 0
    ensures s <= m * s
  {
    MulNonneg(m - 1, s);
    assert (m - 1) * s == m * s - s;
  }

  /** secp256k1_ecmult_multi_var: whatever path is taken, success means the plain sum; and it succeeds exactly when the
      callback delivers every term and the scratch space serves the job. */
  method EcmultMultiVar<P(!new, ==)>(g: Group<P>, gen: P, preG: seq<P>, l: Layout, scratch: ScratchSpace?,
      ng: Option<Scalar>, cb: Callback<P>, n: nat) returns (ok: bool, r: P)
    requires IsGroup(g) && l.Valid()
    requires TermsKilled(g, cb) && Killed(g, gen) && |preG| == TableSize(WINDOW_G) && IsTable(g, preG, gen)
    requires scratch != null ==> scratch.Valid() && |scratch.frameSizes| < MAX_FRAMES && scratch.maxSize <= SIZE_MAX
    modifies scratch
    ensures scratch != null ==> scratch.Valid() && scratch.frameSizes == old(scratch.frameSizes)
    ensures ok <==>
      n == 0 || (Available(cb, 0, n) && (scratch == null || Served(l, old(scratch.MaxAllocation(SCRATCH_OBJECTS)), n)))
    ensures ok ==> r == Total(g, cb, 0, n, gen, ng)
  {
    r := g.zero;
    if n == 0 {
      EmptyTotal(g, cb, 0, gen);
      if ng != None {
        MulZero(g, N);
        r := Ecmult(g, g.zero, 0, gen, preG, ng);
      }
      return true, r;
    }
    if scratch == null {
      ok, r := MultiVarSimple(g, gen, preG, ng, cb, n);
      return;
    }
    var plan;
    ok, plan := Schedule(l, scratch.MaxAllocation(SCRATCH_OBJECTS), n);
    if ok {
      ok, r := RunBatches(g, gen, preG, l, scratch, plan, ng, cb, n);
    }
  }

  // After i batches: what is left and where the next batch starts.
  ghost predicate Position(plan: Plan, n: nat, i: nat, left: nat, offset: nat) {
    left <= n && offset == i * plan.batchPoints && left == (if i < plan.batches then n - offset else 0)
  }

  // The terms before done have been added up.
  ghost predicate SumSoFar<P>(g: Group<P>, gen: P, used: Option<Scalar>, cb: Callback<P>, done: nat, r: P) {
    Available(cb, 0, done) && r == Total(g, cb, 0, done, gen, used)
  }

  // Add the batch of nbp terms at offset; only the first one takes the generator's scalar.
  method AddBatch<P(!new, ==)>(g: Group<P>, gen: P, preG: seq<P>, l: Layout, scratch: ScratchSpace, usePippenger: bool,
      ghost used: Option<Scalar>, now: Option<Scalar>, ghost ng: Option<Scalar>, cb: Callback<P>, offset: nat, nbp: nat,
      ghost limit: nat, r0: P) returns (ok: bool, r: P)
    requires IsGroup(g) && l.Valid() && scratch.Valid() && |scratch.frameSizes| < MAX_FRAMES && nbp > 0
    requires TermsKilled(g, cb) && Killed(g, gen) && |preG| == TableSize(WINDOW_G) && IsTable(g, preG, gen)
    requires AllFit(l, scratch.MaxAllocation(SCRATCH_OBJECTS), usePippenger, limit) && nbp <= limit
    requires SumSoFar(g, gen, used, cb, offset, r0) && ((used == None && now == ng) || (now == None && used == ng))
    modifies scratch
    ensures scratch.Valid() && scratch.frameSizes == old(scratch.frameSizes) && scratch.offsets == old(scratch.offsets)
    ensures ok <==> Available(cb, offset, nbp)
    ensures ok ==> SumSoFar(g, gen, ng, cb, offset + nbp, r)
  {
    var tmp;
    ok, tmp := RunBatch(g, gen, preG, l, scratch, usePippenger, now, cb, nbp, offset, limit);
    r := g.add(r0, tmp);
    if ok {
      Joined(g, cb, offset, nbp, gen, used, now, ng);
    }
  }

  // One round of the batch loop.
  method Round<P(!new, ==)>(g: Group<P>, gen: P, preG: seq<P>, l: Layout, scratch: ScratchSpace, plan: Plan,
      ng: Option<Scalar>, cb: Callback<P>, ghost n: nat, i: nat, left: nat, offset: nat, r0: P,
      ghost used: Option<Scalar>, ghost done: nat)
    returns (ok: bool, left': nat, offset': nat, r: P, ghost done': nat)
    requires IsGroup(g) && l.Valid() && scratch.Valid() && |scratch.frameSizes| < MAX_FRAMES && n > 0
    requires TermsKilled(g, cb) && Killed(g, gen) && |preG| == TableSize(WINDOW_G) && IsTable(g, preG, gen)
    requires GoodPlan(plan, l, scratch.MaxAllocation(SCRATCH_OBJECTS), n)
    requires i < plan.batches && Position(plan, n, i, left, offset) && done == offset
    requires used == (if i == 0 then None else ng) && SumSoFar(g, gen, used, cb, done, r0)
    modifies scratch
    ensures scratch.Valid() && scratch.frameSizes == old(scratch.frameSizes) && scratch.offsets == old(scratch.offsets)
    ensures !ok ==> !Available(cb, 0, n)
    ensures ok ==>
      Position(plan, n, i + 1, left', offset') && done' == n - left' && (i + 1 < plan.batches ==> done' == offset')
    ensures ok ==> SumSoFar(g, gen, ng, cb, done', r)
  {
    hide Total, AllFit, Available, SumSoFar, Position, IsTable, TermsKilled, Killed;
    var nbp := if left < plan.batchPoints then left else plan.batchPoints;
    BatchArithmetic(plan, n, i, left, offset, nbp);
    var now := if i == 0 then ng else None;
    ok, r := AddBatch(g, gen, preG, l, scratch, plan.usePippenger, used, now, ng, cb, offset, nbp, plan.batchPoints,
      r0);
    if !ok {
      Missing(cb, offset, nbp, n);
      return ok, left, offset, r, done;
    }
    left', offset', done' := left - nbp, offset + plan.batchPoints, offset + nbp;
  }

  lemma Missing<P>(cb: Callback<P>, offset: nat, k: nat, n: nat)
    requires !Available(cb, offset, k) && offset + k <= n
    ensures !Available(cb, 0, n)
  {
  }

  method RunBatches<P(!new, ==)>(g: Group<P>, gen: P, preG: seq<P>, l: Layout, scratch: ScratchSpace, plan: Plan,
                                 ng: Option<Scalar>, cb: Callback<P>, n: nat) returns (ok: bool, r: P)
    requires IsGroup(g) && l.Valid() && scratch.Valid() && |scratch.frameSizes| < MAX_FRAMES && n > 0
    requires TermsKilled(g, cb) && Killed(g, gen) && |preG| == TableSize(WINDOW_G) && IsTable(g, preG, gen)
    requires GoodPlan(plan, l, scratch.MaxAllocation(SCRATCH_OBJECTS), n)
    modifies scratch
    ensures scratch.Valid() && scratch.frameSizes == old(scratch.frameSizes)
    ensures ok <==> Available(cb, 0, n)
    ensures ok ==> r == Total(g, cb, 0, n, gen, ng)
  {
    hide Total, Fits;
    r := g.zero;
    var left: nat, offset: nat := n, 0;
    ghost var done: nat, used: Option<Scalar> := 0, None;
    ghost var m := scratch.MaxAllocation(SCRATCH_OBJECTS);
    EmptyTotal(g, cb, 0, gen);
    for i := 0 to plan.batches
      invariant scratch.Valid() && scratch.frameSizes == old(scratch.frameSizes)
      invariant scratch.offsets == old(scratch.offsets)
      invariant scratch.MaxAllocation(SCRATCH_OBJECTS) == m
      invariant Position(plan, n, i, left, offset) && done == n - left && (i < plan.batches ==> done == offset)
      invariant used == (if i == 0 then None else ng) && SumSoFar(g, gen, used, cb, done, r)
    {
      ok, left, offset, r, done := Round(g, gen, preG, l, scratch, plan, ng, cb, n, i, left, offset, r, used, done);
      if !ok {
        return;
      }
      used := ng;
    }
    ok := true;
  }

  lemma BatchArithmetic(plan: Plan, n: nat, i: nat, left: nat, offset: nat, nbp: nat)
    requires plan.batchPoints >= 1 && (plan.batches - 1) * plan.batchPoints < n <= plan.batches * plan.batchPoints
        && i < plan.batches
    requires Position(plan, n, i, left, offset) && nbp == (if left < plan.batchPoints then left else plan.batchPoints)
    ensures 1 <= nbp <= left && offset == n - left && Position(plan, n, i + 1, left - nbp, offset + plan.batchPoints)
    ensures i + 1 < plan.batches ==> offset + plan.batchPoints == offset + nbp
  {
    Below(i, plan.batches - 1, plan.batchPoints);
    if i + 1 < plan.batches {
      Below(i + 1, plan.batches - 1, plan.batchPoints);
    }
  }

  // Two consecutive ranges, of which at most one carries the generator's scalar.
  lemma Joined<P(!new)>(g: Group<P>, cb: Callback<P>, m: nat, k: nat, gen: P, a: Option<Scalar>, b: Option<Scalar>,
      c: Option<Scalar>)
    requires IsGroup(g) && Available(cb, 0, m) && Available(cb, m, k)
    requires (a == None && b == c) || (b == None && a == c)
    ensures Available(cb, 0, m + k)
    ensures g.add(Total(g, cb, 0, m, gen, a), Total(g, cb, m, k, gen, b)) == Total(g, cb, 0, m + k, gen, c)
  {
    assert Available(cb, 0, m + k) by {
      forall i | 0 <= i < m + k ensures cb(i).Some? {}
    }
    var x, y := CallbackSum(g, cb, 0, m), CallbackSum(g, cb, m, k);
    CallbackSumSplit(g, cb, 0, m, k);
    Swap(g, x, Mul(g, OrZero(a), gen), y, Mul(g, OrZero(b), gen));
    Unit(g, Mul(g, OrZero(c), gen));
  }
}
