/** Multiplication of the generator with a comb of precomputed points and a blinded accumulator. */
module EcmultGen {
  import opened AbelianGroup
  import opened Digits
  import opened Secp256k1
  import opened Strauss
  import opened EcmultConst

  const TEETH: nat := 64
  const POINTS: nat := 16

  /** How often the nothing-up-my-sleeve point is in row j: 2^j, and in the last row what makes the rows cancel. */
  function Offset(j: nat): int {
    if j == TEETH - 1 then 1 - Pow2(j) else Pow2(j)
  }

  function OffsetSum(k: nat): int {
    if k == 0 then 0 else OffsetSum(k - 1) + Offset(k - 1)
  }

  lemma {:induction false} OffsetsBelow(k: nat)
    requires k <= TEETH - 1
    ensures OffsetSum(k) == Pow2(k) - 1
  {
    if k > 0 {
      OffsetsBelow(k - 1);
    }
  }

  /** The offsets of all rows add up to nothing. */
  lemma OffsetsCancel()
    ensures OffsetSum(TEETH) == 0
  {
    OffsetsBelow(TEETH - 1);
  }

  /** Entry i of row j: Offset(j)*nums + i*16^j*gen. */
  ghost function Entry<P>(g: Group<P>, gen: P, nums: P, j: nat, i: nat): P {
    g.add(Mul(g, Offset(j), nums), Mul(g, i * Pow2(4 * j), gen))
  }

  // The nibbles of s below position k, read back.
  ghost function Nibbles(s: nat, k: nat): int {
    if k == 0 then 0 else Nibbles(s, k - 1) + Bits(s, 4 * (k - 1), 4) * Pow2(4 * (k - 1))
  }

  lemma {:induction false} NibblesAre(s: nat, k: nat)
    ensures Nibbles(s, k) == s % Pow2(4 * k)
  {
    if k > 0 {
      NibblesAre(s, k - 1);
      ModSplit(s, 4 * (k - 1), 4);
    }
  }

  lemma NibbleRange(s: nat, j: nat)
    ensures 0 <= Bits(s, 4 * j, 4) < POINTS
  {
    assert Pow2(4) == 16 by { Pow2Values(); }
  }

  lemma AllNibbles(s: Scalar)
    ensures Nibbles(s, TEETH) == s
  {
    NibblesAre(s, TEETH);
    OrderBounds();
    DivModUnique(s, Pow2(256), 0, s);
  }

  // The blinded sum after k rows.
  ghost function Partial<P>(g: Group<P>, gen: P, nums: P, initial: P, s: nat, k: nat): P {
    g.add(g.add(initial, Mul(g, OffsetSum(k), nums)), Mul(g, Nibbles(s, k), gen))
  }

  lemma PartialStep<P(!new)>(g: Group<P>, gen: P, nums: P, initial: P, s: nat, k: nat)
    requires IsGroup(g)
    ensures g.add(Partial(g, gen, nums, initial, s, k), Entry(g, gen, nums, k, Bits(s, 4 * k, 4)))
         == Partial(g, gen, nums, initial, s, k + 1)
  {
    var x := Mul(g, OffsetSum(k), nums);
    var d := Bits(s, 4 * k, 4) * Pow2(4 * k);
    assert OffsetSum(k + 1) == OffsetSum(k) + Offset(k) && Nibbles(s, k + 1) == Nibbles(s, k) + d;
    RowAlgebra(g, initial, nums, gen, OffsetSum(k), Nibbles(s, k), Offset(k), d);
  }

  lemma RowAlgebra<P(!new)>(g: Group<P>, initial: P, nums: P, gen: P, a: int, b: int, c: int, d: int)
    requires IsGroup(g)
    ensures g.add(g.add(g.add(initial, Mul(g, a, nums)), Mul(g, b, gen)), g.add(Mul(g, c, nums), Mul(g, d, gen)))
         == g.add(g.add(initial, Mul(g, a + c, nums)), Mul(g, b + d, gen))
  {
    hide Mul;
    Swap(g, g.add(initial, Mul(g, a, nums)), Mul(g, b, gen), Mul(g, c, nums), Mul(g, d, gen));
    Assoc(g, initial, Mul(g, a, nums), Mul(g, c, nums));
    MulAdd(g, a, c, nums);
    MulAdd(g, b, d, gen);
  }

  // The point the comb starts from cancels the blinding, so the sum of all rows is the wanted multiple.
  lemma Unblind<P(!new)>(g: Group<P>, gen: P, nums: P, initial: P, blind: Scalar, gn: Scalar, gnb: Scalar)
    requires IsGroup(g) && Killed(g, gen) && g.add(initial, Mul(g, blind, gen)) == g.zero && gnb == (gn + blind) % N
    ensures Partial(g, gen, nums, initial, gnb, TEETH) == Mul(g, gn, gen)
  {
    hide Mul;
    AllNibbles(gnb);
    OffsetsCancel();
    MulOne(g, nums);
    Unit(g, initial);
    MulMod(g, N, gn + blind, gen);
    MulAdd(g, blind, gn, gen);
    Assoc(g, initial, Mul(g, blind, gen), Mul(g, gn, gen));
    Unit(g, Mul(g, gn, gen));
  }

  class GenContext<P(!new)> {
    const g: Group<P>
    const gen: P
    const nums: P
    var prec: array2?<P>
    var blind: Scalar
    var initial: P

    /** secp256k1_ecmult_gen_context_init; the blinding fields hold no promise before the build. */
    constructor (g: Group<P>, gen: P, nums: P)
      ensures this.g == g && this.gen == gen && this.nums == nums && prec == null
    {
      this.g, this.gen, this.nums := g, gen, nums;
      prec, blind, initial := null, 0, g.zero;
    }

    /** The group facts the tables rest on: gen has order dividing N and no table entry is infinity. */
    ghost predicate Sound() {
      IsGroup(g) && Killed(g, gen) && EntriesFinite(g, gen, nums)
    }

    ghost predicate Built()
      reads this, prec
    {
      prec != null && prec.Length0 == TEETH && prec.Length1 == POINTS
      && forall j, i :: 0 <= j < TEETH && 0 <= i < POINTS ==> prec[j, i] == Entry(g, gen, nums, j, i)
    }

    /** The invariant of every run: the accumulator starts at minus blind times the generator. */
    ghost predicate Blinded()
      reads this
    {
      g.add(initial, Mul(g, blind, gen)) == g.zero
    }

    ghost predicate Valid()
      reads this, prec
    {
      Sound() && Built() && Blinded()
    }

    /** secp256k1_ecmult_gen_context_build: fill the comb unless it is there already, then blind it.
        b is the accepted output of the seeded generator. */
    method Build(b: Scalar)
      requires Sound() && b != 0 && (prec != null ==> Built() && Blinded())
      modifies this
      ensures Valid()
      ensures old(prec) != null ==> prec == old(prec) && blind == old(blind) && initial == old(initial)
      ensures old(prec) == null ==> blind == Negate(b) && initial == Mul(g, b, gen)
    {
      if prec != null {
        return;
      }
      var table := ComputeTable(g, gen, nums);
      prec := table;
      Blind(false, b);
    }

    /** secp256k1_ecmult_gen: r = gn*gen, computed as (gn + blind)*gen on top of initial. */
    method EcmultGen(gn: Scalar) returns (r: P)
      requires Valid()
      ensures r == Mul(g, gn, gen)
    {
      hide Mul, Partial, Entry, Bits;
      r := initial;
      var gnb := (gn + blind) % N;
      Start(g, gen, nums, initial, gnb);
      for j := 0 to TEETH
        invariant r == Partial(g, gen, nums, initial, gnb, j)
      {
        NibbleRange(gnb, j);
        var add := SelectRow(j, Bits(gnb, 4 * j, 4));
        PartialStep(g, gen, nums, initial, gnb, j);
        r := AddGe(g, r, add);
      }
      Unblind(g, gen, nums, initial, blind, gn, gnb);
    }

    // Read entry bits of row j by touching every entry of the row.
    method SelectRow(j: nat, bits: nat) returns (add: P)
      requires Sound() && Built() && j < TEETH && bits < POINTS
      ensures add == Entry(g, gen, nums, j, bits) && add != g.zero
    {
      add := prec[j, 0];
      for i := 0 to POINTS
        invariant i > bits ==> add == prec[j, bits]
      {
        if i == bits {
          add := prec[j, i];
        }
      }
    }

    /** secp256k1_ecmult_gen_blind: without a seed start over from minus the generator; then draw a new blind. */
    method Blind(hasSeed: bool, b: Scalar)
      requires Sound() && Built() && (hasSeed ==> Blinded()) && b != 0
      modifies this`blind, this`initial
      ensures Valid() && prec == old(prec)
      ensures blind == Negate(b) && initial == Mul(g, b, gen)
    {
      if !hasSeed {
        initial := g.neg(gen);
        blind := 1;
        MulOne(g, gen);
        Inverse(g, gen);
      }
      var gb := EcmultGen(b);
      blind := Negate(b);
      initial := gb;
      MulAdd(g, b, N - b, gen);
    }

    /** Any run of re-blindings, seeded or not, keeps the context correct. */
    method BlindRepeatedly(steps: seq<(bool, Scalar)>)
      requires Valid() && forall k :: 0 <= k < |steps| ==> steps[k].1 != 0
      modifies this`blind, this`initial
      ensures Valid() && prec == old(prec)
      ensures |steps| > 0 ==> blind == Negate(steps[|steps| - 1].1)
    {
      for k := 0 to |steps|
        invariant Valid() && prec == old(prec)
        invariant k > 0 ==> blind == Negate(steps[k - 1].1)
      {
        Blind(steps[k].0, steps[k].1);
      }
    }
  }

  lemma Start<P(!new)>(g: Group<P>, gen: P, nums: P, initial: P, s: nat)
    requires IsGroup(g)
    ensures Partial(g, gen, nums, initial, s, 0) == initial
  {
    Unit(g, initial);
  }

  // One row: base, base + step, base + 2*step, ...
  method FillRow<P(!new)>(g: Group<P>, gen: P, nums: P, prec: array2<P>, j: nat, numsBase: P, gBase: P)
    requires IsGroup(g) && prec.Length0 == TEETH && prec.Length1 == POINTS && j < TEETH
    requires numsBase == Mul(g, Offset(j), nums) && gBase == Mul(g, Pow2(4 * j), gen)
    modifies prec
    ensures forall i :: 0 <= i < POINTS ==> prec[j, i] == Entry(g, gen, nums, j, i)
    ensures forall k, i :: 0 <= k < TEETH && 0 <= i < POINTS && k != j ==> prec[k, i] == old(prec[k, i])
  {
    prec[j, 0] := numsBase;
    FirstEntry(g, gen, nums, j);
    for i := 1 to POINTS
      invariant forall t :: 0 <= t < i ==> prec[j, t] == Entry(g, gen, nums, j, t)
      invariant forall k, t :: 0 <= k < TEETH && 0 <= t < POINTS && k != j ==> prec[k, t] == old(prec[k, t])
    {
      NextEntry(g, gen, nums, j, i);
      prec[j, i] := g.add(prec[j, i - 1], gBase);
    }
  }

  lemma FirstEntry<P(!new)>(g: Group<P>, gen: P, nums: P, j: nat)
    requires IsGroup(g)
    ensures Entry(g, gen, nums, j, 0) == Mul(g, Offset(j), nums)
  {
    hide Offset;
    assert 0 * Pow2(4 * j) == 0;
    Unit(g, Mul(g, Offset(j), nums));
  }

  lemma NextEntry<P(!new)>(g: Group<P>, gen: P, nums: P, j: nat, i: nat)
    requires IsGroup(g) && i >= 1
    ensures Entry(g, gen, nums, j, i) == g.add(Entry(g, gen, nums, j, i - 1), Mul(g, Pow2(4 * j), gen))
  {
    hide Mul, Offset, Pow2;
    var p := Pow2(4 * j);
    assert (i - 1) * p + p == i * p;
    MulAdd(g, (i - 1) * p, p, gen);
    Assoc(g, Mul(g, Offset(j), nums), Mul(g, (i - 1) * p, gen), Mul(g, p, gen));
  }

  method ComputeTable<P(!new)>(g: Group<P>, gen: P, nums: P) returns (prec: array2<P>)
    requires IsGroup(g)
    ensures fresh(prec) && prec.Length0 == TEETH && prec.Length1 == POINTS
    ensures forall j, i :: 0 <= j < TEETH && 0 <= i < POINTS ==> prec[j, i] == Entry(g, gen, nums, j, i)
  {
    hide Mul, Offset, Entry;
    prec := new P[TEETH, POINTS]((_, _) => g.zero);
    var gBase, numsBase := gen, nums;
    FirstRow(g, gen, nums);
    for j := 0 to TEETH
      invariant gBase == Mul(g, Pow2(4 * j), gen) && (j < TEETH ==> numsBase == Mul(g, Offset(j), nums))
      invariant forall k, i :: 0 <= k < j && 0 <= i < POINTS ==> prec[k, i] == Entry(g, gen, nums, k, i)
    {
      FillRow(g, gen, nums, prec, j, numsBase, gBase);
      gBase := Times16(g, gBase, gen, j);
      numsBase := NextOffset(g, numsBase, nums, j);
    }
  }

  lemma FirstRow<P(!new)>(g: Group<P>, gen: P, nums: P)
    requires IsGroup(g)
    ensures gen == Mul(g, Pow2(4 * 0), gen) && nums == Mul(g, Offset(0), nums)
  {
    MulOne(g, gen);
    MulOne(g, nums);
    assert Pow2(0) == 1;
  }

  method Times16<P(!new)>(g: Group<P>, x: P, ghost gen: P, ghost j: nat) returns (r: P)
    requires IsGroup(g) && x == Mul(g, Pow2(4 * j), gen)
    ensures r == Mul(g, Pow2(4 * (j + 1)), gen)
  {
    hide Mul;
    r := x;
    for i := 0 to 4
      invariant r == Mul(g, Pow2(4 * j + i), gen)
    {
      MulAdd(g, Pow2(4 * j + i), Pow2(4 * j + i), gen);
      r := g.add(r, r);
    }
  }

  // Double the offset; the last one is turned into what cancels all the others.
  method NextOffset<P(!new)>(g: Group<P>, x: P, nums: P, j: nat) returns (r: P)
    requires IsGroup(g) && j < TEETH && x == Mul(g, Offset(j), nums)
    ensures j + 1 < TEETH ==> r == Mul(g, Offset(j + 1), nums)
  {
    hide Mul;
    r := g.add(x, x);
    MulAdd(g, Offset(j), Offset(j), nums);
    if j == TEETH - 2 {
      MulNeg(g, Pow2(j + 1), nums);
      r := g.neg(r);
      MulSucc(g, -Pow2(j + 1), nums);
      r := g.add(r, nums);
    }
  }

  ghost predicate EntriesFinite<P>(g: Group<P>, gen: P, nums: P) {
    forall j: nat, i: nat {:trigger Entry(g, gen, nums, j, i)} ::
      j < TEETH && i < POINTS ==> Entry(g, gen, nums, j, i) != g.zero
  }
}
