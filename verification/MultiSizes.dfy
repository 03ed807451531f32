/** How many points fit into a scratch space, and how a job is cut into batches that fit. */
module MultiSizes {
  import opened Digits
  import opened WnafFixed

  const MAX_BUCKET_WINDOW: nat := 12
  const SIZE_MAX: nat := 0xFFFF_FFFF_FFFF_FFFF
  const SCRATCH_OBJECTS: nat := 6
  const PIPPENGER_THRESHOLD: nat := 160
  const MAX_POINTS_PER_BATCH: nat := 10000000

  /** Sizes in bytes of the structures on the scratch space; any compiler's choice will do. */
  datatype Layout = Layout(ge: nat, gej: nat, fe: nat, scalar: nat, intSize: nat, pippengerPoint: nat,
      pippengerState: nat, straussPoint: nat) {
    predicate Valid() {
      ge > 0 && gej > 0 && fe > 0 && scalar > 0 && intSize > 0
        && pippengerPoint > 0 && pippengerState > 0 && straussPoint > 0
    }
  }

  /** secp256k1_pippenger_bucket_window */
  function BucketWindow(n: nat): (w: nat)
    ensures 1 <= w <= MAX_BUCKET_WINDOW
  {
    if n <= 1 then 1 else if n <= 11 then 2 else if n <= 45 then 3 else if n <= 100 then 4
    else if n <= 275 then 5 else if n <= 625 then 6 else if n <= 1850 then 7 else if n <= 3400 then 8
    else if n <= 9630 then 9 else if n <= 17900 then 10 else if n <= 32800 then 11 else MAX_BUCKET_WINDOW
  }

  /** secp256k1_pippenger_bucket_window_inv */
  function BucketWindowInv(w: nat): nat {
    match w
    case 1 => 1
    case 2 => 11
    case 3 => 45
    case 4 => 100
    case 5 => 275
    case 6 => 625
    case 7 => 1850
    case 8 => 3400
    case 9 => 9630
    case 10 => 17900
    case 11 => 32800
    case 12 => SIZE_MAX
    case _ => 0
  }

  /** The two tables are inverse to each other: w is the window of exactly the counts in (inv(w-1), inv(w)]. */
  lemma WindowTablesAgree(k: nat, w: nat)
    requires 1 <= k <= SIZE_MAX && 1 <= w <= MAX_BUCKET_WINDOW
    ensures BucketWindow(k) == w <==> BucketWindowInv(w - 1) < k <= BucketWindowInv(w)
  {
  }

  function EntrySize(l: Layout, w: nat): (r: nat)
    requires l.Valid() && 1 <= w <= MAX_BUCKET_WINDOW
    ensures r > 0
  {
    l.ge + l.scalar + l.pippengerPoint + (Windows(w + 1) + 1) * l.intSize
  }

  function Overhead(l: Layout, w: nat): nat
    requires l.Valid() && 1 <= w <= MAX_BUCKET_WINDOW
  {
    Pow2(w) * l.gej + EntrySize(l, w) + l.pippengerState
  }

  /** secp256k1_pippenger_scratch_size */
  function PippengerScratchSize(l: Layout, n: nat, w: nat): nat
    requires l.Valid() && 1 <= w <= MAX_BUCKET_WINDOW
  {
    Pow2(w) * l.gej + l.pippengerState + (n + 1) * EntrySize(l, w)
  }

  lemma ScratchSizeSplits(l: Layout, n: nat, w: nat)
    requires l.Valid() && 1 <= w <= MAX_BUCKET_WINDOW
    ensures PippengerScratchSize(l, n, w) == Overhead(l, w) + n * EntrySize(l, w)
  {
  }

  /** k points fit with the window that is chosen for k points. */
  predicate Fits(l: Layout, maxAlloc: nat, k: nat)
    requires l.Valid()
  {
    PippengerScratchSize(l, k, BucketWindow(k)) <= maxAlloc
  }

  lemma FitsBelow(l: Layout, maxAlloc: nat, k: nat, n: nat, w: nat)
    requires l.Valid() && 1 <= w <= MAX_BUCKET_WINDOW && k <= n && BucketWindow(k) == w
    requires Overhead(l, w) + n * EntrySize(l, w) <= maxAlloc
    ensures Fits(l, maxAlloc, k)
  {
    ScratchSizeSplits(l, k, w);
    MulNonneg(n - k, EntrySize(l, w));
    assert (n - k) * EntrySize(l, w) == n * EntrySize(l, w) - k * EntrySize(l, w);
  }

  // With window w, space for q points covers every count that chooses w, up to n.
  lemma NewlyFitting(l: Layout, maxAlloc: nat, w: nat, n: nat, q: nat)
    requires l.Valid() && 1 <= w <= MAX_BUCKET_WINDOW && n <= BucketWindowInv(w) && n <= q
    requires Overhead(l, w) + q * EntrySize(l, w) <= maxAlloc
    ensures forall k :: BucketWindowInv(w - 1) < k <= n ==> Fits(l, maxAlloc, k)
  {
    forall k | BucketWindowInv(w - 1) < k <= n ensures Fits(l, maxAlloc, k) {
      WindowTablesAgree(k, w);
      FitsBelow(l, maxAlloc, k, q, w);
    }
  }

  method Quotient(o: nat, e: nat, m: nat) returns (q: nat)
    requires o <= m && e > 0
    ensures o + q * e <= m < o + (q + 1) * e
  {
    q := (m - o) / e;
    DivModEq(m - o, e);
  }

  // Without space for n + 1 points, window w serves no count above n.
  lemma NoneAbove(l: Layout, maxAlloc: nat, w: nat, n: nat)
    requires l.Valid() && 1 <= w <= MAX_BUCKET_WINDOW && maxAlloc < Overhead(l, w) + (n + 1) * EntrySize(l, w)
    ensures forall k :: n < k && BucketWindowInv(w - 1) < k <= BucketWindowInv(w) ==> !Fits(l, maxAlloc, k)
  {
    forall k | n < k && BucketWindowInv(w - 1) < k <= BucketWindowInv(w)
      ensures !Fits(l, maxAlloc, k)
    {
      WindowTablesAgree(k, w);
      ScratchSizeSplits(l, k, w);
      MulNonneg(k - n - 1, EntrySize(l, w));
      assert (k - n - 1) * EntrySize(l, w) == k * EntrySize(l, w) - (n + 1) * EntrySize(l, w);
    }
  }

  // How many points window w can serve: none when even its overhead does not fit.
  method WindowCapacity(l: Layout, maxAlloc: nat, w: nat) returns (ok: bool, nPoints: nat)
    requires l.Valid() && 1 <= w <= MAX_BUCKET_WINDOW && maxAlloc <= SIZE_MAX
    ensures nPoints <= BucketWindowInv(w) && (!ok ==> nPoints == 0)
    ensures forall k :: BucketWindowInv(w - 1) < k <= nPoints ==> Fits(l, maxAlloc, k)
    ensures forall k :: nPoints < k && BucketWindowInv(w - 1) < k <= BucketWindowInv(w) ==> !Fits(l, maxAlloc, k)
  {
    var maxPoints, entry, overhead := BucketWindowInv(w), EntrySize(l, w), Overhead(l, w);
    if overhead > maxAlloc {
      NoneAbove(l, maxAlloc, w, 0);
      return false, 0;
    }
    var q := Quotient(overhead, entry, maxAlloc);
    nPoints := if q > maxPoints then maxPoints else q;
    NewlyFitting(l, maxAlloc, w, nPoints, q);
    if q <= maxPoints {
      NoneAbove(l, maxAlloc, w, q);
    }
    return true, nPoints;
  }

  /** Counting up from k as long as one point more fits. */
  ghost function LargestFrom(l: Layout, maxAlloc: nat, k: nat): (m: nat)
    requires l.Valid() && k <= SIZE_MAX
    ensures k <= m <= SIZE_MAX
    decreases SIZE_MAX - k
  {
    if k == SIZE_MAX || !Fits(l, maxAlloc, k + 1) then k else LargestFrom(l, maxAlloc, k + 1)
  }

  ghost function LargestFitting(l: Layout, maxAlloc: nat): (m: nat)
    requires l.Valid()
    ensures m <= SIZE_MAX
  {
    LargestFrom(l, maxAlloc, 0)
  }

  /** It is the one count such that all up to it fit and the next does not. */
  lemma {:induction false} LargestIs(l: Layout, maxAlloc: nat, k: nat, m: nat)
    requires l.Valid() && k <= m <= SIZE_MAX && (m < SIZE_MAX ==> !Fits(l, maxAlloc, m + 1))
    requires forall i :: 1 <= i <= m ==> Fits(l, maxAlloc, i)
    ensures LargestFrom(l, maxAlloc, k) == m
    decreases m - k
  {
    if k < m {
      LargestIs(l, maxAlloc, k + 1, m);
    }
  }

  /** secp256k1_pippenger_max_points: all counts up to the result fit with their own window, and the next one does not.
      */
  method PippengerMaxPoints(l: Layout, maxAlloc: nat) returns (res: nat)
    requires l.Valid() && maxAlloc <= SIZE_MAX
    ensures res <= SIZE_MAX && forall k :: 1 <= k <= res ==> Fits(l, maxAlloc, k)
    ensures res < SIZE_MAX ==> !Fits(l, maxAlloc, res + 1)
    ensures res == LargestFitting(l, maxAlloc)
  {
    hide Fits;
    res := 0;
    var w := 1;
    while w <= MAX_BUCKET_WINDOW
      invariant 1 <= w <= MAX_BUCKET_WINDOW + 1
      invariant res == BucketWindowInv(w - 1)
      invariant forall k :: 1 <= k <= res ==> Fits(l, maxAlloc, k)
    {
      var ok, nPoints := WindowCapacity(l, maxAlloc, w);
      res := if nPoints > res then nPoints else res;
      if !ok || nPoints < BucketWindowInv(w) {
        LargestIs(l, maxAlloc, 0, res);
        return;
      }
      w := w + 1;
    }
    LargestIs(l, maxAlloc, 0, res);
  }

  // Number of batches for n points, and the size of all but the last.
  function Batches(n: nat, maxPoints: nat): nat
    requires maxPoints > 0
  {
    (n + maxPoints - 1) / maxPoints
  }

  function BatchPoints(n: nat, maxPoints: nat): nat
    requires maxPoints > 0 && n > 0
  {
    CeilDiv(n, maxPoints);
    (n + Batches(n, maxPoints) - 1) / Batches(n, maxPoints)
  }

  lemma CeilDiv(n: int, m: int)
    requires n > 0 && m > 0
    ensures var q := (n + m - 1) / m; q >= 1 && (q - 1) * m < n <= q * m
  {
    var q, r := (n + m - 1) / m, (n + m - 1) % m;
    DivModEq(n + m - 1, m);
    CeilFromFloor(n, m, q, r);
  }

  lemma CeilFromFloor(n: int, m: int, q: int, r: int)
    requires n > 0 && m > 0 && n + m - 1 == q * m + r && 0 <= r < m && q >= 0
    ensures q >= 1 && (q - 1) * m < n <= q * m
  {
    assert (q - 1) * m == q * m - m;
  }

  /** The batches partition the points: none is empty, none is larger than allowed, together they cover n.  No smaller
      number of batches would do, and for that number no smaller size. */
  lemma BatchesPartition(n: nat, maxPoints: nat)
    requires n > 0 && maxPoints > 0
    ensures var c, s := Batches(n, maxPoints), BatchPoints(n, maxPoints);
      && 1 <= s <= maxPoints && c >= 1 && (c - 1) * s < n <= c * s
      && (c - 1) * maxPoints < n <= c * maxPoints && (s - 1) * c < n <= s * c
  {
    CeilDiv(n, maxPoints);
    var c := Batches(n, maxPoints);
    CeilDiv(n, c);
    PartitionBounds(n, maxPoints, c, BatchPoints(n, maxPoints));
  }

  lemma PartitionBounds(n: int, m: int, c: int, s: int)
    requires c >= 1 && s >= 1 && m > 0 && (c - 1) * m < n <= c * m && (s - 1) * c < n <= s * c
    ensures s <= m && (c - 1) * s < n <= c * s
  {
    if s > m {
      MulNonneg(s - 1 - m, c);
    }
    MulNonneg(m - s, c - 1);
    assert (m - s) * (c - 1) == (c - 1) * m - (c - 1) * s;
  }
}
