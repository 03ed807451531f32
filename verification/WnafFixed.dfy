/** The fixed-window recoding used by Pippenger's algorithm. */
module WnafFixed {
  import opened Digits
  import opened Secp256k1

  const BITS: nat := 256

  /** How many windows of width w cover every bit. */
  function Windows(w: nat): (n: nat)
    requires 1 <= w <= 31
    ensures n >= 1 && (n - 1) * w < BITS <= n * w
  {
    (BITS + w - 1) / w
  }

  // The topmost window may be narrower.
  function Width(w: nat, pos: nat): (c: nat)
    requires 1 <= w <= 31 && pos < Windows(w)
    ensures 1 <= c <= w && pos * w + c <= BITS
  {
    if pos == Windows(w) - 1 then BITS - pos * w
    else
      Below(pos, Windows(w) - 2, w);
      w
  }

  lemma Below(i: int, j: int, w: nat)
    requires i <= j
    ensures i * w <= j * w
  {
  }

  ghost predicate Odd(d: int) { d % 2 == 1 }

  /** Every digit is zero, or odd and smaller than the window size in absolute value. */
  ghost predicate Bounded(d: int, b: int) {
    d == 0 || (Odd(d) && -b < d < b)
  }

  lemma {:induction false} ValueUpdate(ds: seq<int>, i: nat, d: int, b: int)
    requires i < |ds|
    ensures Value(ds[i := ds[i] + d], b) == Value(ds, b) + d * Power(b, i)
  {
    if i > 0 {
      var es := ds[i := ds[i] + d];
      assert es[1..] == ds[1..][i - 1 := ds[1..][i - 1] + d];
      ValueUpdate(ds[1..], i - 1, d, b);
      assert b * (Value(ds[1..], b) + d * Power(b, i - 1)) == b * Value(ds[1..], b) + d * (b * Power(b, i - 1));
    }
  }

  // Moving one unit of a digit to b units of the digit below keeps the value.
  lemma Borrow(ds: seq<int>, i: nat, k: int, b: int)
    requires i + 1 < |ds|
    ensures Value(ds[i := ds[i] + k * b][i + 1 := ds[i + 1] - k], b) == Value(ds, b)
  {
    ValueUpdate(ds, i, k * b, b);
    var es := ds[i := ds[i] + k * b];
    ValueUpdate(es, i + 1, -k, b);
    assert (k * b) * Power(b, i) == k * (b * Power(b, i));
  }

  lemma {:induction false} ValueZeros(ds: seq<int>, i: nat, b: int)
    requires i <= |ds| && forall k :: i <= k < |ds| ==> ds[k] == 0
    ensures Value(ds, b) == Value(ds[..i], b)
    decreases |ds|
  {
    var n := |ds|;
    if i < n {
      assert ds[..n - 1][..i] == ds[..i];
      ValueZeros(ds[..n - 1], i, b);
      assert ds == ds[..n - 1] + [0];
      ValueAppend(ds[..n - 1], 0, b);
    } else {
      assert ds[..i] == ds;
    }
  }

  /** The digits below position pos, of which the last is still a positive odd number. */
  ghost predicate Pending(ds: seq<int>, pos: nat, total: int, b: int) {
    && 1 <= pos <= |ds|
    && Value(ds[..pos], b) == total
    && (forall k :: 0 <= k < pos ==> Bounded(ds[k], b))
    && Odd(ds[pos - 1]) && 0 < ds[pos - 1] < b
  }

  // Append the next window; an even one becomes odd by borrowing from the digit below.
  method Absorb(wnaf: array<int>, pos: nat, val: int, b: int, ghost total: int)
    requires pos < wnaf.Length && Pending(wnaf[..], pos, total, b)
    requires 0 <= val < b && b % 2 == 0
    modifies wnaf
    ensures Pending(wnaf[..], pos + 1, total + val * Power(b, pos), b)
    ensures forall k :: pos < k < wnaf.Length ==> wnaf[k] == old(wnaf[k])
  {
    hide Value, Power;
    ghost var ds := wnaf[..];
    ghost var base := ds[..pos] + [val];
    ValueAppend(ds[..pos], val, b);
    if val % 2 == 0 {
      wnaf[pos - 1] := wnaf[pos - 1] - b;
      wnaf[pos] := val + 1;
      Borrow(base, pos - 1, -1, b);
      assert wnaf[..][..pos + 1] == base[pos - 1 := base[pos - 1] + -1 * b][pos := base[pos] - -1];
    } else {
      wnaf[pos] := val;
      assert wnaf[..][..pos + 1] == base;
    }
  }

  // Move a digit +-1 down into a neighbour of the opposite sign.
  method Clear(wnaf: array<int>, pos: nat, ghost total: int, b: int)
    requires 2 <= pos < wnaf.Length && Pending(wnaf[..], pos + 1, total, b)
    requires (wnaf[pos - 1] == 1 && wnaf[pos - 2] < 0) || (wnaf[pos - 1] == -1 && wnaf[pos - 2] > 0)
    requires b % 2 == 0
    modifies wnaf
    ensures Pending(wnaf[..], pos + 1, total, b)
    ensures forall k :: pos < k < wnaf.Length ==> wnaf[k] == old(wnaf[k])
  {
    hide Value, Power;
    ghost var ds := wnaf[..pos + 1];
    ghost var k := ds[pos - 1];
    Borrow(ds, pos - 2, k, b);
    if wnaf[pos - 1] == 1 {
      wnaf[pos - 2] := wnaf[pos - 2] + b;
    } else {
      wnaf[pos - 2] := wnaf[pos - 2] - b;
    }
    wnaf[pos - 1] := 0;
    assert wnaf[..pos + 1] == ds[pos - 2 := ds[pos - 2] + k * b][pos - 1 := ds[pos - 1] - k];
    assert wnaf[..][..pos + 1] == wnaf[..pos + 1];
  }

  // The scalar's residue below position pos and the window there give the residue one position up.
  lemma NextResidue(s: nat, w: nat, pos: nat)
    ensures s % Power(Pow2(w), pos + 1) == s % Power(Pow2(w), pos) + Bits(s, pos * w, w) * Power(Pow2(w), pos)
    ensures 0 <= Bits(s, pos * w, w) < Pow2(w)
  {
    PowerOfPow2(w, pos);
    PowerOfPow2(w, pos + 1);
    assert w * pos == pos * w && w * (pos + 1) == pos * w + w;
    ModSplit(s, pos * w, w);
  }

  /** The windows of s below position pos, read back as a number. */
  ghost function Low(s: nat, w: nat, pos: nat): int {
    if pos == 0 then 0 else Low(s, w, pos - 1) + Bits(s, (pos - 1) * w, w) * Power(Pow2(w), pos - 1)
  }

  lemma {:induction false} LowIsResidue(s: nat, w: nat, pos: nat)
    ensures Low(s, w, pos) == s % Power(Pow2(w), pos)
  {
    if pos > 0 {
      LowIsResidue(s, w, pos - 1);
      NextResidue(s, w, pos - 1);
    }
  }

  // Above the scalar's last bit a narrow window reads the same as a full one.
  lemma NarrowWindow(s: Scalar, w: nat, pos: nat)
    requires 1 <= w <= 31 && pos < Windows(w)
    ensures Bits(s, pos * w, Width(w, pos)) == Bits(s, pos * w, w)
  {
    var o, c := pos * w, Width(w, pos);
    OrderBounds();
    if c < w {
      ModSplit(s, o, c);
      ModSplit(s, o, w);
      assert o + c == BITS;
      Pow2Monotone(BITS, o + w);
      DivModUnique(s, Pow2(BITS), 0, s);
      DivModUnique(s, Pow2(o + w), 0, s);
      CancelFactor(Bits(s, o, c), Bits(s, o, w), Pow2(o));
    }
  }

  lemma CancelFactor(x: int, y: int, m: int)
    requires x * m == y * m && m > 0
    ensures x == y
  {
    if x < y { MulAtLeast(y - x, m); } else if y < x { MulAtLeast(x - y, m); }
  }

  // A scalar below b^(pos+1) whose window at pos is zero is below b^pos.
  lemma DropZeroWindow(s: nat, w: nat, pos: nat)
    requires s < Power(Pow2(w), pos + 1) && Bits(s, pos * w, w) == 0
    ensures s < Power(Pow2(w), pos)
  {
    NextResidue(s, w, pos);
    PowerOfPow2(w, pos);
    PowerOfPow2(w, pos + 1);
    DivModUnique(s, Power(Pow2(w), pos + 1), 0, s);
    DivModEq(s, Power(Pow2(w), pos));
  }

  /** What the recoding promises: bounded odd digits whose value is the scalar plus the skew. */
  ghost predicate Represents(ds: seq<int>, s: Scalar, w: nat, skew: int)
    requires 1 <= w <= 31
  {
    && |ds| == Windows(w)
    && (skew == 0 || skew == 1)
    && Value(ds, Pow2(w)) == s + skew
    && forall k :: 0 <= k < |ds| ==> Bounded(ds[k], Pow2(w))
  }

  lemma FirstDigit(s: Scalar, w: nat, skew: int, ds: seq<int>)
    requires 1 <= w <= 31 && |ds| >= 1 && skew == (if s % 2 == 0 then 1 else 0) && ds[0] == Bits(s, 0, w) + skew
    ensures Pending(ds, 1, Low(s, w, 1) + skew, Pow2(w))
  {
    var b := Pow2(w);
    NextResidue(s, w, 0);
    LowFirst(s, w);
    LowParity(s, w);
    EvenBase(w);
    ValueSingle(ds[0], b);
    assert ds[..1] == [ds[0]];
    assert 0 * w == 0;
    hide Bits, Value, Pow2, Low;
  }

  lemma LowFirst(s: nat, w: nat)
    ensures Low(s, w, 1) == Bits(s, 0, w)
  {
    assert Power(Pow2(w), 0) == 1 && Low(s, w, 1) == Low(s, w, 0) + Bits(s, 0 * w, w) * Power(Pow2(w), 0);
  }

  lemma EvenBase(w: nat)
    requires w >= 1
    ensures Pow2(w) % 2 == 0
  {
    assert Pow2(w) == 2 * Pow2(w - 1);
  }

  lemma ValueSingle(d: int, b: int)
    ensures Value([d], b) == d
  {
    assert Value([d], b) == d + b * Value([d][1..], b);
  }

  lemma LowParity(s: nat, w: nat)
    requires w >= 1
    ensures Bits(s, 0, w) % 2 == s % 2
  {
    assert Pow2(0) == 1;
    DivModEq(s, Pow2(w));
    ParityFrom(s, s / Pow2(w), Pow2(w - 1), s % Pow2(w));
  }

  lemma ParityFrom(s: int, k: int, h: int, r: int)
    requires s == k * (2 * h) + r
    ensures s % 2 == r % 2
  {
    assert k * (2 * h) == 2 * (k * h);
  }

  /** secp256k1_wnaf_fixed: fill wnaf with the digits of s and return the skew. */
  method FixedWnaf(wnaf: array<int>, s: Scalar, w: nat) returns (skew: int)
    requires 1 <= w <= 31 && wnaf.Length == Windows(w)
    modifies wnaf
    ensures Represents(wnaf[..], s, w, skew)
    ensures s == 0 ==> skew == 0 && forall k :: 0 <= k < wnaf.Length ==> wnaf[k] == 0
  {
    var size, b := Windows(w), Pow2(w);
    if s == 0 {
      for i := 0 to size
        invariant forall k :: 0 <= k < i ==> wnaf[k] == 0
      {
        wnaf[i] := 0;
      }
      assert wnaf[..][..0] == [];
      ValueZeros(wnaf[..], 0, b);
      return 0;
    }
    skew := if s % 2 == 0 then 1 else 0;
    wnaf[0] := Bits(s, 0, w) + skew;
    FirstDigit(s, w, skew, wnaf[..]);
    var maxPos := SkipLeadingZeros(wnaf, s, w);
    Convert(wnaf, s, w, skew, maxPos);
    assert wnaf[..][..maxPos + 1] == wnaf[..maxPos + 1];
    ValueZeros(wnaf[..], maxPos + 1, b);
    LowIsResidue(s, w, maxPos + 1);
    DivModUnique(s, Power(b, maxPos + 1), 0, s);
  }

  // Zero the windows above the topmost non-zero one and return its position.
  method SkipLeadingZeros(wnaf: array<int>, s: Scalar, w: nat) returns (pos: nat)
    requires 1 <= w <= 31 && wnaf.Length == Windows(w)
    modifies wnaf
    ensures pos < wnaf.Length && wnaf[0] == old(wnaf[0]) && s < Power(Pow2(w), pos + 1)
    ensures forall k :: pos < k < wnaf.Length ==> wnaf[k] == 0
  {
    pos := Windows(w) - 1;
    OrderBounds();
    PowerOfPow2(w, pos + 1);
    assert w * (pos + 1) == (pos + 1) * w;
    Pow2Monotone(BITS, (pos + 1) * w);
    while pos > 0
      invariant pos < wnaf.Length && wnaf[0] == old(wnaf[0]) && s < Power(Pow2(w), pos + 1)
      invariant forall k :: pos < k < wnaf.Length ==> wnaf[k] == 0
    {
      NarrowWindow(s, w, pos);
      var val := Bits(s, pos * w, Width(w, pos));
      if val != 0 {
        break;
      }
      DropZeroWindow(s, w, pos);
      wnaf[pos] := 0;
      pos := pos - 1;
    }
  }

  // The digits below pos stand for the scalar's windows there plus the skew.
  ghost predicate Converted(ds: seq<int>, s: Scalar, w: nat, skew: int, pos: nat) {
    Pending(ds, pos, Low(s, w, pos) + skew, Pow2(w))
  }

  // One iteration of the conversion loop.
  method ConvertOne(wnaf: array<int>, s: Scalar, w: nat, ghost skew: int, pos: nat)
    requires 1 <= w <= 31 && wnaf.Length == Windows(w) && pos < wnaf.Length
    requires Converted(wnaf[..], s, w, skew, pos)
    modifies wnaf
    ensures Converted(wnaf[..], s, w, skew, pos + 1)
    ensures forall k :: pos < k < wnaf.Length ==> wnaf[k] == old(wnaf[k])
  {
    hide Value, Power, Pending;
    NarrowWindow(s, w, pos);
    NextResidue(s, w, pos);
    var b, val := Pow2(w), Bits(s, pos * w, Width(w, pos));
    EvenBase(w);
    Absorb(wnaf, pos, val, b, Low(s, w, pos) + skew);
    if pos >= 2 && ((wnaf[pos - 1] == 1 && wnaf[pos - 2] < 0) || (wnaf[pos - 1] == -1 && wnaf[pos - 2] > 0)) {
      Clear(wnaf, pos, Low(s, w, pos + 1) + skew, b);
    }
  }

  // Turn the windows 1..maxPos into signed digits.
  method Convert(wnaf: array<int>, s: Scalar, w: nat, ghost skew: int, maxPos: nat)
    requires 1 <= w <= 31 && wnaf.Length == Windows(w) && maxPos < wnaf.Length
    requires Converted(wnaf[..], s, w, skew, 1)
    modifies wnaf
    ensures Converted(wnaf[..], s, w, skew, maxPos + 1)
    ensures forall k :: maxPos < k < wnaf.Length ==> wnaf[k] == old(wnaf[k])
  {
    var pos := 1;
    while pos <= maxPos
      invariant 1 <= pos <= maxPos + 1
      invariant Converted(wnaf[..], s, w, skew, pos)
      invariant forall k :: maxPos < k < wnaf.Length ==> wnaf[k] == old(wnaf[k])
    {
      ConvertOne(wnaf, s, w, skew, pos);
      pos := pos + 1;
    }
  }
}
