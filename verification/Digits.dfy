/** Powers of two, bit extraction and positional values of signed-digit strings. */
module Digits {

  function Pow2(n: nat): (r: int)
    ensures r > 0
  {
    if n == 0 then 1 else 2 * Pow2(n - 1)
  }

  lemma {:induction false} Pow2Add(a: nat, b: nat)
    ensures Pow2(a + b) == Pow2(a) * Pow2(b)
  {
    if b > 0 {
      Pow2Add(a, b - 1);
      assert Pow2(a) * (2 * Pow2(b - 1)) == 2 * (Pow2(a) * Pow2(b - 1));
    }
  }

  lemma {:induction false} Pow2Monotone(a: nat, b: nat)
    requires a <= b
    ensures Pow2(a) <= Pow2(b)
    ensures a < b ==> 2 * Pow2(a) <= Pow2(b)
    decreases b
  {
    if a < b {
      Pow2Monotone(a, b - 1);
    }
  }

  lemma Pow2Square(n: nat, v: int)
    requires Pow2(n) == v
    ensures Pow2(n + n) == v * v
  {
    Pow2Add(n, n);
  }

  lemma Pow2Values()
    ensures Pow2(4) == 16 && Pow2(8) == 256 && Pow2(16) == 0x1_0000 && Pow2(32) == 0x1_0000_0000
    ensures Pow2(64) == 0x1_0000_0000_0000_0000
    ensures Pow2(128) == 0x1_0000_0000_0000_0000_0000_0000_0000_0000
    ensures Pow2(256) == 0x1_0000_0000_0000_0000_0000_0000_0000_0000_0000_0000_0000_0000_0000_0000_0000_0000
    ensures Pow2(255) == 0x8000_0000_0000_0000_0000_0000_0000_0000_0000_0000_0000_0000_0000_0000_0000_0000
  {
    Pow2Square(8, 256);
    Pow2Square(16, 0x1_0000);
    Pow2Square(32, 0x1_0000_0000);
    Pow2Square(64, 0x1_0000_0000_0000_0000);
    Pow2Square(128, 0x1_0000_0000_0000_0000_0000_0000_0000_0000);
  }

  /** The count bits of s that start at bit offset. */
  function Bits(s: nat, offset: nat, count: nat): (r: int) {
    s / Pow2(offset) % Pow2(count)
  }

  lemma MulAtLeast(x: int, m: int)
    requires x >= 1 && m > 0
    ensures x * m >= m
  {
  }

  // s = k*m + r with 0 <= r < m determines quotient and remainder.
  lemma DivModUnique(s: int, m: int, k: int, r: int)
    requires 0 <= r < m && s == k * m + r
    ensures s / m == k && s % m == r
  {
    var q, t := s / m, s % m;
    assert s == q * m + t;
    assert (q - k) * m == r - t;
    if q > k {
      MulAtLeast(q - k, m);
    } else if q < k {
      MulAtLeast(k - q, m);
    }
  }

  /** s mod 2^(offset+count) splits into its low part and the window above it. */
  lemma ModSplit(s: nat, offset: nat, count: nat)
    ensures s % Pow2(offset + count) == s % Pow2(offset) + Bits(s, offset, count) * Pow2(offset)
    ensures Bits(s, offset, count) < Pow2(count)
  {
    Pow2Add(offset, count);
    ModSplitAt(s, Pow2(offset), Pow2(count));
  }

  lemma ModSplitAt(s: int, a: int, b: int)
    requires a > 0 && b > 0
    ensures s % (a * b) == s % a + s / a % b * a
  {
    var q := s / a;
    DivModEq(s, a);
    DivModEq(q, b);
    Recompose(s, a, b, q, s % a, q / b, q % b);
  }

  lemma DivModEq(s: int, a: int)
    requires a > 0
    ensures s == s / a * a + s % a && 0 <= s % a < a
    ensures s >= 0 ==> s / a >= 0
  {
  }

  lemma Recompose(s: int, a: int, b: int, q: int, r: int, k: int, d: int)
    requires s == q * a + r && 0 <= r < a && q == k * b + d && 0 <= d < b
    ensures s % (a * b) == d * a + r && s / (a * b) == k
  {
    MulNonneg(b - 1 - d, a);
    assert (b - 1 - d) * a == a * b - a - d * a;
    MulNonneg(d, a);
    assert (k * b + d) * a == k * (a * b) + d * a;
    DivModUnique(s, a * b, k, d * a + r);
  }

  lemma MulNonneg(x: int, y: int)
    requires x >= 0 && y >= 0
    ensures x * y >= 0
  {
  }

  /** The value of a digit string in base b, least significant digit first.  Digits may be negative. */
  ghost function Value(ds: seq<int>, b: int): int {
    if |ds| == 0 then 0 else ds[0] + b * Value(ds[1..], b)
  }

  ghost function Power(b: int, n: nat): (r: int)
    ensures b > 0 ==> r > 0
  {
    if n == 0 then 1 else b * Power(b, n - 1)
  }

  lemma {:induction false} ValueAppend(ds: seq<int>, d: int, b: int)
    ensures Value(ds + [d], b) == Value(ds, b) + d * Power(b, |ds|)
  {
    if |ds| == 0 {
      assert ds + [d] == [d];
      assert Value([d], b) == d + b * Value([], b);
    } else {
      assert (ds + [d])[1..] == ds[1..] + [d];
      ValueAppend(ds[1..], d, b);
      assert b * (Value(ds[1..], b) + d * Power(b, |ds| - 1)) == b * Value(ds[1..], b) + d * (b * Power(b, |ds| - 1));
    }
  }

  lemma {:induction false} PowerOfPow2(w: nat, n: nat)
    ensures Power(Pow2(w), n) == Pow2(w * n)
  {
    if n > 0 {
      PowerOfPow2(w, n - 1);
      Pow2Add(w, w * (n - 1));
      assert w + w * (n - 1) == w * n;
    }
  }

  /** The value of the digits at position i and above, counted from position i. */
  ghost function High(ds: seq<int>, i: nat, b: int): int {
    if i >= |ds| then 0 else Value(ds[i..], b)
  }

  lemma HighStep(ds: seq<int>, i: nat, b: int)
    ensures High(ds, i, b) == (if i < |ds| then ds[i] else 0) + b * High(ds, i + 1, b)
  {
    if i < |ds| {
      assert ds[i..][1..] == ds[i + 1..];
    }
  }

  lemma {:induction false} HighZero(ds: seq<int>, i: nat, b: int)
    requires forall k :: i <= k < |ds| ==> ds[k] == 0
    ensures High(ds, i, b) == 0
    decreases |ds| - i
  {
    if i < |ds| {
      HighStep(ds, i, b);
      HighZero(ds, i + 1, b);
    }
  }
}
