/** The constant-time recoding: every digit is odd, so that every step of the multiplication adds a point. */
module WnafConst {
  import opened Digits
  import opened Secp256k1

  /** How many windows of width w cover size bits; the recoding writes one digit more. */
  function WindowsFor(size: nat, w: nat): (n: nat)
    requires size >= 1 && 1 <= w <= 15
    ensures n >= 1 && (n - 1) * w < size <= n * w
  {
    (size + w - 1) / w
  }

  // The representative of a that is at most N/2 in absolute value.
  function Magnitude(a: Scalar): int {
    if IsHigh(a) then N - a else a
  }

  /** The integer the digits stand for: it differs from a + skew by 0 or N. */
  function Skewed(a: Scalar, skew: int): int {
    if IsHigh(a) then a + skew - N else a + skew
  }

  ghost predicate OddBelow(d: int, b: int) {
    d % 2 == 1 && -b < d < b
  }

  /** What the recoding promises: odd digits, the leading one carrying the sign of the value. */
  ghost predicate Represents(ds: seq<int>, v: int, b: int) {
    && |ds| >= 1
    && (forall k :: 0 <= k < |ds| ==> OddBelow(ds[k], b))
    && Value(ds, b) == v
    && (v > 0 <==> ds[|ds| - 1] > 0)
  }

  // The number that is cut into digits: odd, non-zero and below N.
  method Prepare(a: Scalar, ghost size: nat) returns (s: int, globalSign: int, skew: int)
    requires size >= 1 && Magnitude(a) < Pow2(size)
    ensures 0 < s < N && s <= Pow2(size) + 1 && s % 2 == 1
    ensures (globalSign == 1 || globalSign == -1) && globalSign * s == Skewed(a, skew)
    ensures skew == 1 || skew == 2
  {
    OrderBounds();
    s := a;
    var flip := IsHigh(s);
    var bit := if flip == (s % 2 == 0) then 1 else 0;
    var notNegOne := Negate(s) != 1;
    if notNegOne {
      s := s + (if bit == 1 then 2 else 1);
    }
    globalSign := 1;
    if flip {
      s := N - s;
      globalSign := -1;
    }
    if !notNegOne {
      globalSign := -globalSign;
    }
    skew := if bit == 1 then 2 else 1;
  }

  // s is the part not yet cut off, last the digit that waits for its successor.
  ghost predicate Cutting(ds: seq<int>, sign: int, last: int, s: int, total: int, b: int) {
    && s >= 0 && 0 < last < b && last % 2 == 1
    && (forall k :: 0 <= k < |ds| ==> OddBelow(ds[k], b))
    && sign * Value(ds, b) + last * Power(b, |ds|) + s * Power(b, |ds| + 1) == total
  }

  lemma CutAlgebra(sign: int, v: int, last: int, e: int, u: int, t: int, b: int, p: int)
    requires sign == 1 || sign == -1
    ensures sign * (v + (last - e * b) * sign * p) + (u + e) * (b * p) + t * (b * (b * p))
         == sign * v + last * p + (t * b + u) * (b * p)
  {
    var x := (last - e * b) * p;
    assert (last - e * b) * sign * p == sign * x;
    assert sign * (sign * x) == x;
    assert x == last * p - e * (b * p);
    assert (t * b + u) * (b * p) == t * (b * (b * p)) + u * (b * p);
  }

  // Cut off one more digit; an even one borrows b from the digit before it.
  lemma Cut(ds: seq<int>, sign: int, last: int, s: int, total: int, b: int, e: int)
    requires Cutting(ds, sign, last, s, total, b) && b > 1 && b % 2 == 0
    requires sign == 1 || sign == -1
    requires e == (if s % b % 2 == 0 then 1 else 0)
    ensures Cutting(ds + [(last - e * b) * sign], sign, s % b + e, s / b, total, b)
  {
    var d := (last - e * b) * sign;
    ValueAppend(ds, d, b);
    var p := Power(b, |ds|);
    DivModEq(s, b);
    CutAlgebra(sign, Value(ds, b), last, e, s % b, s / b, b, p);
    OddDigit(last, e, b, sign);
  }

  lemma OddDigit(last: int, e: int, b: int, sign: int)
    requires 0 < last < b && last % 2 == 1 && b % 2 == 0 && 0 <= e <= 1 && (sign == 1 || sign == -1)
    ensures OddBelow((last - e * b) * sign, b)
  {
    assert e == 0 || e == 1;
  }

  lemma ShiftBound(s: int, b: int, n: nat)
    requires 0 <= s < Power(b, n + 1) && b > 0
    ensures 0 <= s / b < Power(b, n)
  {
    DivModEq(s, b);
    if s / b >= Power(b, n) {
      MulNonneg(s / b - Power(b, n), b);
    }
  }

  lemma SizeBound(s: int, size: nat, w: nat, n: nat)
    requires size >= 1 && w >= 1 && s <= Pow2(size) + 1 && size <= n * w
    ensures s < Power(Pow2(w), n + 1)
  {
    PowerOfPow2(w, n + 1);
    assert w * (n + 1) == n * w + w;
    Pow2Monotone(size, n * w + w);
    assert Pow2(size) == 2 * Pow2(size - 1);
  }

  /** secp256k1_wnaf_const: fill wnaf with odd digits of the skewed scalar. */
  method ConstWnaf(wnaf: array<int>, a: Scalar, w: nat, size: nat) returns (skew: int)
    requires 1 <= w <= 15 && size >= 1 && wnaf.Length == WindowsFor(size, w) + 1
    requires Magnitude(a) < Pow2(size)
    modifies wnaf
    ensures skew == 1 || skew == 2
    ensures Represents(wnaf[..], Skewed(a, skew), Pow2(w))
    ensures Skewed(a, skew) != 0 && -N < Skewed(a, skew) < N
  {
    var s, globalSign;
    s, globalSign, skew := Prepare(a, size);
    Recode(wnaf, s, globalSign, w, size);
  }

  method Recode(wnaf: array<int>, total: int, sign: int, w: nat, size: nat)
    requires 1 <= w <= 15 && size >= 1 && wnaf.Length == WindowsFor(size, w) + 1
    requires 0 < total <= Pow2(size) + 1 && total % 2 == 1 && (sign == 1 || sign == -1)
    modifies wnaf
    ensures Represents(wnaf[..], sign * total, Pow2(w))
  {
    var b, word, n := Pow2(w), 0, WindowsFor(size, w);
    assert b == 2 * Pow2(w - 1) && Pow2(w - 1) >= 1;
    SizeBound(total, size, w, n);
    var s, uLast := total / b, total % b;
    var u := uLast;
    Start(total, b, sign);
    ShiftBound(total, b, n);
    assert Power(b, 0) == 1;
    hide Cutting, Value, Power, Represents;
    while word * w < size
      invariant word <= n && u == uLast
      invariant Cutting(wnaf[..word], sign, uLast, s, total, b)
      invariant s < Power(b, n - word)
      decreases n - word
    {
      Continue(word, n, w, size);
      ShiftBound(s, b, n - word - 1);
      u, s := CutDigit(wnaf, word, sign, uLast, s, total, b);
      word := word + 1;
      uLast := u;
    }
    Stop(word, n, w, size);
    ghost var ds := wnaf[..word];
    wnaf[word] := u * sign;
    assert wnaf[..] == ds + [u * sign];
    Done(ds, sign, u, total, b);
  }

  // The body of the loop: write the waiting digit and cut off the next one.
  method CutDigit(wnaf: array<int>, word: nat, sign: int, last: int, s0: int, ghost total: int, b: int)
    returns (u: int, s: int)
    requires word < wnaf.Length && Cutting(wnaf[..word], sign, last, s0, total, b) && b > 1 && b % 2 == 0
    requires sign == 1 || sign == -1
    modifies wnaf
    ensures Cutting(wnaf[..word + 1], sign, u, s, total, b) && s == s0 / b
  {
    ghost var ds := wnaf[..word];
    u, s := s0 % b, s0 / b;
    var even := if u % 2 == 0 then 1 else 0;
    var carry := 2 * (if last > 0 then 1 else 0) - 1;
    Cut(ds, sign, last, s0, total, b, even);
    hide Cutting;
    u := u + carry * even;
    var d := last - carry * even * b;
    assert carry == 1;
    wnaf[word] := d * sign;
    assert wnaf[..word + 1] == ds + [(last - even * b) * sign];
  }

  lemma Start(total: int, b: int, sign: int)
    requires total % 2 == 1 && total > 0 && b > 1 && b % 2 == 0
    ensures Cutting([], sign, total % b, total / b, total, b)
  {
    DivModEq(total, b);
    assert b == 2 * (b / 2);
    assert total / b * b == 2 * (total / b * (b / 2));
    assert Power(b, 0) == 1 && Power(b, 1) == b * Power(b, 0);
  }

  lemma Continue(word: nat, n: nat, w: nat, size: nat)
    requires word <= n && word * w < size && size <= n * w
    ensures word < n
  {
  }

  lemma Stop(word: nat, n: nat, w: nat, size: nat)
    requires word <= n && word * w >= size && (n - 1) * w < size && w >= 1
    ensures word == n
  {
    if word < n {
      MulNonneg(n - 1 - word, w);
    }
  }

  lemma SignSquare(sign: int, v: int, last: int, p: int)
    requires sign == 1 || sign == -1
    ensures v + last * sign * p == sign * (sign * v + last * p)
  {
    if sign == -1 {
      assert last * sign == -last;
      assert -last * p == -(last * p);
    }
  }

  lemma Done(ds: seq<int>, sign: int, last: int, total: int, b: int)
    requires Cutting(ds, sign, last, 0, total, b) && (sign == 1 || sign == -1) && total > 0 && b > 0
    ensures Represents(ds + [last * sign], sign * total, b)
  {
    hide Value, Power;
    ValueAppend(ds, last * sign, b);
    SignSquare(sign, Value(ds, b), last, Power(b, |ds|));
    OddDigit(last, 0, b + b, sign);
    assert last * sign == (if sign == 1 then last else -last);
    assert sign * total == (if sign == 1 then total else -total);
  }
}
