/** Powers, and the number a string of decimal digits stands for. */
module Numerals {

  function Pow(b: nat, n: nat): (r: nat)
    ensures b > 0 ==> r > 0
  {
    if n == 0 then 1 else b * Pow(b, n - 1)
  }

  lemma {:induction false} PowAdd(b: nat, m: nat, n: nat)
    ensures Pow(b, m + n) == Pow(b, m) * Pow(b, n)
  {
    if m > 0 {
      PowAdd(b, m - 1, n);
      calc {
        Pow(b, m + n);
        b * Pow(b, m - 1 + n);
        b * (Pow(b, m - 1) * Pow(b, n));
        (b * Pow(b, m - 1)) * Pow(b, n);
      }
    }
  }

  lemma {:induction false} PowMono(b: nat, m: nat, n: nat)
    requires b > 0 && m <= n
    ensures Pow(b, m) <= Pow(b, n)
  {
    PowAdd(b, m, n - m);
    MulGe(Pow(b, m), Pow(b, n - m));
  }

  lemma PowLess(b: nat, m: nat, n: nat)
    requires b > 0 && Pow(b, m) < Pow(b, n)
    ensures m < n
  {
    if n <= m { PowMono(b, n, m); }
  }

  lemma MulGe(a: nat, k: nat)
    requires k >= 1
    ensures a * k >= a
  {
  }

  lemma MulMono(a: nat, b: nat, c: nat)
    requires a <= b
    ensures a * c <= b * c
  {
  }

  lemma MulLt(a: nat, b: nat, c: nat)
    requires a * c < b * c
    ensures a < b
  {
    if a >= b { MulMono(b, a, c); }
  }

  lemma MulCancel(a: nat, b: nat, c: nat)
    requires c > 0 && a * c == b * c
    ensures a == b
  {
    assert (a - b) * c == a * c - b * c;
    MulZero(a - b, c);
  }

  lemma MulZero(x: int, c: nat)
    requires c > 0 && x * c == 0
    ensures x == 0
  {
  }

  lemma MulSwap(a: nat, b: nat, x: nat, y: nat)
    ensures (a * b) * (x * y) == (a * x) * (b * y)
  {
    calc {
      (a * b) * (x * y);
      a * (b * (x * y));
      { assert b * (x * y) == x * (b * y); }
      a * (x * (b * y));
      (a * x) * (b * y);
    }
  }

  lemma {:induction false} PowProduct(a: nat, b: nat, n: nat)
    ensures Pow(a * b, n) == Pow(a, n) * Pow(b, n)
  {
    if n > 0 {
      PowProduct(a, b, n - 1);
      MulSwap(a, b, Pow(a, n - 1), Pow(b, n - 1));
    }
  }

  lemma {:induction false} PowPow(b: nat, m: nat, n: nat)
    ensures Pow(Pow(b, m), n) == Pow(b, m * n)
  {
    if n > 0 {
      PowPow(b, m, n - 1);
      PowAdd(b, m, m * (n - 1));
      assert m + m * (n - 1) == m * n;
    }
  }

  lemma {:induction false} PowBaseMono(a: nat, b: nat, n: nat)
    requires a <= b
    ensures Pow(a, n) <= Pow(b, n)
  {
    if n > 0 {
      PowBaseMono(a, b, n - 1);
      MulMono(a, b, Pow(a, n - 1));
      MulMono(Pow(a, n - 1), Pow(b, n - 1), b);
    }
  }

  /** a * 10^n */
  function Scale(a: int, n: nat): int { a * Pow(10, n) }

  lemma ScaleZero(a: int)
    ensures Scale(a, 0) == a && Scale(0, 0) == 0
  {
  }

  /** Moving a digit across a power of ten. */
  lemma ScaleDigit(a: int, d: int, n: nat)
    ensures Scale(a * 10 + d, n) == Scale(a, n + 1) + Scale(d, n)
  {
    var p := Pow(10, n);
    assert (a * 10 + d) * p == (a * 10) * p + d * p;
    assert (a * 10) * p == a * (10 * p);
  }

  lemma ScaleNonNeg(a: nat, n: nat)
    ensures Scale(a, n) >= 0
  {
  }

  lemma ScaleSum(a: int, b: int, n: nat)
    ensures Scale(a + b, n) == Scale(a, n) + Scale(b, n)
  {
  }

  // ---- decimal digit strings ----

  type Byte = b: int | 0 <= b < 256 witness 0

  const ZERO: Byte := 48  // the character '0'

  predicate IsDigit(c: Byte) { ZERO <= c <= ZERO + 9 }

  ghost predicate AllDigits(s: seq<Byte>) { forall k :: 0 <= k < |s| ==> IsDigit(s[k]) }

  function DigitOf(c: Byte): int { c - ZERO }

  /** The number a digit string stands for, most significant digit first. */
  function Val(s: seq<Byte>): int {
    if s == [] then 0 else Val(s[..|s| - 1]) * 10 + DigitOf(s[|s| - 1])
  }

  lemma {:induction false} ValAppend(s: seq<Byte>, t: seq<Byte>)
    ensures Val(s + t) == Scale(Val(s), |t|) + Val(t)
  {
    if t == [] {
      assert s + t == s;
      ScaleZero(Val(s));
    } else {
      var t' := t[..|t| - 1];
      assert (s + t)[..|s + t| - 1] == s + t';
      ValAppend(s, t');
      assert (Val(s) * Pow(10, |t'|)) * 10 == Val(s) * (10 * Pow(10, |t'|));
    }
  }

  lemma ValOne(c: Byte)
    ensures Val([c]) == DigitOf(c)
  {
    assert [c][..0] == [];
  }

  lemma {:induction false} ValBounds(s: seq<Byte>)
    requires AllDigits(s)
    ensures 0 <= Val(s) < Pow(10, |s|)
  {
    if s != [] {
      ValBounds(s[..|s| - 1]);
    }
  }

  /** A digit string without a leading zero has as many digits as its number needs. */
  lemma {:induction false} ValLeading(s: seq<Byte>)
    requires AllDigits(s) && s != [] && s[0] > ZERO
    ensures Pow(10, |s| - 1) <= Val(s)
  {
    var t := s[1..];
    assert s == [s[0]] + t;
    ValAppend([s[0]], t);
    ValBounds(t);
    ValOne(s[0]);
    MulMono(1, DigitOf(s[0]), Pow(10, |t|));
  }

  lemma {:induction false} ValZeros(s: seq<Byte>)
    requires forall k :: 0 <= k < |s| ==> s[k] == ZERO
    ensures Val(s) == 0
  {
    if s != [] { ValZeros(s[..|s| - 1]); }
  }

  lemma {:induction false} ValNines(s: seq<Byte>)
    requires forall k :: 0 <= k < |s| ==> s[k] == ZERO + 9
    ensures Val(s) == Pow(10, |s|) - 1
  {
    if s != [] { ValNines(s[..|s| - 1]); }
  }

  /** A digit string stands for zero only when every digit is zero. */
  lemma {:induction false} ValZeroIff(s: seq<Byte>)
    requires AllDigits(s)
    ensures Val(s) == 0 <==> forall k :: 0 <= k < |s| ==> s[k] == ZERO
  {
    if s != [] {
      ValZeroIff(s[..|s| - 1]);
      ValBounds(s[..|s| - 1]);
    }
  }

  /** The parity of a number is that of its last digit. */
  lemma ValParity(s: seq<Byte>)
    requires AllDigits(s) && s != []
    ensures Val(s) % 2 == s[|s| - 1] % 2
  {
    EvenPlus(Val(s[..|s| - 1]), DigitOf(s[|s| - 1]));
    EvenPlus(4, s[|s| - 1] - ZERO);
  }

  lemma EvenPlus(x: int, d: int)
    ensures (x * 10 + d) % 2 == d % 2
  {
  }

  lemma ValUpTo(s: seq<Byte>, k: nat)
    requires k < |s|
    ensures Val(s[..k + 1]) == Val(s[..k]) * 10 + DigitOf(s[k])
  {
    assert s[..k + 1][..k] == s[..k];
  }

  lemma ValSplit(s: seq<Byte>, k: nat)
    requires k <= |s|
    ensures Val(s) == Scale(Val(s[..k]), |s| - k) + Val(s[k..])
  {
    assert s == s[..k] + s[k..];
    ValAppend(s[..k], s[k..]);
  }

  /** Digits [i, j) of a string, from its least significant end. */
  lemma ValFrom(s: seq<Byte>, i: nat)
    requires i < |s|
    ensures Val(s[i..]) == Scale(DigitOf(s[i]), |s| - i - 1) + Val(s[i + 1..])
  {
    assert s[i..] == [s[i]] + s[i + 1..];
    ValAppend([s[i]], s[i + 1..]);
    ValOne(s[i]);
  }

  // ---- rounding ----

  /** r is n / m rounded to the nearest integer, ties to the even one (m > 0). */
  predicate RoundsHalfEven(n: int, m: nat, r: int) {
    var twice: int := 2 * (n - r * m);
    0 <= m + twice && twice <= m && ((twice == m || m + twice == 0) ==> r % 2 == 0)
  }

  lemma RoundsOnce(n: int, m: nat, r: int, s: int)
    requires m > 0 && RoundsHalfEven(n, m, r) && RoundsHalfEven(n, m, s)
    ensures r == s
  {
    RoundsApart(n, m, r, s);
    RoundsApart(n, m, s, r);
  }

  lemma RoundsApart(n: int, m: nat, r: int, s: int)
    requires m > 0 && RoundsHalfEven(n, m, r) && RoundsHalfEven(n, m, s)
    ensures s <= r
  {
    var d := s - r;
    assert d * m == s * m - r * m;
    if d >= 1 {
      assert 2 * (d * m) <= 2 * m;
      if d >= 2 { MulMono(2, d, m); }
    }
  }

  lemma RoundsToZero(n: nat, m: nat)
    ensures RoundsHalfEven(n, m, 0) <==> 2 * n <= m
  {
  }

  /** Rounding a fraction does not depend on how the fraction is written. */
  lemma RoundsScaled(n: int, m: nat, r: int, c: nat)
    requires c > 0
    ensures RoundsHalfEven(n * c, m * c, r) <==> RoundsHalfEven(n, m, r)
  {
    var twice := 2 * (n - r * m);
    assert 2 * (n * c - r * (m * c)) == twice * c by {
      assert r * (m * c) == (r * m) * c;
      assert (n - r * m) * c == n * c - (r * m) * c;
    }
    assert m * c + twice * c == (m + twice) * c;
    assert m * c - twice * c == (m - twice) * c;
    SignScaled(m + twice, c);
    SignScaled(m - twice, c);
  }

  lemma SignScaled(x: int, c: nat)
    requires c > 0
    ensures (x * c >= 0 <==> x >= 0) && (x * c == 0 <==> x == 0)
  {
  }
}
