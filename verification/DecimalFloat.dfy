/** Exact conversion of a binary64 number to decimal digits, in a fixed buffer. */
module DecimalFloat {
  import opened Basics
  import opened Numerals

  const TWO52: nat := 0x0010_0000_0000_0000

  // The fields of the binary64 encoding (section 3.4 of IEEE 754-2008).
  function SignBit(bits: Word): nat { bits / TWO63 }
  function Magnitude(bits: Word): Word { bits % TWO63 }
  function BiasedExp(bits: Word): nat { Magnitude(bits) / TWO52 }
  function Fraction(bits: Word): nat { bits % TWO52 }

  predicate IsFinite(bits: Word) { BiasedExp(bits) != 0x7FF }

  /** The absolute value of a finite double is Significand * 2^Exponent. */
  function Significand(bits: Word): nat {
    if BiasedExp(bits) == 0 then Fraction(bits) else TWO52 + Fraction(bits)
  }

  function Exponent(bits: Word): int {
    if BiasedExp(bits) == 0 then -1074 else BiasedExp(bits) - 1075
  }

  /** The absolute value of a finite double, counted in the least one, 2^-1074. */
  function Units(bits: Word): nat
    requires IsFinite(bits)
  {
    Significand(bits) * Pow(2, Exponent(bits) + 1074)
  }

  /** Zero has none, and the next double is one unit in the last place further: 2^-1074 for the subnormal and the
      first normal numbers, and from there twice as much with each exponent. */
  lemma NextDouble(bits: Word)
    requires bits < TWO63 && IsFinite(bits) && IsFinite(bits + 1)
    ensures Units(0) == 0 && Units(bits + 1) == Units(bits) + Pow(2, Max0(bits / TWO52 - 1))
  {
    var e, f := bits / TWO52, bits % TWO52;
    assert e < 2047;
    UnitsOf(0, 0, 0);
    UnitsOf(bits, e, f);
    if f + 1 < TWO52 {
      UnitsOf(bits + 1, e, f + 1);
      Distribute(if e == 0 then f else TWO52 + f, Pow(2, Max0(e - 1)));
    } else {
      UnitsOf(bits + 1, e + 1, 0);
      if e > 0 { Distribute(2 * TWO52 - 1, Pow(2, e - 1)); }
    }
  }

  lemma UnitsOf(bits: Word, e: nat, f: nat)
    requires e < 2047 && f < TWO52 && bits == e * TWO52 + f
    ensures IsFinite(bits) && Units(bits) == (if e == 0 then f else TWO52 + f) * Pow(2, Max0(e - 1))
  {
    assert TWO63 == 2048 * TWO52 && Magnitude(bits) == bits;
    assert bits / TWO52 == e && bits % TWO52 == f;
  }

  lemma Distribute(a: nat, p: nat)
    ensures (a + 1) * p == a * p + p
  {
  }

  /** The larger the bits without the sign, the larger the absolute value. */
  lemma {:induction false} UnitsIncrease(a: Word, b: Word)
    requires IsFinite(a) && IsFinite(b) && Magnitude(a) < Magnitude(b)
    ensures Units(a) < Units(b)
    decreases Magnitude(b)
  {
    var m, n := Magnitude(a), Magnitude(b);
    SignFree(a);
    SignFree(b);
    BetweenFinite(n);
    NextDouble(n - 1);
    if m < n - 1 { UnitsIncrease(m, n - 1); }
  }

  lemma SignFree(bits: Word)
    requires IsFinite(bits)
    ensures var m := Magnitude(bits); Magnitude(m) == m && IsFinite(m) && Units(m) == Units(bits)
  {
    assert TWO63 == 2048 * TWO52;
    assert bits == TWO63 * (bits / TWO63) + Magnitude(bits);
    assert bits == TWO52 * (2048 * (bits / TWO63)) + Magnitude(bits);
  }

  lemma BetweenFinite(n: Word)
    requires 0 < n < TWO63 && IsFinite(n)
    ensures Magnitude(n - 1) == n - 1 && IsFinite(n - 1)
  {
    assert (n - 1) / TWO52 <= n / TWO52 <= 2047;
  }

  /** A significand and an exponent of two. */
  datatype CustomFP = CustomFP(f: nat, e: int)

  const EXP_BIAS := 1075

  function CustomFPFromF64(bits: Word): CustomFP {
    if BiasedExp(bits) == 0 then CustomFP(Fraction(bits), 1 - EXP_BIAS)
    else CustomFP(TWO52 + Fraction(bits), BiasedExp(bits) - EXP_BIAS)
  }

  function Max0(x: int): nat { if x > 0 then x else 0 }

  /** The digits stand for a number n, the last fd of them after the point: n / 10^fd == f * 2^e, exactly. */
  predicate Denotes(n: int, fd: nat, f: nat, e: int) {
    n * Pow(2, Max0(-e)) == f * Pow(2, Max0(e)) * Pow(10, fd)
  }

  /** Normalization: shifts left by bytes, then by bits, until the top bit is set. */
  method CustomFPNorm(x: CustomFP) returns (y: CustomFP)
    requires 0 < x.f < TWO64
    ensures TWO63 <= y.f < TWO64 && y.e <= x.e && x.e - y.e <= 63
    ensures y.f == x.f * Pow(2, x.e - y.e)
  {
    y := x;
    ghost var n := 0;
    ShiftNone(x.f);
    hide Pow;
    while y.f / 0x0100_0000_0000_0000 == 0
      invariant 0 < y.f < TWO64 && y.e == x.e - n && y.f == x.f * Pow(2, n) && 0 <= n
      decreases TWO64 - y.f
    {
      ShiftMore(x.f, n, 8, 256);
      y := CustomFP(y.f * 256, y.e - 8);
      n := n + 8;
    }
    while y.f / TWO63 == 0
      invariant 0 < y.f < TWO64 && y.e == x.e - n && y.f == x.f * Pow(2, n) && 0 <= n
      decreases TWO64 - y.f
    {
      ShiftMore(x.f, n, 1, 2);
      y := CustomFP(y.f * 2, y.e - 1);
      n := n + 1;
    }
    if n > 63 {
      PowMono(2, 64, n);
      TwoTo64();
      MulMono(1, x.f, Pow(2, n));
      assert false;
    }
  }

  lemma ShiftNone(f: nat)
    ensures f == f * Pow(2, 0)
  {
  }

  lemma ShiftMore(f: nat, n: nat, k: nat, p: nat)
    requires (k == 8 && p == 256) || (k == 1 && p == 2)
    ensures f * Pow(2, n) * p == f * Pow(2, n + k)
  {
    PowAdd(2, n, k);
    assert Pow(2, 8) == 256 && Pow(2, 1) == 2;
    assert f * (Pow(2, n) * p) == (f * Pow(2, n)) * p;
  }

  lemma TwoTo64()
    ensures Pow(2, 64) == TWO64
  {
    PowPow(2, 8, 8);
    assert Pow(2, 8) == 256;
    assert Pow(256, 4) == 0x1_0000_0000;
    PowAdd(256, 4, 4);
  }

  const DIGITS_CAP: nat := 1024
  const PRINT_MAX_NUM_DIGITS: nat := 32

  class F64String {
    const digits: array<Byte>
    var numDigits: nat
    /** Where the point is, counted in digits from the left; it can lie outside the digits. */
    var decimalPoint: int
    var isNeg: bool
    var isInf: bool
    var isNan: bool

    ghost predicate Valid()
      reads this, digits
    {
      digits.Length == DIGITS_CAP && numDigits < DIGITS_CAP && decimalPoint <= numDigits &&
      AllDigits(digits[..numDigits])
    }

    /** The digits, read as one integer. */
    ghost function Number(): int
      reads this, digits
      requires numDigits <= digits.Length
    {
      Val(digits[..numDigits])
    }

    ghost function FracDigits(): int
      reads this
    {
      numDigits - decimalPoint
    }

    ghost predicate NoLeadingZero()
      reads this, digits
    {
      0 < numDigits <= digits.Length && digits[0] > ZERO
    }

    constructor ()
      ensures digits.Length == DIGITS_CAP && fresh(digits) && numDigits == 0 && decimalPoint == 0
    {
      digits := new Byte[DIGITS_CAP];
      numDigits, decimalPoint := 0, 0;
      isNeg, isInf, isNan := false, false, false;
    }

    /** Writes an integer's digits, through a temporary buffer that holds them in reverse. */
    method WriteInteger(value: nat)
      requires digits.Length == DIGITS_CAP && numDigits == 0 && 0 < value < TWO64
      modifies this`numDigits, digits
      ensures NoLeadingZero() && numDigits <= 20 && AllDigits(digits[..numDigits]) && Number() == value
    {
      hide Scale, Val, Reversed, Pow;
      var tmp := new Byte[PRINT_MAX_NUM_DIGITS];
      var len, v := 1, value / 10;
      tmp[0] := ZERO + value % 10;
      ReversedOne(tmp[..1], value);
      while v > 0
        invariant 1 <= len <= 20 && v >= 0 && numDigits == 0
        invariant forall k :: 0 <= k < len ==> IsDigit(tmp[k])
        invariant v == 0 ==> tmp[len - 1] > ZERO
        invariant Reversed(tmp[..len]) + Scale(v, len) == value && Reversed(tmp[..len]) >= 0
        decreases v
      {
        DigitsOfWord(v, len, Reversed(tmp[..len]));
        ghost var low := tmp[..len];
        tmp[len] := ZERO + v % 10;
        assert tmp[..len + 1] == low + [ZERO + v % 10];
        ReversedStep(low, v);
        len, v := len + 1, v / 10;
      }
      CopyReversed(tmp, len, value);
    }

    /** Copies the temporary digits in the opposite order. */
    method CopyReversed(tmp: array<Byte>, len: nat, ghost value: nat)
      requires digits.Length == DIGITS_CAP && numDigits == 0 && 1 <= len <= 20 && len <= tmp.Length && tmp != digits
      requires AllDigits(tmp[..len]) && tmp[len - 1] > ZERO && Reversed(tmp[..len]) + Scale(0, len) == value
      modifies this`numDigits, digits
      ensures NoLeadingZero() && numDigits <= 20 && AllDigits(digits[..numDigits]) && Number() == value
    {
      hide Scale, Val, Reversed, Pow;
      var i := len - 1;
      ghost var t := tmp[..len];
      assert t[..len] == t;
      ReversedStart(t, len);
      assert digits[..0] == [];
      while i >= 0
        invariant -1 <= i < len && numDigits == len - 1 - i && tmp[..len] == t
        invariant forall k :: 0 <= k < numDigits ==> digits[k] == t[len - 1 - k]
        invariant Scale(Val(digits[..numDigits]), i + 1) + Reversed(t[..i + 1]) == value
      {
        ghost var high := digits[..numDigits];
        digits[numDigits] := tmp[i];
        numDigits := numDigits + 1;
        assert digits[..numDigits] == high + [t[i]];
        CopyStep(high, t, i);
        i := i - 1;
      }
      CopyEnd(t, Val(digits[..numDigits]));
    }

    /** Doubles the number in place, from its last digit to its first. */
    method Double()
      requires Valid() && NoLeadingZero() && numDigits + 1 < DIGITS_CAP
      modifies this`numDigits, digits
      ensures numDigits <= old(numDigits) + 1 && numDigits < DIGITS_CAP && digits.Length == DIGITS_CAP
      ensures AllDigits(digits[..numDigits]) && NoLeadingZero()
      ensures Number() == 2 * old(Number())
    {
      hide Scale, Val, Pow;
      var addDigit := digits[0] >= ZERO + 5;
      var shift := if addDigit then 1 else 0;
      var carry := 0;
      ghost var s, n := digits[..numDigits], numDigits;
      var i := numDigits;
      DoubleStart(s[n..], digits[n + shift..n + shift]);
      while i > 0
        invariant 0 <= i <= n && 0 <= carry <= 1 && numDigits == n
        invariant forall k :: 0 <= k < i ==> digits[k] == s[k]
        invariant AllDigits(digits[i + shift..n + shift])
        invariant 2 * Val(s[i..]) == Scale(carry, n - i) + Val(digits[i + shift..n + shift])
        invariant i == 0 ==> carry == shift && (!addDigit ==> digits[0] > ZERO)
      {
        i := i - 1;
        var x := carry + 2 * (digits[i] - ZERO);
        ghost var low := digits[i + 1 + shift..n + shift];
        DoubleStep(s, i, carry, x, low);
        carry := x / 10;
        digits[i + shift] := x % 10 + ZERO;
        assert digits[i + shift..n + shift] == [x % 10 + ZERO] + low;
      }
      assert s[0..] == s;
      if addDigit {
        LeadingOne();
      } else {
        assert digits[0..n] == digits[..n];
        NoCarry(n);
      }
    }

    /** The carry becomes the first digit. */
    method LeadingOne()
      requires 0 < numDigits && numDigits + 1 < DIGITS_CAP == digits.Length && AllDigits(digits[1..numDigits + 1])
      modifies this`numDigits, digits
      ensures numDigits == old(numDigits) + 1 && digits.Length == DIGITS_CAP && digits[0] == ZERO + 1 &&
        AllDigits(digits[..numDigits])
      ensures Val(digits[..numDigits]) == Scale(1, old(numDigits)) + Val(old(digits[1..numDigits + 1]))
    {
      hide Scale, Val, Pow;
      ghost var low := digits[1..numDigits + 1];
      digits[0] := ZERO + 1;
      numDigits := numDigits + 1;
      assert digits[..numDigits] == [ZERO + 1] + low;
      ValAppend([ZERO + 1], low);
      ValOne(ZERO + 1);
    }

    /** Halves the number in place, from its first digit to its last; an odd number gets a fractional digit first.
        The remainder that is left over is zero. */
    method Halve()
      requires Valid() && NoLeadingZero() && numDigits + 1 < DIGITS_CAP
      modifies this`numDigits, this`decimalPoint, digits
      ensures numDigits <= old(numDigits) + 1 && numDigits < DIGITS_CAP && digits.Length == DIGITS_CAP
      ensures AllDigits(digits[..numDigits]) && NoLeadingZero() && decimalPoint <= numDigits
      ensures FracDigits() == old(FracDigits()) + old(Number()) % 2
      ensures 2 * Number() == old(Number()) * (if old(Number()) % 2 == 0 then 1 else 10)
    {
      hide Scale, Val, Pow;
      ghost var s0 := digits[..numDigits];
      ValParity(s0);
      if digits[numDigits - 1] % 2 != 0 {
        digits[numDigits] := ZERO;
        numDigits := numDigits + 1;
        assert digits[..numDigits] == s0 + [ZERO];
        ValPush(s0, ZERO);
      }
      var readDelta, prevRem := 0, 0;
      if digits[0] < ZERO + 2 {
        readDelta := 1;
        prevRem := digits[0] - ZERO;
        numDigits := numDigits - 1;
        decimalPoint := decimalPoint - 1;
      }
      var rem := DivideByTwo(readDelta, prevRem);
    }

    /** Divides digits [0, numDigits + readDelta) by two, from left to right, reading readDelta places
        ahead of where it writes. */
    method DivideByTwo(readDelta: nat, firstRem: int) returns (prevRem: int)
      requires digits.Length == DIGITS_CAP && 0 < numDigits && numDigits + readDelta < DIGITS_CAP && readDelta <= 1
      requires AllDigits(digits[..numDigits + readDelta]) && digits[0] > ZERO
      requires if readDelta == 1 then firstRem == 1 && digits[0] == ZERO + 1 else firstRem == 0 && digits[0] >= ZERO + 2
      requires digits[numDigits + readDelta - 1] % 2 == 0
      modifies digits
      ensures AllDigits(digits[..numDigits]) && NoLeadingZero() && prevRem == 0
      ensures 2 * Number() == Val(old(digits[..numDigits + readDelta]))
    {
      hide Val, Pow;
      ghost var s, n := digits[..numDigits + readDelta], numDigits + readDelta;
      prevRem := firstRem;
      assert s[..0] == [] && digits[..0] == [];
      ValUpTo(s, 0);
      ValEmpty();
      var i := 0;
      while i < numDigits
        invariant 0 <= i <= numDigits && 0 <= prevRem <= 1
        invariant forall k :: i + readDelta <= k < n ==> digits[k] == s[k]
        invariant AllDigits(digits[..i]) && (i > 0 ==> digits[0] > ZERO && prevRem == s[i + readDelta - 1] % 2)
        invariant i == 0 ==> prevRem == firstRem
        invariant Val(s[..i + readDelta]) == 2 * Val(digits[..i]) + prevRem
      {
        var x := prevRem * 10 + (digits[i + readDelta] - ZERO);
        ghost var high := digits[..i];
        assert IsDigit(s[i + readDelta]);
        digits[i] := x / 2 + ZERO;
        prevRem := x % 2;
        ValUpTo(s, i + readDelta);
        assert digits[..i + 1] == high + [digits[i]];
        ValPush(high, digits[i]);
        i := i + 1;
      }
      assert s[..n] == s;
    }

    /** Multiplies by two e times. */
    method DoubleTimes(e: nat, ghost f: nat)
      requires Valid() && NoLeadingZero() && Number() == f && f < TWO64 && e <= 960 && decimalPoint == 0
      modifies this`numDigits, digits
      ensures digits.Length == DIGITS_CAP && numDigits <= MAX_INT_DIGITS
      ensures AllDigits(digits[..numDigits]) && NoLeadingZero() && Number() == f * Pow(2, e)
    {
      hide Val, Pow;
      ghost var k := 0;
      var left := e;
      TimesPowZero(f);
      while left > 0
        invariant k + left == e && digits.Length == DIGITS_CAP && numDigits < DIGITS_CAP
        invariant AllDigits(digits[..numDigits]) && NoLeadingZero() && Number() == f * Pow(2, k)
        decreases left
      {
        IntDigitsBound(digits[..numDigits], f, k);
        Double();
        TimesPowNext(f, k);
        left, k := left - 1, k + 1;
      }
      IntDigitsBound(digits[..numDigits], f, k);
    }

    /** Divides by two e times. */
    method HalveTimes(e: nat, ghost f: nat)
      requires Valid() && NoLeadingZero() && Number() == f && f < TWO64 && e <= 1140 && decimalPoint == numDigits
      requires e == 0 ==> numDigits <= MAX_DIGITS
      modifies this`numDigits, this`decimalPoint, digits
      ensures digits.Length == DIGITS_CAP && numDigits <= MAX_DIGITS && decimalPoint <= numDigits
      ensures AllDigits(digits[..numDigits]) && NoLeadingZero()
      ensures Number() * Pow(2, e) == f * Pow(10, FracDigits())
    {
      hide Val, Pow;
      ghost var k := 0;
      var left := e;
      TimesPowZero(f);
      TimesPowZero(Number());
      FracDigitsBound(digits[..numDigits], f, 0, 0);
      while left > 0
        invariant k + left == e && digits.Length == DIGITS_CAP && numDigits <= MAX_DIGITS
        invariant AllDigits(digits[..numDigits]) && NoLeadingZero() && 0 <= FracDigits() <= k
        invariant Number() * Pow(2, k) == f * Pow(10, FracDigits())
        decreases left
      {
        ghost var n, fd := Number(), FracDigits();
        Halve();
        HalfNext(n, Number(), f, k, fd);
        left, k := left - 1, k + 1;
        FracDigitsBound(digits[..numDigits], f, k, FracDigits());
      }
    }

    /** Converts a double: flags for sign, infinity and NaN, and for a finite number digits that denote
        exactly its absolute value, with room to spare in the buffer. */
    method F64ToStr(bits: Word)
      requires digits.Length == DIGITS_CAP
      modifies this, digits
      ensures Valid() && numDigits <= MAX_DIGITS
      ensures isNeg == (SignBit(bits) == 1)
      ensures isInf == (!IsFinite(bits) && Fraction(bits) == 0) && isNan == (!IsFinite(bits) && Fraction(bits) != 0)
      ensures !IsFinite(bits) ==> numDigits == 0
      ensures IsFinite(bits) ==> numDigits > 0 && Denotes(Number(), FracDigits(), Significand(bits), Exponent(bits))
      ensures IsFinite(bits) ==> if Magnitude(bits) > 0 then NoLeadingZero() else FracDigits() == 0
    {
      hide Val, Pow, Denotes;
      numDigits, decimalPoint := 0, 0;
      isNeg, isInf, isNan := false, false, false;
      var fbits: Word := bits;
      if bits / TWO63 != 0 {
        fbits := bits - TWO63;
        isNeg := true;
      }
      EncodingOf(bits, fbits);
      if fbits == 0 {
        numDigits := 1;
        digits[0] := ZERO;
        decimalPoint := 1;
        assert digits[..1] == [ZERO];
        ValOne(ZERO);
        DenotesZero(Exponent(bits));
        return;
      }
      if fbits / TWO52 == 0x7FF {
        isNan := Fraction(fbits) != 0;
        isInf := !isNan;
        return;
      }
      WriteFinite(CustomFPFromF64(fbits));
    }

    method WriteFinite(raw: CustomFP)
      requires digits.Length == DIGITS_CAP && numDigits == 0 && decimalPoint == 0
      requires 0 < raw.f < 2 * TWO52 && -1074 <= raw.e <= 971
      modifies this`numDigits, this`decimalPoint, digits
      ensures Valid() && numDigits <= MAX_DIGITS && NoLeadingZero()
      ensures Denotes(Number(), FracDigits(), raw.f, raw.e)
    {
      hide Val, Pow, Denotes;
      var fp := CustomFPNorm(raw);
      WriteInteger(fp.f);
      var e := fp.e;
      if e > 0 {
        ShiftedEnough(raw.f, raw.e - e);
        DoubleTimes(e, fp.f);
        decimalPoint := numDigits;
        DenotesDoubled(Number(), raw, fp);
      } else {
        decimalPoint := numDigits;
        HalveTimes(-e, fp.f);
        DenotesHalved(Number(), FracDigits(), raw, fp);
      }
      ghost var before := digits[..numDigits];
      digits[numDigits] := 0;
      assert digits[..numDigits] == before;
    }

    /** Whether a digit after the round digit is not zero. */
    method HasNonzeroDigit(roundDigit: nat) returns (r: bool)
      requires Valid() && roundDigit < numDigits
      ensures r <==> exists k :: roundDigit < k < numDigits && digits[k] != ZERO
    {
      var i := roundDigit + 1;
      while i < numDigits
        invariant roundDigit < i <= numDigits
        invariant forall k :: roundDigit < k < i ==> digits[k] == ZERO
      {
        assert IsDigit(digits[..numDigits][i]);
        if ZERO < digits[i] <= ZERO + 9 {
          return true;
        }
        i := i + 1;
      }
      r := false;
    }

    /** Whether the digits before the round digit are to be incremented.  `before` is the byte that lies in
        front of the buffer, which is what is read when the round digit is the first one. */
    method RoundsUp(roundDigit: nat, before: Byte) returns (up: bool)
      requires Valid() && roundDigit < numDigits
      ensures roundDigit >= 1 ==> up == IsRoundedUp(digits[..numDigits], roundDigit)
    {
      hide Val, Pow;
      ghost var s := digits[..numDigits];
      assert IsDigit(s[roundDigit]);
      if digits[roundDigit] > ZERO + 5 {
        return true;
      }
      if digits[roundDigit] != ZERO + 5 {
        return false;
      }
      var prev := if roundDigit == 0 then before else digits[roundDigit - 1];
      var more := HasNonzeroDigit(roundDigit);
      up := prev % 2 == 1 || more;
      ValZeroIff(s[roundDigit + 1..]);
      if more {
        var k :| roundDigit < k < numDigits && digits[k] != ZERO;
        assert s[roundDigit + 1..][k - roundDigit - 1] != ZERO;
      }
      if roundDigit >= 1 {
        ValParity(s[..roundDigit]);
      }
    }

    /** Adds one to the digits before the round digit: turns trailing nines to zeros and increments the digit
        in front of them, or lengthens the integer part. */
    method Increment(roundDigit: nat)
      requires Valid() && roundDigit < numDigits
      modifies this`numDigits, this`decimalPoint, digits
      ensures numDigits - old(numDigits) == decimalPoint - old(decimalPoint) &&
        old(numDigits) <= numDigits <= old(numDigits) + 1
      ensures roundDigit == 0 ==> numDigits == old(numDigits) + 1 && digits[0] == ZERO
      ensures var n := roundDigit + (numDigits - old(numDigits));
        roundDigit >= 1 ==>
          AllDigits(digits[..n]) && Val(digits[..n]) == Val(old(digits[..numDigits])[..roundDigit]) + 1
      ensures roundDigit >= 1 && old(digits[0]) > ZERO ==> digits[0] > ZERO
    {
      hide Val, Pow;
      ghost var s := digits[..numDigits];
      var i := roundDigit - 1;
      while i >= 0 && digits[i] == ZERO + 9
        invariant -1 <= i < roundDigit < numDigits == |s|
        invariant forall k :: 0 <= k <= i ==> digits[k] == s[k]
        invariant forall k :: i < k < roundDigit ==> digits[k] == ZERO && s[k] == ZERO + 9
        invariant decimalPoint == old(decimalPoint)
      {
        digits[i] := ZERO;
        i := i - 1;
      }
      if i >= 0 {
        assert IsDigit(s[i]);
        digits[i] := digits[i] + 1;
        CarryStops(s[..roundDigit], digits[..roundDigit], i);
      } else {
        digits[0] := ZERO + 1;
        digits[roundDigit] := ZERO;
        decimalPoint := decimalPoint + 1;
        numDigits := numDigits + 1;
        if roundDigit >= 1 {
          CarriesOut(s[..roundDigit], digits[..roundDigit + 1]);
        }
      }
    }

    /** Rounds to the given number of fractional digits, ties to even. */
    method F64StrRound(precision: nat, before: Byte)
      requires Valid() && decimalPoint + precision < 0x8000_0000
      modifies this`numDigits, this`decimalPoint, digits
      ensures Valid()
      ensures old(FracDigits()) <= precision ==>
        numDigits == old(numDigits) && decimalPoint == old(decimalPoint) && Number() == old(Number())
      ensures old(FracDigits()) > precision && old(decimalPoint) + precision >= 1 ==>
        FracDigits() == precision && (old(NoLeadingZero()) ==> NoLeadingZero())
      ensures old(FracDigits()) > precision ==>
        FracDigits() <= precision && (old(decimalPoint) + precision >= 1 || Number() == 0)
      ensures old(FracDigits()) > precision ==>
        (RoundsHalfEven(old(Number()), Pow(10, old(FracDigits()) - precision), Number()) <==>
         old(decimalPoint) + precision >= 1 || 2 * old(Number()) <= Pow(10, old(FracDigits()) - precision))
    {
      hide Val, Pow, RoundsHalfEven;
      ghost var s, fd := digits[..numDigits], FracDigits();
      ValBounds(s);
      var totFracDigits := Max0(numDigits - decimalPoint);
      var roundDigit := decimalPoint + precision;
      if roundDigit < 0 {
        numDigits := if precision + 1 < DIGITS_CAP - 1 then precision + 1 else DIGITS_CAP - 1;
        decimalPoint := 1;
        FillZeros();
        ValZeros(digits[..numDigits]);
        RoundsToZero(Val(s), Pow(10, fd - precision));
      } else if totFracDigits > 0 && roundDigit < numDigits {
        // The fractional digits are more than the precision here.
        var up := RoundsUp(roundDigit, before);
        if up {
          Increment(roundDigit);
        }
        numDigits := numDigits - (totFracDigits - precision);
        if !up {
          assert digits[..numDigits] == s[..roundDigit];
          if roundDigit == 0 { assert s[..0] == []; }
        }
        RoundedNumber(s, digits[..numDigits], roundDigit, up);
      }
      ghost var t := digits[..numDigits];
      digits[numDigits] := 0;
      assert digits[..numDigits] == t;
    }

    /** The digits printed for a finite double x at a precision p: they are |x| * 10^p rounded half to even,
        except exactly for the doubles with 1/2 < |x| * 10^p < 1, for which zero is printed. */
    method Format(bits: Word, precision: nat, before: Byte)
      requires digits.Length == DIGITS_CAP && IsFinite(bits) && precision < 0x4000_0000
      modifies this, digits
      ensures Valid() && isNeg == (SignBit(bits) == 1) && FracDigits() <= precision
      ensures RoundsHalfEven(Scaled(bits, precision), Unit(bits), Scale(Number(), precision - FracDigits())) <==>
        Scaled(bits, precision) >= Unit(bits) || 2 * Scaled(bits, precision) <= Unit(bits)
      ensures Scaled(bits, precision) >= Unit(bits) || 2 * Scaled(bits, precision) <= Unit(bits) ==>
        forall r: int :: RoundsHalfEven(Scaled(bits, precision), Unit(bits), r) ==>
          r == Scale(Number(), precision - FracDigits())
      ensures !(Scaled(bits, precision) >= Unit(bits) || 2 * Scaled(bits, precision) <= Unit(bits)) ==> Number() == 0
    {
      hide Val, Pow, RoundsHalfEven, Denotes, Scaled, Unit, Scale;
      F64ToStr(bits);
      ghost var s, fd, dp := digits[..numDigits], FracDigits(), decimalPoint;
      ValBounds(s);
      F64StrRound(precision, before);
      if fd <= precision {
        ExactAtPrecision(Val(s), fd, bits, precision);
      } else {
        RoundedAtPrecision(s, fd, dp, bits, precision, Number());
        ScaleZero(Number());
        ZeroScales(precision - FracDigits());
      }
      ghost var n := Scale(Number(), precision - FracDigits());
      forall r: int | RoundsHalfEven(Scaled(bits, precision), Unit(bits), r) &&
        RoundsHalfEven(Scaled(bits, precision), Unit(bits), n)
        ensures r == n
      {
        RoundsOnce(Scaled(bits, precision), Unit(bits), r, n);
      }
    }

    method FillZeros()
      requires digits.Length == DIGITS_CAP && numDigits < DIGITS_CAP
      modifies digits
      ensures forall k :: 0 <= k < numDigits ==> digits[k] == ZERO
    {
      var i := 0;
      while i < numDigits
        invariant 0 <= i <= numDigits && forall k :: 0 <= k < i ==> digits[k] == ZERO
      {
        digits[i] := ZERO;
        i := i + 1;
      }
    }
  }

  /** |x| * 10^p is Scaled / Unit. */
  function Scaled(bits: Word, p: nat): nat {
    Significand(bits) * Pow(2, Max0(Exponent(bits))) * Pow(10, p)
  }

  function Unit(bits: Word): (r: nat)
    ensures r > 0
  {
    Pow(2, Max0(-Exponent(bits)))
  }

  lemma ZeroScales(n: nat)
    ensures Scale(0, n) == 0
  {
  }

  /** An integer number of units needs no rounding. */
  lemma ExactAtPrecision(n: nat, fd: nat, bits: Word, p: nat)
    requires fd <= p && Denotes(n, fd, Significand(bits), Exponent(bits))
    ensures RoundsHalfEven(Scaled(bits, p), Unit(bits), Scale(n, p - fd))
    ensures Scaled(bits, p) >= Unit(bits) || 2 * Scaled(bits, p) <= Unit(bits)
  {
    hide Pow;
    var a := Significand(bits) * Pow(2, Max0(Exponent(bits)));
    var t := Pow(10, p - fd);
    PowAdd(10, fd, p - fd);
    var r := Scale(n, p - fd);
    assert a * (Pow(10, fd) * t) == (a * Pow(10, fd)) * t;
    assert (n * Unit(bits)) * t == (n * t) * Unit(bits);
    assert Scaled(bits, p) == r * Unit(bits);
    if r >= 1 { MulMono(1, r, Unit(bits)); }
  }

  /** Rounding the digits is rounding the number; and the round digit is past the first digit exactly when
      the number is at least one unit. */
  lemma RoundedAtPrecision(s: seq<Byte>, fd: nat, dp: int, bits: Word, p: nat, r: int)
    requires fd > p && AllDigits(s) && s != [] && s[0] > ZERO && dp == |s| - fd
    requires Denotes(Val(s), fd, Significand(bits), Exponent(bits))
    ensures RoundsHalfEven(Val(s), Pow(10, fd - p), r) <==> RoundsHalfEven(Scaled(bits, p), Unit(bits), r)
    ensures dp + p >= 1 <==> Scaled(bits, p) >= Unit(bits)
    ensures 2 * Val(s) <= Pow(10, fd - p) <==> 2 * Scaled(bits, p) <= Unit(bits)
  {
    hide Pow, RoundsHalfEven, Val;
    var n, m, u, x := Val(s), Pow(10, fd - p), Unit(bits), Scaled(bits, p);
    ValBounds(s);
    PowAdd(10, p, fd - p);
    var a := Significand(bits) * Pow(2, Max0(Exponent(bits)));
    assert a * (Pow(10, p) * m) == (a * Pow(10, p)) * m;
    assert n * u == x * m;
    RoundsScaled(n, m, r, u);
    RoundsScaled(x, u, r, m);
    assert m * u == u * m;
    CompareScaled(n, m, x, u);
    ValLeading(s);
    if dp + p >= 1 {
      PowMono(10, fd - p, |s| - 1);
    } else {
      PowMono(10, |s|, fd - p);
    }
  }

  lemma CompareScaled(n: nat, m: nat, x: nat, u: nat)
    requires m > 0 && u > 0 && n * u == x * m
    ensures n >= m <==> x >= u
    ensures 2 * n <= m <==> 2 * x <= u
  {
    assert m * u == u * m;
    assert (n - m) * u == n * u - m * u && (x - u) * m == x * m - u * m;
    SignScaled(n - m, u);
    SignScaled(x - u, m);
    assert (m - 2 * n) * u == m * u - 2 * (n * u) && (u - 2 * x) * m == u * m - 2 * (x * m);
    SignScaled(m - 2 * n, u);
    SignScaled(u - 2 * x, m);
  }

  /** The double 0.75 at precision 0 is one that Format does not round right: one is the only rounding, and it is
      between a half and one. */
  lemma FirstDigitNotRounded(bits: Word)
    requires bits == 0x3FE8_0000_0000_0000
    ensures IsFinite(bits) && 4 * Scaled(bits, 0) == 3 * Unit(bits) &&
      Scaled(bits, 0) < Unit(bits) < 2 * Scaled(bits, 0)
    ensures forall r: int :: RoundsHalfEven(Scaled(bits, 0), Unit(bits), r) <==> r == 1
  {
    assert Significand(bits) == 3 * 0x8_0000_0000_0000 && Exponent(bits) == -53;
    assert Pow(2, 0) == 1 && Pow(10, 0) == 1;
    PowOfTwo();
    hide Pow;
    assert RoundsHalfEven(Scaled(bits, 0), Unit(bits), 1);
    forall r: int | RoundsHalfEven(Scaled(bits, 0), Unit(bits), r) ensures r == 1 {
      RoundsOnce(Scaled(bits, 0), Unit(bits), r, 1);
    }
  }

  /** The rounding rule of the digits: up past the middle, and at the middle when the last kept digit is odd. */
  predicate IsRoundedUp(s: seq<Byte>, rd: nat)
    requires rd < |s|
  {
    s[rd] > ZERO + 5 || (s[rd] == ZERO + 5 && (Val(s[..rd]) % 2 == 1 || Val(s[rd + 1..]) != 0))
  }

  /** The rule of the digits is rounding half to even of the number. */
  lemma RoundingRule(s: seq<Byte>, rd: nat)
    requires AllDigits(s) && rd < |s|
    ensures Val(s) >= 0
    ensures RoundsHalfEven(Val(s), Pow(10, |s| - rd), Val(s[..rd]) + (if IsRoundedUp(s, rd) then 1 else 0))
  {
    hide Val, Pow;
    var q := |s| - rd;
    var t := Pow(10, q - 1);
    ValBounds(s);
    ValBounds(s[..rd]);
    ValBounds(s[rd + 1..]);
    assert AllDigits(s[..rd]) && AllDigits(s[rd + 1..]);
    ValSplit(s, rd);
    ValFrom(s, rd);
    TenTimes(q);
    RoundingArith(Val(s[..rd]), DigitOf(s[rd]), Val(s[rd + 1..]), t, Val(s), IsRoundedUp(s, rd));
  }

  lemma TenTimes(q: nat)
    requires q > 0
    ensures Pow(10, q) == 10 * Pow(10, q - 1)
    ensures forall a: int :: Scale(a, q) == a * Pow(10, q) && Scale(a, q - 1) == a * Pow(10, q - 1)
  {
  }

  lemma RoundingArith(p: nat, c: nat, rest: nat, t: nat, n: nat, up: bool)
    requires c <= 9 && rest < t && n == p * (10 * t) + (c * t + rest)
    requires up == (c > 5 || (c == 5 && (p % 2 == 1 || rest != 0)))
    ensures RoundsHalfEven(n, 10 * t, p + (if up then 1 else 0))
  {
    var rem := c * t + rest;
    if c < 5 { MulMono(c, 4, t); }
    if c > 5 { MulMono(6, c, t); }
    if up {
      assert (p + 1) * (10 * t) == p * (10 * t) + 10 * t;
      MulMono(c, 9, t);
    }
  }

  lemma CarryStops(s: seq<Byte>, d: seq<Byte>, i: nat)
    requires i < |s| == |d| && AllDigits(s) && s[i] != ZERO + 9
    requires d[..i] == s[..i] && d[i] == s[i] + 1
    requires forall k :: i < k < |s| ==> d[k] == ZERO && s[k] == ZERO + 9
    ensures AllDigits(d) && Val(d) == Val(s) + 1
  {
    hide Val, Pow, Scale;
    ValSplit(s, i + 1);
    ValSplit(d, i + 1);
    ValUpTo(s, i);
    ValUpTo(d, i);
    ValNines(s[i + 1..]);
    ValZeros(d[i + 1..]);
    assert IsDigit(s[i]);
    assert AllDigits(d) by {
      forall k | 0 <= k < |d| ensures IsDigit(d[k]) {
        assert IsDigit(s[k]);
        if k < i { assert d[..i][k] == s[..i][k]; }
      }
    }
    var m := |s| - i - 1;
    ScaleSum(Val(s[..i + 1]), 1, m);
    ScaleOne(m);
  }

  lemma ScaleOne(n: nat)
    ensures Scale(1, n) == Pow(10, n)
  {
  }

  lemma CarriesOut(s: seq<Byte>, d: seq<Byte>)
    requires |d| == |s| + 1 && d[0] == ZERO + 1
    requires forall k :: 0 <= k < |s| ==> s[k] == ZERO + 9
    requires forall k :: 1 <= k < |d| ==> d[k] == ZERO
    ensures AllDigits(d) && Val(d) == Val(s) + 1
  {
    hide Val, Pow, Scale;
    ValNines(s);
    ValZeros(d[1..]);
    assert d == [ZERO + 1] + d[1..];
    ValAppend([ZERO + 1], d[1..]);
    ValOne(ZERO + 1);
    ScaleOne(|s|);
  }

  /** What the kept digits are, against the exact value. */
  lemma RoundedNumber(s: seq<Byte>, d: seq<Byte>, rd: nat, up: bool)
    requires AllDigits(s) && rd < |s|
    requires rd >= 1 ==> up == IsRoundedUp(s, rd)
    requires rd >= 1 ==> Val(d) == Val(s[..rd]) + (if up then 1 else 0)
    requires rd == 0 ==> d == if up then [ZERO] else []
    ensures Val(s) >= 0
    ensures RoundsHalfEven(Val(s), Pow(10, |s| - rd), Val(d)) <==> rd >= 1 || 2 * Val(s) <= Pow(10, |s| - rd)
    ensures rd == 0 ==> Val(d) == 0
  {
    ValBounds(s);
    if rd >= 1 {
      RoundingRule(s, rd);
    } else {
      ValOne(ZERO);
      RoundsToZero(Val(s), Pow(10, |s|));
    }
  }

  lemma EncodingOf(bits: Word, fbits: Word)
    requires fbits == if bits / TWO63 != 0 then bits - TWO63 else bits
    ensures SignBit(bits) == (if bits / TWO63 != 0 then 1 else 0)
    ensures fbits == Magnitude(bits) == Magnitude(fbits) && fbits / TWO52 == BiasedExp(bits) == BiasedExp(fbits)
    ensures Fraction(fbits) == Fraction(bits) && BiasedExp(bits) <= 0x7FF && Fraction(bits) < TWO52
    ensures fbits == BiasedExp(bits) * TWO52 + Fraction(bits)
    ensures CustomFPFromF64(fbits) == CustomFP(Significand(bits), Exponent(bits))
    ensures fbits == 0 <==> Significand(bits) == 0
    ensures IsFinite(bits) ==> Significand(bits) < 2 * TWO52 && -1074 <= Exponent(bits) <= 971
  {
    assert TWO63 == 2048 * TWO52;
    assert fbits / TWO63 == 0;
    assert fbits % TWO52 == bits % TWO52 by {
      if bits / TWO63 != 0 { assert bits == fbits + 2048 * TWO52; }
    }
  }

  /** A 53-bit significand is shifted by at least eleven places. */
  lemma ShiftedEnough(f: nat, n: nat)
    requires f < 2 * TWO52 && f * Pow(2, n) >= TWO63
    ensures n >= 11
  {
    PowOfTwo();
    hide Pow;
    assert 1024 * (2 * TWO52) == TWO63;
    assert Pow(2, 10) * f < TWO63;
    MulLt(Pow(2, 10), Pow(2, n), f);
    PowLess(2, 10, n);
  }

  lemma PowOfTwo()
    ensures Pow(2, 10) == 1024 && Pow(2, 53) == 4 * 0x8_0000_0000_0000
  {
    assert Pow(2, 5) == 32 && Pow(2, 3) == 8;
    hide Pow;
    PowAdd(2, 5, 5);
    PowAdd(2, 10, 10);
    PowAdd(2, 20, 20);
    PowAdd(2, 40, 10);
    PowAdd(2, 50, 3);
  }

  lemma HalfNext(n: nat, m: nat, f: nat, k: nat, fd: nat)
    requires n * Pow(2, k) == f * Pow(10, fd)
    requires 2 * m == n * (if n % 2 == 0 then 1 else 10)
    ensures m * Pow(2, k + 1) == f * Pow(10, fd + n % 2)
  {
    var p, t := Pow(2, k), Pow(10, fd);
    assert m * (2 * p) == (2 * m) * p;
    if n % 2 == 0 {
      assert m * (2 * p) == n * p;
    } else {
      assert n % 2 == 1;
      assert (n * 10) * p == 10 * (n * p);
      assert f * (10 * t) == 10 * (f * t);
    }
  }

  lemma DenotesZero(e: int)
    ensures Denotes(0, 0, 0, e)
  {
  }

  lemma DenotesDoubled(n: nat, x: CustomFP, y: CustomFP)
    requires y.e > 0 && y.e <= x.e && y.f == x.f * Pow(2, x.e - y.e) && n == y.f * Pow(2, y.e)
    ensures Denotes(n, 0, x.f, x.e)
  {
    PowAdd(2, x.e - y.e, y.e);
    assert x.f * (Pow(2, x.e - y.e) * Pow(2, y.e)) == (x.f * Pow(2, x.e - y.e)) * Pow(2, y.e);
    assert Pow(2, 0) == 1 && Pow(10, 0) == 1;
  }

  lemma DenotesHalved(n: nat, fd: nat, x: CustomFP, y: CustomFP)
    requires y.e <= 0 && y.e <= x.e && y.f == x.f * Pow(2, x.e - y.e)
    requires n * Pow(2, -y.e) == y.f * Pow(10, fd)
    ensures Denotes(n, fd, x.f, x.e)
  {
    hide Pow;
    var t := Pow(10, fd);
    if x.e <= 0 {
      // 2^-y.e == 2^(x.e - y.e) * 2^-x.e
      PowAdd(2, x.e - y.e, -x.e);
      var a, b := Pow(2, x.e - y.e), Pow(2, -x.e);
      PowZero();
      CancelLeft(n, a, b, x.f, t);
    } else {
      PowAdd(2, x.e, -y.e);
      var a, b := Pow(2, x.e), Pow(2, -y.e);
      PowZero();
      CancelRight(n, a, b, x.f, t);
    }
  }

  lemma PowZero()
    ensures Pow(2, 0) == 1 && Pow(10, 0) == 1
  {
  }

  lemma CancelLeft(n: nat, a: nat, b: nat, f: nat, t: nat)
    requires a > 0 && n * (a * b) == (f * a) * t
    ensures n * b == f * 1 * t
  {
    assert n * (a * b) == (n * b) * a;
    assert (f * a) * t == (f * t) * a;
    MulCancel(n * b, f * t, a);
  }

  lemma CancelRight(n: nat, a: nat, b: nat, f: nat, t: nat)
    requires b > 0 && n * b == (f * (a * b)) * t
    ensures n * 1 == f * a * t
  {
    assert (f * (a * b)) * t == (f * a * t) * b by {
      assert f * (a * b) == (f * a) * b;
      assert ((f * a) * b) * t == ((f * a) * t) * b;
    }
    MulCancel(n, f * a * t, b);
  }

  /** Digits of the largest integer part, and of the longest string that halving leaves. */
  const MAX_INT_DIGITS: nat := 316
  const MAX_DIGITS: nat := 818

  lemma TimesPowZero(f: nat)
    ensures f * Pow(2, 0) == f && f * Pow(10, 0) == f
  {
  }

  lemma TimesPowNext(f: nat, k: nat)
    ensures f * Pow(2, k + 1) == 2 * (f * Pow(2, k))
  {
  }

  /** A number below a power of ten has no more digits than that. */
  lemma DigitsBound(s: seq<Byte>, n: nat)
    requires AllDigits(s) && s != [] && s[0] > ZERO && Val(s) < Pow(10, n)
    ensures |s| <= n
  {
    ValLeading(s);
    PowLess(10, |s| - 1, n);
  }

  lemma WordBelow()
    ensures TWO64 < Pow(10, 20)
  {
    PowAdd(10, 10, 10);
    assert Pow(10, 10) == 10_000_000_000;
  }

  /** 2^1024 has no more than 316 digits: thirteen doublings never add more than four. */
  lemma IntDigitsBound(s: seq<Byte>, f: nat, k: nat)
    requires AllDigits(s) && s != [] && s[0] > ZERO && Val(s) == f * Pow(2, k) && f < TWO64 && k <= 960
    ensures |s| <= MAX_INT_DIGITS
  {
    hide Val;
    TwoTo64();
    PowMono(2, k, 963);
    MulMono(f, Pow(2, 64), Pow(2, k));
    MulMono(Pow(2, k), Pow(2, 963), Pow(2, 64));
    PowAdd(2, 64, 963);
    TwoPowBelow();
    assert f * Pow(2, k) <= Pow(2, 1027);
    DigitsBound(s, MAX_INT_DIGITS);
  }

  lemma TwoPowBelow()
    ensures Pow(2, 1027) < Pow(10, 316)
  {
    assert Pow(2, 13) == 8192;
    assert Pow(10, 4) == 10000;
    PowPow(2, 13, 79);
    PowPow(10, 4, 79);
    PowBaseMono(8192, 9999, 79);
    PowBaseLess(9999, 10000, 79);
  }

  lemma {:induction false} PowBaseLess(a: nat, b: nat, n: nat)
    requires a < b && n > 0
    ensures Pow(a, n) < Pow(b, n)
  {
    if n == 1 {
      assert Pow(a, 1) == a * Pow(a, 0) && Pow(b, 1) == b * Pow(b, 0);
    } else {
      PowBaseLess(a, b, n - 1);
      MulMono(a, b, Pow(a, n - 1));
      TimesLess(Pow(a, n - 1), Pow(b, n - 1), b);
    }
  }

  /** Halving k times multiplies the digits by five at most k times: with one digit for each halving the
      string would not fit, but its number is bounded by the significand times a power of five. */
  lemma FracDigitsBound(s: seq<Byte>, f: nat, k: nat, fd: nat)
    requires AllDigits(s) && s != [] && s[0] > ZERO && f < TWO64 && fd <= k <= 1140
    requires Val(s) * Pow(2, k) == f * Pow(10, fd)
    ensures |s| <= MAX_DIGITS
  {
    hide Val, Pow;
    ValBounds(s);
    FivesBound(Val(s), f, k, fd);
    PowMono(5, fd, 1140);
    MulMono(Pow(5, fd), Pow(5, 1140), f);
    FivePowBelow();
    MulMono(Pow(5, 1140), Pow(10, 798), f);
    WordBelow();
    MulMono(f, Pow(10, 20), Pow(10, 798));
    WordTimesBelow(f);
    DigitsBound(s, MAX_DIGITS);
  }

  lemma WordTimesBelow(f: nat)
    requires f < TWO64
    ensures f * Pow(10, 798) < Pow(10, 818)
  {
    hide Pow;
    WordBelow();
    PowAdd(10, 20, 798);
    TimesLess(f, Pow(10, 20), Pow(10, 798));
  }

  lemma TimesLess(a: nat, b: nat, c: nat)
    requires a < b && c > 0
    ensures a * c < b * c
  {
  }

  lemma FivesBound(n: nat, f: nat, k: nat, fd: nat)
    requires fd <= k && n * Pow(2, k) == f * Pow(10, fd)
    ensures n <= f * Pow(5, fd)
  {
    hide Pow;
    PowProduct(5, 2, fd);
    PowMono(2, fd, k);
    var x := f * Pow(5, fd);
    assert f * (Pow(5, fd) * Pow(2, fd)) == x * Pow(2, fd);
    assert x * Pow(2, fd) <= x * Pow(2, k) by { MulMono(Pow(2, fd), Pow(2, k), x); }
    if n > x { TimesLess(x, n, Pow(2, k)); }
  }

  lemma FivePowBelow()
    ensures Pow(5, 1140) <= Pow(10, 798)
  {
    assert Pow(5, 10) == 9765625;
    assert Pow(10, 7) == 10000000;
    PowPow(5, 10, 114);
    PowPow(10, 7, 114);
    PowBaseMono(9765625, 10000000, 114);
  }

  lemma ValEmpty()
    ensures Val([]) == 0
  {
  }

  lemma ValPush(s: seq<Byte>, c: Byte)
    ensures Val(s + [c]) == Val(s) * 10 + DigitOf(c)
  {
    assert (s + [c])[..|s|] == s;
  }

  lemma NoCarry(n: nat)
    ensures Scale(0, n) == 0
  {
  }

  lemma DoubleStart(s: seq<Byte>, t: seq<Byte>)
    requires s == [] && t == []
    ensures 2 * Val(s) == Scale(0, 0) + Val(t)
  {
  }

  /** One digit of doubling: digit and carry in, digit and carry out. */
  lemma DoubleStep(s: seq<Byte>, i: nat, carry: int, x: int, low: seq<Byte>)
    requires i < |s| && |low| == |s| - i - 1
    requires 0 <= carry <= 1 && IsDigit(s[i]) && x == carry + 2 * DigitOf(s[i])
    requires 2 * Val(s[i + 1..]) == Scale(carry, |s| - i - 1) + Val(low)
    ensures 0 <= x / 10 <= 1 && IsDigit(x % 10 + ZERO)
    ensures 2 * Val(s[i..]) == Scale(x / 10, |s| - i) + Val([x % 10 + ZERO] + low)
  {
    hide Scale, Val, Pow;
    var m := |s| - i - 1;
    var d := DigitOf(s[i]);
    ValFrom(s, i);
    ValAppend([x % 10 + ZERO], low);
    ValOne(x % 10 + ZERO);
    ScaleDigit(x / 10, x % 10, m);
    ScaleSum(carry, 2 * d, m);
    ScaleSum(d, d, m);
  }

  lemma ReversedOne(s: seq<Byte>, value: nat)
    requires s == [ZERO + value % 10]
    ensures Reversed(s) + Scale(value / 10, 1) == value && Reversed(s) >= 0
  {
    assert s[..0] == [];
    assert Pow(10, 1) == 10;
  }

  lemma ReversedSnoc(low: seq<Byte>, d: nat)
    requires d < 10
    ensures Reversed(low + [ZERO + d]) == Reversed(low) + Scale(d, |low|)
  {
    hide Scale;
    assert (low + [ZERO + d])[..|low|] == low;
  }

  lemma ReversedStep(low: seq<Byte>, v: nat)
    requires Reversed(low) >= 0
    ensures Reversed(low + [ZERO + v % 10]) + Scale(v / 10, |low| + 1) == Reversed(low) + Scale(v, |low|)
    ensures Reversed(low + [ZERO + v % 10]) >= 0
  {
    hide Scale, Pow, Reversed;
    ReversedSnoc(low, v % 10);
    ScaleDigit(v / 10, v % 10, |low|);
    ScaleNonNeg(v % 10, |low|);
  }

  lemma ReversedStart(t: seq<Byte>, len: nat)
    ensures Scale(0, len) == 0 && Scale(Val([]), len) + Reversed(t) == Reversed(t)
  {
  }

  lemma CopyStep(high: seq<Byte>, t: seq<Byte>, i: nat)
    requires i < |t|
    ensures Scale(Val(high + [t[i]]), i) + Reversed(t[..i]) == Scale(Val(high), i + 1) + Reversed(t[..i + 1])
  {
    assert t[..i + 1][..i] == t[..i];
    ValPush(high, t[i]);
    ScaleDigit(Val(high), DigitOf(t[i]), i);
  }

  lemma CopyEnd(t: seq<Byte>, n: int)
    ensures Scale(n, 0) + Reversed(t[..0]) == n
  {
  }

  lemma DigitsOfWord(v: nat, len: nat, low: int)
    requires v > 0 && low >= 0 && low + Scale(v, len) < TWO64
    ensures len < 20
  {
    if len >= 20 {
      PowMono(10, 20, len);
      PowAdd(10, 10, 10);
      assert Pow(10, 10) == 10_000_000_000;
      MulMono(1, v, Pow(10, len));
      assert false;
    }
  }

  /** The number whose digits are stored least significant first. */
  function Reversed(s: seq<Byte>): int {
    if s == [] then 0 else Reversed(s[..|s| - 1]) + Scale(DigitOf(s[|s| - 1]), |s| - 1)
  }
}
