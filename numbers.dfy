/** Decimal integers as Go reads and writes them on a 64-bit platform, where
    `int` is 64 bits wide: `strconv.Atoi` (the same function as
    `strconv.ParseInt(s, 10, 64)` there), `fmt`'s `%d`, and the zero-padded
    fields of `time.Format`. */
module Numbers {

  const MaxUint64: nat := 0xFFFF_FFFF_FFFF_FFFF
  const MaxInt64: int := 0x7FFF_FFFF_FFFF_FFFF
  const MinInt64: int := -0x8000_0000_0000_0000

  predicate IsDigit(c: char)
  {
    '0' <= c <= '9'
  }

  predicate AllDigits(s: string)
  {
    forall i :: 0 <= i < |s| ==> IsDigit(s[i])
  }

  function DigitValue(c: char): (d: nat)
    requires IsDigit(c)
    ensures d <= 9
  {
    c as int - '0' as int
  }

  function DigitChar(d: nat): (c: char)
    requires d <= 9
    ensures IsDigit(c) && DigitValue(c) == d
  {
    ('0' as int + d) as char
  }

  /** The outcome of `strconv.ParseUint`'s digit loop. */
  datatype Scan = Parsed(value: nat) | SyntaxError | RangeError

  /** The digit loop of `strconv.ParseUint(s, 10, 64)`, continuing from the
      accumulated value `acc`: it stops with a syntax error at the first
      non-digit and with a range error as soon as the value passes 2^64 - 1,
      whichever comes first. */
  function ScanDigits(s: string, acc: nat): Scan
  {
    if s == [] then Parsed(acc)
    else if !IsDigit(s[0]) then SyntaxError
    else
      var n := acc * 10 + DigitValue(s[0]);
      if n > MaxUint64 then RangeError else ScanDigits(s[1..], n)
  }

  /** A successful scan read only digits, and its value lies between the
      accumulated value and 2^64 - 1. */
  lemma {:induction false} ScanDigitsBounds(s: string, acc: nat)
    requires ScanDigits(s, acc).Parsed?
    ensures AllDigits(s)
    ensures acc <= MaxUint64 ==> acc <= ScanDigits(s, acc).value <= MaxUint64
  {
    if s != [] {
      var n := acc * 10 + DigitValue(s[0]);
      ScanDigitsBounds(s[1..], n);
      assert s == [s[0]] + s[1..];
    }
  }

  /** `strconv.ParseUint(s, 10, 64)`: the empty string is a syntax error. */
  function ParseUint(s: string): Scan
  {
    if s == [] then SyntaxError else ScanDigits(s, 0)
  }

  /** A successful parse is of a non-empty run of digits whose value fits in
      64 bits. */
  lemma ParseUintBounds(s: string)
    requires ParseUint(s).Parsed?
    ensures s != [] && AllDigits(s) && ParseUint(s).value <= MaxUint64
  {
    ScanDigitsBounds(s, 0);
  }

  /** What follows the optional sign: the text `ParseUint` reads. */
  function Magnitude(s: string): string
  {
    if s != [] && (s[0] == '+' || s[0] == '-') then s[1..] else s
  }

  /** The value of `strconv.Atoi(s)` with its error dropped, as every call site
      in the program does: an optional sign, then `ParseUint`; a syntax error
      gives 0, a value out of range is clamped to the nearest 64-bit bound. */
  function Atoi(s: string): (n: int)
    ensures MinInt64 <= n <= MaxInt64
    ensures s == [] ==> n == 0
    ensures s != [] && s[0] != '+' && s[0] != '-' && !IsDigit(s[0]) ==> n == 0
  {
    if s == [] then 0
    else
      var neg := s[0] == '-';
      match ParseUint(Magnitude(s))
      case SyntaxError => 0
      case RangeError => if neg then MinInt64 else MaxInt64
      case Parsed(u) =>
        if neg then (if u > -MinInt64 then MinInt64 else -(u as int))
        else (if u > MaxInt64 then MaxInt64 else u)
  }

  /** The decimal digits of `n`, most significant first, without leading
      zeros. */
  function Digits(n: nat): string
  {
    if n < 10 then [DigitChar(n)] else Digits(n / 10) + [DigitChar(n % 10)]
  }

  lemma {:induction false} DigitsShape(n: nat)
    ensures |Digits(n)| >= 1 && AllDigits(Digits(n))
  {
    if n >= 10 {
      DigitsShape(n / 10);
      var d := Digits(n / 10);
      assert Digits(n) == d + [DigitChar(n % 10)];
      forall i | 0 <= i < |Digits(n)|
        ensures IsDigit(Digits(n)[i])
      {
        if i < |d| {
          assert Digits(n)[i] == d[i];
        }
      }
    }
  }

  /** `fmt`'s `%d`: a minus sign for negative values, then the digits. */
  function FormatInt(n: int): string
  {
    if n < 0 then "-" + Digits(-n) else Digits(n)
  }

  /** `n` written with at least `width` digits, padded on the left with zeros,
      after a minus sign when negative: the numeric fields of `time.Format`
      ("2006" is width 4, "01" and "02" are width 2). */
  function PadInt(n: int, width: nat): string
  {
    var digits := Digits(if n < 0 then -n else n);
    var zeros := if |digits| < width then Zeros(width - |digits|) else "";
    (if n < 0 then "-" else "") + zeros + digits
  }

  /** A padded non-negative field is all digits, and exactly `width` long
      unless the number needs more digits than that. */
  lemma PadIntShape(n: int, width: nat)
    requires n >= 0
    ensures AllDigits(PadInt(n, width))
    ensures |PadInt(n, width)| == Max(width, |Digits(n)|)
  {
    var digits := Digits(n);
    DigitsShape(n);
    if |digits| < width {
      var k := width - |digits|;
      ZerosShape(k);
      assert PadInt(n, width) == Zeros(k) + digits;
      AccumulateZeros(k, digits);
    } else {
      assert PadInt(n, width) == digits;
    }
  }

  function Max(a: nat, b: nat): nat
  {
    if a < b then b else a
  }

  function Zeros(k: nat): string
  {
    if k == 0 then "" else "0" + Zeros(k - 1)
  }

  lemma {:induction false} ZerosShape(k: nat)
    ensures |Zeros(k)| == k && forall i :: 0 <= i < k ==> Zeros(k)[i] == '0'
  {
    if k > 0 {
      ZerosShape(k - 1);
      forall i | 0 <= i < k
        ensures Zeros(k)[i] == '0'
      {
        if i > 0 {
          assert Zeros(k)[i] == Zeros(k - 1)[i - 1];
        }
      }
    }
  }

  /** The value of the digit string `s`, read from left to right starting at
      `acc`: the reference meaning of a run of digits. */
  function Accumulate(s: string, acc: nat): nat
    requires AllDigits(s)
  {
    if s == [] then acc else Accumulate(s[1..], acc * 10 + DigitValue(s[0]))
  }

  lemma {:induction false} AccumulateGrows(s: string, acc: nat)
    requires AllDigits(s)
    ensures Accumulate(s, acc) >= acc
  {
    if s != [] {
      AccumulateGrows(s[1..], acc * 10 + DigitValue(s[0]));
    }
  }

  lemma {:induction false} AccumulateSnoc(s: string, c: char, acc: nat)
    requires AllDigits(s) && IsDigit(c)
    ensures AllDigits(s + [c])
    ensures Accumulate(s + [c], acc) == Accumulate(s, acc) * 10 + DigitValue(c)
  {
    assert AllDigits(s + [c]);
    if s != [] {
      assert (s + [c])[1..] == s[1..] + [c];
      AccumulateSnoc(s[1..], c, acc * 10 + DigitValue(s[0]));
    }
  }

  /** Leading zeros do not change the value of a digit string. */
  lemma {:induction false} AccumulateZeros(k: nat, s: string)
    requires AllDigits(s)
    ensures AllDigits(Zeros(k) + s)
    ensures Accumulate(Zeros(k) + s, 0) == Accumulate(s, 0)
  {
    ZerosShape(k);
    assert AllDigits(Zeros(k) + s) by {
      forall i | 0 <= i < |Zeros(k) + s|
        ensures IsDigit((Zeros(k) + s)[i])
      {
        if i >= k {
          assert (Zeros(k) + s)[i] == s[i - k];
        }
      }
    }
    if k > 0 {
      var t := Zeros(k) + s;
      assert t[0] == '0' && t[1..] == Zeros(k - 1) + s;
      assert Accumulate(t, 0) == Accumulate(t[1..], 0);
      AccumulateZeros(k - 1, s);
    } else {
      assert Zeros(k) + s == s;
    }
  }

  /** `ParseUint`'s digit loop reads a run of digits as its reference value
      whenever that value fits in 64 bits. */
  lemma {:induction false} ScanDigitsAccumulates(s: string, acc: nat)
    requires AllDigits(s) && Accumulate(s, acc) <= MaxUint64
    ensures ScanDigits(s, acc) == Parsed(Accumulate(s, acc))
  {
    if s != [] {
      var n := acc * 10 + DigitValue(s[0]);
      AccumulateGrows(s[1..], n);
      ScanDigitsAccumulates(s[1..], n);
    }
  }

  /** The digit loop stops with a syntax error at a non-digit that it reaches
      before the value overflows. */
  lemma {:induction false} ScanDigitsRejects(s: string, acc: nat, k: nat)
    requires k < |s| && !IsDigit(s[k]) && AllDigits(s[..k])
    requires Accumulate(s[..k], acc) <= MaxUint64
    ensures ScanDigits(s, acc) == SyntaxError
  {
    if k > 0 {
      var n := acc * 10 + DigitValue(s[0]);
      assert s[..k][1..] == s[1..][..k - 1];
      AccumulateGrows(s[1..][..k - 1], n);
      ScanDigitsRejects(s[1..], n, k - 1);
    }
  }

  lemma {:induction false} DigitsValue(n: nat)
    ensures AllDigits(Digits(n)) && Accumulate(Digits(n), 0) == n
  {
    DigitsShape(n);
    if n >= 10 {
      DigitsValue(n / 10);
      AccumulateSnoc(Digits(n / 10), DigitChar(n % 10), 0);
    }
  }

  /** Reading back what `%d` writes: `Atoi(FormatInt(n)) == n` for every
      64-bit `n`. */
  lemma AtoiFormatInt(n: int)
    requires MinInt64 <= n <= MaxInt64
    ensures Atoi(FormatInt(n)) == n
  {
    var m := if n < 0 then -n else n;
    var digits := Digits(m);
    DigitsValue(m);
    ScanDigitsAccumulates(digits, 0);
    assert ParseUint(digits) == Parsed(m);
    if n < 0 {
      assert FormatInt(n)[1..] == digits;
    }
  }

  /** The digit loop stops with a range error on a run of digits whose value
      passes 2^64 - 1. */
  lemma {:induction false} ScanDigitsOverflows(s: string, acc: nat)
    requires AllDigits(s) && acc <= MaxUint64 && Accumulate(s, acc) > MaxUint64
    ensures ScanDigits(s, acc) == RangeError
  {
    if s != [] {
      var n := acc * 10 + DigitValue(s[0]);
      if n <= MaxUint64 {
        ScanDigitsOverflows(s[1..], n);
      }
    }
  }

  /** `ParseUint` of a run of digits: its value when that fits in 64 bits,
      a range error otherwise. */
  lemma ParseUintDigits(s: string)
    requires s != [] && AllDigits(s)
    ensures Accumulate(s, 0) <= MaxUint64 ==> ParseUint(s) == Parsed(Accumulate(s, 0))
    ensures Accumulate(s, 0) > MaxUint64 ==> ParseUint(s) == RangeError
  {
    if Accumulate(s, 0) <= MaxUint64 {
      ScanDigitsAccumulates(s, 0);
    } else {
      ScanDigitsOverflows(s, 0);
    }
  }

  /** The digit loop stops with a range error as soon as a prefix of digits
      passes 2^64 - 1, whatever comes after it. */
  lemma {:induction false} ScanDigitsOverflowsEarly(s: string, acc: nat, k: nat)
    requires k <= |s| && AllDigits(s[..k]) && acc <= MaxUint64
    requires Accumulate(s[..k], acc) > MaxUint64
    ensures ScanDigits(s, acc) == RangeError
  {
    if k > 0 {
      var n := acc * 10 + DigitValue(s[0]);
      if n <= MaxUint64 {
        assert s[..k][1..] == s[1..][..k - 1];
        ScanDigitsOverflowsEarly(s[1..], n, k - 1);
      }
    }
  }

  /** A run of digits above 2^63 - 1, with or without a plus sign, reads as
      the largest 64-bit integer: the range error and the value too big for
      `int` both clamp. */
  lemma AtoiClampsHigh(s: string)
    requires s != [] && s[0] != '-'
    requires Magnitude(s) != [] && AllDigits(Magnitude(s)) && Accumulate(Magnitude(s), 0) > MaxInt64
    ensures Atoi(s) == MaxInt64
  {
    ParseUintDigits(Magnitude(s));
  }

  /** A minus sign before a run of digits above 2^63 reads as the smallest
      64-bit integer. */
  lemma AtoiClampsLow(s: string)
    requires |s| >= 2 && s[0] == '-' && AllDigits(s[1..]) && Accumulate(s[1..], 0) > -MinInt64
    ensures Atoi(s) == MinInt64
  {
    ParseUintDigits(s[1..]);
  }

  /** Digits whose value passes 2^64 - 1 before any non-digit is reached
      clamp to the 64-bit bound of the sign, whatever follows them: the range
      error comes first. */
  lemma AtoiOverflowsFirst(s: string, k: nat)
    requires s != [] && k <= |Magnitude(s)| && AllDigits(Magnitude(s)[..k])
    requires Accumulate(Magnitude(s)[..k], 0) > MaxUint64
    ensures Atoi(s) == (if s[0] == '-' then MinInt64 else MaxInt64)
  {
    ScanDigitsOverflowsEarly(Magnitude(s), 0, k);
  }

  /** Within the 64-bit range a run of digits reads as its value, negated
      after a minus sign; a plus sign or no sign leaves it positive. */
  lemma AtoiInRange(s: string)
    requires s != [] && Magnitude(s) != [] && AllDigits(Magnitude(s))
    requires Accumulate(Magnitude(s), 0) <= (if s[0] == '-' then -MinInt64 else MaxInt64)
    ensures Atoi(s) == (if s[0] == '-' then -(Accumulate(Magnitude(s), 0) as int) else Accumulate(Magnitude(s), 0))
  {
    ParseUintDigits(Magnitude(s));
  }

  /** A non-numeric value reads as 0: after the optional sign, a non-digit
      that comes before the digits seen so far overflow makes `Atoi` give 0. */
  lemma AtoiNonNumeric(s: string, k: nat)
    requires k < |Magnitude(s)| && !IsDigit(Magnitude(s)[k])
    requires AllDigits(Magnitude(s)[..k]) && Accumulate(Magnitude(s)[..k], 0) <= MaxUint64
    ensures Atoi(s) == 0
  {
    ScanDigitsRejects(Magnitude(s), 0, k);
  }

  /** Reading back a zero-padded field: `Atoi(PadInt(n, w)) == n` for every
      non-negative 64-bit `n`. */
  lemma AtoiPadInt(n: int, width: nat)
    requires 0 <= n <= MaxInt64
    ensures Atoi(PadInt(n, width)) == n
  {
    var digits := Digits(n);
    var k := if |digits| < width then width - |digits| else 0;
    assert PadInt(n, width) == Zeros(k) + digits;
    DigitsValue(n);
    ZerosShape(k);
    AccumulateZeros(k, digits);
    ScanDigitsAccumulates(Zeros(k) + digits, 0);
  }
}
