/** Decimal digit strings: the fixed-width digit fields that `strftime`
    prints, and the decimal number texts that Python's `float()` and pandas'
    CSV reader accept in a timestamp field. */
module Numbers {
  import opened Wrappers

  function Pow10(n: nat): (r: nat)
    ensures r >= 1
  {
    if n == 0 then 1 else 10 * Pow10(n - 1)
  }

  predicate IsDigit(c: char) {
    '0' <= c <= '9'
  }

  predicate AllDigits(s: string) {
    forall i :: 0 <= i < |s| ==> IsDigit(s[i])
  }

  function DigitChar(d: nat): (c: char)
    requires d < 10
    ensures IsDigit(c)
  {
    ('0' as int + d) as char
  }

  function DigitValue(c: char): nat
    requires IsDigit(c)
  {
    c as int - '0' as int
  }

  /** The number a string of decimal digits denotes, most significant first. */
  function ValueOf(s: string): nat
    requires AllDigits(s)
  {
    if s == [] then 0 else 10 * ValueOf(s[..|s| - 1]) + DigitValue(s[|s| - 1])
  }

  /** The last `width` decimal digits of `n`, zero-padded on the left: the
      text `%0<width>d` prints for any `n < 10^width`. */
  function Padded(n: nat, width: nat): (r: string)
    ensures |r| == width && AllDigits(r)
  {
    if width == 0 then "" else Padded(n / 10, width - 1) + [DigitChar(n % 10)]
  }

  /** The shortest decimal text of `n` (`"0"` for zero), as `str(n)` prints it. */
  function Digits(n: nat): (r: string)
    ensures |r| >= 1 && AllDigits(r)
  {
    if n < 10 then [DigitChar(n)] else Digits(n / 10) + [DigitChar(n % 10)]
  }

  // ---------------------------------------------------------------------
  // Euclidean division facts the digit proofs rest on.

  lemma DivModUnique(n: int, m: int, q: int, r: int)
    requires m > 0 && n == m * q + r && 0 <= r < m
    ensures n / m == q && n % m == r
  {
    var q', r' := n / m, n % m;
    assert n == m * q' + r' && 0 <= r' < m;
    if q' > q {
      MulGap(m, q', q);
      assert false;
    } else if q' < q {
      MulGap(m, q, q');
      assert false;
    }
  }

  lemma MulStep(m: int, b: int)
    ensures m * (b + 1) == m * b + m
  {
  }

  lemma MulGap(m: int, a: int, b: int)
    requires m > 0 && a > b
    ensures m * a >= m * b + m
    decreases a - b
  {
    MulStep(m, a - 1);
    if a - 1 > b {
      MulGap(m, a - 1, b);
    }
  }

  /** Peeling one decimal digit off `n` modulo `10 * p`. */
  lemma ModTenTimes(n: nat, p: nat)
    requires p >= 1
    ensures n % (10 * p) == 10 * ((n / 10) % p) + n % 10
    ensures n / (10 * p) == (n / 10) / p
  {
    var a, b, r0 := (n / 10) / p, (n / 10) % p, n % 10;
    assert n / 10 == p * a + b;
    assert n == 10 * (n / 10) + r0;
    assert n == (10 * p) * a + (10 * b + r0);
    DivModUnique(n, 10 * p, a, 10 * b + r0);
  }

  lemma ValueOfSnoc(s: string, c: char)
    requires AllDigits(s) && IsDigit(c)
    ensures AllDigits(s + [c]) && ValueOf(s + [c]) == 10 * ValueOf(s) + DigitValue(c)
  {
    assert (s + [c])[..|s|] == s;
  }

  lemma DigitValueOfChar(d: nat)
    requires d < 10
    ensures DigitValue(DigitChar(d)) == d
  {
  }

  /** Reading back a zero-padded field gives the number modulo `10^width`. */
  lemma {:induction false} ValueOfPadded(n: nat, width: nat)
    ensures ValueOf(Padded(n, width)) == n % Pow10(width)
  {
    if width > 0 {
      ValueOfPadded(n / 10, width - 1);
      ValueOfSnoc(Padded(n / 10, width - 1), DigitChar(n % 10));
      DigitValueOfChar(n % 10);
      ModTenTimes(n, Pow10(width - 1));
    }
  }

  lemma MulNegative(m: int, q: int)
    requires m > 0
    ensures q < 0 ==> m * q <= -m
  {
    if q < 0 {
      MulGap(m, 0, q);
    }
  }

  lemma DivNat(n: nat, p: int)
    requires p > 0
    ensures n / p >= 0
  {
    MulNegative(p, n / p);
  }

  /** `n` with its last `b` decimal digits dropped. */
  function High(n: nat, b: nat): (r: nat)
    ensures r == n / Pow10(b)
  {
    DivNat(n, Pow10(b));
    n / Pow10(b)
  }

  /** A zero-padded field of width `a + b` is the field of its high part
      followed by the field of its last `b` digits. */
  lemma {:induction false} PaddedSplit(n: nat, a: nat, b: nat)
    ensures Padded(n, a + b) == Padded(High(n, b), a) + Padded(n % Pow10(b), b)
    decreases b
  {
    if b > 0 {
      var p := Pow10(b - 1);
      PaddedSplit(n / 10, a, b - 1);
      ModTenTimes(n, p);
      var m := n % Pow10(b);
      assert m / 10 == n / 10 % p && m % 10 == n % 10 by {
        DivModUnique(m, 10, n / 10 % p, n % 10);
      }
      assert Padded(m, b) == Padded(m / 10, b - 1) + [DigitChar(m % 10)];
      assert Padded(n, a + b) == Padded(n / 10, a + b - 1) + [DigitChar(n % 10)];
    }
  }

  /** Reading back the shortest text of `n` gives `n`. */
  lemma {:induction false} ValueOfDigits(n: nat)
    ensures ValueOf(Digits(n)) == n
  {
    if n >= 10 {
      ValueOfDigits(n / 10);
      ValueOfSnoc(Digits(n / 10), DigitChar(n % 10));
      DigitValueOfChar(n % 10);
    }
  }

  // ---------------------------------------------------------------------
  // Decimal number texts.

  /** The exact value of a decimal text, `±(whole + fraction / 10^scale)`,
      where `scale` is the number of digits written after the point. */
  datatype Decimal = Decimal(negative: bool, whole: nat, fraction: nat, scale: nat)

  ghost predicate ValidDecimal(d: Decimal) {
    d.fraction < Pow10(d.scale)
  }

  /** Index of the first `.` in `s`, or `|s|` when there is none. */
  function DotIndex(s: string): (k: nat)
    ensures k <= |s|
    ensures k < |s| ==> s[k] == '.'
    ensures forall i :: 0 <= i < k ==> s[i] != '.'
  {
    if s == [] then 0 else if s[0] == '.' then 0 else 1 + DotIndex(s[1..])
  }

  /** An unsigned decimal text: digits, optionally a point and more digits,
      with at least one digit in all (`"12"`, `"12.5"`, `"12."`, `".5"`). */
  function ParseUnsigned(s: string): Option<Decimal> {
    var k := DotIndex(s);
    if k == |s| then
      if s != [] && AllDigits(s) then Some(Decimal(false, ValueOf(s), 0, 0)) else None
    else
      var whole, frac := s[..k], s[k + 1..];
      if AllDigits(whole) && AllDigits(frac) && |whole| + |frac| > 0
      then Some(Decimal(false, ValueOf(whole), ValueOf(frac), |frac|))
      else None
  }

  /** A decimal number text with an optional sign: the plain-notation subset
      of what Python's `float()` accepts. */
  function ParseDecimal(s: string): Option<Decimal> {
    if |s| > 0 && (s[0] == '-' || s[0] == '+') then
      match ParseUnsigned(s[1..])
      case None => None
      case Some(d) => Some(d.(negative := s[0] == '-'))
    else
      ParseUnsigned(s)
  }

  predicate IsNumberChar(c: char) {
    IsDigit(c) || c == '.' || c == '-'
  }

  /** `n / 10^k`, one digit at a time. */
  function DropDigits(n: int, k: nat): int
    decreases k
  {
    if k == 0 then n else DropDigits(n / 10, k - 1)
  }

  /** The canonical text of a non-negative decimal: the whole part, and
      `scale` fractional digits after a point when `scale > 0`. */
  function UnsignedText(whole: nat, fraction: nat, scale: nat): (r: string)
    ensures |r| >= 1 && IsDigit(r[0])
  {
    if scale == 0 then Digits(whole) else Digits(whole) + "." + Padded(fraction, scale)
  }

  /** The canonical text of a decimal: a `-` when negative, then the text
      of its magnitude. */
  function DecimalText(d: Decimal): (r: string)
    ensures |r| >= 1
  {
    var u := UnsignedText(d.whole, d.fraction, d.scale);
    if d.negative then "-" + u else u
  }

  lemma UnsignedTextChars(whole: nat, fraction: nat, scale: nat)
    ensures forall i :: 0 <= i < |UnsignedText(whole, fraction, scale)| ==>
      IsNumberChar(UnsignedText(whole, fraction, scale)[i])
  {
    if scale > 0 {
      var a, b := Digits(whole), Padded(fraction, scale);
      assert UnsignedText(whole, fraction, scale) == a + "." + b;
      forall i | 0 <= i < |a + "." + b| ensures IsNumberChar((a + "." + b)[i]) {
        if i < |a| { assert IsDigit(a[i]); }
        else if i > |a| { assert (a + "." + b)[i] == b[i - |a| - 1]; }
      }
    }
  }

  /** A decimal's canonical text holds only digits, `.` and `-`. */
  lemma DecimalTextChars(d: Decimal)
    ensures forall i :: 0 <= i < |DecimalText(d)| ==> IsNumberChar(DecimalText(d)[i])
  {
    UnsignedTextChars(d.whole, d.fraction, d.scale);
    if d.negative {
      var u := UnsignedText(d.whole, d.fraction, d.scale);
      forall i | 0 <= i < |"-" + u| ensures IsNumberChar(("-" + u)[i]) {
        if i > 0 { assert ("-" + u)[i] == u[i - 1]; }
      }
    }
  }

  lemma DotIndexOfDigits(s: string)
    requires AllDigits(s)
    ensures DotIndex(s) == |s|
  {
    if s != [] {
      assert IsDigit(s[0]);
      DotIndexOfDigits(s[1..]);
    }
  }

  lemma DotIndexAfterDigits(whole: string, frac: string)
    requires AllDigits(whole)
    ensures DotIndex(whole + "." + frac) == |whole|
  {
    if whole != [] {
      assert IsDigit(whole[0]);
      assert (whole + "." + frac)[1..] == whole[1..] + "." + frac;
      DotIndexAfterDigits(whole[1..], frac);
    }
  }

  lemma ValueOfPaddedSmall(n: nat, width: nat)
    requires n < Pow10(width)
    ensures ValueOf(Padded(n, width)) == n
  {
    ValueOfPadded(n, width);
    DivModUnique(n, Pow10(width), 0, n);
  }

  /** Parsing the canonical text of a non-negative decimal gives it back. */
  lemma ParseUnsignedText(whole: nat, fraction: nat, scale: nat)
    requires fraction < Pow10(scale)
    ensures ParseUnsigned(UnsignedText(whole, fraction, scale)) == Some(Decimal(false, whole, fraction, scale))
  {
    var a := Digits(whole);
    ValueOfDigits(whole);
    if scale == 0 {
      DotIndexOfDigits(a);
      assert fraction == 0;
    } else {
      var b := Padded(fraction, scale);
      var s := a + "." + b;
      DotIndexAfterDigits(a, b);
      assert s[..|a|] == a && s[|a| + 1..] == b;
      ValueOfPaddedSmall(fraction, scale);
    }
  }

  /** Parsing the canonical text of any decimal gives the decimal back. */
  lemma ParseDecimalText(d: Decimal)
    requires ValidDecimal(d)
    ensures ParseDecimal(DecimalText(d)) == Some(d)
  {
    var u := UnsignedText(d.whole, d.fraction, d.scale);
    ParseUnsignedText(d.whole, d.fraction, d.scale);
    if d.negative {
      assert ("-" + u)[1..] == u;
    }
  }

  /** Only digits and one point survive the unsigned parse. */
  lemma ParseUnsignedChars(s: string)
    requires ParseUnsigned(s).Some?
    ensures forall i :: 0 <= i < |s| ==> IsDigit(s[i]) || s[i] == '.'
  {
    var k := DotIndex(s);
    if k < |s| {
      var whole, frac := s[..k], s[k + 1..];
      forall i | 0 <= i < |s| ensures IsDigit(s[i]) || s[i] == '.' {
        if i < k { assert s[i] == whole[i]; }
        else if i > k { assert s[i] == frac[i - k - 1]; }
      }
    }
  }

  /** A text that parses as a number holds only digits, points and signs. */
  lemma ParseDecimalChars(s: string)
    ensures ParseDecimal(s).Some? ==> forall i :: 0 <= i < |s| ==> IsNumberChar(s[i]) || s[i] == '+'
  {
    if ParseDecimal(s).None? {
    } else if |s| > 0 && (s[0] == '-' || s[0] == '+') {
      ParseUnsignedChars(s[1..]);
      forall i | 1 <= i < |s| ensures IsNumberChar(s[i]) { assert s[i] == s[1..][i - 1]; }
    } else {
      ParseUnsignedChars(s);
    }
  }
}
