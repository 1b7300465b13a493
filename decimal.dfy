/** Decimal rendering of integers as Python's `str(n)` and the `02` format
    specification produce them, with a parser that undoes both. */
module Decimal {

  predicate IsDigit(ch: char) {
    '0' <= ch <= '9'
  }

  predicate AllDigits(s: string) {
    forall i :: 0 <= i < |s| ==> IsDigit(s[i])
  }

  /** A literal as Python prints an int: an optional '-' and at least one digit. */
  predicate IsIntLiteral(s: string) {
    if |s| > 0 && s[0] == '-' then |s| > 1 && AllDigits(s[1..]) else |s| > 0 && AllDigits(s)
  }

  function DigitChar(d: nat): (ch: char)
    requires d < 10
    ensures IsDigit(ch) && DigitValue(ch) == d
  {
    ('0' as int + d) as char
  }

  function DigitValue(ch: char): nat
    requires IsDigit(ch)
  {
    ch as int - '0' as int
  }

  /** `str(n)` for a non-negative int: the shortest decimal numeral. */
  function NatToString(n: nat): (s: string)
    ensures |s| >= 1 && AllDigits(s)
    ensures |s| > 1 ==> s[0] != '0'
    ensures (|s| == 1) == (n < 10)
    decreases n
  {
    if n < 10 then [DigitChar(n)] else NatToString(n / 10) + [DigitChar(n % 10)]
  }

  /** `str(i)` for any int: a '-' in front of the magnitude when negative. */
  function IntToString(i: int): (s: string)
    ensures IsIntLiteral(s)
    ensures (s[0] == '-') == (i < 0)
  {
    if i < 0 then "-" + NatToString(-i) else NatToString(i)
  }

  /** The value of a string of digits; leading zeros are allowed. */
  function ParseNat(s: string): nat
    requires AllDigits(s)
  {
    if |s| == 0 then 0 else ParseNat(s[..|s| - 1]) * 10 + DigitValue(s[|s| - 1])
  }

  function ParseInt(s: string): int
    requires IsIntLiteral(s)
  {
    if s[0] == '-' then -(ParseNat(s[1..]) as int) else ParseNat(s)
  }

  /** `n` as Python's f-string `{n:0w}` renders it: sign first, then the
      magnitude left-padded with zeros until the whole is `width` long. */
  function ZeroPadded(n: int, width: int): (s: string)
    ensures |s| == (if width > |IntToString(n)| then width else |IntToString(n)|)
    ensures |s| >= 1 && (s[0] == '-') == (n < 0)
  {
    if n < 0 then "-" + (Repeat('0', width - 1 - |NatToString(-n)|) + NatToString(-n))
    else Repeat('0', width - |NatToString(n)|) + NatToString(n)
  }

  /** `ch` repeated `k` times; nothing when `k` is not positive. */
  function Repeat(ch: char, k: int): (s: string)
    ensures |s| == if k < 0 then 0 else k
    ensures forall i :: 0 <= i < |s| ==> s[i] == ch
    decreases k
  {
    if k <= 0 then "" else [ch] + Repeat(ch, k - 1)
  }

  lemma {:induction false} ParseNatToString(n: nat)
    ensures ParseNat(NatToString(n)) == n
    decreases n
  {
    var s := NatToString(n);
    if n >= 10 {
      ParseNatToString(n / 10);
      assert s[..|s| - 1] == NatToString(n / 10);
    }
  }

  /** Parsing undoes `str(i)` for every int. */
  lemma IntToStringRoundTrip(i: int)
    ensures ParseInt(IntToString(i)) == i
  {
    var s := IntToString(i);
    if i < 0 {
      assert s[1..] == NatToString(-i);
      ParseNatToString(-i);
    } else {
      ParseNatToString(i);
    }
  }

  lemma {:induction false} ParseNatLeadingZeros(k: nat, s: string)
    requires AllDigits(s)
    ensures AllDigits(Repeat('0', k) + s)
    ensures ParseNat(Repeat('0', k) + s) == ParseNat(s)
    decreases |s|
  {
    var z := Repeat('0', k);
    if |s| == 0 {
      ParseNatZeros(k);
      assert z + s == z;
    } else {
      ParseNatLeadingZeros(k, s[..|s| - 1]);
      assert (z + s)[..|z + s| - 1] == z + s[..|s| - 1];
    }
  }

  lemma {:induction false} ParseNatZeros(k: nat)
    ensures AllDigits(Repeat('0', k)) && ParseNat(Repeat('0', k)) == 0
    decreases k
  {
    if k > 0 {
      var z := Repeat('0', k);
      ParseNatZeros(k - 1);
      assert z[..k - 1] == Repeat('0', k - 1);
    }
  }

  /** `{n:0w}` is at least `w` long and never shorter than `str(n)`, and it
      still reads back as `n`: zero-padding loses nothing. */
  lemma ZeroPaddedRoundTrip(n: int, width: int)
    ensures var s := ZeroPadded(n, width);
      && |s| == (if width > |IntToString(n)| then width else |IntToString(n)|)
      && IsIntLiteral(s)
      && ParseInt(s) == n
  {
    if n < 0 {
      ZeroPaddedParsesNegative(n, width);
    } else {
      ZeroPaddedParsesNonNegative(n, width);
    }
  }

  lemma ZeroPaddedParsesNegative(n: int, width: int)
    requires n < 0
    ensures IsIntLiteral(ZeroPadded(n, width)) && ParseInt(ZeroPadded(n, width)) == n
  {
    var digits := NatToString(-n);
    var k := width - 1 - |digits|;
    var rest := Repeat('0', k) + digits;
    assert AllDigits(rest) && ParseNat(rest) == -n by {
      ParseNatLeadingZeros(if k < 0 then 0 else k, digits);
      ParseNatToString(-n);
    }
    NegativeLiteral(rest);
  }

  lemma ZeroPaddedParsesNonNegative(n: int, width: int)
    requires n >= 0
    ensures IsIntLiteral(ZeroPadded(n, width)) && ParseInt(ZeroPadded(n, width)) == n
  {
    var digits := NatToString(n);
    var k := width - |digits|;
    var s := ZeroPadded(n, width);
    assert AllDigits(s) && ParseNat(s) == n by {
      ParseNatLeadingZeros(if k < 0 then 0 else k, digits);
      ParseNatToString(n);
    }
    assert s[0] != '-' by {
      assert IsDigit(s[0]);
    }
  }

  lemma NegativeLiteral(digits: string)
    requires |digits| > 0 && AllDigits(digits)
    ensures IsIntLiteral("-" + digits)
    ensures ParseInt("-" + digits) == -(ParseNat(digits) as int)
  {
  }

  /** `{n:02}` for 0 <= n < 100: exactly two digits that read back as `n`. */
  lemma TwoDigits(n: int)
    requires 0 <= n < 100
    ensures |ZeroPadded(n, 2)| == 2
    ensures AllDigits(ZeroPadded(n, 2))
    ensures ParseNat(ZeroPadded(n, 2)) == n
  {
    var s := ZeroPadded(n, 2);
    ZeroPaddedRoundTrip(n, 2);
    if n >= 10 {
      assert NatToString(n) == NatToString(n / 10) + [DigitChar(n % 10)];
    }
    assert s == Repeat('0', 2 - |NatToString(n)|) + NatToString(n);
    ParseNatLeadingZeros(2 - |NatToString(n)|, NatToString(n));
    ParseNatToString(n);
  }

  /** Any character other than '-' and a digit is absent from `str(i)`. */
  lemma IntToStringAvoids(i: int, ch: char)
    requires ch != '-' && !IsDigit(ch)
    ensures ch !in IntToString(i)
  {
  }
}
