/** PHP's `(int)` cast of a string, as `update` applies it to a submitted task limit:
    leading whitespace is skipped, an optional sign is read, then the longest run of
    decimal digits; text without such a run gives 0. */
module PhpInt {

  predicate IsDigit(c: char)
  {
    '0' <= c <= '9'
  }

  predicate AllDigits(s: string)
  {
    forall i :: 0 <= i < |s| ==> IsDigit(s[i])
  }

  /** The whitespace PHP skips before a number: space, tab, newline, carriage return,
      vertical tab and form feed. */
  predicate IsSpace(c: char)
  {
    c == ' ' || c == '\t' || c == '\n' || c == '\r' || c == '\U{B}' || c == '\U{C}'
  }

  function SkipSpaces(s: string): (r: string)
    ensures |r| <= |s| && r == s[|s| - |r|..]
    ensures r == [] || !IsSpace(r[0])
    ensures forall i :: 0 <= i < |s| - |r| ==> IsSpace(s[i])
  {
    if s != [] && IsSpace(s[0]) then SkipSpaces(s[1..]) else s
  }

  /** The longest prefix of `s` made of digits. */
  function DigitRun(s: string): (d: string)
    ensures |d| <= |s| && d == s[..|d|]
    ensures AllDigits(d)
    ensures |d| == |s| || !IsDigit(s[|d|])
  {
    if s != [] && IsDigit(s[0]) then
      var rest := DigitRun(s[1..]);
      assert s[1..][..|rest|] == s[1..|rest| + 1];
      [s[0]] + rest
    else []
  }

  function DigitValue(c: char): (v: nat)
    requires IsDigit(c)
    ensures v <= 9
  {
    c as int - '0' as int
  }

  /** The number a run of decimal digits denotes, most significant digit first. */
  function DecimalValue(d: string): (n: nat)
    requires AllDigits(d)
  {
    if d == [] then 0 else DecimalValue(d[..|d| - 1]) * 10 + DigitValue(d[|d| - 1])
  }

  /** `(int) $s` for a string `s`. */
  function IntCast(s: string): (n: int)
  {
    SignedValue(SkipSpaces(s))
  }

  /** The value of an optional sign followed by the longest run of digits. */
  function SignedValue(t: string): (n: int)
  {
    if t != [] && t[0] == '-' then 0 - DecimalValue(DigitRun(t[1..])) as int
    else if t != [] && t[0] == '+' then DecimalValue(DigitRun(t[1..])) as int
    else DecimalValue(DigitRun(t)) as int
  }

  // ---------------------------------------------------------------------------
  // Decimal text: the partner of the cast

  function DigitChar(v: nat): (c: char)
    requires v <= 9
    ensures IsDigit(c) && DigitValue(c) == v
  {
    ('0' as int + v) as char
  }

  /** The decimal text of a natural number, with no leading zero. */
  function Decimal(n: nat): (s: string)
    ensures |s| >= 1 && AllDigits(s)
    ensures s[0] != '0' || n == 0
  {
    if n < 10 then [DigitChar(n)] else Decimal(n / 10) + [DigitChar(n % 10)]
  }

  /** PHP's text of an integer: a minus sign before a negative number's digits. */
  function Show(n: int): (s: string)
  {
    if n < 0 then "-" + Decimal(-n) else Decimal(n)
  }

  lemma {:induction false} DecimalValueOfDecimal(n: nat)
    ensures DecimalValue(Decimal(n)) == n
  {
    if n >= 10 {
      DecimalValueOfDecimal(n / 10);
      var s := Decimal(n);
      assert s[..|s| - 1] == Decimal(n / 10);
    }
  }

  /** The digit run stops exactly where the digits stop. */
  lemma {:induction false} DigitRunOf(d: string, tail: string)
    requires AllDigits(d)
    requires tail == [] || !IsDigit(tail[0])
    ensures DigitRun(d + tail) == d
  {
    if d != [] {
      assert (d + tail)[1..] == d[1..] + tail;
      DigitRunOf(d[1..], tail);
      assert d == [d[0]] + d[1..];
    } else {
      assert d + tail == tail;
    }
  }

  /** The cast reads back the integer PHP writes, whatever non-digit text follows it. */
  lemma IntCastShow(n: int, tail: string)
    requires tail == [] || !IsDigit(tail[0])
    ensures IntCast(Show(n) + tail) == n
  {
    if n < 0 {
      assert Show(n) == "-" + Decimal(-n);
      NegativeShow(-n, tail);
    } else {
      assert Show(n) == Decimal(n);
      var d := Decimal(n);
      DecimalValueOfDecimal(n);
      DigitRunOf(d, tail);
      assert (d + tail)[0] == d[0];
      assert SkipSpaces(d + tail) == d + tail;
    }
  }

  lemma NegativeShow(m: nat, tail: string)
    requires m > 0
    requires tail == [] || !IsDigit(tail[0])
    ensures IntCast("-" + Decimal(m) + tail) == -(m as int)
  {
    var d := Decimal(m);
    var t := "-" + d + tail;
    DecimalValueOfDecimal(m);
    DigitRunOf(d, tail);
    assert t[0] == '-';
    assert SkipSpaces(t) == t;
    assert t[1..] == d + tail;
  }

  /** A run of digits casts to the number it spells. */
  lemma DigitsCast(d: string)
    requires AllDigits(d)
    ensures IntCast(d) == DecimalValue(d)
  {
    if d != [] {
      DigitRunOf(d, []);
      assert d + [] == d;
      assert IsDigit(d[0]);
      assert SkipSpaces(d) == d;
      assert SignedValue(d) == DecimalValue(DigitRun(d));
    }
  }

  /** Text that does not start (after whitespace) with a sign or a digit casts to 0. */
  lemma IntCastNoNumber(s: string)
    requires var t := SkipSpaces(s); t == [] || (!IsDigit(t[0]) && t[0] != '-' && t[0] != '+')
    ensures IntCast(s) == 0
  {
  }

  /** Leading whitespace does not change the cast. */
  lemma IntCastSkipsSpaces(spaces: string, s: string)
    requires forall i :: 0 <= i < |spaces| ==> IsSpace(spaces[i])
    ensures IntCast(spaces + s) == IntCast(s)
  {
    SkipSpacesPrefix(spaces, s);
  }

  lemma {:induction false} SkipSpacesPrefix(spaces: string, s: string)
    requires forall i :: 0 <= i < |spaces| ==> IsSpace(spaces[i])
    ensures SkipSpaces(spaces + s) == SkipSpaces(s)
  {
    if spaces != [] {
      assert (spaces + s)[1..] == spaces[1..] + s;
      SkipSpacesPrefix(spaces[1..], s);
    } else {
      assert spaces + s == s;
    }
  }
}
