/**
  Decimal text: the "%u" conversion, and the strtoul that reads it back.
 */
module Decimal {

  function DigitChar(d: nat): (c: char)
    requires d < 10
    ensures IsDigit(c) && DigitOf(c) == d
  {
    "0123456789"[d]
  }

  predicate IsDigit(c: char) {
    '0' <= c <= '9'
  }

  function DigitOf(c: char): nat
    requires IsDigit(c)
  {
    c as int - '0' as int
  }

  /** printf("%u"). */
  function Show(n: nat): (s: string)
    ensures s != [] && forall k :: 0 <= k < |s| ==> IsDigit(s[k])
    ensures s[0] == '0' <==> n == 0
  {
    if n < 10 then [DigitChar(n)] else Show(n / 10) + [DigitChar(n % 10)]
  }

  /** The number read from the leading digits of s, continuing from acc. */
  function ReadDigits(acc: nat, s: string): nat
    decreases |s|
  {
    if s == [] || !IsDigit(s[0]) then acc else ReadDigits(10 * acc + DigitOf(s[0]), s[1..])
  }

  predicate IsSpace(c: char) {
    c == ' ' || '\t' <= c <= '\r'
  }

  /** isdigit and isspace in the C locale. */
  lemma CharClasses(c: char)
    ensures IsDigit(c) <==> c in "0123456789"
    ensures IsSpace(c) <==> c in " \t\n\U{0B}\U{0C}\r"
  {
    if IsDigit(c) { assert c == "0123456789"[c as int - 48]; }
    if '\t' <= c <= '\r' { assert c == "\t\n\U{0B}\U{0C}\r"[c as int - 9]; }
  }

  const ULONG_MAX: nat := 0xFFFF_FFFF_FFFF_FFFF

  /** strtoul(s, 0, 10) on a 64-bit unsigned long: white space, an optional sign, digits; saturating. */
  function StrToUl(s: string): (r: nat)
    ensures r <= ULONG_MAX
  {
    if s == [] then 0
    else if IsSpace(s[0]) then StrToUl(s[1..])
    else
      var v := ReadDigits(0, if s[0] == '+' || s[0] == '-' then s[1..] else s);
      if v > ULONG_MAX then ULONG_MAX
      else if s[0] == '-' && v > 0 then ULONG_MAX + 1 - v
      else v
  }

  lemma {:induction false} ReadDigitsSnoc(acc: nat, s: string, c: char)
    requires (forall k :: 0 <= k < |s| ==> IsDigit(s[k])) && IsDigit(c)
    ensures ReadDigits(acc, s + [c]) == 10 * ReadDigits(acc, s) + DigitOf(c)
    decreases |s|
  {
    if s != [] {
      ReadDigitsSnoc(10 * acc + DigitOf(s[0]), s[1..], c);
      assert (s + [c])[1..] == s[1..] + [c];
    } else {
      assert (s + [c])[1..] == [];
    }
  }

  lemma {:induction false} ShowReads(n: nat)
    ensures ReadDigits(0, Show(n)) == n
  {
    if n >= 10 {
      ShowReads(n / 10);
      ReadDigitsSnoc(0, Show(n / 10), DigitChar(n % 10));
    } else {
      assert Show(n)[1..] == [];
    }
  }

  /** strtoul reads back what printf wrote. */
  lemma StrToUlOfShow(n: nat)
    requires n <= ULONG_MAX
    ensures StrToUl(Show(n)) == n
  {
    ShowReads(n);
  }

  lemma ShowInjective(a: nat, b: nat)
    ensures Show(a) == Show(b) ==> a == b
  {
    ShowReads(a);
    ShowReads(b);
  }

  lemma {:induction false} ReadDigitsStops(acc: nat, s: string, tail: string)
    requires (forall k :: 0 <= k < |s| ==> IsDigit(s[k])) && (tail == "" || !IsDigit(tail[0]))
    ensures ReadDigits(acc, s + tail) == ReadDigits(acc, s)
    decreases |s|
  {
    if s == "" {
      assert s + tail == tail;
    } else {
      ReadDigitsStops(10 * acc + DigitOf(s[0]), s[1..], tail);
      assert (s + tail)[1..] == s[1..] + tail;
    }
  }

  lemma SignThenDigits(sign: string, digits: string, tail: string)
    requires sign == "" || sign == "+" || sign == "-"
    requires digits != "" && IsDigit(digits[0])
    ensures var text := sign + digits + tail;
      && text != "" && !IsSpace(text[0]) && (text[0] == '-' <==> sign == "-")
      && (if text[0] == '+' || text[0] == '-' then text[1..] else text) == digits + tail
  {
    var text := sign + digits + tail;
    assert text[|sign|..] == digits + tail;
  }

  /** White space, a sign, a number, and what follows it: the number, negated modulo 2^64 after '-', and the
      largest value for numbers that do not fit. */
  lemma {:induction false} StrToUlReads(space: string, sign: string, n: nat, tail: string)
    requires (forall k :: 0 <= k < |space| ==> IsSpace(space[k])) && (sign == "" || sign == "+" || sign == "-")
    requires tail == "" || !IsDigit(tail[0])
    ensures StrToUl(space + (sign + Show(n) + tail)) ==
      if n > 0xFFFF_FFFF_FFFF_FFFF then 0xFFFF_FFFF_FFFF_FFFF
      else if sign == "-" && n > 0 then 0x1_0000_0000_0000_0000 - n else n
    decreases |space|
  {
    hide Show, ReadDigits;
    var text := sign + Show(n) + tail;
    if space == "" {
      ShowReads(n);
      ReadDigitsStops(0, Show(n), tail);
      assert space + text == text;
      SignThenDigits(sign, Show(n), tail);
      assert StrToUl(text) == var v := ReadDigits(0, Show(n) + tail);
        if v > ULONG_MAX then ULONG_MAX else if sign == "-" && v > 0 then ULONG_MAX + 1 - v else v;
    } else {
      StrToUlReads(space[1..], sign, n, tail);
      assert (space + text)[1..] == space[1..] + text;
    }
  }
}
