/** Decimal numbers as `sprintf` prints them and `atol` reads them. */
module Decimal {

  const LONG_MAX: nat := 0x7fff_ffff_ffff_ffff

  predicate IsDigit(c: char) {
    '0' <= c <= '9'
  }

  function DigitValue(c: char): nat
    requires IsDigit(c)
  {
    (c - '0') as nat
  }

  function DigitChar(d: nat): (c: char)
    requires d < 10
    ensures IsDigit(c) && DigitValue(c) == d
  {
    '0' + d as char
  }

  /** `%zu` and the digits of `%d`. */
  function Print(n: nat): (s: string)
    ensures s != "" && forall c :: c in s ==> IsDigit(c)
  {
    if n < 10 then [DigitChar(n)] else Print(n / 10) + [DigitChar(n % 10)]
  }

  /** The number that a string of digits denotes; leading zeros do no harm. */
  function Value(s: string): nat
    requires forall c :: c in s ==> IsDigit(c)
  {
    if s == "" then 0 else 10 * Value(s[..|s| - 1]) + DigitValue(s[|s| - 1])
  }

  lemma {:induction false} ValueOfPrint(n: nat)
    ensures Value(Print(n)) == n
  {
    if n < 10 {
    } else {
      ValueOfPrint(n / 10);
      assert Print(n)[..|Print(n)| - 1] == Print(n / 10);
    }
  }

  lemma {:induction false} NoLeadingZero(n: nat)
    ensures Print(n)[0] == '0' <==> n == 0
  {
    if n < 10 {
    } else {
      NoLeadingZero(n / 10);
    }
  }

  /** Numbers below ten to the power of `k` have at most `k` digits. */
  function Power10(k: nat): nat {
    if k == 0 then 1 else 10 * Power10(k - 1)
  }

  lemma {:induction false} PrintLength(n: nat, k: nat)
    requires 1 <= k && n < Power10(k)
    ensures |Print(n)| <= k
  {
    if n < 10 {
    } else {
      assert k != 1 by { assert Power10(1) == 10 * Power10(0); }
      PrintLength(n / 10, k - 1);
    }
  }

  predicate IsSpace(c: char) {
    c == ' ' || c == '\t' || c == '\n' || c == '\r' || c == 11 as char || c == 12 as char
  }

  /** The digits at the beginning of `s`. */
  function LeadingDigits(s: string): (d: string)
    ensures forall c :: c in d ==> IsDigit(c)
  {
    if s == "" || !IsDigit(s[0]) then "" else [s[0]] + LeadingDigits(s[1..])
  }

  /** `atol`: white space, an optional sign, digits; out of range it stops at the bounds of `long`. */
  function Atol(s: string): (v: int)
    ensures 0 - LONG_MAX - 1 <= v <= LONG_MAX
  {
    if s == "" then 0
    else if IsSpace(s[0]) then Atol(s[1..])
    else
      var magnitude := Value(LeadingDigits(if s[0] == '-' || s[0] == '+' then s[1..] else s));
      if s[0] == '-' then (if magnitude > LONG_MAX then 0 - LONG_MAX - 1 else 0 - magnitude)
      else if magnitude > LONG_MAX then LONG_MAX else magnitude
  }

  lemma {:induction false} LeadingDigitsOfDigits(s: string)
    requires forall c :: c in s ==> IsDigit(c)
    ensures LeadingDigits(s) == s
  {
    if s == "" {
    } else {
      LeadingDigitsOfDigits(s[1..]);
    }
  }

  /** `atol` reads back what `%zu` printed, if and only if the number fits a `long`. */
  lemma AtolOfPrint(n: nat)
    ensures Atol(Print(n)) == if n <= LONG_MAX then n else LONG_MAX
  {
    var s := Print(n);
    assert s[0] in s;
    LeadingDigitsOfDigits(s);
    ValueOfPrint(n);
  }

  lemma {:induction false} DigitsInFront(d: string, tail: string)
    requires forall c :: c in d ==> IsDigit(c)
    requires tail == "" || !IsDigit(tail[0])
    ensures LeadingDigits(d + tail) == d
  {
    if d == "" {
      assert d + tail == tail;
    } else {
      DigitsInFront(d[1..], tail);
      assert (d + tail)[1..] == d[1..] + tail;
    }
  }

  /** White space: the blank and the characters 9 to 13. */
  predicate AreSpaces(s: string) {
    forall c :: c in s ==> c == ' ' || 9 <= c as int <= 13
  }

  lemma {:induction false} SpacesDoNotCount(spaces: string, s: string)
    requires AreSpaces(spaces)
    ensures Atol(spaces + s) == Atol(s)
  {
    if spaces == "" {
      assert spaces + s == s;
    } else {
      assert spaces[0] in spaces && forall c :: c in spaces[1..] ==> c in spaces;
      SpacesDoNotCount(spaces[1..], s);
      assert (spaces + s)[1..] == spaces[1..] + s;
    }
  }

  /** What `atol` makes of white space, a sign, a number and what follows it. */
  lemma AtolReads(spaces: string, sign: string, n: nat, tail: string)
    requires AreSpaces(spaces)
    requires sign == "" || sign == "+" || sign == "-"
    requires tail == "" || !IsDigit(tail[0])
    ensures Atol(spaces + (sign + (Print(n) + tail)))
            == if sign == "-" then (if n > LONG_MAX then 0 - LONG_MAX - 1 else 0 - n)
               else if n > LONG_MAX then LONG_MAX else n
  {
    var d := Print(n) + tail;
    SpacesDoNotCount(spaces, sign + d);
    DigitsInFront(Print(n), tail);
    ValueOfPrint(n);
    assert d[0] == Print(n)[0] && Print(n)[0] in Print(n);
    if sign == "" {
      assert sign + d == d;
    } else {
      assert (sign + d)[1..] == d;
    }
  }

  /** What does not start with a number is 0. */
  lemma AtolOfNoNumber(spaces: string, sign: string, tail: string)
    requires AreSpaces(spaces)
    requires sign == "" || sign == "+" || sign == "-"
    requires tail == "" || !IsDigit(tail[0])
    requires tail == "" || sign != "" || (!AreSpaces([tail[0]]) && tail[0] != '+' && tail[0] != '-')
    ensures Atol(spaces + (sign + tail)) == 0
  {
    SpacesDoNotCount(spaces, sign + tail);
    if sign == "" {
      assert sign + tail == tail;
    } else {
      assert (sign + tail)[1..] == tail;
    }
  }
}
