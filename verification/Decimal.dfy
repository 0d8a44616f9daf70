/** Decimal numbers as sprintf("%zu") prints them and strtoul(…, 10) reads them. */
module Decimal {
  import opened Bytes

  const ULONG_MAX: nat := 0xFFFF_FFFF_FFFF_FFFF

  predicate IsDigit(c: char) {
    '0' <= c <= '9'
  }

  function DigitChar(d: nat): (c: char)
    requires d < 10
    ensures IsDigit(c) && DigitValue(c) == d
  {
    '0' + d as char
  }

  function DigitValue(c: char): nat
    requires IsDigit(c)
  {
    (c - '0') as nat
  }

  /** "%zu" and "%u". */
  function Print(n: nat): (s: string)
    ensures s != "" && forall i :: 0 <= i < |s| ==> IsDigit(s[i])
  {
    if n < 10 then [DigitChar(n)] else Print(n / 10) + [DigitChar(n % 10)]
  }

  /** The value of the leading digits of `s`, appended to the digits already read into `acc`. */
  function Leading(s: string, acc: nat): nat {
    if s == "" || !IsDigit(s[0]) then acc
    else Leading(s[1..], acc * 10 + DigitValue(s[0]))
  }

  function SkipSpace(s: string): string {
    if s != "" && IsSpace(s[0]) then SkipSpace(s[1..]) else s
  }

  /** strtoul() in base 10: white space, an optional sign, digits; too large a value gives
      ULONG_MAX, a minus sign negates modulo 2^64, and no digits give 0. */
  function StrToUl(s: string): nat {
    var t := SkipSpace(s);
    var signed := t != "" && (t[0] == '-' || t[0] == '+');
    var v := Leading(if signed then t[1..] else t, 0);
    if v > ULONG_MAX then ULONG_MAX
    else if signed && t[0] == '-' then (ULONG_MAX + 1 - v) % (ULONG_MAX + 1)
    else v
  }

  lemma {:induction false} LeadingAppend(digits: string, rest: string, acc: nat)
    requires forall i :: 0 <= i < |digits| ==> IsDigit(digits[i])
    ensures Leading(digits + rest, acc) == Leading(rest, Leading(digits, acc))
  {
    if digits == "" {
      assert digits + rest == rest;
    } else {
      assert (digits + rest)[1..] == digits[1..] + rest;
      LeadingAppend(digits[1..], rest, acc * 10 + DigitValue(digits[0]));
    }
  }

  lemma {:induction false} LeadingPrint(n: nat)
    ensures Leading(Print(n), 0) == n
  {
    if n >= 10 {
      var last := [DigitChar(n % 10)];
      LeadingPrint(n / 10);
      LeadingAppend(Print(n / 10), last, 0);
      assert last[1..] == "";
      assert Leading(last, n / 10) == Leading("", n / 10 * 10 + n % 10);
    } else {
      var s := Print(n);
      assert s[1..] == "";
      assert Leading(s, 0) == Leading("", n);
    }
  }

  /** The digits are the usual ones. */
  lemma Digits(d: nat)
    requires d < 10
    ensures DigitChar(d) == "0123456789"[d] && DigitValue("0123456789"[d]) == d
  {
  }

  predicate AllDigits(s: string) {
    forall i :: 0 <= i < |s| ==> IsDigit(s[i])
  }

  /** A number as it is written: digits, with a zero in front only if it is zero. */
  predicate Canonical(s: string) {
    s != "" && AllDigits(s) && (s[0] == '0' ==> |s| == 1)
  }

  lemma {:induction false} PrintIsCanonical(n: nat)
    ensures Canonical(Print(n)) && (Print(n)[0] == '0' <==> n == 0)
  {
    if n >= 10 {
      PrintIsCanonical(n / 10);
    }
  }

  lemma LeadingSnoc(digits: string, c: char)
    requires AllDigits(digits) && IsDigit(c)
    ensures Leading(digits + [c], 0) == Leading(digits, 0) * 10 + DigitValue(c)
  {
    LeadingAppend(digits, [c], 0);
    assert [c][1..] == "";
    assert Leading([c], Leading(digits, 0)) == Leading("", Leading(digits, 0) * 10 + DigitValue(c));
  }

  lemma {:induction false} PositiveLeading(s: string)
    requires Canonical(s) && s[0] != '0'
    ensures Leading(s, 0) > 0
  {
    var n := |s| - 1;
    assert s == s[..n] + [s[n]];
    LeadingSnoc(s[..n], s[n]);
    if n > 0 {
      PositiveLeading(s[..n]);
    }
  }

  /** What is printed is the one way to write the number. */
  lemma {:induction false} PrintIsUnique(s: string)
    requires Canonical(s)
    ensures s == Print(Leading(s, 0))
  {
    var n := |s| - 1;
    assert s == s[..n] + [s[n]];
    LeadingSnoc(s[..n], s[n]);
    if n > 0 {
      assert Canonical(s[..n]) && s[..n][0] == s[0];
      PositiveLeading(s[..n]);
      PrintIsUnique(s[..n]);
    }
  }

  lemma {:induction false} SkipSpaces(ws: string, s: string)
    requires forall i :: 0 <= i < |ws| ==> IsSpace(ws[i])
    requires s == "" || !IsSpace(s[0])
    ensures SkipSpace(ws + s) == s
  {
    if ws == "" {
      assert ws + s == s;
    } else {
      assert (ws + s)[1..] == ws[1..] + s;
      SkipSpaces(ws[1..], s);
    }
  }

  /** Reading back a printed number stops at whatever is not a digit and loses nothing. */
  lemma StrToUlPrint(n: nat, rest: string)
    requires n <= ULONG_MAX
    requires rest == "" || !IsDigit(rest[0])
    ensures StrToUl(Print(n) + rest) == n
  {
    assert "" + (Print(n) + rest) == Print(n) + rest;
    StrToUlForms("", "", n, rest);
  }

  /** White space and a plus sign are skipped, a minus sign negates modulo 2^64, and a number that is too large gives
      the largest one. */
  lemma StrToUlForms(ws: string, sign: string, n: nat, rest: string)
    requires forall i :: 0 <= i < |ws| ==> IsSpace(ws[i])
    requires sign == "" || sign == "+" || sign == "-"
    requires rest == "" || !IsDigit(rest[0])
    ensures StrToUl(ws + (sign + (Print(n) + rest)))
            == if n > ULONG_MAX then ULONG_MAX
               else if sign == "-" && n > 0 then ULONG_MAX + 1 - n
               else n
  {
    var t := sign + (Print(n) + rest);
    assert t[0] == if sign == "" then Print(n)[0] else sign[0];
    SkipSpaces(ws, t);
    if sign != "" {
      assert t[1..] == Print(n) + rest;
    } else {
      assert t == Print(n) + rest;
    }
    LeadingAppend(Print(n), rest, 0);
    LeadingPrint(n);
    assert Leading(rest, n) == n;
  }

  /** Without a digit there is no number. */
  lemma StrToUlNothing(ws: string, rest: string)
    requires forall i :: 0 <= i < |ws| ==> IsSpace(ws[i])
    requires rest == "" || (!IsSpace(rest[0]) && !IsDigit(rest[0]) && rest[0] != '+' && rest[0] != '-')
    ensures StrToUl(ws + rest) == 0
  {
    SkipSpaces(ws, rest);
  }
}
