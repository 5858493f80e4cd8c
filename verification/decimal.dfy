/** Decimal printing and parsing as strconv does it: Itoa/FormatInt and base-10 ParseInt on 64 bits. */
module Decimal {
  import opened Model

  const MIN_INT64: int := -0x8000_0000_0000_0000
  const MAX_INT64: int := 0x7FFF_FFFF_FFFF_FFFF

  predicate IsInt64(i: int) {
    MIN_INT64 <= i <= MAX_INT64
  }

  predicate IsDigit(c: char) {
    '0' <= c <= '9'
  }

  predicate AllDigits(s: string) {
    forall i :: 0 <= i < |s| ==> IsDigit(s[i])
  }

  function DigitChar(d: nat): char
    requires d < 10
  {
    "0123456789"[d]
  }

  function DigitVal(c: char): nat
    requires IsDigit(c)
  {
    c as int - '0' as int
  }

  function Digits(n: nat): (s: string)
    ensures s != [] && AllDigits(s)
  {
    if n < 10 then [DigitChar(n)] else Digits(n / 10) + [DigitChar(n % 10)]
  }

  function Itoa(i: int): string {
    if i < 0 then "-" + Digits(-i) else Digits(i)
  }

  function Value(s: string): nat
    requires AllDigits(s)
  {
    if s == [] then 0 else Value(Front(s)) * 10 + DigitVal(Last(s))
  }

  /** A sign is optional, leading zeros are fine, nothing else is; out of range is an error. */
  function ParseInt64(s: string): Option<int> {
    if s == [] then None
    else
      var signed := s[0] == '+' || s[0] == '-';
      var body := if signed then s[1..] else s;
      if body == [] || !AllDigits(body) then None
      else
        var size: int := Value(body);
        var i := if s[0] == '-' then -size else size;
        if IsInt64(i) then Some(i) else None
  }

  lemma {:induction false} ValueOfDigits(n: nat)
    ensures Value(Digits(n)) == n
  {
    if n >= 10 {
      ValueOfDigits(n / 10);
      assert Front(Digits(n)) == Digits(n / 10);
    }
  }

  lemma ParseSigned(s: string, negative: bool)
    requires s != [] && AllDigits(s)
    ensures var size: int := Value(s); var i := if negative then -size else size;
            ParseInt64(if negative then "-" + s else s) == if IsInt64(i) then Some(i) else None
  {
    assert ("-" + s)[1..] == s;
    assert IsDigit(s[0]);
  }

  /** Parsing undoes printing on the whole 64-bit range; outside it, parsing refuses. */
  lemma ParseItoa(i: int)
    ensures ParseInt64(Itoa(i)) == if IsInt64(i) then Some(i) else None
  {
    var size := if i < 0 then -i else i;
    ValueOfDigits(size);
    ParseSigned(Digits(size), i < 0);
  }

  /** Only numerals parse: an optional sign, then digits and nothing else, worth the result. */
  lemma ParsedIff(s: string, i: int)
    ensures ParseInt64(s) == Some(i) <==>
              && IsInt64(i)
              && exists body :: body != "" && AllDigits(body)
                   && ((s in {body, "+" + body} && i == Value(body)) || (s == "-" + body && i + Value(body) == 0))
  {
    if ParseInt64(s) == Some(i) {
      var signed := s[0] == '+' || s[0] == '-';
      var body := if signed then s[1..] else s;
      assert s == if signed then [s[0]] + body else body;
      assert body != "" && AllDigits(body);
    }
    forall body | body != "" && AllDigits(body)
      ensures ("+" + body)[1..] == body && ("-" + body)[1..] == body && IsDigit(body[0])
    {}
  }

  lemma DigitsInjective(a: nat, b: nat)
    requires Digits(a) == Digits(b)
    ensures a == b
  {
    ValueOfDigits(a);
    ValueOfDigits(b);
  }

  /** A printed number is digits behind an optional minus sign. */
  lemma ItoaChars(i: int)
    ensures Itoa(i) != [] && forall k :: 0 <= k < |Itoa(i)| ==> IsDigit(Itoa(i)[k]) || Itoa(i)[k] == '-'
  {}
}
