/** Decimal numerals as ECMAScript prints and reads non-negative integers. */
module Decimal {
  import opened Options

  predicate IsDigit(c: char) {
    '0' <= c <= '9'
  }

  function DigitOf(n: nat): (c: char)
    requires n < 10
    ensures IsDigit(c) && ValueOf(c) == n
  {
    '0' + n as char
  }

  function ValueOf(c: char): nat
    requires IsDigit(c)
  {
    (c - '0') as nat
  }

  predicate AllDigits(s: string) {
    forall i :: 0 <= i < |s| ==> IsDigit(s[i])
  }

  function Print(n: nat): (s: string)
    ensures s != [] && AllDigits(s) && (|s| > 1 ==> s[0] != '0')
    ensures n > 0 ==> s[0] != '0'
  {
    if n < 10 then [DigitOf(n)] else Print(n / 10) + [DigitOf(n % 10)]
  }

  function Number(s: string): nat
    requires AllDigits(s)
  {
    if s == [] then 0 else Number(s[..|s| - 1]) * 10 + ValueOf(s[|s| - 1])
  }

  /** A numeral without leading zeros. */
  predicate IsNumeral(s: string) {
    s != [] && AllDigits(s) && (|s| > 1 ==> s[0] != '0')
  }

  function Parse(s: string): Option<nat> {
    if IsNumeral(s) then Some(Number(s)) else None
  }

  lemma {:induction false} ParsePrint(n: nat)
    ensures Parse(Print(n)) == Some(n)
  {
    if n >= 10 {
      ParsePrint(n / 10);
      assert Print(n)[..|Print(n)| - 1] == Print(n / 10);
    } else {
      var s := Print(n);
      assert s[..|s| - 1] == [] && Number(s[..|s| - 1]) == 0;
      assert Number(s) == ValueOf(s[0]);
    }
  }

  /** Only its own numeral reads as a number. */
  lemma {:induction false} PrintParse(s: string)
    requires IsNumeral(s)
    ensures Print(Number(s)) == s
  {
    var front, last := s[..|s| - 1], s[|s| - 1];
    if |s| > 1 {
      PrintParse(front);
      LeadingDigitCounts(front);
      assert Number(s) / 10 == Number(front) && Number(s) % 10 == ValueOf(last);
      assert s == front + [last];
    } else {
      assert front == [] && Number(s) == ValueOf(last);
      assert s == [last];
    }
  }

  lemma {:induction false} LeadingDigitCounts(s: string)
    requires s != [] && AllDigits(s) && s[0] != '0'
    ensures Number(s) > 0
  {
    if |s| > 1 {
      LeadingDigitCounts(s[..|s| - 1]);
    } else {
      assert ValueOf(s[0]) > 0;
    }
  }
}
