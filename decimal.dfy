/** Decimal rendering of non-negative integers, as Python's `str(n)` produces it,
    and its inverse. Used to build account numbers such as "ACC48213". */
module Decimal {

  predicate IsDigit(c: char) {
    '0' <= c <= '9'
  }

  predicate AllDigits(s: string) {
    forall i :: 0 <= i < |s| ==> IsDigit(s[i])
  }

  function DigitChar(d: nat): (c: char)
    requires d < 10
    ensures IsDigit(c) && c as int - '0' as int == d
  {
    ('0' as int + d) as char
  }

  function DigitValue(c: char): (d: nat)
    requires IsDigit(c)
    ensures d < 10 && DigitChar(d) == c
  {
    c as int - '0' as int
  }

  /** The digits of n, most significant first, without leading zeros. */
  function Render(n: nat): (s: string)
    ensures |s| >= 1 && AllDigits(s)
    ensures |s| > 1 ==> s[0] != '0'
    decreases n
  {
    if n < 10 then [DigitChar(n)] else Render(n / 10) + [DigitChar(n % 10)]
  }

  /** Reads a string of digits back as a number (most significant first). */
  function Parse(s: string): (n: nat)
    requires AllDigits(s)
    decreases |s|
  {
    if s == [] then 0 else Parse(s[..|s| - 1]) * 10 + DigitValue(s[|s| - 1])
  }

  lemma {:induction false} ParseRender(n: nat)
    ensures Parse(Render(n)) == n
    decreases n
  {
    var s := Render(n);
    if n >= 10 {
      assert s[..|s| - 1] == Render(n / 10);
      ParseRender(n / 10);
    }
  }

  lemma {:induction false} RenderFiveDigits(n: nat)
    requires 10000 <= n <= 99999
    ensures |Render(n)| == 5
  {
    assert |Render(n / 10000)| == 1;
    assert |Render(n / 1000)| == 2 by { assert (n / 1000) / 10 == n / 10000; }
    assert |Render(n / 100)| == 3 by { assert (n / 100) / 10 == n / 1000; }
    assert |Render(n / 10)| == 4 by { assert (n / 10) / 10 == n / 100; }
  }
}
