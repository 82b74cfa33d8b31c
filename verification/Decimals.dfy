/** Decimal numerals, as `format!` writes them, and names put together from them. */
module Decimals {
  function Digit(d: nat): char
    requires d < 10
  {
    "0123456789"[d]
  }

  predicate IsDigit(c: char) {
    '0' <= c <= '9'
  }

  function Decimal(n: nat): (r: string)
    ensures r != "" && forall c :: c in r ==> IsDigit(c)
  {
    if n < 10 then [Digit(n)] else Decimal(n / 10) + [Digit(n % 10)]
  }

  function DigitValue(c: char): nat
    requires IsDigit(c)
  {
    c as int - '0' as int
  }

  /** The number a numeral denotes. */
  function Value(s: string): nat
    requires forall c :: c in s ==> IsDigit(c)
  {
    if s == "" then 0
    else
      assert s[|s| - 1] in s;
      Value(s[..|s| - 1]) * 10 + DigitValue(s[|s| - 1])
  }

  lemma {:induction false} ValueOfDecimal(n: nat)
    ensures Value(Decimal(n)) == n
  {
    if n < 10 {
      assert [Digit(n)][..0] == "";
    } else {
      ValueOfDecimal(n / 10);
      assert Decimal(n)[..|Decimal(n)| - 1] == Decimal(n / 10);
    }
  }

  lemma DecimalInjective(m: nat, n: nat)
    requires Decimal(m) == Decimal(n)
    ensures m == n
  {
    ValueOfDecimal(m);
    ValueOfDecimal(n);
  }

  /** What follows the last separator. */
  function LastPart(s: string, sep: char): string {
    if s == "" || s[|s| - 1] == sep then "" else LastPart(s[..|s| - 1], sep) + [s[|s| - 1]]
  }

  lemma {:induction false} LastPartFound(x: string, d: string, sep: char)
    requires sep !in d
    ensures LastPart(x + [sep] + d, sep) == d
    decreases |d|
  {
    var s := x + [sep] + d;
    if d != "" {
      var front := d[..|d| - 1];
      assert s[..|s| - 1] == x + [sep] + front;
      assert d == front + [s[|s| - 1]];
      assert s[|s| - 1] in d;
      LastPartFound(x, front, sep);
    }
  }

  /** Where the last separator stands is determined by the string. */
  lemma SplitAtLast(x: string, d: string, y: string, e: string, sep: char)
    requires x + [sep] + d == y + [sep] + e
    requires sep !in d && sep !in e
    ensures x == y && d == e
  {
    LastPartFound(x, d, sep);
    LastPartFound(y, e, sep);
    var s := x + [sep] + d;
    assert x == s[..|s| - |d| - 1] && y == s[..|s| - |e| - 1];
  }
}
