/** Decimal numerals: `String(n)` and `BigInt(s)` on digit strings. */
module Decimal {
  import opened Bytes

  predicate IsDigit(c: char) {
    '0' <= c <= '9'
  }

  predicate AllDigits(s: string) {
    forall i :: 0 <= i < |s| ==> IsDigit(s[i])
  }

  function DigitValue(c: char): (d: nat)
    requires IsDigit(c)
    ensures d < 10
  {
    c as int - '0' as int
  }

  function DigitChar(d: nat): (c: char)
    requires d < 10
    ensures IsDigit(c) && DigitValue(c) == d
  {
    ('0' as int + d) as char
  }

  /** The value of a digit string; zero for the empty one. */
  function Parse(s: string): nat
    requires AllDigits(s)
  {
    if s == "" then 0 else Parse(s[..|s| - 1]) * 10 + DigitValue(s[|s| - 1])
  }

  /** The numeral without leading zeros. */
  function Print(n: nat): (s: string)
    ensures s != ""
    ensures AllDigits(s)
  {
    if n < 10 then [DigitChar(n)] else Print(n / 10) + [DigitChar(n % 10)]
  }

  lemma {:induction false} ParsePrint(n: nat)
    ensures Parse(Print(n)) == n
  {
    var s := Print(n);
    if n < 10 {
      assert s[..|s| - 1] == "";
    } else {
      ParsePrint(n / 10);
      assert s[..|s| - 1] == Print(n / 10);
    }
  }

  lemma {:induction false} ParseAppend(a: string, b: string)
    requires AllDigits(a) && AllDigits(b)
    ensures AllDigits(a + b) && Parse(a + b) == Parse(a) * Pow(10, |b|) + Parse(b)
  {
    if b == "" {
      assert a + b == a;
    } else {
      var b' := b[..|b| - 1];
      ParseAppend(a, b');
      assert (a + b)[..|a + b| - 1] == a + b';
      ScaleStep(Parse(a), |b|);
    }
  }

  lemma ScaleStep(x: nat, k: nat)
    requires k > 0
    ensures x * Pow(10, k - 1) * 10 == x * Pow(10, k)
  {
    assert x * Pow(10, k - 1) * 10 == x * (Pow(10, k - 1) * 10);
  }

  lemma {:induction false} ParseBound(s: string)
    requires AllDigits(s)
    ensures Parse(s) < Pow(10, |s|)
  {
    if s != "" {
      ParseBound(s[..|s| - 1]);
    }
  }

  /** A numeral without a leading zero is what its value prints as. */
  lemma {:induction false} PrintParse(s: string)
    requires AllDigits(s) && s != "" && (s[0] != '0' || |s| == 1)
    ensures Print(Parse(s)) == s
    ensures s[0] != '0' ==> Parse(s) > 0
  {
    var init := s[..|s| - 1];
    if init == "" {
      assert Parse(init) == 0;
    } else {
      PrintParse(init);
      var v, d := Parse(init), DigitValue(s[|s| - 1]);
      assert (v * 10 + d) / 10 == v && (v * 10 + d) % 10 == d;
    }
  }

  lemma {:induction false} PrintLength(n: nat, k: nat)
    requires k >= 1
    ensures n < Pow(10, k) <==> |Print(n)| <= k
  {
    if n < 10 {
      PowMonotone(10, 1, k);
      assert Pow(10, 1) == 10;
    } else if k > 1 {
      PrintLength(n / 10, k - 1);
      assert Pow(10, k) == 10 * Pow(10, k - 1);
    } else {
      assert Pow(10, 1) == 10;
    }
  }
}
