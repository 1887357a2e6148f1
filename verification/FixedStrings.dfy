/** Fixed-point values as decimal texts, and back. */
module FixedStrings {
  import opened Wrappers
  import opened Bytes
  import opened Arithmetic
  import opened Decimal
  import opened FixedPoint

  function ZeroText(n: nat): (s: string)
    ensures |s| == n && AllDigits(s) && forall i :: 0 <= i < n ==> s[i] == '0'
  {
    seq(n, _ => '0')
  }

  /** `n` digits that stand for the number. */
  function Digits(n: nat, v: nat): (s: string)
    ensures |s| == n && AllDigits(s)
  {
    if n == 0 then "" else Digits(n - 1, v / 10) + [DigitChar(v % 10)]
  }

  lemma {:induction false} DigitsParse(n: nat, v: nat)
    requires v < Tens(n)
    ensures Parse(Digits(n, v)) == v
  {
    if n > 0 {
      DigitsParse(n - 1, v / 10);
      assert Digits(n, v)[..n - 1] == Digits(n - 1, v / 10);
    }
  }

  /** The other direction: a digit text is what its value prints as at its length. */
  lemma {:induction false} ParseDigits(s: string)
    requires AllDigits(s)
    ensures Digits(|s|, Parse(s)) == s
  {
    if s != "" {
      var init := s[..|s| - 1];
      ParseDigits(init);
      assert Parse(s) / 10 == Parse(init) && Parse(s) % 10 == DigitValue(s[|s| - 1]);
      assert DigitChar(DigitValue(s[|s| - 1])) == s[|s| - 1];
    }
  }

  // ---------- the text of a value ----------

  /** The fraction without its trailing zeros, but for one digit. */
  function TrimRight(f: string): (r: string)
    ensures r <= f && (f != "" ==> r != "")
  {
    if |f| > 1 && f[|f| - 1] == '0' then TrimRight(f[..|f| - 1]) else f
  }

  /** Sign, whole part, and the fraction as short as possible; no point without decimals. */
  function TextOf(val: int, decimals: nat): string {
    var v := if val < 0 then -val else val;
    Sign(val < 0) + (Print(v / Tens(decimals)) + PointAndFraction(v, decimals))
  }

  function PointAndFraction(v: nat, decimals: nat): string {
    if decimals == 0 then "" else "." + TrimRight(Digits(decimals, v % Tens(decimals)))
  }

  // ---------- reading a text ----------

  datatype Parts = Parts(negative: bool, whole: string, decimal: string)

  function DigitRun(s: string): (n: nat)
    ensures n <= |s| && AllDigits(s[..n]) && (n < |s| ==> !IsDigit(s[n]))
  {
    if s == "" || !IsDigit(s[0]) then 0
    else
      assert s[..1 + DigitRun(s[1..])] == [s[0]] + s[1..][..DigitRun(s[1..])];
      1 + DigitRun(s[1..])
  }

  function SplitBody(negative: bool, body: string): (r: Option<Parts>)
    ensures r.Some? ==> AllDigits(r.value.whole) && AllDigits(r.value.decimal)
  {
    var n := DigitRun(body);
    if n == |body| then
      assert body[..n] == body;
      Some(Parts(negative, body, ""))
    else if body[n] == '.' && DigitRun(body[n + 1..]) == |body| - n - 1 then
      assert body[n + 1..][..|body| - n - 1] == body[n + 1..];
      Some(Parts(negative, body[..n], body[n + 1..]))
    else None
  }

  /** The pattern: a sign, digits, a point, digits, each of them optional. */
  function Split(s: string): (r: Option<Parts>)
    ensures r.Some? ==> AllDigits(r.value.whole) && AllDigits(r.value.decimal)
  {
    if s != "" && s[0] == '-' then SplitBody(true, s[1..]) else SplitBody(false, s)
  }

  /** The decimals brought to length: zeros behind them, or the surplus cut off. */
  function ToLength(decimal: string, decimals: nat): (r: string)
    requires AllDigits(decimal)
    ensures |r| == decimals && AllDigits(r)
  {
    if |decimal| >= decimals then decimal[..decimals] else decimal + ZeroText(decimals - |decimal|)
  }

  /** Only zeros behind the places that the format has. */
  predicate SurplusIsZero(decimal: string, decimals: nat) {
    forall i :: decimals <= i < |decimal| ==> decimal[i] == '0'
  }

  lemma JoinDigits(a: string, b: string)
    requires AllDigits(a) && AllDigits(b)
    ensures AllDigits(a + b)
  {
  }

  function FromString(s: string, f: Format): Result<int> {
    match Split(s)
    case None => Err
    case Some(p) =>
      if |p.whole| + |p.decimal| == 0 || !SurplusIsZero(p.decimal, f.decimals) then Err
      else
        var whole := if p.whole == "" then "0" else p.whole;
        JoinDigits(whole, ToLength(p.decimal, f.decimals));
        var n: int := Parse(whole + ToLength(p.decimal, f.decimals));
        var value := if p.negative then -n else n;
        if InRange(value, f) then Ok(value) else Err
  }

  // ---------- what the two preserve ----------

  lemma {:induction false} DigitRunAll(s: string, rest: string)
    requires AllDigits(s) && (rest == "" || !IsDigit(rest[0]))
    ensures DigitRun(s + rest) == |s|
  {
    if s == "" {
      assert s + rest == rest;
    } else {
      assert (s + rest)[1..] == s[1..] + rest;
      DigitRunAll(s[1..], rest);
    }
  }

  lemma SplitBodyOf(negative: bool, whole: string, decimal: string)
    requires AllDigits(whole) && AllDigits(decimal)
    ensures SplitBody(negative, whole + "." + decimal) == Some(Parts(negative, whole, decimal))
    ensures SplitBody(negative, whole) == Some(Parts(negative, whole, ""))
  {
    hide DigitRun;
    var body := whole + "." + decimal;
    assert whole + ("." + decimal) == body;
    DigitRunAll(whole, "." + decimal);
    assert decimal + "" == decimal && whole + "" == whole;
    DigitRunAll(decimal, "");
    DigitRunAll(whole, "");
    assert body[|whole|] == '.' && body[|whole| + 1..] == decimal && body[..|whole|] == whole;
  }

  function Sign(negative: bool): string {
    if negative then "-" else ""
  }

  lemma SplitOf(negative: bool, body: string)
    requires body != "" && body[0] != '-'
    ensures Split(Sign(negative) + body) == SplitBody(negative, body)
  {
    hide SplitBody;
    assert ("-" + body)[1..] == body && "" + body == body;
  }

  lemma {:induction false} TrimRightZeros(f: string)
    requires AllDigits(f)
    ensures AllDigits(TrimRight(f)) && f == TrimRight(f) + ZeroText(|f| - |TrimRight(f)|)
    ensures |TrimRight(f)| > 1 ==> TrimRight(f)[|TrimRight(f)| - 1] != '0'
    decreases |f|
  {
    if |f| > 1 && f[|f| - 1] == '0' {
      var g := f[..|f| - 1];
      TrimRightZeros(g);
      assert f == g + "0";
      assert ZeroText(|g| - |TrimRight(g)|) + "0" == ZeroText(|f| - |TrimRight(g)|);
    }
  }

  lemma {:induction false} ZeroTextParse(n: nat)
    ensures Parse(ZeroText(n)) == 0
  {
    if n > 0 {
      ZeroTextParse(n - 1);
      assert ZeroText(n)[..n - 1] == ZeroText(n - 1);
    }
  }

  lemma {:induction false} ParseZeroIff(s: string)
    requires AllDigits(s)
    ensures Parse(s) == 0 <==> forall i :: 0 <= i < |s| ==> s[i] == '0'
  {
    if s != "" {
      ParseZeroIff(s[..|s| - 1]);
    }
  }

  lemma AppendZeros(s: string, k: nat)
    requires AllDigits(s)
    ensures AllDigits(s + ZeroText(k)) && Parse(s + ZeroText(k)) == Parse(s) * Tens(k)
  {
    hide Parse;
    ParseAppend(s, ZeroText(k));
    ZeroTextParse(k);
  }

  lemma TensAdd(m: nat, n: nat)
    ensures Tens(m + n) == Tens(m) * Tens(n)
  {
    PowAdd(10, m, n);
  }

  lemma Regroup(a: int, b: int, c: int)
    ensures a * b * c == a * (b * c) == a * c * b
  {
  }

  /** The digits of a text as one number. */
  function Joined(p: Parts): int
    requires AllDigits(p.whole) && AllDigits(p.decimal)
  {
    JoinDigits(p.whole, p.decimal);
    Parse(p.whole + p.decimal)
  }

  /** What is parsed once the decimals have been brought to length. */
  function Scaled(p: Parts, decimals: nat): int
    requires AllDigits(p.whole) && AllDigits(p.decimal)
  {
    JoinDigits(p.whole, ToLength(p.decimal, decimals));
    Parse(p.whole + ToLength(p.decimal, decimals))
  }

  lemma ScaledLonger(p: Parts, decimals: nat)
    requires AllDigits(p.whole) && AllDigits(p.decimal) && |p.decimal| > decimals
    ensures var k := |p.decimal| - decimals;
            Joined(p) == Scaled(p, decimals) * Tens(k) + Parse(p.decimal[decimals..]) && Parse(p.decimal[decimals..]) < Tens(k)
  {
    hide Parse;
    var kept, surplus := p.decimal[..decimals], p.decimal[decimals..];
    assert p.whole + p.decimal == (p.whole + kept) + surplus;
    ParseAppend(p.whole + kept, surplus);
    ParseBound(surplus);
  }

  lemma ScaledShorter(p: Parts, decimals: nat)
    requires AllDigits(p.whole) && AllDigits(p.decimal) && |p.decimal| <= decimals
    ensures Scaled(p, decimals) == Joined(p) * Tens(decimals - |p.decimal|)
  {
    hide Parse, Tens;
    var k := decimals - |p.decimal|;
    assert ToLength(p.decimal, decimals) == p.decimal + ZeroText(k);
    assert p.whole + (p.decimal + ZeroText(k)) == (p.whole + p.decimal) + ZeroText(k);
    AppendZeros(p.whole + p.decimal, k);
  }

  /** The surplus is zero exactly when some integer is the exact value; it is then the parsed one. */
  lemma ScaledIff(p: Parts, decimals: nat, n: int)
    requires AllDigits(p.whole) && AllDigits(p.decimal)
    ensures n * Tens(|p.decimal|) == Joined(p) * Tens(decimals) <==>
            SurplusIsZero(p.decimal, decimals) && n == Scaled(p, decimals)
  {
    hide Parse, Tens;
    if |p.decimal| <= decimals {
      var k := decimals - |p.decimal|;
      ScaledShorter(p, decimals);
      TensAdd(k, |p.decimal|);
      Regroup(Joined(p), Tens(k), Tens(|p.decimal|));
      CancelFactor(n, Scaled(p, decimals), Tens(|p.decimal|));
    } else {
      var k := |p.decimal| - decimals;
      var surplus := p.decimal[decimals..];
      ScaledLonger(p, decimals);
      TensAdd(k, decimals);
      Regroup(n, Tens(k), Tens(decimals));
      CancelFactor(n * Tens(k), Joined(p), Tens(decimals));
      ParseZeroIff(surplus);
      assert Parse(surplus) == 0 <==> SurplusIsZero(p.decimal, decimals);
      RemainderZero(n, Scaled(p, decimals), Tens(k), Parse(surplus));
    }
  }

  lemma RemainderZero(n: int, q: int, t: int, r: int)
    requires 0 <= r < t
    ensures n * t == q * t + r <==> r == 0 && n == q
  {
    assert (n - q) * t == n * t - q * t;
    if n * t == q * t + r {
      ModuloAlone(0, r, t, n - q);
      CancelFactor(n, q, t);
    }
  }

  /**
   * Reading a text: the result is exactly the number that the text denotes, in units of the last
   * place; it throws exactly when that is not an integer or out of range.
   */
  lemma FromStringIff(s: string, f: Format, v: int)
    requires Split(s).Some? && |Split(s).value.whole| + |Split(s).value.decimal| > 0
    ensures var p := Split(s).value;
            FromString(s, f) == Ok(v) <==>
            InRange(v, f) && v * Tens(|p.decimal|) == (if p.negative then -Joined(p) else Joined(p)) * Tens(f.decimals)
  {
    hide Split, Parse, Tens, InRange;
    var p := Split(s).value;
    var sv := if p.negative then -v else v;
    ScaledIff(p, f.decimals, sv);
    NegatedProducts(v, Tens(|p.decimal|), Joined(p), Tens(f.decimals));
    WholeOrZero(p, f.decimals);
  }

  lemma NegatedProducts(v: int, a: int, j: int, b: int)
    ensures (-v) * a == j * b <==> v * a == (-j) * b
  {
    assert (-v) * a == -(v * a) && (-j) * b == -(j * b);
  }

  lemma WholeOrZero(p: Parts, decimals: nat)
    requires AllDigits(p.whole) && AllDigits(p.decimal)
    ensures var whole := if p.whole == "" then "0" else p.whole;
            AllDigits(whole + ToLength(p.decimal, decimals)) &&
            Parse(whole + ToLength(p.decimal, decimals)) == Scaled(p, decimals)
  {
    var d := ToLength(p.decimal, decimals);
    if p.whole == "" {
      ParseAppend("0", d);
      assert Parse("0") == 0;
      assert "" + d == d;
    }
  }

  // ---------- printing, then reading ----------

  /** The parts of a printed value. */
  function PartsOf(val: int, decimals: nat): Parts {
    var v := if val < 0 then -val else val;
    Parts(val < 0, Print(v / Tens(decimals)),
          if decimals == 0 then "" else TrimRight(Digits(decimals, v % Tens(decimals))))
  }

  lemma TextSplits(val: int, decimals: nat)
    ensures Split(TextOf(val, decimals)) == Some(PartsOf(val, decimals))
  {
    hide Split, SplitBody, Print, Tens, Digits, TrimRight;
    var p := PartsOf(val, decimals);
    var v := if val < 0 then -val else val;
    TrimRightZeros(Digits(decimals, v % Tens(decimals)));
    SplitBodyOf(val < 0, p.whole, p.decimal);
    var body := p.whole + PointAndFraction(v, decimals);
    assert IsDigit(p.whole[0]);
    assert body[0] == p.whole[0];
    SplitOf(val < 0, body);
    if decimals == 0 {
      assert body == p.whole;
    } else {
      assert p.whole + ("." + p.decimal) == p.whole + "." + p.decimal;
    }
  }

  /** Whole part and all the decimals, printed one after the other, are the digits of the value. */
  lemma FullDigits(v: nat, decimals: nat)
    ensures var full := Print(v / Tens(decimals)) + Digits(decimals, v % Tens(decimals));
            AllDigits(full) && Parse(full) == v
  {
    var t := Tens(decimals);
    hide Parse, Print, Digits, Tens;
    DigitsParse(decimals, v % t);
    ParsePrint(v / t);
    JoinDigits(Print(v / t), Digits(decimals, v % t));
    ParseAppend(Print(v / t), Digits(decimals, v % t));
    ModuloTimes(v, t);
    TensIs(decimals);
  }

  lemma TensIs(decimals: nat)
    ensures Tens(decimals) == Pow(10, decimals)
  {
  }

  /** The printed digits denote the value. */
  lemma TextDenotes(v: nat, decimals: nat)
    ensures var p := PartsOf(v, decimals);
            AllDigits(p.whole) && AllDigits(p.decimal) &&
            Joined(p) * Tens(decimals) == v * Tens(|p.decimal|)
  {
    hide Parse, Print, Digits, TrimRight, Tens;
    var p, full := PartsOf(v, decimals), Digits(decimals, v % Tens(decimals));
    FullDigits(v, decimals);
    TrimRightZeros(full);
    JoinDigits(p.whole, p.decimal);
    if decimals == 0 {
      assert p.whole + full == p.whole + p.decimal;
    } else {
      var k := decimals - |p.decimal|;
      assert p.whole + full == (p.whole + p.decimal) + ZeroText(k);
      AppendZeros(p.whole + p.decimal, k);
      TensAdd(k, |p.decimal|);
      Regroup(Joined(p), Tens(k), Tens(|p.decimal|));
    }
  }

  /**
   * Printing a value and reading it into any format converts it exactly or throws: the result is w
   * if and only if w is in range and w over its scale equals the value over its own.
   */
  lemma ConvertsExactlyIff(val: int, decimals: nat, f: Format, w: int)
    ensures FromString(TextOf(val, decimals), f) == Ok(w) <==>
            InRange(w, f) && w * Tens(decimals) == val * Tens(f.decimals)
  {
    hide Split, Parse, Print, Tens, Digits, TrimRight, InRange, FromString, TextOf;
    var v := if val < 0 then -val else val;
    var p := PartsOf(val, decimals);
    TextSplits(val, decimals);
    TextDenotes(v, decimals);
    FromStringIff(TextOf(val, decimals), f, w);
    var j, k := if p.negative then -Joined(p) else Joined(p), Tens(|p.decimal|);
    assert j * Tens(decimals) == val * k by {
      assert (-Joined(p)) * Tens(decimals) == -(Joined(p) * Tens(decimals)) && (-v) * k == -(v * k);
      assert Joined(PartsOf(v, decimals)) == Joined(p);
    }
    CrossMultiply(w, k, j, Tens(f.decimals), Tens(decimals), val);
  }

  lemma CrossMultiply(w: int, k: int, j: int, b: int, a: int, val: int)
    requires k > 0 && a > 0 && b > 0 && j * a == val * k
    ensures w * k == j * b <==> w * a == val * b
  {
    Regroup(w, k, a);
    Regroup(j, b, a);
    Regroup(val, k, b);
    assert w * k * a == w * a * k && j * b * a == j * a * b == val * k * b == val * b * k;
    CancelFactor(w * k, j * b, a);
    CancelFactor(w * a, val * b, k);
  }

  /** Reading back what was printed in the same format gives the value. */
  lemma StringRoundTrip(val: int, f: Format)
    requires InRange(val, f)
    ensures FromString(TextOf(val, f.decimals), f) == Ok(val)
  {
    hide FromString, TextOf, InRange;
    ConvertsExactlyIff(val, f.decimals, f, val);
  }
}
