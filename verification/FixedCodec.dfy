/** The loops over decimal texts, and the unit conversions that use them. */
module FixedCodec {
  import opened Wrappers
  import opened Bytes
  import opened Sequences
  import opened Arithmetic
  import opened Decimal
  import opened FixedPoint
  import opened FixedStrings

  /** The store of zeros, doubled from four until it has eighty. */
  method MakeZeros() returns (zeros: string)
    ensures zeros == ZeroText(128)
  {
    zeros := "0000";
    while |zeros| < 80
      invariant |zeros| in {4, 8, 16, 32, 64, 128} && zeros == ZeroText(|zeros|)
      decreases 128 - |zeros|
    {
      zeros := zeros + zeros;
    }
  }

  /** `getTens`. */
  method GetTens(zeros: string, decimals: nat) returns (tens: int)
    requires zeros == ZeroText(128)
    ensures tens == Tens(decimals)
  {
    var result := zeros;
    while |result| < decimals
      invariant |result| >= 128 && result == ZeroText(|result|)
      decreases decimals - |result|
    {
      result := result + result;
    }
    assert result[..decimals] == ZeroText(decimals);
    OneAndZeros(decimals);
    tens := Parse("1" + result[..decimals]);
  }

  lemma OneAndZeros(decimals: nat)
    ensures AllDigits("1" + ZeroText(decimals)) && Parse("1" + ZeroText(decimals)) == Tens(decimals)
  {
    AppendZeros("1", decimals);
    assert Parse("1") == 1;
  }

  // ---------- printing ----------

  lemma ZeroInFront(zeros: string, s: string)
    requires AllDigits(s) && AllDigits(zeros) && Parse(zeros) == 0
    ensures AllDigits(zeros + s) && Parse(zeros + s) == Parse(s)
  {
    ParseAppend(zeros, s);
  }

  /** Padding: zeros in front until there is a whole digit. */
  method Pad(zeros: string, digits: string, decimals: nat) returns (str: string)
    requires zeros == ZeroText(128) && AllDigits(digits)
    ensures AllDigits(str) && |str| > decimals && Parse(str) == Parse(digits)
  {
    hide Parse;
    str := digits;
    ZeroTextParse(128);
    while |str| <= decimals
      invariant AllDigits(str) && Parse(str) == Parse(digits)
      decreases decimals - |str|
    {
      ZeroInFront(zeros, str);
      str := zeros + str;
    }
  }

  /** The parts on both sides of the point are quotient and remainder. */
  lemma SplitValue(w: string, d: string)
    requires AllDigits(w) && AllDigits(d)
    ensures AllDigits(w + d)
    ensures Parse(w + d) / Tens(|d|) == Parse(w) && Digits(|d|, Parse(w + d) % Tens(|d|)) == d
  {
    hide Parse, Digits;
    ParseAppend(w, d);
    ParseBound(d);
    ParseDigits(d);
    TensIs(|d|);
    QuotientRemainder(Parse(w + d), Parse(w), Tens(|d|), Parse(d));
  }

  /** Trimming the whole part: leading zeros go, but for one digit. */
  method TrimWhole(str0: string, ghost whole: string, ghost fraction: string) returns (str: string)
    requires str0 == whole + "." + fraction && AllDigits(whole) && whole != ""
    ensures str == Print(Parse(whole)) + "." + fraction
  {
    hide Parse, Print;
    str := str0;
    ghost var w := whole;
    while str[0] == '0' && str[1] != '.'
      invariant str == w + "." + fraction && AllDigits(w) && w != "" && Parse(w) == Parse(whole)
      decreases |w|
    {
      assert |w| > 1;
      LeadingZero(w);
      assert str[1..] == w[1..] + "." + fraction;
      str := str[1..];
      w := w[1..];
    }
    assert str[0] == w[0] && (|w| > 1 ==> str[1] == w[1]);
    PrintParse(w);
  }

  lemma LeadingZero(w: string)
    requires AllDigits(w) && w != "" && w[0] == '0'
    ensures AllDigits(w[1..]) && Parse(w[1..]) == Parse(w)
  {
    assert w == "0" + w[1..];
    ParseAppend("0", w[1..]);
    assert Parse("0") == 0;
  }

  /** Trimming the decimals: trailing zeros go, but for one digit. */
  method TrimFraction(str0: string, ghost head: string, ghost fraction: string) returns (str: string)
    requires str0 == head + "." + fraction && AllDigits(fraction) && fraction != ""
    ensures str == head + "." + TrimRight(fraction)
  {
    str := str0;
    ghost var g := fraction;
    while str[|str| - 1] == '0' && str[|str| - 2] != '.'
      invariant str == head + "." + g && AllDigits(g) && g != "" && TrimRight(g) == TrimRight(fraction)
      decreases |g|
    {
      assert |g| > 1;
      assert str[..|str| - 1] == head + "." + g[..|g| - 1];
      str := str[..|str| - 1];
      g := g[..|g| - 1];
    }
    assert |g| > 1 ==> str[|str| - 2] == g[|g| - 2] && str[|str| - 1] == g[|g| - 1];
  }

  /** `toString`: the loops print what `TextOf` says. */
  method ToString(val0: int, decimals: nat) returns (text: string)
    ensures text == TextOf(val0, decimals)
  {
    hide Parse, Print, Digits, TrimRight, Tens;
    var negative, val := "", val0;
    if val < 0 {
      negative := "-";
      val := val * -1;
    }
    var str := Print(val);
    if decimals == 0 {
      NoDecimals(val);
      assert Print(val) + "" == Print(val);
      return negative + str;
    }
    var zeros := MakeZeros();
    ParsePrint(val);
    str := Pad(zeros, str, decimals);
    var index := |str| - decimals;
    ghost var whole, fraction := str[..index], str[index..];
    assert str == whole + fraction;
    SplitValue(whole, fraction);
    str := str[..index] + "." + str[index..];
    str := TrimWhole(str, whole, fraction);
    str := TrimFraction(str, Print(Parse(whole)), fraction);
    assert Print(Parse(whole)) + "." + TrimRight(fraction) == Print(Parse(whole)) + ("." + TrimRight(fraction));
    text := negative + str;
  }

  lemma NoDecimals(v: nat)
    ensures Tens(0) == 1 && v / Tens(0) == v
  {
  }

  // ---------- reading ----------

  /** `fromString`: the padding loop, the check of the surplus, and the value. */
  method FromText(s: string, f: Format) returns (r: Result<int>)
    ensures r == FromString(s, f)
  {
    hide Parse, Split, InRange;
    var match_ := Split(s);
    if match_.None? || |match_.value.whole| + |match_.value.decimal| == 0 {
      return Err;
    }
    var whole := if match_.value.whole == "" then "0" else match_.value.whole;
    var decimal := match_.value.decimal;
    ghost var given := decimal;
    var zeros := MakeZeros();
    while |decimal| < f.decimals
      invariant |decimal| >= |given| && decimal == given + ZeroText(|decimal| - |given|)
      decreases f.decimals - |decimal|
    {
      decimal := decimal + zeros;
    }
    assert forall i :: |given| <= i < |decimal| ==> decimal[i] == '0';
    assert forall i :: 0 <= i < |given| ==> decimal[i] == given[i];
    assert SurplusIsZero(decimal, f.decimals) <==> SurplusIsZero(given, f.decimals);
    if !SurplusIsZero(decimal, f.decimals) {
      return Err;
    }
    decimal := decimal[..f.decimals];
    assert decimal == ToLength(given, f.decimals);
    JoinDigits(whole, decimal);
    var value: int := Parse(whole + decimal);
    if match_.value.negative {
      value := -value;
    }
    if !InRange(value, f) {
      return Err;
    }
    return Ok(value);
  }

  // ---------- integers with a scale ----------

  /** `fromValue`: a value with so many decimals in another format. */
  function FromValue(value: int, decimals: nat, f: Format): Result<int> {
    if decimals > f.decimals then
      var tens := Tens(decimals - f.decimals);
      if TruncMod(value, tens) != 0 then Err
      else if InRange(TruncDiv(value, tens), f) then Ok(TruncDiv(value, tens)) else Err
    else
      var scaled := if decimals < f.decimals then value * Tens(f.decimals - decimals) else value;
      if InRange(scaled, f) then Ok(scaled) else Err
  }

  /** The conversion is exact or throws. */
  lemma FromValueIff(value: int, decimals: nat, f: Format, w: int)
    ensures FromValue(value, decimals, f) == Ok(w) <==>
            InRange(w, f) && w * Tens(decimals) == value * Tens(f.decimals)
  {
    hide Tens, InRange, TruncMod, TruncDiv;
    if decimals > f.decimals {
      var k := decimals - f.decimals;
      var t := Tens(k);
      TensAdd(k, f.decimals);
      Regroup(w, t, Tens(f.decimals));
      CancelFactor(w * t, value, Tens(f.decimals));
      if w * t == value {
        ExactQuotient(value, t, w);
      }
      if TruncMod(value, t) == 0 {
        var q := ExactIff(value, t);
        CancelFactor(w, q, t);
      }
    } else {
      var k := f.decimals - decimals;
      TensAdd(k, decimals);
      Regroup(value, Tens(k), Tens(decimals));
      CancelFactor(w, value * Tens(k), Tens(decimals));
      TensZero();
    }
  }

  lemma TensZero()
    ensures Tens(0) == 1
  {
  }

  // ---------- units ----------

  const UNIT_NAMES := ["ore", "fecore", "picore", "nacore", "mcore", "micore", "core"]

  datatype Unit = Default | Named(name: string) | Places(decimals: nat)

  function Decimals(unit: Unit): Result<nat> {
    match unit
    case Default => Ok(18)
    case Named(name) => var i := IndexOf(UNIT_NAMES, name); if i >= 0 then Ok(3 * i) else Err
    case Places(d) => Ok(d)
  }

  function UnitFormat(decimals: nat): Format {
    Format(true, 128, decimals)
  }

  function FormatUnits(value: int, unit: Unit): Result<string> {
    var decimals :- Decimals(unit);
    if decimals > 80 then Err
    else
      var v :- FromValue(value, decimals, UnitFormat(decimals));
      Ok(TextOf(v, decimals))
  }

  function PointAt(s: string): (i: nat)
    ensures i <= |s| && (i < |s| ==> s[i] == '.') && forall k :: 0 <= k < i ==> s[k] != '.'
  {
    if s == "" || s[0] == '.' then 0 else 1 + PointAt(s[1..])
  }

  /** What stands before the first point, and up to `decimals` characters before the next one. */
  function TrimDecimals(n: string, decimals: nat): string {
    var i := PointAt(n);
    if i == |n| then n
    else
      var fraction := n[i + 1..][..PointAt(n[i + 1..])];
      n[..i] + "." + (if |fraction| > decimals then fraction[..decimals] else fraction)
  }

  /** `parseUnits`; what is done about an exponent is a parameter. */
  function ParseUnits(scientific: string -> string, text: string, unit: Unit): Result<int> {
    var plain := if 'e' in text then scientific(text) else text;
    var decimals :- Decimals(unit);
    var trimmed := if unit.Default? then plain else TrimDecimals(plain, decimals);
    if decimals > 80 then Err else FromString(trimmed, UnitFormat(decimals))
  }

  /** Nothing in a printed value looks like an exponent, and its decimals are not too many. */
  lemma TextIsPlain(val: int, decimals: nat)
    ensures 'e' !in TextOf(val, decimals) && TrimDecimals(TextOf(val, decimals), decimals) == TextOf(val, decimals)
  {
    hide TextOf, PartsOf, TrimDecimals;
    var p := PartsOf(val, decimals);
    PartsShape(val, decimals);
    var head := Sign(p.negative) + p.whole;
    PlainHead(p.negative, p.whole);
    if decimals == 0 {
      assert Sign(p.negative) + (p.whole + "") == head;
      NoPoint(head, decimals);
    } else {
      assert Sign(p.negative) + (p.whole + ("." + p.decimal)) == head + "." + p.decimal;
      OnlyPoint(head, p.decimal, decimals);
    }
  }

  lemma PartsShape(val: int, decimals: nat)
    ensures var p := PartsOf(val, decimals);
            && AllDigits(p.whole) && AllDigits(p.decimal) && |p.decimal| <= decimals
            && TextOf(val, decimals) == Sign(p.negative) + (p.whole + if decimals == 0 then "" else "." + p.decimal)
  {
    hide Print, Tens, Digits, TrimRight;
    var v := if val < 0 then -val else val;
    TrimRightZeros(Digits(decimals, v % Tens(decimals)));
  }

  predicate Plain(head: string) {
    forall i :: 0 <= i < |head| ==> head[i] != '.' && head[i] != 'e'
  }

  lemma PlainHead(negative: bool, digits: string)
    requires AllDigits(digits)
    ensures Plain(Sign(negative) + digits)
  {
  }

  lemma NoPoint(head: string, decimals: nat)
    requires Plain(head)
    ensures 'e' !in head && TrimDecimals(head, decimals) == head
  {
  }

  lemma OnlyPoint(head: string, fraction: string, decimals: nat)
    requires AllDigits(fraction) && |fraction| <= decimals && Plain(head)
    ensures 'e' !in head + "." + fraction
    ensures TrimDecimals(head + "." + fraction, decimals) == head + "." + fraction
  {
    var n := head + "." + fraction;
    assert n[|head|] == '.' && PointAt(n) == |head|;
    assert n[|head| + 1..] == fraction && PointAt(fraction) == |fraction|;
    assert n[..|head|] == head && fraction[..|fraction|] == fraction;
  }

  /** Formatting succeeds exactly on the 128-bit range, and parsing in the same unit undoes it. */
  lemma UnitsRoundTrip(scientific: string -> string, value: int, unit: Unit)
    ensures FormatUnits(value, unit).Ok? <==>
            Decimals(unit).Ok? && Decimals(unit).value <= 80 && -Half(128) <= value < Half(128)
    ensures FormatUnits(value, unit).Ok? ==> ParseUnits(scientific, FormatUnits(value, unit).value, unit) == Ok(value)
  {
    hide FromString, TextOf, TrimDecimals, Half;
    if Decimals(unit).Ok? && Decimals(unit).value <= 80 {
      var d := Decimals(unit).value;
      if InRange(value, UnitFormat(d)) {
        StringRoundTrip(value, UnitFormat(d));
        TextIsPlain(value, d);
      }
    }
  }
}
