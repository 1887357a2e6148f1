/** What fixed-point texts, products, quotients and units are, told without the code that computes them. */
module FixedLaws {
  import opened Wrappers
  import opened Bytes
  import opened Decimal
  import opened Arithmetic
  import opened Sequences
  import opened FixedPoint
  import opened FixedStrings
  import opened FixedCodec

  // ---------- the form of a text ----------

  /** A sign or none, digits, and possibly a point with digits behind it. */
  predicate IsDecimal(s: string, p: Parts) {
    && AllDigits(p.whole) && AllDigits(p.decimal)
    && ((p.decimal == "" && s == Sign(p.negative) + p.whole) || s == Sign(p.negative) + (p.whole + "." + p.decimal))
  }

  lemma SplitBodyIff(negative: bool, body: string, p: Parts)
    ensures SplitBody(negative, body) == Some(p) <==>
            && p.negative == negative && AllDigits(p.whole) && AllDigits(p.decimal)
            && ((p.decimal == "" && body == p.whole) || body == p.whole + "." + p.decimal)
  {
    hide DigitRun;
    var n := DigitRun(body);
    if SplitBody(negative, body) == Some(p) && n < |body| {
      assert body == body[..n] + "." + body[n + 1..];
    }
    if AllDigits(p.whole) && AllDigits(p.decimal) {
      SplitBodyOf(negative, p.whole, p.decimal);
    }
  }

  lemma SignShows(s: string, p: Parts)
    requires IsDecimal(s, p)
    ensures p.negative <==> s != "" && s[0] == '-'
    ensures s == Sign(p.negative) + s[if p.negative then 1 else 0..]
  {
    assert !p.negative && s != "" ==> s[0] == '.' || IsDigit(s[0]);
  }

  lemma Body(s: string, p: Parts)
    ensures IsDecimal(s, p) <==>
            && (p.negative <==> s != "" && s[0] == '-') && AllDigits(p.whole) && AllDigits(p.decimal)
            && var body := s[if p.negative then 1 else 0..];
               (p.decimal == "" && body == p.whole) || body == p.whole + "." + p.decimal
  {
    if IsDecimal(s, p) {
      SignShows(s, p);
    }
    assert ("-" + p.whole)[1..] == p.whole && ("-" + (p.whole + "." + p.decimal))[1..] == p.whole + "." + p.decimal;
    assert s != "" && s[0] == '-' ==> s == "-" + s[1..];
    assert s[0..] == s && "" + p.whole == p.whole && "" + (p.whole + "." + p.decimal) == p.whole + "." + p.decimal;
  }

  /** A text is taken apart exactly if it is a decimal, into its sign and its two rows of digits. */
  lemma SplitIff(s: string, p: Parts)
    ensures Split(s) == Some(p) <==> IsDecimal(s, p)
  {
    hide SplitBody, IsDecimal;
    Body(s, p);
    if s != "" && s[0] == '-' {
      SplitBodyIff(true, s[1..], p);
    } else {
      SplitBodyIff(false, s, p);
      assert s[0..] == s;
    }
  }

  /**
   * Reading a text, whatever it is: it throws exactly if the text is no decimal with a digit, or what it
   * denotes is no multiple of the last place or out of range; the result is otherwise exactly that number.
   */
  lemma FromTextExactly(s: string, f: Format, v: int)
    ensures FromString(s, f) == Ok(v) <==>
            exists p :: IsDecimal(s, p) && |p.whole| + |p.decimal| > 0 && InRange(v, f) &&
                        v * Tens(|p.decimal|) == (if p.negative then -Joined(p) else Joined(p)) * Tens(f.decimals)
  {
    hide Split, IsDecimal, InRange, Tens, Joined, FromString;
    if Split(s).Some? {
      SplitIff(s, Split(s).value);
      NoDigits(s, f);
      if |Split(s).value.whole| + |Split(s).value.decimal| > 0 {
        FromStringIff(s, f, v);
      }
    } else {
      NoParts(s, f);
    }
    forall p | IsDecimal(s, p)
      ensures Split(s) == Some(p)
    {
      SplitIff(s, p);
    }
  }

  lemma NoDigits(s: string, f: Format)
    requires Split(s).Some?
    ensures |Split(s).value.whole| + |Split(s).value.decimal| == 0 ==> FromString(s, f) == Err
  {
    hide Split;
  }

  lemma NoParts(s: string, f: Format)
    requires Split(s).None?
    ensures FromString(s, f) == Err
  {
    hide Split;
  }

  // ---------- printed texts ----------

  lemma {:induction false} NoLeadingZero(n: nat)
    ensures Print(n)[0] == '0' <==> n == 0
    ensures n == 0 ==> Print(n) == "0"
  {
    if n >= 10 {
      NoLeadingZero(n / 10);
    } else {
      assert DigitValue(DigitChar(n)) == n;
    }
  }

  /** No zero in front of another digit, and none at the end of more than one decimal. */
  predicate IsShort(p: Parts, decimals: nat) {
    && p.whole != "" && (p.whole[0] == '0' ==> p.whole == "0")
    && (p.decimal == "" <==> decimals == 0) && |p.decimal| <= decimals
    && (|p.decimal| > 1 ==> p.decimal[|p.decimal| - 1] != '0')
  }

  lemma ShortParts(negative: bool, n: nat, digits: string, decimals: nat)
    requires AllDigits(digits) && |digits| == decimals
    ensures IsShort(Parts(negative, Print(n), if decimals == 0 then "" else TrimRight(digits)), decimals)
  {
    hide Print, TrimRight;
    NoLeadingZero(n);
    TrimRightZeros(digits);
  }

  lemma {:induction false} PartsAreShort(val: int, decimals: nat)
    ensures IsShort(PartsOf(val, decimals), decimals)
  {
    hide *;
    var whole, digits := PartsShow(val, decimals);
    ShortParts(val < 0, whole, digits, decimals);
  }

  lemma {:induction false} PartsShow(val: int, decimals: nat) returns (whole: nat, digits: string)
    ensures AllDigits(digits) && |digits| == decimals
    ensures PartsOf(val, decimals) == Parts(val < 0, Print(whole), if decimals == 0 then "" else TrimRight(digits))
  {
    hide Print, Tens, Digits, TrimRight;
    var v, t := if val < 0 then -val else val, Tens(decimals);
    Divides(v, t);
    whole, digits := v / t, Digits(decimals, v % t);
  }

  lemma Divides(v: nat, t: int)
    requires t > 0
    ensures v / t >= 0 && v % t >= 0
  {
  }

  /**
   * What is printed is the shortest decimal of the value, with a sign exactly for negative values and
   * decimals exactly if the format has any.
   */
  lemma TextIsShortest(val: int, decimals: nat)
    ensures var p := PartsOf(val, decimals);
            && IsDecimal(TextOf(val, decimals), p) && (p.negative <==> val < 0) && IsShort(p, decimals)
            && AllDigits(p.whole) && AllDigits(p.decimal)
            && ((if p.negative then -Joined(p) else Joined(p)) * Tens(decimals) == val * Tens(|p.decimal|))
  {
    hide Print, Tens, Digits, TrimRight, Split, TextOf, Joined, IsShort;
    var v := if val < 0 then -val else val;
    var p := PartsOf(val, decimals);
    TextSplits(val, decimals);
    SplitIff(TextOf(val, decimals), p);
    PartsAreShort(val, decimals);
    TextDenotes(v, decimals);
    SameJoined(p, PartsOf(v, decimals));
    Negated(Joined(p), Tens(decimals), v, Tens(|p.decimal|));
  }

  lemma SameJoined(p: Parts, q: Parts)
    requires AllDigits(p.whole) && AllDigits(p.decimal) && q.whole == p.whole && q.decimal == p.decimal
    ensures Joined(q) == Joined(p)
  {
  }

  lemma Negated(j: int, a: int, v: int, b: int)
    requires j * a == v * b
    ensures (-j) * a == (-v) * b
  {
    assert (-j) * a == -(j * a) && (-v) * b == -(v * b);
  }

  // ---------- range ----------

  /** In range are exactly the values that have a pattern of the format's width. */
  lemma InRangeIff(v: int, f: Format)
    requires f.width > 0
    ensures InRange(v, f) <==> if f.signed then ToTwos(v, f.width).Ok? else 0 <= v && Mask(v, f.width) == Ok(v)
  {
    hide Modulus, Half;
    if f.signed {
      TwosRoundTrip(v, f.width);
    } else if 0 <= v < Modulus(f.width) {
      BelowModulus(v, Modulus(f.width));
    }
  }

  // ---------- signalling products and quotients ----------

  /** How a value in range is stored: the least signed one without its sign. */
  function StoredAs(q: int, f: Format): int {
    if f.signed && q == -Half(f.width) then Half(f.width) else q
  }

  lemma CheckedAs(q: int, f: Format)
    ensures CheckValue(q, f, true) == if InRange(q, f) then Ok(StoredAs(q, f)) else Err
  {
    hide Wrap, InRange;
    if InRange(q, f) {
      CheckedInRange(q, f, true);
    }
  }

  lemma SameQuotient(q: int, r: int, b: int)
    requires b != 0 && q * b == r * b
    ensures q == r
  {
    if b > 0 {
      CancelFactor(q, r, b);
    } else {
      assert q * -b == -(q * b) && r * -b == -(r * b);
      CancelFactor(q, r, -b);
    }
  }

  /** `mulSignal` gives the exact product in units of the last place, and throws if there is none in range. */
  lemma MulSignalIff(a: int, b: int, f: Format, v: int)
    ensures MulSignal(a, b, f) == Ok(v) <==>
            exists q :: InRange(q, f) && q * Tens(f.decimals) == a * b && v == StoredAs(q, f)
  {
    hide TruncMod, TruncDiv, CheckValue, InRange, Tens, StoredAs;
    var t := Tens(f.decimals);
    if TruncMod(a * b, t) == 0 {
      var q := ExactIff(a * b, t);
      CheckedAs(q, f);
      forall r | r * t == a * b
        ensures r == q
      {
        SameQuotient(r, q, t);
      }
    } else {
      forall q
        ensures q * t != a * b
      {
        if q * t == a * b {
          ExactQuotient(a * b, t, q);
        }
      }
    }
  }

  /** `divSignal` gives the exact quotient in units of the last place, and throws if there is none in range. */
  lemma DivSignalIff(a: int, b: int, f: Format, v: int)
    ensures DivSignal(a, b, f) == Ok(v) <==>
            b != 0 && exists q :: InRange(q, f) && q * b == a * Tens(f.decimals) && v == StoredAs(q, f)
  {
    hide TruncMod, TruncDiv, CheckValue, InRange, Tens, StoredAs;
    if b != 0 {
      var value, m := a * Tens(f.decimals), if b > 0 then b else -b;
      if TruncMod(value, m) == 0 {
        var r := ExactIff(value, m);
        var q := if b > 0 then r else -r;
        assert q * b == value by {
          assert (-r) * b == r * -b;
        }
        ExactQuotient(value, b, q);
        CheckedAs(q, f);
        forall r | r * b == value
          ensures r == q
        {
          SameQuotient(r, q, b);
        }
      } else {
        forall q
          ensures q * b != value
        {
          if q * b == value {
            ExactQuotient(value, b, q);
          }
        }
      }
    }
  }

  // ---------- units ----------

  /** The decimal places of each unit; without one, those of the last, and other names are refused. */
  lemma UnitPlaces(name: string)
    ensures Decimals(Named("ore")) == Ok(0) && Decimals(Named("fecore")) == Ok(3) && Decimals(Named("picore")) == Ok(6)
    ensures Decimals(Named("nacore")) == Ok(9) && Decimals(Named("mcore")) == Ok(12) && Decimals(Named("micore")) == Ok(15)
    ensures Decimals(Named("core")) == Decimals(Default) == Ok(18)
    ensures Decimals(Named(name)).Ok? <==> name in {"ore", "fecore", "picore", "nacore", "mcore", "micore", "core"}
  {
    hide IndexOf;
    var i0, i1, i2 := IndexOf(UNIT_NAMES, "ore"), IndexOf(UNIT_NAMES, "fecore"), IndexOf(UNIT_NAMES, "picore");
    var i3, i4, i5 := IndexOf(UNIT_NAMES, "nacore"), IndexOf(UNIT_NAMES, "mcore"), IndexOf(UNIT_NAMES, "micore");
    var i6 := IndexOf(UNIT_NAMES, "core");
    DistinctUnits();
    assert UNIT_NAMES[0] == "ore" && UNIT_NAMES[1] == "fecore" && UNIT_NAMES[2] == "picore" && UNIT_NAMES[3] == "nacore";
    assert UNIT_NAMES[4] == "mcore" && UNIT_NAMES[5] == "micore" && UNIT_NAMES[6] == "core";
  }

  lemma DistinctUnits()
    ensures |UNIT_NAMES| == 7 && forall i, j :: 0 <= i < j < 7 ==> UNIT_NAMES[i] != UNIT_NAMES[j]
  {
    assert "fecore"[0] == 'f' && "picore"[0] == 'p' && "nacore"[0] == 'n' && "micore"[0] == 'm';
  }

  lemma {:induction false} PointIs(head: string, rest: string)
    requires '.' !in head
    ensures PointAt(head) == |head| && PointAt(head + "." + rest) == |head|
  {
    var n := head + "." + rest;
    assert n[|head|] == '.' && forall k :: 0 <= k < |head| ==> n[k] == head[k];
  }

  lemma KeptDigits(p: Parts, d: nat)
    requires AllDigits(p.whole) && AllDigits(p.decimal)
    ensures var kept := Kept(p, d);
            && AllDigits(kept) && |kept| <= d && ToLength(kept, d) == ToLength(p.decimal, d) && SurplusIsZero(kept, d)
  {
  }

  /** The digits that are kept make up the whole quotient. */
  lemma ScaledIsQuotient(p: Parts, d: nat)
    requires AllDigits(p.whole) && AllDigits(p.decimal)
    ensures Scaled(p, d) == Joined(p) * Tens(d) / Tens(|p.decimal|)
  {
    hide Parse, Tens, Joined, Scaled;
    var n := |p.decimal|;
    if n <= d {
      ScaledShorter(p, d);
      TensAdd(d - n, n);
      FixedStrings.Regroup(Joined(p), Tens(d - n), Tens(n));
      QuotientRemainder(Joined(p) * Tens(d), Scaled(p, d), Tens(n), 0);
    } else {
      ScaledLonger(p, d);
      TensAdd(n - d, d);
      var r := Parse(p.decimal[d..]);
      Spread(Scaled(p, d), Tens(n - d), r, Tens(d));
      QuotientRemainder(Joined(p) * Tens(d), Scaled(p, d), Tens(n), r * Tens(d));
    }
  }

  lemma Spread(s: int, t: int, r: int, u: int)
    requires 0 <= r < t && u > 0
    ensures (s * t + r) * u == s * (t * u) + r * u && 0 <= r * u < t * u
  {
    TimesAtLeast(t - r, u);
    assert (t - r) * u == t * u - r * u;
    ProductNotNegative(r, u);
  }

  lemma TrimmedIs(head: string, p: Parts, d: nat)
    requires AllDigits(p.whole) && AllDigits(p.decimal) && head == Sign(p.negative) + p.whole
    ensures TrimDecimals(head + "." + p.decimal, d) == head + "." + Kept(p, d)
    ensures TrimDecimals(head, d) == head
  {
    hide PointAt;
    var n := head + "." + p.decimal;
    PointIs(head, p.decimal);
    PointIs(p.decimal, "");
    assert n[|head| + 1..] == p.decimal && n[..|head|] == head && p.decimal[..|p.decimal|] == p.decimal;
  }

  function Kept(p: Parts, d: nat): string {
    if |p.decimal| > d then p.decimal[..d] else p.decimal
  }

  /** With the surplus cut off, what is read is the quotient. */
  lemma ReadKept(text: string, p: Parts, d: nat)
    requires AllDigits(p.whole) && AllDigits(p.decimal) && IsDecimal(text, Parts(p.negative, p.whole, Kept(p, d)))
    ensures var n := Joined(p) * Tens(d) / Tens(|p.decimal|);
            var v := if p.negative then -n else n;
            FromString(text, UnitFormat(d)) ==
            if (p.whole == "" && (p.decimal == "" || d == 0)) || !InRange(v, UnitFormat(d)) then Err else Ok(v)
  {
    hide Tens, Joined, Parse, Split, InRange, ToLength, IsDecimal, SurplusIsZero;
    KeptDigits(p, d);
    var q := Parts(p.negative, p.whole, Kept(p, d));
    SplitIff(text, q);
    WholeOrZero(q, d);
    ScaledIsQuotient(p, d);
  }

  /** Cutting the surplus off leaves a decimal. */
  lemma TrimIsDecimal(text: string, p: Parts, d: nat)
    requires IsDecimal(text, p)
    ensures IsDecimal(TrimDecimals(text, d), Parts(p.negative, p.whole, Kept(p, d))) && 'e' !in text
  {
    hide TrimDecimals;
    var head := Sign(p.negative) + p.whole;
    KeptDigits(p, d);
    TrimmedIs(head, p, d);
    PlainText(text, p);
    assert Sign(p.negative) + (p.whole + "." + p.decimal) == head + "." + p.decimal;
    assert Sign(p.negative) + (p.whole + "." + Kept(p, d)) == head + "." + Kept(p, d);
  }

  /**
   * Parsing in a unit cuts surplus decimals off: a decimal without exponent gives the whole units of the
   * last place in what it denotes, towards zero, and throws exactly if these are out of range or no digit is left.
   */
  lemma ParseUnitsTruncates(scientific: string -> string, text: string, p: Parts, unit: Unit, d: nat)
    requires IsDecimal(text, p) && unit != Default && Decimals(unit) == Ok(d) && d <= 80
    ensures var n := Joined(p) * Tens(d) / Tens(|p.decimal|);
            var v := if p.negative then -n else n;
            ParseUnits(scientific, text, unit) ==
            if (p.whole == "" && (p.decimal == "" || d == 0)) || !InRange(v, UnitFormat(d)) then Err else Ok(v)
  {
    hide Decimals, Tens, Joined, InRange, TrimDecimals, FromString, Kept;
    TrimIsDecimal(text, p, d);
    ReadKept(TrimDecimals(text, d), p, d);
  }

  lemma PlainText(text: string, p: Parts)
    requires IsDecimal(text, p)
    ensures 'e' !in text
  {
  }
}
