/** Fixed-point arithmetic: range checks and wrapping, and the operations that signal lost precision. */
module FixedPoint {
  import opened Wrappers
  import opened Bytes
  import opened Arithmetic

  /** A field of so many bits, with so many decimal places. */
  datatype Format = Format(signed: bool, width: nat, decimals: nat)

  function Tens(decimals: nat): (t: int)
    ensures t > 0
  {
    PowPositive(10, decimals);
    Pow(10, decimals)
  }

  // ---------- twos complement ----------

  function Modulus(width: nat): (m: int)
    ensures m > 0
  {
    PowPositive(2, width);
    Pow(2, width)
  }

  /** `1 << (width - 1)`, which for no bits at all is zero. */
  function Half(width: nat): (h: int)
    ensures h >= 0
  {
    if width == 0 then 0 else Pow(2, width - 1)
  }

  lemma HalfTwice(width: nat)
    ensures width > 0 ==> Modulus(width) == 2 * Half(width) && Half(width) > 0
  {
    if width > 0 {
      PowPositive(2, width - 1);
    }
  }

  function Mask(value: int, bits: nat): Result<int> {
    if value < 0 then Err else Ok(value % Modulus(bits))
  }

  /** With the top bit set, `-((~value & mask) + 1)` is the value less the modulus. */
  function FromTwos(value: int, width: nat): Result<int> {
    if value < 0 || value >= Modulus(width) then Err
    else if width > 0 && value >= Half(width) then Ok(-((Modulus(width) - 1 - value) + 1))
    else Ok(value)
  }

  function ToTwos(value: int, width: nat): Result<int>
    requires width > 0
  {
    if value < 0 then
      (if -value > Half(width) then Err
       else
         HalfTwice(width);
         Ok((Modulus(width) - 1 - -value) + 1))
    else if value >= Half(width) then Err
    else Ok(value)
  }

  /** The two are inverse between the signed range and the unsigned one. */
  lemma TwosRoundTrip(value: int, width: nat)
    requires width > 0
    ensures ToTwos(value, width).Ok? <==> -Half(width) <= value < Half(width)
    ensures ToTwos(value, width).Ok? ==> FromTwos(ToTwos(value, width).value, width) == Ok(value)
    ensures FromTwos(value, width).Ok? <==> 0 <= value < Modulus(width)
    ensures FromTwos(value, width).Ok? ==> ToTwos(FromTwos(value, width).value, width) == Ok(value)
  {
    HalfTwice(width);
  }

  // ---------- checkValue ----------

  /** The remainder that takes the sign of the dividend. */
  function TruncMod(a: int, m: int): int
    requires m > 0
  {
    if a >= 0 then a % m else -((-a) % m)
  }

  function TruncDiv(a: int, b: int): int
    requires b != 0
  {
    var q := (if a >= 0 then a else -a) / (if b >= 0 then b else -b);
    if (a >= 0) == (b >= 0) then q else -q
  }

  predicate InRange(val: int, f: Format) {
    if f.signed then -Half(f.width) <= val < Half(f.width) else 0 <= val < Modulus(f.width)
  }

  /** The wrapped value, for an operation that tolerates overflow. */
  function Wrap(val: int, f: Format): Result<int> {
    if f.signed then
      if val > 0 then
        var masked :- Mask(val, f.width);
        FromTwos(masked, f.width)
      else
        var masked :- Mask(-val, f.width);
        var negated :- FromTwos(masked, f.width);
        Ok(-negated)
    else
      var limit := Modulus(f.width);
      Ok(TruncMod(TruncMod(val, limit) + limit, limit) % limit)
  }

  function CheckValue(val: int, f: Format, safe: bool): Result<int> {
    if safe && !InRange(val, f) then Err else Wrap(val, f)
  }

  lemma UnsignedWraps(val: int, f: Format)
    requires !f.signed
    ensures Wrap(val, f) == Ok(val % Modulus(f.width))
  {
    hide Modulus, TruncMod;
    var m := Modulus(f.width);
    var r := TruncMod(val, m);
    var k := TruncModIs(val, m);
    var j := TruncModIs(r + m, m);
    SameModulo(r + m, val, m, k + 1);
    SameModulo(TruncMod(r + m, m), r + m, m, j);
  }

  lemma TruncModIs(val: int, m: int) returns (k: int)
    requires m > 0
    ensures -m < TruncMod(val, m) < m && TruncMod(val, m) == val + k * m
  {
    if val >= 0 {
      ModuloTimes(val, m);
      k := -(val / m);
    } else {
      ModuloTimes(-val, m);
      k := (-val) / m;
    }
  }

  lemma FromTwosIs(value: int, width: nat)
    requires 0 <= value < Modulus(width) && width > 0
    ensures FromTwos(value, width).Ok?
    ensures var r := FromTwos(value, width).value;
            (r == value || r == value - Modulus(width)) && -Half(width) <= r < Half(width) &&
            (r == -Half(width) <==> value == Half(width))
  {
    HalfTwice(width);
  }

  /**
   * Whatever the exact result, the stored one is congruent to it and no larger than half the
   * modulus. It leaves the signed range exactly when the result is not positive and its magnitude
   * wraps to the sign bit alone: the least value becomes plus itself.
   */
  lemma SignedWraps(val: int, f: Format)
    requires f.signed && f.width > 0
    ensures Wrap(val, f).Ok?
    ensures var r := Wrap(val, f).value;
            && r % Modulus(f.width) == val % Modulus(f.width)
            && -Half(f.width) <= r <= Half(f.width)
            && (r == Half(f.width) <==> val <= 0 && (-val) % Modulus(f.width) == Half(f.width))
  {
    hide FromTwos, Modulus, Half;
    var m := Modulus(f.width);
    HalfTwice(f.width);
    var masked := (if val > 0 then val else -val) % m;
    FromTwosIs(masked, f.width);
    var t := FromTwos(masked, f.width).value;
    if val > 0 {
      ModuloTimes(val, m);
      SameModulo(t, val, m, if t == masked then -(val / m) else -(val / m) - 1);
    } else {
      ModuloTimes(-val, m);
      SameModulo(-t, val, m, if t == masked then (-val) / m else (-val) / m + 1);
    }
  }

  /** A value in range is stored as it is, except the least signed one, which loses its sign. */
  lemma CheckedInRange(val: int, f: Format, safe: bool)
    requires InRange(val, f)
    ensures CheckValue(val, f, safe) == Ok(if f.signed && val == -Half(f.width) then Half(f.width) else val)
  {
    hide FromTwos, Modulus, Half, Wrap;
    HalfTwice(f.width);
    if f.signed {
      NoBits(f);
      SignedWraps(val, f);
      var r, m := Wrap(val, f).value, Modulus(f.width);
      SmallModulo(val, m);
      SmallModulo(-val, m);
      SmallModulo(r, m);
    } else {
      UnsignedWraps(val, f);
      SmallModulo(val, Modulus(f.width));
    }
  }

  lemma NoBits(f: Format)
    ensures f.signed && (exists val :: InRange(val, f)) ==> f.width > 0
  {
  }

  lemma SmallModulo(v: int, m: int)
    requires m > 0 && -m <= v <= m
    ensures v % m == if v == m || v == -m then 0 else if v >= 0 then v else v + m
  {
    if v == m {
      SameModulo(v, 0, m, 1);
    } else if v == -m {
      SameModulo(v, 0, m, -1);
    } else if v < 0 {
      SameModulo(v, v + m, m, -1);
      BelowModulus(v + m, m);
    } else {
      BelowModulus(v, m);
    }
  }

  lemma BelowModulus(v: int, m: int)
    requires 0 <= v < m
    ensures v % m == v
  {
  }

  // ---------- signalling multiplication and division ----------

  function MulSignal(a: int, b: int, f: Format): Result<int> {
    var value := a * b;
    if TruncMod(value, Tens(f.decimals)) != 0 then Err
    else CheckValue(TruncDiv(value, Tens(f.decimals)), f, true)
  }

  function DivSignal(a: int, b: int, f: Format): Result<int> {
    if b == 0 then Err
    else
      var value := a * Tens(f.decimals);
      if TruncMod(value, if b > 0 then b else -b) != 0 then Err
      else CheckValue(TruncDiv(value, b), f, true)
  }

  lemma ExactQuotient(value: int, b: int, q: int)
    requires b != 0 && value == q * b
    ensures TruncMod(value, if b > 0 then b else -b) == 0 && TruncDiv(value, b) == q
  {
    var v, d, p := if value >= 0 then value else -value, if b > 0 then b else -b, if q >= 0 then q else -q;
    Magnitudes(value, b, q, v, d, p);
    ExactNatural(v, d, p);
    SignOfProduct(value, b, q);
  }

  lemma Magnitudes(value: int, b: int, q: int, v: int, d: int, p: int)
    requires value == q * b
    requires v == (if value >= 0 then value else -value) && d == (if b > 0 then b else -b) && p == (if q >= 0 then q else -q)
    ensures v == p * d
  {
    if q >= 0 && b <= 0 {
      assert q * b == -(q * -b);
      ProductNotNegative(q, -b);
    } else if q < 0 && b > 0 {
      assert q * b == -(-q * b);
      ProductNotNegative(-q, b);
    } else if q < 0 {
      assert q * b == (-q) * (-b);
      ProductNotNegative(-q, -b);
    } else {
      ProductNotNegative(q, b);
    }
  }

  lemma ProductNotNegative(a: int, b: int)
    requires a >= 0 && b >= 0
    ensures a * b >= 0
  {
  }

  lemma ExactNatural(v: int, d: int, p: int)
    requires d > 0 && p >= 0 && v == p * d
    ensures v / d == p && v % d == 0
  {
    ModuloTimes(v, d);
    ModuloAlone(v % d, 0, d, v / d - p);
    TimesAtLeast(v / d - p, d);
  }

  lemma SignOfProduct(value: int, b: int, q: int)
    requires b != 0 && value == q * b
    ensures q > 0 ==> (value >= 0 <==> b >= 0)
    ensures q < 0 ==> (value >= 0 <==> b < 0)
    ensures q == 0 ==> value == 0
  {
  }

  lemma ExactIff(value: int, m: int) returns (q: int)
    requires m > 0 && TruncMod(value, m) == 0
    ensures value == q * m && TruncDiv(value, m) == q
  {
    var k := TruncModIs(value, m);
    q := -k;
    assert value == q * m;
    ExactQuotient(value, m, q);
  }

  /**
   * After a multiplication that signalled nothing, dividing by the same value gives the operand
   * back exactly if the operand is in range and not the least signed value; but where the product
   * is the least signed value, which is stored as plus itself, exactly for the operand that is so
   * stored too. The operand may be any integer, and so any that an operation stores.
   */
  lemma MulThenDivIff(a: int, b: int, f: Format)
    requires b != 0 && MulSignal(a, b, f).Ok?
    ensures DivSignal(MulSignal(a, b, f).value, b, f) == Ok(a) <==>
            if f.signed && a * b == -Half(f.width) * Tens(f.decimals) then a == Half(f.width)
            else InRange(a, f) && !(f.signed && a == -Half(f.width))
  {
    hide TruncMod, TruncDiv, CheckValue, Modulus, Half, Tens, InRange;
    var t := Tens(f.decimals);
    var q := ExactIff(a * b, t);
    InRangeChecked(q, f);
    CheckedInRange(q, f, true);
    CancelFactor(q, -Half(f.width), t);
    if f.signed && q == -Half(f.width) {
      SignedHalf(q, f);
      LeastProduct(a, b, f);
    } else {
      assert MulSignal(a, b, f) == Ok(q);
      ExactQuotient(q * t, b, a);
      assert DivSignal(q, b, f) == CheckValue(a, f, true);
      CheckedIsItself(a, f);
    }
  }

  lemma InRangeChecked(q: int, f: Format)
    ensures CheckValue(q, f, true).Ok? ==> InRange(q, f)
  {
  }

  lemma SignedHalf(a: int, f: Format)
    requires InRange(a, f) && f.signed
    ensures Half(f.width) > 0 && a != Half(f.width)
  {
  }

  /** The values that a safe operation stores as they are. */
  lemma CheckedIsItself(a: int, f: Format)
    ensures CheckValue(a, f, true) == Ok(a) <==> InRange(a, f) && !(f.signed && a == -Half(f.width))
  {
    hide CheckValue, Modulus, Half, InRange;
    InRangeChecked(a, f);
    if InRange(a, f) {
      CheckedInRange(a, f, true);
      if f.signed {
        SignedHalf(a, f);
      }
    }
  }

  /** Dividing the stored product negates the operand, and negating is undone for one value only. */
  lemma LeastProduct(a: int, b: int, f: Format)
    requires f.signed && b != 0 && Half(f.width) > 0 && a * b == -Half(f.width) * Tens(f.decimals)
    ensures DivSignal(Half(f.width), b, f) == Ok(a) <==> a == Half(f.width)
  {
    hide TruncMod, TruncDiv, CheckValue, Modulus, Half, Tens, InRange;
    var h, t := Half(f.width), Tens(f.decimals);
    assert h * t == -(a * b) == (-a) * b;
    ExactQuotient(h * t, b, -a);
    NotZero(a, b, h * t);
    InRangeChecked(-a, f);
    LeastInRange(f);
    if InRange(-a, f) {
      CheckedInRange(-a, f, true);
      SignedHalf(-a, f);
    }
  }

  lemma LeastInRange(f: Format)
    ensures f.signed && Half(f.width) > 0 ==> InRange(-Half(f.width), f)
  {
  }

  /** In eight bits with one decimal: 12.8 is stored, 12.8 times 0.5 is 6.4, and 6.4 by 0.5 overflows. */
  lemma StoredLeastValueIsLost()
    ensures var f := Format(true, 8, 1);
            CheckValue(-128, f, false) == Ok(128) && MulSignal(128, 5, f) == Ok(64) && DivSignal(64, 5, f) == Err
  {
    var f := Format(true, 8, 1);
    EightBitHalf();
    assert Tens(1) == 10;
    hide Modulus, Half, Tens, Wrap;
    CheckedInRange(-128, f, false);
    CheckedInRange(64, f, true);
    ExactQuotient(640, 10, 64);
    ExactQuotient(640, 5, 128);
  }

  lemma EightBitHalf()
    ensures Half(8) == 128
  {
    assert Pow(2, 3) == 8 && Pow(2, 5) == 32;
  }

  lemma NotZero(a: int, b: int, p: int)
    requires p == -(a * b) && p != 0
    ensures a != 0
  {
  }

  // ---------- runs of unsafe operations ----------

  datatype Step = Add(other: int) | Sub(other: int)

  /** `addUnsafe` or `subUnsafe`. */
  function ApplyStep(a: int, step: Step, f: Format): Result<int> {
    match step
    case Add(b) => CheckValue(a + b, f, false)
    case Sub(b) => CheckValue(a - b, f, false)
  }

  function RunSteps(a: int, steps: seq<Step>, f: Format): Result<int> {
    if steps == [] then Ok(a)
    else
      var before :- RunSteps(a, steps[..|steps| - 1], f);
      ApplyStep(before, steps[|steps| - 1], f)
  }

  /** The same run in unbounded integers. */
  function ExactRun(a: int, steps: seq<Step>): int {
    if steps == [] then a
    else
      var before := ExactRun(a, steps[..|steps| - 1]);
      match steps[|steps| - 1]
      case Add(b) => before + b
      case Sub(b) => before - b
  }

  lemma CongruentStep(x: int, y: int, b: int, m: int)
    requires m > 0 && x % m == y % m
    ensures (x + b) % m == (y + b) % m
  {
    ModuloTimes(x, m);
    ModuloTimes(y, m);
    assert x + b == (y + b) + (x / m - y / m) * m;
    SameModulo(x + b, y + b, m, x / m - y / m);
  }

  lemma WrapsCongruent(val: int, f: Format)
    requires f.width > 0
    ensures Wrap(val, f).Ok? && Wrap(val, f).value % Modulus(f.width) == val % Modulus(f.width)
  {
    hide FromTwos, Modulus, Half, Wrap;
    if f.signed {
      SignedWraps(val, f);
    } else {
      UnsignedWraps(val, f);
      ModuloTimes(val, Modulus(f.width));
      SameModulo(val % Modulus(f.width), val, Modulus(f.width), -(val / Modulus(f.width)));
    }
  }

  /** However often a run overflows on the way, its result is congruent to the exact one. */
  lemma {:induction false} RunIsCongruent(a: int, steps: seq<Step>, f: Format)
    requires f.width > 0
    ensures RunSteps(a, steps, f).Ok?
    ensures RunSteps(a, steps, f).value % Modulus(f.width) == ExactRun(a, steps) % Modulus(f.width)
    decreases |steps|
  {
    hide Modulus, Wrap;
    if steps != [] {
      var init, m := steps[..|steps| - 1], Modulus(f.width);
      RunIsCongruent(a, init, f);
      var x, y := RunSteps(a, init, f).value, ExactRun(a, init);
      var b := match steps[|steps| - 1] case Add(b) => b case Sub(b) => -b;
      CongruentStep(x, y, b, m);
      WrapsCongruent(x + b, f);
    }
  }
}
