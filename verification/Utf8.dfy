/**
 * UTF-8: the finite-state decoder with its three error strategies, the encoder from UTF-16 code
 * units, and their relation to the byte grammar of section 4 of RFC 3629. Shifts and masks are
 * written as the quotients and remainders they compute.
 */
module Utf8 {
  import opened Wrappers
  import opened Bytes
  import opened Sequences

  type unit16 = u: int | 0 <= u < 0x1_0000

  datatype Strategy = Throw | Ignore | Replace

  datatype Reason =
    | UnexpectedContinue | BadPrefix | Overrun | MissingContinue | OutOfRange | Utf16Surrogate | Overlong

  /** A code point that UTF-8 may carry: in range and not half of a surrogate pair. */
  predicate IsScalar(v: int) {
    0 <= v < 0xd800 || 0xe000 <= v <= 0x10ffff
  }

  predicate IsContinuation(b: byte) {
    b / 64 == 2
  }

  // ---------- the error strategies ----------

  /** How many continuation bytes stand at `i` and behind. */
  function ContinuationRun(bytes: seq<byte>, i: nat): (n: nat)
    requires i <= |bytes|
    ensures i + n <= |bytes|
    decreases |bytes| - i
  {
    if i < |bytes| && IsContinuation(bytes[i]) then 1 + ContinuationRun(bytes, i + 1) else 0
  }

  function IgnoreSkip(reason: Reason, offset: nat, bytes: seq<byte>): (skip: nat)
    requires offset < |bytes|
    ensures offset + skip < |bytes|
  {
    match reason
    case BadPrefix => ContinuationRun(bytes, offset + 1)
    case UnexpectedContinue => ContinuationRun(bytes, offset + 1)
    case Overrun => |bytes| - offset - 1
    case _ => 0
  }

  /** What one round of the decoder does: where it resumes and what it appends. */
  datatype Round = Round(next: nat, output: seq<int>)

  /** The error function of the strategy, called with the read position already at `at`. */
  function Report(strategy: Strategy, reason: Reason, offset: nat, bytes: seq<byte>, at: nat, bad: int): Result<Round>
    requires offset < |bytes|
  {
    match strategy
    case Throw => Err
    case Ignore => Ok(Round(at + IgnoreSkip(reason, offset, bytes), []))
    case Replace =>
      if reason == Overlong then Ok(Round(at, [bad]))
      else Ok(Round(at + IgnoreSkip(reason, offset, bytes), [0xfffd]))
  }

  // ---------- the decoder ----------

  /** The number of bytes that have to follow a lead byte; None for a byte that cannot lead. */
  function ExtraLength(c: byte): (n: Option<nat>)
    ensures n.Some? ==> 1 <= n.value <= 3
  {
    if c / 32 == 6 then Some(1)
    else if c / 16 == 14 then Some(2)
    else if c / 8 == 30 then Some(3)
    else None
  }

  /** The payload bits of a lead byte with `extra` followers. */
  function LeadBits(c: byte, extra: nat): nat
    requires 1 <= extra <= 3
  {
    if extra == 1 then c % 32 else if extra == 2 then c % 16 else c % 8
  }

  function OverlongMask(extra: nat): nat
    requires 1 <= extra <= 3
  {
    if extra == 1 then 0x7f else if extra == 2 then 0x7ff else 0xffff
  }

  /** The bits of `extra` continuation bytes behind `res`, or where one is missing. */
  datatype Tail = Complete(res: nat) | Missing(at: nat)

  function ReadTail(bytes: seq<byte>, i: nat, extra: nat, res: nat): (t: Tail)
    requires i + extra <= |bytes|
    ensures t.Missing? ==> i <= t.at < i + extra
    decreases extra
  {
    if extra == 0 then Complete(res)
    else if !IsContinuation(bytes[i]) then Missing(i)
    else ReadTail(bytes, i + 1, extra - 1, res * 64 + bytes[i] % 64)
  }

  function DecodeRound(bytes: seq<byte>, i: nat, strategy: Strategy): (r: Result<Round>)
    requires i < |bytes|
    ensures r.Ok? ==> i < r.value.next <= |bytes|
  {
    var c := bytes[i];
    if c < 0x80 then Ok(Round(i + 1, [c]))
    else
      match ExtraLength(c)
      case None =>
        Report(strategy, if IsContinuation(c) then UnexpectedContinue else BadPrefix, i, bytes, i + 1, 0)
      case Some(extra) =>
        if i + extra >= |bytes| then Report(strategy, Overrun, i, bytes, i + 1, 0)
        else
          match ReadTail(bytes, i + 1, extra, LeadBits(c, extra))
          case Missing(at) => Report(strategy, MissingContinue, at, bytes, at, 0)
          case Complete(res) =>
            var next := i + 1 + extra;
            if res > 0x10ffff then Report(strategy, OutOfRange, i, bytes, next, res)
            else if 0xd800 <= res <= 0xdfff then Report(strategy, Utf16Surrogate, i, bytes, next, res)
            else if res <= OverlongMask(extra) then Report(strategy, Overlong, i, bytes, next, res)
            else Ok(Round(next, [res]))
  }

  function Decode(bytes: seq<byte>, i: nat, strategy: Strategy): Result<seq<int>>
    requires i <= |bytes|
    decreases |bytes| - i
  {
    if i == |bytes| then Ok([])
    else
      var round :- DecodeRound(bytes, i, strategy);
      var rest :- Decode(bytes, round.next, strategy);
      Ok(round.output + rest)
  }

  // ---------- recovery ----------

  ghost predicate AllScalars(vs: seq<int>) {
    forall k :: 0 <= k < |vs| ==> IsScalar(vs[k])
  }

  /** Each round makes progress inside the buffer and appends scalar values only. */
  lemma RoundScalars(bytes: seq<byte>, i: nat, strategy: Strategy)
    requires i < |bytes|
    ensures DecodeRound(bytes, i, strategy).Ok? ==> AllScalars(DecodeRound(bytes, i, strategy).value.output)
    ensures strategy != Throw ==> DecodeRound(bytes, i, strategy).Ok?
  {
  }

  /** Without the throwing strategy every input decodes, and always to scalar values. */
  lemma {:induction false} DecodeTotal(bytes: seq<byte>, i: nat, strategy: Strategy)
    requires i <= |bytes|
    ensures strategy != Throw ==> Decode(bytes, i, strategy).Ok?
    ensures Decode(bytes, i, strategy).Ok? ==> AllScalars(Decode(bytes, i, strategy).value)
    decreases |bytes| - i
  {
    if i < |bytes| {
      RoundScalars(bytes, i, strategy);
      var round := DecodeRound(bytes, i, strategy);
      if round.Ok? {
        DecodeTotal(bytes, round.value.next, strategy);
      }
    }
  }

  // ---------- the byte grammar ----------

  predicate Within(b: byte, lo: int, hi: int) {
    lo <= b <= hi
  }

  /** The bounds of the second byte, by the first; the other ones are always 80..BF. */
  function SecondByteBounds(c: byte): (int, int) {
    if c == 0xe0 then (0xa0, 0xbf)
    else if c == 0xed then (0x80, 0x9f)
    else if c == 0xf0 then (0x90, 0xbf)
    else if c == 0xf4 then (0x80, 0x8f)
    else (0x80, 0xbf)
  }

  /** The length of a character that starts with `c`; 0 when none does. */
  function GrammarLength(c: byte): nat {
    if c <= 0x7f then 1
    else if Within(c, 0xc2, 0xdf) then 2
    else if Within(c, 0xe0, 0xef) then 3
    else if Within(c, 0xf0, 0xf4) then 4
    else 0
  }

  /** A character of the grammar stands at `i`. */
  predicate CharAt(bytes: seq<byte>, i: nat)
    requires i < |bytes|
  {
    var n := GrammarLength(bytes[i]);
    && 1 <= n && i + n <= |bytes|
    && (n >= 2 ==> Within(bytes[i + 1], SecondByteBounds(bytes[i]).0, SecondByteBounds(bytes[i]).1))
    && (n >= 3 ==> Within(bytes[i + 2], 0x80, 0xbf))
    && (n == 4 ==> Within(bytes[i + 3], 0x80, 0xbf))
  }

  predicate WellFormed(bytes: seq<byte>, i: nat)
    requires i <= |bytes|
    decreases |bytes| - i
  {
    i == |bytes| || (CharAt(bytes, i) && WellFormed(bytes, i + GrammarLength(bytes[i])))
  }

  // ---------- the encoder ----------

  /** The bytes of one scalar value. */
  function EncodeScalar(v: int): seq<byte>
    requires IsScalar(v)
  {
    if v < 0x80 then [v]
    else if v < 0x800 then [0xc0 + v / 64, 0x80 + v % 64]
    else if v < 0x1_0000 then [0xe0 + v / 4096, 0x80 + v / 64 % 64, 0x80 + v % 64]
    else [0xf0 + v / 262144, 0x80 + v / 4096 % 64, 0x80 + v / 64 % 64, 0x80 + v % 64]
  }

  predicate IsHigh(u: unit16) {
    u / 1024 == 0x36
  }

  predicate IsLow(u: unit16) {
    u / 1024 == 0x37
  }

  function PairValue(high: unit16, low: unit16): nat {
    0x1_0000 + high % 1024 * 1024 + low % 1024
  }

  /** `toUtf8Bytes`: the branches on one code unit; a high surrogate takes the next unit with it. */
  function Encode(str: seq<unit16>, i: nat): Result<seq<byte>>
    requires i <= |str|
    decreases |str| - i
  {
    if i == |str| then Ok([])
    else
      var c := str[i];
      if IsHigh(c) then
        if i + 1 == |str| || !IsLow(str[i + 1]) then Err
        else
          var rest :- Encode(str, i + 2);
          Ok(EncodeScalar(PairValue(c, str[i + 1])) + rest)
      else
        var rest :- Encode(str, i + 1);
        Ok(EncodeUnit(c) + rest)
  }

  /** A unit on its own; a stray low surrogate gets the three-byte form too. */
  function EncodeUnit(c: unit16): seq<byte> {
    if c < 0x80 then [c]
    else if c < 0x800 then [0xc0 + c / 64, 0x80 + c % 64]
    else [0xe0 + c / 4096, 0x80 + c / 64 % 64, 0x80 + c % 64]
  }

  /** The code units of one code point. */
  function UnitsOf(v: int): seq<unit16>
    requires IsScalar(v)
  {
    if v <= 0xffff then [v]
    else [(v - 0x1_0000) / 1024 % 1024 + 0xd800, (v - 0x1_0000) % 1024 + 0xdc00]
  }

  /** `_toUtf8String`. */
  function ToUnits(vs: seq<int>): seq<unit16>
    requires AllScalars(vs)
  {
    if vs == [] then [] else UnitsOf(vs[0]) + ToUnits(vs[1..])
  }

  /** Every high surrogate is followed by a low one, and every low one follows a high one. */
  predicate WellFormed16(str: seq<unit16>, i: nat)
    requires i <= |str|
    decreases |str| - i
  {
    if i == |str| then true
    else if IsHigh(str[i]) then i + 1 < |str| && IsLow(str[i + 1]) && WellFormed16(str, i + 2)
    else !IsLow(str[i]) && WellFormed16(str, i + 1)
  }

  /** The code points of a well-formed string. */
  function Scalars(str: seq<unit16>, i: nat): (vs: seq<int>)
    requires i <= |str| && WellFormed16(str, i)
    ensures AllScalars(vs)
    decreases |str| - i
  {
    if i == |str| then []
    else if IsHigh(str[i]) then [PairValue(str[i], str[i + 1])] + Scalars(str, i + 2)
    else [str[i]] + Scalars(str, i + 1)
  }

  // ---------- one character ----------

  function Low6(b: byte): (n: nat)
    ensures n < 64
  {
    b % 64
  }

  /** A complete tail makes the round that the range checks allow. */
  lemma RoundOfTail(bytes: seq<byte>, i: nat, extra: nat, v: nat, strategy: Strategy)
    requires i + extra < |bytes| && bytes[i] >= 0x80 && ExtraLength(bytes[i]) == Some(extra)
    requires ReadTail(bytes, i + 1, extra, LeadBits(bytes[i], extra)) == Complete(v)
    requires IsScalar(v) && v > OverlongMask(extra)
    ensures DecodeRound(bytes, i, strategy) == Ok(Round(i + 1 + extra, [v]))
  {
  }

  lemma JoinBits(v: nat)
    ensures v / 64 * 64 + v % 64 == v
    ensures v / 4096 * 64 + v / 64 % 64 == v / 64
    ensures v / 262144 * 64 + v / 4096 % 64 == v / 4096
  {
    assert v / 4096 == v / 64 / 64 && v / 262144 == v / 4096 / 64;
  }

  lemma ReadOne(bytes: seq<byte>, i: nat, extra: nat, res: nat, low: nat)
    requires 1 <= extra && i + extra <= |bytes| && low < 64 && bytes[i] == 0x80 + low
    ensures ReadTail(bytes, i, extra, res) == ReadTail(bytes, i + 1, extra - 1, res * 64 + low)
  {
  }

  lemma CharOf2(bytes: seq<byte>, i: nat, v: int)
    requires 0x80 <= v < 0x800 && i + 2 <= |bytes|
    requires bytes[i] == 0xc0 + v / 64 && bytes[i + 1] == 0x80 + v % 64
    ensures CharAt(bytes, i) && GrammarLength(bytes[i]) == 2 && ExtraLength(bytes[i]) == Some(1)
    ensures ReadTail(bytes, i + 1, 1, LeadBits(bytes[i], 1)) == Complete(v)
  {
    JoinBits(v);
    ReadOne(bytes, i + 1, 1, v / 64, v % 64);
  }

  lemma CharOf3(bytes: seq<byte>, i: nat, v: int)
    requires 0x800 <= v < 0x1_0000 && IsScalar(v) && i + 3 <= |bytes|
    requires bytes[i] == 0xe0 + v / 4096 && bytes[i + 1] == 0x80 + v / 64 % 64 && bytes[i + 2] == 0x80 + v % 64
    ensures CharAt(bytes, i) && GrammarLength(bytes[i]) == 3 && ExtraLength(bytes[i]) == Some(2)
    ensures ReadTail(bytes, i + 1, 2, LeadBits(bytes[i], 2)) == Complete(v)
  {
    JoinBits(v);
    ReadOne(bytes, i + 1, 2, v / 4096, v / 64 % 64);
    ReadOne(bytes, i + 2, 1, v / 64, v % 64);
  }

  lemma CharOf4(bytes: seq<byte>, i: nat, v: int)
    requires 0x1_0000 <= v <= 0x10ffff && i + 4 <= |bytes|
    requires bytes[i] == 0xf0 + v / 262144 && bytes[i + 1] == 0x80 + v / 4096 % 64
    requires bytes[i + 2] == 0x80 + v / 64 % 64 && bytes[i + 3] == 0x80 + v % 64
    ensures CharAt(bytes, i) && GrammarLength(bytes[i]) == 4 && ExtraLength(bytes[i]) == Some(3)
    ensures ReadTail(bytes, i + 1, 3, LeadBits(bytes[i], 3)) == Complete(v)
  {
    JoinBits(v);
    ReadOne(bytes, i + 1, 3, v / 262144, v / 4096 % 64);
    ReadOne(bytes, i + 2, 2, v / 4096, v / 64 % 64);
    ReadOne(bytes, i + 3, 1, v / 64, v % 64);
  }

  /** A scalar value's bytes are a character of the grammar that every strategy decodes to it. */
  lemma RoundOfScalar(v: int, bytes: seq<byte>, i: nat, strategy: Strategy)
    requires IsScalar(v) && StandsAt(bytes, i, EncodeScalar(v))
    ensures CharAt(bytes, i) && GrammarLength(bytes[i]) == |EncodeScalar(v)|
    ensures DecodeRound(bytes, i, strategy) == Ok(Round(i + |EncodeScalar(v)|, [v]))
  {
    var e := EncodeScalar(v);
    StandsAtItem(bytes, i, e, 0);
    if v >= 0x80 {
      hide DecodeRound, ReadTail, CharAt, ExtraLength, LeadBits;
      StandsAtItem(bytes, i, e, 1);
      if v < 0x800 {
        CharOf2(bytes, i, v);
        RoundOfTail(bytes, i, 1, v, strategy);
      } else if v < 0x1_0000 {
        StandsAtItem(bytes, i, e, 2);
        CharOf3(bytes, i, v);
        RoundOfTail(bytes, i, 2, v, strategy);
      } else {
        StandsAtItem(bytes, i, e, 2);
        StandsAtItem(bytes, i, e, 3);
        CharOf4(bytes, i, v);
        RoundOfTail(bytes, i, 3, v, strategy);
      }
    }
  }

  lemma ThreeIsScalar(c: byte, b: byte, d: byte)
    requires GrammarLength(c) == 3 && Within(b, SecondByteBounds(c).0, SecondByteBounds(c).1)
    ensures IsScalar(LeadBits(c, 2) * 4096 + Low6(b) * 64 + Low6(d))
  {
  }

  lemma FourIsScalar(c: byte, b: byte, d: byte, e: byte)
    requires GrammarLength(c) == 4 && Within(b, SecondByteBounds(c).0, SecondByteBounds(c).1)
    ensures IsScalar(LeadBits(c, 3) * 262144 + Low6(b) * 4096 + Low6(d) * 64 + Low6(e))
  {
  }

  /** The scalar value that a character of the grammar encodes. */
  function ScalarAt(bytes: seq<byte>, i: nat): (v: int)
    requires i < |bytes| && CharAt(bytes, i)
    ensures IsScalar(v)
  {
    var n := GrammarLength(bytes[i]);
    if n == 1 then bytes[i]
    else if n == 2 then LeadBits(bytes[i], 1) * 64 + Low6(bytes[i + 1])
    else if n == 3 then
      ThreeIsScalar(bytes[i], bytes[i + 1], bytes[i + 2]);
      LeadBits(bytes[i], 2) * 4096 + Low6(bytes[i + 1]) * 64 + Low6(bytes[i + 2])
    else
      FourIsScalar(bytes[i], bytes[i + 1], bytes[i + 2], bytes[i + 3]);
      LeadBits(bytes[i], 3) * 262144 + Low6(bytes[i + 1]) * 4096 + Low6(bytes[i + 2]) * 64 + Low6(bytes[i + 3])
  }

  lemma CharIsEncoding(bytes: seq<byte>, i: nat)
    requires i < |bytes| && CharAt(bytes, i)
    ensures StandsAt(bytes, i, EncodeScalar(ScalarAt(bytes, i)))
    ensures |EncodeScalar(ScalarAt(bytes, i))| == GrammarLength(bytes[i])
  {
    var n := GrammarLength(bytes[i]);
    if n == 2 {
      CharIsEncoding2(bytes, i);
    } else if n == 3 {
      CharIsEncoding3(bytes, i);
    } else if n == 4 {
      CharIsEncoding4(bytes, i);
    }
  }

  lemma CharIsEncoding2(bytes: seq<byte>, i: nat)
    requires i < |bytes| && CharAt(bytes, i) && GrammarLength(bytes[i]) == 2
    ensures EncodeScalar(ScalarAt(bytes, i)) == [bytes[i], bytes[i + 1]]
  {
  }

  lemma CharIsEncoding3(bytes: seq<byte>, i: nat)
    requires i < |bytes| && CharAt(bytes, i) && GrammarLength(bytes[i]) == 3
    ensures EncodeScalar(ScalarAt(bytes, i)) == [bytes[i], bytes[i + 1], bytes[i + 2]]
  {
    SplitBits3(LeadBits(bytes[i], 2), Low6(bytes[i + 1]), Low6(bytes[i + 2]));
  }

  lemma LeadOfFour(b: byte)
    requires GrammarLength(b) == 4
    ensures b == 0xf0 + LeadBits(b, 3)
  {
  }

  lemma TailByte(b: byte)
    requires Within(b, 0x80, 0xbf)
    ensures b == 0x80 + Low6(b)
  {
  }

  lemma SecondByteIsTail(c: byte, b: byte)
    requires GrammarLength(c) >= 2 && Within(b, SecondByteBounds(c).0, SecondByteBounds(c).1)
    ensures Within(b, 0x80, 0xbf)
  {
  }

  /** The second byte keeps a character of four bytes out of the range of shorter ones. */
  lemma FourIsLarge(c: byte, b: byte)
    requires GrammarLength(c) == 4 && Within(b, SecondByteBounds(c).0, SecondByteBounds(c).1)
    ensures LeadBits(c, 3) * 64 + Low6(b) >= 16
  {
  }

  lemma CharIsEncoding4(bytes: seq<byte>, i: nat)
    requires i < |bytes| && CharAt(bytes, i) && GrammarLength(bytes[i]) == 4
    ensures EncodeScalar(ScalarAt(bytes, i)) == [bytes[i], bytes[i + 1], bytes[i + 2], bytes[i + 3]]
  {
    hide LeadBits, Low6, SecondByteBounds, Within, GrammarLength;
    SecondByteIsTail(bytes[i], bytes[i + 1]);
    FourIsLarge(bytes[i], bytes[i + 1]);
    LeadOfFour(bytes[i]);
    TailByte(bytes[i + 1]);
    TailByte(bytes[i + 2]);
    TailByte(bytes[i + 3]);
    SplitBits4(LeadBits(bytes[i], 3), Low6(bytes[i + 1]), Low6(bytes[i + 2]), Low6(bytes[i + 3]));
  }

  lemma SplitBits3(a: nat, b: nat, c: nat)
    requires b < 64 && c < 64
    ensures var v := a * 4096 + b * 64 + c; v / 4096 == a && v / 64 % 64 == b && v % 64 == c
  {
    var v := a * 4096 + b * 64 + c;
    assert v / 64 == a * 64 + b;
  }

  lemma SplitBits4(a: nat, b: nat, c: nat, d: nat)
    requires b < 64 && c < 64 && d < 64
    ensures var v := a * 262144 + b * 4096 + c * 64 + d;
            v / 262144 == a && v / 4096 % 64 == b && v / 64 % 64 == c && v % 64 == d
  {
    var v := a * 262144 + b * 4096 + c * 64 + d;
    assert v / 64 == a * 4096 + b * 64 + c;
    assert v / 4096 == a * 64 + b;
  }

  /** The strict decoder accepts exactly the characters of the grammar. */
  lemma StrictRound(bytes: seq<byte>, i: nat)
    requires i < |bytes|
    ensures DecodeRound(bytes, i, Throw).Ok? <==> CharAt(bytes, i)
    ensures CharAt(bytes, i) ==>
              DecodeRound(bytes, i, Throw) == Ok(Round(i + GrammarLength(bytes[i]), [ScalarAt(bytes, i)]))
  {
    if CharAt(bytes, i) {
      CharIsEncoding(bytes, i);
      RoundOfScalar(ScalarAt(bytes, i), bytes, i, Throw);
    } else {
      NotCharThrows(bytes, i);
    }
  }

  lemma NotCharThrows(bytes: seq<byte>, i: nat)
    requires i < |bytes| && !CharAt(bytes, i)
    ensures DecodeRound(bytes, i, Throw).Err?
  {
    var c := bytes[i];
    if ExtraLength(c).Some? {
      var extra := ExtraLength(c).value;
      if i + extra < |bytes| {
        var t := ReadTail(bytes, i + 1, extra, LeadBits(c, extra));
        if t.Complete? {
          CompleteTail(bytes, i + 1, extra, LeadBits(c, extra));
        }
      }
    }
  }

  /** The value of a complete tail, by its bytes. */
  lemma CompleteTail(bytes: seq<byte>, i: nat, extra: nat, res: nat)
    requires i + extra <= |bytes| && 1 <= extra <= 3 && ReadTail(bytes, i, extra, res).Complete?
    ensures forall k :: i <= k < i + extra ==> Within(bytes[k], 0x80, 0xbf)
    ensures ReadTail(bytes, i, extra, res).res ==
            if extra == 1 then res * 64 + Low6(bytes[i])
            else if extra == 2 then res * 4096 + Low6(bytes[i]) * 64 + Low6(bytes[i + 1])
            else res * 262144 + Low6(bytes[i]) * 4096 + Low6(bytes[i + 1]) * 64 + Low6(bytes[i + 2])
  {
    var r1 := res * 64 + bytes[i] % 64;
    if extra >= 2 {
      var r2 := r1 * 64 + bytes[i + 1] % 64;
      assert ReadTail(bytes, i + 1, extra - 1, r1) == ReadTail(bytes, i, extra, res);
      assert ReadTail(bytes, i + 2, extra - 2, r2) == ReadTail(bytes, i, extra, res);
    }
  }

  // ---------- whole strings ----------

  /** The bytes of a list of scalar values. */
  function EncodeScalars(vs: seq<int>): seq<byte>
    requires AllScalars(vs)
  {
    if vs == [] then [] else EncodeScalar(vs[0]) + EncodeScalars(vs[1..])
  }

  /** The strict decoder accepts exactly the byte strings of the grammar. */
  lemma {:induction false} StrictAcceptsGrammar(bytes: seq<byte>, i: nat)
    requires i <= |bytes|
    ensures Decode(bytes, i, Throw).Ok? <==> WellFormed(bytes, i)
    decreases |bytes| - i
  {
    if i < |bytes| {
      StrictRound(bytes, i);
      if CharAt(bytes, i) {
        StrictAcceptsGrammar(bytes, i + GrammarLength(bytes[i]));
      }
    }
  }

  /** What the strict decoder accepts is the encoding of what it returns. */
  lemma {:induction false} StrictDecodeIsInverse(bytes: seq<byte>, i: nat)
    requires i <= |bytes| && Decode(bytes, i, Throw).Ok?
    ensures var vs := Decode(bytes, i, Throw).value; AllScalars(vs) && EncodeScalars(vs) == bytes[i..]
    decreases |bytes| - i
  {
    hide DecodeRound, CharAt, EncodeScalar, ScalarAt;
    if i < |bytes| {
      StrictRound(bytes, i);
      CharIsEncoding(bytes, i);
      var v, n := ScalarAt(bytes, i), i + GrammarLength(bytes[i]);
      StrictDecodeIsInverse(bytes, n);
      var rest := Decode(bytes, n, Throw).value;
      assert ([v] + rest)[1..] == rest;
      assert bytes[i..] == bytes[i..n] + bytes[n..];
      assert EncodeScalar(v) == bytes[i..n];
    }
  }

  /** Every strategy decodes the bytes of scalar values to those values. */
  lemma {:induction false} DecodeEncodedScalars(vs: seq<int>, bytes: seq<byte>, i: nat, strategy: Strategy)
    requires AllScalars(vs) && i <= |bytes| && bytes[i..] == EncodeScalars(vs)
    ensures Decode(bytes, i, strategy) == Ok(vs)
    decreases vs
  {
    hide DecodeRound, CharAt, EncodeScalar;
    if vs != [] {
      var e, rest := EncodeScalar(vs[0]), EncodeScalars(vs[1..]);
      HeadAt(bytes, i, e, rest);
      RoundOfScalar(vs[0], bytes, i, strategy);
      DecodeEncodedScalars(vs[1..], bytes, i + |e|, strategy);
      assert vs == [vs[0]] + vs[1..];
    }
  }

  lemma HeadAt(bytes: seq<byte>, i: nat, e: seq<byte>, rest: seq<byte>)
    requires i <= |bytes| && bytes[i..] == e + rest
    ensures StandsAt(bytes, i, e) && bytes[i + |e|..] == rest
  {
    assert |bytes[i..]| == |e| + |rest|;
    assert bytes[i..i + |e|] == bytes[i..][..|e|];
    assert bytes[i..][|e|..] == rest;
  }

  // ---------- UTF-16 ----------

  lemma PairOfUnits(high: unit16, low: unit16)
    requires IsHigh(high) && IsLow(low)
    ensures var v := PairValue(high, low); IsScalar(v) && v > 0xffff && UnitsOf(v) == [high, low]
  {
  }

  lemma UnitsArePair(v: int)
    requires IsScalar(v) && v > 0xffff
    ensures IsHigh(UnitsOf(v)[0]) && IsLow(UnitsOf(v)[1]) && PairValue(UnitsOf(v)[0], UnitsOf(v)[1]) == v
  {
  }

  /** On well-formed strings the encoder writes the bytes of the string's code points. */
  lemma {:induction false} EncodeWellFormed(str: seq<unit16>, i: nat)
    requires i <= |str| && WellFormed16(str, i)
    ensures Encode(str, i) == Ok(EncodeScalars(Scalars(str, i)))
    decreases |str| - i
  {
    hide EncodeScalar, EncodeUnit, PairValue;
    if i < |str| {
      if IsHigh(str[i]) {
        EncodeWellFormed(str, i + 2);
      } else {
        SingleUnit(str[i]);
        EncodeWellFormed(str, i + 1);
      }
    }
  }

  lemma SingleUnit(c: unit16)
    requires !IsHigh(c) && !IsLow(c)
    ensures IsScalar(c) && EncodeUnit(c) == EncodeScalar(c) && UnitsOf(c) == [c]
  {
  }

  /** Printing the code points of a well-formed string gives the string. */
  lemma {:induction false} UnitsOfScalars(str: seq<unit16>, i: nat)
    requires i <= |str| && WellFormed16(str, i)
    ensures ToUnits(Scalars(str, i)) == str[i..]
    decreases |str| - i
  {
    hide PairValue, UnitsOf;
    if i < |str| {
      if IsHigh(str[i]) {
        PairOfUnits(str[i], str[i + 1]);
        UnitsOfScalars(str, i + 2);
        assert str[i..] == [str[i], str[i + 1]] + str[i + 2..];
      } else {
        SingleUnit(str[i]);
        UnitsOfScalars(str, i + 1);
        assert str[i..] == [str[i]] + str[i + 1..];
      }
    }
  }

  /** Scalar values print as a well-formed string with those code points, at any place. */
  lemma {:induction false} ScalarsOfUnits(vs: seq<int>, str: seq<unit16>, i: nat)
    requires AllScalars(vs) && i <= |str| && str[i..] == ToUnits(vs)
    ensures WellFormed16(str, i) && Scalars(str, i) == vs
    decreases vs
  {
    hide PairValue, UnitsOf;
    if vs != [] {
      var u := UnitsOf(vs[0]);
      assert ToUnits(vs) == u + ToUnits(vs[1..]);
      assert str[i..][|u|..] == ToUnits(vs[1..]) && str[i + |u|..] == str[i..][|u|..];
      assert forall k :: 0 <= k < |u| ==> str[i..][k] == u[k];
      UnitShape(vs[0]);
      ScalarsOfUnits(vs[1..], str, i + |u|);
      assert vs == [vs[0]] + vs[1..];
    }
  }

  lemma UnitShape(v: int)
    requires IsScalar(v)
    ensures var u := UnitsOf(v);
            if v > 0xffff then |u| == 2 && IsHigh(u[0]) && IsLow(u[1]) && PairValue(u[0], u[1]) == v
            else |u| == 1 && !IsHigh(u[0]) && !IsLow(u[0]) && u[0] == v
  {
    if v > 0xffff {
      UnitsArePair(v);
    }
  }

  /** A stray low surrogate is encoded, but not as a character of the grammar. */
  lemma {:induction false} StrayNotWellFormed(str: seq<unit16>, i: nat, bytes: seq<byte>, k: nat)
    requires i <= |str| && !WellFormed16(str, i) && Encode(str, i).Ok?
    requires k <= |bytes| && bytes[k..] == Encode(str, i).value
    ensures !WellFormed(bytes, k)
    decreases |str| - i
  {
    hide EncodeScalar, PairValue, CharAt, DecodeRound;
    var c := str[i];
    if IsHigh(c) {
      PairOfUnits(c, str[i + 1]);
      var e := EncodeScalar(PairValue(c, str[i + 1]));
      HeadAt(bytes, k, e, Encode(str, i + 2).value);
      RoundOfScalar(PairValue(c, str[i + 1]), bytes, k, Throw);
      StrayNotWellFormed(str, i + 2, bytes, k + |e|);
    } else {
      HeadAt(bytes, k, EncodeUnit(c), Encode(str, i + 1).value);
      if IsLow(c) {
        StrayIsNoChar(c, bytes, k);
      } else {
        SingleUnit(c);
        RoundOfScalar(c, bytes, k, Throw);
        StrayNotWellFormed(str, i + 1, bytes, k + |EncodeUnit(c)|);
      }
    }
  }

  lemma StrayIsNoChar(c: unit16, bytes: seq<byte>, k: nat)
    requires IsLow(c) && StandsAt(bytes, k, EncodeUnit(c))
    ensures !CharAt(bytes, k)
  {
    StandsAtItem(bytes, k, EncodeUnit(c), 0);
    StandsAtItem(bytes, k, EncodeUnit(c), 1);
  }

  /** `toUtf8String`. */
  function DecodeString(bytes: seq<byte>, strategy: Strategy): Result<seq<unit16>> {
    var vs :- Decode(bytes, 0, strategy);
    DecodeTotal(bytes, 0, strategy);
    Ok(ToUnits(vs))
  }

  /** Encoding a string and strictly decoding it gives the string back exactly when it is well formed. */
  lemma StringRoundTripIff(str: seq<unit16>)
    ensures WellFormed16(str, 0) <==>
            Encode(str, 0).Ok? && DecodeString(Encode(str, 0).value, Throw) == Ok(str)
  {
    hide WellFormed;
    assert str[0..] == str;
    if WellFormed16(str, 0) {
      var vs := Scalars(str, 0);
      EncodeWellFormed(str, 0);
      var bytes := EncodeScalars(vs);
      assert bytes[0..] == bytes;
      DecodeEncodedScalars(vs, bytes, 0, Throw);
      UnitsOfScalars(str, 0);
    } else if Encode(str, 0).Ok? {
      var bytes := Encode(str, 0).value;
      assert bytes[0..] == bytes;
      StrayNotWellFormed(str, 0, bytes, 0);
      StrictAcceptsGrammar(bytes, 0);
    }
  }

  /** Strictly decoding bytes and encoding the string gives the bytes back, for all that is accepted. */
  lemma BytesRoundTrip(bytes: seq<byte>)
    requires WellFormed(bytes, 0)
    ensures DecodeString(bytes, Throw).Ok?
    ensures var str := DecodeString(bytes, Throw).value;
            WellFormed16(str, 0) && Encode(str, 0) == Ok(bytes)
  {
    StrictAcceptsGrammar(bytes, 0);
    StrictDecodeIsInverse(bytes, 0);
    assert bytes[0..] == bytes;
    var vs := Decode(bytes, 0, Throw).value;
    var str := ToUnits(vs);
    assert str[0..] == str;
    ScalarsOfUnits(vs, str, 0);
    EncodeWellFormed(str, 0);
  }

  /** Recovery never fails, its string is well formed, and well-formed input is read strictly. */
  lemma Recovers(bytes: seq<byte>, strategy: Strategy)
    requires strategy != Throw
    ensures DecodeString(bytes, strategy).Ok? && WellFormed16(DecodeString(bytes, strategy).value, 0)
    ensures WellFormed(bytes, 0) ==> DecodeString(bytes, strategy) == DecodeString(bytes, Throw)
  {
    DecodeTotal(bytes, 0, strategy);
    var vs := Decode(bytes, 0, strategy).value;
    var str := ToUnits(vs);
    assert str[0..] == str;
    ScalarsOfUnits(vs, str, 0);
    if WellFormed(bytes, 0) {
      StrictAcceptsGrammar(bytes, 0);
      StrictDecodeIsInverse(bytes, 0);
      DecodeEncodedScalars(Decode(bytes, 0, Throw).value, bytes, 0, strategy);
    }
  }
}
