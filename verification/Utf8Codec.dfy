/** The loops of the UTF-8 decoder and encoder, proved against the functions of module Utf8. */
module Utf8Codec {
  import opened Wrappers
  import opened Bytes
  import opened Utf8

  /** `ignoreFunc`: how many bytes to skip. */
  method IgnoreFunc(reason: Reason, offset: nat, bytes: seq<byte>) returns (skip: nat)
    requires offset < |bytes|
    ensures skip == IgnoreSkip(reason, offset, bytes)
  {
    if reason == BadPrefix || reason == UnexpectedContinue {
      var i := 0;
      var o := offset + 1;
      while o < |bytes|
        invariant o == offset + 1 + i <= |bytes|
        invariant ContinuationRun(bytes, offset + 1) == i + ContinuationRun(bytes, o)
      {
        if bytes[o] / 64 != 2 {
          break;
        }
        i := i + 1;
        o := o + 1;
      }
      return i;
    }
    if reason == Overrun {
      return |bytes| - offset - 1;
    }
    return 0;
  }

  /** The error function of a strategy: the output it leaves and the bytes to skip. */
  method OnError(strategy: Strategy, reason: Reason, offset: nat, bytes: seq<byte>, output: seq<int>, bad: int, ghost at: nat)
    returns (r: Result<(nat, seq<int>)>)
    requires offset < |bytes|
    ensures match Report(strategy, reason, offset, bytes, at, bad)
            case Err => r.Err?
            case Ok(round) => r.Ok? && round.next == at + r.value.0 && r.value.1 == output + round.output
  {
    if strategy == Throw {
      return Err;
    }
    var result := output;
    if strategy == Replace {
      if reason == Overlong {
        return Ok((0, output + [bad]));
      }
      result := result + [0xfffd];
    }
    var skip := IgnoreFunc(reason, offset, bytes);
    assert output + [] == output;
    r := Ok((skip, result));
  }

  /** Values decoded so far, in front of what is still to come. */
  function Prepend(done: seq<int>, rest: Result<seq<int>>): Result<seq<int>> {
    match rest
    case Ok(vs) => Ok(done + vs)
    case Err => Err
  }

  /** The inner loop over the continuation bytes: how many were read, and their bits behind `res`. */
  method ReadContinuations(bytes: seq<byte>, start: nat, extra: nat, lead: nat) returns (j: nat, res: nat)
    requires start + extra <= |bytes|
    ensures j <= extra
    ensures ReadTail(bytes, start, extra, lead) == if j < extra then Missing(start + j) else Complete(res)
  {
    j, res := 0, lead;
    while j < extra && bytes[start + j] / 64 == 2
      invariant 0 <= j <= extra
      invariant ReadTail(bytes, start, extra, lead) == ReadTail(bytes, start + j, extra - j, res)
    {
      res := res * 64 + bytes[start + j] % 64;
      j := j + 1;
    }
  }

  /** One iteration of the decoder's loop, with the output so far. */
  method DecodeOne(bytes: seq<byte>, start: nat, strategy: Strategy, output: seq<int>)
    returns (r: Result<(nat, seq<int>)>)
    requires start < |bytes|
    ensures match DecodeRound(bytes, start, strategy)
            case Err => r.Err?
            case Ok(round) => r == Ok((round.next, output + round.output))
  {
    hide ReadTail, ContinuationRun, Report, LeadBits;
    var i := start;
    var c := bytes[i];
    i := i + 1;
    if c / 128 == 0 {
      return Ok((i, output + [c]));
    }
    var extraLength, overlongMask := 0, 0;
    var reason, offset, bad := UnexpectedContinue, i - 1, 0;
    if c / 32 == 6 {
      extraLength, overlongMask := 1, 0x7f;
    } else if c / 16 == 14 {
      extraLength, overlongMask := 2, 0x7ff;
    } else if c / 8 == 30 {
      extraLength, overlongMask := 3, 0xffff;
    }
    if extraLength == 0 {
      reason := if c / 64 == 2 then UnexpectedContinue else BadPrefix;
    } else if i - 1 + extraLength >= |bytes| {
      reason := Overrun;
    } else {
      var j, res := ReadContinuations(bytes, i, extraLength, LeadBits(c, extraLength));
      i := i + j;
      if j < extraLength {
        reason, offset := MissingContinue, i;
      } else {
        offset, bad := i - 1 - extraLength, res;
        if res > 0x10ffff {
          reason := OutOfRange;
        } else if res >= 0xd800 && res <= 0xdfff {
          reason := Utf16Surrogate;
        } else if res <= overlongMask {
          reason := Overlong;
        } else {
          return Ok((i, output + [res]));
        }
      }
    }
    assert DecodeRound(bytes, start, strategy) == Report(strategy, reason, offset, bytes, i, bad);
    var report := OnError(strategy, reason, offset, bytes, output, bad, i);
    if report.Err? {
      return Err;
    }
    r := Ok((i + report.value.0, report.value.1));
  }

  lemma DecodeStep(bytes: seq<byte>, i: nat, strategy: Strategy, done: seq<int>)
    requires i < |bytes|
    ensures match DecodeRound(bytes, i, strategy)
            case Err => Decode(bytes, i, strategy).Err?
            case Ok(round) => Prepend(done, Decode(bytes, i, strategy)) ==
                              Prepend(done + round.output, Decode(bytes, round.next, strategy))
  {
    hide DecodeRound;
    if DecodeRound(bytes, i, strategy).Ok? {
      var round := DecodeRound(bytes, i, strategy).value;
      var rest := Decode(bytes, round.next, strategy);
      assert rest.Ok? ==> done + (round.output + rest.value) == (done + round.output) + rest.value;
    }
  }

  /** `getUtf8CodePoints`. */
  method GetCodePoints(bytes: seq<byte>, strategy: Strategy) returns (r: Result<seq<int>>)
    ensures r == Decode(bytes, 0, strategy)
  {
    hide DecodeRound;
    var result: seq<int> := [];
    var i := 0;
    assert forall vs: seq<int> :: [] + vs == vs;
    while i < |bytes|
      invariant 0 <= i <= |bytes|
      invariant Decode(bytes, 0, strategy) == Prepend(result, Decode(bytes, i, strategy))
      decreases |bytes| - i
    {
      DecodeStep(bytes, i, strategy, result);
      var one := DecodeOne(bytes, i, strategy, result);
      if one.Err? {
        return Err;
      }
      i, result := one.value.0, one.value.1;
    }
    assert result + [] == result;
    r := Ok(result);
  }

  function PrependBytes(done: seq<byte>, rest: Result<seq<byte>>): Result<seq<byte>> {
    match rest
    case Ok(bs) => Ok(done + bs)
    case Err => Err
  }

  /** How far one code point reaches, and its bytes. */
  function EncodeOne(str: seq<unit16>, i: nat): Result<(nat, seq<byte>)>
    requires i < |str|
  {
    if !IsHigh(str[i]) then Ok((i + 1, EncodeUnit(str[i])))
    else if i + 1 == |str| || !IsLow(str[i + 1]) then Err
    else Ok((i + 2, EncodeScalar(PairValue(str[i], str[i + 1]))))
  }

  lemma EncodeStep(str: seq<unit16>, i: nat, done: seq<byte>)
    requires i < |str|
    ensures match EncodeOne(str, i)
            case Err => Encode(str, i).Err?
            case Ok((next, e)) =>
              && next <= |str|
              && PrependBytes(done, Encode(str, i)) == PrependBytes(done + e, Encode(str, next))
  {
    hide EncodeUnit, EncodeScalar, PairValue;
    if EncodeOne(str, i).Ok? {
      var (next, e) := EncodeOne(str, i).value;
      var rest := Encode(str, next);
      assert rest.Ok? ==> done + (e + rest.value) == (done + e) + rest.value;
    }
  }

  /** The body of the loop: a high surrogate advances the index once more and needs a low one there. */
  method PushBytes(str: seq<unit16>, start: nat, output: seq<byte>) returns (r: Result<(nat, seq<byte>)>)
    requires start < |str|
    ensures match EncodeOne(str, start)
            case Err => r.Err?
            case Ok((next, e)) => r == Ok((next, output + e))
  {
    var i, result := start, output;
    var c: nat := str[i];
    if c < 0x80 {
      result := result + [c];
    } else if c < 0x800 {
      result := result + [c / 64 + 0xc0];
      result := result + [c % 64 + 0x80];
    } else if c / 1024 == 0x36 {
      i := i + 1;
      if i >= |str| || str[i] / 1024 != 0x37 {
        return Err;
      }
      var c2: nat := str[i];
      var pair := 0x1_0000 + c % 1024 * 1024 + c2 % 1024;
      result := result + [pair / 262144 + 0xf0];
      result := result + [pair / 4096 % 64 + 0x80];
      result := result + [pair / 64 % 64 + 0x80];
      result := result + [pair % 64 + 0x80];
    } else {
      result := result + [c / 4096 + 0xe0];
      result := result + [c / 64 % 64 + 0x80];
      result := result + [c % 64 + 0x80];
    }
    assert result == output + EncodeOne(str, start).value.1;
    r := Ok((i + 1, result));
  }

  /** `toUtf8Bytes`. */
  method ToUtf8Bytes(str: seq<unit16>) returns (r: Result<seq<byte>>)
    ensures r == Encode(str, 0)
  {
    hide EncodeOne;
    var result: seq<byte> := [];
    var i := 0;
    assert forall bs: seq<byte> :: [] + bs == bs;
    while i < |str|
      invariant 0 <= i <= |str|
      invariant Encode(str, 0) == PrependBytes(result, Encode(str, i))
    {
      EncodeStep(str, i, result);
      var one := PushBytes(str, i, result);
      if one.Err? {
        return Err;
      }
      EncodeOneAdvances(str, i);
      i, result := one.value.0, one.value.1;
    }
    assert result + [] == result;
    r := Ok(result);
  }

  lemma EncodeOneAdvances(str: seq<unit16>, i: nat)
    requires i < |str|
    ensures EncodeOne(str, i).Ok? ==> i < EncodeOne(str, i).value.0 <= |str|
  {
  }
}
