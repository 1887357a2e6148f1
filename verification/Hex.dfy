/** Hexadecimal strings and the bytes they stand for. */
module Hex {
  import opened Wrappers
  import opened Bytes

  predicate IsHex(c: char) {
    '0' <= c <= '9' || 'a' <= c <= 'f' || 'A' <= c <= 'F'
  }

  predicate AllHex(s: string) {
    forall i :: 0 <= i < |s| ==> IsHex(s[i])
  }

  function HexValue(c: char): (v: nat)
    requires IsHex(c)
    ensures v < 16
  {
    if c <= '9' then c as int - '0' as int
    else if c <= 'F' then c as int - 'A' as int + 10
    else c as int - 'a' as int + 10
  }

  function HexChar(v: nat): (c: char)
    requires v < 16
    ensures IsHex(c) && HexValue(c) == v
  {
    if v < 10 then ('0' as int + v) as char else ('a' as int + v - 10) as char
  }

  /** `hexlify` without the prefix. */
  function Hexlify(bs: seq<byte>): (s: string)
    ensures |s| == 2 * |bs| && AllHex(s)
  {
    if bs == [] then ""
    else
      var b: nat := bs[|bs| - 1];
      Hexlify(bs[..|bs| - 1]) + [HexChar(b / 16), HexChar(b % 16)]
  }

  /** `getBytes` behind the prefix: an even number of digits, in either case. */
  function Unhex(s: string): (r: Option<seq<byte>>)
    ensures r.Some? <==> AllHex(s) && |s| % 2 == 0
    ensures r.Some? ==> 2 * |r.value| == |s|
  {
    if s == "" then Some([])
    else if |s| < 2 || !IsHex(s[|s| - 1]) || !IsHex(s[|s| - 2]) then None
    else
      match Unhex(s[..|s| - 2])
      case None => None
      case Some(init) => Some(init + [HexValue(s[|s| - 2]) * 16 + HexValue(s[|s| - 1])])
  }

  /** The same digits up to case. */
  predicate SameDigits(a: string, b: string) {
    && AllHex(a) && AllHex(b) && |a| == |b|
    && forall i :: 0 <= i < |a| ==> HexValue(a[i]) == HexValue(b[i])
  }

  function TwoHex(b: nat): (s: string)
    requires b < 256
    ensures |s| == 2 && AllHex(s)
  {
    [HexChar(b / 16), HexChar(b % 16)]
  }

  lemma HexlifyStep(bs: seq<byte>, b: byte)
    ensures Hexlify(bs + [b]) == Hexlify(bs) + TwoHex(b)
  {
    assert (bs + [b])[..|bs|] == bs;
  }

  lemma UnhexStep(s: string, hi: char, lo: char)
    requires Unhex(s).Some? && IsHex(hi) && IsHex(lo)
    ensures Unhex(s + [hi, lo]) == Some(Unhex(s).value + [HexValue(hi) * 16 + HexValue(lo)])
  {
    assert (s + [hi, lo])[..|s|] == s;
  }

  lemma HexlifyEmpty()
    ensures Hexlify([]) == "" && Unhex("") == Some([])
  {
  }

  lemma {:induction false} HexlifyAppend(a: seq<byte>, b: seq<byte>)
    ensures Hexlify(a + b) == Hexlify(a) + Hexlify(b)
  {
    hide Hexlify;
    HexlifyEmpty();
    if b == [] {
      assert a + b == a;
    } else {
      var init, last := b[..|b| - 1], b[|b| - 1];
      HexlifyAppend(a, init);
      HexlifyStep(a + init, last);
      HexlifyStep(init, last);
      assert a + b == (a + init) + [last] && b == init + [last];
    }
  }

  lemma {:induction false} UnhexHexlify(bs: seq<byte>)
    ensures Unhex(Hexlify(bs)) == Some(bs)
  {
    hide Hexlify, Unhex;
    HexlifyEmpty();
    if bs != [] {
      var init, b: nat := bs[..|bs| - 1], bs[|bs| - 1];
      UnhexHexlify(init);
      assert bs == init + [bs[|bs| - 1]];
      HexlifyStep(init, b);
      UnhexStep(Hexlify(init), HexChar(b / 16), HexChar(b % 16));
    }
  }

  /** Two digits for each byte in order, the higher four bits first. */
  lemma {:induction false} HexlifyAt(bs: seq<byte>, i: nat)
    requires i < |bs|
    ensures var b: nat := bs[i]; Hexlify(bs)[2 * i..2 * i + 2] == [HexChar(b / 16), HexChar(b % 16)]
  {
    var n := |bs| - 1;
    if i < n {
      HexlifyAt(bs[..n], i);
      assert Hexlify(bs)[2 * i..2 * i + 2] == Hexlify(bs[..n])[2 * i..2 * i + 2];
    }
  }

  /** The sixteen digits, in lower case. */
  lemma HexDigits(v: nat)
    requires v < 16
    ensures HexChar(v) == "0123456789abcdef"[v]
  {
  }

  lemma SameDigitsAppend(a: string, b: string, c: string, d: string)
    requires SameDigits(a, b) && SameDigits(c, d)
    ensures SameDigits(a + c, b + d)
  {
  }

  lemma DigitsOfByte(hi: nat, lo: nat)
    requires hi < 16 && lo < 16
    ensures hi * 16 + lo < 256 && (hi * 16 + lo) / 16 == hi && (hi * 16 + lo) % 16 == lo
  {
  }

  /** Reading digits and printing them only changes their case. */
  lemma {:induction false} HexlifyUnhex(s: string)
    requires AllHex(s) && |s| % 2 == 0
    ensures SameDigits(Hexlify(Unhex(s).value), s)
  {
    hide Hexlify, Unhex, SameDigits;
    HexlifyEmpty();
    if s == "" {
      SameDigitsSelf("");
    } else {
      var init, hi, lo := s[..|s| - 2], s[|s| - 2], s[|s| - 1];
      HexlifyUnhex(init);
      assert s == init + [hi, lo];
      UnhexStep(init, hi, lo);
      DigitsOfByte(HexValue(hi), HexValue(lo));
      HexlifyStep(Unhex(init).value, HexValue(hi) * 16 + HexValue(lo));
      SameTwoHex(hi, lo);
      SameDigitsAppend(Hexlify(Unhex(init).value), init, TwoHex(HexValue(hi) * 16 + HexValue(lo)), [hi, lo]);
    }
  }

  lemma SameDigitsSelf(s: string)
    requires AllHex(s)
    ensures SameDigits(s, s)
  {
  }

  lemma SameTwoHex(hi: char, lo: char)
    requires IsHex(hi) && IsHex(lo) && HexValue(hi) * 16 + HexValue(lo) < 256
    ensures SameDigits(TwoHex(HexValue(hi) * 16 + HexValue(lo)), [hi, lo])
  {
    DigitsOfByte(HexValue(hi), HexValue(lo));
  }
}
