/** The order that the encoding keeps, and what recovery does with each stretch of bad bytes. */
module Utf8Recovery {
  import opened Wrappers
  import opened Bytes
  import opened Sequences
  import opened Utf8

  // ---------- order ----------

  /** The first byte in which they differ is smaller in `a`. */
  ghost predicate BytesLess(a: seq<byte>, b: seq<byte>) {
    exists k :: 0 <= k < |a| && k < |b| && a[..k] == b[..k] && a[k] < b[k]
  }

  lemma LessAt(a: seq<byte>, b: seq<byte>, k: nat)
    requires k < |a| && k < |b| && a[k] < b[k] && forall i :: 0 <= i < k ==> a[i] == b[i]
    ensures BytesLess(a, b)
  {
    assert a[..k] == b[..k];
  }

  /**
   * The bytes of code points are ordered as the code points are (section 1 of RFC 3629). The encodings are
   * exactly the characters of the grammar, so no other assignment of bytes to code points has this property.
   */
  lemma EncodingKeepsOrder(v: int, w: int)
    requires IsScalar(v) && IsScalar(w) && v < w
    ensures BytesLess(EncodeScalar(v), EncodeScalar(w))
  {
    hide BytesLess;
    if |EncodeScalar(v)| < |EncodeScalar(w)| || w < 0x80 {
      LessAt(EncodeScalar(v), EncodeScalar(w), 0);
    } else if w < 0x800 {
      OrderOfTwo(v, w);
    } else if w < 0x1_0000 {
      OrderOfThree(v, w);
    } else {
      OrderOfFour(v, w);
    }
  }

  lemma OrderOfTwo(v: int, w: int)
    requires 0x80 <= v < w < 0x800
    ensures BytesLess(EncodeScalar(v), EncodeScalar(w))
  {
    hide BytesLess;
    LessAt(EncodeScalar(v), EncodeScalar(w), if v / 64 != w / 64 then 0 else 1);
  }

  lemma OrderOfThree(v: int, w: int)
    requires 0x800 <= v < w < 0x1_0000 && IsScalar(v) && IsScalar(w)
    ensures BytesLess(EncodeScalar(v), EncodeScalar(w))
  {
    hide BytesLess;
    SplitThree(v);
    SplitThree(w);
    LessAt(EncodeScalar(v), EncodeScalar(w), if v / 4096 != w / 4096 then 0 else if v / 64 % 64 != w / 64 % 64 then 1 else 2);
  }

  lemma OrderOfFour(v: int, w: int)
    requires 0x1_0000 <= v < w <= 0x10_ffff
    ensures BytesLess(EncodeScalar(v), EncodeScalar(w))
  {
    hide BytesLess;
    SplitFour(v);
    SplitFour(w);
    LessAt(EncodeScalar(v), EncodeScalar(w),
           if v / 262144 != w / 262144 then 0
           else if v / 4096 % 64 != w / 4096 % 64 then 1
           else if v / 64 % 64 != w / 64 % 64 then 2 else 3);
  }

  lemma SplitThree(v: nat)
    ensures v == v / 4096 * 4096 + v / 64 % 64 * 64 + v % 64
  {
  }

  lemma SplitFour(v: nat)
    ensures v == v / 262144 * 262144 + v / 4096 % 64 * 4096 + v / 64 % 64 * 64 + v % 64
  {
    SplitThree(v);
    assert v / 4096 == v / 262144 * 64 + v / 4096 % 64;
  }

  /** Surrogate pairs are ordered as their code points are, from U+10000 to U+10FFFF. */
  lemma PairsKeepOrder(h: unit16, l: unit16, h': unit16, l': unit16)
    requires IsHigh(h) && IsLow(l) && IsHigh(h') && IsLow(l')
    ensures PairValue(h, l) < PairValue(h', l') <==> h < h' || (h == h' && l < l')
    ensures PairValue(0xd800, 0xdc00) == 0x1_0000 && PairValue(0xdbff, 0xdfff) == 0x10_ffff
  {
    assert h % 1024 == h - 0xd800 && h' % 1024 == h' - 0xd800;
    assert l % 1024 == l - 0xdc00 && l' % 1024 == l' - 0xdc00;
  }

  // ---------- bad stretches ----------

  /** How many bytes a character of this first byte would have; none for continuations and 0xf8 to 0xff. */
  function LeadLength(c: byte): nat {
    if c <= 0x7f then 1 else if c <= 0xbf then 0 else if c <= 0xdf then 2 else if c <= 0xef then 3
    else if c <= 0xf7 then 4 else 0
  }

  predicate Continuations(bytes: seq<byte>, i: nat, j: nat) {
    j <= |bytes| && forall k :: i <= k < j ==> Within(bytes[k], 0x80, 0xbf)
  }

  predicate StopsAt(bytes: seq<byte>, j: nat) {
    j >= |bytes| || !Within(bytes[j], 0x80, 0xbf)
  }

  /**
   * A byte that starts no character takes the continuation bytes behind it along, all of them if it is no
   * first byte at all, and as many as its character would have if it is one. A character that would pass
   * the end takes everything along, whatever that is.
   */
  predicate IsBadStretch(bytes: seq<byte>, i: nat, next: nat)
    requires i < |bytes|
  {
    var n := LeadLength(bytes[i]);
    if n == 0 then i < next && Continuations(bytes, i + 1, next) && StopsAt(bytes, next)
    else if i + n > |bytes| then next == |bytes|
    else i < next <= i + n && Continuations(bytes, i + 1, next) && (next == i + n || StopsAt(bytes, next))
  }

  lemma StretchIsUnique(bytes: seq<byte>, i: nat, m: nat, n: nat)
    requires i < |bytes| && IsBadStretch(bytes, i, m) && IsBadStretch(bytes, i, n)
    ensures m == n
  {
  }

  /** `b & (m - 1)`, for a power of two. */
  function Part(b: byte, m: nat): (n: nat)
    requires m > 0
    ensures n < m
  {
    b % m
  }

  /** The number in the low bits of a character of n bytes. */
  function RawValue(bytes: seq<byte>, i: nat, n: nat): int
    requires 2 <= n <= 4 && i + n <= |bytes|
  {
    if n == 2 then Part(bytes[i], 32) * 64 + Part(bytes[i + 1], 64)
    else if n == 3 then Part(bytes[i], 16) * 4096 + Part(bytes[i + 1], 64) * 64 + Part(bytes[i + 2], 64)
    else Part(bytes[i], 8) * 262144 + Part(bytes[i + 1], 64) * 4096 + Part(bytes[i + 2], 64) * 64 + Part(bytes[i + 3], 64)
  }

  /** A complete character in more bytes than its code point needs. */
  predicate IsOverlong(bytes: seq<byte>, i: nat)
    requires i < |bytes|
  {
    var n := LeadLength(bytes[i]);
    && 2 <= n && i + n <= |bytes| && Continuations(bytes, i + 1, i + n)
    && IsScalar(RawValue(bytes, i, n)) && |EncodeScalar(RawValue(bytes, i, n))| < n
  }

  lemma {:induction false} RunStops(bytes: seq<byte>, i: nat)
    requires i <= |bytes|
    ensures var e := i + ContinuationRun(bytes, i); Continuations(bytes, i, e) && StopsAt(bytes, e)
    decreases |bytes| - i
  {
    if i < |bytes| && IsContinuation(bytes[i]) {
      RunStops(bytes, i + 1);
    }
  }

  lemma {:induction false} MissingAt(bytes: seq<byte>, i: nat, extra: nat, res: nat)
    requires i + extra <= |bytes| && ReadTail(bytes, i, extra, res).Missing?
    ensures var at := ReadTail(bytes, i, extra, res).at;
            i <= at < i + extra && Continuations(bytes, i, at) && StopsAt(bytes, at)
    decreases extra
  {
    if IsContinuation(bytes[i]) {
      MissingAt(bytes, i + 1, extra - 1, res * 64 + bytes[i] % 64);
    }
  }

  lemma LeadOf(c: byte)
    ensures c >= 0x80 ==> LeadLength(c) == match ExtraLength(c) case None => 0 case Some(extra) => extra + 1
    ensures IsContinuation(c) <==> Within(c, 0x80, 0xbf)
  {
  }

  /** What a round outputs for bytes that are no character. */
  function Recovered(bytes: seq<byte>, i: nat, strategy: Strategy): seq<int>
    requires i < |bytes|
  {
    if strategy != Replace then []
    else if IsOverlong(bytes, i) then [RawValue(bytes, i, LeadLength(bytes[i]))]
    else [0xfffd]
  }

  lemma RawIs(bytes: seq<byte>, i: nat, extra: nat)
    requires 1 <= extra <= 3 && i + extra < |bytes| && bytes[i] >= 0x80 && ExtraLength(bytes[i]) == Some(extra)
    requires ReadTail(bytes, i + 1, extra, LeadBits(bytes[i], extra)).Complete?
    ensures Continuations(bytes, i + 1, i + 1 + extra)
    ensures ReadTail(bytes, i + 1, extra, LeadBits(bytes[i], extra)).res == RawValue(bytes, i, extra + 1)
  {
    hide ReadTail;
    CompleteTail(bytes, i + 1, extra, LeadBits(bytes[i], extra));
  }

  lemma OverlongIff(v: int, extra: nat)
    requires IsScalar(v) && 1 <= extra <= 3
    ensures v <= OverlongMask(extra) <==> |EncodeScalar(v)| < extra + 1
  {
  }

  lemma NoLead(bytes: seq<byte>, i: nat, strategy: Strategy)
    requires i < |bytes| && LeadLength(bytes[i]) == 0 && strategy != Throw
    ensures DecodeRound(bytes, i, strategy).Ok?
    ensures var r := DecodeRound(bytes, i, strategy).value;
            IsBadStretch(bytes, i, r.next) && r.output == Recovered(bytes, i, strategy)
  {
    LeadOf(bytes[i]);
    RunStops(bytes, i + 1);
  }

  lemma Lead(bytes: seq<byte>, i: nat, strategy: Strategy)
    requires i < |bytes| && LeadLength(bytes[i]) >= 2 && strategy != Throw && !CharAt(bytes, i)
    ensures DecodeRound(bytes, i, strategy).Ok?
    ensures var r := DecodeRound(bytes, i, strategy).value;
            IsBadStretch(bytes, i, r.next) && r.output == Recovered(bytes, i, strategy)
  {
    hide ReadTail, CharAt, ExtraLength, LeadBits, ContinuationRun, EncodeScalar, OverlongMask, RawValue;
    LeadOf(bytes[i]);
    var extra := ExtraLength(bytes[i]).value;
    if i + extra < |bytes| {
      var t := ReadTail(bytes, i + 1, extra, LeadBits(bytes[i], extra));
      if t.Missing? {
        MissingAt(bytes, i + 1, extra, LeadBits(bytes[i], extra));
      } else {
        RawIs(bytes, i, extra);
        if IsScalar(t.res) {
          OverlongIff(t.res, extra);
          if t.res > OverlongMask(extra) {
            CharOtherwise(bytes, i);
          }
        }
      }
    }
  }

  lemma CharOtherwise(bytes: seq<byte>, i: nat)
    requires i < |bytes| && LeadLength(bytes[i]) >= 2 && i + LeadLength(bytes[i]) <= |bytes|
    requires Continuations(bytes, i + 1, i + LeadLength(bytes[i]))
    requires IsScalar(RawValue(bytes, i, LeadLength(bytes[i])))
    requires |EncodeScalar(RawValue(bytes, i, LeadLength(bytes[i])))| >= LeadLength(bytes[i])
    ensures CharAt(bytes, i)
  {
    var n := LeadLength(bytes[i]);
    assert Within(bytes[i + 1], 0x80, 0xbf);
    if n == 2 {
      LeadParts(bytes[i], bytes[i + 1]);
    } else if n == 3 {
      assert Within(bytes[i + 2], 0x80, 0xbf);
      SecondOfThree(bytes[i], bytes[i + 1], bytes[i + 2]);
    } else {
      assert Within(bytes[i + 2], 0x80, 0xbf) && Within(bytes[i + 3], 0x80, 0xbf);
      SecondOfFour(bytes[i], bytes[i + 1], bytes[i + 2], bytes[i + 3]);
    }
  }

  lemma LeadParts(c: byte, b: byte)
    requires LeadLength(c) == 2 && Part(c, 32) * 64 + Part(b, 64) >= 0x80
    ensures GrammarLength(c) == 2
  {
    assert c == 0xc0 + Part(c, 32);
  }

  lemma SecondOfThree(c: byte, b: byte, d: byte)
    requires LeadLength(c) == 3 && Within(b, 0x80, 0xbf)
    requires var v := Part(c, 16) * 4096 + Part(b, 64) * 64 + Part(d, 64); IsScalar(v) && v >= 0x800
    ensures GrammarLength(c) == 3 && Within(b, SecondByteBounds(c).0, SecondByteBounds(c).1)
  {
    assert c == 0xe0 + Part(c, 16) && b == 0x80 + Part(b, 64);
  }

  lemma SecondOfFour(c: byte, b: byte, d: byte, e: byte)
    requires LeadLength(c) == 4 && Within(b, 0x80, 0xbf)
    requires var v := Part(c, 8) * 262144 + Part(b, 64) * 4096 + Part(d, 64) * 64 + Part(e, 64); 0x1_0000 <= v <= 0x10_ffff
    ensures GrammarLength(c) == 4 && Within(b, SecondByteBounds(c).0, SecondByteBounds(c).1)
  {
    assert c == 0xf0 + Part(c, 8) && b == 0x80 + Part(b, 64);
  }

  /**
   * Recovering, a character is decoded, and anything else is dropped or replaced by U+FFFD up to the end of
   * the bad stretch. A code point in too many bytes is taken as it is when replacing, and dropped when ignoring.
   */
  lemma RecoveryRound(bytes: seq<byte>, i: nat, strategy: Strategy)
    requires i < |bytes| && strategy != Throw
    ensures DecodeRound(bytes, i, strategy).Ok?
    ensures var r := DecodeRound(bytes, i, strategy).value;
            if CharAt(bytes, i) then r == Round(i + GrammarLength(bytes[i]), [ScalarAt(bytes, i)])
            else IsBadStretch(bytes, i, r.next) && r.output == Recovered(bytes, i, strategy)
  {
    hide DecodeRound, CharAt, ScalarAt, IsBadStretch, Recovered;
    if CharAt(bytes, i) {
      CharIsEncoding(bytes, i);
      RoundOfScalar(ScalarAt(bytes, i), bytes, i, strategy);
    } else {
      OneByteIsChar(bytes, i);
      if LeadLength(bytes[i]) == 0 {
        NoLead(bytes, i, strategy);
      } else {
        Lead(bytes, i, strategy);
      }
    }
  }

  lemma OneByteIsChar(bytes: seq<byte>, i: nat)
    requires i < |bytes| && !CharAt(bytes, i)
    ensures LeadLength(bytes[i]) != 1
  {
  }

  // ---------- bad bytes between good ones ----------

  /** Rounds that decode one character go on behind it. */
  lemma DecodeOne(bytes: seq<byte>, i: nat, v: int, next: nat, strategy: Strategy)
    requires i < |bytes| && DecodeRound(bytes, i, strategy) == Ok(Round(next, [v]))
    requires next <= |bytes| && Decode(bytes, next, strategy).Ok?
    ensures Decode(bytes, i, strategy) == Ok([v] + Decode(bytes, next, strategy).value)
  {
    hide DecodeRound;
  }

  lemma {:induction false} DecodePrefix(vs: seq<int>, bytes: seq<byte>, i: nat, rest: seq<byte>, strategy: Strategy)
    requires AllScalars(vs) && i <= |bytes| && bytes[i..] == EncodeScalars(vs) + rest && strategy != Throw
    ensures var j := i + |EncodeScalars(vs)|;
            && j <= |bytes| && bytes[j..] == rest && Decode(bytes, j, strategy).Ok?
            && Decode(bytes, i, strategy) == Ok(vs + Decode(bytes, j, strategy).value)
    decreases |vs|
  {
    hide DecodeRound, CharAt, EncodeScalar, EncodeScalars, Decode;
    DecodeTotal(bytes, i, strategy);
    if vs == [] {
      NoScalars();
      assert [] + rest == rest && [] + Decode(bytes, i, strategy).value == Decode(bytes, i, strategy).value;
    } else {
      var e, more := EncodeScalar(vs[0]), EncodeScalars(vs[1..]);
      FirstScalar(vs, rest);
      HeadAt(bytes, i, e, more + rest);
      RoundOfScalar(vs[0], bytes, i, strategy);
      DecodePrefix(vs[1..], bytes, i + |e|, rest, strategy);
      DecodeOne(bytes, i, vs[0], i + |e|, strategy);
      var tail := Decode(bytes, i + |e| + |more|, strategy).value;
      assert vs + tail == [vs[0]] + (vs[1..] + tail);
    }
  }

  lemma {:induction false} FirstScalar(vs: seq<int>, rest: seq<byte>)
    requires AllScalars(vs) && vs != []
    ensures EncodeScalars(vs) + rest == EncodeScalar(vs[0]) + (EncodeScalars(vs[1..]) + rest)
    ensures |EncodeScalars(vs)| == |EncodeScalar(vs[0])| + |EncodeScalars(vs[1..])|
  {
    hide EncodeScalar, EncodeScalars;
    EncodeFirst(vs);
    ConcatGroups(EncodeScalar(vs[0]), EncodeScalars(vs[1..]), rest);
  }

  lemma {:induction false} EncodeFirst(vs: seq<int>)
    requires AllScalars(vs) && vs != []
    ensures EncodeScalars(vs) == EncodeScalar(vs[0]) + EncodeScalars(vs[1..])
  {
    hide EncodeScalar;
  }

  lemma FirstByteOf(vs: seq<int>)
    requires AllScalars(vs) && vs != []
    ensures EncodeScalars(vs) != [] && !Within(EncodeScalars(vs)[0], 0x80, 0xbf)
  {
  }

  /**
   * Bytes that start no character, with their continuations, between well-formed texts: ignoring leaves
   * both texts, replacing puts one U+FFFD between them.
   */
  lemma BadBytesBetween(a: seq<int>, bad: seq<byte>, b: seq<int>, strategy: Strategy)
    requires AllScalars(a) && AllScalars(b) && strategy != Throw
    requires bad != [] && LeadLength(bad[0]) == 0 && Continuations(bad, 1, |bad|)
    ensures Decode(EncodeScalars(a) + bad + EncodeScalars(b), 0, strategy) ==
            Ok(a + (if strategy == Replace then [0xfffd] else []) + b)
  {
    hide DecodeRound, EncodeScalar, EncodeScalars, LeadLength, Within;
    var bytes := EncodeScalars(a) + bad + EncodeScalars(b);
    var i, j := |EncodeScalars(a)|, |EncodeScalars(a)| + |bad|;
    assert bytes[0..] == EncodeScalars(a) + (bad + EncodeScalars(b));
    DecodePrefix(a, bytes, 0, bad + EncodeScalars(b), strategy);
    assert bytes[j..] == EncodeScalars(b);
    DecodeEncodedScalars(b, bytes, j, strategy);
    assert bytes[i] == bad[0] && forall k :: i < k < j ==> bytes[k] == bad[k - i];
    if b != [] {
      FirstByteOf(b);
      assert bytes[j] == EncodeScalars(b)[0];
    } else {
      assert EncodeScalars(b) == [] by { NoScalars(); }
    }
    assert IsBadStretch(bytes, i, j);
    BadFirstByte(bytes, i);
    RecoveryRound(bytes, i, strategy);
    var r := DecodeRound(bytes, i, strategy).value;
    StretchIsUnique(bytes, i, r.next, j);
    assert a + (r.output + b) == a + r.output + b;
  }

  lemma NoScalars()
    ensures EncodeScalars([]) == []
  {
  }

  lemma BadFirstByte(bytes: seq<byte>, i: nat)
    requires i < |bytes| && LeadLength(bytes[i]) == 0
    ensures !CharAt(bytes, i) && !IsOverlong(bytes, i)
  {
  }

  /** The documentation says that ignoring accepts overlong forms: it drops them, and replacing accepts them. */
  lemma OverlongSlash()
    ensures Decode([0xc0, 0xaf], 0, Replace) == Ok([0x2f]) && Decode([0xc0, 0xaf], 0, Ignore) == Ok([])
    ensures Decode([0xc0, 0xaf], 0, Throw) == Err
  {
    var bytes: seq<byte> := [0xc0, 0xaf];
    assert LeadBits(0xc0, 1) == 0 && ReadTail(bytes, 2, 0, 0x2f) == Complete(0x2f);
    assert ReadTail(bytes, 1, 1, 0) == Complete(0x2f);
    assert DecodeRound(bytes, 0, Replace) == Ok(Round(2, [0x2f])) && Decode(bytes, 2, Replace) == Ok([]);
    assert DecodeRound(bytes, 0, Ignore) == Ok(Round(2, [])) && Decode(bytes, 2, Ignore) == Ok([]);
    assert DecodeRound(bytes, 0, Throw) == Err;
    NothingMore<int>([0x2f]);
    NothingMore<int>([]);
  }

  /** U+20AC and U+1F600, whose surrogate pair is 0xd83d 0xde00. */
  lemma EuroAndGrin()
    ensures Encode([0x20ac], 0) == Ok([0xe2, 0x82, 0xac])
    ensures Encode([0xd83d, 0xde00], 0) == Ok([0xf0, 0x9f, 0x98, 0x80])
  {
    var euro: seq<unit16>, grin: seq<unit16> := [0x20ac], [0xd83d, 0xde00];
    assert Encode(euro, 1) == Ok([]) && Encode(grin, 2) == Ok([]);
    assert EncodeUnit(0x20ac) == [0xe2, 0x82, 0xac];
    assert PairValue(0xd83d, 0xde00) == 0x1f600;
    assert EncodeScalar(0x1f600) == [0xf0, 0x9f, 0x98, 0x80];
    NothingMore<byte>(EncodeUnit(0x20ac));
    NothingMore<byte>(EncodeScalar(0x1f600));
  }
}
