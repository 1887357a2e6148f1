/**
 * Recursive Length Prefix: the encoder and the offset-driven decoder, as functions of values,
 * and what relates them.
 */
module Rlp {
  import opened Wrappers
  import opened Bytes
  import opened Sequences

  /** What can be encoded: a byte string, or a list of such values. */
  datatype Item = Str(bytes: seq<byte>) | List(items: seq<Item>)

  // ---------- the length bytes ----------

  const TWO_31 := 0x8000_0000
  const TWO_32 := 0x1_0000_0000

  /** The operand conversion of the shift operator: the low 32 bits, read as a signed number. */
  function ToInt32(v: int): int {
    var m := v % TWO_32;
    if m >= TWO_31 then m - TWO_32 else m
  }

  /** The shift loop of `arrayifyInteger`, started on `v`, stops and leaves `bs`. */
  ghost predicate ShiftLoopLeaves(v: int, bs: seq<byte>)
    decreases |bs|
  {
    if v == 0 then bs == []
    else bs != [] && bs[|bs| - 1] == v % 256 && ShiftLoopLeaves(ToInt32(v) / 256, bs[..|bs| - 1])
  }

  lemma {:induction false} ShiftLoopOnSmall(v: nat)
    requires v < TWO_31
    ensures ShiftLoopLeaves(v, FromNat(v))
  {
    if v > 0 {
      ShiftLoopOnSmall(v / 256);
      assert ToInt32(v) == v;
      hide ToInt32;
      assert FromNat(v)[..|FromNat(v)| - 1] == FromNat(v / 256);
    }
  }

  lemma {:induction false} ShiftLoopIsDeterministic(v: int, a: seq<byte>, b: seq<byte>)
    requires ShiftLoopLeaves(v, a) && ShiftLoopLeaves(v, b)
    ensures a == b
    decreases |a|
  {
    if v != 0 {
      ShiftLoopIsDeterministic(ToInt32(v) / 256, a[..|a| - 1], b[..|b| - 1]);
      assert a == a[..|a| - 1] + [v % 256] && b == b[..|b| - 1] + [v % 256];
    }
  }

  lemma {:induction false} ShiftLoopNeverStopsOnNegative(v: int, bs: seq<byte>)
    requires -TWO_31 <= v < 0
    ensures !ShiftLoopLeaves(v, bs)
    decreases |bs|
  {
    assert ToInt32(v) == v;
    assert -TWO_31 <= v / 256 < 0;
    if bs != [] {
      ShiftLoopNeverStopsOnNegative(v / 256, bs[..|bs| - 1]);
    }
  }

  /** A length that has the sign bit of a 32-bit word set keeps the loop running for ever. */
  lemma ShiftLoopDiverges(v: nat, bs: seq<byte>)
    requires TWO_31 <= v < TWO_32
    ensures !ShiftLoopLeaves(v, bs)
  {
    if ShiftLoopLeaves(v, bs) {
      assert ToInt32(v) == v - TWO_32;
      assert -TWO_31 <= ToInt32(v) / 256 < 0;
      ShiftLoopNeverStopsOnNegative(ToInt32(v) / 256, bs[..|bs| - 1]);
    }
  }

  lemma ModOfMod(v: nat)
    ensures v % TWO_32 % 256 == v % 256
  {
    var q, m := v / TWO_32, v % TWO_32;
    assert v == (q * 0x100_0000) * 256 + m;
  }

  /** When the loop does stop on a larger number, it has kept the low 32 bits only. */
  lemma ShiftLoopLosesHighBits(v: nat, bs: seq<byte>)
    requires TWO_31 <= v && ShiftLoopLeaves(v, bs)
    ensures ToNat(bs) == v % TWO_32 < TWO_31
  {
    var m := v % TWO_32;
    var rest := bs[..|bs| - 1];
    if m >= TWO_31 {
      ShiftLoopNeverStopsOnNegative(ToInt32(v) / 256, rest);
    } else {
      ShiftLoopOnSmall(m / 256);
      ShiftLoopIsDeterministic(m / 256, rest, FromNat(m / 256));
      ToNatFromNat(m / 256);
      ModOfMod(v);
    }
  }

  /** `arrayifyInteger` yields the big-endian bytes of a length exactly when it is below 2^31. */
  lemma ShiftLoopCorrectIff(v: nat)
    ensures (exists bs: seq<byte> :: ShiftLoopLeaves(v, bs) && ToNat(bs) == v) <==> v < TWO_31
  {
    if v < TWO_31 {
      ShiftLoopOnSmall(v);
      ToNatFromNat(v);
    } else {
      forall bs: seq<byte> | ShiftLoopLeaves(v, bs)
        ensures ToNat(bs) != v
      {
        ShiftLoopLosesHighBits(v, bs);
      }
    }
  }

  // ---------- encoding ----------

  /** The bytes before a payload of `n` bytes: one byte, or a byte counting the length bytes. */
  function Header(base: byte, n: nat): seq<byte>
    requires (base == 0x80 || base == 0xc0) && n < TWO_31
  {
    if n <= 55 then [base + n]
    else
      LengthOfLength(n);
      [base + 55 + |FromNat(n)|] + FromNat(n)
  }

  lemma LengthOfLength(n: nat)
    requires 0 < n < TWO_31
    ensures 1 <= |FromNat(n)| <= 4
  {
    FromNatLength(n, 4);
    FromNatMinimal(n);
    assert Pow(256, 4) == TWO_32;
  }

  /**
   * The encoding; None when a payload reaches 2^31 bytes, where the source's length loop
   * does not stop.
   */
  function Encode(x: Item): Option<seq<byte>>
    decreases x
  {
    match x
    case Str(b) =>
      if |b| == 1 && b[0] <= 0x7f then Some(b)
      else if |b| >= TWO_31 then None
      else Some(Header(0x80, |b|) + b)
    case List(xs) =>
      match EncodeAll(xs)
      case None => None
      case Some(p) => if |p| >= TWO_31 then None else Some(Header(0xc0, |p|) + p)
  }

  function EncodeAll(xs: seq<Item>): Option<seq<byte>>
    decreases xs
  {
    if xs == [] then Some([])
    else
      match (Encode(xs[0]), EncodeAll(xs[1..]))
      case (Some(e), Some(rest)) => Some(e + rest)
      case _ => None
  }

  lemma {:induction false} EncodeAllAppend(xs: seq<Item>, x: Item)
    ensures EncodeAll(xs + [x]) ==
            match (EncodeAll(xs), Encode(x))
            case (Some(p), Some(e)) => Some(p + e)
            case _ => None
  {
    if xs == [] {
      assert [] + [x] == [x] && [x][1..] == [];
      if Encode(x).Some? {
        assert Encode(x).value + [] == Encode(x).value && [] + Encode(x).value == Encode(x).value;
      }
    } else {
      EncodeAllAppend(xs[1..], x);
      assert (xs + [x])[1..] == xs[1..] + [x];
      if Encode(xs[0]).Some? && EncodeAll(xs[1..]).Some? && Encode(x).Some? {
        assert Encode(xs[0]).value + (EncodeAll(xs[1..]).value + Encode(x).value)
            == (Encode(xs[0]).value + EncodeAll(xs[1..]).value) + Encode(x).value;
      }
    }
  }

  // ---------- decoding ----------

  /** What a header says: the kind of value and where its payload lies. */
  datatype Head = Head(isList: bool, start: nat, length: nat)

  /** The branches on the first byte, with their overrun checks. */
  function ReadHead(data: seq<byte>, offset: nat): (r: Result<Head>)
    requires offset <= |data|
    ensures r.Ok? ==> offset < r.value.start + r.value.length <= |data| && offset <= r.value.start
    ensures r.Ok? && r.value.isList ==> offset < r.value.start
  {
    if offset == |data| then Err
    else
      var c := data[offset];
      if c >= 0xf8 then ReadLongHead(data, offset, c - 0xf7, true)
      else if c >= 0xc0 then ReadShortHead(data, offset, c - 0xc0, true)
      else if c >= 0xb8 then ReadLongHead(data, offset, c - 0xb7, false)
      else if c >= 0x80 then ReadShortHead(data, offset, c - 0x80, false)
      else Ok(Head(false, offset, 1))
  }

  function ReadShortHead(data: seq<byte>, offset: nat, length: nat, isList: bool): Result<Head> {
    if offset + 1 + length > |data| then Err else Ok(Head(isList, offset + 1, length))
  }

  function ReadLongHead(data: seq<byte>, offset: nat, lengthLength: nat, isList: bool): Result<Head> {
    if offset + 1 + lengthLength > |data| then Err
    else
      var length := ToNat(data[offset + 1..offset + 1 + lengthLength]);
      if offset + 1 + lengthLength + length > |data| then Err
      else Ok(Head(isList, offset + 1 + lengthLength, length))
  }

  datatype Decoded = Decoded(result: Item, consumed: nat)

  /** The value that starts at `offset`, and how many bytes it takes. */
  function Decode(data: seq<byte>, offset: nat): (r: Result<Decoded>)
    requires offset <= |data|
    ensures r.Ok? ==> 1 <= r.value.consumed <= |data| - offset
    decreases |data| - offset, 0
  {
    var h :- ReadHead(data, offset);
    var end := h.start + h.length;
    if h.isList then
      var children :- DecodeChildren(data, h.start, end);
      Ok(Decoded(List(children), end - offset))
    else Ok(Decoded(Str(data[h.start..end]), end - offset))
  }

  /** The values that fill data[pos..end] exactly. */
  function DecodeChildren(data: seq<byte>, pos: nat, end: nat): Result<seq<Item>>
    requires pos <= end <= |data|
    decreases |data| - pos, 1
  {
    if pos == end then Ok([])
    else
      var d :- Decode(data, pos);
      if pos + d.consumed > end then Err
      else
        var rest :- DecodeChildren(data, pos + d.consumed, end);
        Ok([d.result] + rest)
  }

  function DecodeAll(data: seq<byte>): Result<Item> {
    var d :- Decode(data, 0);
    if d.consumed != |data| then Err else Ok(d.result)
  }

  // ---------- encode, then decode ----------

  lemma ReadLongHeadIs(data: seq<byte>, pos: nat, base: byte, k: nat, n: nat)
    requires (base == 0x80 || base == 0xc0) && 1 <= k <= 4 && pos + 1 + k + n <= |data|
    requires data[pos] == base + 55 + k && ToNat(data[pos + 1..pos + 1 + k]) == n
    ensures ReadHead(data, pos) == Ok(Head(base == 0xc0, pos + 1 + k, n))
  {
    hide ToNat;
  }

  lemma ReadLongHeadAt(data: seq<byte>, pos: nat, base: byte, l: seq<byte>, n: nat)
    requires (base == 0x80 || base == 0xc0) && 1 <= |l| <= 4 && ToNat(l) == n
    requires StandsAt(data, pos, [base + 55 + |l|] + l) && pos + 1 + |l| + n <= |data|
    ensures ReadHead(data, pos) == Ok(Head(base == 0xc0, pos + 1 + |l|, n))
  {
    hide ToNat, ReadHead;
    StandsAtConcat(data, pos, [base + 55 + |l|], l);
    StandsAtItem(data, pos, [base + 55 + |l|], 0);
    ReadLongHeadIs(data, pos, base, |l|, n);
  }

  /** The decoder's header reader inverts the encoder's header. */
  lemma ReadHeadOfHeader(data: seq<byte>, pos: nat, base: byte, p: seq<byte>)
    requires (base == 0x80 || base == 0xc0) && |p| < TWO_31
    requires StandsAt(data, pos, Header(base, |p|) + p)
    ensures var start := pos + |Header(base, |p|)|;
            ReadHead(data, pos) == Ok(Head(base == 0xc0, start, |p|)) && StandsAt(data, start, p)
  {
    hide ToNat, FromNat;
    StandsAtConcat(data, pos, Header(base, |p|), p);
    if |p| > 55 {
      hide ReadHead;
      LengthOfLength(|p|);
      ToNatFromNat(|p|);
      ReadLongHeadAt(data, pos, base, FromNat(|p|), |p|);
    } else {
      StandsAtItem(data, pos, Header(base, |p|), 0);
    }
  }

  lemma {:induction false} EncodingNotEmpty(x: Item)
    requires Encode(x).Some?
    ensures Encode(x).value != []
  {
  }

  lemma DecodeString(data: seq<byte>, pos: nat, start: nat, b: seq<byte>)
    requires pos <= |data| && start + |b| <= |data| && pos <= start
    requires ReadHead(data, pos) == Ok(Head(false, start, |b|)) && StandsAt(data, start, b)
    ensures Decode(data, pos) == Ok(Decoded(Str(b), start + |b| - pos))
  {
  }

  lemma DecodeList(data: seq<byte>, pos: nat, start: nat, length: nat, xs: seq<Item>)
    requires pos <= start && start + length <= |data|
    requires ReadHead(data, pos) == Ok(Head(true, start, length))
    requires DecodeChildren(data, start, start + length) == Ok(xs)
    ensures Decode(data, pos) == Ok(Decoded(List(xs), start + length - pos))
  {
  }

  lemma DecodeFirstChild(data: seq<byte>, pos: nat, end: nat, d: Decoded, rest: seq<Item>)
    requires pos < end <= |data| && 0 < d.consumed <= end - pos
    requires Decode(data, pos) == Ok(d) && DecodeChildren(data, pos + d.consumed, end) == Ok(rest)
    ensures DecodeChildren(data, pos, end) == Ok([d.result] + rest)
  {
  }

  lemma DecodeEncodeString(b: seq<byte>, data: seq<byte>, pos: nat)
    requires Encode(Str(b)).Some? && StandsAt(data, pos, Encode(Str(b)).value)
    ensures Decode(data, pos) == Ok(Decoded(Str(b), |Encode(Str(b)).value|))
  {
    if |b| == 1 && b[0] <= 0x7f {
      StandsAtItem(data, pos, b, 0);
      DecodeString(data, pos, pos, b);
    } else {
      ReadHeadOfHeader(data, pos, 0x80, b);
      DecodeString(data, pos, pos + |Header(0x80, |b|)|, b);
    }
  }

  /** An encoding standing anywhere in a larger buffer decodes to its value and is consumed exactly. */
  lemma {:induction false} DecodeEncode(x: Item, data: seq<byte>, pos: nat)
    requires Encode(x).Some? && StandsAt(data, pos, Encode(x).value)
    ensures Decode(data, pos) == Ok(Decoded(x, |Encode(x).value|))
    decreases x, 0
  {
    hide Decode, DecodeChildren, Header, ReadHead;
    match x
    case Str(b) => DecodeEncodeString(b, data, pos);
    case List(xs) =>
      var p := EncodeAll(xs).value;
      var start := pos + |Header(0xc0, |p|)|;
      ReadHeadOfHeader(data, pos, 0xc0, p);
      DecodeEncodeAll(xs, data, start);
      DecodeList(data, pos, start, |p|, xs);
  }

  lemma DecodeNone(data: seq<byte>, pos: nat)
    requires pos <= |data|
    ensures EncodeAll([]) == Some([]) && DecodeChildren(data, pos, pos) == Ok([])
  {
  }

  lemma EncodeAllSplit(xs: seq<Item>)
    requires EncodeAll(xs).Some? && xs != []
    ensures Encode(xs[0]).Some? && EncodeAll(xs[1..]).Some? && Encode(xs[0]).value != []
    ensures EncodeAll(xs).value == Encode(xs[0]).value + EncodeAll(xs[1..]).value
  {
    EncodingNotEmpty(xs[0]);
  }

  lemma {:induction false} DecodeEncodeAll(xs: seq<Item>, data: seq<byte>, pos: nat)
    requires EncodeAll(xs).Some? && StandsAt(data, pos, EncodeAll(xs).value)
    ensures DecodeChildren(data, pos, pos + |EncodeAll(xs).value|) == Ok(xs)
    decreases xs, 1
  {
    hide Decode, DecodeChildren, Encode, EncodeAll;
    if xs == [] {
      DecodeNone(data, pos);
    } else {
      EncodeAllSplit(xs);
      var e, rest := Encode(xs[0]).value, EncodeAll(xs[1..]).value;
      StandsAtConcat(data, pos, e, rest);
      DecodeEncode(xs[0], data, pos);
      DecodeEncodeAll(xs[1..], data, pos + |e|);
      DecodeFirstChild(data, pos, pos + |e + rest|, Decoded(xs[0], |e|), xs[1..]);
      assert xs == [xs[0]] + xs[1..];
    }
  }

  lemma RoundTrip(x: Item)
    requires Encode(x).Some?
    ensures DecodeAll(Encode(x).value) == Ok(x)
  {
    var e := Encode(x).value;
    assert e[0..|e|] == e;
    DecodeEncode(x, e, 0);
  }

  /** No encoding is a proper prefix of another, and no two values share one. */
  lemma PrefixFree(x: Item, y: Item)
    requires Encode(x).Some? && Encode(y).Some? && Encode(x).value <= Encode(y).value
    ensures x == y
  {
    var ey := Encode(y).value;
    assert ey[0..|ey|] == ey;
    DecodeEncode(x, ey, 0);
    DecodeEncode(y, ey, 0);
  }

  // ---------- decode, then encode ----------

  /** What an accepted header looks like. */
  lemma ReadHeadForm(data: seq<byte>, pos: nat)
    requires pos <= |data| && ReadHead(data, pos).Ok? && pos < ReadHead(data, pos).value.start
    ensures var h := ReadHead(data, pos).value;
            var base := if h.isList then 0xc0 else 0x80;
            || (h.start == pos + 1 && h.length <= 55 && data[pos] == base + h.length)
            || (1 <= h.start - pos - 1 <= 8 && data[pos] == base + 55 + (h.start - pos - 1) &&
                ToNat(data[pos + 1..h.start]) == h.length)
  {
  }

  /** Length bytes the decoder accepts are no fewer than the encoder's, and equal if as many. */
  lemma LengthBytesShortest(n: nat, l: seq<byte>)
    requires ToNat(l) == n
    ensures |FromNat(n)| <= |l| && (|FromNat(n)| == |l| ==> FromNat(n) == l)
  {
    FromNatToNat(l);
    StripZerosLength(l);
  }

  /** A header the decoder accepts is no shorter than the encoder's, and equal at the same length. */
  lemma HeaderIsShortest(data: seq<byte>, pos: nat)
    requires pos <= |data| && ReadHead(data, pos).Ok?
    requires var h := ReadHead(data, pos).value; pos < h.start && h.length < TWO_31
    ensures var h := ReadHead(data, pos).value;
            var e := Header(if h.isList then 0xc0 else 0x80, h.length);
            |e| <= h.start - pos && (|e| == h.start - pos ==> e == data[pos..h.start])
  {
    var h := ReadHead(data, pos).value;
    ReadHeadForm(data, pos);
    assert data[pos..h.start] == [data[pos]] + data[pos + 1..h.start];
    if h.length > 55 {
      LengthBytesShortest(h.length, data[pos + 1..h.start]);
    }
  }

  lemma {:induction false} StripZerosLength(l: seq<byte>)
    ensures |StripZeros(l)| <= |l|
    ensures |StripZeros(l)| == |l| ==> StripZeros(l) == l
  {
    if l != [] && l[0] == 0 {
      StripZerosLength(l[1..]);
    }
  }

  lemma HeaderLengthMonotone(base: byte, m: nat, n: nat)
    requires (base == 0x80 || base == 0xc0) && m <= n < TWO_31
    ensures |Header(base, m)| <= |Header(base, n)|
  {
    if m > 55 {
      FromNatLength(n, |FromNat(n)|);
      FromNatLength(m, |FromNat(n)|);
    }
  }

  /** What an accepted value looks like: a payload behind a header. */
  lemma DecodeForm(data: seq<byte>, pos: nat)
    requires pos <= |data| && Decode(data, pos).Ok?
    ensures ReadHead(data, pos).Ok?
    ensures var h, d := ReadHead(data, pos).value, Decode(data, pos).value;
            var end := h.start + h.length;
            && d.consumed == end - pos
            && data[pos..end] == data[pos..h.start] + data[h.start..end]
            && (h.isList ==> DecodeChildren(data, h.start, end).Ok? &&
                             d.result == List(DecodeChildren(data, h.start, end).value))
            && (!h.isList ==> d.result == Str(data[h.start..end]))
            && (h.start == pos ==> h == Head(false, pos, 1) && data[pos] <= 0x7f)
  {
  }

  /** Joining a shortest header with a payload that is no longer than the original one. */
  lemma JoinShortest(e: seq<byte>, p: seq<byte>, head: seq<byte>, payload: seq<byte>)
    requires |e| <= |head| && (|e| == |head| ==> |p| == |payload| ==> e == head)
    requires |p| <= |payload| && (|p| == |payload| ==> p == payload)
    ensures |e + p| <= |head + payload|
    ensures |e + p| == |head + payload| ==> e + p == head + payload
  {
  }

  /**
   * Whatever the decoder accepts, the encoder re-encodes in no more bytes, and the encoder's form
   * is the only one of that length: canonical form is the unique shortest form.
   */
  lemma {:induction false} EncodeDecode(data: seq<byte>, pos: nat)
    requires pos <= |data| && Decode(data, pos).Ok? && Decode(data, pos).value.consumed < TWO_31
    ensures var d := Decode(data, pos).value;
            Encode(d.result).Some? && |Encode(d.result).value| <= d.consumed &&
            (|Encode(d.result).value| == d.consumed ==> Encode(d.result).value == data[pos..pos + d.consumed])
    decreases |data| - pos, 0
  {
    hide Decode, DecodeChildren, ReadHead, Header;
    DecodeForm(data, pos);
    var h := ReadHead(data, pos).value;
    var end := h.start + h.length;
    if pos < h.start {
      HeaderIsShortest(data, pos);
      var p := data[h.start..end];
      var base := if h.isList then 0xc0 else 0x80;
      if h.isList {
        EncodeDecodeChildren(data, h.start, end);
        p := EncodeAll(DecodeChildren(data, h.start, end).value).value;
        HeaderLengthMonotone(0xc0, |p|, h.length);
      }
      JoinShortest(Header(base, |p|), p, data[pos..h.start], data[h.start..end]);
    }
  }

  lemma DecodeChildrenForm(data: seq<byte>, pos: nat, end: nat)
    requires pos < end <= |data| && DecodeChildren(data, pos, end).Ok?
    ensures Decode(data, pos).Ok?
    ensures var d, xs := Decode(data, pos).value, DecodeChildren(data, pos, end).value;
            var mid := pos + d.consumed;
            && mid <= end && data[pos..end] == data[pos..mid] + data[mid..end]
            && DecodeChildren(data, mid, end).Ok?
            && xs != [] && xs[0] == d.result && xs[1..] == DecodeChildren(data, mid, end).value
  {
  }

  lemma {:induction false} EncodeDecodeChildren(data: seq<byte>, pos: nat, end: nat)
    requires pos <= end <= |data| && end - pos < TWO_31 && DecodeChildren(data, pos, end).Ok?
    ensures var e := EncodeAll(DecodeChildren(data, pos, end).value);
            e.Some? && |e.value| <= end - pos && (|e.value| == end - pos ==> e.value == data[pos..end])
    decreases |data| - pos, 1
  {
    hide Decode, Encode;
    if pos < end {
      DecodeChildrenForm(data, pos, end);
      var d := Decode(data, pos).value;
      var mid := pos + d.consumed;
      EncodeDecode(data, pos);
      EncodeDecodeChildren(data, mid, end);
      var xs := DecodeChildren(data, pos, end).value;
      JoinShortest(Encode(xs[0]).value, EncodeAll(xs[1..]).value, data[pos..mid], data[mid..end]);
    }
  }

  /** Re-encoding an accepted input is a retraction onto the encoder's range. */
  lemma Normalizes(data: seq<byte>)
    requires |data| < TWO_31 && DecodeAll(data).Ok?
    ensures var e := Encode(DecodeAll(data).value);
            e.Some? && |e.value| <= |data| && DecodeAll(e.value) == DecodeAll(data) &&
            (e.value == data <==> |e.value| == |data|)
  {
    EncodeDecode(data, 0);
    assert data[0..|data|] == data;
    RoundTrip(DecodeAll(data).value);
  }
}
