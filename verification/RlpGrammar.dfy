/** The byte strings that the decoder accepts, as a grammar that does not mention the decoder. */
module RlpGrammar {
  import opened Wrappers
  import opened Bytes
  import opened Sequences
  import opened Rlp

  // ---------- the grammar ----------

  /** One byte for a length up to 55, or up to eight length bytes behind one that counts them. */
  predicate IsHead(base: byte, n: nat, h: seq<byte>) {
    || (n <= 55 && h == [base + n])
    || (2 <= |h| <= 9 && h[0] == base + 54 + |h| && ToNat(h[1..]) == n)
  }

  /** `bs` spells `x`, in whatever number of length bytes. */
  ghost predicate Spells(x: Item, bs: seq<byte>)
    decreases x, 0
  {
    match x
    case Str(b) => (bs == b && |b| == 1 && b[0] <= 0x7f) || exists h :: IsHead(0x80, |b|, h) && bs == h + b
    case List(xs) => exists h, p :: IsHead(0xc0, |p|, h) && bs == h + p && SpellsAll(xs, p)
  }

  ghost predicate SpellsAll(xs: seq<Item>, p: seq<byte>)
    decreases xs, 1
  {
    if xs == [] then p == []
    else exists k :: 0 < k <= |p| && Spells(xs[0], p[..k]) && SpellsAll(xs[1..], p[k..])
  }

  // ---------- heads ----------

  lemma HeadIsRead(data: seq<byte>, pos: nat, base: byte, n: nat, h: seq<byte>)
    requires (base == 0x80 || base == 0xc0) && IsHead(base, n, h)
    requires StandsAt(data, pos, h) && pos + |h| + n <= |data|
    ensures h != [] && ReadHead(data, pos) == Ok(Head(base == 0xc0, pos + |h|, n))
  {
    hide ToNat;
    StandsAtItem(data, pos, h, 0);
    if |h| > 1 {
      assert data[pos + 1..pos + |h|] == data[pos..pos + |h|][1..] == h[1..];
    }
  }

  lemma ReadIsHead(data: seq<byte>, pos: nat)
    requires pos <= |data| && ReadHead(data, pos).Ok? && pos < ReadHead(data, pos).value.start
    ensures var h := ReadHead(data, pos).value;
            IsHead(if h.isList then 0xc0 else 0x80, h.length, data[pos..h.start])
  {
    hide ToNat, ReadHead;
    ReadHeadForm(data, pos);
    var h := ReadHead(data, pos).value;
    var head := data[pos..h.start];
    assert head[0] == data[pos] && head[1..] == data[pos + 1..h.start];
  }

  // ---------- what is decoded is spelled ----------

  lemma StringSpelled(b: seq<byte>, h: seq<byte>)
    requires IsHead(0x80, |b|, h)
    ensures Spells(Str(b), h + b)
  {
  }

  lemma ListSpelled(xs: seq<Item>, h: seq<byte>, p: seq<byte>)
    requires IsHead(0xc0, |p|, h) && SpellsAll(xs, p)
    ensures Spells(List(xs), h + p)
  {
    hide SpellsAll;
  }

  lemma {:induction false} DecodedIsSpelled(data: seq<byte>, pos: nat)
    requires pos <= |data| && Decode(data, pos).Ok?
    ensures var d := Decode(data, pos).value; Spells(d.result, data[pos..pos + d.consumed])
    decreases |data| - pos, 0
  {
    hide Decode, DecodeChildren, ReadHead, IsHead, Spells;
    DecodeForm(data, pos);
    var h := ReadHead(data, pos).value;
    var end := h.start + h.length;
    if h.start == pos {
      assert data[pos..end] == [data[pos]];
      ByteSpelled(data[pos]);
    } else {
      ReadIsHead(data, pos);
      if h.isList {
        ChildrenAreSpelled(data, h.start, end);
        ListSpelled(DecodeChildren(data, h.start, end).value, data[pos..h.start], data[h.start..end]);
      } else {
        StringSpelled(data[h.start..end], data[pos..h.start]);
      }
    }
  }

  lemma ByteSpelled(b: byte)
    requires b <= 0x7f
    ensures Spells(Str([b]), [b])
  {
  }

  lemma {:induction false} ChildrenAreSpelled(data: seq<byte>, pos: nat, end: nat)
    requires pos <= end <= |data| && DecodeChildren(data, pos, end).Ok?
    ensures SpellsAll(DecodeChildren(data, pos, end).value, data[pos..end])
    decreases |data| - pos, 1
  {
    hide Decode, DecodeChildren, Spells, SpellsAll;
    if pos == end {
      DecodeNone(data, pos);
      assert data[pos..end] == [];
      NoneSpelled();
    } else {
      DecodeChildrenForm(data, pos, end);
      var d, xs := Decode(data, pos).value, DecodeChildren(data, pos, end).value;
      DecodedIsSpelled(data, pos);
      ChildrenAreSpelled(data, pos + d.consumed, end);
      FirstSpelled(xs, data[pos..end], d.consumed);
    }
  }

  lemma NoneSpelled()
    ensures SpellsAll([], [])
  {
  }

  lemma FirstSpelled(xs: seq<Item>, p: seq<byte>, k: nat)
    requires xs != [] && 0 < k <= |p| && Spells(xs[0], p[..k]) && SpellsAll(xs[1..], p[k..])
    ensures SpellsAll(xs, p)
  {
    hide Spells;
  }

  // ---------- what is spelled is decoded ----------

  lemma SpelledStringIsDecoded(b: seq<byte>, bs: seq<byte>, data: seq<byte>, pos: nat)
    requires Spells(Str(b), bs) && StandsAt(data, pos, bs)
    ensures Decode(data, pos) == Ok(Decoded(Str(b), |bs|))
  {
    hide Decode, ReadHead, IsHead, StandsAt;
    StandsAtEnds(data, pos, bs);
    if bs == b && |b| == 1 && b[0] <= 0x7f {
      StandsAtItem(data, pos, bs, 0);
      ReadByte(data, pos);
      DecodeString(data, pos, pos, b);
    } else {
      var h :| IsHead(0x80, |b|, h) && bs == h + b;
      StandsAtConcat(data, pos, h, b);
      StandsAtEnds(data, pos + |h|, b);
      HeadIsRead(data, pos, 0x80, |b|, h);
      DecodeString(data, pos, pos + |h|, b);
    }
  }

  /** Wherever a spelling stands, the decoder reads what it spells and consumes exactly the spelling. */
  lemma {:induction false} SpelledIsDecoded(x: Item, bs: seq<byte>, data: seq<byte>, pos: nat)
    requires Spells(x, bs) && StandsAt(data, pos, bs)
    ensures Decode(data, pos) == Ok(Decoded(x, |bs|))
    decreases x, 0
  {
    hide Decode, DecodeChildren, ReadHead, IsHead, SpellsAll, StandsAt;
    StandsAtEnds(data, pos, bs);
    match x
    case Str(b) => SpelledStringIsDecoded(b, bs, data, pos);
    case List(xs) =>
      var h, p :| IsHead(0xc0, |p|, h) && bs == h + p && SpellsAll(xs, p);
      StandsAtConcat(data, pos, h, p);
      StandsAtEnds(data, pos + |h|, p);
      HeadIsRead(data, pos, 0xc0, |p|, h);
      SpelledAreDecoded(xs, p, data, pos + |h|);
      DecodeList(data, pos, pos + |h|, |p|, xs);
  }

  lemma ReadByte(data: seq<byte>, pos: nat)
    requires pos < |data| && data[pos] <= 0x7f
    ensures ReadHead(data, pos) == Ok(Head(false, pos, 1))
  {
  }

  lemma {:induction false} SpelledAreDecoded(xs: seq<Item>, p: seq<byte>, data: seq<byte>, pos: nat)
    requires SpellsAll(xs, p) && StandsAt(data, pos, p)
    ensures pos + |p| <= |data| && DecodeChildren(data, pos, pos + |p|) == Ok(xs)
    decreases xs, 1
  {
    hide Decode, DecodeChildren, Spells, StandsAt;
    StandsAtEnds(data, pos, p);
    if xs == [] {
      DecodeNone(data, pos);
    } else {
      var k :| 0 < k <= |p| && Spells(xs[0], p[..k]) && SpellsAll(xs[1..], p[k..]);
      assert p == p[..k] + p[k..];
      StandsAtConcat(data, pos, p[..k], p[k..]);
      SpelledIsDecoded(xs[0], p[..k], data, pos);
      SpelledAreDecoded(xs[1..], p[k..], data, pos + k);
      DecodeFirstChild(data, pos, pos + |p|, Decoded(xs[0], k), xs[1..]);
      assert xs == [xs[0]] + xs[1..];
    }
  }

  // ---------- the decoder ----------

  /** The decoder accepts exactly the spellings, and returns what they spell; anything else is an error. */
  lemma DecodeAllIff(data: seq<byte>, x: Item)
    ensures DecodeAll(data) == Ok(x) <==> Spells(x, data)
  {
    hide Decode, Spells;
    assert data[0..|data|] == data;
    if DecodeAll(data) == Ok(x) {
      DecodedIsSpelled(data, 0);
    }
    if Spells(x, data) {
      SpelledIsDecoded(x, data, data, 0);
    }
  }

  /** The encoder's form is the shortest spelling, and the only one of its length. */
  lemma EncodingIsShortest(x: Item, bs: seq<byte>)
    requires Spells(x, bs) && |bs| < TWO_31
    ensures Encode(x).Some? && Spells(x, Encode(x).value)
    ensures |Encode(x).value| <= |bs| && (|Encode(x).value| == |bs| ==> Encode(x).value == bs)
  {
    hide Decode, Spells, Encode;
    assert bs[0..|bs|] == bs;
    SpelledIsDecoded(x, bs, bs, 0);
    EncodeDecode(bs, 0);
    RoundTrip(x);
    DecodeAllIff(Encode(x).value, x);
  }

  /** A payload gets a header exactly if it is short or the shift loop leaves the bytes of its length. */
  ghost predicate LengthEncodes(n: nat) {
    n <= 55 || exists bs: seq<byte> :: ShiftLoopLeaves(n, bs) && ToNat(bs) == n
  }

  lemma LengthEncodesIff(n: nat)
    ensures LengthEncodes(n) <==> n < TWO_31
  {
    if n < TWO_31 {
      ShiftLoopOnSmall(n);
      ToNatFromNat(n);
    } else {
      forall bs: seq<byte> | ShiftLoopLeaves(n, bs)
        ensures ToNat(bs) != n
      {
        ShiftLoopLosesHighBits(n, bs);
      }
    }
  }

  lemma EncodesIff(x: Item)
    ensures match x
            case Str(b) => Encode(x).Some? <==> LengthEncodes(|b|)
            case List(xs) => Encode(x).Some? <==> EncodeAll(xs).Some? && LengthEncodes(|EncodeAll(xs).value|)
  {
    hide EncodeAll, Header, LengthEncodes;
    match x {
      case Str(b) => LengthEncodesIff(|b|);
      case List(xs) =>
        if EncodeAll(xs).Some? {
          LengthEncodesIff(|EncodeAll(xs).value|);
        }
    }
  }
}
