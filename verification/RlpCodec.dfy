/** The loops of the RLP encoder and decoder, proved against the functions of module Rlp. */
module RlpCodec {
  import opened Wrappers
  import opened Bytes
  import opened Rlp

  /** The shift loop; it needs the sign bit of the 32-bit word to stay clear. */
  method ArrayifyInteger(value: nat) returns (result: seq<byte>)
    requires value < TWO_31
    ensures result == FromNat(value)
  {
    result := [];
    var v := value;
    while v != 0
      invariant 0 <= v <= value
      invariant FromNat(value) == FromNat(v) + result
    {
      assert ToInt32(v) == v;
      assert FromNat(v / 256) + [v % 256] + result == FromNat(v / 256) + ([v % 256] + result);
      result := [v % 256] + result;
      v := ToInt32(v) / 256;
    }
  }

  method UnarrayifyInteger(data: seq<byte>, offset: nat, length: nat) returns (result: nat)
    requires offset + length <= |data|
    ensures result == ToNat(data[offset..offset + length])
  {
    result := 0;
    for i := 0 to length
      invariant result == ToNat(data[offset..offset + i])
    {
      assert data[offset..offset + i + 1][..i] == data[offset..offset + i];
      result := result * 256 + data[offset + i];
    }
  }

  method WithHeader(base: byte, payload: seq<byte>) returns (r: seq<byte>)
    requires (base == 0x80 || base == 0xc0) && |payload| < TWO_31
    ensures r == Header(base, |payload|) + payload
  {
    if |payload| <= 55 {
      return [base + |payload|] + payload;
    }
    var length := ArrayifyInteger(|payload|);
    LengthOfLength(|payload|);
    length := [base + 55 + |length|] + length;
    r := length + payload;
  }

  /** `_encode`: the list branch concatenates the encodings of the children in order. */
  method EncodeItem(x: Item) returns (r: seq<byte>)
    requires Encode(x).Some?
    ensures Some(r) == Encode(x)
    decreases x
  {
    match x
    case List(items) =>
      var payload: seq<byte> := [];
      for i := 0 to |items|
        invariant EncodeAll(items[..i]) == Some(payload)
      {
        assert items[..i + 1] == items[..i] + [items[i]];
        EncodeAllAppend(items[..i], items[i]);
        ChildEncodable(items, i);
        var child := EncodeItem(items[i]);
        payload := payload + child;
      }
      assert items[..|items|] == items;
      r := WithHeader(0xc0, payload);
    case Str(data) =>
      if |data| == 1 && data[0] <= 0x7f {
        return data;
      }
      r := WithHeader(0x80, data);
  }

  lemma {:induction false} ChildEncodable(xs: seq<Item>, i: nat)
    requires i < |xs| && EncodeAll(xs).Some?
    ensures Encode(xs[i]).Some?
    decreases i
  {
    if i > 0 {
      ChildEncodable(xs[1..], i - 1);
    }
  }

  /** Children decoded so far, in front of what is still to come. */
  function Prepend(done: seq<Item>, rest: Result<seq<Item>>): Result<seq<Item>> {
    match rest
    case Ok(xs) => Ok(done + xs)
    case Err => Err
  }

  /** `_decodeChildren`: the running child offset reaches the end of the list exactly, or it throws. */
  method DecodeChildrenLoop(data: seq<byte>, start: nat, end: nat) returns (r: Result<seq<Item>>)
    requires start <= end <= |data|
    ensures r == DecodeChildren(data, start, end)
    decreases |data| - start, 1
  {
    var result: seq<Item> := [];
    var childOffset := start;
    assert forall xs: seq<Item> :: [] + xs == xs;
    while childOffset < end
      invariant start <= childOffset <= end
      invariant DecodeChildren(data, start, end) == Prepend(result, DecodeChildren(data, childOffset, end))
    {
      var decoded := DecodeItem(data, childOffset);
      if decoded.Err? {
        return Err;
      }
      ghost var rest := DecodeChildren(data, childOffset, end);
      if childOffset + decoded.value.consumed > end {
        return Err;
      }
      assert rest.Ok? ==> result + rest.value == (result + [decoded.value.result]) + rest.value[1..];
      result := result + [decoded.value.result];
      childOffset := childOffset + decoded.value.consumed;
    }
    assert result + [] == result;
    r := Ok(result);
  }

  method DecodeItem(data: seq<byte>, offset: nat) returns (r: Result<Decoded>)
    requires offset <= |data|
    ensures r == Decode(data, offset)
    decreases |data| - offset, 0
  {
    hide DecodeChildren, ToNat;
    if offset == |data| {
      return Err;
    }
    var c := data[offset];
    if c >= 0xf8 {
      var lengthLength := c - 0xf7;
      if offset + 1 + lengthLength > |data| {
        return Err;
      }
      var length := UnarrayifyInteger(data, offset + 1, lengthLength);
      if offset + 1 + lengthLength + length > |data| {
        return Err;
      }
      var start := offset + 1 + lengthLength;
      assert ReadHead(data, offset) == Ok(Head(true, start, length));
      var children := DecodeChildrenLoop(data, start, start + length);
      r := match children case Ok(xs) => Ok(Decoded(List(xs), 1 + lengthLength + length)) case Err => Err;
    } else if c >= 0xc0 {
      var length := c - 0xc0;
      if offset + 1 + length > |data| {
        return Err;
      }
      assert ReadHead(data, offset) == Ok(Head(true, offset + 1, length));
      var children := DecodeChildrenLoop(data, offset + 1, offset + 1 + length);
      r := match children case Ok(xs) => Ok(Decoded(List(xs), 1 + length)) case Err => Err;
    } else if c >= 0xb8 {
      var lengthLength := c - 0xb7;
      if offset + 1 + lengthLength > |data| {
        return Err;
      }
      var length := UnarrayifyInteger(data, offset + 1, lengthLength);
      if offset + 1 + lengthLength + length > |data| {
        return Err;
      }
      var start := offset + 1 + lengthLength;
      assert ReadHead(data, offset) == Ok(Head(false, start, length));
      r := Ok(Decoded(Str(data[start..start + length]), 1 + lengthLength + length));
    } else if c >= 0x80 {
      var length := c - 0x80;
      if offset + 1 + length > |data| {
        return Err;
      }
      assert ReadHead(data, offset) == Ok(Head(false, offset + 1, length));
      r := Ok(Decoded(Str(data[offset + 1..offset + 1 + length]), 1 + length));
    } else {
      assert data[offset..offset + 1] == [c];
      r := Ok(Decoded(Str([c]), 1));
    }
  }
}
