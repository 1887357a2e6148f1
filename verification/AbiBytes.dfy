/** Lists of byte strings in the contract ABI: a head of offsets, then length and padded bytes of each. */
module AbiBytes {
  import opened Wrappers
  import opened Bytes
  import opened Sequences

  /** A word: the number in its last bytes. Lengths are floats and so at most 2^53 - 1. */
  function NumPad(value: nat): (w: Result<seq<byte>>)
    ensures w.Ok? <==> value <= MAX_SAFE
    ensures w.Ok? ==> |w.value| == 32
  {
    if value > MAX_SAFE then Err
    else
      SafeLength(value);
      Ok(Zeros(32 - |FromNat(value)|) + FromNat(value))
  }

  lemma NumPadValue(value: nat)
    requires value <= MAX_SAFE
    ensures ToNat(NumPad(value).value) == value
  {
    SafeLength(value);
    LeadingZeros(32 - |FromNat(value)|, FromNat(value));
    ToNatFromNat(value);
  }

  /** The least multiple of 32 that is not below. */
  function Ceil32(n: nat): (m: nat)
    ensures m >= n && m % 32 == 0 && m < n + 32
  {
    (n + 31) / 32 * 32
  }

  function BytesPad(value: seq<byte>): (r: seq<byte>)
    ensures |r| == Ceil32(|value|) && r[..|value|] == value
  {
    if |value| % 32 == 0 then value else value + Zeros(Ceil32(|value|) - |value|)
  }

  // ---------- the encoding ----------

  ghost predicate Fits(datas: seq<seq<byte>>) {
    && (forall i :: 0 <= i < |datas| ==> |datas[i]| <= MAX_SAFE)
    && forall i :: 0 <= i < |datas| ==> OffsetOf(datas, i) <= MAX_SAFE
  }

  /** One item: its length, and its bytes up to a whole word. */
  function Item(data: seq<byte>): (r: seq<byte>)
    requires |data| <= MAX_SAFE
    ensures |r| == 32 + Ceil32(|data|)
  {
    NumPad(|data|).value + BytesPad(data)
  }

  function Tail(datas: seq<seq<byte>>): (r: seq<byte>)
    requires forall i :: 0 <= i < |datas| ==> |datas[i]| <= MAX_SAFE
  {
    if datas == [] then [] else Tail(datas[..|datas| - 1]) + Item(datas[|datas| - 1])
  }

  function TailSize(datas: seq<seq<byte>>): (n: nat)
    ensures n % 32 == 0
  {
    if datas == [] then 0 else TailSize(datas[..|datas| - 1]) + 32 + Ceil32(|datas[|datas| - 1]|)
  }

  /** The offset of an item: behind the head and the items before it. */
  function OffsetOf(datas: seq<seq<byte>>, i: nat): nat
    requires i <= |datas|
  {
    32 * |datas| + TailSize(datas[..i])
  }

  /** The first k words of the head. */
  function Heads(datas: seq<seq<byte>>, k: nat): (r: seq<byte>)
    requires Fits(datas) && k <= |datas|
    ensures |r| == 32 * k
  {
    if k == 0 then [] else Heads(datas, k - 1) + NumPad(OffsetOf(datas, k - 1)).value
  }

  function Encoding(datas: seq<seq<byte>>): seq<byte>
    requires Fits(datas)
  {
    Heads(datas, |datas|) + Tail(datas)
  }

  // ---------- reading an item ----------

  /** `getNumber(dataSlice(result, at, at + 32))`. */
  function NumberAt(result: seq<byte>, at: nat): Option<nat> {
    if at + 32 > |result| then None
    else
      var n := ToNat(result[at..at + 32]);
      if n > MAX_SAFE then None else Some(n)
  }

  function ParseBytes(result: seq<byte>, start: nat): Option<seq<byte>> {
    if result == [] then None
    else
      match NumberAt(result, start)
      case None => None
      case Some(offset) =>
        (match NumberAt(result, offset)
         case None => None
         case Some(length) =>
           if offset + 32 + length > |result| then None else Some(result[offset + 32..offset + 32 + length]))
  }

  // ---------- every item is found ----------

  lemma {:induction false} TailLength(datas: seq<seq<byte>>)
    requires forall i :: 0 <= i < |datas| ==> |datas[i]| <= MAX_SAFE
    ensures |Tail(datas)| == TailSize(datas)
  {
    if datas != [] {
      TailLength(datas[..|datas| - 1]);
    }
  }

  lemma TailStep(datas: seq<seq<byte>>, d: seq<byte>)
    requires forall i :: 0 <= i < |datas + [d]| ==> |(datas + [d])[i]| <= MAX_SAFE
    ensures |d| <= MAX_SAFE && forall i :: 0 <= i < |datas| ==> |datas[i]| <= MAX_SAFE
    ensures Tail(datas + [d]) == Tail(datas) + Item(d)
  {
    var more := datas + [d];
    assert more[..|datas|] == datas && more[|datas|] == d;
    assert forall i :: 0 <= i < |datas| ==> more[i] == datas[i];
  }

  ghost predicate Short(datas: seq<seq<byte>>) {
    forall i :: 0 <= i < |datas| ==> |datas[i]| <= MAX_SAFE
  }

  lemma ShortTake(datas: seq<seq<byte>>, k: nat)
    requires k <= |datas| && Short(datas)
    ensures Short(datas[..k])
  {
  }

  /** The item stands at its place in the tail. */
  lemma {:induction false} ItemInTail(datas: seq<seq<byte>>, i: nat)
    requires Short(datas) && i < |datas|
    ensures |Tail(datas)| == TailSize(datas) && TailSize(datas[..i]) + 32 + Ceil32(|datas[i]|) <= TailSize(datas)
    ensures Tail(datas)[TailSize(datas[..i])..TailSize(datas[..i]) + 32 + Ceil32(|datas[i]|)] == Item(datas[i])
    decreases |datas|
  {
    hide Item, Ceil32;
    var n := |datas| - 1;
    var init := datas[..n];
    TailLength(datas);
    ShortTake(datas, n);
    TailLength(init);
    if i < n {
      ItemInTail(init, i);
      assert init[..i] == datas[..i];
    } else {
      assert datas[..i] == init;
    }
  }

  lemma {:induction false} HeadAt(datas: seq<seq<byte>>, k: nat, i: nat)
    requires Fits(datas) && i < k <= |datas|
    ensures Heads(datas, k)[32 * i..32 * i + 32] == NumPad(OffsetOf(datas, i)).value
    decreases k
  {
    hide NumPad, OffsetOf, Fits;
    if i < k - 1 {
      HeadAt(datas, k - 1, i);
    }
  }

  lemma SliceOfRight(a: seq<byte>, b: seq<byte>, i: nat, j: nat)
    requires i <= j <= |b|
    ensures (a + b)[|a| + i..|a| + j] == b[i..j]
  {
  }

  /** In the encoding, the head word of an item, and the item where that word points. */
  lemma EncodingParts(datas: seq<seq<byte>>, i: nat)
    requires Fits(datas) && i < |datas|
    ensures var e, at := Encoding(datas), OffsetOf(datas, i);
            && 32 * i + 32 <= |e| && e[32 * i..32 * i + 32] == NumPad(at).value
            && at + 32 + Ceil32(|datas[i]|) <= |e| && e[at..at + 32 + Ceil32(|datas[i]|)] == Item(datas[i])
  {
    hide Item, Heads, Tail, NumPad, Ceil32;
    var heads, tail := Heads(datas, |datas|), Tail(datas);
    HeadAt(datas, |datas|, i);
    ItemInTail(datas, i);
    var at := TailSize(datas[..i]);
    SliceOfRight(heads, tail, at, at + 32 + Ceil32(|datas[i]|));
    assert (heads + tail)[32 * i..32 * i + 32] == heads[32 * i..32 * i + 32];
  }

  /**
   * The encoding is a whole number of words, and reading it at head slot 32 * i gives exactly item
   * i, although the offset was known only when the tail had grown so far.
   */
  lemma ItemIsFound(datas: seq<seq<byte>>, i: nat)
    requires Fits(datas) && i < |datas|
    ensures |Encoding(datas)| % 32 == 0
    ensures ParseBytes(Encoding(datas), 32 * i) == Some(datas[i])
  {
    hide Heads, Tail, NumPad, Encoding, ParseBytes, Item, OffsetOf, Fits, Ceil32;
    assert OffsetOf(datas, i) <= MAX_SAFE && |datas[i]| <= MAX_SAFE by {
      FitsAt(datas, i);
    }
    EncodingParts(datas, i);
    EncodingSize(datas);
    ReadItem(Encoding(datas), 32 * i, OffsetOf(datas, i), datas[i]);
  }

  lemma FitsAt(datas: seq<seq<byte>>, i: nat)
    requires Fits(datas) && i < |datas|
    ensures OffsetOf(datas, i) <= MAX_SAFE && |datas[i]| <= MAX_SAFE
  {
  }

  lemma ReadItem(e: seq<byte>, start: nat, at: nat, d: seq<byte>)
    requires at <= MAX_SAFE && |d| <= MAX_SAFE
    requires start + 32 <= |e| && e[start..start + 32] == NumPad(at).value
    requires at + 32 + Ceil32(|d|) <= |e| && e[at..at + 32 + Ceil32(|d|)] == Item(d)
    ensures ParseBytes(e, start) == Some(d)
  {
    hide NumPad, Item;
    NumPadValue(at);
    NumPadValue(|d|);
    ItemParts(d);
    var size := 32 + Ceil32(|d|);
    SliceOfSlice(e, at, at + size, 0, 32);
    SliceOfSlice(e, at, at + size, 32, 32 + |d|);
  }

  lemma SliceOfSlice(e: seq<byte>, a: nat, b: nat, i: nat, j: nat)
    requires a <= b <= |e| && i <= j <= b - a
    ensures e[a..b][i..j] == e[a + i..a + j]
  {
    var x, y := e[a..b][i..j], e[a + i..a + j];
    forall k | 0 <= k < j - i
      ensures x[k] == y[k]
    {
      assert x[k] == e[a..b][i + k] == e[a + (i + k)];
    }
    assert x == y;
  }

  lemma EncodingSize(datas: seq<seq<byte>>)
    requires Fits(datas)
    ensures |Encoding(datas)| == 32 * |datas| + TailSize(datas)
  {
    TailLength(datas);
  }

  lemma ItemParts(d: seq<byte>)
    requires |d| <= MAX_SAFE
    ensures Item(d)[..32] == NumPad(|d|).value && Item(d)[32..32 + |d|] == d
  {
    hide NumPad;
    assert Item(d)[32..32 + |d|] == BytesPad(d)[..|d|];
  }

  // ---------- the loop ----------

  /** The patched head words, flattened, are the head. */
  lemma {:induction false} FlattenHeads(datas: seq<seq<byte>>, words: seq<seq<byte>>)
    requires Fits(datas) && |words| <= |datas|
    requires forall i :: 0 <= i < |words| ==> words[i] == NumPad(OffsetOf(datas, i)).value
    ensures Flatten(words) == Heads(datas, |words|)
    decreases |words|
  {
    hide OffsetOf, NumPad, Fits;
    if words != [] {
      var init, last := words[..|words| - 1], words[|words| - 1];
      FlattenHeads(datas, init);
      FlattenStep(init, last);
      assert words == init + [last];
    }
  }

  /** Place-holders first, then patched offsets in front and items behind, up to item i. */
  ghost predicate Patched(datas: seq<seq<byte>>, result: seq<seq<byte>>, i: nat) {
    && i <= |datas| <= |result| && Short(datas[..i])
    && (forall k :: 0 <= k < i ==> OffsetOf(datas, k) <= MAX_SAFE && result[k] == NumPad(OffsetOf(datas, k)).value)
    && Flatten(result[|datas|..]) == Tail(datas[..i])
  }

  lemma PatchStep(datas: seq<seq<byte>>, result: seq<seq<byte>>, i: nat)
    requires Patched(datas, result, i) && i < |datas| && |datas[i]| <= MAX_SAFE && OffsetOf(datas, i) <= MAX_SAFE
    ensures Patched(datas, result[i := NumPad(OffsetOf(datas, i)).value] + [NumPad(|datas[i]|).value] + [BytesPad(datas[i])], i + 1)
    ensures OffsetOf(datas, i + 1) == OffsetOf(datas, i) + 32 + Ceil32(|datas[i]|)
  {
    hide Flatten, Tail, NumPad, BytesPad, Ceil32;
    var d, n := datas[i], |datas|;
    var next := result[i := NumPad(OffsetOf(datas, i)).value] + [NumPad(|d|).value] + [BytesPad(d)];
    assert datas[..i + 1] == datas[..i] + [d];
    assert next[n..] == result[n..] + [NumPad(|d|).value] + [BytesPad(d)];
    FlattenStep(result[n..], NumPad(|d|).value);
    FlattenStep(result[n..] + [NumPad(|d|).value], BytesPad(d));
    assert Short(datas[..i + 1]);
    TailStep(datas[..i], d);
    assert Tail(datas[..i]) + NumPad(|d|).value + BytesPad(d) == Tail(datas[..i]) + (NumPad(|d|).value + BytesPad(d));
    TailSizeStep(datas[..i], d);
  }

  lemma TailSizeStep(datas: seq<seq<byte>>, d: seq<byte>)
    ensures TailSize(datas + [d]) == TailSize(datas) + 32 + Ceil32(|d|)
  {
    assert (datas + [d])[..|datas|] == datas;
  }

  lemma PatchedAll(datas: seq<seq<byte>>, result: seq<seq<byte>>)
    requires Patched(datas, result, |datas|)
    ensures Fits(datas) && Flatten(result) == Encoding(datas)
  {
    hide Flatten, Tail, NumPad, OffsetOf, Heads;
    var n := |datas|;
    assert datas[..n] == datas && result == result[..n] + result[n..];
    FlattenAppend(result[..n], result[n..]);
    FlattenHeads(datas, result[..n]);
  }

  /** `encodeBytes`: place-holders, then the loop that patches each of them. */
  method EncodeBytes(datas: seq<seq<byte>>) returns (r: Result<seq<byte>>)
    ensures r.Ok? <==> Fits(datas)
    ensures r.Ok? ==> r.value == Encoding(datas)
  {
    hide Patched, NumPad, BytesPad, OffsetOf, Flatten, Encoding, Tail;
    var result: seq<seq<byte>> := [];
    var byteCount := 0;
    for i := 0 to |datas|
      invariant |result| == i && byteCount == 32 * i && forall k :: 0 <= k < i ==> result[k] == []
    {
      result := result + [[]];
      byteCount := byteCount + 32;
    }
    PatchStart(datas, result);
    for i := 0 to |datas|
      invariant Patched(datas, result, i) && |result| >= |datas| && byteCount == OffsetOf(datas, i)
    {
      var data := datas[i];
      var offset, length := NumPad(byteCount), NumPad(|data|);
      if offset.Err? || length.Err? {
        return Err;
      }
      PatchStep(datas, result, i);
      result := result[i := offset.value];
      result := result + [length.value];
      result := result + [BytesPad(data)];
      byteCount := byteCount + 32 + Ceil32(|data|);
    }
    PatchedAll(datas, result);
    r := Ok(Flatten(result));
  }

  lemma PatchStart(datas: seq<seq<byte>>, result: seq<seq<byte>>)
    requires |result| == |datas|
    ensures Patched(datas, result, 0) && OffsetOf(datas, 0) == 32 * |datas|
  {
  }
}
