/** The loops of the mnemonic codec: bytes into 11-bit indices, and indices bit by bit into bytes. */
module MnemonicCodec {
  import opened Wrappers
  import opened Bytes
  import opened Bits
  import opened Mnemonic

  // ---------- entropy to phrase ----------

  /** The finished indices and the one being filled, which still lacks `remaining` bits. */
  ghost predicate Packed(complete: seq<nat>, last: nat, remaining: nat, bits: seq<bool>) {
    && 1 <= remaining <= 11 && last < Pow(2, 11 - remaining)
    && Fit(complete, 11) && Concat(complete, 11) + ToBits(last, 11 - remaining) == bits
  }

  lemma NothingPacked()
    ensures Packed([], 0, 11, Concat(Values([]), 8))
  {
  }

  lemma ByteFits(b: byte)
    ensures b < Pow(2, 8)
  {
    PowerOfTwo(8);
  }

  /** A whole byte goes into the current index. */
  lemma PackWhole(complete: seq<nat>, last: nat, remaining: nat, bits: seq<bool>, b: byte)
    requires Packed(complete, last, remaining, bits) && remaining > 8
    ensures Packed(complete, Shl(last, 8) + b, remaining - 8, bits + ToBits(b, 8))
  {
    hide Pow, ToBits, Concat, Shl;
    ByteFits(b);
    AppendFits(last, 11 - remaining, b, 8);
    BitsAppend(last, 11 - remaining, b, 8);
  }

  lemma AndRowLow(row: seq<bool>, k: nat)
    requires |row| == 8 && k <= 8
    ensures AndRow(row, Row(8 - k, false) + Row(k, true)) == Row(8 - k, false) + row[8 - k..]
  {
  }

  lemma ShlZero(n: nat, v: nat)
    ensures Shl(0, n) + v == v
  {
  }

  lemma AndLowerMask(b: byte, k: nat)
    requires k <= 8
    ensures And(b, LowerMask(k)) == Low(b, k) < Pow(2, k)
  {
    hide Pow, ToBits, Num, LowerMask, AndRow, Shl, Shr, Low;
    ShiftsSplit(b, k);
    BitsSplit(b, 8 - k, k);
    MaskBits(k);
    ZeroBits(8 - k);
    BitsAppend(0, 8 - k, Low(b, k), k);
    ShlZero(k, Low(b, k));
    AndRowLow(ToBits(b, 8), k);
    PowMonotone(2, k, 8);
    NumOfBits(Low(b, k), 8);
  }

  /** A byte completes the index and starts the next one. */
  lemma PackSplit(complete: seq<nat>, last: nat, remaining: nat, bits: seq<bool>, b: byte)
    requires Packed(complete, last, remaining, bits) && remaining <= 8
    ensures Packed(complete + [Shl(last, remaining) + Shr(b, 8 - remaining)],
                   And(b, LowerMask(8 - remaining)), remaining + 3, bits + ToBits(b, 8))
  {
    hide Pow, ToBits, Concat, And, LowerMask, Shl, Shr, Low;
    var n := 8 - remaining;
    var word := Shl(last, remaining) + Shr(b, n);
    ByteFits(b);
    AndLowerMask(b, n);
    ShrFits(b, remaining, n);
    AppendFits(last, 11 - remaining, Shr(b, n), remaining);
    BitsAppend(last, 11 - remaining, Shr(b, n), remaining);
    ConcatStep(complete, word, 11);
    BitsSplit(b, remaining, n);
    assert ToBits(b, 8) == ToBits(b, 8)[..remaining] + ToBits(b, 8)[remaining..];
  }

  /** Whatever the number of words, the bits still lacking are those of the checksum. */
  lemma LackingBits(n: nat, words: nat, remaining: nat)
    requires EntropySizeOk(n) && 1 <= remaining <= 11 && 8 * n == 11 * words + 11 - remaining
    ensures remaining == n / 4 && words + 1 == n / 4 * 3
  {
  }

  /** The upper bits of the hash byte, as they are shifted into the last index. */
  function Checksum(h: byte, n: nat): nat
    requires n <= 8
  {
    Shr(And(h, UpperMask(n)), 8 - n)
  }

  lemma ChecksumUpper(h: byte, n: nat)
    requires n <= 8
    ensures Checksum(h, n) < Pow(2, n) && ToBits(Checksum(h, n), n) == Upper(h, n)
  {
    hide Pow, ToBits, And, UpperMask, Upper, Shr;
    AndUpperMask(h, n);
    ByteFits(And(h, UpperMask(n)));
    ShrFits(And(h, UpperMask(n)), n, 8 - n);
    BitsSplit(And(h, UpperMask(n)), n, 8 - n);
  }

  /** The checksum completes the last index. */
  lemma PackChecksum(hash: Hash, entropy: seq<byte>, complete: seq<nat>, last: nat, remaining: nat)
    requires EntropySizeOk(|entropy|) && Packed(complete, last, remaining, Concat(Values(entropy), 8))
    ensures complete + [Shl(last, |entropy| / 4) + Checksum(hash(entropy), |entropy| / 4)] == Phrase(hash, entropy)
  {
    hide Pow, ToBits, Concat, Checksum, Chunks, Upper, Shl;
    var n := |entropy| / 4;
    ConcatLength(Values(entropy), 8);
    ConcatLength(complete, 11);
    LackingBits(|entropy|, |complete|, remaining);
    ChecksumUpper(hash(entropy), n);
    var low := Checksum(hash(entropy), n);
    var word := Shl(last, n) + low;
    AppendFits(last, 11 - n, low, n);
    BitsAppend(last, 11 - n, low, n);
    ConcatStep(complete, word, 11);
    assert Concat(complete + [word], 11) == Payload(hash, entropy);
    ChunksOfConcat(complete + [word], 11);
  }

  /** `entropyToMnemonic` up to the word list. */
  method EntropyToIndices(hash: Hash, entropy: seq<byte>) returns (r: Result<seq<nat>>)
    ensures r == if EntropySizeOk(|entropy|) then Ok(Phrase(hash, entropy)) else Err
  {
    hide Packed, Concat, ToBits, And, LowerMask, UpperMask, Phrase, Shl, Shr, Checksum;
    if !(|entropy| % 4 == 0 && |entropy| >= 16 && |entropy| <= 32) {
      return Err;
    }
    var indices: seq<nat> := [0];
    var remainingBits := 11;
    NothingPacked();
    assert entropy[..0] == [] && indices[..0] == [];
    for i := 0 to |entropy|
      invariant |indices| >= 1 && 1 <= remainingBits <= 11
      invariant Packed(indices[..|indices| - 1], indices[|indices| - 1], remainingBits, Concat(Values(entropy[..i]), 8))
    {
      NextByte(entropy, i);
      indices, remainingBits := PackByte(indices, remainingBits, entropy[i], Concat(Values(entropy[..i]), 8));
    }
    assert entropy[..|entropy|] == entropy;
    var checksumBits := |entropy| / 4;
    PackChecksum(hash, entropy, indices[..|indices| - 1], indices[|indices| - 1], remainingBits);
    r := Ok(indices[..|indices| - 1] +
            [Shl(indices[|indices| - 1], checksumBits) + Checksum(hash(entropy), checksumBits)]);
  }

  /** The body of the packing loop. */
  method PackByte(indices: seq<nat>, remainingBits: nat, b: byte, ghost bits: seq<bool>)
    returns (indices': seq<nat>, remainingBits': nat)
    requires |indices| >= 1
    requires Packed(indices[..|indices| - 1], indices[|indices| - 1], remainingBits, bits)
    ensures |indices'| >= 1 && 1 <= remainingBits' <= 11
    ensures Packed(indices'[..|indices'| - 1], indices'[|indices'| - 1], remainingBits', bits + ToBits(b, 8))
  {
    assert 1 <= remainingBits <= 11;
    hide Packed, Concat, ToBits, And, LowerMask, Shl, Shr;
    var complete, last := indices[..|indices| - 1], indices[|indices| - 1];
    if remainingBits > 8 {
      PackWhole(complete, last, remainingBits, bits, b);
      indices' := complete + [Shl(last, 8) + b];
      assert indices'[..|indices'| - 1] == complete;
      remainingBits' := remainingBits - 8;
    } else {
      PackSplit(complete, last, remainingBits, bits, b);
      var word := Shl(last, remainingBits) + Shr(b, 8 - remainingBits);
      indices' := complete + [word] + [And(b, LowerMask(8 - remainingBits))];
      assert indices'[..|indices'| - 1] == complete + [word];
      remainingBits' := remainingBits + 3;
    }
  }

  lemma NextByte(entropy: seq<byte>, i: nat)
    requires i < |entropy|
    ensures Concat(Values(entropy[..i + 1]), 8) == Concat(Values(entropy[..i]), 8) + ToBits(entropy[i], 8)
  {
    hide Concat, ToBits;
    assert Values(entropy[..i + 1]) == Values(entropy[..i]) + [entropy[i]];
    ConcatStep(Values(entropy[..i]), entropy[i], 8);
  }

  // ---------- phrase to entropy ----------

  /** Or-ing `1 << (7 - k)` into a byte sets its bit k, counted from the most significant. */
  function SetBit(b: byte, k: nat): (r: byte)
    requires k < 8
  {
    var bits := ToBits(b, 8)[k := true];
    NumBound(bits);
    PowerOfTwo(8);
    Num(bits)
  }

  lemma {:induction false} UpdateBits(vs: seq<nat>, k: nat, v: nat, w: nat, at: nat)
    requires w > 0 && k < |vs| && at < w && ToBits(v, w) == ToBits(vs[k], w)[at := true]
    ensures |Concat(vs, w)| == |vs| * w && k * w + at < |vs| * w
    ensures Concat(vs[k := v], w) == Concat(vs, w)[k * w + at := true]
  {
    hide Concat, ToBits;
    var before, after := vs[..k], vs[k + 1..];
    ConcatLength(vs, w);
    ConcatLength(before, w);
    BelowProduct(k, at, w, |vs|);
    SplitAround(vs, k, w);
    SplitAround(vs[k := v], k, w);
    assert vs[k := v][..k] == before && vs[k := v][k + 1..] == after;
  }

  lemma SplitAround(vs: seq<nat>, k: nat, w: nat)
    requires w > 0 && k < |vs|
    ensures Concat(vs, w) == Concat(vs[..k], w) + ToBits(vs[k], w) + Concat(vs[k + 1..], w)
  {
    hide Concat, ToBits;
    assert vs == (vs[..k] + [vs[k]]) + vs[k + 1..];
    ConcatAppend(vs[..k] + [vs[k]], vs[k + 1..], w);
    ConcatStep(vs[..k], vs[k], w);
  }

  /** Testing `index & (1 << (10 - bit))`. */
  lemma TestBit(index: nat, bit: nat)
    requires bit < 11
    ensures (Shr(index, 10 - bit) % 2 == 1) == ToBits(index, 11)[bit]
  {
    hide Shr, Low;
    BitsSplit(index, bit + 1, 10 - bit);
    var v := Shr(index, 10 - bit);
    assert ToBits(index, 11)[bit] == ToBits(index, 11)[..bit + 1][bit];
    assert ToBits(v, bit + 1)[bit] == (v % 2 == 1);
  }

  /** The array holds the bits read so far, then zeros. */
  ghost predicate Holds(bs: seq<byte>, bits: seq<bool>) {
    |bits| <= 8 * |bs| && Concat(Values(bs), 8) == bits + Row(8 * |bs| - |bits|, false)
  }

  lemma HoldsNothing(bs: seq<byte>)
    requires forall k :: 0 <= k < |bs| ==> bs[k] == 0
    ensures Holds(bs, [])
  {
    ZeroBytes(Values(bs));
  }

  lemma {:induction false} ZeroBytes(vs: seq<nat>)
    requires forall k :: 0 <= k < |vs| ==> vs[k] == 0
    ensures Concat(vs, 8) == Row(8 * |vs|, false)
  {
    if vs != [] {
      ZeroBytes(vs[..|vs| - 1]);
      ZeroBits(8);
    }
  }

  lemma HoldsClear(bs: seq<byte>, bits: seq<bool>)
    requires Holds(bs, bits) && |bits| < 8 * |bs|
    ensures Holds(bs, bits + [false])
  {
    hide Concat;
    assert bits + Row(8 * |bs| - |bits|, false) == bits + [false] + Row(8 * |bs| - |bits| - 1, false);
  }

  lemma SetBitBits(b: byte, k: nat)
    requires k < 8
    ensures ToBits(SetBit(b, k), 8) == ToBits(b, 8)[k := true]
  {
    BitsOfNum(ToBits(b, 8)[k := true]);
  }

  lemma HoldsSet(bs: seq<byte>, bits: seq<bool>)
    requires Holds(bs, bits) && |bits| < 8 * |bs|
    ensures Holds(bs[|bits| / 8 := SetBit(bs[|bits| / 8], |bits| % 8)], bits + [true])
  {
    hide Concat, ToBits, SetBit;
    var k, at := |bits| / 8, |bits| % 8;
    SetBitBits(bs[k], at);
    var bs' := bs[k := SetBit(bs[k], at)];
    UpdateBits(Values(bs), k, bs'[k], 8, at);
    assert Values(bs') == Values(bs)[k := bs'[k]];
    assert (bits + Row(8 * |bs| - |bits|, false))[|bits| := true] == bits + [true] + Row(8 * |bs| - |bits| - 1, false);
  }

  /** The inner loop: the eleven bits of one index into the array. */
  method UnpackIndex(index: nat, entropy: array<byte>, start: nat, ghost bits: seq<bool>) returns (offset: nat)
    requires Holds(entropy[..], bits) && start == |bits| && start + 11 <= 8 * entropy.Length
    modifies entropy
    ensures offset == start + 11 && Holds(entropy[..], bits + ToBits(index, 11))
  {
    hide Holds, ToBits, SetBit, Shr;
    offset := start;
    assert bits + ToBits(index, 11)[..0] == bits;
    for bit := 0 to 11
      invariant offset == start + bit
      invariant Holds(entropy[..], bits + ToBits(index, 11)[..bit])
    {
      ghost var soFar := bits + ToBits(index, 11)[..bit];
      TestBit(index, bit);
      assert soFar + [ToBits(index, 11)[bit]] == bits + ToBits(index, 11)[..bit + 1];
      if Shr(index, 10 - bit) % 2 == 1 {
        HoldsSet(entropy[..], soFar);
        ghost var before := entropy[..];
        entropy[offset / 8] := SetBit(entropy[offset / 8], offset % 8);
        assert entropy[..] == before[offset / 8 := SetBit(before[offset / 8], offset % 8)];
      } else {
        HoldsClear(entropy[..], soFar);
      }
      offset := offset + 1;
    }
    assert ToBits(index, 11)[..11] == ToBits(index, 11);
  }

  lemma UnpackSizes(n: nat)
    requires PhraseSizeOk(n)
    ensures (11 * n + 7) / 8 == n / 3 * 4 + 1 && 11 * n == n / 3 * 4 * 8 + n / 3 && n / 3 <= 8
    ensures EntropySizeOk(n / 3 * 4) && n / 3 * 4 / 4 * 3 == n
  {
  }

  /** The filled array splits into the entropy and the byte with the checksum bits. */
  lemma UnpackedSplit(bs: seq<byte>, words: seq<nat>)
    requires PhraseSizeOk(|words|) && |bs| == |words| / 3 * 4 + 1 && Holds(bs, Concat(words, 11))
    ensures var n := |words| / 3;
            Concat(Values(bs[..4 * n]), 8) + Upper(bs[4 * n], n) == Concat(words, 11)
  {
    hide Concat, ToBits, Upper;
    var n := |words| / 3;
    UnpackSizes(|words|);
    ConcatLength(words, 11);
    var e, last := bs[..4 * n], bs[4 * n];
    assert Values(bs) == Values(e) + [last];
    ConcatStep(Values(e), last, 8);
    ConcatLength(Values(e), 8);
    UpperIsPrefix(last, n);
    var all := Concat(Values(e), 8) + ToBits(last, 8);
    assert all[..11 * |words|] == Concat(words, 11);
    assert all[..11 * |words|] == Concat(Values(e), 8) + ToBits(last, 8)[..n];
  }

  lemma UpperIsPrefix(h: byte, n: nat)
    requires n <= 8
    ensures Upper(h, n) == ToBits(h, 8)[..n]
  {
  }

  /** The comparison of the masked checksums decides. */
  lemma ChecksumDecides(hash: Hash, words: seq<nat>, e: seq<byte>, last: byte)
    requires PhraseSizeOk(|words|) && |e| == |words| / 3 * 4 && Fit(words, 11)
    requires Concat(Values(e), 8) + Upper(last, |words| / 3) == Concat(words, 11)
    ensures Upper(hash(e), |words| / 3) == Upper(last, |words| / 3) ==> IsEntropyOf(hash, words, e)
    ensures Upper(hash(e), |words| / 3) != Upper(last, |words| / 3) ==> forall other :: !IsEntropyOf(hash, words, other)
  {
    hide Concat, ToBits, Upper, Phrase, IsEntropyOf;
    if Upper(hash(e), |words| / 3) == Upper(last, |words| / 3) {
      ChecksumAccepts(hash, words, e, last);
    }
    forall other | IsEntropyOf(hash, words, other)
      ensures Upper(hash(e), |words| / 3) == Upper(last, |words| / 3)
    {
      SameEntropy(hash, words, e, last, other);
    }
  }

  lemma ChecksumAccepts(hash: Hash, words: seq<nat>, e: seq<byte>, last: byte)
    requires PhraseSizeOk(|words|) && |e| == |words| / 3 * 4 && Fit(words, 11)
    requires Concat(Values(e), 8) + Upper(last, |words| / 3) == Concat(words, 11)
    requires Upper(hash(e), |words| / 3) == Upper(last, |words| / 3)
    ensures IsEntropyOf(hash, words, e)
  {
    hide Concat, Chunks, Upper;
    UnpackSizes(|words|);
    ChunksOfConcat(words, 11);
    assert |e| / 4 == |words| / 3;
    assert Payload(hash, e) == Concat(words, 11);
  }

  lemma SameEntropy(hash: Hash, words: seq<nat>, e: seq<byte>, last: byte, other: seq<byte>)
    requires PhraseSizeOk(|words|) && |e| == |words| / 3 * 4
    requires Concat(Values(e), 8) + Upper(last, |words| / 3) == Concat(words, 11)
    requires IsEntropyOf(hash, words, other)
    ensures e == other && Upper(hash(e), |words| / 3) == Upper(last, |words| / 3)
  {
    hide Concat, Chunks, ToBits, Upper, Phrase;
    PhraseIsComplete(hash, other);
    ConcatLength(Values(e), 8);
    ConcatLength(Values(other), 8);
    assert Concat(words, 11)[..8 * |e|] == Concat(Values(e), 8);
    assert Concat(words, 11)[..8 * |e|] == Concat(Values(other), 8);
    assert Concat(words, 11)[8 * |e|..] == Upper(last, |words| / 3);
    assert Concat(words, 11)[8 * |e|..] == Upper(hash(other), |words| / 3);
    BytesFit(e);
    BytesFit(other);
    ChunksOfConcat(Values(e), 8);
    ChunksOfConcat(Values(other), 8);
    assert forall i :: 0 <= i < |e| ==> e[i] == Values(e)[i];
    assert forall i :: 0 <= i < |other| ==> other[i] == Values(other)[i];
  }

  /** `mnemonicToEntropy` after splitting: it finds the entropy of the phrase exactly when there is one. */
  method IndicesToEntropy(hash: Hash, words: seq<int>) returns (r: Result<seq<byte>>)
    requires forall i :: 0 <= i < |words| ==> words[i] < 2048
    ensures match r
            case Ok(e) => IsEntropyOf(hash, words, e)
            case Err => forall e :: !IsEntropyOf(hash, words, e)
  {
    hide Holds, Concat, ToBits, Upper, And, UpperMask, Phrase;
    if !(|words| % 3 == 0 && |words| >= 12 && |words| <= 24) {
      PhraseSizes(hash, words);
      return Err;
    }
    UnpackSizes(|words|);
    var entropy := new byte[(11 * |words| + 7) / 8](_ => 0);
    var offset := 0;
    ghost var indices: seq<nat> := [];
    HoldsNothing(entropy[..]);
    NoIndices();
    for i := 0 to |words|
      invariant |indices| == i && offset == 11 * i && indices == words[..i] && Fit(indices, 11)
      invariant Holds(entropy[..], Concat(indices, 11))
    {
      if words[i] < 0 {
        return Err;
      }
      ConcatLength(indices, 11);
      ConcatStep(indices, words[i], 11);
      IndexFits(indices, words[i]);
      offset := UnpackIndex(words[i], entropy, offset, Concat(indices, 11));
      indices := indices + [words[i]];
    }
    assert words[..|words|] == words;
    var checksumBits := |words| / 3;
    var e, last := entropy[..4 * checksumBits], entropy[entropy.Length - 1];
    assert e == entropy[..][..4 * checksumBits];
    UnpackedSplit(entropy[..], indices);
    ChecksumDecides(hash, indices, e, last);
    MaskedEqualIff(hash(e), last, checksumBits);
    if And(hash(e), UpperMask(checksumBits)) != And(last, UpperMask(checksumBits)) {
      return Err;
    }
    return Ok(e);
  }

  lemma PhraseSizes(hash: Hash, words: seq<int>)
    ensures !PhraseSizeOk(|words|) ==> forall e :: !IsEntropyOf(hash, words, e)
  {
    hide Phrase;
    forall e | IsEntropyOf(hash, words, e)
      ensures PhraseSizeOk(|words|)
    {
      Sizes(|e|);
    }
  }

  lemma NoIndices()
    ensures Concat([], 11) == []
  {
  }

  lemma IndexFits(indices: seq<nat>, index: nat)
    requires Fit(indices, 11) && index < 2048
    ensures Fit(indices + [index], 11)
  {
    PowAdd(2, 8, 3);
    PowerOfTwo(8);
    PowerOfTwo(3);
  }
}
