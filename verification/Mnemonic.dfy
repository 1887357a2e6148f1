/**
 * Mnemonic phrases: packing entropy and checksum into 11-bit word indices byte by byte, and
 * unpacking a phrase bit by bit. The hash that supplies the checksum is a parameter.
 */
module Mnemonic {
  import opened Wrappers
  import opened Bytes
  import opened Sequences
  import opened Bits

  type Hash = seq<byte> -> byte

  predicate EntropySizeOk(n: nat) {
    n % 4 == 0 && 16 <= n <= 32
  }

  predicate PhraseSizeOk(n: nat) {
    n % 3 == 0 && 12 <= n <= 24
  }

  // ---------- masks ----------

  /** `1 << bits`, a power of two written out. */
  function Shift1(bits: nat): nat
    requires bits <= 8
  {
    match bits
    case 0 => 1 case 1 => 2 case 2 => 4 case 3 => 8 case 4 => 16
    case 5 => 32 case 6 => 64 case 7 => 128 case 8 => 256
  }

  function UpperMask(bits: nat): byte
    requires bits <= 8
  {
    (Shift1(bits) - 1) * Shift1(8 - bits) % 256
  }

  function LowerMask(bits: nat): byte
    requires bits <= 8
  {
    (Shift1(bits) - 1) % 256
  }

  function AndRow(a: seq<bool>, b: seq<bool>): (r: seq<bool>)
    requires |a| == |b|
    ensures |r| == |a|
  {
    seq(|a|, i requires 0 <= i < |a| => a[i] && b[i])
  }

  function And(a: byte, b: byte): nat {
    Num(AndRow(ToBits(a, 8), ToBits(b, 8)))
  }

  function Row(n: nat, bit: bool): (r: seq<bool>)
    ensures |r| == n && forall i :: 0 <= i < n ==> r[i] == bit
  {
    seq(n, _ => bit)
  }

  function Upper(h: byte, n: nat): (r: seq<bool>)
    requires n <= 8
    ensures |r| == n
  {
    ToBits(h, 8)[..n]
  }

  lemma {:induction false} ZeroBits(n: nat)
    ensures ToBits(0, n) == Row(n, false)
  {
    if n > 0 {
      ZeroBits(n - 1);
    }
  }

  lemma {:induction false} OneBits(n: nat)
    ensures Pow(2, n) > 0 && ToBits(Pow(2, n) - 1, n) == Row(n, true)
  {
    if n > 0 {
      OneBits(n - 1);
      assert (Pow(2, n) - 1) / 2 == Pow(2, n - 1) - 1 && (Pow(2, n) - 1) % 2 == 1;
    }
  }

  lemma MaskValues(n: nat)
    requires n <= 8
    ensures UpperMask(n) == (Shift1(n) - 1) * Shift1(8 - n) && LowerMask(n) == Shift1(n) - 1
  {
  }

  lemma MaskBits(n: nat)
    requires n <= 8
    ensures ToBits(UpperMask(n), 8) == Row(n, true) + Row(8 - n, false)
    ensures ToBits(LowerMask(n), 8) == Row(8 - n, false) + Row(n, true)
  {
    hide ToBits, Pow, LowerMask, UpperMask, Shift1;
    MaskValues(n);
    PowerOfTwo(n);
    PowerOfTwo(8 - n);
    OneBits(n);
    ZeroBits(8 - n);
    PowPositive(2, 8 - n);
    BitsAppend(Pow(2, n) - 1, n, 0, 8 - n);
    BitsAppend(0, 8 - n, Pow(2, n) - 1, n);
  }

  /** And-ing with the upper mask keeps the first bits and clears the others. */
  lemma AndUpperMask(h: byte, n: nat)
    requires n <= 8
    ensures ToBits(And(h, UpperMask(n)), 8) == Upper(h, n) + Row(8 - n, false)
    ensures And(h, UpperMask(n)) < 256
  {
    MaskBits(n);
    var row := AndRow(ToBits(h, 8), ToBits(UpperMask(n), 8));
    assert row == Upper(h, n) + Row(8 - n, false);
    BitsOfNum(row);
    NumBound(row);
    PowerOfTwo(8);
  }

  lemma PowerOfTwo(n: nat)
    requires n <= 8
    ensures Pow(2, n) == Shift1(n)
  {
    if n > 0 {
      PowerOfTwo(n - 1);
    }
  }

  /** Masked bytes agree exactly when the upper bits do. */
  lemma MaskedEqualIff(a: byte, b: byte, n: nat)
    requires n <= 8
    ensures And(a, UpperMask(n)) == And(b, UpperMask(n)) <==> Upper(a, n) == Upper(b, n)
  {
    hide And, Upper, UpperMask;
    AndUpperMask(a, n);
    AndUpperMask(b, n);
    PowerOfTwo(8);
    NumOfBits(And(a, UpperMask(n)), 8);
    NumOfBits(And(b, UpperMask(n)), 8);
    assert (Upper(a, n) + Row(8 - n, false))[..n] == Upper(a, n);
    assert (Upper(b, n) + Row(8 - n, false))[..n] == Upper(b, n);
  }

  // ---------- what the two directions compute ----------

  function Values(bs: seq<byte>): (vs: seq<nat>)
    ensures |vs| == |bs| && forall i :: 0 <= i < |vs| ==> vs[i] == bs[i]
  {
    seq(|bs|, i requires 0 <= i < |bs| => bs[i])
  }

  /** Entropy bits followed by one checksum bit for every four bytes. */
  function Payload(hash: Hash, entropy: seq<byte>): seq<bool>
    requires |entropy| <= 32
  {
    Concat(Values(entropy), 8) + Upper(hash(entropy), |entropy| / 4)
  }

  /** The indices of the words of the phrase. */
  function Phrase(hash: Hash, entropy: seq<byte>): seq<nat>
    requires |entropy| <= 32
  {
    Chunks(Payload(hash, entropy), 11)
  }

  /** The entropy of a phrase; an unknown word has a negative index. */
  ghost predicate IsEntropyOf(hash: Hash, words: seq<int>, entropy: seq<byte>) {
    && EntropySizeOk(|entropy|) && |words| == |entropy| / 4 * 3
    && (forall i :: 0 <= i < |words| ==> words[i] >= 0)
    && Phrase(hash, entropy) == words
  }

  lemma Sizes(n: nat)
    requires EntropySizeOk(n)
    ensures n * 8 + n / 4 == n / 4 * 3 * 11 && PhraseSizeOk(n / 4 * 3)
  {
  }

  /** Every entropy of an allowed size has a phrase, of three words for every four bytes. */
  lemma PhraseIsComplete(hash: Hash, entropy: seq<byte>)
    requires EntropySizeOk(|entropy|)
    ensures |Phrase(hash, entropy)| == |entropy| / 4 * 3 && Fit(Phrase(hash, entropy), 11)
    ensures Concat(Phrase(hash, entropy), 11) == Payload(hash, entropy)
  {
    hide Concat, Chunks, ToBits;
    Sizes(|entropy|);
    ConcatLength(Values(entropy), 8);
    ConcatOfChunks(Payload(hash, entropy), 11, |entropy| / 4 * 3);
  }

  lemma BytesFit(bs: seq<byte>)
    ensures Fit(Values(bs), 8)
  {
    PowerOfTwo(8);
  }

  /** One phrase for every entropy, and one entropy for every phrase. */
  lemma PhraseIsInjective(hash: Hash, a: seq<byte>, b: seq<byte>)
    requires EntropySizeOk(|a|) && EntropySizeOk(|b|) && Phrase(hash, a) == Phrase(hash, b)
    ensures a == b
  {
    hide Concat, Chunks, ToBits, Phrase, Upper;
    PhraseIsComplete(hash, a);
    PhraseIsComplete(hash, b);
    BytesFit(a);
    BytesFit(b);
    ConcatLength(Values(a), 8);
    ConcatLength(Values(b), 8);
    assert Payload(hash, a)[..|a| * 8] == Concat(Values(a), 8);
    assert Payload(hash, b)[..|b| * 8] == Concat(Values(b), 8);
    ChunksOfConcat(Values(a), 8);
    ChunksOfConcat(Values(b), 8);
    assert forall i :: 0 <= i < |a| ==> a[i] == Values(a)[i];
    assert forall i :: 0 <= i < |b| ==> b[i] == Values(b)[i];
  }

  // ---------- words ----------

  /** `getWordIndex` for every word: its position in the list, or -1. */
  function Indices(list: seq<string>, words: seq<string>): (r: seq<int>)
    ensures |r| == |words| && forall i :: 0 <= i < |r| ==> r[i] == IndexOf(list, words[i])
  {
    seq(|words|, i requires 0 <= i < |words| => IndexOf(list, words[i]))
  }

  function WordsOf(list: seq<string>, indices: seq<nat>): (r: seq<string>)
    requires forall i :: 0 <= i < |indices| ==> indices[i] < |list|
    ensures |r| == |indices| && forall i :: 0 <= i < |r| ==> r[i] == list[indices[i]]
  {
    seq(|indices|, i requires 0 <= i < |indices| => list[indices[i]])
  }

  ghost predicate IsWordlist(list: seq<string>) {
    |list| == 2048 && forall i, j :: 0 <= i < j < |list| ==> list[i] != list[j]
  }

  lemma FitsTheList(indices: seq<nat>)
    requires Fit(indices, 11)
    ensures forall i :: 0 <= i < |indices| ==> indices[i] < 2048
  {
    PowAdd(2, 8, 3);
    PowerOfTwo(8);
    PowerOfTwo(3);
  }

  /** Over any list of 2048 different words, every entropy has exactly one phrase, which belongs to it alone. */
  lemma EveryEntropyHasOnePhrase(list: seq<string>, hash: Hash, entropy: seq<byte>, words: seq<string>, other: seq<byte>)
    requires IsWordlist(list) && EntropySizeOk(|entropy|)
    ensures forall i :: 0 <= i < |Phrase(hash, entropy)| ==> Phrase(hash, entropy)[i] < |list|
    ensures IsEntropyOf(hash, Indices(list, words), entropy) <==> words == WordsOf(list, Phrase(hash, entropy))
    ensures words == WordsOf(list, Phrase(hash, entropy)) && IsEntropyOf(hash, Indices(list, words), other) ==> other == entropy
  {
    hide Phrase, IndexOf;
    var indices := Phrase(hash, entropy);
    PhraseIsComplete(hash, entropy);
    FitsTheList(indices);
    if words == WordsOf(list, indices) {
      WordsRoundTrip(list, indices);
      assert Indices(list, words) == indices;
    }
    if IsEntropyOf(hash, Indices(list, words), entropy) {
      assert forall i :: 0 <= i < |words| ==> list[Indices(list, words)[i]] == words[i];
    }
    if words == WordsOf(list, indices) && IsEntropyOf(hash, Indices(list, words), other) {
      PhraseIsInjective(hash, entropy, other);
    }
  }

  lemma WordsRoundTrip(list: seq<string>, indices: seq<nat>)
    requires IsWordlist(list) && forall i :: 0 <= i < |indices| ==> indices[i] < |list|
    ensures Indices(list, WordsOf(list, indices)) == indices
  {
    hide IndexOf;
    var words := WordsOf(list, indices);
    forall i | 0 <= i < |indices|
      ensures IndexOf(list, words[i]) == indices[i]
    {
      assert words[i] == list[indices[i]] && words[i] in list;
    }
  }
}
