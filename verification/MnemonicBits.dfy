/** Which bit of the entropy or of its checksum each bit of a phrase's words is. */
module MnemonicBits {
  import opened Bytes
  import opened Arithmetic
  import opened Bits
  import opened Mnemonic

  /** The bit of a number below 2^w at position i, counted from the highest. */
  function BitAt(v: nat, w: nat, i: nat): bool
    requires i < w
  {
    Shr(v, w - 1 - i) % 2 == 1
  }

  lemma ToBitsAt(v: nat, w: nat, i: nat)
    requires i < w
    ensures ToBits(v, w)[i] == BitAt(v, w, i)
  {
    hide Shr, Low;
    BitsSplit(v, i + 1, w - 1 - i);
    var u := Shr(v, w - 1 - i);
    assert ToBits(v, w)[i] == ToBits(v, w)[..i + 1][i];
    assert ToBits(u, i + 1)[i] == (u % 2 == 1);
  }

  /** Bit k of numbers in a row belongs to the number k / w. */
  lemma {:induction false} ConcatAt(vs: seq<nat>, w: nat, k: nat)
    requires w > 0 && k < |vs| * w
    ensures |Concat(vs, w)| == |vs| * w && k / w < |vs|
    ensures Concat(vs, w)[k] == ToBits(vs[k / w], w)[k % w]
    decreases |vs|
  {
    hide ToBits;
    ConcatLength(vs, w);
    if vs != [] {
      var n := |vs| - 1;
      OneRowLess(|vs|, w);
      ConcatLength(vs[..n], w);
      if k < n * w {
        ConcatAt(vs[..n], w, k);
      } else {
        QuotientRemainder(k, n, w, k - n * w);
      }
    }
  }

  lemma WordBits(n: nat)
    requires EntropySizeOk(n)
    ensures n / 4 * 3 * 11 == 8 * n + n / 4 && n / 4 <= 8
  {
  }

  /**
   * The words of a phrase, eleven bits each, hold the bits of the entropy, the highest of the first byte
   * first, and behind them the first bits of the hash of the entropy.
   */
  lemma PhraseBits(hash: Hash, entropy: seq<byte>, k: nat)
    requires EntropySizeOk(|entropy|) && k < 8 * |entropy| + |entropy| / 4
    ensures k / 11 < |Phrase(hash, entropy)|
    ensures BitAt(Phrase(hash, entropy)[k / 11], 11, k % 11) ==
            if k < 8 * |entropy| then BitAt(entropy[k / 8], 8, k % 8)
            else BitAt(hash(entropy), 8, k - 8 * |entropy|)
  {
    hide Phrase, Concat, ToBits, BitAt;
    var words := Phrase(hash, entropy);
    WordBits(|entropy|);
    PhraseIsComplete(hash, entropy);
    ConcatAt(words, 11, k);
    ToBitsAt(words[k / 11], 11, k % 11);
    PayloadAt(hash, entropy, k);
  }

  lemma PayloadAt(hash: Hash, entropy: seq<byte>, k: nat)
    requires EntropySizeOk(|entropy|) && k < 8 * |entropy| + |entropy| / 4
    ensures |Payload(hash, entropy)| == 8 * |entropy| + |entropy| / 4
    ensures Payload(hash, entropy)[k] ==
            if k < 8 * |entropy| then BitAt(entropy[k / 8], 8, k % 8)
            else BitAt(hash(entropy), 8, k - 8 * |entropy|)
  {
    hide Concat, ToBits, BitAt;
    var values := Values(entropy);
    ConcatLength(values, 8);
    if k < 8 * |entropy| {
      ConcatAt(values, 8, k);
      ToBitsAt(values[k / 8], 8, k % 8);
    } else {
      var j := k - 8 * |entropy|;
      ToBitsAt(hash(entropy), 8, j);
      assert ToBits(hash(entropy), 8)[..|entropy| / 4][j] == ToBits(hash(entropy), 8)[j];
    }
  }

  // ---------- a known phrase ----------

  lemma {:induction false} ZeroConcat(n: nat, w: nat)
    requires w > 0
    ensures Concat(seq(n, _ => 0), w) == Row(n * w, false)
  {
    var zeros: seq<nat> := seq(n, _ => 0);
    if n > 0 {
      assert zeros[..n - 1] == seq(n - 1, _ => 0);
      ZeroConcat(n - 1, w);
      ZeroBits(w);
      OneRowLess(n, w);
      assert Row((n - 1) * w, false) + Row(w, false) == Row(n * w, false);
    }
  }

  lemma Three()
    ensures ToBits(3, 11) == Row(9, false) + Row(2, true)
    ensures forall h: byte :: h / 16 == 3 ==> Upper(h, 4) == Row(2, false) + Row(2, true)
  {
    ZeroBits(9);
    assert ToBits(3, 11) == ToBits(1, 10) + [true] && ToBits(1, 10) == ToBits(0, 9) + [true];
    forall h: byte | h / 16 == 3
      ensures Upper(h, 4) == Row(2, false) + Row(2, true)
    {
      FourOfEight(h);
      ZeroBits(2);
      assert ToBits(3, 4) == ToBits(1, 3) + [true] && ToBits(1, 3) == ToBits(0, 2) + [true];
    }
  }

  lemma FourOfEight(h: byte)
    ensures ToBits(h, 8)[..4] == ToBits(h / 16, 4)
  {
    assert Pow(2, 4) == 16;
    BitsSplit(h, 4, 4);
  }

  /**
   * Sixteen zero bytes, whose SHA-256 begins with the byte 0x37, have eleven times the first word and
   * then the fourth: the first test vector of BIP-39.
   */
  lemma ZeroPhrase(hash: Hash)
    requires hash(Zeros(16)) == 0x37
    ensures Phrase(hash, Zeros(16)) == [0, 0, 0, 0, 0, 0, 0, 0, 0, 0, 0, 3]
  {
    hide Concat, Chunks, ToBits, Upper, Num;
    var zeros: seq<nat> := seq(11, _ => 0);
    assert Values(Zeros(16)) == seq(16, _ => 0);
    ZeroConcat(16, 8);
    ZeroConcat(11, 11);
    Three();
    ConcatStep(zeros, 3, 11);
    assert Row(121, false) + (Row(9, false) + Row(2, true)) == Row(128, false) + (Row(2, false) + Row(2, true));
    FitsEleven(zeros + [3]);
    ChunksOfConcat(zeros + [3], 11);
    assert zeros + [3] == [0, 0, 0, 0, 0, 0, 0, 0, 0, 0, 0, 3];
  }

  lemma FitsEleven(vs: seq<nat>)
    requires forall i :: 0 <= i < |vs| ==> vs[i] <= 3
    ensures Fit(vs, 11)
  {
    assert Pow(2, 11) == 2048;
  }
}
