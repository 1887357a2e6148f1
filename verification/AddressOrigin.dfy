/** Which bytes an address is made of. */
module AddressOrigin {
  import opened Wrappers
  import opened Bytes
  import opened Hex
  import opened Decimal
  import opened Rlp
  import opened Address

  /** The twenty bytes behind the prefix and the check digits. */
  function Body(address: string): Option<seq<byte>> {
    if |address| == 46 then Unhex(address[6..]) else None
  }

  /** `tail` is what is left of the 32 bytes of a hash without the first twelve. */
  predicate IsHashTail(tail: seq<byte>, digest: seq<byte>) {
    |tail| == 20 && |digest| == 32 && forall i :: 0 <= i < 20 ==> tail[i] == digest[12 + i]
  }

  lemma HashTailBytes(hash: Hash, data: seq<byte>)
    ensures Unhex(HashTail(hash, data)).Some? && IsHashTail(Unhex(HashTail(hash, data)).value, hash(data))
  {
    hide Hexlify, Unhex;
    UnhexHexlify(hash(data)[12..]);
  }

  lemma BodyOf(prefix: string, check: string, body: string)
    requires |prefix| == 2 && |check| == 2 && |body| == 40
    ensures var a := "0x" + prefix + check + body; Body(a) == Unhex(body) && a[..2] == "0x" && a[2..4] == prefix
  {
    hide Unhex;
    var a := "0x" + prefix + check + body;
    assert a[6..] == body;
  }

  lemma PublicAddressForm(hash: Hash, key: seq<byte>, prefix: string) returns (check: string)
    requires |prefix| == 2 && AllHex(prefix)
    ensures |check| == 2 && PublicToAddress(hash, key, prefix) == Ok("0x" + prefix + check + HashTail(hash, key))
  {
    hide CalculateCheckSum, HashTail, AllHex, TwoDigits;
    var body := HashTail(hash, key);
    CheckSumOfPrefixed(body, prefix);
    CheckSumRange(body, prefix);
    WithPrefix(body);
    check := CalculateCheckSum(body, prefix).value;
  }

  /** The address of a key holds the last twenty bytes of the key's hash, behind the network's prefix. */
  lemma PublicAddressIs(hash: Hash, key: seq<byte>, prefix: string)
    requires |prefix| == 2 && AllHex(prefix)
    ensures var a := PublicToAddress(hash, key, prefix);
            && a.Ok? && a.value[..2] == "0x" && a.value[2..4] == prefix
            && Body(a.value).Some? && IsHashTail(Body(a.value).value, hash(key))
  {
    hide PublicToAddress, HashTail, Unhex, IsHashTail, Body, AllHex;
    HashTailBytes(hash, key);
    var check := PublicAddressForm(hash, key, prefix);
    BodyOf(prefix, check, HashTail(hash, key));
  }

  /** Two keys have the same address exactly if the last twenty bytes of their hashes agree. */
  lemma SameAddressIff(hash: Hash, a: seq<byte>, b: seq<byte>, prefix: string)
    requires |prefix| == 2 && AllHex(prefix)
    ensures PublicToAddress(hash, a, prefix) == PublicToAddress(hash, b, prefix) <==>
            forall i :: 12 <= i < 32 ==> hash(a)[i] == hash(b)[i]
  {
    hide CalculateCheckSum, Hexlify;
    PublicAddressIs(hash, a, prefix);
    PublicAddressIs(hash, b, prefix);
    if forall i :: 12 <= i < 32 ==> hash(a)[i] == hash(b)[i] {
      assert hash(a)[12..] == hash(b)[12..];
    }
    if PublicToAddress(hash, a, prefix) == PublicToAddress(hash, b, prefix) {
      var tail := Body(PublicToAddress(hash, a, prefix).value).value;
      assert forall i :: 12 <= i < 32 ==> hash(a)[i] == tail[i - 12] == hash(b)[i];
    }
  }

  /** Network 1 has `cb`, the test networks 3 and 4 have `ab`, private ones and network 0 have `ce`. */
  lemma PrefixOfNetwork(networkId: int)
    ensures NetworkIdToPrefix(networkId) == Ok("cb") <==> networkId == 1
    ensures NetworkIdToPrefix(networkId) == Ok("ab") <==> networkId in {3, 4}
    ensures NetworkIdToPrefix(networkId) == Ok("ce") <==> networkId == 0 || networkId >= 11
    ensures NetworkIdToPrefix(networkId) == Err <==> networkId < 0 || networkId == 2 || 5 <= networkId <= 10
  {
    assert "cb"[0] == 'c' && "ab"[0] == 'a' && "cb"[1] == 'b' && "ce"[1] == 'e';
  }

  /**
   * A contract address holds the last twenty bytes of the hash of a list that decodes to the sender's
   * 22 bytes and the shortest bytes of the nonce.
   */
  lemma ContractAddressIs(hash: Hash, sender: string, nonce: int) returns (data: seq<byte>, from: seq<byte>, n: seq<byte>)
    requires GetContractAddress(hash, sender, nonce).Ok?
    ensures DecodeAll(data) == Ok(List([Str(from), Str(n)]))
    ensures GetAddress(sender).Ok? && Unhex(RemoveHexPrefix(GetAddress(sender).value)) == Some(from) && |from| == 22
    ensures ToNat(n) == nonce && (n != [] ==> n[0] != 0)
    ensures var c := GetContractAddress(hash, sender, nonce).value;
            && Body(c).Some? && IsHashTail(Body(c).value, hash(data))
            && c[..2] == "0x" && SamePrefix(c, GetAddress(sender).value)
  {
    hide CalculateCheckSum, HashTail, GetAddress, Unhex, IsHashTail, Encode, DecodeAll;
    AcceptedForm(sender);
    var a := GetAddress(sender).value;
    from := Unhex(RemoveHexPrefix(a)).value;
    n := FromNat(nonce);
    data := ContractPreimage(from, nonce).value;
    RoundTrip(List([Str(from), Str(n)]));
    ToNatFromNat(nonce);
    FromNatMinimal(nonce);
    var body := HashTail(hash, data);
    HashTailBytes(hash, data);
    CheckSumOfPrefixed(body, a[2..4]);
    CheckSumRange(body, a[2..4]);
    WithPrefix(body);
    BodyOf(a[2..4], CalculateCheckSum(body, a[2..4]).value, body);
  }

  // ---------- a known address ----------

  lemma {:induction false} ZeroDigits(n: nat)
    ensures var zeros := seq(n, _ => '0'); AllHex(zeros) && AllDigits(zeros) && Mods(zeros) == zeros && Parse(zeros) == 0
  {
    var zeros := seq(n, _ => '0');
    if n > 0 {
      ZeroDigits(n - 1);
      assert zeros[..n - 1] == seq(n - 1, _ => '0');
      ModsStep(zeros[..n - 1], '0');
      PrintParse("0");
      assert zeros == zeros[..n - 1] + ['0'] && Print(0) == "0";
    } else {
      ModsEmpty();
    }
  }

  lemma LettersCB()
    ensures AllHex("cb") && Mods("cb") == "1211"
  {
    hide Mods, Print;
    assert "cb" == "" + ['c'] + ['b'] && "" + ['c'] == "c";
    ModsEmpty();
    ModsStep("", 'c');
    ModsStep("c", 'b');
    PrintTwo(12);
    PrintTwo(11);
  }

  lemma PrintTwo(n: nat)
    requires 10 <= n <= 99
    ensures Print(n) == [DigitChar(n / 10), DigitChar(n % 10)]
  {
  }

  lemma Numeral1211()
    ensures AllDigits("1211") && Parse("1211") == 1211
  {
    hide Parse;
    assert "12" + "11" == "1211";
    PrintTwo(12);
    PrintTwo(11);
    ParsePrint(12);
    ParsePrint(11);
    ParseAppend("12", "11");
    assert Pow(10, 2) == 100;
  }

  /** Twenty zero bytes on network 1: c and b behind them make 1211, and 121100 is 44 modulo 97, so the check digits are 54. */
  lemma ZeroAddress()
    ensures var a := "0xcb54" + seq(40, _ => '0'); GetAddress(a) == Ok(a)
  {
    hide CalculateCheckSum, GetAddress, Mods, Parse;
    var zeros := seq(40, _ => '0');
    ZeroDigits(40);
    LettersCB();
    Numeral1211();
    ModsAppend(zeros, "cb");
    ParseAppend(zeros, "1211");
    CheckSumIs(zeros, "cb");
    assert Weight(zeros + "cb") == 1211;
    AssembledAccepted("cb", zeros);
    PrintTwo(54);
    assert "0x" + "cb" + "54" + zeros == "0xcb54" + zeros;
  }

  /** The library's own constant for the zero address has no prefix and no check digits, and is refused. */
  lemma ZeroConstantRefused()
    ensures GetAddress("0x" + seq(40, _ => '0')) == Err
  {
    hide CalculateCheckSum;
    WithPrefix(seq(40, _ => '0'));
  }
}
