/** Where each field of a transaction stands in its serialization, and who signed it. */
module TransactionLayout {
  import opened Wrappers
  import opened Bytes
  import opened Hex
  import opened Rlp
  import opened Address
  import opened AddressOrigin
  import opened Transaction
  import opened TransactionRoundTrip

  // ---------- what can be serialized ----------

  /** Below 2^256. */
  predicate IsWord(n: int) {
    0 <= n < Pow(256, 32)
  }

  /** The recipient's text is empty or 22 bytes in hexadecimal, prefixed or not. */
  predicate IsRecipient(recipient: Option<string>) {
    match recipient
    case None => true
    case Some(a) => AllHex(RemoveHexPrefix(a)) && |RemoveHexPrefix(a)| in {0, 44}
  }

  predicate Encodable(t: Tx) {
    && 0 <= t.nonce < MAX_SAFE
    && IsWord(t.energyPrice) && IsWord(t.energyLimit) && IsWord(t.networkId) && IsWord(t.amount)
    && IsRecipient(t.recipient)
  }

  lemma WordIff(n: int)
    ensures NumberBytes(n).Ok? <==> IsWord(n)
    ensures NumberBytes(n).Ok? ==> NumberBytes(n) == Ok(FromNat(n)) && |FromNat(n)| <= 32
  {
    hide FromNat, Pow;
    if n >= 0 {
      FromNatLength(n, 32);
    }
  }

  lemma RecipientIff(a: string)
    ensures AddressBytes(a).Ok? <==> IsRecipient(Some(a))
    ensures AddressBytes(a).Ok? ==> AddressBytes(a) == Ok(Unhex(RemoveHexPrefix(a)).value) && |AddressBytes(a).value| <= 22
  {
    hide Unhex, AllHex;
  }

  lemma FieldsEncodableIff(t: Tx)
    ensures Encodable(t) <==> forall f :: FieldBytes(t, f).Ok?
    ensures forall f :: FieldBytes(t, f).Ok? ==> |FieldBytes(t, f).value| <= (if f == Data then |t.data| else 32)
  {
    hide FromNat, IsWord, NumberBytes, AddressBytes, IsRecipient;
    NonceSerializes(t.nonce);
    WordIff(t.nonce);
    WordIff(t.energyPrice);
    WordIff(t.energyLimit);
    WordIff(t.networkId);
    WordIff(t.amount);
    assert IsRecipient(None) by {
      AnyRecipient();
    }
    if t.recipient.Some? {
      RecipientIff(t.recipient.value);
    }
    if forall f :: FieldBytes(t, f).Ok? {
      assert FieldBytes(t, Nonce).Ok? && FieldBytes(t, EnergyPrice).Ok? && FieldBytes(t, EnergyLimit).Ok?;
      assert FieldBytes(t, NetworkId).Ok? && FieldBytes(t, Amount).Ok? && FieldBytes(t, Recipient).Ok?;
    }
    forall f | FieldBytes(t, f).Ok?
      ensures |FieldBytes(t, f).value| <= (if f == Data then |t.data| else 32)
    {
    }
  }

  lemma AnyRecipient()
    ensures IsRecipient(None)
  {
  }

  lemma NonceSerializes(n: int)
    ensures n < MAX_SAFE ==> (NumberBytes(n).Ok? <==> 0 <= n)
  {
    hide FromNat;
    if 0 <= n < MAX_SAFE {
      SafeLength(n);
    }
  }

  function TotalBytes(xs: seq<Item>): nat {
    if xs == [] then 0 else (match xs[0] case Str(b) => |b| case List(_) => 0) + TotalBytes(xs[1..])
  }

  /** A few strings of moderate size have an encoding, with at most five bytes of header each. */
  lemma {:induction false} StringsEncode(xs: seq<Item>)
    requires |xs| <= 8 && TotalBytes(xs) < 0x4000_0000 && forall i :: 0 <= i < |xs| ==> xs[i].Str?
    ensures EncodeAll(xs).Some? && |EncodeAll(xs).value| <= TotalBytes(xs) + 5 * |xs|
    decreases |xs|
  {
    hide Header;
    if xs != [] {
      StringsEncode(xs[1..]);
      if |xs[0].bytes| != 1 || xs[0].bytes[0] > 0x7f {
        HeaderSize(|xs[0].bytes|);
      }
    }
  }

  lemma HeaderSize(n: nat)
    requires n < TWO_31
    ensures |Header(0x80, n)| <= 5
  {
    if n > 55 {
      LengthOfLength(n);
    }
  }

  lemma ListEncodes(xs: seq<Item>)
    requires |xs| <= 8 && TotalBytes(xs) < 0x4000_0000 && forall i :: 0 <= i < |xs| ==> xs[i].Str?
    ensures EncodeItem(List(xs)).Ok?
  {
    hide EncodeAll, Header;
    StringsEncode(xs);
  }

  lemma {:induction false} TotalBytesBound(xs: seq<Item>, bound: nat)
    requires forall i :: 0 <= i < |xs| ==> xs[i].Str? && |xs[i].bytes| <= bound
    ensures TotalBytes(xs) <= |xs| * bound
    decreases |xs|
  {
    if xs != [] {
      TotalBytesBound(xs[1..], bound);
      assert |xs| * bound == (|xs| - 1) * bound + bound;
    }
  }

  /**
   * With data and signature of up to 2^26 bytes, a transaction can be serialized exactly if its nonce
   * is below 2^53 - 1, its other numbers are below 2^256, and its recipient is none or 22 bytes.
   */
  lemma SerializesIff(t: Tx, signature: Option<seq<byte>>)
    requires |t.data| <= 0x400_0000 && (signature.Some? ==> |signature.value| <= 0x400_0000)
    ensures Serialize(t, signature).Ok? <==> Encodable(t)
  {
    hide FieldBytes, EncodeItem, Encodable, RawFields;
    FieldsEncodableIff(t);
    var fields := if signature.None? then UnsignedFields() else SignedFields();
    RawIff(t, fields);
    if Encodable(t) {
      var raw := RawFields(t, fields).value;
      var x := if signature.None? then raw else raw + [Str(signature.value)];
      TotalBytesBound(x, 0x400_0000);
      ListEncodes(x);
    }
  }

  lemma RawIff(t: Tx, fields: seq<FieldName>)
    requires fields == UnsignedFields() || fields == SignedFields()
    ensures RawFields(t, fields).Ok? <==> forall f :: FieldBytes(t, f).Ok?
    ensures RawFields(t, fields).Ok? ==>
              var raw := RawFields(t, fields).value;
              |raw| == 7 && forall i :: 0 <= i < 7 ==> FieldBytes(t, fields[i]).Ok? && raw[i] == Str(FieldBytes(t, fields[i]).value)
  {
    hide FieldBytes;
    if RawFields(t, fields).Ok? {
      forall f
        ensures FieldBytes(t, f).Ok?
      {
        EveryField(fields, f);
        var i :| 0 <= i < 7 && fields[i] == f;
        assert FieldBytes(t, fields[i]).Ok?;
      }
    }
  }

  lemma EveryField(fields: seq<FieldName>, f: FieldName)
    requires fields == UnsignedFields() || fields == SignedFields()
    ensures |fields| == 7 && exists i :: 0 <= i < 7 && fields[i] == f
  {
    var at := if fields == UnsignedFields() then
                (match f case Nonce => 0 case EnergyPrice => 1 case EnergyLimit => 2 case Recipient => 3
                         case Amount => 4 case Data => 5 case NetworkId => 6)
              else
                (match f case Nonce => 0 case EnergyPrice => 1 case EnergyLimit => 2 case NetworkId => 3
                         case Recipient => 4 case Amount => 5 case Data => 6);
    assert fields[at] == f;
  }

  // ---------- where the fields stand ----------

  function RecipientBytes(recipient: Option<string>): seq<byte>
    requires IsRecipient(recipient)
  {
    match recipient case None => [] case Some(a) => Unhex(RemoveHexPrefix(a)).value
  }

  /** The items that the bytes of a transaction decode to: seven when unsigned, eight when signed. */
  function Layout(t: Tx, signature: Option<seq<byte>>): seq<Item>
    requires Encodable(t)
  {
    var nonce, price, limit := Str(FromNat(t.nonce)), Str(FromNat(t.energyPrice)), Str(FromNat(t.energyLimit));
    var recipient, amount, data := Str(RecipientBytes(t.recipient)), Str(FromNat(t.amount)), Str(t.data);
    var network := Str(FromNat(t.networkId));
    match signature
    case None => [nonce, price, limit, recipient, amount, data, network]
    case Some(s) => [nonce, price, limit, network, recipient, amount, data, Str(s)]
  }

  lemma FieldIs(t: Tx, f: FieldName)
    requires Encodable(t)
    ensures FieldBytes(t, f) ==
            match f
            case Nonce => Ok(FromNat(t.nonce))
            case EnergyPrice => Ok(FromNat(t.energyPrice))
            case EnergyLimit => Ok(FromNat(t.energyLimit))
            case NetworkId => Ok(FromNat(t.networkId))
            case Recipient => Ok(RecipientBytes(t.recipient))
            case Amount => Ok(FromNat(t.amount))
            case Data => Ok(t.data)
  {
    hide FromNat, IsWord, IsRecipient, AddressBytes;
    NonceSerializes(t.nonce);
    WordIff(t.energyPrice);
    WordIff(t.energyLimit);
    WordIff(t.networkId);
    WordIff(t.amount);
    if t.recipient.Some? {
      RecipientIff(t.recipient.value);
    }
  }

  /** Both forms, field by field and in order, as any decoder of the list finds them. */
  lemma SerializedItems(t: Tx, signature: Option<seq<byte>>)
    requires Serialize(t, signature).Ok?
    ensures Encodable(t) && DecodeAll(Serialize(t, signature).value) == Ok(List(Layout(t, signature)))
  {
    hide FieldBytes, EncodeItem, Encodable, RawFields, DecodeAll, RecipientBytes;
    FieldsEncodableIff(t);
    var fields := if signature.None? then UnsignedFields() else SignedFields();
    RawIff(t, fields);
    var raw := RawFields(t, fields).value;
    forall i | 0 <= i < 7
      ensures raw[i] == Layout(t, signature)[i]
    {
      FieldIs(t, fields[i]);
    }
    var x := if signature.None? then raw else raw + [Str(signature.value)];
    assert x == Layout(t, signature);
    TransactionRoundTrip.Decoded(x);
  }

  // ---------- the sender ----------

  /** The sender is the address of the public key that the signature carries in its last 57 bytes. */
  lemma SenderIs(c: Crypto, t: Tx, sig: seq<byte>, pub: seq<byte>, prefix: string)
    requires |sig| == 114 && |pub| == 57 && t.signature == Some(sig + pub) && Serialize(t, None).Ok?
    requires NetworkIdToPrefix(t.networkId) == Ok(prefix) && c.verify(c.hash(Serialize(t, None).value), sig, pub)
    ensures |prefix| == 2 && SenderOf(c, t) == PublicToAddress(c.hash, pub, prefix)
    ensures var a := SenderOf(c, t);
            && a.Ok? && GetAddress(a.value) == a && a.value[2..4] == prefix
            && Body(a.value).Some? && IsHashTail(Body(a.value).value, c.hash(pub))
  {
    hide Serialize, PublicToAddress, NetworkIdToPrefix, GetAddress, IsHashTail, Body;
    NetworkPrefixes(t.networkId);
    assert (sig + pub)[..114] == sig && (sig + pub)[114..] == pub;
    PublicAddressAccepted(c.hash, pub, prefix);
    PublicAddressIs(c.hash, pub, prefix);
  }

  /** So is the one that parsing finds, whoever made the bytes. */
  lemma ParsedSenderIs(c: Crypto, data: seq<byte>, x: seq<Item>)
    requires DecodeAll(data) == Ok(List(x)) && |x| == 8 && Parse(c, data).Ok?
    ensures ParseFields(x).Ok? && BytesOf(x[7]).Ok? && |BytesOf(x[7]).value| == 171
    ensures var t, s := ParseFields(x).value, BytesOf(x[7]).value;
            var prefix := NetworkIdToPrefix(t.networkId);
            && prefix.Ok? && Serialize(t, None).Ok?
            && c.verify(c.hash(Serialize(t, None).value), s[..114], s[114..])
            && Parse(c, data).value.sender.Some?
            && Ok(Parse(c, data).value.sender.value) == PublicToAddress(c.hash, s[114..], prefix.value)
  {
    hide Serialize, DecodeAll, ParseFields, NetworkIdToPrefix, PublicToAddress, BytesOf;
  }

  // ---------- building from an object ----------

  /** The transaction that an object without hash and sender stands for: what is not given has its default. */
  function Given(like: Like, recipient: Option<string>): Tx {
    Tx(if like.nonce.Some? then like.nonce.value else 0,
       if like.energyPrice.Some? then like.energyPrice.value else 0,
       if like.energyLimit.Some? then like.energyLimit.value else 0,
       if like.networkId.Some? then like.networkId.value else 0,
       recipient,
       if like.amount.Some? then like.amount.value else 0,
       if like.data.Some? then like.data.value else [],
       like.signature)
  }

  /**
   * An object is accepted exactly if its recipient is an address, its nonce is a safe integer, and a
   * hash or a sender that it names is that of the transaction it stands for, the sender up to case.
   */
  lemma AcceptedLikeIff(c: Crypto, like: Like, t: Tx)
    ensures FromLike(c, like) == Ok(t) <==>
            && t == Given(like, t.recipient)
            && (like.recipient.Some? <==> t.recipient.Some?)
            && (like.recipient.Some? ==> GetAddress(like.recipient.value) == Ok(t.recipient.value))
            && -MAX_SAFE <= t.nonce <= MAX_SAFE
            && (like.hash.Some? ==> HashOf(c, t) == Ok(like.hash.value))
            && (like.sender.Some? ==> SenderOf(c, t).Ok? && Lower(SenderOf(c, t).value) == Lower(like.sender.value))
  {
    hide GetAddress, HashOf, SenderOf, Lower;
  }
}
