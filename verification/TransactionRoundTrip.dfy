/** What serializing and parsing transactions preserve. */
module TransactionRoundTrip {
  import opened Wrappers
  import opened Bytes
  import opened Hex
  import opened Rlp
  import opened Address
  import opened Transaction

  // ---------- serialize, then decode ----------

  lemma RawFieldsEncode(t: Tx, fields: seq<FieldName>)
    requires RawFields(t, fields).Ok?
    ensures var x := RawFields(t, fields).value;
            |x| == |fields| && forall i :: 0 <= i < |x| ==> Encodes(t, fields[i], x[i])
  {
    hide FieldBytes;
  }

  lemma Decoded(x: seq<Item>)
    requires EncodeItem(List(x)).Ok?
    ensures DecodeAll(EncodeItem(List(x)).value) == Ok(List(x))
  {
    hide Encode, DecodeAll;
    RoundTrip(List(x));
  }

  lemma FieldCounts()
    ensures |UnsignedFields()| == 7 && |SignedFields()| == 7
  {
  }

  /** The decoded unsigned form lists the seven fields. */
  lemma UnsignedDecoded(t: Tx) returns (x: seq<Item>)
    requires Serialize(t, None).Ok?
    ensures DecodeAll(Serialize(t, None).value) == Ok(List(x)) && |x| == 7
    ensures forall i :: 0 <= i < 7 ==> |UnsignedFields()| == 7 && Encodes(t, UnsignedFields()[i], x[i])
    ensures EncodeItem(List(x)) == Serialize(t, None)
  {
    hide RawFields, EncodeItem, DecodeAll, UnsignedFields, Encodes;
    FieldCounts();
    x := RawFields(t, UnsignedFields()).value;
    RawFieldsEncode(t, UnsignedFields());
    Decoded(x);
  }

  lemma SignedDecoded(t: Tx, s: seq<byte>) returns (x: seq<Item>)
    requires Serialize(t, Some(s)).Ok?
    ensures DecodeAll(Serialize(t, Some(s)).value) == Ok(List(x)) && |x| == 8 && x[7] == Str(s)
    ensures forall i :: 0 <= i < 7 ==> |SignedFields()| == 7 && Encodes(t, SignedFields()[i], x[i])
    ensures EncodeItem(List(x)) == Serialize(t, Some(s))
  {
    hide RawFields, EncodeItem, DecodeAll, SignedFields, Encodes;
    FieldCounts();
    var raw := RawFields(t, SignedFields()).value;
    RawFieldsEncode(t, SignedFields());
    x := raw + [Str(s)];
    Decoded(x);
  }

  // ---------- serialization does not see the case of the recipient, or the signature field ----------

  lemma SameFieldBytes(t: Tx, f: FieldName)
    requires RecipientOk(t)
    ensures FieldBytes(LowerRecipient(t), f) == FieldBytes(t, f)
    ensures FieldBytes(t.(signature := None), f) == FieldBytes(t, f)
  {
    hide GetAddress, Hexlify, Unhex;
    if f == Recipient && t.recipient.Some? {
      var a := t.recipient.value;
      AcceptedForm(a);
      var b := Unhex(RemoveHexPrefix(a)).value;
      UnhexHexlify(b);
      WithPrefix(Hexlify(b));
    }
  }

  lemma SameSerialization(t: Tx, u: Tx, s: Option<seq<byte>>)
    requires forall f :: FieldBytes(t, f) == FieldBytes(u, f)
    ensures Serialize(t, s) == Serialize(u, s)
  {
    hide FieldBytes, EncodeItem;
    SameRaw(t, u, UnsignedFields());
    SameRaw(t, u, SignedFields());
  }

  lemma SameRaw(t: Tx, u: Tx, fields: seq<FieldName>)
    requires forall f :: FieldBytes(t, f) == FieldBytes(u, f)
    ensures RawFields(t, fields) == RawFields(u, fields)
  {
    hide FieldBytes;
    var r := RawFields(t, fields);
    if r.Ok? {
      RawFieldsEncode(t, fields);
      RawFieldsEncode(u, fields);
      assert r.value == RawFields(u, fields).value;
    }
  }

  lemma LowerSerializesAlike(t: Tx, s: Option<seq<byte>>)
    requires RecipientOk(t)
    ensures RecipientOk(LowerRecipient(t))
    ensures Serialize(LowerRecipient(t), s) == Serialize(t, s)
    ensures Serialize(LowerRecipient(t).(signature := None), s) == Serialize(t, s)
  {
    hide FieldBytes, GetAddress, Serialize, LowerRecipient;
    LowerRecipientOk(t);
    var u := LowerRecipient(t);
    forall f
      ensures FieldBytes(u, f) == FieldBytes(t, f) && FieldBytes(u.(signature := None), f) == FieldBytes(t, f)
    {
      SameFieldBytes(t, f);
      SameFieldBytes(u, f);
    }
    SameSerialization(u, t, s);
    SameSerialization(u.(signature := None), t, s);
  }

  lemma LowerRecipientOk(t: Tx)
    requires RecipientOk(t)
    ensures RecipientOk(LowerRecipient(t)) && LowerRecipient(t) == t.(recipient := LowerRecipient(t).recipient)
  {
    hide GetAddress, Hexlify, Unhex;
    if t.recipient.Some? {
      AddressBack(t.recipient.value);
    }
  }

  // ---------- the unsigned form ----------

  lemma FromPlain(c: Crypto, t: Tx)
    requires RecipientOk(t) && t.signature.None? && -MAX_SAFE <= t.nonce <= MAX_SAFE
    ensures FromLike(c, LikeOf(t, None, None, None)) == Ok(t)
  {
    hide GetAddress;
  }

  lemma NonceInRange(t: Tx)
    requires FieldBytes(t, Nonce).Ok?
    ensures 0 <= t.nonce < MAX_SAFE
  {
  }

  /** Parsing an unsigned serialization gives back every field, the recipient in lower case. */
  lemma UnsignedRoundTrip(c: Crypto, t: Tx)
    requires RecipientOk(t) && t.signature.None? && Serialize(t, None).Ok?
    ensures FromBytes(c, Serialize(t, None).value) == Ok(LowerRecipient(t))
  {
    hide Serialize, DecodeAll, ParseFields, FromLike, LikeOf, LowerRecipient, GetAddress, EncodeItem;
    var x := UnsignedDecoded(t);
    FieldsBack(t, x);
    LowerRecipientOk(t);
    UnsignedNonce(t, x[0]);
    FromPlain(c, LowerRecipient(t));
  }

  lemma UnsignedNonce(t: Tx, x: Item)
    requires Encodes(t, UnsignedFields()[0], x)
    ensures 0 <= t.nonce < MAX_SAFE
  {
    NonceInRange(t);
  }

  /** Two recipients that are both missing, or equal up to case. */
  predicate SameRecipient(a: Option<string>, b: Option<string>) {
    match (a, b)
    case (None, None) => true
    case (Some(x), Some(y)) => SameDigits(RemoveHexPrefix(x), RemoveHexPrefix(y))
    case _ => false
  }

  lemma LowerIsSame(t: Tx, u: Tx)
    requires RecipientOk(t) && RecipientOk(u) && LowerRecipient(t) == LowerRecipient(u)
    ensures t == u.(recipient := t.recipient) && SameRecipient(t.recipient, u.recipient)
  {
    hide GetAddress, Hexlify, Unhex, SameDigits;
    LowerRecipientOk(t);
    LowerRecipientOk(u);
    if t.recipient.Some? && u.recipient.Some? {
      var a, b := t.recipient.value, u.recipient.value;
      AddressBack(a);
      AddressBack(b);
      AcceptedForm(a);
      AcceptedForm(b);
      PrefixCancels(Hexlify(AddressBytes(a).value), Hexlify(AddressBytes(b).value));
      SameDigitsSym(RemoveHexPrefix(b), Hexlify(AddressBytes(b).value));
      SameDigitsTrans(RemoveHexPrefix(a), Hexlify(AddressBytes(a).value), RemoveHexPrefix(b));
    }
  }

  lemma PrefixCancels(a: string, b: string)
    requires "0x" + a == "0x" + b
    ensures a == b
  {
    WithPrefix(a);
    WithPrefix(b);
  }

  lemma SameDigitsTrans(a: string, b: string, c: string)
    requires SameDigits(a, b) && SameDigits(b, c)
    ensures SameDigits(a, c)
  {
  }

  /** What is signed determines the transaction: every field, and the recipient up to case. */
  lemma UnsignedInjective(t: Tx, u: Tx)
    requires RecipientOk(t) && RecipientOk(u) && t.signature.None? && u.signature.None?
    requires Serialize(t, None).Ok? && Serialize(t, None) == Serialize(u, None)
    ensures t == u.(recipient := t.recipient) && SameRecipient(t.recipient, u.recipient)
  {
    hide Serialize, LowerRecipient, GetAddress, ParseFields, DecodeAll, EncodeItem, SameRecipient;
    var x := UnsignedDecoded(t);
    var y := UnsignedDecoded(u);
    FieldsBack(t, x);
    FieldsBack(u, y);
    LowerRecipientOk(t);
    LowerRecipientOk(u);
    LowerIsSame(t, u);
  }

  // ---------- nonces that are set but not serialized ----------

  /** Of the nonces that the setter accepts, exactly those from zero to 2^53 - 2 can be serialized. */
  lemma NonceSerializesIff(t: Tx, n: int)
    requires -MAX_SAFE <= n <= MAX_SAFE
    ensures FieldBytes(t.(nonce := n), Nonce).Ok? <==> 0 <= n < MAX_SAFE
  {
    hide FromNat;
    if 0 <= n {
      SafeLength(n);
    }
  }

  /** With any other nonce neither form of the transaction can be serialized, whatever the other fields. */
  lemma OtherNoncesFail(t: Tx, n: int, signature: Option<seq<byte>>)
    requires -MAX_SAFE <= n <= MAX_SAFE && !(0 <= n < MAX_SAFE)
    ensures Serialize(t.(nonce := n), signature) == Err
  {
    hide FieldBytes, EncodeItem;
    NonceSerializesIff(t, n);
    assert UnsignedFields()[0] == Nonce && SignedFields()[0] == Nonce;
  }

  /** The greatest nonce that the setter accepts, and a negative one. */
  lemma UnserializableNonces(t: Tx)
    ensures Serialize(t.(nonce := MAX_SAFE), None) == Err && Serialize(t.(nonce := -1), None) == Err
  {
    hide Serialize;
    OtherNoncesFail(t, MAX_SAFE, None);
    OtherNoncesFail(t, -1, None);
  }

  // ---------- the signed form ----------

  /** The signature has the right length and verifies against the digest of the unsigned form. */
  predicate SignatureOk(c: Crypto, t: Tx, s: seq<byte>) {
    && Serialize(t, None).Ok? && |s| == 171
    && c.verify(c.hash(Serialize(t, None).value), s[..114], s[114..])
  }

  lemma Recovered(c: Crypto, digest: seq<byte>, s: seq<byte>, networkId: int)
    requires NetworkIdToPrefix(networkId).Ok?
    ensures RecoverAddress(c, digest, s, NetworkIdToPrefix(networkId).value).Ok? <==>
            |s| == 171 && c.verify(digest, s[..114], s[114..])
  {
    hide PublicToAddress, GetAddress, NetworkIdToPrefix;
    NetworkPrefixes(networkId);
    if |s| == 171 {
      PublicAddressAccepted(c.hash, s[114..], NetworkIdToPrefix(networkId).value);
    }
  }

  /** The sender is recovered exactly for a good signature on a network with a prefix. */
  lemma SenderIff(c: Crypto, t: Tx)
    requires t.signature.Some?
    ensures SenderOf(c, t).Ok? <==> NetworkIdToPrefix(t.networkId).Ok? && SignatureOk(c, t, t.signature.value)
  {
    hide Serialize, RecoverAddress, NetworkIdToPrefix;
    if NetworkIdToPrefix(t.networkId).Ok? && Serialize(t, None).Ok? {
      Recovered(c, c.hash(Serialize(t, None).value), t.signature.value, t.networkId);
    }
  }

  lemma FromSigned(c: Crypto, t: Tx)
    requires RecipientOk(t) && t.signature.Some? && -MAX_SAFE <= t.nonce <= MAX_SAFE
    requires HashOf(c, t).Ok? && SenderOf(c, t).Ok?
    ensures FromLike(c, LikeOf(t, t.signature, Some(HashOf(c, t).value), Some(SenderOf(c, t).value))) == Ok(t)
  {
    hide GetAddress, HashOf, SenderOf;
  }

  /** What parsing eight items does, in terms of the transaction they stand for. */
  lemma ParseSigned(c: Crypto, u: Tx, x: seq<Item>, s: seq<byte>, bytes: seq<byte>)
    requires DecodeAll(bytes) == Ok(List(x)) && |x| == 8 && x[7] == Str(s) && u.signature == Some(s)
    requires ParseFields(x) == Ok(u.(signature := None))
    requires forall o :: Serialize(u.(signature := None), o) == Serialize(u, o)
    ensures Parse(c, bytes) ==
            if SenderOf(c, u).Ok? && HashOf(c, u).Ok? then
              Ok(LikeOf(u, Some(s), Some(HashOf(c, u).value), Some(SenderOf(c, u).value)))
            else Err
  {
    hide Serialize, DecodeAll, ParseFields, RecoverAddress, NetworkIdToPrefix;
  }

  /**
   * Parsing a signed serialization succeeds exactly when the network has a prefix and the signature
   * verifies against the hash of the unsigned serialization. It then gives back every field, and the
   * transaction's hash is that of the bytes that were parsed.
   */
  lemma SignedRoundTripIff(c: Crypto, t: Tx)
    requires RecipientOk(t) && t.signature.Some? && Serialize(t, t.signature).Ok?
    ensures var r := FromBytes(c, Serialize(t, t.signature).value);
            (r.Ok? <==> NetworkIdToPrefix(t.networkId).Ok? && SignatureOk(c, t, t.signature.value)) &&
            (r.Ok? ==> r == Ok(LowerRecipient(t)) && HashOf(c, r.value) == Ok(c.hash(Serialize(t, t.signature).value)) &&
                       SenderOf(c, r.value) == SenderOf(c, t))
  {
    hide Serialize, DecodeAll, ParseFields, FromLike, LikeOf, LowerRecipient, GetAddress, EncodeItem,
      RecoverAddress, NetworkIdToPrefix, SignatureOk;
    var s := t.signature.value;
    var x := SignedDecoded(t, s);
    var u := LowerRecipient(t);
    FieldsBack(t, x);
    LowerRecipientOk(t);
    forall o
      ensures Serialize(u, o) == Serialize(t, o) && Serialize(u.(signature := None), o) == Serialize(t, o)
    {
      LowerSerializesAlike(t, o);
    }
    ParseSigned(c, u, x, s, Serialize(t, t.signature).value);
    SenderIff(c, t);
    SignedNonce(t, x[0]);
    if SenderOf(c, u).Ok? {
      FromSigned(c, u);
    }
  }

  lemma SignedNonce(t: Tx, x: Item)
    requires Encodes(t, SignedFields()[0], x)
    ensures 0 <= t.nonce < MAX_SAFE
  {
    NonceInRange(t);
  }

  // ---------- bytes from elsewhere ----------

  /** An item without freedom of spelling: no leading zeros in a number, no list for empty data. */
  predicate Minimal(x: Item) {
    x.Str? && (x.bytes == [] || x.bytes[0] != 0)
  }

  predicate IsBytes(x: Item) {
    x.Str?
  }

  /** The spelling of a signed transaction that serialization would choose. */
  predicate CanonicalItems(x: seq<Item>)
    requires |x| == 8
  {
    Minimal(x[0]) && Minimal(x[1]) && Minimal(x[2]) && Minimal(x[3]) && Minimal(x[5]) && IsBytes(x[6])
  }

  /** The field comes back as the item exactly if the item has the canonical form. */
  lemma NumberCanonicalIff(x: Item)
    requires NumberOf(x).Ok? && NumberBytes(NumberOf(x).value).Ok?
    ensures Str(NumberBytes(NumberOf(x).value).value) == x <==> Minimal(x)
  {
    FromNatToNat(x.bytes);
    StripZerosHead(x.bytes);
    if Minimal(x) {
      StripZerosIdentity(x.bytes);
    }
  }

  lemma {:induction false} StripZerosHead(bs: seq<byte>)
    ensures StripZeros(bs) == [] || StripZeros(bs)[0] != 0
    ensures |StripZeros(bs)| <= |bs|
  {
    if bs != [] && bs[0] == 0 {
      StripZerosHead(bs[1..]);
    }
  }

  lemma RecipientCanonical(x: Item, t: Tx)
    requires AddressOf(x).Ok? && t.recipient == AddressOf(x).value
    ensures FieldBytes(t, Recipient).Ok? && x == Str(FieldBytes(t, Recipient).value)
  {
    hide GetAddress, Hexlify, Unhex;
    if x.bytes != [] {
      var hex := Hexlify(x.bytes);
      AcceptedAsIs(hex);
      WithPrefix(hex);
      UnhexHexlify(x.bytes);
      AcceptedForm("0x" + hex);
    }
  }

  lemma AcceptedAsIs(raw: string)
    requires GetAddress("0x" + raw).Ok?
    ensures GetAddress("0x" + raw) == Ok("0x" + raw)
  {
    hide GetAddress, Rearranged;
    AcceptedIff("0x" + raw);
    WithPrefix(raw);
  }

  /** The items that serialization makes of the parsed fields, against those that were parsed. */
  lemma ItemsCanonicalIff(x: seq<Item>, t: Tx, y: seq<Item>)
    requires |x| == 8 && |y| == 8 && ParseFields(x) == Ok(t)
    requires |SignedFields()| == 7 && forall i :: 0 <= i < 7 ==> Encodes(t, SignedFields()[i], y[i])
    requires x[7] == y[7]
    ensures x == y <==> CanonicalItems(x)
  {
    hide GetAddress, Hexlify, Unhex, NumberBytes, NumberOf, AddressOf, Minimal;
    assert forall i :: 0 <= i < 7 ==> y[i] == Str(FieldBytes(t, SignedFields()[i]).value);
    SignedFieldAt(t, y);
    NumberCanonicalIff(x[0]);
    NumberCanonicalIff(x[1]);
    NumberCanonicalIff(x[2]);
    NumberCanonicalIff(x[3]);
    RecipientCanonical(x[4], t);
    NumberCanonicalIff(x[5]);
    assert y[6] == x[6] <==> IsBytes(x[6]);
    assert x == y <==> x[0] == y[0] && x[1] == y[1] && x[2] == y[2] && x[3] == y[3] && x[5] == y[5] && x[6] == y[6];
  }

  lemma SignedFieldAt(t: Tx, y: seq<Item>)
    requires |y| == 8 && |SignedFields()| == 7 && forall i :: 0 <= i < 7 ==> Encodes(t, SignedFields()[i], y[i])
    ensures Encodes(t, Nonce, y[0]) && Encodes(t, EnergyPrice, y[1]) && Encodes(t, EnergyLimit, y[2])
    ensures Encodes(t, NetworkId, y[3]) && Encodes(t, Recipient, y[4]) && Encodes(t, Amount, y[5]) && Encodes(t, Data, y[6])
  {
    hide Encodes;
    var order := SignedFields();
    assert order[0] == Nonce && order[1] == EnergyPrice && order[2] == EnergyLimit && order[3] == NetworkId;
    assert order[4] == Recipient && order[5] == Amount && order[6] == Data;
  }

  /** What acceptance of eight items says about them. */
  lemma AcceptedSigned(c: Crypto, data: seq<byte>, x: seq<Item>)
    requires DecodeAll(data) == Ok(List(x)) && |x| == 8 && FromBytes(c, data).Ok?
    ensures var t := FromBytes(c, data).value;
            && t.signature.Some? && x[7] == Str(t.signature.value) && Serialize(t, t.signature).Ok?
            && ParseFields(x) == Ok(t.(signature := None))
  {
    hide Serialize, DecodeAll, NetworkIdToPrefix, PublicToAddress, GetAddress, NumberOf, AddressOf, FieldBytes;
    var like := Parse(c, data).value;
    var t := FromBytes(c, data).value;
    var fields := ParseFields(x).value;
    ParsedRecipient(x);
    assert t == fields.(signature := like.signature);
    assert HashOf(c, t).Ok?;
  }

  lemma ParsedRecipient(x: seq<Item>)
    requires |x| == 8 && ParseFields(x).Ok?
    ensures CheckRecipient(ParseFields(x).value.recipient) == Ok(ParseFields(x).value.recipient)
  {
    hide GetAddress, NumberOf, BytesOf;
    if x[4].Str? && x[4].bytes != [] {
      AcceptedAsIs(Hexlify(x[4].bytes));
    }
  }

  /**
   * For any signed bytes that are accepted, serializing the result gives the same bytes exactly when
   * they were spelled canonically; only then is the hash of the transaction that of the input.
   */
  lemma CanonicalIff(c: Crypto, data: seq<byte>, x: seq<Item>)
    requires DecodeAll(data) == Ok(List(x)) && |x| == 8 && FromBytes(c, data).Ok?
    ensures var t := FromBytes(c, data).value;
            && (Serialize(t, t.signature) == Ok(data) <==> CanonicalItems(x) && Encode(List(x)) == Some(data))
            && HashOf(c, t).Ok? && (Serialize(t, t.signature) == Ok(data) ==> HashOf(c, t) == Ok(c.hash(data)))
  {
    hide Serialize, DecodeAll, FromBytes, ParseFields, Encode, CanonicalItems, Encodes, SignedFields;
    AcceptedSigned(c, data, x);
    var t := FromBytes(c, data).value;
    var y := SignedDecoded(t, t.signature.value);
    var plain := t.(signature := None);
    FieldCounts();
    forall i | 0 <= i < 7
      ensures |SignedFields()| == 7 && Encodes(plain, SignedFields()[i], y[i])
    {
      SignatureUnseen(t, SignedFields()[i], y[i]);
    }
    ItemsCanonicalIff(x, plain, y);
  }

  lemma SignatureUnseen(t: Tx, f: FieldName, y: Item)
    requires Encodes(t, f, y)
    ensures Encodes(t.(signature := None), f, y)
  {
  }

  // ---------- bytes that are accepted but not canonical ----------

  /** With a zero byte in front of the nonce, which leaves its value as it is. */
  function WithLeadingZero(x: seq<Item>): seq<Item>
    requires |x| == 8 && x[0].Str?
  {
    x[0 := Str([0] + x[0].bytes)]
  }

  lemma LeadingZeroParses(x: seq<Item>)
    requires |x| == 8 && x[0].Str?
    ensures ParseFields(WithLeadingZero(x)) == ParseFields(x)
  {
    hide GetAddress;
    var b := x[0].bytes;
    ToNatLeadingZero([0] + b);
    assert ([0] + b)[1..] == b;
  }

  /**
   * Every signed transaction that is accepted is accepted with a zero in front of its nonce as
   * well: other bytes, parsed to the same transaction and so with the same hash.
   */
  lemma LeadingZeroAccepted(c: Crypto, t: Tx, x: seq<Item>, data: seq<byte>)
    requires RecipientOk(t) && t.signature.Some? && Serialize(t, t.signature).Ok?
    requires FromBytes(c, Serialize(t, t.signature).value).Ok?
    requires DecodeAll(Serialize(t, t.signature).value) == Ok(List(x)) && |x| == 8 && x[0].Str?
    requires Encode(List(WithLeadingZero(x))) == Some(data)
    ensures FromBytes(c, data) == Ok(LowerRecipient(t))
    ensures data != Serialize(t, t.signature).value && Serialize(LowerRecipient(t), t.signature) != Ok(data)
    ensures HashOf(c, LowerRecipient(t)) == Ok(c.hash(Serialize(t, t.signature).value))
  {
    hide Serialize, DecodeAll, ParseFields, FromLike, LikeOf, LowerRecipient, GetAddress, EncodeItem, Encode,
      RecoverAddress, NetworkIdToPrefix, SignatureOk;
    var s := t.signature.value;
    var y := SignedDecoded(t, s);
    assert y == x;
    RoundTrip(List(WithLeadingZero(x)));
    assert WithLeadingZero(x)[0] != x[0];
    SignedRoundTripIff(c, t);
    SenderIff(c, t);
    var u := LowerRecipient(t);
    FieldsBack(t, x);
    LeadingZeroParses(x);
    LowerRecipientOk(t);
    forall o
      ensures Serialize(u, o) == Serialize(t, o) && Serialize(u.(signature := None), o) == Serialize(t, o)
    {
      LowerSerializesAlike(t, o);
    }
    ParseSigned(c, u, WithLeadingZero(x), s, data);
    SignedNonce(t, x[0]);
    FromSigned(c, u);
  }

  /** Nothing but a network, signed by anybody. */
  function BareTx(): Tx {
    Tx(0, 0, 0, 1, None, 0, [], Some(Zeros(171)))
  }

  function BareItems(): (x: seq<Item>)
    ensures |x| == 8 && x[0] == Str([])
  {
    [Str([]), Str([]), Str([]), Str([1]), Str([]), Str([]), Str([]), Str(Zeros(171))]
  }

  lemma {:induction false} ShortItemsEncode(xs: seq<Item>)
    requires |xs| <= 8 && forall i :: 0 <= i < |xs| ==> xs[i].Str? && |xs[i].bytes| <= 171
    ensures EncodeAll(xs).Some? && |EncodeAll(xs).value| <= 180 * |xs|
    decreases |xs|
  {
    if xs != [] {
      ShortItemEncodes(xs[0]);
      ShortItemsEncode(xs[1..]);
    }
  }

  lemma ShortItemEncodes(x: Item)
    requires x.Str? && |x.bytes| <= 171
    ensures Encode(x).Some? && |Encode(x).value| <= 180
  {
    hide FromNat;
    if |x.bytes| > 0 {
      LengthOfLength(|x.bytes|);
    }
  }

  lemma ShortListEncodes(xs: seq<Item>)
    requires |xs| <= 8 && forall i :: 0 <= i < |xs| ==> xs[i].Str? && |xs[i].bytes| <= 171
    ensures Encode(List(xs)).Some?
  {
    hide EncodeAll;
    ShortItemsEncode(xs);
  }

  lemma BareFields(f: FieldName)
    ensures FieldBytes(BareTx(), f) == Ok(if f == NetworkId then [1] else [])
  {
    assert FromNat(0) == [] && FromNat(1) == FromNat(0) + [1] == [1];
  }

  lemma BareSerializes()
    ensures Serialize(BareTx(), None).Ok? && Serialize(BareTx(), Some(Zeros(171))) == EncodeItem(List(BareItems()))
    ensures EncodeItem(List(BareItems())).Ok?
  {
    hide FieldBytes, Encode;
    forall f
      ensures FieldBytes(BareTx(), f) == Ok(if f == NetworkId then [1] else [])
    {
      BareFields(f);
    }
    RawFieldsEncode(BareTx(), UnsignedFields());
    RawFieldsEncode(BareTx(), SignedFields());
    ShortListEncodes(RawFields(BareTx(), UnsignedFields()).value);
    ShortListEncodes(BareItems());
    assert RawFields(BareTx(), SignedFields()).value + [Str(Zeros(171))] == BareItems();
  }

  lemma BareAccepted(c: Crypto)
    requires forall d, s, k :: c.verify(d, s, k)
    ensures RecipientOk(BareTx()) && LowerRecipient(BareTx()) == BareTx() && BareTx().signature == Some(Zeros(171))
    ensures Serialize(BareTx(), Some(Zeros(171))).Ok? && FromBytes(c, Serialize(BareTx(), Some(Zeros(171))).value).Ok?
    ensures DecodeAll(Serialize(BareTx(), Some(Zeros(171))).value) == Ok(List(BareItems()))
  {
    hide Serialize, DecodeAll, FromBytes, EncodeItem;
    BareSerializes();
    SignedRoundTripIff(c, BareTx());
    Decoded(BareItems());
  }

  /** Some signed bytes are accepted although serialization would not write them. */
  lemma NonCanonicalAccepted(c: Crypto) returns (data: seq<byte>)
    requires forall d, s, k :: c.verify(d, s, k)
    ensures FromBytes(c, data) == Ok(BareTx())
    ensures Serialize(BareTx(), Some(Zeros(171))).Ok? && Serialize(BareTx(), Some(Zeros(171))) != Ok(data)
    ensures HashOf(c, BareTx()) == Ok(c.hash(Serialize(BareTx(), Some(Zeros(171))).value))
  {
    hide Serialize, DecodeAll, FromBytes, Encode, BareTx, BareItems, LowerRecipient, HashOf, GetAddress;
    BareAccepted(c);
    ShortBareItems();
    data := Encode(List(WithLeadingZero(BareItems()))).value;
    LeadingZeroAccepted(c, BareTx(), BareItems(), data);
  }

  lemma ShortBareItems()
    ensures Encode(List(WithLeadingZero(BareItems()))).Some?
  {
    hide Encode;
    ShortListEncodes(WithLeadingZero(BareItems()));
  }
}
