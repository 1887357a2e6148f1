/**
 * Transactions: seven fields when unsigned, eight in another order when signed. The hash and the
 * signature check are parameters.
 */
module Transaction {
  import opened Wrappers
  import opened Bytes
  import opened Hex
  import opened Rlp
  import opened Address

  datatype Tx = Tx(nonce: int, energyPrice: int, energyLimit: int, networkId: int,
                   recipient: Option<string>, amount: int, data: seq<byte>, signature: Option<seq<byte>>)

  /** The hash, and the check of a digest against a signature and a public key. */
  datatype Crypto = Crypto(hash: Hash, verify: (seq<byte>, seq<byte>, seq<byte>) -> bool)

  // ---------- serialization ----------

  datatype FieldName = Nonce | EnergyPrice | EnergyLimit | NetworkId | Recipient | Amount | Data

  function UnsignedFields(): (fs: seq<FieldName>)
  {
    [Nonce, EnergyPrice, EnergyLimit, Recipient, Amount, Data, NetworkId]
  }

  function SignedFields(): (fs: seq<FieldName>)
  {
    [Nonce, EnergyPrice, EnergyLimit, NetworkId, Recipient, Amount, Data]
  }

  /** A numeric field: no sign, no leading zeros, at most 32 bytes. */
  function NumberBytes(n: int): Result<seq<byte>> {
    if n < 0 || |FromNat(n)| > 32 then Err else Ok(FromNat(n))
  }

  /** The fixed-width field: 22 bytes, or none. */
  function AddressBytes(address: string): Result<seq<byte>> {
    match Unhex(RemoveHexPrefix(address))
    case None => Err
    case Some(b) => if |b| != 22 && |b| > 0 then Err else Ok(b)
  }

  /** A nonce is a float and so has a limit of its own. */
  function FieldBytes(t: Tx, f: FieldName): Result<seq<byte>> {
    match f
    case Nonce => if t.nonce >= MAX_SAFE then Err else NumberBytes(t.nonce)
    case EnergyPrice => NumberBytes(t.energyPrice)
    case EnergyLimit => NumberBytes(t.energyLimit)
    case NetworkId => NumberBytes(t.networkId)
    case Recipient => (match t.recipient case None => Ok([]) case Some(a) => AddressBytes(a))
    case Amount => NumberBytes(t.amount)
    case Data => Ok(t.data)
  }

  function RawFields(t: Tx, fields: seq<FieldName>): Result<seq<Item>> {
    if exists i :: 0 <= i < |fields| && FieldBytes(t, fields[i]).Err? then Err
    else Ok(seq(|fields|, i requires 0 <= i < |fields| => Str(FieldBytes(t, fields[i]).value)))
  }

  function Serialize(t: Tx, signature: Option<seq<byte>>): Result<seq<byte>> {
    match signature
    case None =>
      var raw :- RawFields(t, UnsignedFields());
      EncodeItem(List(raw))
    case Some(s) =>
      var raw :- RawFields(t, SignedFields());
      EncodeItem(List(raw + [Str(s)]))
  }

  function EncodeItem(x: Item): Result<seq<byte>> {
    match Encode(x) case None => Err case Some(b) => Ok(b)
  }

  // ---------- parsing ----------

  datatype Like = Like(recipient: Option<string>, nonce: Option<int>, energyLimit: Option<int>, energyPrice: Option<int>,
                       data: Option<seq<byte>>, amount: Option<int>, networkId: Option<int>,
                       signature: Option<seq<byte>>, hash: Option<seq<byte>>, sender: Option<string>)

  /** A nested list where a number is expected throws. */
  function NumberOf(x: Item): Result<nat> {
    match x case Str(b) => Ok(ToNat(b)) case List(_) => Err
  }

  function AddressOf(x: Item): Result<Option<string>> {
    match x
    case Str(b) =>
      if b == [] then Ok(None)
      else (match GetAddress("0x" + Hexlify(b)) case Ok(a) => Ok(Some(a)) case Err => Err)
    case List(_) => Err
  }

  /** An empty list passes for empty bytes. */
  function BytesOf(x: Item): Result<seq<byte>> {
    match x case Str(b) => Ok(b) case List(xs) => if xs == [] then Ok([]) else Err
  }

  /** The fields of a decoded list, by position. */
  function ParseFields(x: seq<Item>): Result<Tx>
    requires |x| == 7 || |x| == 8
  {
    var isSigned := |x| == 8;
    var nonce :- NumberOf(x[0]);
    var energyPrice :- NumberOf(x[1]);
    var energyLimit :- NumberOf(x[2]);
    var networkId :- NumberOf(x[if isSigned then 3 else 6]);
    var recipient :- AddressOf(x[if isSigned then 4 else 3]);
    var amount :- NumberOf(x[if isSigned then 5 else 4]);
    var data :- BytesOf(x[if isSigned then 6 else 5]);
    Ok(Tx(nonce, energyPrice, energyLimit, networkId, recipient, amount, data, None))
  }

  /** `recoverAddress`: the signature carries the public key, which is given back if it verifies. */
  function RecoverAddress(c: Crypto, digest: seq<byte>, signature: seq<byte>, prefix: string): Result<string> {
    if |signature| != 171 || !c.verify(digest, signature[..114], signature[114..]) then Err
    else PublicToAddress(c.hash, signature[114..], prefix)
  }

  function Parse(c: Crypto, data: seq<byte>): Result<Like> {
    match DecodeAll(data)
    case Ok(List(x)) =>
      if |x| != 7 && |x| != 8 then Err
      else
        var t :- ParseFields(x);
        if |x| == 8 then
          var prefix :- NetworkIdToPrefix(t.networkId);
          var signature :- BytesOf(x[7]);
          var unsigned :- Serialize(t, None);
          var signed :- Serialize(t, Some(signature));
          var sender :- RecoverAddress(c, c.hash(unsigned), signature, prefix);
          Ok(LikeOf(t, Some(signature), Some(c.hash(signed)), Some(sender)))
        else Ok(LikeOf(t, None, None, None))
    case _ => Err
  }

  function LikeOf(t: Tx, signature: Option<seq<byte>>, hash: Option<seq<byte>>, sender: Option<string>): Like {
    Like(t.recipient, Some(t.nonce), Some(t.energyLimit), Some(t.energyPrice), Some(t.data), Some(t.amount),
         Some(t.networkId), signature, hash, sender)
  }

  // ---------- the object ----------

  function OrElse<T>(o: Option<T>, default: T): T {
    match o case None => default case Some(v) => v
  }

  /** The hash of the signed serialization. */
  function HashOf(c: Crypto, t: Tx): Result<seq<byte>> {
    if t.signature.None? then Err
    else
      var signed :- Serialize(t, t.signature);
      Ok(c.hash(signed))
  }

  function SenderOf(c: Crypto, t: Tx): Result<string> {
    if t.signature.None? then Err
    else
      var prefix :- NetworkIdToPrefix(t.networkId);
      var unsigned :- Serialize(t, None);
      RecoverAddress(c, c.hash(unsigned), t.signature.value, prefix)
  }

  function Lower(s: string): (r: string)
    ensures |r| == |s|
  {
    seq(|s|, i requires 0 <= i < |s| => if 'A' <= s[i] <= 'Z' then (s[i] as int + 32) as char else s[i])
  }

  /** `Transaction.from` on an object: the setters, then the checks on hash and sender. */
  function FromLike(c: Crypto, like: Like): Result<Tx> {
    var recipient :- CheckRecipient(like.recipient);
    var nonce := OrElse(like.nonce, 0);
    if nonce < -MAX_SAFE || nonce > MAX_SAFE then Err
    else
      var t := Tx(nonce, OrElse(like.energyPrice, 0), OrElse(like.energyLimit, 0), OrElse(like.networkId, 0),
                  recipient, OrElse(like.amount, 0), OrElse(like.data, []), like.signature);
      if like.hash.Some? && HashOf(c, t) != Ok(like.hash.value) then Err
      else if like.sender.Some? && !SameSender(SenderOf(c, t), like.sender.value) then Err
      else Ok(t)
  }

  function CheckRecipient(recipient: Option<string>): Result<Option<string>> {
    match recipient
    case None => Ok(None)
    case Some(a) => (match GetAddress(a) case Ok(b) => Ok(Some(b)) case Err => Err)
  }

  predicate SameSender(computed: Result<string>, given: string) {
    computed.Ok? && Lower(computed.value) == Lower(given)
  }

  /** `Transaction.from` on bytes. */
  function FromBytes(c: Crypto, data: seq<byte>): Result<Tx> {
    var like :- Parse(c, data);
    FromLike(c, like)
  }

  // ---------- addresses as bytes ----------

  /** What the setter of the recipient allows. */
  predicate RecipientOk(t: Tx) {
    t.recipient.Some? ==> GetAddress(t.recipient.value) == Ok(t.recipient.value)
  }

  /** The recipient as it comes back from its bytes, in lower case. */
  function LowerRecipient(t: Tx): (r: Tx)
    requires RecipientOk(t)
  {
    match t.recipient
    case None => t
    case Some(a) =>
      AcceptedForm(a);
      t.(recipient := Some("0x" + Hexlify(Unhex(RemoveHexPrefix(a)).value)))
  }

  lemma AddressBack(a: string)
    requires GetAddress(a) == Ok(a)
    ensures AddressBytes(a).Ok? && |AddressBytes(a).value| == 22
    ensures var lower := "0x" + Hexlify(AddressBytes(a).value);
            GetAddress(lower) == Ok(lower) && AddressOf(Str(AddressBytes(a).value)) == Ok(Some(lower))
    ensures SameDigits(RemoveHexPrefix(a), Hexlify(AddressBytes(a).value))
  {
    hide GetAddress, Hexlify, Unhex, SameDigits;
    AcceptedForm(a);
    var raw := RemoveHexPrefix(a);
    HexlifyUnhex(raw);
    SameDigitsSym(Hexlify(Unhex(raw).value), raw);
    AcceptedPrefixed(a);
    CaseDoesNotMatter(raw, Hexlify(Unhex(raw).value));
  }

  lemma AcceptedPrefixed(a: string)
    requires GetAddress(a).Ok?
    ensures GetAddress("0x" + RemoveHexPrefix(a)) == GetAddress(a)
  {
    hide GetAddress, CalculateCheckSum, Rearranged;
    AcceptedIff(a);
  }

  lemma SameDigitsSym(a: string, b: string)
    requires SameDigits(a, b)
    ensures SameDigits(b, a)
  {
  }

  lemma NumberBack(n: int)
    requires NumberBytes(n).Ok?
    ensures NumberOf(Str(NumberBytes(n).value)) == Ok(n)
  {
    ToNatFromNat(n);
  }

  // ---------- round trips ----------

  ghost predicate Encodes(t: Tx, f: FieldName, x: Item) {
    FieldBytes(t, f).Ok? && x == Str(FieldBytes(t, f).value)
  }

  lemma NumberFieldBack(t: Tx, f: FieldName, x: Item)
    requires Encodes(t, f, x)
    ensures f == Nonce ==> NumberOf(x) == Ok(t.nonce) && t.nonce < MAX_SAFE
    ensures f == EnergyPrice ==> NumberOf(x) == Ok(t.energyPrice)
    ensures f == EnergyLimit ==> NumberOf(x) == Ok(t.energyLimit)
    ensures f == NetworkId ==> NumberOf(x) == Ok(t.networkId)
    ensures f == Amount ==> NumberOf(x) == Ok(t.amount)
    ensures f == Data ==> BytesOf(x) == Ok(t.data)
  {
    hide NumberBytes, NumberOf;
    match f {
      case Nonce => NumberBack(t.nonce);
      case EnergyPrice => NumberBack(t.energyPrice);
      case EnergyLimit => NumberBack(t.energyLimit);
      case NetworkId => NumberBack(t.networkId);
      case Amount => NumberBack(t.amount);
      case _ =>
    }
  }

  lemma RecipientBack(t: Tx, x: Item)
    requires Encodes(t, Recipient, x) && RecipientOk(t)
    ensures AddressOf(x) == Ok(LowerRecipient(t).recipient) && RecipientOk(LowerRecipient(t))
  {
    hide GetAddress, Hexlify, Unhex;
    if t.recipient.Some? {
      AddressBack(t.recipient.value);
    }
  }

  /** The two orders of fields are read back by position. */
  lemma FieldsBack(t: Tx, x: seq<Item>)
    requires RecipientOk(t)
    requires if |x| == 7 then forall i :: 0 <= i < 7 ==> Encodes(t, UnsignedFields()[i], x[i])
             else |x| == 8 && forall i :: 0 <= i < 7 ==> Encodes(t, SignedFields()[i], x[i])
    ensures ParseFields(x) == Ok(LowerRecipient(t).(signature := None)) && t.nonce < MAX_SAFE
  {
    hide GetAddress, Hexlify, Unhex, FieldBytes, NumberOf, BytesOf, AddressOf, LowerRecipient, Encodes;
    LowerKeepsRest(t);
    var order := if |x| == 7 then UnsignedFields() else SignedFields();
    forall i | 0 <= i < 7
      ensures Encodes(t, order[i], x[i])
    {
    }
    var at := if |x| == 7 then (3, 4, 5, 6) else (4, 5, 6, 3);
    NumberFieldBack(t, order[0], x[0]);
    NumberFieldBack(t, order[1], x[1]);
    NumberFieldBack(t, order[2], x[2]);
    RecipientBack(t, x[at.0]);
    NumberFieldBack(t, order[at.1], x[at.1]);
    NumberFieldBack(t, order[at.2], x[at.2]);
    NumberFieldBack(t, order[at.3], x[at.3]);
  }

  lemma LowerKeepsRest(t: Tx)
    requires RecipientOk(t)
    ensures LowerRecipient(t) == t.(recipient := LowerRecipient(t).recipient)
  {
  }
}
