/** The transaction object: its setters, and the loop that collects the fields to encode. */
module TransactionObject {
  import opened Wrappers
  import opened Bytes
  import opened Rlp
  import opened Address
  import T = Transaction

  class Transaction {
    var recipient: Option<string>
    var data: seq<byte>
    var nonce: int
    var energyLimit: int
    var energyPrice: Option<int>
    var amount: int
    var networkId: int
    var signature: Option<seq<byte>>

    /** The fields as the getters show them: a missing price reads as zero. */
    ghost function View(): T.Tx
      reads this
    {
      T.Tx(nonce, T.OrElse(energyPrice, 0), energyLimit, networkId, recipient, amount, data, signature)
    }

    /** What the setters guarantee: a recipient has passed `getAddress`, a nonce is a safe integer. */
    ghost predicate Valid()
      reads this
    {
      T.RecipientOk(View()) && -MAX_SAFE <= nonce <= MAX_SAFE
    }

    constructor ()
      ensures Valid() && View() == T.Tx(0, 0, 0, 0, None, 0, [], None)
    {
      recipient, nonce, energyLimit, energyPrice := None, 0, 0, None;
      data, amount, networkId, signature := [], 0, 0, None;
    }

    method SetRecipient(a: string) returns (ok: bool)
      requires Valid()
      modifies this`recipient
      ensures Valid() && ok == GetAddress(a).Ok?
      ensures View() == if ok then old(View()).(recipient := Some(GetAddress(a).value)) else old(View())
    {
      hide GetAddress;
      var r := GetAddress(a);
      if r.Err? {
        return false;
      }
      AcceptedAgain(a);
      recipient := Some(r.value);
      ok := true;
    }

    method SetNonce(n: int) returns (ok: bool)
      requires Valid()
      modifies this`nonce
      ensures Valid() && ok == (-MAX_SAFE <= n <= MAX_SAFE)
      ensures View() == if ok then old(View()).(nonce := n) else old(View())
    {
      hide GetAddress;
      ok := -MAX_SAFE <= n && n <= MAX_SAFE;
      if ok {
        nonce := n;
      }
    }

    /** The setters that take any value; what is missing stays as it was. */
    method SetOthers(like: T.Like)
      requires Valid()
      modifies this
      ensures Valid()
      ensures var t := old(View());
              View() == t.(energyLimit := T.OrElse(like.energyLimit, t.energyLimit),
                           energyPrice := T.OrElse(like.energyPrice, t.energyPrice),
                           data := T.OrElse(like.data, t.data), amount := T.OrElse(like.amount, t.amount),
                           networkId := T.OrElse(like.networkId, t.networkId),
                           signature := if like.signature.Some? then like.signature else t.signature)
    {
      hide GetAddress;
      energyLimit := T.OrElse(like.energyLimit, energyLimit);
      energyPrice := if like.energyPrice.Some? then like.energyPrice else energyPrice;
      data := T.OrElse(like.data, data);
      amount := T.OrElse(like.amount, amount);
      networkId := T.OrElse(like.networkId, networkId);
      signature := if like.signature.Some? then like.signature else signature;
    }

    /** The body of `Transaction.from` on an object, on a fresh transaction. */
    method Assign(c: T.Crypto, like: T.Like) returns (ok: bool)
      requires Valid() && View() == T.Tx(0, 0, 0, 0, None, 0, [], None)
      modifies this
      ensures ok == T.FromLike(c, like).Ok?
      ensures ok ==> Valid() && View() == T.FromLike(c, like).value
    {
      hide GetAddress, T.HashOf, T.SenderOf, T.SameSender;
      if like.recipient.Some? {
        ok := SetRecipient(like.recipient.value);
        if !ok {
          return;
        }
      }
      if like.nonce.Some? {
        ok := SetNonce(like.nonce.value);
        if !ok {
          return;
        }
      }
      SetOthers(like);
      ok := Checks(c, like);
    }

    /** The assertions about hash and sender. */
    method Checks(c: T.Crypto, like: T.Like) returns (ok: bool)
      ensures ok == ((like.hash.Some? ==> T.HashOf(c, View()) == Ok(like.hash.value)) &&
                     (like.sender.Some? ==> T.SameSender(T.SenderOf(c, View()), like.sender.value)))
    {
      hide T.HashOf, T.SenderOf, T.SameSender;
      var t := T.Tx(nonce, T.OrElse(energyPrice, 0), energyLimit, networkId, recipient, amount, data, signature);
      if like.hash.Some? {
        if T.HashOf(c, t) != Ok(like.hash.value) {
          return false;
        }
      }
      if like.sender.Some? {
        if !T.SameSender(T.SenderOf(c, t), like.sender.value) {
          return false;
        }
      }
      ok := true;
    }
  }

  lemma AcceptedAgain(a: string)
    requires GetAddress(a).Ok?
    ensures GetAddress(GetAddress(a).value) == GetAddress(a)
  {
    hide GetAddress, Rearranged;
    AcceptedIff(a);
  }

  /** `serialize`: the fields of a table pushed one by one, then the signature. */
  method Serialize(t: T.Tx, signature: Option<seq<byte>>) returns (r: Result<seq<byte>>)
    ensures r == T.Serialize(t, signature)
  {
    hide T.FieldBytes, T.EncodeItem, T.RawFields, T.UnsignedFields, T.SignedFields;
    var fields := if signature.Some? then T.SignedFields() else T.UnsignedFields();
    var raw: seq<Item> := [];
    for i := 0 to |fields|
      invariant |raw| == i
      invariant forall k :: 0 <= k < i ==> T.FieldBytes(t, fields[k]).Ok? && raw[k] == Str(T.FieldBytes(t, fields[k]).value)
    {
      var value := T.FieldBytes(t, fields[i]);
      if value.Err? {
        RawFails(t, fields, i);
        return Err;
      }
      raw := raw + [Str(value.value)];
    }
    RawIs(t, fields, raw);
    if signature.Some? {
      raw := raw + [Str(signature.value)];
    }
    r := T.EncodeItem(List(raw));
  }

  lemma RawFails(t: T.Tx, fields: seq<T.FieldName>, i: nat)
    requires i < |fields| && T.FieldBytes(t, fields[i]).Err?
    ensures T.RawFields(t, fields) == Err
  {
    hide T.FieldBytes;
  }

  lemma RawIs(t: T.Tx, fields: seq<T.FieldName>, raw: seq<Item>)
    requires |raw| == |fields|
    requires forall k :: 0 <= k < |raw| ==> T.FieldBytes(t, fields[k]).Ok? && raw[k] == Str(T.FieldBytes(t, fields[k]).value)
    ensures T.RawFields(t, fields) == Ok(raw)
  {
    hide T.FieldBytes;
    assert T.RawFields(t, fields).value == raw;
  }
}
