/** Which basic types are accepted, and what they stand for. */
module AbiBasicType {
  import opened Wrappers
  import opened Decimal
  import opened AbiLexer
  import opened AbiParamType

  const PLAIN_TYPES := {"address", "bool", "string", "bytes", "int", "uint"}

  /** `int` and `uint` stand for 256 bits, any other type for itself. */
  function Resolved(typ: string): string {
    if typ == "int" || typ == "uint" then typ + "256" else typ
  }

  /** A type with digits behind it: 1 to 32 for bytes, a multiple of eight up to 256 for integers. */
  predicate IsSizedType(typ: string, digits: string) {
    && digits != "" && AllDigits(digits)
    && ((typ == "bytes" + digits && 1 <= Parse(digits) <= 32) ||
        ((typ == "int" + digits || typ == "uint" + digits) && 8 <= Parse(digits) <= 256 && Parse(digits) % 8 == 0))
  }

  lemma SizedSplits(typ: string, name: string)
    ensures IsSized(typ, name) <==> exists digits :: AllDigits(digits) && typ == name + digits
    ensures IsSized(typ, name) ==> typ == name + typ[|name|..]
  {
    if digits :| AllDigits(digits) && typ == name + digits {
      assert typ[|name|..] == digits;
    }
  }

  lemma OnlyOneName(typ: string)
    ensures IsSized(typ, "bytes") ==> !IsSized(typ, "int") && !IsSized(typ, "uint")
    ensures IsSized(typ, "int") ==> !IsSized(typ, "uint")
  {
    assert IsSized(typ, "bytes") ==> typ[0] == 'b';
    assert IsSized(typ, "int") ==> typ[0] == 'i';
    assert IsSized(typ, "uint") ==> typ[0] == 'u';
  }

  lemma VerifyWidthIff(name: string, digits: string, max: nat, step: nat)
    requires AllDigits(digits) && step > 0
    ensures (name + digits)[|name|..] == digits
    ensures VerifyWidth(name + digits, |name|, max, step) ==
            if digits == "" || (step <= Parse(digits) <= max && Parse(digits) % step == 0) then Ok(name + digits) else Err
  {
    hide Parse;
    assert (name + digits)[|name|..] == digits;
    if digits != "" && Parse(digits) % step == 0 && Parse(digits) > 0 {
      AtLeastStep(Parse(digits), step);
    }
  }

  lemma AtLeastStep(n: nat, step: nat)
    requires step > 0 && n > 0 && n % step == 0
    ensures n >= step
  {
  }

  lemma VerifySized(name: string, digits: string)
    requires name in {"bytes", "int", "uint"} && AllDigits(digits)
    ensures VerifyBasicType(name + digits) ==
            if digits == "" then Ok(Resolved(name)) else if IsSizedType(name + digits, digits) then Ok(name + digits) else Err
  {
    hide Parse, IsSized, VerifyWidth;
    var typ := name + digits;
    SizedSplits(typ, name);
    OnlyOneName(typ);
    SizedWidth(typ, name);
    VerifyWidthIff(name, digits, if name == "bytes" then 32 else 256, if name == "bytes" then 1 else 8);
    if digits == "" {
      assert typ == name;
      assert "int" + "256" == "int256" && "uint" + "256" == "uint256";
    } else {
      SameName(name, digits);
      NotBare(name, digits);
    }
  }

  lemma SizedWidth(typ: string, name: string)
    requires IsSized(typ, name)
    ensures |name| <= |typ| && AllDigits(typ[|name|..])
  {
  }

  lemma NotBare(name: string, digits: string)
    requires name in {"bytes", "int", "uint"} && AllDigits(digits) && digits != ""
    ensures name + digits != "uint" && name + digits != "int"
  {
    assert (name + digits)[|name|] == digits[0];
  }

  lemma SameName(name: string, digits: string)
    requires name in {"bytes", "int", "uint"} && AllDigits(digits)
    ensures forall other, more :: other in {"bytes", "int", "uint"} && AllDigits(more) && name + digits == other + more ==>
              other == name && more == digits
  {
    forall other, more | other in {"bytes", "int", "uint"} && AllDigits(more) && name + digits == other + more
      ensures other == name && more == digits
    {
      assert (name + digits)[0] == name[0] && (other + more)[0] == other[0];
      assert (name + digits)[|name|..] == digits && (other + more)[|other|..] == more;
    }
  }

  /**
   * What a basic type stands for: itself, but 256 bits for `int` and `uint`. Accepted are exactly the
   * six plain types and those of a valid size; leading zeros of the size are accepted and stay.
   */
  lemma VerifyBasicTypeIff(typ: string)
    ensures VerifyBasicType(typ).Ok? <==> typ in PLAIN_TYPES || exists digits :: IsSizedType(typ, digits)
    ensures VerifyBasicType(typ).Ok? ==> VerifyBasicType(typ).value == Resolved(typ)
  {
    hide Parse, VerifyWidth, IsSizedType;
    if name :| name in {"bytes", "int", "uint"} && IsSized(typ, name) {
      SizedSplits(typ, name);
      var digits := typ[|name|..];
      SizedWidth(typ, name);
      VerifySized(name, digits);
      PlainOrSized(typ, name, digits);
    } else {
      PlainIsSized();
      if digits :| IsSizedType(typ, digits) {
        SizedTypeIsSized(typ, digits);
      }
    }
  }

  lemma SizedTypeIsSized(typ: string, digits: string)
    requires IsSizedType(typ, digits)
    ensures exists name :: name in {"bytes", "int", "uint"} && IsSized(typ, name)
  {
    hide Parse;
    SizedSplits(typ, "bytes");
    SizedSplits(typ, "int");
    SizedSplits(typ, "uint");
  }

  lemma PlainIsSized()
    ensures IsSized("bytes", "bytes") && IsSized("int", "int") && IsSized("uint", "uint")
  {
  }

  lemma PlainOrSized(typ: string, name: string, digits: string)
    requires name in {"bytes", "int", "uint"} && AllDigits(digits) && typ == name + digits
    ensures digits == "" ==> typ == name
    ensures digits != "" ==> typ !in PLAIN_TYPES && forall more :: IsSizedType(typ, more) ==> more == digits
    ensures digits != "" ==> Resolved(typ) == typ
  {
    hide Parse;
    if digits == "" {
      assert name + "" == name;
    } else {
      SameName(name, digits);
      NotBare(name, digits);
      assert typ[|name|] == digits[0] && typ[0] == name[0];
      assert "bytes" + "" == "bytes";
    }
  }
}
