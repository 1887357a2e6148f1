/** Parameter types: the tree, its sighash text, and the parser over token strings. */
module AbiParamType {
  import opened Wrappers
  import opened Decimal
  import opened AbiLexer
  import opened AbiTokenString

  /** `typ` is the stored type text; a length of -1 is an array of any length. */
  datatype ParamType =
    | Basic(typ: string, name: string, indexed: Option<bool>)
    | Tuple(typ: string, components: seq<ParamType>, name: string, indexed: Option<bool>)
    | Array(typ: string, child: ParamType, length: int, name: string, indexed: Option<bool>)

  // ---------- printing ----------

  function LengthText(length: int): string {
    "[" + (if length < 0 then "" else Print(length)) + "]"
  }

  /** `format("sighash")`. */
  function Format(p: ParamType): string
    decreases p
  {
    match p
    case Array(_, child, length, _, _) => Format(child) + LengthText(length)
    case Tuple(_, components, _, _) => "(" + FormatAll(components) + ")"
    case Basic(typ, _, _) => typ
  }

  function FormatAll(ps: seq<ParamType>): string
    decreases ps
  {
    if ps == [] then ""
    else if |ps| == 1 then Format(ps[0])
    else Format(ps[0]) + "," + FormatAll(ps[1..])
  }

  // ---------- parsing ----------

  /** The widths a basic type may have; the bare integer names stand for 256 bits. */
  function VerifyBasicType(typ: string): Result<string> {
    if !IsTypeText(typ) then Err
    else if typ == "uint" then Ok("uint256")
    else if typ == "int" then Ok("int256")
    else if IsSized(typ, "bytes") then VerifyWidth(typ, |"bytes"|, 32, 1)
    else if IsSized(typ, "int") then VerifyWidth(typ, |"int"|, 256, 8)
    else if IsSized(typ, "uint") then VerifyWidth(typ, |"uint"|, 256, 8)
    else Ok(typ)
  }

  function VerifyWidth(typ: string, start: nat, max: nat, step: nat): Result<string>
    requires start <= |typ| && AllDigits(typ[start..]) && step > 0
  {
    var digits := typ[start..];
    if digits == "" then Ok(typ)
    else if Parse(digits) == 0 || Parse(digits) > max || Parse(digits) % step != 0 then Err
    else Ok(typ)
  }

  const TUPLE_KEYWORD := {"tuple"}
  const MODIFIERS := {"calldata", "memory", "storage", "payable", "indexed"}

  /** `consumeKeywords`: the position behind the run of allowed keywords, and which they are. */
  function Keywords(toks: seq<Token>, i: nat, allowed: set<string>, seen: set<string>): (r: Result<(nat, set<string>)>)
    requires i <= |toks|
    ensures r.Ok? ==> i <= r.value.0 <= |toks|
    decreases |toks| - i
  {
    if i < |toks| && toks[i].kind == Keyword && toks[i].text in allowed then
      if toks[i].text in seen then Err else Keywords(toks, i + 1, allowed, seen + {toks[i].text})
    else Ok((i, seen))
  }

  function KindAt(toks: seq<Token>, i: nat, kind: Kind): bool {
    i < |toks| && toks[i].kind == kind
  }

  function BracketsEnd(toks: seq<Token>, i: nat): (e: nat)
    requires i <= |toks|
    ensures i <= e <= |toks|
    ensures forall k :: i <= k < e ==> toks[k].kind == Bracket
    ensures e < |toks| ==> toks[e].kind != Bracket
    decreases |toks| - i
  {
    if KindAt(toks, i, Bracket) then BracketsEnd(toks, i + 1) else i
  }

  /** The array type around `p` that one bracket token makes. */
  function WrapOne(p: ParamType, bracket: Token): ParamType {
    Array(p.typ + bracket.text, p, bracket.value, "", None)
  }

  /** The array types that the brackets in toks[from..end] make, innermost first. */
  function WrapAll(toks: seq<Token>, from: nat, end: nat, p: ParamType): ParamType
    requires from <= end <= |toks|
    decreases end
  {
    if from == end then p else WrapOne(WrapAll(toks, from, end - 1, p), toks[end - 1])
  }

  /** `ParamType.from` on a token string at its start. */
  ghost function ParseType(toks: seq<Token>, allowIndexed: bool): Result<ParamType>
    requires WellLinked(toks)
    decreases |toks|, 2, 0
  {
    var base :- ParseBase(toks);
    var end := BracketsEnd(toks, base.1);
    var p := WrapAll(toks, base.1, end, base.0);
    var modifiers :- Keywords(toks, end, MODIFIERS, {});
    var isIndexed := "indexed" in modifiers.1;
    if isIndexed && !allowIndexed then Err
    else
      var k := modifiers.0;
      var named := KindAt(toks, k, Id);
      if (if named then k + 1 else k) < |toks| then Err
      else Ok(p.(name := if named then toks[k].text else "", indexed := if isIndexed then Some(true) else None))
  }

  /** The part before the brackets: a tuple, with or without its keyword, or a basic type. */
  ghost function ParseBase(toks: seq<Token>): (r: Result<(ParamType, nat)>)
    requires WellLinked(toks)
    ensures r.Ok? ==> r.value.1 <= |toks|
    decreases |toks|, 1, 0
  {
    var keyword :- Keywords(toks, 0, TUPLE_KEYWORD, {});
    var i := keyword.0;
    if "tuple" in keyword.1 || KindAt(toks, i, OpenParen) then
      var popped :- PoppedParams(toks, i);
      var components :- ParseAll(popped.0, |toks|);
      Ok((Tuple("tuple(" + FormatAll(components) + ")", components, "", None), popped.1))
    else if KindAt(toks, i, Type) then
      var typ :- VerifyBasicType(toks[i].text);
      Ok((Basic(typ, "", None), i + 1))
    else Err
  }

  ghost function ParseAll(items: seq<seq<Token>>, n: nat): Result<seq<ParamType>>
    requires forall m :: 0 <= m < |items| ==> |items[m]| < n && WellLinked(items[m])
    decreases n, 0, |items|
  {
    if items == [] then Ok([])
    else
      var first :- ParseType(items[0], false);
      var rest :- ParseAll(items[1..], n);
      Ok([first] + rest)
  }

  /** A type text, lexed and parsed. */
  ghost function FromText(text: string, allowIndexed: bool): Result<ParamType> {
    var toks :- Lex(text);
    ParseType(toks, allowIndexed)
  }

  // ---------- the methods ----------

  method ConsumeKeywords(obj: TokenString, allowed: set<string>) returns (r: Result<set<string>>)
    requires obj.Valid()
    modifies obj`offset
    ensures obj.Valid()
    ensures match Keywords(obj.tokens, old(obj.offset), allowed, {})
            case Err => r.Err?
            case Ok((i, seen)) => r == Ok(seen) && obj.offset == i
  {
    var keywords: set<string> := {};
    while true
      invariant obj.Valid()
      invariant Keywords(obj.tokens, old(obj.offset), allowed, {})
             == Keywords(obj.tokens, obj.offset, allowed, keywords)
      decreases |obj.tokens| - obj.offset
    {
      var keyword := obj.PeekType(Keyword);
      if keyword.None? || keyword.value !in allowed {
        break;
      }
      var token := obj.Pop();
      if keyword.value in keywords {
        return Err;
      }
      keywords := keywords + {keyword.value};
    }
    r := Ok(keywords);
  }

  /** `ParamType.from` on a fresh token string: every token must be used up. */
  method FromTokens(obj: TokenString, allowIndexed: bool) returns (r: Result<ParamType>)
    requires obj.Valid() && obj.offset == 0
    modifies obj`offset
    ensures obj.Valid()
    ensures r == ParseType(obj.tokens, allowIndexed)
    decreases |obj.tokens|, 2
  {
    hide ParseBase, WellLinked, Keywords;
    var base := BaseFromTokens(obj);
    if base.Err? {
      return Err;
    }
    var p := base.value;
    ghost var start := obj.offset;
    while obj.PeekType(Bracket).Some?
      invariant obj.Valid() && start <= obj.offset
      invariant BracketsEnd(obj.tokens, start) == BracketsEnd(obj.tokens, obj.offset)
      invariant p == WrapAll(obj.tokens, start, obj.offset, base.value)
      decreases |obj.tokens| - obj.offset
    {
      var bracket := obj.Pop();
      p := Array(p.typ + bracket.value.text, p, bracket.value.value, "", None);
    }
    var modifiers := ConsumeKeywords(obj, MODIFIERS);
    if modifiers.Err? {
      return Err;
    }
    var isIndexed := "indexed" in modifiers.value;
    if isIndexed && !allowIndexed {
      return Err;
    }
    var name := "";
    if obj.PeekType(Id).Some? {
      var token := obj.Pop();
      name := token.value.text;
    }
    if obj.Length() > 0 {
      return Err;
    }
    r := Ok(p.(name := name, indexed := if isIndexed then Some(true) else None));
  }

  method BaseFromTokens(obj: TokenString) returns (r: Result<ParamType>)
    requires obj.Valid() && obj.offset == 0
    modifies obj`offset
    ensures obj.Valid()
    ensures match ParseBase(obj.tokens)
            case Err => r.Err?
            case Ok((p, i)) => r == Ok(p) && obj.offset == i
    decreases |obj.tokens|, 1
  {
    var keyword := ConsumeKeywords(obj, TUPLE_KEYWORD);
    if keyword.Err? {
      return Err;
    }
    if "tuple" in keyword.value || obj.PeekType(OpenParen).Some? {
      var items := obj.PopParams();
      if items.Err? {
        return Err;
      }
      var components := AllFromTokens(items.value, |obj.tokens|);
      if components.Err? {
        return Err;
      }
      r := Ok(Tuple("tuple(" + FormatAll(components.value) + ")", components.value, "", None));
    } else {
      var text := obj.PopType(Type);
      if text.Err? {
        return Err;
      }
      var typ := VerifyBasicType(text.value);
      if typ.Err? {
        return Err;
      }
      r := Ok(Basic(typ.value, "", None));
    }
  }

  /** Components parsed so far, in front of what is still to come. */
  ghost function Prepend(done: seq<ParamType>, rest: Result<seq<ParamType>>): Result<seq<ParamType>> {
    match rest
    case Ok(ps) => Ok(done + ps)
    case Err => Err
  }

  method AllFromTokens(items: seq<seq<Token>>, ghost n: nat) returns (r: Result<seq<ParamType>>)
    requires forall m :: 0 <= m < |items| ==> |items[m]| < n && WellLinked(items[m])
    ensures r == ParseAll(items, n)
    decreases n, 0
  {
    var result: seq<ParamType> := [];
    var i := 0;
    assert items[0..] == items && forall ps: seq<ParamType> :: [] + ps == ps;
    while i < |items|
      invariant 0 <= i <= |items|
      invariant ParseAll(items, n) == Prepend(result, ParseAll(items[i..], n))
    {
      assert items[i..][1..] == items[i + 1..];
      var item := new TokenString(items[i]);
      var p := FromTokens(item, false);
      if p.Err? {
        return Err;
      }
      ghost var rest := ParseAll(items[i + 1..], n);
      assert rest.Ok? ==> result + ([p.value] + rest.value) == (result + [p.value]) + rest.value;
      result := result + [p.value];
      i := i + 1;
    }
    assert items[|items|..] == [] && result + [] == result;
    r := Ok(result);
  }
}
