/**
 * Reading the text of a type back, by a reader that knows nothing of how it was written: it cuts at
 * parentheses, commas and spaces.
 */
module TypedDataReader {
  import opened Wrappers
  import opened Sequences
  import opened TypedData
  import opened TypedDataEncoder
  import opened TypedDataText

  datatype Struct = Struct(name: string, fields: seq<Field>)

  // ---------- the reader ----------

  /** `<type> <name>`. */
  function ReadField(s: string): Option<Field> {
    var i := IndexOf(s, ' ');
    if i < 0 then None else Some(Field(s[i + 1..], s[..i]))
  }

  function ReadFields(s: string): Option<seq<Field>>
    decreases |s|
  {
    var i := IndexOf(s, ',');
    if i < 0 then
      (match ReadField(s) case None => None case Some(f) => Some([f]))
    else
      match (ReadField(s[..i]), ReadFields(s[i + 1..]))
      case (Some(f), Some(rest)) => Some([f] + rest)
      case _ => None
  }

  function ReadBody(body: string): Option<seq<Field>> {
    if body == "" then Some([]) else ReadFields(body)
  }

  /** One text after the other, each with its fields in parentheses. */
  function ReadStructs(s: string): Option<seq<Struct>>
    decreases |s|
  {
    if s == "" then Some([])
    else
      var open := IndexOf(s, '(');
      var close := IndexOf(s, ')');
      if !(0 <= open < close) then None
      else
        var body := s[open + 1..close];
        match (ReadBody(body), ReadStructs(s[close + 1..]))
        case (Some(fields), Some(rest)) => Some([Struct(s[..open], fields)] + rest)
        case _ => None
  }

  // ---------- what can be read ----------

  /** No character that the text itself uses. */
  predicate Clean(s: string) {
    ' ' !in s && ',' !in s && '(' !in s && ')' !in s
  }

  predicate CleanFields(fields: seq<Field>) {
    forall i :: 0 <= i < |fields| ==> Clean(fields[i].typ) && Clean(fields[i].name)
  }

  predicate CleanTypes(types: Types) {
    forall n :: n in types ==> Clean(n) && CleanFields(types[n])
  }

  lemma CutAt(a: string, c: char, b: string)
    requires c !in a
    ensures IndexOf(a + [c] + b, c) == |a|
    ensures (a + [c] + b)[..|a|] == a && (a + [c] + b)[|a| + 1..] == b
  {
    var s := a + [c] + b;
    assert s[|a|] == c;
    var i := IndexOf(s, c);
    assert forall k :: 0 <= k < |a| ==> s[k] == a[k] && a[k] != c;
    forall j | |a| < j <= |s|
      ensures c in s[..j]
    {
      assert s[..j][|a|] == c;
    }
  }

  lemma NotThere(s: string, c: char)
    requires c !in s
    ensures IndexOf(s, c) == -1
  {
  }

  lemma ReadFieldText(f: Field)
    requires Clean(f.typ) && Clean(f.name)
    ensures ReadField(FieldText(f)) == Some(f)
    ensures ',' !in FieldText(f) && '(' !in FieldText(f) && ')' !in FieldText(f) && FieldText(f) != ""
  {
    CutAt(f.typ, ' ', f.name);
  }

  /** The text of the fields from the front; the encoder joins them from the back. */
  lemma {:induction false} FieldTextsFront(f: Field, rest: seq<Field>)
    ensures FieldTexts([f] + rest) == FieldText(f) + if rest == [] then "" else "," + FieldTexts(rest)
    decreases |rest|
  {
    hide FieldTexts, FieldText;
    var all := [f] + rest;
    OneField(f);
    if rest == [] {
      assert all == [f] && FieldText(f) + "" == FieldText(f);
    } else {
      var init, last := rest[..|rest| - 1], rest[|rest| - 1];
      FieldTextsFront(f, init);
      assert all[..|all| - 1] == [f] + init && all[|all| - 1] == last;
      LastField(all);
      LastField(rest);
      var tail := "," + FieldText(last);
      if init == [] {
        assert rest == [last] && FieldText(f) + "" == FieldText(f);
        OneField(last);
      } else {
        ConcatGroups(FieldText(f), "," + FieldTexts(init), tail);
        ConcatGroups(",", FieldTexts(init), tail);
      }
    }
  }

  lemma OneField(f: Field)
    ensures FieldTexts([f]) == FieldText(f)
  {
    assert [f][..0] == [] && FieldTexts([]) == "";
    assert "" + ("" + FieldText(f)) == FieldText(f);
  }

  lemma LastField(fields: seq<Field>)
    requires fields != []
    ensures var n := |fields| - 1;
            FieldTexts(fields) == FieldTexts(fields[..n]) + ((if n > 0 then "," else "") + FieldText(fields[n]))
  {
  }

  /** The characters of the fields' text that the reader cuts at elsewhere. */
  lemma {:induction false} FieldTextsClean(fields: seq<Field>)
    requires CleanFields(fields)
    ensures '(' !in FieldTexts(fields) && ')' !in FieldTexts(fields)
    ensures fields != [] ==> FieldTexts(fields) != ""
    decreases |fields|
  {
    if fields != [] {
      FieldTextsClean(fields[..|fields| - 1]);
      ReadFieldText(fields[|fields| - 1]);
      LastField(fields);
    }
  }

  lemma ReadLastField(s: string, f: Field)
    requires ',' !in s && ReadField(s) == Some(f)
    ensures ReadFields(s) == Some([f])
  {
    hide ReadField;
    NotThere(s, ',');
  }

  lemma ReadNextField(s: string, rest: string, f: Field, fields: seq<Field>)
    requires ',' !in s && ReadField(s) == Some(f) && ReadFields(rest) == Some(fields)
    ensures ReadFields(s + [','] + rest) == Some([f] + fields)
  {
    hide ReadField;
    CutAt(s, ',', rest);
  }

  lemma {:induction false} ReadFieldTexts(fields: seq<Field>)
    requires CleanFields(fields) && fields != []
    ensures ReadFields(FieldTexts(fields)) == Some(fields)
    decreases |fields|
  {
    hide FieldTexts, ReadField, ReadFields, FieldText;
    var f, rest := fields[0], fields[1..];
    assert fields == [f] + rest;
    FieldTextsFront(f, rest);
    ReadFieldText(f);
    if rest == [] {
      OneField(f);
      assert fields == [f];
      ReadLastField(FieldText(f), f);
    } else {
      ReadFieldTexts(rest);
      ConcatGroups(FieldText(f), ",", FieldTexts(rest));
      ReadNextField(FieldText(f), FieldTexts(rest), f, rest);
    }
  }

  lemma {:induction false} ReadNextStruct(s: string, open: nat, close: nat)
    requires open < close < |s| && IndexOf(s, '(') == open && IndexOf(s, ')') == close
    requires ReadBody(s[open + 1..close]).Some? && ReadStructs(s[close + 1..]).Some?
    ensures ReadStructs(s) ==
            Some([Struct(s[..open], ReadBody(s[open + 1..close]).value)] + ReadStructs(s[close + 1..]).value)
  {
    hide ReadBody, IndexOf;
  }

  lemma CutStruct(name: string, body: string, rest: string)
    requires '(' !in name && ')' !in name && ')' !in body
    ensures var s, close := name + ['('] + (body + [')'] + rest), |name| + 1 + |body|;
            && IndexOf(s, '(') == |name| && IndexOf(s, ')') == close < |s|
            && s[..|name|] == name && s[|name| + 1..close] == body && s[close + 1..] == rest
  {
    var s, front := name + ['('] + (body + [')'] + rest), name + ['('] + body;
    CutAt(name, '(', body + [')'] + rest);
    ConcatGroups(name + ['('], body, [')'] + rest);
    ConcatGroups(name + ['('] + body, [')'], rest);
    ConcatGroups(body, [')'], rest);
    CutAt(front, ')', rest);
    assert s == front + [')'] + rest;
    assert s[..|front|] == front && front[|name| + 1..] == body;
  }

  /** The text of a struct in front of others is read as that struct. */
  lemma ReadEncodeType(name: string, fields: seq<Field>, rest: string)
    requires Clean(name) && CleanFields(fields) && ReadStructs(rest).Some?
    ensures ReadStructs(EncodeType(name, fields) + rest) == Some([Struct(name, fields)] + ReadStructs(rest).value)
  {
    hide FieldTexts, ReadFields, ReadStructs;
    var body := FieldTexts(fields);
    FieldTextsClean(fields);
    assert EncodeType(name, fields) + rest == name + ['('] + (body + [')'] + rest);
    NoFields();
    if fields != [] {
      ReadFieldTexts(fields);
    }
    CutStruct(name, body, rest);
    ReadNextStruct(name + ['('] + (body + [')'] + rest), |name|, |name| + 1 + |body|);
  }

  lemma NoFields()
    ensures FieldTexts([]) == ""
  {
  }

  /** Structs with the same text have the same name and the same fields in the same order. */
  lemma EncodeTypeIsInjective(a: string, fs: seq<Field>, b: string, gs: seq<Field>)
    requires Clean(a) && CleanFields(fs) && Clean(b) && CleanFields(gs) && EncodeType(a, fs) == EncodeType(b, gs)
    ensures a == b && fs == gs
  {
    hide EncodeType;
    ReadNothing();
    ReadEncodeType(a, fs, "");
    ReadEncodeType(b, gs, "");
    assert [Struct(a, fs)][0] == Struct(a, fs) && [Struct(a, fs)] + [] == [Struct(a, fs)];
    assert [Struct(b, gs)][0] == Struct(b, gs) && [Struct(b, gs)] + [] == [Struct(b, gs)];
  }

  lemma ReadNothing()
    ensures ReadStructs("") == Some([])
  {
  }

  function StructsOf(types: Types, names: seq<string>): (ss: seq<Struct>)
    requires forall n :: n in names ==> n in types
    ensures |ss| == |names| && forall i :: 0 <= i < |ss| ==> ss[i] == Struct(names[i], types[names[i]])
  {
    seq(|names|, i requires 0 <= i < |names| => Struct(names[i], types[names[i]]))
  }

  lemma LastType(types: Types, names: seq<string>)
    requires names != [] && forall n :: n in names ==> n in types
    ensures var k := |names| - 1;
            EncodeAll(types, names) == EncodeAll(types, names[..k]) + EncodeType(names[k], types[names[k]])
  {
  }

  lemma {:induction false} EncodeAllFront(types: Types, names: seq<string>)
    requires names != [] && forall n :: n in names ==> n in types
    ensures EncodeAll(types, names) == EncodeType(names[0], types[names[0]]) + EncodeAll(types, names[1..])
    decreases |names|
  {
    hide EncodeType, EncodeAll;
    var k := |names| - 1;
    LastType(types, names);
    NoNames(types);
    if k == 0 {
      assert names[..0] == [] && names[1..] == [];
      var text := EncodeType(names[0], types[names[0]]);
      assert "" + text == text == text + "";
    } else {
      EncodeAllFront(types, names[..k]);
      LastType(types, names[1..]);
      assert names[..k][1..] == names[1..][..k - 1];
      ConcatGroups(EncodeType(names[0], types[names[0]]), EncodeAll(types, names[..k][1..]),
              EncodeType(names[k], types[names[k]]));
    }
  }

  lemma NoNames(types: Types)
    ensures EncodeAll(types, []) == ""
  {
  }

  lemma {:induction false} ReadEncodeAll(types: Types, names: seq<string>)
    requires CleanTypes(types) && forall n :: n in names ==> n in types
    ensures ReadStructs(EncodeAll(types, names)) == Some(StructsOf(types, names))
    decreases |names|
  {
    hide EncodeType, EncodeAll;
    ReadNothing();
    NoNames(types);
    if names == [] {
      assert StructsOf(types, []) == [];
    } else {
      var first := names[0];
      assert first in names && forall n :: n in names[1..] ==> n in names;
      EncodeAllFront(types, names);
      ReadEncodeAll(types, names[1..]);
      ReadEncodeType(first, types[first], EncodeAll(types, names[1..]));
      assert StructsOf(types, names) == [Struct(first, types[first])] + StructsOf(types, names[1..]);
    }
  }

  /**
   * The full text of a type, read back, is the type with its fields, then every type that it refers to,
   * directly or not, with its fields, in ascending order of names.
   */
  lemma FullTextReads(types: Types, name: string, text: string) returns (st: seq<string>)
    requires CleanTypes(types) && name in types && IsEncodeType(types, name, text)
    ensures IsListingBelow(GraphOf(types), name, st) && forall y :: y in st ==> y in types
    ensures ReadStructs(text) == Some([Struct(name, types[name])] + StructsOf(types, st))
  {
    hide EncodeType, EncodeAll, GraphOf, IsListingBelow;
    st :| IsListingBelow(GraphOf(types), name, st) && (forall y :: y in st ==> y in types) &&
          text == EncodeType(name, types[name]) + EncodeAll(types, st);
    ReadEncodeAll(types, st);
    ReadEncodeType(name, types[name], EncodeAll(types, st));
  }

  // ---------- what cannot be read ----------

  const ONE_FIELD := [Field("b,bool d", "bool")]
  const TWO_FIELDS := [Field("b", "bool"), Field("d", "bool")]

  /**
   * The constructor does not look at the names of fields: one field whose name holds a comma has the
   * text of two fields, and both types are well-formed.
   */
  lemma UncleanNamesCollide(name: string, names: set<string>)
    requires name != "bool"
    ensures EncodeType(name, ONE_FIELD) == EncodeType(name, TWO_FIELDS) && ONE_FIELD != TWO_FIELDS
    ensures FieldsOk(names, name, ONE_FIELD) && FieldsOk(names, name, TWO_FIELDS)
  {
    hide FieldTexts, BaseEncoder, BaseType;
    OneField(ONE_FIELD[0]);
    TwoFields(TWO_FIELDS[0], TWO_FIELDS[1]);
    assert FieldText(ONE_FIELD[0]) == "bool b,bool d";
    assert FieldText(TWO_FIELDS[0]) == "bool b" && FieldText(TWO_FIELDS[1]) == "bool d";
    assert |ONE_FIELD| != |TWO_FIELDS|;
    NamedBaseType("bool");
    ArrayBase("bool", "");
    assert TWO_FIELDS[0].name != TWO_FIELDS[1].name;
  }

  // ---------- what is refused ----------

  /** A name that stands twice, a type that is not known, and a struct inside itself are not accepted. */
  lemma Refused(types: Types, primary: string, name: string, i: nat, j: nat)
    requires name in types && i < |types[name]|
    ensures j < i && types[name][j].name == types[name][i].name ==> !Accepted(types, primary)
    ensures var base := BaseType(types[name][i].typ);
            base == "" || base == name || (base !in types && BaseEncoder(base) != IsBase) ==> !Accepted(types, primary)
  {
    hide BaseEncoder, BaseType, GraphOf, IsOnlySource, CycleFrom;
    if Accepted(types, primary) {
      assert FieldsOk(types.Keys, name, types[name]);
      assert FieldOk(types.Keys, name, types[name][i]);
    }
  }

  // ---------- the example of EIP-712 ----------

  const PERSON := [Field("name", "string"), Field("wallet", "address")]
  const MAIL := [Field("from", "Person"), Field("to", "Person"), Field("contents", "string")]

  lemma TwoFields(f: Field, g: Field)
    ensures FieldTexts([f, g]) == FieldText(f) + ("," + FieldText(g))
  {
    hide FieldTexts, FieldText;
    assert [f, g] == [f] + [g];
    FieldTextsFront(f, [g]);
    OneField(g);
  }

  lemma ThreeFields(f: Field, g: Field, h: Field)
    ensures FieldTexts([f, g, h]) == FieldText(f) + ("," + (FieldText(g) + ("," + FieldText(h))))
  {
    hide FieldTexts, FieldText;
    assert [f, g, h] == [f] + [g, h];
    FieldTextsFront(f, [g, h]);
    TwoFields(g, h);
  }

  lemma MailFieldTexts()
    ensures FieldText(MAIL[0]) == "Person from" && FieldText(MAIL[1]) == "Person to"
    ensures FieldText(MAIL[2]) == "string contents"
    ensures FieldText(PERSON[0]) == "string name" && FieldText(PERSON[1]) == "address wallet"
  {
  }

  lemma JoinPerson()
    ensures "string name" + ("," + "address wallet") == "string name,address wallet"
  {
  }

  lemma MailPieces()
    ensures "Mail" + "(" + "Person from" + "," == "Mail(Person from,"
    ensures "Person to" + "," == "Person to," && "string contents" + ")" == "string contents)"
  {
    assert "Mail" + "(" == "Mail(";
  }

  lemma MailText()
    ensures EncodeType("Mail", MAIL) == "Mail(Person from," + "Person to," + "string contents)"
  {
    hide FieldTexts, FieldText;
    ThreeFields(MAIL[0], MAIL[1], MAIL[2]);
    MailFieldTexts();
    MailPieces();
    RegroupFields("Mail" + "(", "Person from", "Person to", "string contents");
  }

  lemma RegroupFields(open: string, a: string, b: string, c: string)
    ensures open + (a + ("," + (b + ("," + c)))) + ")" == open + a + "," + (b + ",") + (c + ")")
  {
  }

  lemma PersonText()
    ensures EncodeType("Person", PERSON) == "Person(string name,address wallet)"
  {
    hide FieldTexts, FieldText;
    TwoFields(PERSON[0], PERSON[1]);
    MailFieldTexts();
    JoinPerson();
  }
}
