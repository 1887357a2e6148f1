/** The minimal and the full format of a parameter, and when their text is read back as the parameter. */
module AbiFullFormat {
  import opened Wrappers
  import opened Bytes
  import opened Decimal
  import opened Sequences
  import opened AbiLexer
  import opened AbiTokenString
  import opened AbiParamType
  import opened AbiBasicType
  import opened AbiRoundTrip
  import opened AbiSighash
  import opened AbiFullText

  datatype Style = Minimal | Full

  // ---------- printing ----------

  /** `format("minimal")` and `format("full")`. */
  function FormatIn(style: Style, p: ParamType): string
    decreases p, 1
  {
    CoreIn(style, p) + Behind(style, p)
  }

  /** The type, without `indexed` and name. */
  function CoreIn(style: Style, p: ParamType): string
    decreases p, 0
  {
    match p
    case Basic(typ, _, _) => typ
    case Array(_, child, length, _, _) => FormatIn(style, child) + LengthText(length)
    case Tuple(typ, components, _, _) => typ + "(" + JoinIn(style, components) + ")"
  }

  function Behind(style: Style, p: ParamType): string {
    (if p.indexed == Some(true) then " indexed" else "") + (if style == Full && p.name != "" then " " + p.name else "")
  }

  function JoinIn(style: Style, ps: seq<ParamType>): string
    decreases ps, 2
  {
    if ps == [] then ""
    else if |ps| == 1 then FormatIn(style, ps[0])
    else FormatIn(style, ps[0]) + (if style == Full then ", " else ",") + JoinIn(style, ps[1..])
  }

  /** What the style says of a parameter. */
  function Shown(style: Style, p: ParamType): ParamType {
    match style case Full => p case Minimal => p.(name := "")
  }

  // ---------- what the parser returns ----------

  /** One opening bracket and what stands behind it. */
  predicate IsPiece(s: string) {
    s != "" && s[0] == '[' && '[' !in s[1..]
  }

  /** Arrays have bare children and add one piece to the text of their type. */
  predicate CoreStored(p: ParamType)
    decreases p
  {
    Printable(p) &&
    match p
    case Basic(_, _, _) => true
    case Tuple(typ, components, _, _) => typ == "tuple(" + FormatAll(components) + ")"
    case Array(typ, child, length, _, _) =>
      && -1 <= length && child.name == "" && child.indexed == None && CoreStored(child)
      && |child.typ| < |typ| && typ[..|child.typ|] == child.typ && IsPiece(typ[|child.typ|..])
  }

  predicate Stored(p: ParamType) {
    CoreStored(p) && (p.name == "" || IsName(p.name)) && (p.indexed == None || p.indexed == Some(true))
  }

  predicate TupleFree(p: ParamType)
    decreases p
  {
    match p
    case Basic(_, _, _) => true
    case Tuple(_, _, _, _) => false
    case Array(_, child, _, _, _) => TupleFree(child)
  }

  // ---------- without tuples ----------

  lemma {:induction false} BareCore(style: Style, p: ParamType)
    requires CoreStored(p) && TupleFree(p)
    ensures CoreIn(style, p) == Format(p) == Normal(p).typ
    decreases p
  {
    hide Printable, LengthText, IsPiece;
    match p {
      case Basic(_, _, _) =>
      case Tuple(_, _, _, _) =>
      case Array(_, child, _, _, _) =>
        BareCore(style, child);
        assert Behind(style, child) == "" + "";
        assert Format(child) + "" == Format(child);
    }
  }

  lemma NoLater(a: string, x: string, i: nat)
    requires IsPiece(x) && i < |a + x| && (a + x)[i] == '['
    ensures i <= |a|
  {
    assert forall k :: |a| < k < |a + x| ==> (a + x)[k] == x[1..][k - |a| - 1];
  }

  lemma SamePieces(a: string, x: string, b: string, y: string)
    requires a + x == b + y && IsPiece(x) && IsPiece(y)
    ensures a == b && x == y
  {
    assert (a + x)[|a|] == '[' && (b + y)[|b|] == '[';
    NoLater(a, x, |b|);
    NoLater(b, y, |a|);
    assert a == (a + x)[..|a|] && b == (b + y)[..|b|] && x == (a + x)[|a|..] && y == (b + y)[|b|..];
  }

  lemma LengthIsPiece(length: int)
    ensures IsPiece(LengthText(length))
  {
    assert LengthText(length)[1..] == (if length < 0 then "" else Print(length)) + "]";
  }

  function Bare(p: ParamType): ParamType {
    p.(name := "", indexed := None)
  }

  /** A type without tuples is its own normal form exactly if its type text is its sighash text. */
  lemma {:induction false} NormalIff(p: ParamType)
    requires CoreStored(p) && TupleFree(p)
    ensures Normal(p) == Bare(p) <==> p.typ == Format(p)
    decreases p
  {
    hide Printable, LengthText, IsPiece;
    BareCore(Full, p);
    match p {
      case Basic(_, _, _) =>
      case Tuple(_, _, _, _) =>
      case Array(typ, child, length, _, _) =>
        BareCore(Full, child);
        NormalIff(child);
        if typ == Format(p) {
          LengthIsPiece(length);
          assert typ == child.typ + typ[|child.typ|..];
          SamePieces(child.typ, typ[|child.typ|..], Format(child), LengthText(length));
        }
    }
  }

  function Modifiers(p: ParamType): (ws: seq<string>)
  {
    if p.indexed == Some(true) then ["indexed"] else []
  }

  function ShownName(style: Style, p: ParamType): string {
    if style == Full then p.name else ""
  }

  lemma WordsOf(ws: seq<string>, name: string)
    requires ws == [] || ws == ["indexed"]
    ensures Words(ws + NameWords(name)) == (if ws == [] then "" else " indexed") + (if name == "" then "" else " " + name)
  {
    var all := ws + NameWords(name);
    assert Words([]) == "";
    if name != "" {
      assert [name][1..] == [] && Words([name]) == " " + name + "";
    }
    if ws == [] {
      assert all == NameWords(name);
    } else {
      assert all[0] == "indexed" && all[1..] == NameWords(name);
      assert Words(all) == " " + "indexed" + Words(NameWords(name));
    }
  }

  lemma PlainFormat(style: Style, p: ParamType)
    requires Stored(p) && TupleFree(p)
    ensures FormatIn(style, p) == Format(p) + Words(Modifiers(p) + NameWords(ShownName(style, p)))
    ensures Decorated(p, ShownName(style, p), p.indexed == Some(true)) == Shown(style, p) <==> p.typ == Format(p)
  {
    hide CoreIn, Format, CoreStored, TupleFree, Words, IsName, NameWords, Normal;
    BareCore(style, p);
    NormalIff(p);
    WordsOf(Modifiers(p), ShownName(style, p));
  }

  lemma PrintableBare(p: ParamType)
    requires CoreStored(p)
    ensures Printable(p)
  {
  }

  /** Without tuples, the text is that of the type with its modifier and its name. */
  lemma TupleFreeIsRead(style: Style, p: ParamType)
    requires Stored(p) && TupleFree(p)
    ensures FromText(FormatIn(style, p), true) == Ok(Decorated(p, ShownName(style, p), p.indexed == Some(true)))
  {
    hide FormatIn, Format, Printable, FromText, Words, IsName, CoreStored, Decorated, NameWords;
    PrintableBare(p);
    PlainFormat(style, p);
    DecoratedText(p, Modifiers(p), ShownName(style, p), true);
  }

  // ---------- with a tuple ----------

  /** A tuple inside arrays: its text goes on with a second list in parentheses. */
  lemma {:induction false} SecondList(style: Style, p: ParamType) returns (t: ParamType, rest: string)
    requires CoreStored(p) && !TupleFree(p)
    ensures t.Tuple? && Printable(t) && FormatIn(style, p) == "tuple" + (Format(t) + ("(" + rest))
    decreases p
  {
    hide Printable, LengthText, JoinIn, Behind;
    if p.Tuple? {
      t := p;
      rest := JoinIn(style, p.components) + ")" + Behind(style, p);
      TupleText(FormatAll(p.components), JoinIn(style, p.components), Behind(style, p));
    } else {
      var inner;
      t, inner := SecondList(style, p.child);
      rest := inner + LengthText(p.length) + Behind(style, p);
      ArrayText(Format(t), inner, LengthText(p.length), Behind(style, p));
    }
  }

  lemma TupleText(list: string, again: string, behind: string)
    ensures ("tuple(" + list + ")") + "(" + again + ")" + behind ==
            "tuple" + (("(" + list + ")") + ("(" + (again + ")" + behind)))
  {
    assert "tuple(" == "tuple" + "(";
  }

  lemma ArrayText(text: string, inner: string, length: string, behind: string)
    ensures ("tuple" + (text + ("(" + inner))) + length + behind == "tuple" + (text + ("(" + (inner + length + behind)))
  {
  }

  /** The keyword and a closed list up to n, and another parenthesis there. */
  ghost predicate Front(toks: seq<Token>, n: nat) {
    && 3 <= n < |toks|
    && toks[0].kind == Keyword && toks[0].text == "tuple"
    && toks[1].kind == OpenParen && toks[1].partner == n - 1
    && toks[n].kind == OpenParen
  }

  /** What stands in front of an open list is not touched any more. */
  lemma ApplyKeepsFront(s: Lexer, u: Unit, n: nat)
    requires Reachable(s) && Front(s.tokens, n) && (u.Simple? ==> IsSimple(u.c)) && Apply(s, u).Ok?
    ensures Front(Apply(s, u).value.tokens, n)
  {
    hide TextsOk, WordKind, IsKeyword, Linked, Unlinked;
    if u == Simple(')') {
      var d := |s.brackets| - 1;
      assert StackOk(s, d);
    } else if u == Simple(',') {
      var d := |s.commas| - 1;
      assert StackOk(s, d);
    } else if u == Simple(']') {
      BracketKeepsFront(s, n);
    }
  }

  lemma BracketKeepsFront(s: Lexer, n: nat)
    requires TextsOk(s.tokens) && Front(s.tokens, n) && CloseBracket(s).Ok?
    ensures Front(CloseBracket(s).value.tokens, n)
  {
    hide Parse, Print;
  }

  lemma {:induction false} RunKeepsFront(text: string, off: nat, s: Lexer, n: nat)
    requires off <= |text| && Reachable(s) && Front(s.tokens, n) && Run(text, off, s).Ok?
    ensures Front(Run(text, off, s).value.tokens, n)
    decreases |text| - off
  {
    hide Inv, TextsOk, Front, Apply, NextUnit;
    if off < |text| {
      var u := NextUnit(text, SkipSpace(text, off)).value;
      ApplyKeepsFront(s, u.0, n);
      ApplyKeepsInv(s, u.0);
      RunKeepsFront(text, u.1, Apply(s, u.0).value, n);
    }
  }

  /** The second list is left over. */
  lemma FrontIsRefused(toks: seq<Token>, n: nat, allowIndexed: bool)
    requires WellLinked(toks) && Front(toks, n)
    ensures ParseType(toks, allowIndexed) == Err
  {
    hide WellLinked, Segments, ParseAll;
    assert Keywords(toks, 0, TUPLE_KEYWORD, {}) == Ok((1, {"tuple"})) by {
      assert Keywords(toks, 1, TUPLE_KEYWORD, {} + {"tuple"}) == Ok((1, {} + {"tuple"}));
      assert {} + {"tuple"} == {"tuple"};
    }
    if ParseBase(toks).Ok? {
      assert ParseBase(toks).value.1 == n;
      assert BracketsEnd(toks, n) == n;
      assert Keywords(toks, n, MODIFIERS, {}) == Ok((n, {}));
    }
  }

  lemma TupleWord()
    ensures IsWord("tuple") && WordKind("tuple") == Keyword && !IsIdChar('(')
  {
  }

  lemma TupleTextParts(t: ParamType, rest: string)
    requires t.Tuple?
    ensures var text, n := "tuple" + (Format(t) + ("(" + rest)), |Format(t)|;
            && StandsAt(text, 0, "tuple") && StandsAt(text, 5, Format(t)) && 5 + n < |text| && text[5 + n] == '('
            && WordStops(text, 5) && WordStops(text, 5 + n)
  {
    hide StandsAt, IsIdChar;
    var text, more := "tuple" + (Format(t) + ("(" + rest)), "(" + rest;
    TupleWord();
    TwoParts("tuple", Format(t) + more);
    StandsAtConcat(text, 5, Format(t), more);
    StandsAtItem(text, 5 + |Format(t)|, more, 0);
    assert Format(t)[0] == '(';
    StandsAtItem(text, 5, Format(t), 0);
  }

  lemma TwoListsRefused(t: ParamType, rest: string, allowIndexed: bool)
    requires t.Tuple? && Printable(t)
    ensures FromText("tuple" + (Format(t) + ("(" + rest)), allowIndexed) == Err
  {
    hide Run, Inv, Format, Printable, Layout, StandsAt, WordStops, Reachable, FromText, Front, Open;
    var text := "tuple" + (Format(t) + ("(" + rest));
    TupleTextParts(t, rest);
    StepTuple(text);
    var s1 := PushToken(START, Plain(Keyword, "tuple", 0));
    var s2 := LexFormat(t, text, 5, s1);
    StepOpen(text, 5 + |Format(t)|, s2);
    ListIsFront(s1, s2, t);
    FrontRefused(text, 5 + |Format(t)| + 1, Open(s2), |s2.tokens|, allowIndexed);
  }

  lemma FrontRefused(text: string, off: nat, s: Lexer, n: nat, allowIndexed: bool)
    requires Reachable(START) && Reachable(s) && off <= |text| && Run(text, 0, START) == Run(text, off, s)
    requires Front(s.tokens, n)
    ensures FromText(text, allowIndexed) == Err
  {
    hide Run, Inv, WellLinked, ParseType, Reachable, FromText, Lex, Front;
    if Run(text, off, s).Ok? {
      var s' := Run(text, off, s).value;
      RunKeepsFront(text, off, s, n);
      LexIs(text, s');
      FromTextIs(text, s'.tokens, allowIndexed);
      FrontIsRefused(s'.tokens, n, allowIndexed);
    } else {
      RunFails(text, allowIndexed);
    }
  }

  lemma StepTuple(text: string)
    requires StandsAt(text, 0, "tuple") && WordStops(text, 5)
    ensures var s1 := PushToken(START, Plain(Keyword, "tuple", 0));
            Reachable(START) && Reachable(s1) && 5 <= |text| && Run(text, 0, START) == Run(text, 5, s1)
  {
    assert Reachable(START);
    hide Run, Inv, StandsAt, WordStops, Reachable;
    TupleWord();
    StepWord(text, 0, START, "tuple");
  }

  lemma ListIsFront(s1: Lexer, s2: Lexer, t: ParamType)
    requires t.Tuple? && s1.tokens == [Plain(Keyword, "tuple", 0)] && s1.tokens <= s2.tokens
    requires Layout(s2.tokens, 1, |s2.tokens|, t)
    ensures Front(Open(s2).tokens, |s2.tokens|)
  {
    hide ListLayout;
    assert s2.tokens[0] == s1.tokens[0];
    assert Open(s2).tokens[1] == s2.tokens[1] && Open(s2).tokens[0] == s2.tokens[0];
  }

  lemma RunFails(text: string, allowIndexed: bool)
    requires Reachable(START) && Run(text, 0, START).Err?
    ensures FromText(text, allowIndexed) == Err
  {
    hide Run, Inv;
  }

  lemma TuplesAreRefused(style: Style, p: ParamType, allowIndexed: bool)
    requires CoreStored(p) && !TupleFree(p)
    ensures FromText(FormatIn(style, p), allowIndexed) == Err
  {
    hide FormatIn, Format, Printable, FromText, CoreStored, TupleFree;
    var t, rest := SecondList(style, p);
    TwoListsRefused(t, rest, allowIndexed);
  }

  // ---------- every parameter that was read ----------

  /** Identifiers are words that are neither keywords nor types; brackets stand at the start of their token only. */
  predicate WordOk(t: Token) {
    (t.kind == Id ==> IsName(t.text)) && (t.kind == Bracket ==> IsPiece(t.text))
  }

  ghost predicate WordsOk(toks: seq<Token>) {
    forall i :: 0 <= i < |toks| ==> WordOk(toks[i])
  }

  lemma UnitIsWord(text: string, i: nat)
    requires i <= |text| && NextUnit(text, i).Ok? && NextUnit(text, i).value.0.Word?
    ensures IsWord(NextUnit(text, i).value.0.word)
  {
    hide IsIdStart;
    StartIsChar(text[i]);
    var w := NextUnit(text, i).value.0.word;
    assert forall k :: 0 <= k < |w| ==> w[k] == text[i + k];
  }

  lemma StartIsChar(c: char)
    ensures IsIdStart(c) ==> IsIdChar(c)
  {
  }

  lemma MorePiece(s: string, more: string)
    requires IsPiece(s) && '[' !in more
    ensures IsPiece(s + more)
  {
    assert (s + more)[1..] == s[1..] + more;
  }

  lemma ApplyKeepsWords(s: Lexer, u: Unit)
    requires Reachable(s) && WordsOk(s.tokens) && (u.Simple? ==> IsSimple(u.c)) && (u.Word? ==> IsWord(u.word))
    requires Apply(s, u).Ok?
    ensures WordsOk(Apply(s, u).value.tokens)
  {
    hide IsWord, IsKeyword, IsTypeText, Parse, Linked, Unlinked, Closed, Unclosed, IsPiece;
    if u == Simple(')') {
      assert StackOk(s, |s.brackets| - 1);
    } else if u == Simple(',') {
      assert StackOk(s, |s.commas| - 1);
    } else if u == Simple(']') {
      BracketKeepsWords(s);
    } else if u == Simple('[') {
      OpenPiece();
    }
  }

  lemma OpenPiece()
    ensures IsPiece("[")
  {
  }

  lemma BracketKeepsWords(s: Lexer)
    requires TextsOk(s.tokens) && WordsOk(s.tokens) && CloseBracket(s).Ok?
    ensures WordsOk(CloseBracket(s).value.tokens)
  {
    hide IsName, IsTypeText, Parse, IsPiece;
    var n := |s.tokens|;
    if s.tokens[n - 1].kind == Number {
      var digits := s.tokens[n - 1].text;
      assert TextOk(s.tokens[n - 1]);
      MorePiece(s.tokens[n - 2].text, digits + "]");
    } else {
      MorePiece(s.tokens[n - 1].text, "]");
    }
  }

  lemma {:induction false} RunKeepsWords(text: string, off: nat, s: Lexer)
    requires off <= |text| && Reachable(s) && WordsOk(s.tokens) && Run(text, off, s).Ok?
    ensures WordsOk(Run(text, off, s).value.tokens)
    decreases |text| - off
  {
    hide Inv, TextsOk, WordsOk, Apply, NextUnit, IsWord;
    if off < |text| {
      var i := SkipSpace(text, off);
      var u := NextUnit(text, i).value;
      if u.0.Word? {
        UnitIsWord(text, i);
      }
      ApplyKeepsWords(s, u.0);
      ApplyKeepsInv(s, u.0);
      RunKeepsWords(text, u.1, Apply(s, u.0).value);
    }
  }

  lemma LexWordsOk(text: string)
    requires Lex(text).Ok?
    ensures WordsOk(Lex(text).value)
  {
    assert Reachable(START);
    hide Run, Inv;
    RunKeepsWords(text, 0, START);
  }

  lemma {:induction false} WrapStored(toks: seq<Token>, from: nat, end: nat, p: ParamType)
    requires from <= end <= |toks| && TextsOk(toks) && WordsOk(toks) && CoreStored(p) && p.name == "" && p.indexed == None
    requires forall k :: from <= k < end ==> toks[k].kind == Bracket
    ensures var q := WrapAll(toks, from, end, p); CoreStored(q) && q.name == "" && q.indexed == None
    decreases end
  {
    hide CoreStored, TextOk, WordOk, WrapOne;
    if from < end {
      WrapStored(toks, from, end - 1, p);
      WrapOneStored(WrapAll(toks, from, end - 1, p), toks[end - 1]);
    }
  }

  lemma WrapOneStored(p: ParamType, bracket: Token)
    requires CoreStored(p) && p.name == "" && p.indexed == None && bracket.kind == Bracket && TextOk(bracket) && WordOk(bracket)
    ensures var q := WrapOne(p, bracket); CoreStored(q) && q.name == "" && q.indexed == None
  {
    hide IsPiece;
    PrintableBare(p);
    assert (p.typ + bracket.text)[..|p.typ|] == p.typ && (p.typ + bracket.text)[|p.typ|..] == bracket.text;
    PieceNotEmpty(bracket.text);
  }

  lemma PieceNotEmpty(s: string)
    requires IsPiece(s)
    ensures s != ""
  {
  }

  lemma BaseStored(toks: seq<Token>)
    requires WellLinked(toks) && TextsOk(toks) && ParseBase(toks).Ok?
    ensures var p := ParseBase(toks).value.0; CoreStored(p) && p.name == "" && p.indexed == None
  {
    hide WellLinked, ParseAll, VerifyBasicType, Keywords, FormatAll;
    BasePrintable(toks);
  }

  lemma NamedStored(p: ParamType, name: string, indexed: Option<bool>)
    requires CoreStored(p) && (name == "" || IsName(name)) && (indexed == None || indexed == Some(true))
    ensures Stored(p.(name := name, indexed := indexed))
  {
    hide IsPiece, IsName;
    PrintableBare(p);
    assert Printable(p.(name := name, indexed := indexed));
  }

  /** The parser returns such parameters only. */
  lemma ReadIsStored(text: string, allowIndexed: bool)
    requires FromText(text, allowIndexed).Ok?
    ensures Stored(FromText(text, allowIndexed).value)
  {
    hide Lex, WellLinked, ParseBase, CoreStored, TextsOk, Stored, IsName, Keywords;
    LexTextsOk(text);
    LexWordsOk(text);
    var toks := Lex(text).value;
    BaseStored(toks);
    var base := ParseBase(toks).value;
    var end := BracketsEnd(toks, base.1);
    WrapStored(toks, base.1, end, base.0);
    var k := Keywords(toks, end, MODIFIERS, {}).value.0;
    if KindAt(toks, k, Id) {
      assert WordOk(toks[k]);
    }
    var p := FromText(text, allowIndexed).value;
    NamedStored(WrapAll(toks, base.1, end, base.0), p.name, p.indexed);
  }

  lemma {:induction false} TupleTypeIsNotSighash(p: ParamType)
    requires CoreStored(p) && !TupleFree(p)
    ensures p.typ != Format(p)
    decreases p
  {
    hide Printable, LengthText, IsPiece;
    if p.Tuple? {
      assert p.typ[0] == 't' && Format(p)[0] == '(';
    } else {
      TupleTypeIsNotSighash(p.child);
      LengthIsPiece(p.length);
      var piece := p.typ[|p.child.typ|..];
      assert p.typ == p.child.typ + piece;
      if p.typ == Format(p) {
        SamePieces(p.child.typ, piece, Format(p.child), LengthText(p.length));
      }
    }
  }

  /**
   * A parameter that was read from any text is read back from its full text exactly if its type text is
   * its sighash text: that fails for every tuple, since its type text and its components are both
   * printed, and for brackets that were not closed, or closed twice. The minimal format loses the name.
   */
  lemma FullTextIff(text: string, allowIndexed: bool, style: Style)
    requires FromText(text, allowIndexed).Ok?
    ensures var p := FromText(text, allowIndexed).value;
            FromText(FormatIn(style, p), true) == Ok(Shown(style, p)) <==> p.typ == Format(p)
  {
    hide FromText, FormatIn, Format, CoreStored, IsName, Decorated;
    var p := FromText(text, allowIndexed).value;
    ReadIsStored(text, allowIndexed);
    if TupleFree(p) {
      TupleFreeIsRead(style, p);
      PlainFormat(style, p);
    } else {
      TuplesAreRefused(style, p, true);
      TupleTypeIsNotSighash(p);
    }
  }
}
