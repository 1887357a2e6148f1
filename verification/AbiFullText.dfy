/** Names, modifiers and `indexed` in the text of a parameter, and the full format, which prints them. */
module AbiFullText {
  import opened Wrappers
  import opened Bytes
  import opened Decimal
  import opened Sequences
  import opened AbiLexer
  import opened AbiTokenString
  import opened AbiParamType
  import opened AbiBasicType
  import opened AbiRoundTrip
  import opened AbiSighash

  // ---------- words behind a type ----------

  /** Words, each behind a space. */
  function Words(ws: seq<string>): string {
    if ws == [] then "" else " " + ws[0] + Words(ws[1..])
  }

  predicate IsWord(w: string) {
    w != "" && IsIdStart(w[0]) && forall k :: 0 <= k < |w| ==> IsIdChar(w[k])
  }

  function WordTokens(ws: seq<string>, depth: int): (toks: seq<Token>)
    ensures |toks| == |ws| && forall i :: 0 <= i < |ws| ==> toks[i] == Plain(WordKind(ws[i]), ws[i], depth)
  {
    seq(|ws|, i requires 0 <= i < |ws| => Plain(WordKind(ws[i]), ws[i], depth))
  }

  lemma StepSpace(text: string, off: nat, s: Lexer)
    requires Reachable(s) && off + 1 < |text| && text[off] == ' ' && !IsSpace(text[off + 1])
    ensures Run(text, off, s) == Run(text, off + 1, s)
  {
    hide Inv, NextUnit, Apply;
    assert SkipSpace(text, off + 1) == off + 1;
    assert SkipSpace(text, off) == off + 1;
  }

  lemma WordsFront(ws: seq<string>, text: string, off: nat)
    requires ws != [] && StandsAt(text, off, Words(ws)) && off + |Words(ws)| == |text|
    requires forall i :: 0 <= i < |ws| ==> IsWord(ws[i])
    ensures var e := off + 1 + |ws[0]|;
            && off + 1 < e <= |text| && text[off] == ' ' && StandsAt(text, off + 1, ws[0]) && text[off + 1] == ws[0][0]
            && StandsAt(text, e, Words(ws[1..])) && e + |Words(ws[1..])| == |text| && WordStops(text, e)
  {
    hide IsIdStart, StandsAt;
    var rest := Words(ws[1..]);
    StandsAtEnds(text, off, Words(ws));
    assert Words(ws) == " " + (ws[0] + rest);
    StandsAtConcat(text, off, " ", ws[0] + rest);
    StandsAtItem(text, off, " ", 0);
    StandsAtConcat(text, off + 1, ws[0], rest);
    StandsAtItem(text, off + 1, ws[0], 0);
    if rest != "" {
      WordsStart(ws[1..]);
      StandsAtItem(text, off + 1 + |ws[0]|, rest, 0);
    }
  }

  lemma WordsStart(ws: seq<string>)
    ensures Words(ws) != "" ==> Words(ws)[0] == ' '
    ensures !IsIdChar(' ')
  {
  }

  lemma NoSpace(c: char)
    requires IsIdStart(c)
    ensures !IsSpace(c)
  {
  }

  /** Each word adds one token. */
  lemma {:induction false} LexWords(ws: seq<string>, text: string, off: nat, s: Lexer) returns (s': Lexer)
    requires Reachable(s) && StandsAt(text, off, Words(ws)) && off + |Words(ws)| == |text|
    requires forall i :: 0 <= i < |ws| ==> IsWord(ws[i])
    ensures Reachable(s') && Run(text, off, s) == Ok(s')
    ensures s'.tokens == s.tokens + WordTokens(ws, |s.brackets|)
    decreases |ws|
  {
    hide Run, Inv, Reachable, StandsAt, WordKind, IsIdStart, IsIdChar, Words, WordStops;
    if ws == [] {
      NoWords();
      RunEnds(text, s);
      s' := s;
    } else {
      WordsFront(ws, text, off);
      NoSpace(ws[0][0]);
      StepSpace(text, off, s);
      StepWord(text, off + 1, s, ws[0]);
      var t := Plain(WordKind(ws[0]), ws[0], |s.brackets|);
      s' := LexWords(ws[1..], text, off + 1 + |ws[0]|, PushToken(s, t));
      FirstToken(s.tokens, ws, |s.brackets|);
    }
  }

  lemma FirstToken(toks: seq<Token>, ws: seq<string>, depth: int)
    requires ws != []
    ensures toks + [Plain(WordKind(ws[0]), ws[0], depth)] + WordTokens(ws[1..], depth) == toks + WordTokens(ws, depth)
  {
    hide WordKind;
  }

  lemma NoWords()
    ensures Words([]) == ""
  {
  }

  // ---------- parsing what is behind a type ----------

  ghost predicate NoneTwice(ws: seq<string>) {
    forall i, j :: 0 <= i < j < |ws| ==> ws[i] != ws[j]
  }

  ghost predicate AreModifiers(ws: seq<string>) {
    forall i :: 0 <= i < |ws| ==> ws[i] in MODIFIERS
  }

  lemma ModifierIsKeyword(w: string)
    requires w in MODIFIERS
    ensures IsWord(w) && WordKind(w) == Keyword
  {
  }

  /** From the i-th on, one of the words has been there before. */
  ghost predicate Repeats(ws: seq<string>, i: nat) {
    exists k :: i <= k < |ws| && ws[k] in ws[..k]
  }

  lemma RepeatsStep(ws: seq<string>, i: nat)
    requires i < |ws|
    ensures Repeats(ws, i) <==> ws[i] in ws[..i] || Repeats(ws, i + 1)
    ensures ws[..i + 1] == ws[..i] + [ws[i]]
  {
  }

  lemma NoRepeats(ws: seq<string>)
    ensures !Repeats(ws, |ws|) && ws[..|ws|] == ws
  {
  }

  /** The modifiers from the i-th on are consumed, unless one of them has been seen. */
  lemma {:induction false} KeywordsOver(toks: seq<Token>, n: nat, ws: seq<string>, i: nat, seen: set<string>)
    requires AreModifiers(ws) && i <= |ws| && n + |ws| <= |toks|
    requires forall k :: 0 <= k < |ws| ==> toks[n + k] == Plain(Keyword, ws[k], 0)
    requires n + |ws| < |toks| ==> toks[n + |ws|].kind != Keyword
    requires forall w :: w in seen <==> w in ws[..i]
    ensures Keywords(toks, n + i, MODIFIERS, seen) ==
            if Repeats(ws, i) then Err else Ok((n + |ws|, set w | w in ws))
    decreases |ws| - i
  {
    hide Repeats;
    if i == |ws| {
      NoRepeats(ws);
      assert seen == set w | w in ws;
    } else {
      assert ws[i] in MODIFIERS;
      KeywordNext(toks, n + i, MODIFIERS, seen);
      RepeatsStep(ws, i);
      if ws[i] !in seen {
        KeywordsOver(toks, n, ws, i + 1, seen + {ws[i]});
      }
    }
  }

  lemma {:induction false} KeywordNext(toks: seq<Token>, i: nat, allowed: set<string>, seen: set<string>)
    requires i < |toks| && toks[i].kind == Keyword && toks[i].text in allowed
    ensures Keywords(toks, i, allowed, seen) ==
            if toks[i].text in seen then Err else Keywords(toks, i + 1, allowed, seen + {toks[i].text})
  {
  }

  lemma TwiceIff(ws: seq<string>)
    ensures NoneTwice(ws) <==> !Repeats(ws, 0)
  {
    if k :| 0 <= k < |ws| && ws[k] in ws[..k] {
      var i :| 0 <= i < k && ws[..k][i] == ws[k];
      assert ws[i] == ws[k];
    }
    if i, j :| 0 <= i < j < |ws| && ws[i] == ws[j] {
      assert ws[..j][i] == ws[j];
    }
  }

  /** A word that can be a name: neither a keyword nor a type. */
  predicate IsName(w: string) {
    IsWord(w) && WordKind(w) == Id
  }

  function NameWords(name: string): seq<string> {
    if name == "" then [] else [name]
  }

  function Decorated(p: ParamType, name: string, isIndexed: bool): ParamType {
    Normal(p).(name := name, indexed := if isIndexed then Some(true) else None)
  }

  /** A type's layout, modifiers, and at most one name. */
  lemma ParseDecorated(toks: seq<Token>, n: nat, p: ParamType, ws: seq<string>, name: string, allowIndexed: bool)
    requires WellLinked(toks) && Printable(p) && AreModifiers(ws) && (name == "" || IsName(name))
    requires n <= |toks| && Layout(toks, 0, n, p) && toks[n..] == WordTokens(ws + NameWords(name), 0)
    ensures ParseType(toks, allowIndexed) ==
            if NoneTwice(ws) && ("indexed" in ws ==> allowIndexed) then Ok(Decorated(p, name, "indexed" in ws)) else Err
  {
    hide Layout, Printable, WellLinked, ParseBase, Normal, IsWord, NoneTwice, Keywords, BracketsEnd, Repeats;
    var base, m := ParseBaseLayout(toks, n, p);
    assert |toks| == n + |ws| + |NameWords(name)|;
    forall k | 0 <= k < |ws|
      ensures toks[n + k] == Plain(Keyword, ws[k], 0)
    {
      ModifierIsKeyword(ws[k]);
      assert toks[n..][k] == toks[n + k];
    }
    if name != "" {
      assert toks[n..][|ws|] == toks[n + |ws|];
    }
    BracketsStop(toks, m, n);
    KeywordsOver(toks, n, ws, 0, {});
    TwiceIff(ws);
    NormalHasNoName(p);
  }

  lemma {:induction false} BracketsStop(toks: seq<Token>, m: nat, n: nat)
    requires m <= n <= |toks| && (forall i :: m <= i < n ==> toks[i].kind == Bracket)
    requires n < |toks| ==> toks[n].kind != Bracket
    ensures BracketsEnd(toks, m) == n
    decreases n - m
  {
    if m < n {
      BracketsStop(toks, m + 1, n);
    }
  }

  // ---------- the text ----------

  lemma TwoParts(front: string, rest: string)
    ensures StandsAt(front + rest, 0, front) && StandsAt(front + rest, |front|, rest)
  {
    assert (front + rest)[0..|front|] == front && (front + rest)[|front|..|front| + |rest|] == rest;
  }

  lemma BehindType(front: string, ws: seq<string>)
    ensures var text := front + Words(ws);
            StandsAt(text, 0, front) && WordStops(text, |front|) && StandsAt(text, |front|, Words(ws))
  {
    hide Words, IsIdChar, StandsAt;
    TwoParts(front, Words(ws));
    WordsStart(ws);
    if Words(ws) != "" {
      assert (front + Words(ws))[|front|] == Words(ws)[0];
    }
  }

  lemma LayoutStays(toks: seq<Token>, n: nat, next: seq<Token>, p: ParamType)
    requires n == |toks| && Layout(toks, 0, n, p) && toks <= next
    ensures Layout(next, 0, n, p)
  {
    hide Layout;
    assert Stay(toks, 0, next);
    ItemStays(toks, 0, next, p);
  }

  lemma ModifiersAndName(ws: seq<string>, name: string)
    requires AreModifiers(ws) && (name == "" || IsName(name))
    ensures forall i :: 0 <= i < |ws + NameWords(name)| ==> IsWord((ws + NameWords(name))[i])
  {
    hide IsWord;
    var all := ws + NameWords(name);
    forall i | 0 <= i < |all|
      ensures IsWord(all[i])
    {
      if i < |ws| {
        ModifierIsKeyword(ws[i]);
      } else {
        assert all[i] == name;
      }
    }
  }

  lemma {:induction false} LexDecorated(p: ParamType, all: seq<string>) returns (toks: seq<Token>, n: nat)
    requires Printable(p) && forall i :: 0 <= i < |all| ==> IsWord(all[i])
    ensures Lex(Format(p) + Words(all)) == Ok(toks) && WellLinked(toks)
    ensures n <= |toks| && Layout(toks, 0, n, p) && toks[n..] == WordTokens(all, 0)
  {
    hide *;
    var text := Format(p) + Words(all);
    Started();
    BehindType(Format(p), all);
    var s := LexFormat(p, text, 0, START);
    var s' := LexWords(all, text, |Format(p)|, s);
    LexIs(text, s');
    toks, n := s'.tokens, |s.tokens|;
    LayoutStays(s.tokens, n, toks, p);
  }

  /**
   * A printable type followed by modifiers and a name is that type with that name, and indexed if one of
   * them says so. It is refused exactly if a modifier stands twice or `indexed` is not allowed.
   */
  lemma DecoratedText(p: ParamType, ws: seq<string>, name: string, allowIndexed: bool)
    requires Printable(p) && AreModifiers(ws) && (name == "" || IsName(name))
    ensures FromText(Format(p) + Words(ws + NameWords(name)), allowIndexed) ==
            if NoneTwice(ws) && ("indexed" in ws ==> allowIndexed) then Ok(Decorated(p, name, "indexed" in ws)) else Err
  {
    hide Format, Printable, Layout, WellLinked, ParseType, FromText, Lex, IsWord, Words, IsName, NoneTwice,
      AreModifiers, NameWords, Decorated, WordTokens;
    var all := ws + NameWords(name);
    ModifiersAndName(ws, name);
    var toks, n := LexDecorated(p, all);
    FromTextIs(Format(p) + Words(all), toks, allowIndexed);
    ParseDecorated(toks, n, p, ws, name, allowIndexed);
  }

  /** One word behind a layout. */
  lemma ParseOneWord(toks: seq<Token>, n: nat, p: ParamType, w: string)
    requires WellLinked(toks) && Printable(p) && n <= |toks| && Layout(toks, 0, n, p)
    requires toks[n..] == [Plain(WordKind(w), w, 0)] && w !in MODIFIERS && WordKind(w) != Id
    ensures ParseType(toks, true) == Err
  {
    hide Layout, Printable, WellLinked, ParseBase, Normal, BracketsEnd, IsKeyword, IsTypeText;
    var base, m := ParseBaseLayout(toks, n, p);
    assert toks[n] == toks[n..][0];
    BracketsStop(toks, m, n);
  }

  lemma {:induction false} OneWordRefused(p: ParamType, w: string)
    requires Printable(p) && IsWord(w) && w !in MODIFIERS && WordKind(w) != Id
    ensures FromText(Format(p) + Words([w]), true) == Err
  {
    hide *;
    var toks, n := LexDecorated(p, [w]);
    FromTextIs(Format(p) + Words([w]), toks, true);
    OneToken(w);
    ParseOneWord(toks, n, p, w);
  }

  lemma OneToken(w: string)
    ensures WordTokens([w], 0) == [Plain(WordKind(w), w, 0)]
  {
    hide WordKind;
  }

  /**
   * One word behind a type: five are modifiers, of which one means indexed and the others leave no trace,
   * sixteen more keywords and the names of types are refused, and any other word is the name.
   */
  lemma WordBehindType(p: ParamType, w: string)
    requires Printable(p) && IsWord(w)
    ensures FromText(Format(p) + Words([w]), true) ==
            if w in {"calldata", "memory", "storage", "payable", "indexed"} then Ok(Decorated(p, "", w == "indexed"))
            else if IsTypeText(w) ||
                    w in {"constructor", "error", "event", "fallback", "function", "receive", "struct", "tuple", "returns",
                          "constant", "external", "internal", "private", "public", "pure", "view"} then Err
            else Ok(Decorated(p, w, false))
  {
    hide Printable, FromText, Format, Words, Decorated, IsTypeText;
    if w in MODIFIERS {
      assert [w] + NameWords("") == [w];
      DecoratedText(p, [w], "", true);
    } else if WordKind(w) == Id {
      assert [] + NameWords(w) == [w];
      DecoratedText(p, [], w, true);
    } else {
      OneWordRefused(p, w);
    }
  }

  /** A basic type alone: refused as such, or taken for what it stands for. */
  lemma BasicText(typ: string, allowIndexed: bool)
    requires IsTypeText(typ)
    ensures FromText(typ, allowIndexed) ==
            match VerifyBasicType(typ) case Err => Err case Ok(v) => Ok(Basic(v, "", None))
  {
    assert Reachable(START);
    hide Run, Inv, WellLinked, StandsAt, WordStops, Reachable, FromText, Lex, ParseType, IsTypeText, VerifyBasicType, IsIdStart, IsIdChar;
    WholeText(typ);
    TypeIsWord(typ);
    StepWord(typ, 0, START, typ);
    var s := PushToken(START, Plain(WordKind(typ), typ, 0));
    RunEnds(typ, s);
    LexIs(typ, s);
    FromTextIs(typ, s.tokens, allowIndexed);
    assert s.tokens == [Plain(Type, typ, 0)];
    ParseOneToken(s.tokens, typ, allowIndexed);
  }

  lemma ParseOneToken(toks: seq<Token>, typ: string, allowIndexed: bool)
    requires WellLinked(toks) && toks == [Plain(Type, typ, 0)]
    ensures ParseType(toks, allowIndexed) ==
            match VerifyBasicType(typ) case Err => Err case Ok(v) => Ok(Basic(v, "", None))
  {
    hide WellLinked, VerifyBasicType;
    assert BracketsEnd(toks, 1) == 1;
  }

  /** The bare integer types stand for 256 bits; leading zeros of a width stay in the type. */
  lemma IntegerTexts(allowIndexed: bool)
    ensures FromText("uint", allowIndexed) == Ok(Basic("uint256", "", None))
    ensures FromText("int", allowIndexed) == Ok(Basic("int256", "", None))
    ensures FromText("uint08", allowIndexed) == Ok(Basic("uint08", "", None))
  {
    hide FromText, VerifyBasicType;
    BareIsTypeText();
    BasicText("uint", allowIndexed);
    BasicText("int", allowIndexed);
    BasicText("uint08", allowIndexed);
    VerifyBasicTypeIff("uint");
    VerifyBasicTypeIff("int");
    VerifyBasicTypeIff("uint08");
    assert "uint" + "256" == "uint256" && "int" + "256" == "int256";
    assert Parse("0") == 0 && "08"[..1] == "0" && Parse("08") == 8;
    assert IsSizedType("uint08", "08") by {
      assert "uint" + "08" == "uint08";
    }
  }

  lemma BareIsTypeText()
    ensures IsTypeText("uint") && IsTypeText("int") && IsTypeText("uint08")
  {
    assert "uint08"[4..] == "08" && "uint08"[..4] == "uint";
  }

  /** The example of the documentation: a tuple of two, its type text, and arrays of it. */
  lemma SighashTexts()
    ensures var pair := [Basic("uint256", "a", None), Basic("address", "b", None)];
            var t := Tuple("", pair, "t", Some(true));
            && Format(t) == "(uint256,address)" && Normal(t).typ == "tuple(uint256,address)"
            && Format(Array("", t, 2, "", None)) == "(uint256,address)[2]"
            && Format(Array("", t, -1, "", None)) == "(uint256,address)[]"
  {
    var a, b := Basic("uint256", "a", None), Basic("address", "b", None);
    var bare := [Basic("uint256", "", None), Basic("address", "", None)];
    assert [a, b][1..] == [b] && [b][1..] == [] && bare[1..] == [Basic("address", "", None)];
    assert NormalAll([b]) == [Basic("address", "", None)];
    assert NormalAll([a, b]) == bare;
    assert "uint256" + "," + "address" == "uint256,address";
    assert "(" + "uint256,address" + ")" == "(uint256,address)";
    assert "tuple(" + "uint256,address" + ")" == "tuple(uint256,address)";
    assert LengthText(2) == "[2]" && LengthText(-1) == "[]";
    assert "(uint256,address)" + "[2]" == "(uint256,address)[2]" && "(uint256,address)" + "[]" == "(uint256,address)[]";
  }
}
