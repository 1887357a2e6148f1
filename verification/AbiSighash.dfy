/** Lexing the sighash text of a parameter type, and the round trip through lexer and parser. */
module AbiSighash {
  import opened Wrappers
  import opened Bytes
  import opened Decimal
  import opened Sequences
  import opened AbiLexer
  import opened AbiTokenString
  import opened AbiParamType
  import opened AbiRoundTrip

  /** No identifier runs on across position `e`. */
  predicate WordStops(text: string, e: nat) {
    e >= |text| || !IsIdChar(text[e])
  }

  // ---------- single steps of the lexer ----------

  lemma StepSimple(text: string, off: nat, s: Lexer, c: char)
    requires Reachable(s) && off < |text| && text[off] == c && IsSimple(c) && Apply(s, Simple(c)).Ok?
    ensures Reachable(Apply(s, Simple(c)).value)
    ensures Run(text, off, s) == Run(text, off + 1, Apply(s, Simple(c)).value)
  {
    assert SkipSpace(text, off) == off;
    ApplyKeepsInv(s, Simple(c));
  }

  lemma {:induction false} WordEndIs(text: string, i: nat, e: nat)
    requires i <= e <= |text| && (forall k :: i <= k < e ==> IsIdChar(text[k])) && WordStops(text, e)
    ensures WordEnd(text, i) == e
    decreases e - i
  {
  }

  lemma {:induction false} DigitsEndIs(text: string, i: nat, e: nat)
    requires i <= e < |text| && (forall k :: i <= k < e ==> IsDigit(text[k])) && !IsDigit(text[e])
    ensures DigitsEnd(text, i) == e
    decreases e - i
  {
  }

  lemma NextWord(text: string, off: nat, w: string)
    requires StandsAt(text, off, w) && w != "" && IsIdStart(w[0])
    requires (forall k :: 0 <= k < |w| ==> IsIdChar(w[k])) && WordStops(text, off + |w|)
    ensures SkipSpace(text, off) == off && NextUnit(text, off) == Ok((Word(w), off + |w|))
  {
    forall k | off <= k < off + |w|
      ensures IsIdChar(text[k])
    {
      StandsAtItem(text, off, w, k - off);
    }
    StandsAtItem(text, off, w, 0);
    WordEndIs(text, off + 1, off + |w|);
  }

  lemma StepWord(text: string, off: nat, s: Lexer, w: string)
    requires Reachable(s) && StandsAt(text, off, w) && w != "" && IsIdStart(w[0])
    requires (forall k :: 0 <= k < |w| ==> IsIdChar(w[k])) && WordStops(text, off + |w|)
    ensures var s' := PushToken(s, Plain(WordKind(w), w, |s.brackets|));
            off + |w| <= |text| && Reachable(s') && Run(text, off, s) == Run(text, off + |w|, s')
  {
    hide StandsAt, NextUnit, Inv, WordKind, IsIdChar;
    NextWord(text, off, w);
    ApplyKeepsInv(s, Word(w));
  }

  lemma NextDigits(text: string, off: nat, d: string)
    requires StandsAt(text, off, d) && d != "" && AllDigits(d)
    requires off + |d| < |text| && !IsDigit(text[off + |d|])
    ensures SkipSpace(text, off) == off && NextUnit(text, off) == Ok((Digits(d), off + |d|))
  {
    forall k | off <= k < off + |d|
      ensures IsDigit(text[k])
    {
      StandsAtItem(text, off, d, k - off);
    }
    DigitsEndIs(text, off + 1, off + |d|);
  }

  lemma StepDigits(text: string, off: nat, s: Lexer, d: string)
    requires Reachable(s) && StandsAt(text, off, d) && d != "" && AllDigits(d)
    requires off + |d| < |text| && !IsDigit(text[off + |d|])
    ensures var s' := PushToken(s, Plain(Number, d, |s.brackets|));
            Reachable(s') && Run(text, off, s) == Run(text, off + |d|, s')
  {
    hide StandsAt, NextUnit, Inv, AllDigits;
    NextDigits(text, off, d);
    ApplyKeepsInv(s, Digits(d));
  }

  // ---------- the pieces of a printed type ----------

  /** A basic type lexes as one TYPE token: it is a word and not a keyword. */
  lemma TypeIsWord(typ: string)
    requires IsTypeText(typ)
    ensures typ != "" && IsIdStart(typ[0]) && WordKind(typ) == Type
    ensures forall k :: 0 <= k < |typ| ==> IsIdChar(typ[k])
  {
    if typ == "address" || typ == "bool" || typ == "string" {
      KeywordInitials(typ);
    } else {
      var name := if IsSized(typ, "bytes") then "bytes" else if IsSized(typ, "int") then "int" else "uint";
      assert name <= typ && typ == name + typ[|name|..];
      forall k | 0 <= k < |typ|
        ensures IsIdChar(typ[k])
      {
        if k >= |name| {
          assert typ[k] == typ[|name|..][k - |name|];
        } else {
          assert typ[k] == name[k];
        }
      }
      SizedIsNotKeyword(typ);
    }
  }

  lemma KeywordInitials(typ: string)
    requires typ == "address" || typ == "bool" || typ == "string"
    ensures !IsKeyword(typ)
  {
  }

  const KEYWORD_INITIALS := {'c', 'e', 'f', 'r', 's', 'm', 'p', 'i', 't', 'v'}

  lemma KeywordsStart(word: string)
    requires IsKeyword(word)
    ensures word != "" && word[0] in KEYWORD_INITIALS
  {
  }

  lemma KeywordsWithI(word: string)
    requires IsKeyword(word) && word[0] == 'i'
    ensures word == "indexed" || word == "internal"
  {
  }

  lemma SizedIsNotKeyword(typ: string)
    requires IsSized(typ, "bytes") || IsSized(typ, "int") || IsSized(typ, "uint")
    ensures !IsKeyword(typ)
  {
    hide IsKeyword;
    if IsKeyword(typ) {
      KeywordsStart(typ);
      SizedInitial(typ);
      KeywordsWithI(typ);
      InternalIsNotSized(typ);
    }
  }

  lemma SizedInitial(typ: string)
    requires IsSized(typ, "bytes") || IsSized(typ, "int") || IsSized(typ, "uint")
    ensures typ[0] == (if IsSized(typ, "bytes") then 'b' else if IsSized(typ, "int") then 'i' else 'u')
  {
  }

  lemma InternalIsNotSized(typ: string)
    requires typ == "indexed" || typ == "internal"
    ensures !IsSized(typ, "int")
  {
    assert typ[2] == 'd' || (typ[3..] != [] && typ[3..][0] == 'e');
  }

  function LengthDigits(length: int): string {
    if length < 0 then "" else Print(length)
  }

  function LengthToken(length: int, depth: int): Token {
    Plain(Bracket, LengthText(length), depth).(value := if length < 0 then -1 else length)
  }

  lemma AtLengthText(text: string, off: nat, length: int)
    requires StandsAt(text, off, LengthText(length))
    ensures var digits := LengthDigits(length);
            && |LengthText(length)| == |digits| + 2 && off + |digits| + 2 <= |text|
            && text[off] == '[' && StandsAt(text, off + 1, digits) && text[off + 1 + |digits|] == ']'
  {
    var digits := LengthDigits(length);
    assert LengthText(length) == "[" + (digits + "]");
    StandsAtConcat(text, off, "[", digits + "]");
    StandsAtConcat(text, off + 1, digits, "]");
    StandsAtItem(text, off, "[", 0);
    StandsAtItem(text, off + 1 + |digits|, "]", 0);
  }

  /** The closing bracket folds the tokens of "[" and of the digits into one. */
  lemma FoldNoLength(s: Lexer, length: int, depth: int)
    requires TextsOk(s.tokens) && length < 0
    ensures var s1 := PushToken(s, Plain(Bracket, "[", depth));
            TextsOk(s1.tokens) && CloseBracket(s1) == Ok(PushToken(s, LengthToken(length, depth)))
  {
    var s1 := PushToken(s, Plain(Bracket, "[", depth));
    assert s1.tokens[..|s1.tokens| - 1] == s.tokens;
    assert "[" + "]" == LengthText(length);
  }

  lemma FoldFixedLength(s: Lexer, length: nat, depth: int)
    requires TextsOk(s.tokens) && length <= MAX_SAFE
    ensures var s2 := PushToken(PushToken(s, Plain(Bracket, "[", depth)), Plain(Number, Print(length), depth));
            TextsOk(s2.tokens) && CloseBracket(s2) == Ok(PushToken(s, LengthToken(length, depth)))
  {
    hide Parse, Print;
    var s2 := PushToken(PushToken(s, Plain(Bracket, "[", depth)), Plain(Number, Print(length), depth));
    ParsePrint(length);
    assert s2.tokens[..|s2.tokens| - 2] == s.tokens;
    assert "[" + (Print(length) + "]") == LengthText(length);
  }

  lemma StepOpenBracket(text: string, off: nat, s: Lexer)
    requires Reachable(s) && off < |text| && text[off] == '['
    ensures var s' := PushToken(s, Plain(Bracket, "[", |s.brackets|));
            Reachable(s') && Run(text, off, s) == Run(text, off + 1, s')
  {
    hide Run, Inv;
    StepSimple(text, off, s, '[');
  }

  lemma StepCloseBracket(text: string, off: nat, s: Lexer, s': Lexer)
    requires Reachable(s) && off < |text| && text[off] == ']' && CloseBracket(s) == Ok(s')
    ensures Reachable(s') && Run(text, off, s) == Run(text, off + 1, s')
  {
    hide Run, Inv, CloseBracket;
    StepSimple(text, off, s, ']');
  }

  lemma LexNoLength(text: string, off: nat, s: Lexer, length: int)
    requires Reachable(s) && StandsAt(text, off, LengthText(length)) && length < 0
    ensures var s' := PushToken(s, LengthToken(length, |s.brackets|));
            Reachable(s') && Run(text, off, s) == Run(text, off + 2, s') && |LengthText(length)| == 2
  {
    hide Run, CloseBracket, Reachable, LengthText, StandsAt, Print, LengthToken, Apply, TextsOk;
    AtLengthText(text, off, length);
    var d := |s.brackets|;
    StepOpenBracket(text, off, s);
    ReachableTexts(s);
    FoldNoLength(s, length, d);
    StepCloseBracket(text, off + 1, PushToken(s, Plain(Bracket, "[", d)), PushToken(s, LengthToken(length, d)));
  }

  lemma ReachableTexts(s: Lexer)
    requires Reachable(s)
    ensures TextsOk(s.tokens)
  {
  }

  lemma NotADigit()
    ensures !IsDigit(']')
  {
  }

  lemma LexFixedLength(text: string, off: nat, s: Lexer, length: nat)
    requires Reachable(s) && StandsAt(text, off, LengthText(length)) && length <= MAX_SAFE
    ensures var s' := PushToken(s, LengthToken(length, |s.brackets|));
            Reachable(s') && Run(text, off, s) == Run(text, off + |LengthText(length)|, s')
  {
    hide Run, CloseBracket, LengthText, StandsAt, LengthToken, Apply, TextsOk, Print, AllDigits, IsDigit, Reachable;
    AtLengthText(text, off, length);
    NotADigit();
    var digits, d := Print(length), |s.brackets|;
    var s1 := PushToken(s, Plain(Bracket, "[", d));
    StepOpenBracket(text, off, s);
    StepDigits(text, off + 1, s1, digits);
    ReachableTexts(s);
    FoldFixedLength(s, length, d);
    StepCloseBracket(text, off + 1 + |digits|, PushToken(s1, Plain(Number, digits, d)), PushToken(s, LengthToken(length, d)));
  }

  /** "[", the digits of the length if there is one, and "]" leave a single bracket token. */
  lemma LexLength(text: string, off: nat, s: Lexer, length: int)
    requires Reachable(s) && StandsAt(text, off, LengthText(length)) && length <= MAX_SAFE
    ensures var s' := PushToken(s, LengthToken(length, |s.brackets|));
            Reachable(s') && Run(text, off, s) == Run(text, off + |LengthText(length)|, s')
  {
    hide Run, Inv, LengthText, StandsAt, LengthToken, PushToken;
    if length < 0 {
      LexNoLength(text, off, s, length);
    } else {
      LexFixedLength(text, off, s, length);
    }
  }

  // ---------- the steps on lists ----------

  lemma TopOfStack(s: Lexer)
    requires Inv(s) && s.brackets != []
    ensures |s.brackets| == |s.commas| && StackOk(s, |s.brackets| - 1)
  {
  }

  lemma StepOpen(text: string, off: nat, s: Lexer)
    requires Reachable(s) && off < |text| && text[off] == '('
    ensures |s.brackets| == |s.commas| && Reachable(Open(s)) && Run(text, off, s) == Run(text, off + 1, Open(s))
  {
    StepSimple(text, off, s, '(');
  }

  /** The tokens after the closing parenthesis of the innermost list. */
  function ClosedTokens(s: Lexer, b: nat, c: nat): seq<Token>
    requires b < |s.tokens| && c < |s.tokens|
  {
    var n := |s.tokens|;
    var toks := s.tokens[b := s.tokens[b].(partner := n)];
    toks[c := toks[c].(linkNext := n)] + [Token(CloseParen, ")", |s.brackets| - 1, b, c, -1, -1)]
  }

  lemma StepClose(text: string, off: nat, s: Lexer) returns (s': Lexer)
    requires Reachable(s) && s.brackets != [] && off < |text| && text[off] == ')'
    ensures Reachable(s') && Run(text, off, s) == Run(text, off + 1, s')
    ensures var d := |s.brackets| - 1;
            && |s.commas| == d + 1 && s.brackets[d] < |s.tokens| && s.commas[d] < |s.tokens|
            && s' == Lexer(ClosedTokens(s, s.brackets[d], s.commas[d]), s.brackets[..d], s.commas[..d])
  {
    TopOfStack(s);
    StepSimple(text, off, s, ')');
    s' := Close(s).value;
  }

  /** The tokens after a comma that follows separator `c`. */
  function SeparatedTokens(s: Lexer, c: nat): seq<Token>
    requires c < |s.tokens|
  {
    s.tokens[c := s.tokens[c].(linkNext := |s.tokens|)] + [Token(Comma, ",", |s.brackets|, -1, c, -1, -1)]
  }

  lemma StepComma(text: string, off: nat, s: Lexer) returns (s': Lexer)
    requires Reachable(s) && s.brackets != [] && off < |text| && text[off] == ','
    ensures Reachable(s') && Run(text, off, s) == Run(text, off + 1, s')
    ensures var d := |s.brackets| - 1;
            && |s.commas| == d + 1 && s.commas[d] < |s.tokens|
            && s' == Lexer(SeparatedTokens(s, s.commas[d]), s.brackets, s.commas[..d] + [|s.tokens|])
  {
    TopOfStack(s);
    StepSimple(text, off, s, ',');
    s' := Separate(s).value;
  }

  // ---------- a whole type ----------

  /**
   * Between `toks`, which ends with the separator k of the list opened at b, and `next`: the items
   * of the list and its closing parenthesis were added, and the links of b and k were set.
   */
  ghost predicate ListAdded(toks: seq<Token>, b: nat, next: seq<Token>, ps: seq<ParamType>) {
    var k, close := |toks| - 1, |next| - 1;
    && b <= k < close && ListLayout(next, k, close, ps)
    && forall i :: 0 <= i <= k ==>
         next[i] == toks[i].(partner := if i == b then close else toks[i].partner,
                             linkNext := if i == k then next[k].linkNext else toks[i].linkNext)
  }

  /** The tokens from `lo` on stay as they are when others are added. */
  ghost predicate Stay(toks: seq<Token>, lo: nat, next: seq<Token>) {
    |toks| <= |next| && forall i :: lo <= i < |toks| ==> Moved(toks[i], next[i], 0)
  }

  /** An item at the end, untouched by what is added behind it. */
  lemma ItemStays(toks: seq<Token>, lo: nat, next: seq<Token>, p: ParamType)
    requires lo <= |toks| && Layout(toks, lo, |toks|, p) && Stay(toks, lo, next)
    ensures Layout(next, lo, |toks|, p)
  {
    hide Layout, Moved;
    forall i | lo <= i < |toks|
      ensures Moved(toks[i], next[i + 0], 0)
    {
      assert next[i + 0] == next[i];
    }
    MoveLayout(toks, lo, |toks|, next, 0, p);
  }

  lemma StaysBehindAppend(toks: seq<Token>, lo: nat, t: Token)
    ensures Stay(toks, lo, toks + [t])
  {
    assert forall i :: 0 <= i < |toks| ==> (toks + [t])[i] == toks[i];
  }

  lemma StaysWhenClosed(s: Lexer, b: nat, c: nat)
    requires b <= c < |s.tokens|
    ensures Stay(s.tokens, c + 1, ClosedTokens(s, b, c))
  {
  }

  /** The closing parenthesis right behind the separator, or behind the only item left. */
  lemma CloseAdds(s: Lexer, s1: Lexer, b: nat, ps: seq<ParamType>)
    requires b < |s.tokens| <= |s1.tokens| && s.tokens <= s1.tokens && IsSeparator(s.tokens[|s.tokens| - 1])
    requires if ps == [] then s1 == s
             else |ps| == 1 && Layout(s1.tokens, |s.tokens|, |s1.tokens|, ps[0])
    ensures ListAdded(s.tokens, b, ClosedTokens(s1, b, |s.tokens| - 1), ps)
  {
    hide Layout;
    var next := ClosedTokens(s1, b, |s.tokens| - 1);
    if ps != [] {
      StaysWhenClosed(s1, b, |s.tokens| - 1);
      ItemStays(s1.tokens, |s.tokens|, next, ps[0]);
    }
  }

  lemma ListFromParts(toks: seq<Token>, k: nat, n: nat, close: nat, ps: seq<ParamType>)
    requires k < n < close < |toks| && |ps| > 1 && IsSeparator(toks[k]) && toks[k].linkNext == n
    requires Layout(toks, k + 1, n, ps[0]) && ListLayout(toks, n, close, ps[1..])
    ensures ListLayout(toks, k, close, ps)
  {
    hide Layout;
  }

  /** An item, a comma and the rest of the list. */
  lemma CommaAdds(s: Lexer, s1: Lexer, b: nat, next: seq<Token>, ps: seq<ParamType>)
    requires b < |s.tokens| <= |s1.tokens| && s.tokens <= s1.tokens && IsSeparator(s.tokens[|s.tokens| - 1])
    requires |ps| > 1 && Layout(s1.tokens, |s.tokens|, |s1.tokens|, ps[0])
    requires ListAdded(SeparatedTokens(s1, |s.tokens| - 1), b, next, ps[1..])
    ensures ListAdded(s.tokens, b, next, ps)
  {
    hide Layout, ListLayout;
    var k, n := |s.tokens| - 1, |s1.tokens|;
    var mid := SeparatedTokens(s1, k);
    forall i | k < i < n
      ensures Moved(s1.tokens[i], next[i], 0)
    {
      assert mid[i] == s1.tokens[i];
    }
    ItemStays(s1.tokens, k + 1, next, ps[0]);
    assert mid[k].linkNext == n;
    ListFromParts(next, k, n, |next| - 1, ps);
  }

  /** The opening parenthesis in front of an added list makes a tuple. */
  lemma TupleAdds(s: Lexer, next: seq<Token>, p: ParamType)
    requires p.Tuple? && ListAdded(Open(s).tokens, |s.tokens|, next, p.components)
    ensures s.tokens <= next && Layout(next, |s.tokens|, |next|, p)
  {
    hide ListLayout;
    var toks := Open(s).tokens;
    forall i | 0 <= i < |s.tokens|
      ensures next[i] == s.tokens[i]
    {
      assert toks[i] == s.tokens[i];
    }
    assert toks[|s.tokens|].kind == OpenParen;
  }

  lemma BasicAdds(s: Lexer, p: ParamType, depth: int)
    requires p.Basic?
    ensures var next := s.tokens + [Plain(Type, p.typ, depth)]; Layout(next, |s.tokens|, |next|, p)
  {
  }

  lemma ArrayFromParts(toks: seq<Token>, lo: nat, hi: nat, p: ParamType, depth: int)
    requires p.Array? && lo < hi < |toks| && Layout(toks, lo, hi, p.child) && toks[hi] == LengthToken(p.length, depth)
    ensures Layout(toks, lo, hi + 1, p)
  {
  }

  lemma LayoutNotEmpty(toks: seq<Token>, lo: nat, hi: nat, p: ParamType)
    requires hi <= |toks| && Layout(toks, lo, hi, p)
    ensures lo < hi
  {
  }

  /** A bracket behind a type makes an array. */
  lemma ArrayAdds(s: Lexer, s1: Lexer, p: ParamType, depth: int)
    requires p.Array? && |s.tokens| <= |s1.tokens| && Layout(s1.tokens, |s.tokens|, |s1.tokens|, p.child)
    ensures var next := s1.tokens + [LengthToken(p.length, depth)]; Layout(next, |s.tokens|, |next|, p)
  {
    hide Layout, LengthText, LengthToken, Stay;
    var next := s1.tokens + [LengthToken(p.length, depth)];
    LayoutNotEmpty(s1.tokens, |s.tokens|, |s1.tokens|, p.child);
    StaysBehindAppend(s1.tokens, |s.tokens|, LengthToken(p.length, depth));
    ItemStays(s1.tokens, |s.tokens|, next, p.child);
    ArrayFromParts(next, |s.tokens|, |s1.tokens|, p, depth);
  }

  /** Where the pieces of a type's text stand. */
  lemma AtTypeText(text: string, off: nat, p: ParamType)
    requires StandsAt(text, off, Format(p)) && WordStops(text, off + |Format(p)|)
    ensures off + |Format(p)| <= |text|
    ensures match p
            case Basic(typ, _, _) => Format(p) == typ
            case Array(_, child, length, _, _) =>
              var e := off + |Format(child)|;
              && |Format(p)| == |Format(child)| + |LengthText(length)|
              && StandsAt(text, off, Format(child)) && WordStops(text, e) && StandsAt(text, e, LengthText(length))
            case Tuple(_, ps, _, _) =>
              && |Format(p)| == |FormatAll(ps)| + 2
              && text[off] == '(' && StandsAt(text, off + 1, FormatAll(ps) + ")")
  {
    hide StandsAt, FormatAll, LengthText;
    StandsAtEnds(text, off, Format(p));
    match p
    case Basic(_, _, _) =>
    case Array(_, child, length, _, _) =>
      StandsAtConcat(text, off, Format(child), LengthText(length));
      AtLengthText(text, off + |Format(child)|, length);
    case Tuple(_, ps, _, _) =>
      assert Format(p) == "(" + (FormatAll(ps) + ")");
      StandsAtConcat(text, off, "(", FormatAll(ps) + ")");
      StandsAtItem(text, off, "(", 0);
  }

  /** Lexing a printed type appends exactly its layout and leaves the stacks as they were. */
  lemma {:induction false} LexFormat(p: ParamType, text: string, off: nat, s: Lexer) returns (s': Lexer)
    requires Printable(p) && Reachable(s) && StandsAt(text, off, Format(p)) && WordStops(text, off + |Format(p)|)
    ensures Reachable(s') && Run(text, off, s) == Run(text, off + |Format(p)|, s')
    ensures s'.brackets == s.brackets && s'.commas == s.commas && s.tokens <= s'.tokens
    ensures Layout(s'.tokens, |s.tokens|, |s'.tokens|, p)
    decreases p, 0
  {
    hide Run, Inv, Apply, IsTypeText, IsKeyword, Format, FormatAll, Layout, ListAdded, LengthText, StandsAt;
    AtTypeText(text, off, p);
    match p
    case Basic(typ, _, _) =>
      TypeIsWord(typ);
      StepWord(text, off, s, typ);
      s' := PushToken(s, Plain(Type, typ, |s.brackets|));
      BasicAdds(s, p, |s.brackets|);
    case Array(_, child, length, _, _) =>
      var s1 := LexFormat(child, text, off, s);
      LexLength(text, off + |Format(child)|, s1, length);
      s' := PushToken(s1, LengthToken(length, |s1.brackets|));
      ArrayAdds(s, s1, p, |s1.brackets|);
    case Tuple(_, components, _, _) =>
      StepOpen(text, off, s);
      s' := LexList(components, text, off + 1, Open(s));
      TupleAdds(s, s'.tokens, p);
  }

  /** Where the pieces of a list's text stand. */
  lemma AtEmptyList(text: string, off: nat)
    requires StandsAt(text, off, FormatAll([]) + ")")
    ensures |FormatAll([])| == 0 && off < |text| && text[off] == ')'
  {
    assert FormatAll([]) + ")" == ")";
    StandsAtItem(text, off, ")", 0);
  }

  lemma FormatOne(ps: seq<ParamType>)
    requires |ps| == 1
    ensures FormatAll(ps) == Format(ps[0])
  {
    hide Format;
  }

  lemma FormatMore(ps: seq<ParamType>)
    requires |ps| > 1
    ensures FormatAll(ps) == Format(ps[0]) + ("," + FormatAll(ps[1..]))
  {
    hide Format;
    var first, rest := Format(ps[0]), FormatAll(ps[1..]);
    assert first + "," + rest == first + ("," + rest);
  }

  lemma WordStopsAt(text: string, e: nat)
    requires e < |text| && (text[e] == ')' || text[e] == ',')
    ensures WordStops(text, e)
  {
  }

  lemma AtLastItem(text: string, off: nat, ps: seq<ParamType>)
    requires StandsAt(text, off, FormatAll(ps) + ")") && |ps| == 1
    ensures var e := off + |Format(ps[0])|;
            && StandsAt(text, off, Format(ps[0])) && e < |text| && WordStops(text, e)
            && |FormatAll(ps)| == |Format(ps[0])| && text[e] == ')'
  {
    hide Format, FormatAll, StandsAt, WordStops;
    FormatOne(ps);
    StandsAtConcat(text, off, Format(ps[0]), ")");
    StandsAtItem(text, off + |Format(ps[0])|, ")", 0);
    WordStopsAt(text, off + |Format(ps[0])|);
  }

  lemma AtNextItem(text: string, off: nat, ps: seq<ParamType>)
    requires StandsAt(text, off, FormatAll(ps) + ")") && |ps| > 1
    ensures var e := off + |Format(ps[0])|;
            && StandsAt(text, off, Format(ps[0])) && e < |text| && WordStops(text, e)
            && |FormatAll(ps)| == |Format(ps[0])| + 1 + |FormatAll(ps[1..])|
            && text[e] == ',' && StandsAt(text, e + 1, FormatAll(ps[1..]) + ")")
  {
    hide Format, FormatAll, StandsAt, WordStops;
    FormatMore(ps);
    var first, rest := Format(ps[0]), FormatAll(ps[1..]) + ")";
    assert first + ("," + FormatAll(ps[1..])) + ")" == first + ("," + rest);
    StandsAtConcat(text, off, Format(ps[0]), "," + rest);
    StandsAtConcat(text, off + |Format(ps[0])|, ",", rest);
    StandsAtItem(text, off + |Format(ps[0])|, ",", 0);
    WordStopsAt(text, off + |Format(ps[0])|);
  }

  /** From a fresh separator, the items and the closing parenthesis of a list. */
  lemma {:induction false} LexList(ps: seq<ParamType>, text: string, off: nat, s: Lexer) returns (s': Lexer)
    requires forall c :: 0 <= c < |ps| ==> Printable(ps[c])
    requires Reachable(s) && StandsAt(text, off, FormatAll(ps) + ")")
    requires |s.brackets| == |s.commas| > 0 && s.commas[|s.commas| - 1] == |s.tokens| - 1
    ensures Reachable(s') && off + |FormatAll(ps)| + 1 <= |text|
    ensures Run(text, off, s) == Run(text, off + |FormatAll(ps)| + 1, s')
    ensures var d := |s.brackets| - 1;
            && s'.brackets == s.brackets[..d] && s'.commas == s.commas[..d]
            && ListAdded(s.tokens, s.brackets[d], s'.tokens, ps)
    decreases ps, 0
  {
    hide Run, Inv, Apply, Format, FormatAll, Printable, Layout, ListLayout, ListAdded, Unclosed, Unlinked, StandsAt;
    TopOfStack(s);
    var b := s.brackets[|s.brackets| - 1];
    if ps == [] {
      AtEmptyList(text, off);
      s' := StepClose(text, off, s);
      CloseAdds(s, s, b, ps);
    } else if |ps| == 1 {
      AtLastItem(text, off, ps);
      var s1 := LexFormat(ps[0], text, off, s);
      s' := StepClose(text, off + |Format(ps[0])|, s1);
      CloseAdds(s, s1, b, ps);
    } else {
      AtNextItem(text, off, ps);
      var s1 := LexFormat(ps[0], text, off, s);
      var s2 := StepComma(text, off + |Format(ps[0])|, s1);
      s' := LexList(ps[1..], text, off + |Format(ps[0])| + 1, s2);
      CommaAdds(s, s1, b, s'.tokens, ps);
    }
  }

  // ---------- the round trip ----------

  lemma Started()
    ensures Reachable(START) && START.brackets == [] && START.tokens == []
  {
  }

  /** The text of a printable type parses back to its normal form. */
  lemma {:induction false} FormatThenParse(p: ParamType, allowIndexed: bool)
    requires Printable(p)
    ensures FromText(Format(p), allowIndexed) == Ok(Normal(p))
  {
    hide *;
    var text := Format(p);
    Started();
    WholeText(text);
    var s := LexFormat(p, text, 0, START);
    RunEnds(text, s);
    LexIs(text, s);
    FromTextIs(text, s.tokens, allowIndexed);
    ParseLayout(s.tokens, p, allowIndexed);
  }

  lemma FromTextIs(text: string, toks: seq<Token>, allowIndexed: bool)
    requires Lex(text) == Ok(toks)
    ensures WellLinked(toks) && FromText(text, allowIndexed) == ParseType(toks, allowIndexed)
  {
    hide ParseType, Run, WellLinked;
  }

  lemma WholeText(text: string)
    ensures StandsAt(text, 0, text) && WordStops(text, |text|)
  {
    assert text[0..0 + |text|] == text;
  }

  lemma LexIs(text: string, s: Lexer)
    requires Reachable(START) && Run(text, 0, START) == Ok(s) && Reachable(s)
    ensures Lex(text) == Ok(s.tokens) && WellLinked(s.tokens)
  {
    hide Run, Inv, WellLinked;
    InvWellLinked(s);
  }

  lemma RunEnds(text: string, s: Lexer)
    requires Reachable(s)
    ensures Run(text, |text|, s) == Ok(s)
  {
  }

  lemma {:induction false} NormalTwice(p: ParamType)
    ensures Normal(Normal(p)) == Normal(p)
    decreases p
  {
    match p
    case Basic(_, _, _) =>
    case Tuple(_, components, _, _) => NormalAllTwice(components);
    case Array(_, child, _, _, _) => NormalTwice(child);
  }

  lemma {:induction false} NormalAllTwice(ps: seq<ParamType>)
    ensures NormalAll(NormalAll(ps)) == NormalAll(ps)
    decreases ps
  {
    if ps != [] {
      NormalTwice(ps[0]);
      NormalAllTwice(ps[1..]);
    }
  }

  // ---------- every parsed type is printable ----------

  lemma Numeral256()
    ensures AllDigits("256") && Parse("256") == 256
  {
    ParsePrint(256);
    assert Print(25) == "25" && Print(256) == "256";
  }

  lemma Int256()
    ensures IsSized("int256", "int") && !IsSized("int256", "bytes") && "int256"[3..] == "256"
  {
    assert "int256"[0] == 'i' && "int256"[3..] == "256";
  }

  lemma Uint256()
    ensures IsSized("uint256", "uint") && !IsSized("uint256", "int") && !IsSized("uint256", "bytes")
    ensures "uint256"[4..] == "256"
  {
    assert "uint256"[0] == 'u' && "uint256"[4..] == "256";
  }

  lemma DefaultWidths()
    ensures VerifyBasicType("uint256") == Ok("uint256") && VerifyBasicType("int256") == Ok("int256")
  {
    hide Parse, IsSized;
    Numeral256();
    Int256();
    Uint256();
  }

  lemma VerifiedIsFixed(typ: string)
    requires VerifyBasicType(typ).Ok?
    ensures VerifyBasicType(VerifyBasicType(typ).value) == VerifyBasicType(typ)
  {
    hide IsTypeText, IsSized, Parse;
    if typ == "uint" || typ == "int" {
      DefaultWidths();
    }
  }

  /** What `ParamType.from` returns can be printed and parsed again. */
  lemma {:induction false} ParsedIsPrintable(toks: seq<Token>, allowIndexed: bool)
    requires WellLinked(toks) && TextsOk(toks) && ParseType(toks, allowIndexed).Ok?
    ensures Printable(ParseType(toks, allowIndexed).value)
    decreases |toks|, 2, 0
  {
    BasePrintable(toks);
    var base := ParseBase(toks).value;
    WrapPrintable(toks, base.1, BracketsEnd(toks, base.1), base.0);
  }

  lemma {:induction false} WrapPrintable(toks: seq<Token>, from: nat, end: nat, p: ParamType)
    requires from <= end <= |toks| && TextsOk(toks) && Printable(p)
    requires forall k :: from <= k < end ==> toks[k].kind == Bracket
    ensures Printable(WrapAll(toks, from, end, p))
    decreases end
  {
    if from < end {
      WrapPrintable(toks, from, end - 1, p);
    }
  }

  lemma {:induction false} BasePrintable(toks: seq<Token>)
    requires WellLinked(toks) && TextsOk(toks) && ParseBase(toks).Ok?
    ensures Printable(ParseBase(toks).value.0)
    decreases |toks|, 1, 0
  {
    var i := Keywords(toks, 0, TUPLE_KEYWORD, {}).value.0;
    if PoppedParams(toks, i).Ok? {
      ItemsTextsOk(toks, i);
      var items := PoppedParams(toks, i).value.0;
      if ParseAll(items, |toks|).Ok? {
        AllPrintable(items, |toks|);
      }
    }
    if KindAt(toks, i, Type) && VerifyBasicType(toks[i].text).Ok? {
      VerifiedIsFixed(toks[i].text);
    }
  }

  lemma ItemsTextsOk(toks: seq<Token>, i: nat)
    requires WellLinked(toks) && TextsOk(toks) && i <= |toks| && PoppedParams(toks, i).Ok?
    ensures var items := PoppedParams(toks, i).value.0; forall m :: 0 <= m < |items| ==> TextsOk(items[m])
  {
    if toks[i].partner != -1 {
      assert PositionOk(toks, i);
      SegmentsTextsOk(toks, i, i);
    }
  }

  lemma {:induction false} SegmentsTextsOk(toks: seq<Token>, i: nat, k: nat)
    requires WellLinked(toks) && TextsOk(toks) && IsList(toks, i) && OfList(toks, i, k)
    ensures forall m :: 0 <= m < |Segments(toks, i, k)| ==> TextsOk(Segments(toks, i, k)[m])
    decreases toks[i].partner - k
  {
    if k < toks[i].partner - 1 {
      SegmentsUnfold(toks, i, k);
      var n := toks[k].linkNext;
      if n < toks[i].partner {
        SegmentsTextsOk(toks, i, n);
      }
      assert TextsOk(Slice(toks, k + 1, n));
    }
  }

  lemma {:induction false} AllPrintable(items: seq<seq<Token>>, n: nat)
    requires forall m :: 0 <= m < |items| ==> |items[m]| < n && WellLinked(items[m]) && TextsOk(items[m])
    requires ParseAll(items, n).Ok?
    ensures var ps := ParseAll(items, n).value; forall c :: 0 <= c < |ps| ==> Printable(ps[c])
    decreases n, 0, |items|
  {
    if items != [] {
      ParsedIsPrintable(items[0], false);
      AllPrintable(items[1..], n);
    }
  }

  lemma LexTextsOk(text: string)
    requires Lex(text).Ok?
    ensures TextsOk(Lex(text).value)
  {
  }

  /** Whatever text is accepted, its sighash text parses to the normal form of what was read. */
  lemma SighashIsNormalForm(text: string, allowIndexed: bool)
    requires FromText(text, allowIndexed).Ok?
    ensures var p := FromText(text, allowIndexed).value;
            && FromText(Format(p), false) == Ok(Normal(p))
            && Format(Normal(p)) == Format(p)
            && FromText(Format(Normal(p)), false) == Ok(Normal(p))
  {
    hide Run, Inv, Format, ParseType, Printable, Normal;
    LexTextsOk(text);
    ParsedIsPrintable(Lex(text).value, allowIndexed);
    var p := FromText(text, allowIndexed).value;
    FormatThenParse(p, false);
    FormatNormal(p);
  }
}
