/**
 * The lexer of human-readable ABI signatures: a token list in which parentheses and commas carry
 * the indices of their partners, patched into earlier tokens as later ones arrive.
 */
module AbiLexer {
  import opened Wrappers
  import opened Bytes
  import opened Decimal

  // ---------- characters and words ----------

  predicate IsSpace(c: char) {
    var n := c as int;
    9 <= n <= 13 || n == 0x20 || n == 0xa0 || n == 0x1680 || 0x2000 <= n <= 0x200a
    || n == 0x2028 || n == 0x2029 || n == 0x202f || n == 0x205f || n == 0x3000 || n == 0xfeff
  }

  predicate IsIdStart(c: char) {
    'a' <= c <= 'z' || 'A' <= c <= 'Z' || c == '$' || c == '_'
  }

  predicate IsIdChar(c: char) {
    IsIdStart(c) || IsDigit(c)
  }

  predicate IsSimple(c: char) {
    c == '(' || c == ')' || c == '[' || c == ']' || c == ',' || c == '@'
  }

  predicate IsKeyword(s: string) {
    s in {"constructor", "error", "event", "fallback", "function", "receive", "struct",
          "calldata", "memory", "storage", "payable", "indexed",
          "tuple", "returns",
          "constant", "external", "internal", "private", "public", "pure", "view"}
  }

  predicate IsSized(s: string, name: string) {
    name <= s && AllDigits(s[|name|..])
  }

  /** The basic types, with any digits behind bytes, int and uint. */
  predicate IsTypeText(s: string) {
    || s == "address" || s == "bool" || s == "string"
    || IsSized(s, "bytes") || IsSized(s, "int") || IsSized(s, "uint")
  }

  /** Where the run of white space starting at `i` ends. */
  function SkipSpace(text: string, i: nat): (e: nat)
    requires i <= |text|
    ensures i <= e <= |text|
    decreases |text| - i
  {
    if i < |text| && IsSpace(text[i]) then SkipSpace(text, i + 1) else i
  }

  function WordEnd(text: string, i: nat): (e: nat)
    requires i <= |text|
    ensures i <= e <= |text|
    ensures forall k :: i <= k < e ==> IsIdChar(text[k])
    ensures e < |text| ==> !IsIdChar(text[e])
    decreases |text| - i
  {
    if i < |text| && IsIdChar(text[i]) then WordEnd(text, i + 1) else i
  }

  function DigitsEnd(text: string, i: nat): (e: nat)
    requires i <= |text|
    ensures i <= e <= |text|
    ensures forall k :: i <= k < e ==> IsDigit(text[k])
    ensures e < |text| ==> !IsDigit(text[e])
    decreases |text| - i
  {
    if i < |text| && IsDigit(text[i]) then DigitsEnd(text, i + 1) else i
  }

  // ---------- tokens ----------

  datatype Kind = OpenParen | CloseParen | Bracket | Comma | At | Keyword | Type | Id | Number

  /** `partner` is the balancing parenthesis; the links go to the neighbours in the list. */
  datatype Token = Token(kind: Kind, text: string, depth: int,
                         partner: int, linkBack: int, linkNext: int, value: int)

  function Plain(kind: Kind, text: string, depth: int): Token {
    Token(kind, text, depth, -1, -1, -1, -1)
  }

  /** A lexical unit: one of the six characters, a word or a run of digits. */
  datatype Unit = Simple(c: char) | Word(word: string) | Digits(digits: string)

  /** The unit at the front of text[i..], and where it ends. */
  function NextUnit(text: string, i: nat): (r: Result<(Unit, nat)>)
    requires i <= |text|
    ensures r.Ok? ==> i < r.value.1 <= |text|
    ensures r.Ok? && r.value.0.Digits? ==> AllDigits(r.value.0.digits)
    ensures r.Ok? && r.value.0.Simple? ==> IsSimple(r.value.0.c)
  {
    if i == |text| then Err
    else if IsSimple(text[i]) then Ok((Simple(text[i]), i + 1))
    else if IsIdStart(text[i]) then Ok((Word(text[i..WordEnd(text, i + 1)]), WordEnd(text, i + 1)))
    else if IsDigit(text[i]) then Ok((Digits(text[i..DigitsEnd(text, i + 1)]), DigitsEnd(text, i + 1)))
    else Err
  }

  /** The local variables of `lex`. */
  datatype Lexer = Lexer(tokens: seq<Token>, brackets: seq<nat>, commas: seq<nat>)

  const START := Lexer([], [], [])

  // ---------- the invariant ----------

  /** A comma of the list at level `level`, or the parenthesis that closes that list. */
  predicate EndsItem(t: Token, level: int) {
    (t.kind == Comma && t.depth == level) || (t.kind == CloseParen && t.depth == level - 1)
  }

  /** A token in the middle of an item of the list at level `level`. */
  predicate InItem(t: Token, level: int) {
    t.depth >= level && !(t.kind == Comma && t.depth == level)
  }

  predicate IsSeparator(t: Token) {
    t.kind == OpenParen || t.kind == Comma
  }

  /** The level of the list that a separator stands in. */
  function Level(t: Token): int {
    if t.kind == OpenParen then t.depth + 1 else t.depth
  }

  /** The next link of `k` goes to the end of the item that follows it. */
  ghost predicate Linked(toks: seq<Token>, k: nat)
    requires k < |toks|
  {
    var n := toks[k].linkNext;
    && k < n < |toks| && EndsItem(toks[n], Level(toks[k]))
    && forall m :: k < m < n ==> InItem(toks[m], Level(toks[k]))
  }

  /** The item after `k` has not ended yet. */
  ghost predicate Unlinked(toks: seq<Token>, k: nat)
    requires k < |toks|
  {
    toks[k].linkNext == -1 && forall m :: k < m < |toks| ==> InItem(toks[m], Level(toks[k]))
  }

  /** The parenthesis at `i` is balanced by its partner, which points back, at equal depth. */
  ghost predicate Closed(toks: seq<Token>, i: nat)
    requires i < |toks|
  {
    var j := toks[i].partner;
    && i < j < |toks| && toks[j].kind == CloseParen && toks[j].partner == i && toks[j].depth == toks[i].depth
    && forall m :: i < m < j ==> toks[m].depth > toks[i].depth
  }

  ghost predicate Unclosed(toks: seq<Token>, i: nat)
    requires i < |toks|
  {
    toks[i].partner == -1 && forall m :: i < m < |toks| ==> toks[m].depth > toks[i].depth
  }

  ghost predicate PointsBack(toks: seq<Token>, j: nat)
    requires j < |toks|
  {
    0 <= toks[j].partner < j && toks[toks[j].partner].kind == OpenParen && toks[toks[j].partner].partner == j
  }

  ghost predicate PositionOk(toks: seq<Token>, i: nat)
    requires i < |toks|
  {
    && (toks[i].kind == OpenParen ==> Closed(toks, i) || Unclosed(toks, i))
    && (toks[i].kind == CloseParen ==> PointsBack(toks, i))
    && (IsSeparator(toks[i]) ==> Linked(toks, i) || Unlinked(toks, i))
  }

  /** What every stretch of tokens handed to the parser satisfies. */
  ghost predicate WellLinked(toks: seq<Token>) {
    forall i :: 0 <= i < |toks| ==> PositionOk(toks, i)
  }

  /** The stacks hold the open parentheses and, for each, the last separator of its list. */
  ghost predicate StackOk(s: Lexer, k: nat)
    requires k < |s.brackets| == |s.commas|
  {
    var b, c := s.brackets[k], s.commas[k];
    && b <= c < |s.tokens|
    && s.tokens[b].kind == OpenParen && s.tokens[b].depth == k && Unclosed(s.tokens, b)
    && IsSeparator(s.tokens[c]) && Level(s.tokens[c]) == k + 1 && Unlinked(s.tokens, c)
  }

  ghost predicate OpenOk(s: Lexer, i: nat)
    requires i < |s.tokens|
  {
    s.tokens[i].kind == OpenParen ==> Closed(s.tokens, i) || i in s.brackets
  }

  ghost predicate CloseOk(s: Lexer, j: nat)
    requires j < |s.tokens|
  {
    s.tokens[j].kind == CloseParen ==> PointsBack(s.tokens, j)
  }

  ghost predicate SeparatorOk(s: Lexer, k: nat)
    requires k < |s.tokens|
  {
    IsSeparator(s.tokens[k]) ==> Linked(s.tokens, k) || k in s.commas
  }

  ghost predicate Inv(s: Lexer) {
    && |s.brackets| == |s.commas|
    && (forall k :: 0 <= k < |s.brackets| ==> StackOk(s, k))
    && (forall i :: 0 <= i < |s.tokens| ==> OpenOk(s, i))
    && (forall j :: 0 <= j < |s.tokens| ==> CloseOk(s, j))
    && (forall k :: 0 <= k < |s.tokens| ==> SeparatorOk(s, k))
  }

  lemma InvWellLinked(s: Lexer)
    requires Inv(s)
    ensures WellLinked(s.tokens)
  {
    forall i | 0 <= i < |s.tokens|
      ensures PositionOk(s.tokens, i)
    {
      assert OpenOk(s, i) && CloseOk(s, i) && SeparatorOk(s, i);
      if i in s.brackets {
        var k :| 0 <= k < |s.brackets| && s.brackets[k] == i;
        assert StackOk(s, k);
      }
      if i in s.commas {
        var k :| 0 <= k < |s.commas| && s.commas[k] == i;
        assert StackOk(s, k);
      }
    }
  }

  // ---------- one unit ----------

  function PushToken(s: Lexer, t: Token): Lexer {
    s.(tokens := s.tokens + [t])
  }

  function Open(s: Lexer): Lexer {
    var n := |s.tokens|;
    Lexer(s.tokens + [Plain(OpenParen, "(", |s.brackets|)], s.brackets + [n], s.commas + [n])
  }

  function Close(s: Lexer): (r: Result<Lexer>)
    requires Inv(s)
  {
    if s.brackets == [] then Err
    else
      var n, d := |s.tokens|, |s.brackets| - 1;
      var b, c := s.brackets[d], s.commas[d];
      assert StackOk(s, d);
      var t := Token(CloseParen, ")", d, b, c, -1, -1);
      var toks := s.tokens[b := s.tokens[b].(partner := n)];
      var toks' := toks[c := toks[c].(linkNext := n)];
      Ok(Lexer(toks' + [t], s.brackets[..d], s.commas[..d]))
  }

  /** Outside parentheses the pop yields nothing and the link assignment throws. */
  function Separate(s: Lexer): (r: Result<Lexer>)
    requires Inv(s)
  {
    if s.commas == [] then Err
    else
      var n, d := |s.tokens|, |s.commas| - 1;
      var c := s.commas[d];
      assert StackOk(s, d);
      var t := Token(Comma, ",", |s.brackets|, -1, c, -1, -1);
      Ok(Lexer(s.tokens[c := s.tokens[c].(linkNext := n)] + [t], s.brackets, s.commas[..d] + [n]))
  }

  /** The closing bracket, and a number before it, are folded into the opening bracket's token. */
  function CloseBracket(s: Lexer): (r: Result<Lexer>)
    requires TextsOk(s.tokens)
  {
    var n := |s.tokens|;
    if n > 0 && s.tokens[n - 1].kind == Number then
      var digits := s.tokens[n - 1].text;
      if n == 1 || Parse(digits) > MAX_SAFE || s.tokens[n - 2].kind != Bracket then Err
      else
        var t := s.tokens[n - 2];
        Ok(s.(tokens := s.tokens[..n - 2] + [t.(text := t.text + (digits + "]"), value := Parse(digits))]))
    else if n == 0 || s.tokens[n - 1].kind != Bracket then Err
    else
      var t := s.tokens[n - 1];
      Ok(s.(tokens := s.tokens[..n - 1] + [t.(text := t.text + "]")]))
  }

  function WordKind(word: string): Kind {
    if IsKeyword(word) then Keyword else if IsTypeText(word) then Type else Id
  }

  /** What the text and value of a token are, by its kind. */
  predicate TextOk(t: Token) {
    && (t.kind == Number ==> AllDigits(t.text))
    && (t.kind == Type ==> IsTypeText(t.text))
    && (t.kind == Bracket ==> -1 <= t.value <= MAX_SAFE)
  }

  ghost predicate TextsOk(toks: seq<Token>) {
    forall i :: 0 <= i < |toks| ==> TextOk(toks[i])
  }

  function Apply(s: Lexer, u: Unit): (r: Result<Lexer>)
    requires Inv(s) && TextsOk(s.tokens)
    requires u.Simple? ==> IsSimple(u.c)
  {
    match u
    case Simple(c) =>
      if c == '(' then Ok(Open(s))
      else if c == ')' then Close(s)
      else if c == ',' then Separate(s)
      else if c == '[' then Ok(PushToken(s, Plain(Bracket, "[", |s.brackets|)))
      else if c == ']' then CloseBracket(s)
      else Ok(PushToken(s, Plain(At, "@", |s.brackets|)))
    case Word(w) => Ok(PushToken(s, Plain(WordKind(w), w, |s.brackets|)))
    case Digits(d) => Ok(PushToken(s, Plain(Number, d, |s.brackets|)))
  }

  // ---------- every unit keeps the invariant ----------

  /** `next` keeps the tokens of `toks` up to their links and adds tokens behind them. */
  ghost predicate Grows(toks: seq<Token>, next: seq<Token>) {
    |toks| <= |next| &&
    forall i :: 0 <= i < |toks| ==> next[i].kind == toks[i].kind && next[i].depth == toks[i].depth
  }

  lemma KeepsLinked(toks: seq<Token>, next: seq<Token>, k: nat)
    requires Grows(toks, next) && k < |toks| && next[k].linkNext == toks[k].linkNext && Linked(toks, k)
    ensures Linked(next, k)
  {
  }

  lemma KeepsUnlinked(toks: seq<Token>, next: seq<Token>, k: nat)
    requires Grows(toks, next) && k < |toks| && next[k].linkNext == toks[k].linkNext && Unlinked(toks, k)
    requires forall m :: |toks| <= m < |next| ==> InItem(next[m], Level(toks[k]))
    ensures Unlinked(next, k)
  {
  }

  lemma KeepsClosed(toks: seq<Token>, next: seq<Token>, i: nat)
    requires Grows(toks, next) && i < |toks| && Closed(toks, i)
    requires next[i].partner == toks[i].partner && next[toks[i].partner].partner == i
    ensures Closed(next, i)
  {
  }

  lemma KeepsUnclosed(toks: seq<Token>, next: seq<Token>, i: nat)
    requires Grows(toks, next) && i < |toks| && Unclosed(toks, i) && next[i].partner == -1
    requires forall m :: |toks| <= m < |next| ==> next[m].depth > toks[i].depth
    ensures Unclosed(next, i)
  {
  }

  /** The entry below the top of the stacks, when only the entry `d` has its links changed. */
  lemma KeepsStackOk(s: Lexer, s': Lexer, k: nat)
    requires Inv(s) && Grows(s.tokens, s'.tokens)
    requires k < |s.brackets| && k < |s'.brackets| == |s'.commas|
    requires StackOk(s, k) && s'.brackets[k] == s.brackets[k] && s'.commas[k] == s.commas[k]
    requires s'.tokens[s.brackets[k]].partner == s.tokens[s.brackets[k]].partner
    requires s'.tokens[s.commas[k]].linkNext == s.tokens[s.commas[k]].linkNext
    requires forall m :: |s.tokens| <= m < |s'.tokens| ==>
               s'.tokens[m].depth > k && !(s'.tokens[m].kind == Comma && s'.tokens[m].depth == k + 1)
    ensures StackOk(s', k)
  {
    KeepsUnclosed(s.tokens, s'.tokens, s.brackets[k]);
    KeepsUnlinked(s.tokens, s'.tokens, s.commas[k]);
  }

  /** Entries of the stacks stand at different levels, so they are different tokens. */
  lemma StackDistinct(s: Lexer, k: nat, m: nat)
    requires Inv(s) && k < |s.brackets| && m < |s.brackets| && k != m
    ensures s.brackets[k] != s.brackets[m] && s.commas[k] != s.commas[m]
  {
    assert StackOk(s, k) && StackOk(s, m);
  }

  lemma PlainKeepsInv(s: Lexer, t: Token)
    requires Inv(s) && t.depth == |s.brackets| && !IsSeparator(t) && t.kind != CloseParen
    ensures Inv(PushToken(s, t))
  {
    var s' := PushToken(s, t);
    forall k | 0 <= k < |s.brackets|
      ensures StackOk(s', k)
    {
      assert StackOk(s, k);
      KeepsStackOk(s, s', k);
    }
    OthersKeep(s, s', -1, -1);
  }

  /** Tokens whose own links are unchanged stay right, apart from the two named ones. */
  lemma OthersKeep(s: Lexer, s': Lexer, b: int, c: int)
    requires Inv(s) && Grows(s.tokens, s'.tokens)
    requires forall i :: 0 <= i < |s.tokens| && i != b ==> s'.tokens[i].partner == s.tokens[i].partner
    requires forall i :: 0 <= i < |s.tokens| && i != c ==> s'.tokens[i].linkNext == s.tokens[i].linkNext
    requires b >= 0 ==> b in s.brackets
    requires forall i :: i in s.brackets && i != b ==> i in s'.brackets
    requires forall k :: k in s.commas && k != c ==> k in s'.commas
    ensures forall i :: 0 <= i < |s.tokens| && i != b ==> OpenOk(s', i)
    ensures forall j :: 0 <= j < |s.tokens| ==> CloseOk(s', j)
    ensures forall k :: 0 <= k < |s.tokens| && k != c ==> SeparatorOk(s', k)
  {
    if b >= 0 {
      var d :| 0 <= d < |s.brackets| && s.brackets[d] == b;
      assert StackOk(s, d);
    }
    forall i | 0 <= i < |s.tokens| && i != b
      ensures OpenOk(s', i)
    {
      assert OpenOk(s, i);
      if s.tokens[i].kind == OpenParen && Closed(s.tokens, i) {
        KeepsClosed(s.tokens, s'.tokens, i);
      }
    }
    forall j | 0 <= j < |s.tokens|
      ensures CloseOk(s', j)
    {
      assert CloseOk(s, j);
    }
    forall k | 0 <= k < |s.tokens| && k != c
      ensures SeparatorOk(s', k)
    {
      assert SeparatorOk(s, k);
      if IsSeparator(s.tokens[k]) && Linked(s.tokens, k) {
        KeepsLinked(s.tokens, s'.tokens, k);
      }
    }
  }

  lemma OpenKeepsInv(s: Lexer)
    requires Inv(s)
    ensures Inv(Open(s))
  {
    var s' := Open(s);
    var n, d := |s.tokens|, |s.brackets|;
    forall k | 0 <= k < d
      ensures StackOk(s', k)
    {
      assert StackOk(s, k);
      KeepsStackOk(s, s', k);
    }
    assert s'.brackets[d] == n && s'.commas[d] == n;
    assert StackOk(s', d);
    OthersKeep(s, s', -1, -1);
    assert n in s'.brackets && n in s'.commas;
  }

  lemma ClosePairs(s: Lexer)
    requires Inv(s) && Close(s).Ok?
    ensures var toks, d := Close(s).value.tokens, |s.brackets| - 1;
            && Grows(s.tokens, toks)
            && StackOk(s, d)
            && Closed(toks, s.brackets[d]) && Linked(toks, s.commas[d]) && PointsBack(toks, |s.tokens|)
  {
    assert StackOk(s, |s.brackets| - 1);
  }

  /** The entries below the top are at least two levels out, and their tokens are not touched. */
  lemma CloseKeepsStack(s: Lexer, k: nat)
    requires Inv(s) && Close(s).Ok? && k < |s.brackets| - 1
    ensures StackOk(Close(s).value, k)
  {
    var s' := Close(s).value;
    assert StackOk(s, |s.brackets| - 1) && StackOk(s, k);
    StackDistinct(s, k, |s.brackets| - 1);
    ClosePairs(s);
    KeepsStackOk(s, s', k);
  }

  /** The tokens that are not patched, and those that are. */
  lemma CloseKeepsTokens(s: Lexer)
    requires Inv(s) && Close(s).Ok?
    ensures var s' := Close(s).value;
            forall i :: 0 <= i < |s'.tokens| ==> OpenOk(s', i) && CloseOk(s', i) && SeparatorOk(s', i)
  {
    var s', d := Close(s).value, |s.brackets| - 1;
    assert StackOk(s, d);
    ClosePairs(s);
    hide StackOk, Closed, Linked, PointsBack, Unclosed, Unlinked;
    OthersKeep(s, s', s.brackets[d], s.commas[d]);
  }

  lemma CloseKeepsInv(s: Lexer)
    requires Inv(s) && Close(s).Ok?
    ensures Inv(Close(s).value)
  {
    var s', d := Close(s).value, |s.brackets| - 1;
    CloseKeepsTokens(s);
    hide StackOk, OpenOk, CloseOk, SeparatorOk;
    forall k | 0 <= k < d
      ensures StackOk(s', k)
    {
      CloseKeepsStack(s, k);
    }
  }

  lemma SeparateKeepsStack(s: Lexer, k: nat)
    requires Inv(s) && Separate(s).Ok? && k < |s.commas| - 1
    ensures StackOk(Separate(s).value, k)
  {
    var s' := Separate(s).value;
    assert StackOk(s, |s.commas| - 1) && StackOk(s, k);
    StackDistinct(s, k, |s.commas| - 1);
    KeepsStackOk(s, s', k);
  }

  /** The comma ends the item of the separator before it and starts one of its own. */
  lemma SeparateTop(s: Lexer)
    requires Inv(s) && Separate(s).Ok?
    ensures var s', d := Separate(s).value, |s.commas| - 1;
            StackOk(s, d) && StackOk(s', d) && Linked(s'.tokens, s.commas[d])
  {
    var s', d := Separate(s).value, |s.commas| - 1;
    assert StackOk(s, d);
    KeepsUnclosed(s.tokens, s'.tokens, s.brackets[d]);
  }

  lemma SeparateKeepsInv(s: Lexer)
    requires Inv(s) && Separate(s).Ok?
    ensures Inv(Separate(s).value)
  {
    var s' := Separate(s).value;
    var n, d := |s.tokens|, |s.commas| - 1;
    SeparateTop(s);
    assert StackOk(s, d);
    assert Grows(s.tokens, s'.tokens);
    hide StackOk, Closed, Linked, PointsBack, Unclosed, Unlinked;
    forall k | 0 <= k < d
      ensures StackOk(s', k)
    {
      SeparateKeepsStack(s, k);
    }
    OthersKeep(s, s', -1, s.commas[d]);
    assert s'.commas[d] == n && n in s'.commas;
  }

  /** Forgetting a last token that nothing can refer to. */
  lemma DropKeepsInv(s: Lexer)
    requires Inv(s) && s.tokens != []
    requires var t := s.tokens[|s.tokens| - 1]; !IsSeparator(t) && t.kind != CloseParen
    ensures Inv(s.(tokens := s.tokens[..|s.tokens| - 1]))
  {
    var s' := s.(tokens := s.tokens[..|s.tokens| - 1]);
    forall k | 0 <= k < |s.brackets|
      ensures StackOk(s', k)
    {
      assert StackOk(s, k);
    }
    forall i | 0 <= i < |s'.tokens|
      ensures OpenOk(s', i) && CloseOk(s', i) && SeparatorOk(s', i)
    {
      assert OpenOk(s, i) && CloseOk(s, i) && SeparatorOk(s, i);
      if IsSeparator(s.tokens[i]) && Linked(s.tokens, i) {
        assert Linked(s'.tokens, i);
      }
    }
  }

  /** Changing the text or value of the last token. */
  lemma RetextKeepsInv(s: Lexer, text: string, value: int)
    requires Inv(s) && s.tokens != [] && !IsSeparator(s.tokens[|s.tokens| - 1])
    ensures var n := |s.tokens|;
            Inv(s.(tokens := s.tokens[..n - 1] + [s.tokens[n - 1].(text := text, value := value)]))
  {
    var n := |s.tokens|;
    var s' := s.(tokens := s.tokens[..n - 1] + [s.tokens[n - 1].(text := text, value := value)]);
    forall k | 0 <= k < |s.brackets|
      ensures StackOk(s', k)
    {
      assert StackOk(s, k);
      KeepsStackOk(s, s', k);
    }
    OthersKeep(s, s', -1, -1);
  }

  lemma CloseBracketKeepsInv(s: Lexer)
    requires Inv(s) && TextsOk(s.tokens) && CloseBracket(s).Ok?
    ensures Inv(CloseBracket(s).value) && TextsOk(CloseBracket(s).value.tokens)
  {
    var n := |s.tokens|;
    if s.tokens[n - 1].kind == Number {
      DropKeepsInv(s);
      var s1 := s.(tokens := s.tokens[..n - 1]);
      var t := s.tokens[n - 2];
      RetextKeepsInv(s1, t.text + (s.tokens[n - 1].text + "]"), Parse(s.tokens[n - 1].text));
      assert s1.tokens[..n - 2] == s.tokens[..n - 2];
    } else {
      RetextKeepsInv(s, s.tokens[n - 1].text + "]", s.tokens[n - 1].value);
    }
  }

  lemma ApplyKeepsInv(s: Lexer, u: Unit)
    requires Inv(s) && TextsOk(s.tokens)
    requires u.Simple? ==> IsSimple(u.c)
    requires u.Digits? ==> AllDigits(u.digits)
    requires Apply(s, u).Ok?
    ensures Inv(Apply(s, u).value) && TextsOk(Apply(s, u).value.tokens)
  {
    var depth := |s.brackets|;
    match u
    case Simple(c) =>
      if c == '(' {
        OpenKeepsInv(s);
      } else if c == ')' {
        CloseKeepsInv(s);
        CloseKeepsDigits(s);
      } else if c == ',' {
        SeparateKeepsInv(s);
        SeparateKeepsDigits(s);
      } else if c == '[' {
        PlainKeepsInv(s, Plain(Bracket, "[", depth));
      } else if c == ']' {
        CloseBracketKeepsInv(s);
      } else {
        PlainKeepsInv(s, Plain(At, "@", depth));
      }
    case Word(w) => PlainKeepsInv(s, Plain(WordKind(w), w, depth));
    case Digits(d) => PlainKeepsInv(s, Plain(Number, d, depth));
  }

  lemma CloseKeepsDigits(s: Lexer)
    requires Inv(s) && TextsOk(s.tokens) && Close(s).Ok?
    ensures TextsOk(Close(s).value.tokens)
  {
    assert StackOk(s, |s.brackets| - 1);
  }

  lemma SeparateKeepsDigits(s: Lexer)
    requires Inv(s) && TextsOk(s.tokens) && Separate(s).Ok?
    ensures TextsOk(Separate(s).value.tokens)
  {
    assert StackOk(s, |s.brackets| - 1);
  }

  // ---------- the whole text ----------

  /** `s` is a state the lexer can be in. */
  ghost predicate Reachable(s: Lexer) {
    Inv(s) && TextsOk(s.tokens)
  }

  /** The rest of the text, lexed from state `s`; white space at the very end is an error. */
  ghost function Run(text: string, offset: nat, s: Lexer): (r: Result<Lexer>)
    requires offset <= |text| && Reachable(s)
    ensures r.Ok? ==> Reachable(r.value)
    decreases |text| - offset
  {
    if offset == |text| then Ok(s)
    else
      var u :- NextUnit(text, SkipSpace(text, offset));
      var s' :- Apply(s, u.0);
      ApplyKeepsInv(s, u.0);
      Run(text, u.1, s')
  }

  ghost function Lex(text: string): (r: Result<seq<Token>>)
    ensures r.Ok? ==> WellLinked(r.value)
  {
    var s :- Run(text, 0, START);
    InvWellLinked(s);
    Ok(s.tokens)
  }

  /** The branch of `lex` that removes a closing bracket again. */
  method FoldBracket(toks: seq<Token>) returns (r: Result<seq<Token>>)
    requires TextsOk(toks)
    ensures var folded := CloseBracket(START.(tokens := toks));
            r == match folded case Ok(s) => Ok(s.tokens) case Err => Err
  {
    var tokens, suffix, n := toks, "]", |toks|;
    var value: Option<nat> := None;
    if |tokens| > 0 && tokens[n - 1].kind == Number {
      var digits := tokens[n - 1].text;
      tokens := tokens[..n - 1];
      suffix := digits + suffix;
      if |tokens| == 0 || Parse(digits) > MAX_SAFE {
        return Err;
      }
      value := Some(Parse(digits));
    }
    if |tokens| == 0 || tokens[|tokens| - 1].kind != Bracket {
      return Err;
    }
    var t := tokens[|tokens| - 1];
    var t' := t.(text := t.text + suffix, value := if value.Some? then value.value else t.value);
    assert tokens[..|tokens| - 1] == toks[..|tokens| - 1];
    r := Ok(tokens[..|tokens| - 1] + [t']);
  }

  /** The body of the loop: the locals of `lex` after one of the six characters. */
  method AcceptSimple(s: Lexer, c: char) returns (r: Result<Lexer>)
    requires Reachable(s) && IsSimple(c)
    ensures r == Apply(s, Simple(c))
  {
    var tokens, brackets, commas := s.tokens, s.brackets, s.commas;
    var n := |tokens|;
    if c == '(' {
      tokens := tokens + [Plain(OpenParen, "(", |brackets|)];
      brackets := brackets + [n];
      commas := commas + [n];
    } else if c == ')' {
      if |brackets| == 0 {
        return Err;
      }
      assert StackOk(s, |brackets| - 1);
      var open := brackets[|brackets| - 1];
      brackets := brackets[..|brackets| - 1];
      tokens := tokens[open := tokens[open].(partner := n)];
      var back := commas[|commas| - 1];
      commas := commas[..|commas| - 1];
      tokens := tokens[back := tokens[back].(linkNext := n)];
      tokens := tokens + [Token(CloseParen, ")", |brackets|, open, back, -1, -1)];
    } else if c == ',' {
      if |commas| == 0 {
        return Err;
      }
      assert StackOk(s, |commas| - 1);
      var back := commas[|commas| - 1];
      tokens := tokens[back := tokens[back].(linkNext := n)];
      tokens := tokens + [Token(Comma, ",", |brackets|, -1, back, -1, -1)];
      commas := commas[..|commas| - 1] + [n];
    } else if c == '[' {
      tokens := tokens + [Plain(Bracket, "[", |brackets|)];
    } else if c == ']' {
      var folded := FoldBracket(tokens);
      if folded.Err? {
        return Err;
      }
      tokens := folded.value;
    } else {
      tokens := tokens + [Plain(At, "@", |brackets|)];
    }
    r := Ok(Lexer(tokens, brackets, commas));
  }

  /** `lex`: the loop over the text, patching the links of earlier tokens. */
  method LexText(text: string) returns (r: Result<seq<Token>>)
    ensures r == Lex(text)
  {
    var s := START;
    var offset := 0;
    while offset < |text|
      invariant 0 <= offset <= |text|
      invariant Reachable(s)
      invariant Run(text, 0, START) == Run(text, offset, s)
    {
      var unit := NextUnit(text, SkipSpace(text, offset));
      if unit.Err? {
        return Err;
      }
      var next: Result<Lexer>;
      match unit.value.0 {
        case Simple(c) => next := AcceptSimple(s, c);
        case Word(w) => next := Ok(s.(tokens := s.tokens + [Plain(WordKind(w), w, |s.brackets|)]));
        case Digits(d) => next := Ok(s.(tokens := s.tokens + [Plain(Number, d, |s.brackets|)]));
      }
      if next.Err? {
        return Err;
      }
      ApplyKeepsInv(s, unit.value.0);
      s := next.value;
      offset := unit.value.1;
    }
    r := Ok(s.tokens);
  }
}
