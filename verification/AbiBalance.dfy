/** Which texts the lexer takes: balance, closing brackets, and white space at the end. */
module AbiBalance {
  import opened Wrappers
  import opened Bytes
  import opened Decimal
  import opened Sequences
  import opened AbiLexer
  import opened AbiTokenString
  import opened AbiParamType
  import opened AbiSighash

  // ---------- white space at the end ----------

  lemma UnitEndsInText(text: string, i: nat)
    requires i <= |text| && NextUnit(text, i).Ok?
    ensures !IsSpace(text[NextUnit(text, i).value.1 - 1])
  {
    assert IsSimple(text[i]) || IsIdStart(text[i]) || IsDigit(text[i]);
  }

  lemma {:induction false} RunStopsAtSpace(text: string, off: nat, s: Lexer)
    requires off < |text| && IsSpace(text[|text| - 1]) && Reachable(s)
    ensures Run(text, off, s) == Err
    decreases |text| - off
  {
    hide Apply, Inv, IsSpace;
    var u := NextUnit(text, SkipSpace(text, off));
    if u.Ok? && Apply(s, u.value.0).Ok? {
      UnitEndsInText(text, SkipSpace(text, off));
      ApplyKeepsInv(s, u.value.0);
      RunStopsAtSpace(text, u.value.1, Apply(s, u.value.0).value);
    }
  }

  /** A text that ends in white space is never accepted, though white space anywhere else is skipped. */
  lemma TrailingSpaceRejected(text: string)
    requires text != "" && IsSpace(text[|text| - 1])
    ensures Lex(text) == Err
  {
    hide Run, Inv;
    StartReachable();
    RunStopsAtSpace(text, 0, START);
  }

  lemma StartReachable()
    ensures Reachable(START)
  {
  }

  // ---------- balance ----------

  /** How often the character occurs from `i` on. */
  function CountFrom(text: string, i: nat, c: char): nat
    requires i <= |text|
    decreases |text| - i
  {
    if i == |text| then 0 else (if text[i] == c then 1 else 0) + CountFrom(text, i + 1, c)
  }

  lemma {:induction false} CountSpan(text: string, i: nat, j: nat, c: char)
    requires i <= j <= |text| && forall k :: i <= k < j ==> text[k] != c
    ensures CountFrom(text, i, c) == CountFrom(text, j, c)
    decreases j - i
  {
    if i < j {
      CountSpan(text, i + 1, j, c);
    }
  }

  lemma {:induction false} SpacesSkipped(text: string, i: nat)
    requires i <= |text|
    ensures forall k :: i <= k < SkipSpace(text, i) ==> IsSpace(text[k])
    decreases |text| - i
  {
    hide IsSpace;
    if i < |text| && IsSpace(text[i]) {
      SpacesSkipped(text, i + 1);
    }
  }

  /** What a unit adds to the number of open parentheses. */
  function Opens(u: Unit): int {
    if u == Simple('(') then 1 else if u == Simple(')') then -1 else 0
  }

  lemma UnitCounts(text: string, i: nat)
    requires i <= |text| && NextUnit(text, i).Ok?
    ensures var u := NextUnit(text, i).value;
            CountFrom(text, i, '(') - CountFrom(text, i, ')') ==
            Opens(u.0) + CountFrom(text, u.1, '(') - CountFrom(text, u.1, ')')
  {
    var u := NextUnit(text, i).value;
    if !IsSimple(text[i]) {
      CountSpan(text, i, u.1, '(');
      CountSpan(text, i, u.1, ')');
    }
  }

  lemma SkipCounts(text: string, i: nat)
    requires i <= |text|
    ensures CountFrom(text, i, '(') == CountFrom(text, SkipSpace(text, i), '(')
    ensures CountFrom(text, i, ')') == CountFrom(text, SkipSpace(text, i), ')')
  {
    SpacesSkipped(text, i);
    CountSpan(text, i, SkipSpace(text, i), '(');
    CountSpan(text, i, SkipSpace(text, i), ')');
  }

  lemma ApplyOpens(s: Lexer, u: Unit)
    requires Reachable(s) && (u.Simple? ==> IsSimple(u.c)) && Apply(s, u).Ok?
    ensures |Apply(s, u).value.brackets| == |s.brackets| + Opens(u)
  {
  }

  /** The stack of open parentheses has the height that the counts say. */
  lemma {:induction false} RunCounts(text: string, off: nat, s: Lexer)
    requires off <= |text| && Reachable(s) && Run(text, off, s).Ok?
    ensures |Run(text, off, s).value.brackets| ==
            |s.brackets| + CountFrom(text, off, '(') - CountFrom(text, off, ')')
    decreases |text| - off
  {
    hide Apply, Inv, NextUnit, Opens;
    if off < |text| {
      var i := SkipSpace(text, off);
      var u := NextUnit(text, i).value;
      SkipCounts(text, off);
      UnitCounts(text, i);
      ApplyKeepsInv(s, u.0);
      ApplyOpens(s, u.0);
      RunCounts(text, u.1, Apply(s, u.0).value);
    }
  }

  /** Every opening parenthesis has its closing one, at equal depth. */
  ghost predicate AllClosed(toks: seq<Token>) {
    forall i :: 0 <= i < |toks| && toks[i].kind == OpenParen ==> IsList(toks, i)
  }

  /** Every separator leads on to the next one of its list or to its end. */
  ghost predicate AllLinked(toks: seq<Token>) {
    forall k :: 0 <= k < |toks| && IsSeparator(toks[k]) ==> Linked(toks, k)
  }

  lemma NothingOpen(s: Lexer)
    requires Inv(s)
    ensures AllClosed(s.tokens) <==> s.brackets == []
    ensures s.brackets == [] ==> AllLinked(s.tokens)
  {
    if s.brackets == [] {
      forall i | 0 <= i < |s.tokens| && s.tokens[i].kind == OpenParen
        ensures IsList(s.tokens, i)
      {
        assert OpenOk(s, i);
      }
      forall k | 0 <= k < |s.tokens| && IsSeparator(s.tokens[k])
        ensures Linked(s.tokens, k)
      {
        assert SeparatorOk(s, k);
      }
    } else {
      assert StackOk(s, 0);
      assert !IsList(s.tokens, s.brackets[0]);
    }
  }

  /**
   * In an accepted text every parenthesis is matched if and only if it has as many opening as
   * closing ones. Then the links of every list lead from each separator to the next, up to the end.
   */
  lemma MatchedIffBalanced(text: string)
    requires Lex(text).Ok?
    ensures AllClosed(Lex(text).value) <==> CountFrom(text, 0, '(') == CountFrom(text, 0, ')')
    ensures CountFrom(text, 0, '(') == CountFrom(text, 0, ')') ==> AllLinked(Lex(text).value)
    ensures CountFrom(text, 0, '(') >= CountFrom(text, 0, ')')
  {
    hide Inv, Run, AllClosed, AllLinked;
    StartReachable();
    RunCounts(text, 0, START);
    NothingOpen(Run(text, 0, START).value);
  }

  /** An opening parenthesis alone is accepted and stays open. */
  lemma UnclosedAccepted()
    ensures Lex("(").Ok? && !AllClosed(Lex("(").value)
  {
    hide Inv, AllClosed, Apply;
    StartReachable();
    StepOpen("(", 0, START);
    MatchedIffBalanced("(");
    assert CountFrom("(", 1, '(') == 0 && CountFrom("(", 1, ')') == 0;
  }

  // ---------- closing brackets ----------

  /** A closing bracket may follow a bracket, or a safe number right behind one. */
  predicate TakesClosing(toks: seq<Token>) {
    var n := |toks|;
    n > 0 && (toks[n - 1].kind == Bracket ||
              (n > 1 && toks[n - 1].kind == Number && AllDigits(toks[n - 1].text) &&
               Parse(toks[n - 1].text) <= MAX_SAFE && toks[n - 2].kind == Bracket))
  }

  lemma ClosingIff(s: Lexer)
    requires Reachable(s)
    ensures Apply(s, Simple(']')).Ok? <==> TakesClosing(s.tokens)
    ensures Apply(s, Simple(']')).Ok? ==> TakesClosing(Apply(s, Simple(']')).value.tokens)
  {
    hide Inv;
  }

  predicate OnlyClosings(text: string, off: nat) {
    forall k :: off <= k < |text| ==> text[k] == ']'
  }

  /** Once a closing bracket is taken, any number of them is. */
  lemma {:induction false} ClosingsTaken(text: string, off: nat, s: Lexer)
    requires off <= |text| && OnlyClosings(text, off) && Reachable(s)
    ensures Run(text, off, s).Ok? <==> off == |text| || TakesClosing(s.tokens)
    decreases |text| - off
  {
    hide Apply, Inv, TakesClosing;
    if off < |text| {
      ClosingIff(s);
      assert SkipSpace(text, off) == off;
      if Apply(s, Simple(']')).Ok? {
        ApplyKeepsInv(s, Simple(']'));
        StepSimple(text, off, s, ']');
        ClosingsTaken(text, off + 1, Apply(s, Simple(']')).value);
      }
    }
  }

  /** A fixed length with any number of closing brackets too many. */
  lemma ExtraClosingsAccepted(text: string, length: nat)
    requires length <= MAX_SAFE && StandsAt(text, 0, LengthText(length)) && OnlyClosings(text, |LengthText(length)|)
    ensures Lex(text).Ok?
  {
    hide Run, Inv, LengthText;
    StartReachable();
    LexLength(text, 0, START, length);
    StandsAtEnds(text, 0, LengthText(length));
    ClosingsTaken(text, |LengthText(length)|, PushToken(START, LengthToken(length, 0)));
  }

  lemma BracketTwiceAccepted()
    ensures Lex("[3]]").Ok?
  {
    hide Lex;
    assert LengthText(3) == "[3]" by {
      assert Print(3) == "3";
    }
    assert "[3]]"[0..0 + 3] == "[3]";
    ExtraClosingsAccepted("[3]]", 3);
  }
}
