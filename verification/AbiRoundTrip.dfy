/** Printing a parameter type and parsing the text again. */
module AbiRoundTrip {
  import opened Wrappers
  import opened Bytes
  import opened Decimal
  import opened AbiLexer
  import opened AbiTokenString
  import opened AbiParamType

  /** Basic types are verified ones, and array lengths are safe integers. */
  predicate Printable(p: ParamType)
    decreases p
  {
    match p
    case Basic(typ, _, _) => VerifyBasicType(typ) == Ok(typ)
    case Tuple(_, components, _, _) => forall i :: 0 <= i < |components| ==> Printable(components[i])
    case Array(_, child, length, _, _) => length <= MAX_SAFE && Printable(child)
  }

  /** The tree without names and `indexed`, its type texts rewritten from the leaves up. */
  function Normal(p: ParamType): (r: ParamType)
    decreases p
  {
    match p
    case Basic(typ, _, _) => Basic(typ, "", None)
    case Tuple(_, components, _, _) =>
      var comps := NormalAll(components);
      Tuple("tuple(" + FormatAll(comps) + ")", comps, "", None)
    case Array(_, child, length, _, _) =>
      var c := Normal(child);
      Array(c.typ + LengthText(length), c, if length < 0 then -1 else length, "", None)
  }

  function NormalAll(ps: seq<ParamType>): (r: seq<ParamType>)
    ensures |r| == |ps|
    decreases ps
  {
    if ps == [] then [] else [Normal(ps[0])] + NormalAll(ps[1..])
  }

  lemma {:induction false} FormatNormal(p: ParamType)
    ensures Format(Normal(p)) == Format(p)
    decreases p
  {
    match p
    case Basic(_, _, _) =>
    case Tuple(_, components, _, _) => FormatAllNormal(components);
    case Array(_, child, _, _, _) => FormatNormal(child);
  }

  lemma {:induction false} FormatAllNormal(ps: seq<ParamType>)
    ensures FormatAll(NormalAll(ps)) == FormatAll(ps)
    decreases ps
  {
    if ps != [] {
      FormatNormal(ps[0]);
      FormatAllNormal(ps[1..]);
      assert NormalAll(ps)[1..] == NormalAll(ps[1..]);
    }
  }

  // ---------- how a type lies in a token list ----------

  /** toks[lo..hi] spells `p`, with the links of its lists in place. */
  ghost predicate Layout(toks: seq<Token>, lo: nat, hi: nat, p: ParamType)
    requires hi <= |toks|
    decreases p, 0
  {
    && lo < hi
    && match p
       case Basic(typ, _, _) => hi == lo + 1 && toks[lo].kind == Type && toks[lo].text == typ
       case Tuple(_, components, _, _) =>
         && lo + 1 < hi && toks[lo].kind == OpenParen && toks[lo].partner == hi - 1
         && ListLayout(toks, lo, hi - 1, components)
       case Array(_, child, length, _, _) =>
         && toks[hi - 1].kind == Bracket && toks[hi - 1].text == LengthText(length)
         && toks[hi - 1].value == (if length < 0 then -1 else length)
         && Layout(toks, lo, hi - 1, child)
  }

  /** From separator `k` the links lead through `ps`, item by item, to the parenthesis at `close`. */
  ghost predicate ListLayout(toks: seq<Token>, k: nat, close: nat, ps: seq<ParamType>)
    requires close < |toks|
    decreases ps, 0
  {
    && k < close && IsSeparator(toks[k])
    && if ps == [] then k + 1 == close
       else
         var n := toks[k].linkNext;
         && k < n <= close && Layout(toks, k + 1, n, ps[0])
         && if |ps| == 1 then n == close else n < close && ListLayout(toks, n, close, ps[1..])
  }

  /** `t'` is `t`, with the indices the parser uses moved by `delta`. */
  predicate Moved(t: Token, t': Token, delta: int) {
    && t'.kind == t.kind && t'.text == t.text && t'.value == t.value
    && (t.kind == OpenParen ==> t'.partner == t.partner + delta)
    && (IsSeparator(t) ==> t'.linkNext == t.linkNext + delta)
  }

  lemma {:induction false} MoveLayout(toks: seq<Token>, lo: nat, hi: nat, next: seq<Token>, delta: int, p: ParamType)
    requires hi <= |toks| && 0 <= lo + delta && hi + delta <= |next| && Layout(toks, lo, hi, p)
    requires forall i :: lo <= i < hi ==> Moved(toks[i], next[i + delta], delta)
    ensures Layout(next, lo + delta, hi + delta, p)
    decreases p, 0
  {
    assert Moved(toks[lo], next[lo + delta], delta) && Moved(toks[hi - 1], next[hi - 1 + delta], delta);
    match p
    case Basic(_, _, _) =>
    case Tuple(_, components, _, _) => MoveListLayout(toks, lo, hi - 1, next, delta, components);
    case Array(_, child, _, _, _) => MoveLayout(toks, lo, hi - 1, next, delta, child);
  }

  lemma {:induction false} MoveListLayout(toks: seq<Token>, k: nat, close: nat, next: seq<Token>, delta: int, ps: seq<ParamType>)
    requires close < |toks| && 0 <= k + delta && close + delta < |next| && ListLayout(toks, k, close, ps)
    requires forall i :: k <= i < close ==> Moved(toks[i], next[i + delta], delta)
    ensures ListLayout(next, k + delta, close + delta, ps)
    decreases ps, 0
  {
    assert Moved(toks[k], next[k + delta], delta);
    if ps != [] {
      var n := toks[k].linkNext;
      MoveLayout(toks, k + 1, n, next, delta, ps[0]);
      if |ps| > 1 {
        MoveListLayout(toks, n, close, next, delta, ps[1..]);
      }
    }
  }

  // ---------- parsing a layout ----------

  lemma ListBalanced(toks: seq<Token>, i: nat)
    requires WellLinked(toks) && i < |toks| && toks[i].kind == OpenParen && toks[i].partner != -1
    ensures IsList(toks, i)
  {
    assert PositionOk(toks, i);
  }

  lemma {:induction false} ParseLayout(toks: seq<Token>, p: ParamType, allowIndexed: bool)
    requires WellLinked(toks) && Layout(toks, 0, |toks|, p) && Printable(p)
    ensures ParseType(toks, allowIndexed) == Ok(Normal(p))
    decreases p, 1
  {
    var base, m := ParseBaseLayout(toks, |toks|, p);
    BracketsUpTo(toks, m, |toks|);
    NormalHasNoName(p);
  }

  lemma NormalHasNoName(p: ParamType)
    ensures Normal(p).name == "" && Normal(p).indexed == None
  {
  }

  lemma {:induction false} BracketsUpTo(toks: seq<Token>, m: nat, hi: nat)
    requires m <= hi == |toks| && forall i :: m <= i < hi ==> toks[i].kind == Bracket
    ensures BracketsEnd(toks, m) == hi
    decreases hi - m
  {
  }

  /** The innermost type is the base, and the brackets behind it build the rest. */
  lemma {:induction false} ParseBaseLayout(toks: seq<Token>, hi: nat, p: ParamType) returns (base: ParamType, m: nat)
    requires WellLinked(toks) && hi <= |toks| && Layout(toks, 0, hi, p) && Printable(p)
    ensures ParseBase(toks) == Ok((base, m)) && m <= hi
    ensures forall i :: m <= i < hi ==> toks[i].kind == Bracket
    ensures WrapAll(toks, m, hi, base) == Normal(p)
    decreases p, 0
  {
    match p
    case Basic(typ, _, _) =>
      base, m := Normal(p), 1;
    case Tuple(_, components, _, _) =>
      ListBalanced(toks, 0);
      assert PoppedParams(toks, 0) == Ok((Segments(toks, 0, 0), hi));
      ParseListLayout(toks, 0, 0, components);
      base, m := Normal(p), hi;
    case Array(_, child, length, _, _) =>
      base, m := ParseBaseLayout(toks, hi - 1, child);
  }

  lemma SliceMoves(toks: seq<Token>, a: nat, n: nat, i: nat, delta: int)
    requires a <= i < n <= |toks| && delta == 0 - a
    ensures |Slice(toks, a, n)| == n - a && Moved(toks[i], Slice(toks, a, n)[i + delta], delta)
  {
    assert toks[a..n][i - a] == toks[i];
  }

  lemma {:induction false} ItemLayout(toks: seq<Token>, k: nat, n: nat, p: ParamType)
    requires k < n <= |toks| && Layout(toks, k + 1, n, p)
    ensures var item := Slice(toks, k + 1, n); Layout(item, 0, |item|, p)
  {
    hide Layout, Moved, Slice;
    var item, delta := Slice(toks, k + 1, n), -(k + 1);
    forall i: nat | k + 1 <= i < n
      ensures |item| == n - (k + 1) && Moved(toks[i], item[i + delta], delta)
    {
      SliceMoves(toks, k + 1, n, i, delta);
    }
    LayoutBegins(toks, k + 1, n, p);
    SliceMoves(toks, k + 1, n, k + 1, delta);
    MoveLayout(toks, k + 1, n, item, delta, p);
  }

  lemma {:induction false} LayoutBegins(toks: seq<Token>, lo: nat, hi: nat, p: ParamType)
    requires hi <= |toks| && Layout(toks, lo, hi, p)
    ensures lo < hi
  {
  }

  lemma ParseAllStep(items: seq<seq<Token>>, n: nat, p: ParamType, ps: seq<ParamType>)
    requires items != [] && forall m :: 0 <= m < |items| ==> |items[m]| < n && WellLinked(items[m])
    requires ParseType(items[0], false) == Ok(p) && ParseAll(items[1..], n) == Ok(ps)
    ensures ParseAll(items, n) == Ok([p] + ps)
  {
  }

  lemma SegmentsUnfold(toks: seq<Token>, i: nat, k: nat)
    requires WellLinked(toks) && IsList(toks, i) && OfList(toks, i, k) && k < toks[i].partner - 1
    ensures var n, s := toks[k].linkNext, Segments(toks, i, k);
            && k < n <= toks[i].partner && WellLinked(Slice(toks, k + 1, n))
            && s != [] && s[0] == Slice(toks, k + 1, n)
            && (n == toks[i].partner ==> s[1..] == [])
            && (n < toks[i].partner ==> OfList(toks, i, n) && s[1..] == Segments(toks, i, n))
  {
    PopStep(toks, i, k);
  }

  lemma {:induction false} ParseListLayout(toks: seq<Token>, i: nat, k: nat, ps: seq<ParamType>)
    requires WellLinked(toks) && IsList(toks, i) && OfList(toks, i, k)
    requires ListLayout(toks, k, toks[i].partner, ps)
    requires forall c :: 0 <= c < |ps| ==> Printable(ps[c])
    ensures ParseAll(Segments(toks, i, k), |toks|) == Ok(NormalAll(ps))
    decreases ps, 1
  {
    if ps != [] {
      var n := toks[k].linkNext;
      SegmentsUnfold(toks, i, k);
      ItemLayout(toks, k, n, ps[0]);
      ParseLayout(Slice(toks, k + 1, n), ps[0], false);
      if |ps| > 1 {
        ParseListLayout(toks, i, n, ps[1..]);
      }
      ParseAllStep(Segments(toks, i, k), |toks|, Normal(ps[0]), NormalAll(ps[1..]));
    }
  }
}
