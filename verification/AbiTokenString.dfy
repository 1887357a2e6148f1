/**
 * Token strings: a token list with a read position. Popping a parameter list follows the links
 * and hands out slices whose indices are rebased to the start of the slice.
 */
module AbiTokenString {
  import opened Wrappers
  import opened AbiLexer

  function Rebase(t: Token, from: nat): Token {
    t.(partner := t.partner - from, linkBack := t.linkBack - from, linkNext := t.linkNext - from)
  }

  function Slice(toks: seq<Token>, from: nat, to: nat): (r: seq<Token>)
    requires from <= to <= |toks|
    ensures |r| == to - from
    ensures forall i :: 0 <= i < |r| ==> r[i] == Rebase(toks[from + i], from)
  {
    seq(to - from, i requires 0 <= i < to - from => Rebase(toks[from + i], from))
  }

  /** A balanced opening parenthesis. */
  ghost predicate IsList(toks: seq<Token>, i: nat) {
    i < |toks| && toks[i].kind == OpenParen && Closed(toks, i)
  }

  /** The parenthesis `i` itself, or one of the commas of its own list. */
  ghost predicate OfList(toks: seq<Token>, i: nat, k: nat)
    requires IsList(toks, i)
  {
    k == i || (i < k < toks[i].partner && toks[k].kind == Comma && toks[k].depth == toks[i].depth + 1)
  }

  /** From any separator of a list, the link leads to the very next one, or to the closing parenthesis. */
  lemma NextOfList(toks: seq<Token>, i: nat, k: nat)
    requires WellLinked(toks) && IsList(toks, i) && OfList(toks, i, k)
    ensures Linked(toks, k)
    ensures var n := toks[k].linkNext;
            && n <= toks[i].partner && (n == toks[i].partner || OfList(toks, i, n))
            && forall m :: k < m < n ==> !OfList(toks, i, m)
  {
    assert PositionOk(toks, k);
    assert toks[toks[i].partner].depth == Level(toks[k]) - 1;
  }

  /** The links followed from `k` up to the closing parenthesis. */
  ghost function Chain(toks: seq<Token>, i: nat, k: nat): (r: seq<nat>)
    requires WellLinked(toks) && IsList(toks, i) && OfList(toks, i, k)
    ensures r != [] && r[|r| - 1] == toks[i].partner
    decreases toks[i].partner - k
  {
    NextOfList(toks, i, k);
    var n := toks[k].linkNext;
    if n == toks[i].partner then [n] else [n] + Chain(toks, i, n)
  }

  /** The chain runs forward through exactly the commas of the list and ends at its parenthesis. */
  lemma {:induction false} ChainVisits(toks: seq<Token>, i: nat, k: nat)
    requires WellLinked(toks) && IsList(toks, i) && OfList(toks, i, k)
    ensures var c := Chain(toks, i, k);
            && (forall m: nat :: m in c <==> m == toks[i].partner || (m > k && OfList(toks, i, m)))
            && (forall a, b :: 0 <= a < b < |c| ==> k < c[a] < c[b])
            && k < c[0]
    decreases toks[i].partner - k
  {
    NextOfList(toks, i, k);
    var n := toks[k].linkNext;
    if n != toks[i].partner {
      ChainVisits(toks, i, n);
    }
  }

  /** What lies between `k` and its next link is well linked by itself, once rebased. */
  lemma ItemWellLinked(toks: seq<Token>, k: nat)
    requires WellLinked(toks) && k < |toks| && IsSeparator(toks[k]) && Linked(toks, k)
    ensures WellLinked(Slice(toks, k + 1, toks[k].linkNext))
  {
    var n := toks[k].linkNext;
    var r := Slice(toks, k + 1, n);
    forall i | 0 <= i < |r|
      ensures PositionOk(r, i)
    {
      ItemPositionOk(toks, k, k + 1 + i);
    }
  }

  /** A parenthesis opened in the item is closed in it. */
  lemma OpenInSlice(toks: seq<Token>, k: nat, m: nat)
    requires WellLinked(toks) && k < |toks| && IsSeparator(toks[k]) && Linked(toks, k)
    requires k < m < toks[k].linkNext && toks[m].kind == OpenParen
    ensures toks[k].linkNext <= |toks| && Closed(Slice(toks, k + 1, toks[k].linkNext), m - k - 1)
  {
    hide WellLinked, Closed, Unclosed, Unlinked;
    ListInItem(toks, k, m);
    SliceClosed(toks, k + 1, toks[k].linkNext, m);
  }

  lemma CloseInSlice(toks: seq<Token>, k: nat, m: nat)
    requires WellLinked(toks) && k < |toks| && IsSeparator(toks[k]) && Linked(toks, k)
    requires k < m < toks[k].linkNext && toks[m].kind == CloseParen
    ensures toks[k].linkNext <= |toks| && PointsBack(Slice(toks, k + 1, toks[k].linkNext), m - k - 1)
  {
    hide WellLinked, PointsBack, Unclosed, Unlinked;
    CloseInItem(toks, k, m);
    SlicePointsBack(toks, k + 1, toks[k].linkNext, m);
  }

  lemma SeparatorInSlice(toks: seq<Token>, k: nat, m: nat)
    requires WellLinked(toks) && k < |toks| && IsSeparator(toks[k]) && Linked(toks, k)
    requires k < m < toks[k].linkNext && IsSeparator(toks[m])
    ensures toks[k].linkNext <= |toks| && Linked(Slice(toks, k + 1, toks[k].linkNext), m - k - 1)
  {
    assert toks[k].linkNext <= |toks|;
    hide WellLinked, Linked, Unclosed, Unlinked;
    LinkInItem(toks, k, m);
    SliceLinked(toks, k + 1, toks[k].linkNext, m);
  }

  lemma SliceKind(toks: seq<Token>, from: nat, to: nat, m: nat)
    requires from <= m < to <= |toks|
    ensures Slice(toks, from, to)[m - from].kind == toks[m].kind
  {
  }

  lemma ItemPositionOk(toks: seq<Token>, k: nat, m: nat)
    requires WellLinked(toks) && k < |toks| && IsSeparator(toks[k]) && Linked(toks, k)
    requires k < m < toks[k].linkNext
    ensures PositionOk(Slice(toks, k + 1, toks[k].linkNext), m - k - 1)
  {
    assert toks[k].linkNext <= |toks|;
    hide WellLinked, Linked, Closed, PointsBack, Unclosed, Unlinked, Rebase;
    SliceKind(toks, k + 1, toks[k].linkNext, m);
    if toks[m].kind == OpenParen {
      OpenInSlice(toks, k, m);
    }
    if toks[m].kind == CloseParen {
      CloseInSlice(toks, k, m);
    }
    if IsSeparator(toks[m]) {
      SeparatorInSlice(toks, k, m);
    }
  }

  lemma SlicePointsBack(toks: seq<Token>, from: nat, to: nat, m: nat)
    requires from <= m < to <= |toks| && PointsBack(toks, m) && toks[m].partner >= from
    ensures PointsBack(Slice(toks, from, to), m - from)
  {
    var r := Slice(toks, from, to);
    assert r[m - from] == Rebase(toks[m], from);
    assert r[toks[m].partner - from] == Rebase(toks[toks[m].partner], from);
  }

  lemma SliceClosed(toks: seq<Token>, from: nat, to: nat, m: nat)
    requires from <= m < to <= |toks| && Closed(toks, m) && toks[m].partner < to
    ensures Closed(Slice(toks, from, to), m - from)
  {
  }

  lemma SliceLinked(toks: seq<Token>, from: nat, to: nat, m: nat)
    requires from <= m < to <= |toks| && Linked(toks, m) && toks[m].linkNext < to
    ensures Linked(Slice(toks, from, to), m - from)
  {
  }

  lemma ListInItem(toks: seq<Token>, k: nat, i: nat)
    requires WellLinked(toks) && k < |toks| && IsSeparator(toks[k]) && Linked(toks, k)
    requires k < i < toks[k].linkNext && toks[i].kind == OpenParen
    ensures Closed(toks, i) && toks[i].partner < toks[k].linkNext
  {
    assert PositionOk(toks, i);
    assert InItem(toks[i], Level(toks[k]));
    assert EndsItem(toks[toks[k].linkNext], Level(toks[k]));
  }

  lemma CloseInItem(toks: seq<Token>, k: nat, j: nat)
    requires WellLinked(toks) && k < |toks| && IsSeparator(toks[k]) && Linked(toks, k)
    requires k < j < toks[k].linkNext && toks[j].kind == CloseParen
    ensures PointsBack(toks, j) && k < toks[j].partner
  {
    assert PositionOk(toks, j);
    assert PositionOk(toks, toks[j].partner);
    assert InItem(toks[j], Level(toks[k]));
  }

  lemma LinkInItem(toks: seq<Token>, k: nat, m: nat)
    requires WellLinked(toks) && k < |toks| && IsSeparator(toks[k]) && Linked(toks, k)
    requires k < m < toks[k].linkNext && IsSeparator(toks[m])
    ensures Linked(toks, m) && toks[m].linkNext < toks[k].linkNext
  {
    assert PositionOk(toks, m);
    assert InItem(toks[m], Level(toks[k]));
    var n := toks[k].linkNext;
    assert EndsItem(toks[n], Level(toks[k]));
    assert !InItem(toks[n], Level(toks[m]));
  }

  /** The loop of `popParams`, from separator `k`: it stops one token before the parenthesis. */
  ghost function Segments(toks: seq<Token>, i: nat, k: nat): (r: seq<seq<Token>>)
    requires WellLinked(toks) && IsList(toks, i) && OfList(toks, i, k)
    ensures forall m :: 0 <= m < |r| ==> |r[m]| < |toks| && WellLinked(r[m])
    decreases toks[i].partner - k
  {
    if k < toks[i].partner - 1 then
      NextOfList(toks, i, k);
      ItemWellLinked(toks, k);
      var n := toks[k].linkNext;
      [Slice(toks, k + 1, n)] + (if n == toks[i].partner then [] else Segments(toks, i, n))
    else []
  }

  /** Positions in `toks`, in ascending order. */
  ghost predicate AreCuts(toks: seq<Token>, cuts: seq<nat>) {
    && (forall a :: 0 <= a < |cuts| ==> cuts[a] < |toks|)
    && (forall a, b :: 0 <= a < b < |cuts| ==> cuts[a] < cuts[b])
  }

  /** The stretches of tokens between neighbouring cuts. */
  ghost function Between(toks: seq<Token>, cuts: seq<nat>): seq<seq<Token>>
    requires AreCuts(toks, cuts)
  {
    if |cuts| < 2 then [] else [Slice(toks, cuts[0] + 1, cuts[1])] + Between(toks, cuts[1..])
  }

  /** All the separators of the list from `k` on, with its closing parenthesis. */
  ghost function Cuts(toks: seq<Token>, i: nat, k: nat): (r: seq<nat>)
    requires WellLinked(toks) && IsList(toks, i) && OfList(toks, i, k)
    ensures |r| >= 2 && r[0] == k && r[|r| - 1] == toks[i].partner
    ensures AreCuts(toks, r)
  {
    ChainVisits(toks, i, k);
    var c := Chain(toks, i, k);
    assert forall a :: 0 <= a < |c| ==> c[a] in c;
    [k] + c
  }

  function DropLast(cuts: seq<nat>): seq<nat>
    requires cuts != []
  {
    cuts[..|cuts| - 1]
  }

  lemma CutsStep(toks: seq<Token>, i: nat, k: nat)
    requires WellLinked(toks) && IsList(toks, i) && OfList(toks, i, k)
    ensures var n := toks[k].linkNext;
            if n == toks[i].partner then Cuts(toks, i, k) == [k, n]
            else k < n < toks[i].partner && OfList(toks, i, n) && Cuts(toks, i, k) == [k] + Cuts(toks, i, n)
  {
    NextOfList(toks, i, k);
  }

  lemma SegmentsStep(toks: seq<Token>, i: nat, k: nat)
    requires WellLinked(toks) && IsList(toks, i) && OfList(toks, i, k)
    ensures var n := toks[k].linkNext;
            n < toks[i].partner ==>
            k < n && OfList(toks, i, n) && Segments(toks, i, k) == [Slice(toks, k + 1, n)] + Segments(toks, i, n)
  {
    NextOfList(toks, i, k);
  }

  function Kept(cuts: seq<nat>, close: nat): (r: seq<nat>)
    requires |cuts| >= 2
    ensures r != [] && r[0] == cuts[0]
  {
    if cuts[|cuts| - 2] == close - 1 then DropLast(cuts) else cuts
  }

  lemma KeptCons(k: nat, cuts: seq<nat>, close: nat)
    requires |cuts| >= 2
    ensures Kept([k] + cuts, close) == [k] + Kept(cuts, close)
  {
    assert DropLast([k] + cuts) == [k] + DropLast(cuts);
  }

  /** The cuts, without the closing one when the last item is empty. */
  ghost function KeptCuts(toks: seq<Token>, i: nat, k: nat): (r: seq<nat>)
    requires WellLinked(toks) && IsList(toks, i) && OfList(toks, i, k)
    ensures r != [] && r[0] == k && AreCuts(toks, r)
  {
    Kept(Cuts(toks, i, k), toks[i].partner)
  }

  lemma BetweenStep(toks: seq<Token>, k: nat, cuts: seq<nat>)
    requires cuts != [] && k < cuts[0] && AreCuts(toks, cuts)
    ensures AreCuts(toks, [k] + cuts)
    ensures Between(toks, [k] + cuts) == [Slice(toks, k + 1, cuts[0])] + Between(toks, cuts)
  {
    assert ([k] + cuts)[1..] == cuts;
  }

  lemma KeptCutsStep(toks: seq<Token>, i: nat, k: nat)
    requires WellLinked(toks) && IsList(toks, i) && OfList(toks, i, k)
    ensures var n := toks[k].linkNext;
            n < toks[i].partner ==> k < n && OfList(toks, i, n) && KeptCuts(toks, i, k) == [k] + KeptCuts(toks, i, n)
  {
    CutsStep(toks, i, k);
    hide Cuts, WellLinked, AreCuts, Kept;
    var n := toks[k].linkNext;
    if n < toks[i].partner {
      KeptCons(k, Cuts(toks, i, n), toks[i].partner);
    }
  }

  lemma LastSegment(toks: seq<Token>, i: nat, k: nat)
    requires WellLinked(toks) && IsList(toks, i) && OfList(toks, i, k) && toks[k].linkNext == toks[i].partner
    ensures Segments(toks, i, k) == Between(toks, KeptCuts(toks, i, k))
  {
    CutsStep(toks, i, k);
    var n := toks[i].partner;
    if k == n - 1 {
      assert DropLast([k, n]) == [k];
    } else {
      BetweenStep(toks, k, [n]);
      assert [k] + [n] == [k, n];
    }
  }

  /**
   * The popped segments are the items between the cuts: all of them, unless the last item is
   * empty, which is dropped.
   */
  lemma {:induction false} SegmentsAreItems(toks: seq<Token>, i: nat, k: nat)
    requires WellLinked(toks) && IsList(toks, i) && OfList(toks, i, k)
    ensures Segments(toks, i, k) == Between(toks, KeptCuts(toks, i, k))
    decreases toks[i].partner - k
  {
    NextOfList(toks, i, k);
    var n := toks[k].linkNext;
    if n == toks[i].partner {
      LastSegment(toks, i, k);
    } else {
      SegmentsAreItems(toks, i, n);
      KeptCutsStep(toks, i, k);
      BetweenStep(toks, k, KeptCuts(toks, i, n));
      SegmentsStep(toks, i, k);
    }
  }

  /** `popParams` at `offset`: the segments and the new position. An open list yields nothing. */
  ghost function PoppedParams(toks: seq<Token>, offset: nat): (r: Result<(seq<seq<Token>>, nat)>)
    requires WellLinked(toks) && offset <= |toks|
    ensures r.Ok? ==> r.value.1 <= |toks|
    ensures r.Ok? ==> forall m :: 0 <= m < |r.value.0| ==> |r.value.0[m]| < |toks| && WellLinked(r.value.0[m])
  {
    if offset == |toks| || toks[offset].kind != OpenParen then Err
    else if toks[offset].partner == -1 then Ok(([], 0))
    else
      assert PositionOk(toks, offset);
      Ok((Segments(toks, offset, offset), toks[offset].partner + 1))
  }

  /** What is left to pop at `k`; nothing at the closing parenthesis. */
  ghost function Rest(toks: seq<Token>, i: nat, k: nat): seq<seq<Token>>
    requires WellLinked(toks) && IsList(toks, i)
  {
    if k < toks[i].partner - 1 && OfList(toks, i, k) then Segments(toks, i, k) else []
  }

  lemma PopStep(toks: seq<Token>, i: nat, k: nat)
    requires WellLinked(toks) && IsList(toks, i) && OfList(toks, i, k) && k < toks[i].partner - 1
    ensures var n := toks[k].linkNext;
            && k < n <= toks[i].partner && (n == toks[i].partner || OfList(toks, i, n))
            && WellLinked(Slice(toks, k + 1, n))
            && Rest(toks, i, k) == [Slice(toks, k + 1, n)] + Rest(toks, i, n)
  {
    NextOfList(toks, i, k);
    ItemWellLinked(toks, k);
  }

  lemma RestEnds(toks: seq<Token>, i: nat, k: nat)
    requires WellLinked(toks) && IsList(toks, i)
    ensures Rest(toks, i, i) == Segments(toks, i, i)
    ensures k >= toks[i].partner - 1 ==> Rest(toks, i, k) == []
  {
  }

  /** The state of the loop: what has been popped, and what is left at the read position. */
  ghost predicate Popping(toks: seq<Token>, i: nat, k: nat, result: seq<seq<Token>>)
    requires WellLinked(toks) && IsList(toks, i)
  {
    && i <= k <= toks[i].partner && (k == toks[i].partner || OfList(toks, i, k))
    && Segments(toks, i, i) == result + Rest(toks, i, k)
  }

  lemma PopStart(toks: seq<Token>, i: nat)
    requires WellLinked(toks) && IsList(toks, i)
    ensures Popping(toks, i, i, [])
  {
    hide Segments, Rest, WellLinked;
    RestEnds(toks, i, i);
    assert [] + Rest(toks, i, i) == Rest(toks, i, i);
  }

  lemma PoppedNone(toks: seq<Token>, offset: nat)
    requires WellLinked(toks) && offset <= |toks| && (offset == |toks| || toks[offset].kind != OpenParen)
    ensures PoppedParams(toks, offset) == Err
  {
  }

  lemma PoppedUnclosed(toks: seq<Token>, offset: nat)
    requires WellLinked(toks) && offset < |toks| && toks[offset].kind == OpenParen
    ensures toks[offset].partner == -1 || IsList(toks, offset)
    ensures toks[offset].partner == -1 ==> PoppedParams(toks, offset) == Ok(([], 0))
  {
    assert PositionOk(toks, offset);
  }

  lemma PoppedList(toks: seq<Token>, offset: nat)
    requires WellLinked(toks) && IsList(toks, offset)
    ensures PoppedParams(toks, offset) == Ok((Segments(toks, offset, offset), toks[offset].partner + 1))
    ensures offset < toks[offset].partner < |toks|
  {
    hide Segments, WellLinked;
  }

  lemma PopAdvances(toks: seq<Token>, i: nat, k: nat, result: seq<seq<Token>>)
    requires WellLinked(toks) && IsList(toks, i) && Popping(toks, i, k, result) && k < toks[i].partner - 1
    ensures var n := toks[k].linkNext;
            k < n <= toks[i].partner && n <= |toks| && Popping(toks, i, n, result + [Slice(toks, k + 1, n)])
  {
    hide Segments, Rest, WellLinked, Linked;
    PopStep(toks, i, k);
    var n := toks[k].linkNext;
    assert result + ([Slice(toks, k + 1, n)] + Rest(toks, i, n)) == (result + [Slice(toks, k + 1, n)]) + Rest(toks, i, n);
  }

  lemma PopEnds(toks: seq<Token>, i: nat, k: nat, result: seq<seq<Token>>)
    requires WellLinked(toks) && IsList(toks, i) && Popping(toks, i, k, result) && k >= toks[i].partner - 1
    ensures Segments(toks, i, i) == result
  {
    hide Segments, Rest, WellLinked, Closed;
    RestEnds(toks, i, k);
    assert result + [] == result;
  }

  class TokenString {
    const tokens: seq<Token>
    var offset: nat

    ghost predicate Valid()
      reads this
    {
      WellLinked(tokens) && offset <= |tokens|
    }

    constructor (tokens: seq<Token>)
      requires WellLinked(tokens)
      ensures Valid() && this.tokens == tokens && offset == 0
    {
      this.tokens := tokens;
      offset := 0;
    }

    /** How many tokens are left. */
    function Length(): nat
      requires Valid()
      reads this
    {
      |tokens| - offset
    }

    /** The text of the next token if it is of that kind. */
    function PeekType(kind: Kind): Option<string>
      requires Valid()
      reads this
    {
      if offset < |tokens| && tokens[offset].kind == kind then Some(tokens[offset].text) else None
    }

    method Pop() returns (r: Result<Token>)
      requires Valid()
      modifies this`offset
      ensures Valid()
      ensures if old(offset) == |tokens| then r.Err? && offset == old(offset)
              else r == Ok(tokens[old(offset)]) && offset == old(offset) + 1
    {
      if offset >= |tokens| {
        return Err;
      }
      r := Ok(tokens[offset]);
      offset := offset + 1;
    }

    method PopType(kind: Kind) returns (r: Result<string>)
      requires Valid()
      modifies this`offset
      ensures Valid()
      ensures match old(PeekType(kind))
              case None => r.Err? && offset == old(offset)
              case Some(text) => r == Ok(text) && offset == old(offset) + 1
    {
      if PeekType(kind).None? {
        return Err;
      }
      r := Ok(tokens[offset].text);
      offset := offset + 1;
    }

    /** The items of the list at the read position, rebased. */
    method PopParams() returns (r: Result<seq<seq<Token>>>)
      requires Valid()
      modifies this`offset
      ensures Valid()
      ensures match PoppedParams(tokens, old(offset))
              case Err => r.Err? && offset == old(offset)
              case Ok((items, next)) => r == Ok(items) && offset == next
    {
      hide Segments, Rest, WellLinked, Linked, Closed, Popping, PoppedParams, Slice;
      if offset >= |tokens| || tokens[offset].kind != OpenParen {
        PoppedNone(tokens, offset);
        return Err;
      }
      PoppedUnclosed(tokens, offset);
      var stop := tokens[offset].partner;
      if stop == -1 {
        offset := 0;
        return Ok([]);
      }
      ghost var i := offset;
      PoppedList(tokens, i);
      PopStart(tokens, i);
      var result: seq<seq<Token>> := [];
      while offset < stop - 1
        invariant i <= offset <= stop < |tokens| && Popping(tokens, i, offset, result)
        decreases stop - offset
      {
        PopAdvances(tokens, i, offset, result);
        var link := tokens[offset].linkNext;
        result := result + [Slice(tokens, offset + 1, link)];
        offset := link;
      }
      PopEnds(tokens, i, offset, result);
      offset := stop + 1;
      r := Ok(result);
    }
  }
}
