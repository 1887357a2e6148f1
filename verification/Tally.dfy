/**
 * How the fallback provider weighs replies: the strategies over weighted results. A JavaScript Map
 * is a map together with its keys in order of insertion.
 */
module Tally {
  import opened Wrappers

  datatype Value = Undefined | Error(code: int) | Number(n: int) | Other(id: int, truthy: bool)

  datatype TallyResult = TallyResult(tag: string, value: Value, weight: int)

  // ---------- weights by tag ----------

  function WeightOf(results: seq<TallyResult>, tag: string): int {
    if results == [] then 0
    else
      var last := results[|results| - 1];
      WeightOf(results[..|results| - 1], tag) + if last.tag == tag then last.weight else 0
  }

  function TotalWeight(results: seq<TallyResult>): int {
    if results == [] then 0 else TotalWeight(results[..|results| - 1]) + results[|results| - 1].weight
  }

  /** `results.reduce((a, r) => a + r.weight, 0)`. */
  method SumWeights(results: seq<TallyResult>) returns (total: int)
    ensures total == TotalWeight(results)
  {
    total := 0;
    assert results[..0] == [];
    for i := 0 to |results|
      invariant total == TotalWeight(results[..i])
    {
      assert results[..i + 1][..i] == results[..i];
      total := total + results[i].weight;
    }
    assert results[..|results|] == results;
  }

  /** The position of the first result with the tag. */
  function FirstWith(results: seq<TallyResult>, tag: string): (i: nat)
    ensures i <= |results|
    ensures i < |results| ==> results[i].tag == tag
    ensures forall k :: 0 <= k < i ==> results[k].tag != tag
  {
    if results == [] then 0 else if results[0].tag == tag then 0 else 1 + FirstWith(results[1..], tag)
  }

  predicate HasTag(results: seq<TallyResult>, tag: string) {
    exists i :: 0 <= i < |results| && results[i].tag == tag
  }

  ghost predicate Meets(quorum: int, results: seq<TallyResult>, tag: string) {
    HasTag(results, tag) && WeightOf(results, tag) >= quorum
  }

  /** The tag of the greatest weight that meets the quorum; the first one seen among equals. */
  ghost predicate Wins(quorum: int, results: seq<TallyResult>, tag: string) {
    && Meets(quorum, results, tag)
    && forall other :: Meets(quorum, results, other) && other != tag ==>
         || WeightOf(results, other) < WeightOf(results, tag)
         || (WeightOf(results, other) == WeightOf(results, tag) && FirstWith(results, tag) < FirstWith(results, other))
  }

  /** What `checkQuorum` has to return. */
  ghost predicate IsQuorumValue(quorum: int, results: seq<TallyResult>, v: Value) {
    if exists tag :: Meets(quorum, results, tag) then
      exists tag :: Wins(quorum, results, tag) && v == results[FirstWith(results, tag)].value
    else v == Undefined
  }

  datatype Entry = Entry(value: Value, weight: int)

  /** The tally after some results: its keys in order, each with its first value and total weight. */
  ghost predicate TallyOf(results: seq<TallyResult>, keys: seq<string>, tally: map<string, Entry>) {
    && (forall k :: 0 <= k < |keys| ==> keys[k] in tally)
    && (forall i :: 0 <= i < |results| ==> results[i].tag in tally)
    && (forall tag :: tag in tally ==> tag in keys)
    && (forall k :: 0 <= k < |keys| ==> EntryOk(results, keys[k], tally[keys[k]]))
    && (forall a, b :: 0 <= a < b < |keys| ==> FirstWith(results, keys[a]) < FirstWith(results, keys[b]))
  }

  ghost predicate EntryOk(results: seq<TallyResult>, tag: string, e: Entry) {
    var i := FirstWith(results, tag);
    i < |results| && e.value == results[i].value && e.weight == WeightOf(results, tag)
  }

  lemma {:induction false} FirstWithAppend(results: seq<TallyResult>, r: TallyResult, tag: string)
    ensures FirstWith(results + [r], tag) ==
            if FirstWith(results, tag) < |results| then FirstWith(results, tag)
            else if r.tag == tag then |results| else |results| + 1
  {
    var more := results + [r];
    assert forall k :: 0 <= k < |results| ==> more[k] == results[k];
    assert more[|results|] == r;
  }

  lemma WeightAppend(results: seq<TallyResult>, r: TallyResult, tag: string)
    ensures WeightOf(results + [r], tag) == WeightOf(results, tag) + if r.tag == tag then r.weight else 0
  {
    assert (results + [r])[..|results|] == results;
  }

  lemma FirstWithTag(results: seq<TallyResult>, tag: string)
    ensures HasTag(results, tag) <==> FirstWith(results, tag) < |results|
  {
  }

  lemma {:induction false} WeightWithoutTag(results: seq<TallyResult>, tag: string)
    requires !HasTag(results, tag)
    ensures WeightOf(results, tag) == 0
    decreases |results|
  {
    if results != [] {
      var init := results[..|results| - 1];
      assert !HasTag(init, tag);
      assert !(results[|results| - 1].tag == tag);
      WeightWithoutTag(init, tag);
    }
  }

  lemma EntryKept(results: seq<TallyResult>, r: TallyResult, tag: string, e: Entry)
    requires EntryOk(results, tag, e)
    ensures FirstWith(results + [r], tag) == FirstWith(results, tag)
    ensures EntryOk(results + [r], tag, Entry(e.value, e.weight + if r.tag == tag then r.weight else 0))
  {
    FirstWithAppend(results, r, tag);
    WeightAppend(results, r, tag);
  }

  lemma EntryNew(results: seq<TallyResult>, r: TallyResult)
    requires forall i :: 0 <= i < |results| ==> results[i].tag != r.tag
    ensures FirstWith(results + [r], r.tag) == |results|
    ensures EntryOk(results + [r], r.tag, Entry(r.value, 0 + r.weight))
  {
    FirstWithAppend(results, r, r.tag);
    WeightAppend(results, r, r.tag);
    assert !HasTag(results, r.tag);
    WeightWithoutTag(results, r.tag);
  }

  lemma TallyKnownTag(results: seq<TallyResult>, r: TallyResult, keys: seq<string>, tally: map<string, Entry>)
    requires TallyOf(results, keys, tally) && r.tag in tally
    ensures TallyOf(results + [r], keys, tally[r.tag := Entry(tally[r.tag].value, tally[r.tag].weight + r.weight)])
  {
    hide FirstWith, WeightOf, EntryOk;
    var next := tally[r.tag := Entry(tally[r.tag].value, tally[r.tag].weight + r.weight)];
    forall k | 0 <= k < |keys|
      ensures EntryOk(results + [r], keys[k], next[keys[k]]) &&
              FirstWith(results + [r], keys[k]) == FirstWith(results, keys[k])
    {
      EntryKept(results, r, keys[k], tally[keys[k]]);
    }
  }

  /** The keys of the map after a new one, against the tags of the results. */
  lemma NewTagMembers(results: seq<TallyResult>, r: TallyResult, keys: seq<string>, tally: map<string, Entry>, e: Entry)
    requires TallyOf(results, keys, tally) && r.tag !in tally
    ensures var more, keys', next := results + [r], keys + [r.tag], tally[r.tag := e];
            && (forall k :: 0 <= k < |keys'| ==> keys'[k] in next)
            && (forall i :: 0 <= i < |more| ==> more[i].tag in next)
            && (forall tag :: tag in next ==> tag in keys')
  {
    hide FirstWith, WeightOf, EntryOk;
  }

  /** The first positions of the keys, the new one at the end. */
  lemma NewTagFirst(results: seq<TallyResult>, r: TallyResult, keys: seq<string>, tally: map<string, Entry>, k: nat)
    requires TallyOf(results, keys, tally) && r.tag !in tally && k <= |keys|
    ensures FirstWith(results + [r], (keys + [r.tag])[k]) == if k < |keys| then FirstWith(results, keys[k]) else |results|
    ensures k < |keys| ==> FirstWith(results, keys[k]) < |results|
  {
    EntriesBefore(results, keys, tally);
    hide FirstWith, WeightOf, EntryOk;
    if k < |keys| {
      EntryKept(results, r, keys[k], tally[keys[k]]);
    } else {
      EntryNew(results, r);
    }
  }

  lemma NewTagEntry(results: seq<TallyResult>, r: TallyResult, keys: seq<string>, tally: map<string, Entry>, k: nat)
    requires TallyOf(results, keys, tally) && r.tag !in tally && k <= |keys|
    ensures var keys', next := keys + [r.tag], tally[r.tag := Entry(r.value, 0 + r.weight)];
            keys'[k] in next && EntryOk(results + [r], keys'[k], next[keys'[k]])
  {
    hide FirstWith, WeightOf, EntryOk;
    if k < |keys| {
      EntryKept(results, r, keys[k], tally[keys[k]]);
    } else {
      EntryNew(results, r);
    }
  }

  lemma NewTagOrder(results: seq<TallyResult>, r: TallyResult, keys: seq<string>, tally: map<string, Entry>, a: nat, b: nat)
    requires TallyOf(results, keys, tally) && r.tag !in tally && a < b <= |keys|
    ensures FirstWith(results + [r], (keys + [r.tag])[a]) < FirstWith(results + [r], (keys + [r.tag])[b])
  {
    NewTagFirst(results, r, keys, tally, a);
    NewTagFirst(results, r, keys, tally, b);
    hide FirstWith, WeightOf, EntryOk;
  }

  lemma TallyNewTag(results: seq<TallyResult>, r: TallyResult, keys: seq<string>, tally: map<string, Entry>)
    requires TallyOf(results, keys, tally) && r.tag !in tally
    ensures TallyOf(results + [r], keys + [r.tag], tally[r.tag := Entry(r.value, 0 + r.weight)])
  {
    hide *;
    var next := tally[r.tag := Entry(r.value, 0 + r.weight)];
    var keys', more := keys + [r.tag], results + [r];
    NewTagMembers(results, r, keys, tally, Entry(r.value, 0 + r.weight));
    forall k | 0 <= k < |keys'|
      ensures EntryOk(more, keys'[k], next[keys'[k]])
    {
      NewTagEntry(results, r, keys, tally, k);
    }
    forall a, b | 0 <= a < b < |keys'|
      ensures FirstWith(more, keys'[a]) < FirstWith(more, keys'[b])
    {
      NewTagOrder(results, r, keys, tally, a, b);
    }
    MakeTally(more, keys', next);
  }

  lemma MakeTally(results: seq<TallyResult>, keys: seq<string>, tally: map<string, Entry>)
    requires forall k :: 0 <= k < |keys| ==> keys[k] in tally
    requires forall i :: 0 <= i < |results| ==> results[i].tag in tally
    requires forall tag :: tag in tally ==> tag in keys
    requires forall k :: 0 <= k < |keys| ==> EntryOk(results, keys[k], tally[keys[k]])
    requires forall a, b :: 0 <= a < b < |keys| ==> FirstWith(results, keys[a]) < FirstWith(results, keys[b])
    ensures TallyOf(results, keys, tally)
  {
    hide FirstWith, EntryOk;
  }

  lemma EntriesBefore(results: seq<TallyResult>, keys: seq<string>, tally: map<string, Entry>)
    requires TallyOf(results, keys, tally)
    ensures forall k :: 0 <= k < |keys| ==> FirstWith(results, keys[k]) < |results|
  {
  }

  /** The first loop of `checkQuorum`: weights summed by tag. */
  method SumByTag(results: seq<TallyResult>) returns (keys: seq<string>, tally: map<string, Entry>)
    ensures TallyOf(results, keys, tally)
  {
    hide TallyOf;
    keys, tally := [], map[];
    EmptyTally();
    assert results[..0] == [];
    for i := 0 to |results|
      invariant TallyOf(results[..i], keys, tally)
    {
      assert results[..i + 1] == results[..i] + [results[i]];
      var TallyResult(tag, value, weight) := results[i];
      var t := if tag in tally then tally[tag] else Entry(value, 0);
      if tag in tally {
        TallyKnownTag(results[..i], results[i], keys, tally);
      } else {
        TallyNewTag(results[..i], results[i], keys, tally);
        keys := keys + [tag];
      }
      tally := tally[tag := Entry(t.value, t.weight + weight)];
    }
    assert results[..|results|] == results;
  }

  lemma EmptyTally()
    ensures TallyOf([], [], map[])
  {
  }

  /** The greatest weight that meets the quorum among the first k, at its first place. */
  ghost predicate BestSoFar(quorum: int, weights: seq<int>, k: nat, best: Option<nat>) {
    && k <= |weights|
    && match best
       case None => forall m :: 0 <= m < k ==> weights[m] < quorum
       case Some(b) =>
         && b < k && weights[b] >= quorum
         && (forall m :: 0 <= m < b ==> weights[m] < weights[b])
         && (forall m :: b < m < k ==> weights[m] <= weights[b])
  }

  lemma BestStep(quorum: int, weights: seq<int>, k: nat, best: Option<nat>)
    requires k < |weights| && BestSoFar(quorum, weights, k, best)
    ensures BestSoFar(quorum, weights, k + 1,
                      if weights[k] >= quorum && (best.None? || weights[k] > weights[best.value]) then Some(k) else best)
  {
  }

  /** The second loop of `checkQuorum`, over the entries in order of insertion. */
  method PickBest(quorum: int, keys: seq<string>, tally: map<string, Entry>, ghost weights: seq<int>)
    returns (best: Option<Entry>, ghost at: Option<nat>)
    requires |weights| == |keys|
    requires forall k :: 0 <= k < |keys| ==> keys[k] in tally && weights[k] == tally[keys[k]].weight
    ensures BestSoFar(quorum, weights, |keys|, at)
    ensures best == match at case None => None case Some(k) => Some(tally[keys[k]])
  {
    best, at := None, None;
    assert BestSoFar(quorum, weights, 0, at);
    for k := 0 to |keys|
      invariant BestSoFar(quorum, weights, k, at)
      invariant best == match at case None => None case Some(m) => Some(tally[keys[m]])
    {
      BestStep(quorum, weights, k, at);
      var r := tally[keys[k]];
      if r.weight >= quorum && (best.None? || r.weight > best.value.weight) {
        best := Some(r);
        at := Some(k);
      }
    }
  }

  ghost function Weights(results: seq<TallyResult>, keys: seq<string>, tally: map<string, Entry>): (ws: seq<int>)
    requires TallyOf(results, keys, tally)
    ensures |ws| == |keys| && forall k :: 0 <= k < |keys| ==> keys[k] in tally && ws[k] == tally[keys[k]].weight
  {
    seq(|keys|, k requires 0 <= k < |keys| => tally[keys[k]].weight)
  }

  /** `checkQuorum`. */
  method CheckQuorum(quorum: int, results: seq<TallyResult>) returns (v: Value)
    ensures IsQuorumValue(quorum, results, v)
  {
    hide *;
    var keys, tally := SumByTag(results);
    ghost var weights := Weights(results, keys, tally);
    var best, at := PickBest(quorum, keys, tally, weights);
    BestWins(quorum, results, keys, tally, weights, at);
    v := if best.Some? then best.value.value else Undefined;
  }

  lemma BestWins(quorum: int, results: seq<TallyResult>, keys: seq<string>, tally: map<string, Entry>,
                 weights: seq<int>, best: Option<nat>)
    requires TallyOf(results, keys, tally) && |weights| == |keys|
    requires forall k :: 0 <= k < |keys| ==> weights[k] == tally[keys[k]].weight
    requires BestSoFar(quorum, weights, |keys|, best)
    ensures IsQuorumValue(quorum, results, if best.Some? then tally[keys[best.value]].value else Undefined)
  {
    forall tag | Meets(quorum, results, tag)
      ensures exists m :: 0 <= m < |keys| && keys[m] == tag && weights[m] == WeightOf(results, tag) >= quorum
    {
      var m :| 0 <= m < |keys| && keys[m] == tag;
      assert EntryOk(results, keys[m], tally[keys[m]]);
    }
    if best.Some? {
      var tag := keys[best.value];
      assert EntryOk(results, tag, tally[tag]);
      assert Meets(quorum, results, tag);
      forall other | Meets(quorum, results, other) && other != tag
        ensures || WeightOf(results, other) < WeightOf(results, tag)
                || (WeightOf(results, other) == WeightOf(results, tag) &&
                    FirstWith(results, tag) < FirstWith(results, other))
      {
        var m :| 0 <= m < |keys| && keys[m] == other && weights[m] == WeightOf(results, other) >= quorum;
      }
      assert Wins(quorum, results, tag);
    }
  }

  /** If a tag meets the quorum, one of them wins. */
  lemma WinnerExists(quorum: int, results: seq<TallyResult>) returns (tag: string)
    requires exists t :: Meets(quorum, results, t)
    ensures Wins(quorum, results, tag) && FirstWith(results, tag) < |results|
  {
    hide FirstWith, WeightOf;
    var some :| Meets(quorum, results, some);
    var i :| 0 <= i < |results| && results[i].tag == some;
    tag := BestAmong(quorum, results, |results|, i);
    FirstWithTag(results, tag);
  }

  ghost predicate Beats(results: seq<TallyResult>, tag: string, other: string) {
    || WeightOf(results, other) < WeightOf(results, tag)
    || (WeightOf(results, other) == WeightOf(results, tag) && FirstWith(results, tag) < FirstWith(results, other))
  }

  lemma BeatsTotal(results: seq<TallyResult>, tag: string, other: string)
    requires tag != other && HasTag(results, tag) && HasTag(results, other)
    ensures Beats(results, tag, other) || Beats(results, other, tag)
  {
    FirstWithTag(results, tag);
    FirstWithTag(results, other);
  }

  lemma {:induction false} BestAmong(quorum: int, results: seq<TallyResult>, n: nat, i: nat) returns (tag: string)
    requires i < n <= |results| && Meets(quorum, results, results[i].tag)
    ensures Meets(quorum, results, tag)
    ensures forall k :: 0 <= k < n && Meets(quorum, results, results[k].tag) && results[k].tag != tag ==>
              Beats(results, tag, results[k].tag)
    decreases n
  {
    hide FirstWith, WeightOf, Beats;
    var last := results[n - 1].tag;
    if j :| 0 <= j < n - 1 && Meets(quorum, results, results[j].tag) {
      tag := BestAmong(quorum, results, n - 1, j);
      if Meets(quorum, results, last) && last != tag {
        BeatsTotal(results, tag, last);
        if !Beats(results, tag, last) {
          forall k | 0 <= k < n - 1 && Meets(quorum, results, results[k].tag) && results[k].tag != last
            ensures Beats(results, last, results[k].tag)
          {
            BeatsTrans(results, last, tag, results[k].tag);
          }
          tag := last;
        }
      }
    } else {
      tag := last;
    }
  }

  lemma BeatsTrans(results: seq<TallyResult>, a: string, b: string, c: string)
    requires Beats(results, a, b) && (b == c || Beats(results, b, c))
    ensures Beats(results, a, c)
  {
  }

  lemma WinnersAgree(quorum: int, results: seq<TallyResult>, s: string, t: string)
    requires Wins(quorum, results, s) && Wins(quorum, results, t)
    ensures s == t
  {
    hide FirstWith, WeightOf, HasTag;
  }

  /** There is one winner at most, so the value is determined. */
  lemma QuorumValueIsUnique(quorum: int, results: seq<TallyResult>, v: Value, w: Value)
    requires IsQuorumValue(quorum, results, v) && IsQuorumValue(quorum, results, w)
    ensures v == w
  {
    hide WeightOf;
    if exists tag :: Meets(quorum, results, tag) {
      var s :| Wins(quorum, results, s) && v == results[FirstWith(results, s)].value;
      var t :| Wins(quorum, results, t) && w == results[FirstWith(results, t)].value;
      WinnersAgree(quorum, results, s, t);
    }
  }
}
