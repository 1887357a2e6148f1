/** The numeric strategies of the fallback provider: median and fuzzy mode, and the height they feed. */
module Consensus {
  import opened Wrappers
  import opened Bytes
  import opened Sequences
  import opened Tally

  // ---------- sorting and the median ----------

  /** The comparator of `getMedian`: its middle branch repeats the first test, so it never yields 1. */
  function Compare(a: int, b: int): int {
    if a < b then -1 else if b > a then 1 else 0
  }

  /** All that the sort asks of the comparator. */
  predicate GoesBefore(a: int, b: int) {
    Compare(a, b) < 0
  }

  function Sort(values: seq<int>): (r: seq<int>)
    ensures |r| == |values|
  {
    if values == [] then [] else Insert(GoesBefore, values[|values| - 1], Sort(values[..|values| - 1]))
  }

  ghost predicate Sorted(s: seq<int>) {
    forall i, j :: 0 <= i < j < |s| ==> s[i] <= s[j]
  }

  /** How many values lie in a range. */
  function CountIn(values: seq<int>, lo: int, hi: int): nat {
    if values == [] then 0
    else (if lo <= values[0] <= hi then 1 else 0) + CountIn(values[1..], lo, hi)
  }

  lemma PrependSorts(first: int, rest: seq<int>)
    requires Sorted(rest) && forall k :: 0 <= k < |rest| ==> first <= rest[k]
    ensures Sorted([first] + rest)
  {
  }

  lemma {:induction false} InsertSorts(v: int, sorted: seq<int>)
    requires Sorted(sorted)
    ensures Sorted(Insert(GoesBefore, v, sorted))
  {
    if sorted != [] {
      if Compare(v, sorted[0]) < 0 {
        PrependSorts(v, sorted);
      } else {
        var tail := sorted[1..];
        var rest := Insert(GoesBefore, v, tail);
        InsertSorts(v, tail);
        forall k | 0 <= k < |rest|
          ensures sorted[0] <= rest[k]
        {
          assert rest[k] in rest;
          InsertIn(GoesBefore, v, tail, rest[k]);
        }
        PrependSorts(sorted[0], rest);
      }
    }
  }

  /** Despite the comparator, the sorted list is a sorted permutation. */
  lemma {:induction false} SortSorts(values: seq<int>)
    ensures Sorted(Sort(values)) && multiset(Sort(values)) == multiset(values)
  {
    if values != [] {
      var init := values[..|values| - 1];
      SortSorts(init);
      InsertSorts(values[|values| - 1], Sort(init));
      InsertAdds(GoesBefore, values[|values| - 1], Sort(init));
      assert values == init + [values[|values| - 1]];
    }
  }

  lemma {:induction false} CountInsert(v: int, sorted: seq<int>, lo: int, hi: int)
    ensures CountIn(Insert(GoesBefore, v, sorted), lo, hi) == CountIn(sorted, lo, hi) + if lo <= v <= hi then 1 else 0
  {
    if sorted != [] {
      if Compare(v, sorted[0]) < 0 {
        assert ([v] + sorted)[1..] == sorted;
      } else {
        CountInsert(v, sorted[1..], lo, hi);
        assert ([sorted[0]] + Insert(GoesBefore, v, sorted[1..]))[1..] == Insert(GoesBefore, v, sorted[1..]);
      }
    }
  }

  lemma {:induction false} CountLast(values: seq<int>, v: int, lo: int, hi: int)
    ensures CountIn(values + [v], lo, hi) == CountIn(values, lo, hi) + if lo <= v <= hi then 1 else 0
  {
    if values != [] {
      CountLast(values[1..], v, lo, hi);
      assert (values + [v])[1..] == values[1..] + [v];
    }
  }

  lemma SortStep(values: seq<int>)
    requires values != []
    ensures Sort(values) == Insert(GoesBefore, values[|values| - 1], Sort(values[..|values| - 1]))
  {
  }

  lemma {:induction false} CountSort(values: seq<int>, lo: int, hi: int)
    ensures CountIn(Sort(values), lo, hi) == CountIn(values, lo, hi)
  {
    hide Insert, CountIn, Sort;
    if values == [] {
      assert Sort(values) == values;
    } else {
      var init, v := values[..|values| - 1], values[|values| - 1];
      CountSort(init, lo, hi);
      CountInsert(v, Sort(init), lo, hi);
      CountLast(init, v, lo, hi);
      SortStep(values);
      assert values == init + [v];
    }
  }

  /** In a sorted list, a value below the range has everything before it below, one above everything behind. */
  lemma {:induction false} CountBounds(s: seq<int>, k: nat, lo: int, hi: int)
    requires Sorted(s) && k < |s|
    ensures s[k] < lo ==> CountIn(s, lo, hi) <= |s| - k - 1
    ensures s[k] > hi ==> CountIn(s, lo, hi) <= k
    ensures CountIn(s, lo, hi) <= |s|
  {
    if k > 0 {
      CountBounds(s[1..], k - 1, lo, hi);
    } else if |s| > 1 {
      CountBounds(s[1..], 0, lo, hi);
    }
  }

  function TruncDiv2(a: int): int {
    if a >= 0 then a / 2 else -((-a) / 2)
  }

  /** The middle value, or the mean of the two middle ones, half rounded up for non-negative sums. */
  function MedianOf(s: seq<int>): int
    requires s != []
  {
    var mid := |s| / 2;
    if |s| % 2 == 1 then s[mid] else TruncDiv2(s[mid - 1] + s[mid] + 1)
  }

  /** The rounded mean stays between its two values unless they are equal and negative. */
  lemma MeanBetweenIff(a: int, b: int)
    requires a <= b
    ensures a <= TruncDiv2(a + b + 1) <= b <==> !(a == b && b < 0)
  {
  }

  /**
   * A strict majority of non-negative reports inside a range keeps the median inside it, whatever
   * the other reports say.
   */
  lemma MedianWithinMajority(values: seq<int>, lo: int, hi: int)
    requires 0 <= lo && 2 * CountIn(values, lo, hi) > |values|
    ensures Sort(values) != [] && lo <= MedianOf(Sort(values)) <= hi
  {
    var s := Sort(values);
    SortSorts(values);
    CountSort(values, lo, hi);
    var mid := |s| / 2;
    if values != [] {
      CountBounds(s, mid, lo, hi);
      if |s| % 2 == 0 {
        CountBounds(s, mid - 1, lo, hi);
        MeanBetweenIff(s[mid - 1], s[mid]);
      }
    }
  }

  // ---------- getMedian ----------

  datatype Median = NoQuorum | QuorumError(error: Value) | Median(n: int) | Throws

  /** The numeric values in order, and their weight. */
  function Numbers(results: seq<TallyResult>): seq<int> {
    if results == [] then []
    else
      var last := results[|results| - 1];
      Numbers(results[..|results| - 1]) + if last.value.Number? then [last.value.n] else []
  }

  function NumberWeight(results: seq<TallyResult>): int {
    if results == [] then 0
    else
      var last := results[|results| - 1];
      NumberWeight(results[..|results| - 1]) + if last.value.Number? then last.weight else 0
  }

  function Errors(results: seq<TallyResult>): seq<TallyResult> {
    if results == [] then []
    else
      var last := results[|results| - 1];
      Errors(results[..|results| - 1]) + if last.value.Error? then [last] else []
  }

  predicate IsNumeric(r: TallyResult) {
    r.value.Number? || r.value.Error?
  }

  ghost predicate NonNegative(results: seq<TallyResult>) {
    forall i :: 0 <= i < |results| ==> results[i].weight >= 0
  }

  lemma {:induction false} NumbersNotEmpty(results: seq<TallyResult>)
    ensures Numbers(results) == [] ==> NumberWeight(results) == 0
    decreases |results|
  {
    if results != [] {
      NumbersNotEmpty(results[..|results| - 1]);
    }
  }

  predicate AllNumeric(results: seq<TallyResult>) {
    forall i :: 0 <= i < |results| ==> IsNumeric(results[i])
  }

  /** The best error of the loop: the first one, until one is strictly heavier than it has become. */
  function BestTag(errors: seq<TallyResult>): (best: Option<string>)
    ensures best.None? <==> errors == []
    ensures best.Some? ==> HasTag(errors, best.value)
  {
    if errors == [] then None
    else
      var n := |errors| - 1;
      var before, last := BestTag(errors[..n]), errors[n].tag;
      assert HasTag(errors, last);
      assert forall i :: 0 <= i < n ==> errors[..n][i] == errors[i];
      if before.None? || WeightOf(errors, last) > WeightOf(errors, before.value) then Some(last) else before
  }

  /** What the errors amount to: the first value of the best one, if it carries the quorum. */
  function ErrorOutcome(quorum: int, errors: seq<TallyResult>): Median {
    match BestTag(errors)
    case None => NoQuorum
    case Some(tag) =>
      FirstWithTag(errors, tag);
      if WeightOf(errors, tag) >= quorum then QuorumError(errors[FirstWith(errors, tag)].value) else NoQuorum
  }

  /** What `getMedian` has to return: it throws exactly if some value is neither number nor error. */
  ghost predicate IsMedian(quorum: int, results: seq<TallyResult>, m: Median) {
    if !AllNumeric(results) then m == Throws
    else if NumberWeight(results) >= quorum then
      Numbers(results) != [] && m == Median(MedianOf(Sort(Numbers(results))))
    else m == ErrorOutcome(quorum, Errors(results))
  }

  /** The results determine what is returned. */
  lemma MedianIsUnique(quorum: int, results: seq<TallyResult>, a: Median, b: Median)
    requires IsMedian(quorum, results, a) && IsMedian(quorum, results, b)
    ensures a == b
  {
  }

  /** With the prefix `k` of the errors, `t` has all of its weight and `other` has not got so far. */
  ghost predicate GotThereFirst(errors: seq<TallyResult>, t: string, other: string, k: nat) {
    k <= |errors| && WeightOf(errors[..k], t) == WeightOf(errors, t) && WeightOf(errors[..k], other) < WeightOf(errors, t)
  }

  lemma PrefixOfPrefix(errors: seq<TallyResult>, t: string, other: string, k: nat)
    requires errors != [] && GotThereFirst(errors[..|errors| - 1], t, other, k)
    requires WeightOf(errors[..|errors| - 1], t) == WeightOf(errors, t)
    ensures GotThereFirst(errors, t, other, k)
  {
    hide WeightOf;
    assert errors[..|errors| - 1][..k] == errors[..k];
  }

  lemma LastWeight(errors: seq<TallyResult>, tag: string)
    requires errors != []
    ensures WeightOf(errors, tag) == WeightOf(errors[..|errors| - 1], tag) +
                                     if errors[|errors| - 1].tag == tag then errors[|errors| - 1].weight else 0
  {
  }

  lemma BestTagStep(errors: seq<TallyResult>)
    requires errors != []
    ensures var n := |errors| - 1;
            var before, last := BestTag(errors[..n]), errors[n].tag;
            BestTag(errors) ==
            if before.None? || WeightOf(errors, last) > WeightOf(errors, before.value) then Some(last) else before
  {
  }

  /**
   * If no weight is negative, the best error is the heaviest, and of several equally heavy ones
   * the one that got to that weight first.
   */
  lemma {:induction false} BestTagIsHeaviest(errors: seq<TallyResult>, other: string)
    requires NonNegative(errors) && errors != []
    ensures var t := BestTag(errors).value;
            && WeightOf(errors, other) <= WeightOf(errors, t)
            && (other != t && WeightOf(errors, other) == WeightOf(errors, t) > 0 ==>
                  exists k :: GotThereFirst(errors, t, other, k))
    decreases |errors|
  {
    hide WeightOf, BestTag, GotThereFirst;
    var n := |errors| - 1;
    var init, r := errors[..n], errors[n];
    BestTagStep(errors);
    LastWeight(errors, other);
    LastWeight(errors, r.tag);
    if init == [] {
      NoWeight(other);
      NoWeight(r.tag);
    } else {
      var b := BestTag(init).value;
      assert NonNegative(init) by {
        assert forall i :: 0 <= i < n ==> init[i] == errors[i];
      }
      BestTagIsHeaviest(init, other);
      LastWeight(errors, b);
      var t := BestTag(errors).value;
      if other != t && WeightOf(errors, other) == WeightOf(errors, t) > 0 {
        TieStep(errors, t, other);
      }
    }
  }

  lemma NoWeight(tag: string)
    ensures WeightOf([], tag) == 0
  {
  }

  lemma TieStep(errors: seq<TallyResult>, t: string, other: string)
    requires NonNegative(errors) && |errors| > 1 && other != t && WeightOf(errors, other) == WeightOf(errors, t) > 0
    requires var init, b := errors[..|errors| - 1], BestTag(errors[..|errors| - 1]).value;
             && BestTag(errors) == Some(t) && WeightOf(init, other) <= WeightOf(init, b)
             && (other != b && WeightOf(init, other) == WeightOf(init, b) > 0 ==>
                   exists k :: GotThereFirst(init, b, other, k))
    ensures exists k :: GotThereFirst(errors, t, other, k)
  {
    hide WeightOf, BestTag;
    var n := |errors| - 1;
    var init, r := errors[..n], errors[n];
    var b := BestTag(init).value;
    BestTagStep(errors);
    LastWeight(errors, other);
    LastWeight(errors, b);
    LastWeight(errors, r.tag);
    assert r.weight >= 0;
    assert t == b;
    if WeightOf(init, other) == WeightOf(init, b) {
      var k :| GotThereFirst(init, b, other, k);
      PrefixOfPrefix(errors, t, other, k);
    } else {
      assert GotThereFirst(errors, t, other, n);
    }
  }

  /** So an error is returned exactly if some error carries the quorum. */
  lemma QuorumErrorIff(quorum: int, errors: seq<TallyResult>)
    requires NonNegative(errors)
    ensures ErrorOutcome(quorum, errors).QuorumError? <==> exists tag :: Meets(quorum, errors, tag)
  {
    hide WeightOf, BestTag;
    if errors == [] {
      NoErrors();
    } else {
      var best := BestTag(errors).value;
      if tag :| Meets(quorum, errors, tag) {
        BestTagIsHeaviest(errors, tag);
      }
      if WeightOf(errors, best) >= quorum {
        assert Meets(quorum, errors, best);
      }
    }
  }

  lemma NoErrors()
    ensures BestTag([]) == None && forall tag :: !HasTag([], tag)
  {
  }

  lemma EntryWeight(done: seq<TallyResult>, keys: seq<string>, errors: map<string, Entry>, tag: string)
    requires TallyOf(done, keys, errors) && HasTag(done, tag)
    ensures tag in errors && FirstWith(done, tag) < |done|
    ensures errors[tag] == Entry(done[FirstWith(done, tag)].value, WeightOf(done, tag))
  {
    hide FirstWith, WeightOf;
    var i :| 0 <= i < |done| && done[i].tag == tag;
    var k :| 0 <= k < |keys| && keys[k] == tag;
    assert EntryOk(done, keys[k], errors[keys[k]]);
  }

  /** The tag of the last result, and any tag that was there before it. */
  lemma HasLast(done: seq<TallyResult>, r: TallyResult, tag: string)
    requires tag == r.tag || HasTag(done, tag)
    ensures HasTag(done + [r], tag)
  {
    var more := done + [r];
    assert more[|done|] == r;
    assert forall i :: 0 <= i < |done| ==> more[i] == done[i];
  }

  lemma BestTagAppend(done: seq<TallyResult>, r: TallyResult)
    ensures var before, more := BestTag(done), done + [r];
            BestTag(more) ==
            if before.None? || WeightOf(more, r.tag) > WeightOf(more, before.value) then Some(r.tag) else before
  {
    hide WeightOf, BestTag;
    assert (done + [r])[..|done|] == done;
    BestTagStep(done + [r]);
  }

  /** The comparison in the map, once the entry has grown, is the one of the weights. */
  lemma BestInMap(r: TallyResult, best: Option<string>, done: seq<TallyResult>, keys: seq<string>, errors: map<string, Entry>)
    requires TallyOf(done + [r], keys, errors) && best == BestTag(done)
    ensures r.tag in errors && (best.Some? ==> best.value in errors)
    ensures BestTag(done + [r]) ==
            if best.None? || errors[r.tag].weight > errors[best.value].weight then Some(r.tag) else best
  {
    hide TallyOf, WeightOf, FirstWith;
    assert best.Some? ==> HasTag(done, best.value);
    hide BestTag, HasTag;
    BestTagAppend(done, r);
    HasLast(done, r, r.tag);
    EntryWeight(done + [r], keys, errors, r.tag);
    if best.Some? {
      HasLast(done, r, best.value);
      EntryWeight(done + [r], keys, errors, best.value);
    }
  }

  /** One more error in the error map; the map entry and the best error are the same object. */
  method AddError(r: TallyResult, errors: map<string, Entry>, best: Option<string>,
                  ghost keys: seq<string>, ghost done: seq<TallyResult>)
    returns (errors': map<string, Entry>, best': Option<string>, ghost keys': seq<string>)
    requires TallyOf(done, keys, errors) && best == BestTag(done)
    ensures TallyOf(done + [r], keys', errors') && best' == BestTag(done + [r])
  {
    hide *;
    if r.tag in errors {
      TallyKnownTag(done, r, keys, errors);
      keys' := keys;
    } else {
      TallyNewTag(done, r, keys, errors);
      keys' := keys + [r.tag];
    }
    var e := if r.tag in errors then errors[r.tag] else Entry(r.value, 0);
    errors' := errors[r.tag := Entry(e.value, e.weight + r.weight)];
    BestInMap(r, best, done, keys', errors');
    best' := best;
    if best.None? || errors'[r.tag].weight > errors'[best.value].weight {
      best' := Some(r.tag);
    }
  }

  /** The loop of `getMedian` over the results. */
  ghost predicate ScanOk(done: seq<TallyResult>, values: seq<int>, weight: int,
                         errors: map<string, Entry>, best: Option<string>, keys: seq<string>) {
    && AllNumeric(done)
    && values == Numbers(done) && weight == NumberWeight(done)
    && TallyOf(Errors(done), keys, errors)
    && best == BestTag(Errors(done))
  }

  /** One more result, in each of the three accumulations. */
  lemma NumbersStep(done: seq<TallyResult>, r: TallyResult)
    ensures Numbers(done + [r]) == Numbers(done) + if r.value.Number? then [r.value.n] else []
    ensures NumberWeight(done + [r]) == NumberWeight(done) + if r.value.Number? then r.weight else 0
    ensures Errors(done + [r]) == Errors(done) + if r.value.Error? then [r] else []
    ensures AllNumeric(done) && IsNumeric(r) ==> AllNumeric(done + [r])
  {
    assert (done + [r])[..|done|] == done;
  }

  lemma ScanNumber(done: seq<TallyResult>, r: TallyResult, values: seq<int>, weight: int,
                   errors: map<string, Entry>, best: Option<string>, keys: seq<string>)
    requires ScanOk(done, values, weight, errors, best, keys) && r.value.Number?
    ensures ScanOk(done + [r], values + [r.value.n], weight + r.weight, errors, best, keys)
  {
    hide TallyOf, BestTag, Numbers, NumberWeight, Errors, AllNumeric;
    NumbersStep(done, r);
    assert Errors(done) + [] == Errors(done);
  }

  lemma ScanError(done: seq<TallyResult>, r: TallyResult, values: seq<int>, weight: int,
                  errors: map<string, Entry>, best: Option<string>, keys: seq<string>,
                  errors': map<string, Entry>, best': Option<string>, keys': seq<string>)
    requires ScanOk(done, values, weight, errors, best, keys) && r.value.Error?
    requires TallyOf(Errors(done) + [r], keys', errors') && best' == BestTag(Errors(done) + [r])
    ensures ScanOk(done + [r], values, weight, errors', best', keys')
  {
    hide TallyOf, BestTag, Numbers, NumberWeight, Errors, AllNumeric;
    NumbersStep(done, r);
    assert values + [] == values;
  }

  lemma ScanStart()
    ensures ScanOk([], [], 0, map[], None, [])
  {
  }

  /** `getMedian`. */
  method GetMedian(quorum: int, results: seq<TallyResult>) returns (m: Median)
    requires quorum >= 1
    ensures IsMedian(quorum, results, m)
  {
    hide TallyOf, BestTag, Numbers, NumberWeight, Errors, ScanOk;
    var resultWeight := 0;
    var errors: map<string, Entry> := map[];
    var best: Option<string> := None;
    ghost var keys: seq<string> := [];
    var values: seq<int> := [];
    ScanStart();
    assert results[..0] == [];
    for i := 0 to |results|
      invariant ScanOk(results[..i], values, resultWeight, errors, best, keys)
    {
      ScanMeans(results[..i], values, resultWeight, errors, best, keys);
      assert results[..i + 1] == results[..i] + [results[i]];
      match results[i].value {
        case Error(_) =>
          var errors', best', keys' := AddError(results[i], errors, best, keys, Errors(results[..i]));
          ScanError(results[..i], results[i], values, resultWeight, errors, best, keys, errors', best', keys');
          errors, best, keys := errors', best', keys';
        case Number(n) =>
          ScanNumber(results[..i], results[i], values, resultWeight, errors, best, keys);
          values := values + [n];
          resultWeight := resultWeight + results[i].weight;
        case _ =>
          assert !IsNumeric(results[i]);
          return Throws;
      }
    }
    assert results[..|results|] == results;
    ScanMeans(results, values, resultWeight, errors, best, keys);
    if resultWeight < quorum {
      if best.Some? {
        EntryWeight(Errors(results), keys, errors, best.value);
        if errors[best.value].weight >= quorum {
          return QuorumError(errors[best.value].value);
        }
      }
      return NoQuorum;
    }
    NumbersNotEmpty(results);
    m := Median(MedianOf(Sort(values)));
  }

  lemma ScanMeans(done: seq<TallyResult>, values: seq<int>, weight: int,
                  errors: map<string, Entry>, best: Option<string>, keys: seq<string>)
    requires ScanOk(done, values, weight, errors, best, keys)
    ensures AllNumeric(done) && values == Numbers(done) && weight == NumberWeight(done)
    ensures TallyOf(Errors(done), keys, errors) && best == BestTag(Errors(done))
  {
  }

  /** If more than half of the reported numbers lie in a range of non-negative ones, so does the result. */
  lemma MedianFollowsMajority(quorum: int, results: seq<TallyResult>, m: Median, lo: int, hi: int)
    requires IsMedian(quorum, results, m) && m.Median?
    requires 0 <= lo && 2 * CountIn(Numbers(results), lo, hi) > |Numbers(results)|
    ensures lo <= m.n <= hi
  {
    MedianWithinMajority(Numbers(results), lo, hi);
  }

  // ---------- getFuzzyMode ----------

  datatype Mode = NoMode | Mode(n: int) | ModeThrows

  /** The weight of the results within one of `n`. */
  function FuzzyWeight(results: seq<TallyResult>, n: int): int {
    if results == [] then 0
    else
      var last := results[|results| - 1];
      FuzzyWeight(results[..|results| - 1], n) +
      if last.value.Number? && n - 1 <= last.value.n <= n + 1 then last.weight else 0
  }

  predicate IsSafeNumber(v: Value) {
    v.Number? && -MAX_SAFE <= v.n <= MAX_SAFE
  }

  predicate AllSafe(results: seq<TallyResult>) {
    forall i :: 0 <= i < |results| ==> IsSafeNumber(results[i].value)
  }

  /**
   * The largest value among those of greatest fuzzy weight that meet the quorum; it throws exactly
   * if some value is no safe number.
   */
  ghost predicate IsFuzzyMode(quorum: int, results: seq<TallyResult>, m: Mode) {
    if !AllSafe(results) then m == ModeThrows
    else
      match m
      case ModeThrows => false
      case NoMode => forall n :: FuzzyWeight(results, n) < quorum
      case Mode(n) =>
        && FuzzyWeight(results, n) >= quorum
        && forall other :: FuzzyWeight(results, other) >= quorum ==>
             || FuzzyWeight(results, other) < FuzzyWeight(results, n)
             || (FuzzyWeight(results, other) == FuzzyWeight(results, n) && other <= n)
  }

  /** The tally of fuzzy weights; numbers without an entry weigh nothing. */
  ghost predicate FuzzyTally(results: seq<TallyResult>, tally: map<int, int>) {
    forall n :: FuzzyWeight(results, n) == if n in tally then tally[n] else 0
  }

  function Add(tally: map<int, int>, n: int, weight: int): map<int, int> {
    tally[n := (if n in tally then tally[n] else 0) + weight]
  }

  lemma FuzzyAppend(done: seq<TallyResult>, r: TallyResult, tally: map<int, int>)
    requires FuzzyTally(done, tally) && r.value.Number?
    ensures var v := r.value.n;
            FuzzyTally(done + [r], Add(Add(Add(tally, v - 1, r.weight), v, r.weight), v + 1, r.weight))
  {
    assert (done + [r])[..|done|] == done;
  }

  /** The closure `add`: a new entry goes to the end of the map's order. */
  method AddTo(tally: map<int, int>, keys: seq<int>, n: int, weight: int)
    returns (tally': map<int, int>, keys': seq<int>)
    requires tally.Keys == set m | m in keys
    ensures tally' == Add(tally, n, weight) && tally'.Keys == set m | m in keys'
  {
    keys' := if n in tally then keys else keys + [n];
    tally' := tally[n := (if n in tally then tally[n] else 0) + weight];
  }

  lemma FuzzyStart()
    ensures FuzzyTally([], map[]) && AllSafe([])
  {
  }

  lemma SafeStep(done: seq<TallyResult>, r: TallyResult)
    requires AllSafe(done) && IsSafeNumber(r.value)
    ensures AllSafe(done + [r])
  {
  }

  /** `getFuzzyMode` for a quorum above one: three tallies a result, then the best entry. */
  method GetFuzzyMode(quorum: int, results: seq<TallyResult>) returns (m: Mode)
    requires quorum > 1
    ensures IsFuzzyMode(quorum, results, m)
  {
    hide FuzzyTally, FuzzyWeight, Add;
    var tally: map<int, int> := map[];
    var keys: seq<int> := [];
    FuzzyStart();
    assert results[..0] == [];
    for i := 0 to |results|
      invariant FuzzyTally(results[..i], tally) && AllSafe(results[..i])
      invariant tally.Keys == set n | n in keys
    {
      if !IsSafeNumber(results[i].value) {
        return ModeThrows;
      }
      FuzzyAppend(results[..i], results[i], tally);
      SafeStep(results[..i], results[i]);
      assert results[..i + 1] == results[..i] + [results[i]];
      var r := results[i].value.n;
      tally, keys := AddTo(tally, keys, r - 1, results[i].weight);
      tally, keys := AddTo(tally, keys, r, results[i].weight);
      tally, keys := AddTo(tally, keys, r + 1, results[i].weight);
    }
    assert results[..|results|] == results;
    m := PickMode(quorum, results, tally, keys);
  }

  /** The loop over the entries: greater weight first, then greater value. */
  method PickMode(quorum: int, ghost results: seq<TallyResult>, tally: map<int, int>, keys: seq<int>) returns (m: Mode)
    requires quorum > 1 && AllSafe(results) && FuzzyTally(results, tally) && tally.Keys == set n | n in keys
    ensures IsFuzzyMode(quorum, results, m) && !m.ModeThrows?
  {
    var bestWeight := 0;
    var bestResult: Option<int> := None;
    forall k | 0 <= k < |keys|
      ensures keys[k] in tally
    {
      assert keys[k] in keys;
    }
    for k := 0 to |keys|
      invariant bestResult.None? ==> bestWeight == 0 && forall j :: 0 <= j < k ==> tally[keys[j]] < quorum
      invariant bestResult.Some? ==>
        && bestResult.value in tally && tally[bestResult.value] == bestWeight >= quorum
        && forall j :: 0 <= j < k && tally[keys[j]] >= quorum ==>
             tally[keys[j]] < bestWeight || (tally[keys[j]] == bestWeight && keys[j] <= bestResult.value)
    {
      var weight, result := tally[keys[k]], keys[k];
      if weight >= quorum &&
         (weight > bestWeight || (bestResult.Some? && weight == bestWeight && result > bestResult.value)) {
        bestWeight := weight;
        bestResult := Some(result);
      }
    }
    forall n | n in tally
      ensures exists j :: 0 <= j < |keys| && keys[j] == n
    {
      assert n in keys;
    }
    m := match bestResult case None => NoMode case Some(n) => Mode(n);
  }

  /** The results determine what is returned, so the order of the tally does not matter. */
  lemma FuzzyModeIsUnique(quorum: int, results: seq<TallyResult>, a: Mode, b: Mode)
    requires IsFuzzyMode(quorum, results, a) && IsFuzzyMode(quorum, results, b)
    ensures a == b
  {
  }

  // ---------- getAnyResult ----------

  predicate Truthy(v: Value) {
    match v
    case Undefined => false
    case Number(n) => n != 0
    case Other(_, truthy) => truthy
    case Error(_) => true
  }

  /** A quorum value if there is one, otherwise the first truthy value. */
  method GetAnyResult(quorum: int, results: seq<TallyResult>) returns (v: Value)
    ensures exists q :: IsQuorumValue(quorum, results, q) &&
              if q != Undefined then v == q
              else if v != Undefined then
                exists i :: 0 <= i < |results| && v == results[i].value && Truthy(v) &&
                            forall k :: 0 <= k < i ==> !Truthy(results[k].value)
              else forall k :: 0 <= k < |results| ==> !Truthy(results[k].value)
  {
    var result := CheckQuorum(quorum, results);
    if result != Undefined {
      return result;
    }
    for i := 0 to |results|
      invariant forall k :: 0 <= k < i ==> !Truthy(results[k].value)
    {
      if Truthy(results[i].value) {
        return results[i].value;
      }
    }
    return Undefined;
  }

  // ---------- the reported height ----------

  /**
   * One block-number check: the height before and after, and what it reports. Results that do not
   * weigh enough end the check before it looks at the height.
   */
  ghost predicate HeightStep(quorum: int, blocks: seq<TallyResult>, results: seq<TallyResult>,
                             before: int, after: int, reported: Result<Option<int>>)
  {
    if TotalWeight(results) < quorum then after == before && reported == Ok(None)
    else exists start, mode :: HeightFrom(quorum, blocks, results, before, start, mode, after, reported)
  }

  ghost predicate HeightFrom(quorum: int, blocks: seq<TallyResult>, results: seq<TallyResult>, before: int,
                             start: int, mode: Mode, after: int, reported: Result<Option<int>>)
  {
    && (if before == -2 then IsMedian(quorum, blocks, Median(start)) else start == before)
    && IsFuzzyMode(quorum, results, mode)
    && match mode
       case ModeThrows => after == start && reported == Err
       case NoMode => after == start && reported == Ok(None)
       case Mode(n) => after == (if n > start then n else start) && reported == Ok(Some(after))
  }

  /** The block numbers of the initial sync, which is over before the first check. */
  ghost predicate Synced(quorum: int, blocks: seq<TallyResult>) {
    && quorum > 1 && NumberWeight(blocks) >= quorum
    && forall i :: 0 <= i < |blocks| ==> IsSafeNumber(blocks[i].value) && blocks[i].value.n >= 0
  }

  /** The field of the provider that remembers the highest block. */
  class HeightKeeper {
    var height: int

    constructor ()
      ensures height == -2
    {
      height := -2;
    }

    /** The block-number case of `#checkQuorum`. */
    method CheckBlockNumber(quorum: int, results: seq<TallyResult>, blocks: seq<TallyResult>)
      returns (r: Result<Option<int>>)
      requires Synced(quorum, blocks)
      modifies this
      ensures HeightStep(quorum, blocks, results, old(height), height, r)
    {
      hide IsMedian, IsFuzzyMode;
      var total := SumWeights(results);
      if total < quorum {
        return Ok(None);
      }
      if height == -2 {
        var median := GetMedian(quorum, blocks);
        BlocksHaveMedian(quorum, blocks, median);
        height := median.n;
      }
      ghost var start := height;
      var mode := GetFuzzyMode(quorum, results);
      match mode {
        case ModeThrows =>
          r := Err;
        case NoMode =>
          r := Ok(None);
        case Mode(n) =>
          if n > height {
            height := n;
          }
          r := Ok(Some(height));
      }
      assert HeightFrom(quorum, blocks, results, old(height), start, mode, height, r);
    }
  }

  /** A run of checks: `heights[k]` is the height before check `k`. */
  ghost predicate HeightRun(quorum: int, blocks: seq<TallyResult>, checks: seq<seq<TallyResult>>,
                            heights: seq<int>, reports: seq<Result<Option<int>>>)
  {
    && |heights| == |checks| + 1 && |reports| == |checks| && heights[0] == -2
    && forall k :: 0 <= k < |checks| ==> HeightStep(quorum, blocks, checks[k], heights[k], heights[k + 1], reports[k])
  }

  lemma HeightRises(quorum: int, blocks: seq<TallyResult>, results: seq<TallyResult>,
                    before: int, after: int, reported: Result<Option<int>>)
    requires Synced(quorum, blocks) && HeightStep(quorum, blocks, results, before, after, reported)
    requires before == -2 || before >= 0
    ensures (after == -2 || after >= 0) && after >= before
    ensures reported.Ok? && reported.value.Some? ==> reported.value.value == after >= 0
  {
    hide IsMedian, IsFuzzyMode;
    if TotalWeight(results) >= quorum {
      var start, mode :| HeightFrom(quorum, blocks, results, before, start, mode, after, reported);
      if before == -2 {
        BlocksHaveMedian(quorum, blocks, Median(start));
      }
    }
  }

  /** Over any run of checks the height never falls, and so no report is below an earlier one. */
  lemma {:induction false} HeightNeverFalls(quorum: int, blocks: seq<TallyResult>, checks: seq<seq<TallyResult>>,
                                            heights: seq<int>, reports: seq<Result<Option<int>>>, i: nat, j: nat)
    requires Synced(quorum, blocks) && HeightRun(quorum, blocks, checks, heights, reports)
    requires i <= j < |heights|
    ensures heights[i] <= heights[j] && (heights[j] == -2 || heights[j] >= 0)
    ensures i < j < |reports| && reports[i].Ok? && reports[i].value.Some? && reports[j].Ok? && reports[j].value.Some? ==>
              0 <= reports[i].value.value <= reports[j].value.value
    decreases j
  {
    hide HeightStep, Synced;
    if j > 0 {
      HeightNeverFalls(quorum, blocks, checks, heights, reports, if i < j then i else j - 1, j - 1);
      HeightRises(quorum, blocks, checks[j - 1], heights[j - 1], heights[j], reports[j - 1]);
      if i < j < |reports| {
        HeightRises(quorum, blocks, checks[j], heights[j], heights[j + 1], reports[j]);
        if i + 1 < j {
          HeightNeverFalls(quorum, blocks, checks, heights, reports, i + 1, j - 1);
        }
        if i > 0 {
          HeightNeverFalls(quorum, blocks, checks, heights, reports, i, i);
        }
        HeightRises(quorum, blocks, checks[i], heights[i], heights[i + 1], reports[i]);
      }
    }
  }

  lemma {:induction false} NumbersFromBlocks(blocks: seq<TallyResult>)
    requires forall i :: 0 <= i < |blocks| ==> blocks[i].value.Number? && blocks[i].value.n >= 0
    ensures |Numbers(blocks)| == |blocks| && forall k :: 0 <= k < |blocks| ==> Numbers(blocks)[k] >= 0
    decreases |blocks|
  {
    if blocks != [] {
      NumbersFromBlocks(blocks[..|blocks| - 1]);
    }
  }

  lemma {:induction false} AllCounted(values: seq<int>, lo: int, hi: int)
    requires forall k :: 0 <= k < |values| ==> lo <= values[k] <= hi
    ensures CountIn(values, lo, hi) == |values|
  {
    if values != [] {
      AllCounted(values[1..], lo, hi);
    }
  }

  function Maximum(values: seq<int>): (m: int)
    ensures forall k :: 0 <= k < |values| ==> values[k] <= m
  {
    if values == [] then 0
    else
      var rest := Maximum(values[1..]);
      if values[0] > rest then values[0] else rest
  }

  /** Non-negative block numbers of enough weight have a non-negative median. */
  lemma BlocksHaveMedian(quorum: int, blocks: seq<TallyResult>, m: Median)
    requires quorum > 1 && NumberWeight(blocks) >= quorum && IsMedian(quorum, blocks, m)
    requires forall i :: 0 <= i < |blocks| ==> blocks[i].value.Number? && blocks[i].value.n >= 0
    ensures m.Median? && m.n >= 0
  {
    NumbersFromBlocks(blocks);
    NumbersNotEmpty(blocks);
    var values := Numbers(blocks);
    AllCounted(values, 0, Maximum(values));
    MedianWithinMajority(values, 0, Maximum(values));
  }
}
