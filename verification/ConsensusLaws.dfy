/** What the fuzzy mode of block numbers is when the reports agree, or nearly do. */
module ConsensusLaws {
  import opened Wrappers
  import opened Tally
  import opened Consensus

  // ---------- the heaviest answer ----------

  /** An answer that meets the quorum and outweighs all others is the one that is returned, as first given. */
  lemma HeaviestWins(quorum: int, results: seq<TallyResult>, v: Value, i: nat)
    requires i < |results| && IsQuorumValue(quorum, results, v) && WeightOf(results, results[i].tag) >= quorum
    requires forall j :: 0 <= j < |results| && results[j].tag != results[i].tag ==>
               WeightOf(results, results[j].tag) < WeightOf(results, results[i].tag)
    requires forall j :: 0 <= j < i ==> results[j].tag != results[i].tag
    ensures v == results[i].value
  {
    hide WeightOf, FirstWith;
    var tag := results[i].tag;
    assert Meets(quorum, results, tag);
    var best :| Wins(quorum, results, best) && v == results[FirstWith(results, best)].value;
    FirstWithTag(results, best);
    assert best == tag;
  }

  // ---------- the median ----------

  /**
   * Of an odd number of values the median is the middle one. Of an even number it is the ceiling of the
   * mean of the two in the middle, as the comment in the code says, exactly if their sum is odd or not negative.
   */
  lemma MedianIsCeilingIff(s: seq<int>)
    requires s != []
    ensures |s| % 2 == 1 ==> MedianOf(s) == s[|s| / 2]
    ensures |s| % 2 == 0 ==>
              var sum := s[|s| / 2 - 1] + s[|s| / 2];
              (2 * MedianOf(s) - 1 <= sum <= 2 * MedianOf(s) <==> sum >= 0 || sum % 2 == 1)
  {
  }

  // ---------- block numbers ----------

  ghost predicate PositiveWeights(results: seq<TallyResult>) {
    forall i :: 0 <= i < |results| ==> results[i].weight > 0
  }

  ghost predicate Reported(results: seq<TallyResult>, n: int) {
    exists i :: 0 <= i < |results| && results[i].value == Number(n)
  }

  /** Without a report of m - 1, the value above m weighs no less than m. */
  lemma {:induction false} NextWeighsMore(results: seq<TallyResult>, m: int)
    requires PositiveWeights(results) && !Reported(results, m - 1)
    ensures FuzzyWeight(results, m + 1) >= FuzzyWeight(results, m)
    decreases |results|
  {
    if results != [] {
      var init, last := results[..|results| - 1], results[|results| - 1];
      NextWeighsMore(init, m);
      assert last.value.Number? ==> last.value.n != m - 1;
    }
  }

  /**
   * The mode is always one above a reported value: among values of equal weight the code prefers the
   * larger one, and the value above the mode weighs less only because of who reported the one below.
   */
  lemma ModeIsOneAbove(quorum: int, results: seq<TallyResult>, m: int)
    requires PositiveWeights(results) && IsFuzzyMode(quorum, results, Mode(m))
    ensures Reported(results, m - 1)
  {
    hide FuzzyWeight;
    if !Reported(results, m - 1) {
      NextWeighsMore(results, m);
    }
  }

  /** All reports are n or n + 1. */
  ghost predicate Near(results: seq<TallyResult>, n: int) {
    forall i :: 0 <= i < |results| ==> results[i].value == Number(n) || results[i].value == Number(n + 1)
  }

  lemma {:induction false} NearWeights(results: seq<TallyResult>, n: int, k: int)
    requires PositiveWeights(results) && Near(results, n)
    ensures 0 <= FuzzyWeight(results, k) <= TotalWeight(results) == FuzzyWeight(results, n + 1)
    ensures k > n + 1 && Reported(results, n) ==> FuzzyWeight(results, k) < TotalWeight(results)
    decreases |results|
  {
    if results != [] {
      var init, last := results[..|results| - 1], results[|results| - 1];
      NearWeights(init, n, k);
      if Reported(results, n) && last.value != Number(n) {
        var i :| 0 <= i < |results| && results[i].value == Number(n);
        assert init[i].value == Number(n);
      }
    }
  }

  /**
   * If all reports are n or n + 1, with n among them, and make up the quorum, the mode is n + 1: a block
   * that nobody has reported if all have reported n.
   */
  lemma NearReports(quorum: int, results: seq<TallyResult>, n: int, mode: Mode)
    requires quorum >= 1 && PositiveWeights(results) && AllSafe(results) && Near(results, n) && Reported(results, n)
    requires TotalWeight(results) >= quorum && IsFuzzyMode(quorum, results, mode)
    ensures mode == Mode(n + 1)
  {
    hide FuzzyWeight, TotalWeight, AllSafe;
    NearWeights(results, n, n + 1);
    assert FuzzyWeight(results, n + 1) >= quorum;
    if mode.Mode? {
      NearWeights(results, n, mode.n);
    }
  }

  /** So a height of at most n + 1 becomes n + 1 when all report block n, and that is what is returned. */
  lemma UnanimousHeight(quorum: int, blocks: seq<TallyResult>, results: seq<TallyResult>, n: int,
                        before: int, after: int, reported: Result<Option<int>>)
    requires quorum >= 1 && PositiveWeights(results) && AllSafe(results) && TotalWeight(results) >= quorum
    requires results != [] && forall i :: 0 <= i < |results| ==> results[i].value == Number(n)
    requires 0 <= before <= n + 1 && HeightStep(quorum, blocks, results, before, after, reported)
    ensures after == n + 1 && reported == Ok(Some(n + 1)) && !Reported(results, n + 1)
  {
    hide IsFuzzyMode, TotalWeight, AllSafe, IsMedian;
    assert results[0].value == Number(n);
    var start, mode :| HeightFrom(quorum, blocks, results, before, start, mode, after, reported);
    NearReports(quorum, results, n, mode);
  }
}
