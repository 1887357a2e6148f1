/** What a request of the fallback provider finds: a quorum that is there, and how many it asks. */
module FallbackQuorum {
  import opened Wrappers
  import opened Tally
  import opened Fallback

  // ---------- weights ----------

  ghost predicate NoDebts(configs: seq<Config>) {
    forall p :: 0 <= p < |configs| ==> configs[p].weight >= 0
  }

  ghost predicate Known(configs: seq<Config>, ps: seq<nat>) {
    forall i :: 0 <= i < |ps| ==> ps[i] < |configs|
  }

  lemma {:induction false} WithoutWeighs(configs: seq<Config>, ps: seq<nat>, k: nat)
    requires Known(configs, ps) && k < |ps|
    ensures Known(configs, Without(ps, k))
    ensures WeightSum(configs, ps) == WeightSum(configs, Without(ps, k)) + configs[ps[k]].weight
    decreases |ps|
  {
    var n := |ps| - 1;
    if k < n {
      WithoutWeighs(configs, ps[..n], k);
      assert Without(ps, k) == Without(ps[..n], k) + [ps[n]];
      WeightSumAppend(configs, Without(ps[..n], k), ps[n]);
    } else {
      assert Without(ps, k) == ps[..n];
    }
  }

  /** Some of the providers weigh no more than all of them. */
  lemma {:induction false} SubsetWeighs(configs: seq<Config>, qs: seq<nat>, ps: seq<nat>)
    requires NoDebts(configs) && Known(configs, ps) && DistinctNumbers(qs) && forall q :: q in qs ==> q in ps
    ensures Known(configs, qs) && 0 <= WeightSum(configs, qs) <= WeightSum(configs, ps)
    decreases |ps|
  {
    hide WeightSum;
    NotNegative(configs, ps);
    NothingWeighs(configs);
    if qs != [] {
      var q := qs[|qs| - 1];
      assert q in ps;
      var k :| 0 <= k < |ps| && ps[k] == q;
      WithoutWeighs(configs, ps, k);
      var init := qs[..|qs| - 1];
      assert qs == init + [q];
      SubsetWeighs(configs, init, Without(ps, k));
      WeightSumAppend(configs, init, q);
    }
  }

  lemma NothingWeighs(configs: seq<Config>)
    ensures WeightSum(configs, []) == 0
  {
  }

  lemma {:induction false} NotNegative(configs: seq<Config>, ps: seq<nat>)
    requires NoDebts(configs) && Known(configs, ps)
    ensures WeightSum(configs, ps) >= 0
    decreases |ps|
  {
    if ps != [] {
      NotNegative(configs, ps[..|ps| - 1]);
    }
  }

  lemma {:induction false} AnsweredIsSupporter(running: seq<Runner>, p: nat, tag: string)
    requires AnsweredTag(running, p, tag)
    ensures p in Supporters(running, tag)
    decreases |running|
  {
    var n := |running| - 1;
    var i :| 0 <= i <= n && running[i].provider == p && running[i].result.Some? && running[i].result.value.tag == tag;
    if i < n {
      assert running[..n][i] == running[i];
      AnsweredIsSupporter(running[..n], p, tag);
    }
  }

  /** Providers that answered with a tag weigh no more than the tally gives the tag. */
  lemma AnswersAreTallied(configs: seq<Config>, running: seq<Runner>, tag: string, ps: seq<nat>)
    requires NoDebts(configs) && InRange(configs, running) && AreSupporters(configs, running, tag, ps)
    ensures WeightSum(configs, ps) <= WeightOf(Results(configs, running), tag)
  {
    hide WeightSum, Supporters, Results;
    SupportersWeigh(configs, running, tag);
    forall p | p in ps
      ensures p in Supporters(running, tag)
    {
      AnsweredIsSupporter(running, p, tag);
    }
    SubsetWeighs(configs, ps, Supporters(running, tag));
  }

  lemma {:induction false} TagWithinTotal(results: seq<TallyResult>, tag: string)
    requires forall i :: 0 <= i < |results| ==> results[i].weight >= 0
    ensures 0 <= WeightOf(results, tag) <= TotalWeight(results)
    decreases |results|
  {
    if results != [] {
      TagWithinTotal(results[..|results| - 1], tag);
    }
  }

  lemma {:induction false} ResultsNoDebts(configs: seq<Config>, running: seq<Runner>)
    requires NoDebts(configs) && InRange(configs, running)
    ensures forall i :: 0 <= i < |Results(configs, running)| ==> Results(configs, running)[i].weight >= 0
    decreases |running|
  {
    if running != [] {
      ResultsNoDebts(configs, running[..|running| - 1]);
    }
  }

  // ---------- a look finds the quorum ----------

  ghost predicate Defined(running: seq<Runner>) {
    forall i :: 0 <= i < |running| && running[i].result.Some? ==> running[i].result.value.value != Undefined
  }

  lemma MeetingIsFound(configs: seq<Config>, quorum: int, running: seq<Runner>, v: Value, tag: string)
    requires NoDebts(configs) && quorum >= 1 && InRange(configs, running) && Defined(running)
    requires Checks(quorum, Results(configs, running), v) && WeightOf(Results(configs, running), tag) >= quorum
    ensures v != Undefined
  {
    hide WeightOf, TotalWeight, Results, FirstWith;
    var results := Results(configs, running);
    ResultsNoDebts(configs, running);
    TagWithinTotal(results, tag);
    if !HasTag(results, tag) {
      WeightWithoutTag(results, tag);
    }
    assert Meets(quorum, results, tag);
    var best :| Wins(quorum, results, best) && v == results[FirstWith(results, best)].value;
    FirstWithTag(results, best);
    ResultIsAnswer(configs, running, FirstWith(results, best));
  }

  /**
   * A quorum that is there is found: if distinct providers that weigh the quorum have answered with
   * one tag, and no reply is undefined, the next look ends the request.
   */
  lemma LookFindsQuorum(configs: seq<Config>, quorum: int, s: State, s': State, v: Value, tag: string, ps: seq<nat>)
    requires NoDebts(configs) && quorum >= 1 && LookStep(configs, quorum, s, s', v) && Defined(s.running)
    requires AreSupporters(configs, s.running, tag, ps) && WeightSum(configs, ps) >= quorum
    ensures s'.phase == Done(if v.Error? then Threw(v) else Returned(v)) && v != Undefined
  {
    hide AreSupporters, WeightSum, Checks, Results, Bumped, BumpCount, Watched;
    AnswersAreTallied(configs, s.running, tag, ps);
    MeetingIsFound(configs, quorum, s.running, v, tag);
  }

  /** Two providers of weight 1 that agree are found by a quorum of two. */
  lemma ExactQuorumFound(s: State, s': State, v: Value)
    requires var r := Some(Reply("a", Number(7)));
             s.running == [Runner(0, false, true, false, r), Runner(1, false, true, false, r)]
    requires LookStep([Config(1, 1), Config(1, 1)], 2, s, s', v)
    ensures s'.phase.Done? && s'.phase.outcome.Returned?
  {
    hide Checks, Results, Bumped, BumpCount, Watched;
    var configs := [Config(1, 1), Config(1, 1)];
    assert s.running[0].provider == 0 && s.running[1].provider == 1;
    assert AnsweredTag(s.running, 0, "a") && AnsweredTag(s.running, 1, "a");
    assert WeightSum(configs, [0, 1]) == 2 by {
      assert [0, 1][..1] == [0] && [0][..0] == [];
      assert WeightSum(configs, [0]) == 1;
    }
    LookFindsQuorum(configs, 2, s, s', v, "a", [0, 1]);
    LookValueIsReply(configs, 2, s, s', v);
  }

  /** What a look returns is the value of some reply. */
  lemma LookValueIsReply(configs: seq<Config>, quorum: int, s: State, s': State, v: Value)
    requires LookStep(configs, quorum, s, s', v) && v != Undefined
    ensures exists i :: 0 <= i < |s.running| && s.running[i].result.Some? && s.running[i].result.value.value == v
  {
    hide Results, Bumped, BumpCount, Watched, TotalWeight, WeightOf, FirstWith;
    var results := Results(configs, s.running);
    var best :| Wins(quorum, results, best) && v == results[FirstWith(results, best)].value;
    FirstWithTag(results, best);
    ResultIsAnswer(configs, s.running, FirstWith(results, best));
  }

  // ---------- agreement ----------

  /** Every reply so far is the same. */
  ghost predicate Agreed(running: seq<Runner>, reply: Reply) {
    forall i :: 0 <= i < |running| && running[i].result.Some? ==> running[i].result == Some(reply)
  }

  ghost predicate AllAnswered(running: seq<Runner>) {
    forall i :: 0 <= i < |running| ==> running[i].result.Some?
  }

  /** When all that were asked have given the same answer, they are its supporters. */
  lemma AgreedSupport(configs: seq<Config>, running: seq<Runner>, reply: Reply)
    requires RunnersOk(configs, running) && Agreed(running, reply) && AllAnswered(running)
    ensures AreSupporters(configs, running, reply.tag, Providers(running))
  {
    var ps := Providers(running);
    forall i | 0 <= i < |ps|
      ensures AnsweredTag(running, ps[i], reply.tag)
    {
      assert running[i].provider == ps[i] && running[i].result == Some(reply);
    }
  }

  /** All providers, in the order of the configuration. */
  function Everyone(n: nat): (ps: seq<nat>)
    ensures |ps| == n && forall i :: 0 <= i < n ==> ps[i] == i
  {
    seq(n, i => i)
  }

  ghost predicate Positive(configs: seq<Config>) {
    forall p :: 0 <= p < |configs| ==> configs[p].weight >= 1
  }

  lemma {:induction false} AtLeastOneEach(configs: seq<Config>, ps: seq<nat>)
    requires Positive(configs) && Known(configs, ps)
    ensures WeightSum(configs, ps) >= |ps|
    decreases |ps|
  {
    if ps != [] {
      AtLeastOneEach(configs, ps[..|ps| - 1]);
    }
  }

  /** As many runners as the quorum asks for, or all there are, weigh the quorum if all together do. */
  lemma {:induction false} EnoughWeight(configs: seq<Config>, quorum: nat, running: seq<Runner>)
    requires Positive(configs) && RunnersOk(configs, running)
    requires |running| >= quorum || |running| == |configs|
    requires WeightSum(configs, Everyone(|configs|)) >= quorum
    ensures WeightSum(configs, Providers(running)) >= quorum
  {
    hide WeightSum, RunnersOk;
    var ps, n := Providers(running), |configs|;
    ProvidersKnown(configs, running);
    AtLeastOneEach(configs, ps);
    if |running| == n {
      RunnersBounded(configs, running);
      forall q: nat | q < n
        ensures q in ps
      {
        assert IsRunning(running, q);
        var i :| 0 <= i < |running| && running[i].provider == q;
        assert ps[i] == q;
      }
      SubsetWeighs(configs, Everyone(n), ps);
    }
  }

  lemma ProvidersKnown(configs: seq<Config>, running: seq<Runner>)
    requires RunnersOk(configs, running)
    ensures Known(configs, Providers(running))
  {
  }

  /** At a look with nothing left to wait for, agreement of those asked decides by their weight alone. */
  lemma AgreedLookIff(configs: seq<Config>, quorum: int, bound: int, s: State, s': State, v: Value, reply: Reply)
    requires NoDebts(configs) && quorum >= 1 && Inv(configs, quorum, bound, s)
    requires LookStep(configs, quorum, s, s', v) && Watched(s.running) == {}
    requires Agreed(s.running, reply) && reply.value != Undefined
    ensures Known(configs, Providers(s.running))
    ensures s'.phase.Done? <==> WeightSum(configs, Providers(s.running)) >= quorum
    ensures s'.phase.Done? ==> s'.phase.outcome == if reply.value.Error? then Threw(reply.value) else Returned(reply.value)
  {
    hide Checks, Results, Bumped, BumpCount, WeightSum, AreSupporters, PhaseOk;
    ProvidersKnown(configs, s.running);
    NothingPending(s.running);
    AgreedSupport(configs, s.running, reply);
    if WeightSum(configs, Providers(s.running)) >= quorum {
      LookFindsQuorum(configs, quorum, s, s', v, reply.tag, Providers(s.running));
    }
    if v != Undefined {
      LookValueIsReply(configs, quorum, s, s', v);
      CheckedIsSupported(configs, quorum, s.running, v);
      SupportedByAll(configs, quorum, s.running, v);
    }
  }

  lemma SupportedByAll(configs: seq<Config>, quorum: int, running: seq<Runner>, v: Value)
    requires NoDebts(configs) && RunnersOk(configs, running) && Supported(configs, quorum, running, v)
    ensures Known(configs, Providers(running)) && WeightSum(configs, Providers(running)) >= quorum
  {
    hide WeightSum;
    ProvidersKnown(configs, running);
    var tag: string, ps: seq<nat> :| AreSupporters(configs, running, tag, ps) && WeightSum(configs, ps) >= quorum;
    forall q | q in ps
      ensures q in Providers(running)
    {
      assert AnsweredTag(running, q, tag);
      var i :| 0 <= i < |running| && running[i].provider == q;
      assert Providers(running)[i] == q;
    }
    SubsetWeighs(configs, ps, Providers(running));
  }

  lemma NothingPending(running: seq<Runner>)
    requires Watched(running) == {} && forall i :: 0 <= i < |running| ==> (running[i].result.Some? <==> !running[i].performing)
    ensures AllAnswered(running)
  {
    forall i | 0 <= i < |running|
      ensures running[i].result.Some?
    {
      assert !running[i].performing by {
        assert Promise(i, true) !in Watched(running);
      }
    }
  }

  /** Enough runners for a quorum, and something to wait for whenever more are added. */
  ghost predicate Hopeful(configs: seq<Config>, quorum: nat, s: State) {
    && (|s.running| >= quorum || |s.running| == |configs|)
    && s.phase != Done(QuorumNotMet) && (s.phase.Adding? ==> s.phase.watched != {})
  }

  lemma InitHopeful(configs: seq<Config>, quorum: nat, s: State)
    requires Init(configs, quorum, s)
    ensures Hopeful(configs, quorum, s)
  {
    hide AddsMany;
    NoRunners(configs);
    AddsFill(configs, [], s.running, quorum);
  }

  lemma HopefulStep(configs: seq<Config>, quorum: nat, bound: int, s: State, s': State, reply: Reply)
    requires Positive(configs) && quorum >= 1 && WeightSum(configs, Everyone(|configs|)) >= quorum
    requires Inv(configs, quorum, bound, s) && Hopeful(configs, quorum, s) && Next(configs, quorum, s, s')
    requires Agreed(s.running, reply) && reply.value != Undefined && |s'.running| <= |configs|
    ensures Hopeful(configs, quorum, s')
  {
    hide AddsMany, Checks, RunnersOk, PhaseOk, Agreed, WeightSum, Watched, Results, Bumped, BumpCount;
    NeverFewer(configs, quorum, bound, s, s');
    if v :| LookStep(configs, quorum, s, s', v) {
      if Watched(s.running) == {} {
        EnoughWeight(configs, quorum, s.running);
        AgreedLookIff(configs, quorum, bound, s, s', v, reply);
      }
    }
  }

  /**
   * If all that answer give the same answer, weights are positive and together make up the quorum,
   * then in no interleaving is the quorum given up, and every request that is done ends with that answer.
   */
  lemma {:induction false} AgreementWins(configs: seq<Config>, quorum: nat, run: seq<State>, reply: Reply, k: nat)
    requires IsRun(configs, quorum, run) && configs != [] && quorum >= 1 && k < |run|
    requires Positive(configs) && WeightSum(configs, Everyone(|configs|)) >= quorum
    requires reply.value != Undefined && forall j :: 0 <= j < |run| ==> Agreed(run[j].running, reply)
    ensures run[k].phase.Done? ==>
              run[k].phase.outcome == if reply.value.Error? then Threw(reply.value) else Returned(reply.value)
  {
    hide Inv, Next, Init, Potential, Agreed, WeightSum, Supported;
    StaysHopeful(configs, quorum, run, reply, k);
    RunOk(configs, quorum, run, k);
    if run[k].phase.Done? {
      NotGivenUp(configs, quorum, run[k]);
      OutcomeSupported(configs, quorum, 2 * |configs|, run[k]);
      var o := run[k].phase.outcome;
      AgreedSupported(configs, quorum, run[k].running, if o.Returned? then o.value else o.error, reply);
    }
  }

  lemma NotGivenUp(configs: seq<Config>, quorum: nat, s: State)
    requires Hopeful(configs, quorum, s)
    ensures s.phase != Done(QuorumNotMet)
  {
  }

  lemma OutcomeSupported(configs: seq<Config>, quorum: int, bound: int, s: State)
    requires Inv(configs, quorum, bound, s) && s.phase.Done? && !s.phase.outcome.QuorumNotMet?
    ensures var o := s.phase.outcome;
            var v := if o.Returned? then o.value else o.error;
            Supported(configs, quorum, s.running, v) && (v.Error? <==> o.Threw?)
  {
    hide Supported, RunnersOk;
  }

  lemma AgreedSupported(configs: seq<Config>, quorum: int, running: seq<Runner>, v: Value, reply: Reply)
    requires Supported(configs, quorum, running, v) && Agreed(running, reply)
    ensures v == reply.value
  {
    var tag: string, ps: seq<nat> :| AreSupporters(configs, running, tag, ps) && WeightSum(configs, ps) >= quorum &&
                                     exists p :: Answered(running, p, Reply(tag, v));
    var p :| Answered(running, p, Reply(tag, v));
  }

  lemma {:induction false} StaysHopeful(configs: seq<Config>, quorum: nat, run: seq<State>, reply: Reply, k: nat)
    requires IsRun(configs, quorum, run) && configs != [] && quorum >= 1 && k < |run|
    requires Positive(configs) && WeightSum(configs, Everyone(|configs|)) >= quorum
    requires reply.value != Undefined && forall j :: 0 <= j < |run| ==> Agreed(run[j].running, reply)
    ensures Hopeful(configs, quorum, run[k])
    decreases k
  {
    hide Inv, Next, Init, Potential, Agreed, WeightSum, Hopeful;
    RunOk(configs, quorum, run, k);
    InvBounded(configs, quorum, 2 * |configs|, run[k]);
    if k == 0 {
      InitHopeful(configs, quorum, run[0]);
    } else {
      StaysHopeful(configs, quorum, run, reply, k - 1);
      RunOk(configs, quorum, run, k - 1);
      assert Next(configs, quorum, run[k - 1], run[k - 1 + 1]);
      HopefulStep(configs, quorum, 2 * |configs|, run[k - 1], run[k], reply);
    }
  }

  /**
   * Weight zero is another matter: the two providers that agree weigh nothing, the third, which
   * weighs the quorum, is started too late.
   */
  lemma WeightlessAgreementFails()
    ensures var configs, run := ThreeProviders(0, 2), EarlyRun(FIRST_REPLY);
            && IsRun(configs, 2, run) && WeightSum(configs, Everyone(3)) == 2
            && (forall j :: 0 <= j < |run| ==> Agreed(run[j].running, FIRST_REPLY))
            && run[6].phase == Done(QuorumNotMet)
  {
    var configs := ThreeProviders(0, 2);
    EarlyRunIsRun(0, 2, FIRST_REPLY);
    var ps := Everyone(3);
    assert ps == [0, 1, 2] && ps[..2] == [0, 1] && ps[..2][..1] == [0] && [0][..0] == [];
    assert WeightSum(configs, [0]) == 0 && WeightSum(configs, [0, 1]) == 0;
  }

  // ---------- how many are asked ----------

  function BumpedCount(running: seq<Runner>): nat {
    if running == [] then 0
    else BumpedCount(running[..|running| - 1]) + if running[|running| - 1].didBump then 1 else 0
  }

  function Least(a: int, b: int): int {
    if a <= b then a else b
  }

  lemma BumpedCountAppend(running: seq<Runner>, r: Runner)
    ensures BumpedCount(running + [r]) == BumpedCount(running) + if r.didBump then 1 else 0
  {
    assert (running + [r])[..|running|] == running;
  }

  lemma {:induction false} BumpedCountUpdate(running: seq<Runner>, i: nat, r: Runner)
    requires i < |running| && r.didBump == running[i].didBump
    ensures BumpedCount(running[i := r]) == BumpedCount(running)
    decreases |running|
  {
    var n := |running| - 1;
    if i < n {
      BumpedCountUpdate(running[..n], i, r);
      assert running[i := r][..n] == running[..n][i := r];
    } else {
      assert running[i := r][..n] == running[..n];
    }
  }

  lemma {:induction false} BumpedCountLooked(running: seq<Runner>)
    ensures BumpedCount(Bumped(running)) == BumpedCount(running) + BumpCount(running)
    decreases |running|
  {
    if running != [] {
      var init, last := running[..|running| - 1], running[|running| - 1];
      BumpedCountLooked(init);
      BumpedCountAppend(Bumped(init), if Bumps(last) then last.(didBump := true) else last);
    }
  }

  lemma {:induction false} BumpedCountAdded(configs: seq<Config>, running: seq<Runner>, next: seq<Runner>, n: nat)
    requires AddsMany(configs, running, next, n)
    ensures BumpedCount(next) == BumpedCount(running)
    decreases n
  {
    hide NoneIdle, IsNext;
    if n > 0 {
      var mid :| AddsMany(configs, running, mid, n - 1) && AddsOne(configs, mid, next);
      BumpedCountAdded(configs, running, mid, n - 1);
      if next != mid {
        BumpedCountAppend(mid, next[|mid|]);
        assert next == mid + [next[|mid|]];
      }
    }
  }

  /** How many bumped runners have not been followed by a new one yet. */
  function Owed(s: State): nat {
    match s.phase
    case Adding(n, _) => n
    case _ => 0
  }

  ghost predicate Counted(configs: seq<Config>, quorum: nat, s: State) {
    && Owed(s) <= BumpedCount(s.running)
    && (!s.phase.Done? || s.phase.outcome.QuorumNotMet? ==>
          |s.running| == Least(|configs|, quorum + BumpedCount(s.running) - Owed(s)))
  }

  lemma CountedStep(configs: seq<Config>, quorum: nat, bound: int, s: State, s': State)
    requires Inv(configs, quorum, bound, s) && Counted(configs, quorum, s) && Next(configs, quorum, s, s')
    ensures Counted(configs, quorum, s')
  {
    hide AddsMany, Checks, RunnersOk, PhaseOk, BumpedCount, BumpCount, Bumped, Results, Watched;
    if i: nat, reply :| ReplyStep(s, s', i, reply) {
      BumpedCountUpdate(s.running, i, s'.running[i]);
    } else if i: nat :| StallStep(s, s', i) {
      BumpedCountUpdate(s.running, i, s'.running[i]);
    } else if v :| LookStep(configs, quorum, s, s', v) {
      BumpedCountLooked(s.running);
      BumpedKeeps(s.running);
    } else if AddStep(configs, s, s') {
      BumpedCountAdded(configs, s.running, s'.running, s.phase.newRunners);
      AddsFill(configs, s.running, s'.running, s.phase.newRunners);
    }
  }

  lemma InitCounted(configs: seq<Config>, quorum: nat, s: State)
    requires Init(configs, quorum, s)
    ensures Counted(configs, quorum, s)
  {
    hide AddsMany, RunnersOk;
    NoRunners(configs);
    BumpedCountAdded(configs, [], s.running, quorum);
    AddsFill(configs, [], s.running, quorum);
    assert BumpedCount([]) == 0;
  }

  lemma {:induction false} StaysCounted(configs: seq<Config>, quorum: nat, run: seq<State>, k: nat)
    requires IsRun(configs, quorum, run) && configs != [] && quorum >= 1 && k < |run|
    ensures Counted(configs, quorum, run[k])
    decreases k
  {
    hide Inv, Next, Init, Potential, Counted;
    if k == 0 {
      InitCounted(configs, quorum, run[0]);
    } else {
      StaysCounted(configs, quorum, run, k - 1);
      RunOk(configs, quorum, run, k - 1);
      assert Next(configs, quorum, run[k - 1], run[k - 1 + 1]);
      CountedStep(configs, quorum, 2 * |configs|, run[k - 1], run[k]);
    }
  }

  /**
   * Whenever a request looks, waits or gives up, it has asked as many providers as the quorum says and
   * one more for each runner that a look found not to stall any more, or all there are.
   */
  lemma AskedProviders(configs: seq<Config>, quorum: nat, run: seq<State>, k: nat)
    requires IsRun(configs, quorum, run) && configs != [] && quorum >= 1 && k < |run|
    requires run[k].phase.Looking? || run[k].phase.Waiting? || run[k].phase == Done(QuorumNotMet)
    ensures |run[k].running| == Least(|configs|, quorum + BumpedCount(run[k].running))
  {
    hide IsRun, BumpedCount;
    StaysCounted(configs, quorum, run, k);
  }
}
