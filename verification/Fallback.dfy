/**
 * One request of the fallback provider as a state machine: replies and stall timers are events
 * that may come between any two steps, and the steps are the stretches of `#waitForQuorum`
 * between its awaits.
 */
module Fallback {
  import opened Wrappers
  import opened Tally

  /** The settings of one provider; providers are numbered by position. */
  datatype Config = Config(priority: int, weight: int)

  /** `performing` and `stalling` are the two promises of a runner, while they are pending. */
  datatype Runner = Runner(provider: nat, performing: bool, stalling: bool, didBump: bool, result: Option<Reply>)

  datatype Reply = Reply(tag: string, value: Value)

  /** A promise that is waited for: of which runner, and whether it is its reply or its timer. */
  datatype Promise = Promise(runner: nat, isReply: bool)

  datatype Outcome = Returned(value: Value) | Threw(error: Value) | QuorumNotMet

  /** Where the request is: about to look, about to add runners, waiting, or finished. */
  datatype Phase =
    | Looking
    | Adding(newRunners: nat, watched: set<Promise>)
    | Waiting(watched: set<Promise>)
    | Done(outcome: Outcome)

  /** `looks` counts the calls of `#waitForQuorum` that have looked at the results. */
  datatype State = State(running: seq<Runner>, phase: Phase, looks: nat)

  // ---------- choosing the next provider ----------

  predicate IsRunning(running: seq<Runner>, p: nat) {
    exists i :: 0 <= i < |running| && running[i].provider == p
  }

  /** The shuffled list is sorted by descending priority, so any idle provider of greatest priority. */
  predicate IsNext(configs: seq<Config>, running: seq<Runner>, p: nat) {
    && p < |configs| && !IsRunning(running, p)
    && forall q :: 0 <= q < |configs| && !IsRunning(running, q) ==> configs[q].priority <= configs[p].priority
  }

  predicate NoneIdle(configs: seq<Config>, running: seq<Runner>) {
    forall p :: 0 <= p < |configs| ==> IsRunning(running, p)
  }

  function NewRunner(p: nat): Runner {
    Runner(p, true, true, false, None)
  }

  /** `#addRunner`: one more runner if a provider is idle. */
  predicate AddsOne(configs: seq<Config>, running: seq<Runner>, next: seq<Runner>) {
    || (NoneIdle(configs, running) && next == running)
    || (|next| == |running| + 1 && next[..|running|] == running &&
        next[|running|] == NewRunner(next[|running|].provider) && IsNext(configs, running, next[|running|].provider))
  }

  ghost predicate AddsMany(configs: seq<Config>, running: seq<Runner>, next: seq<Runner>, n: nat)
    decreases n
  {
    if n == 0 then next == running
    else exists mid :: AddsMany(configs, running, mid, n - 1) && AddsOne(configs, mid, next)
  }

  /** The configuration comment says that lower priorities go first. */
  predicate DispatchesLowest(configs: seq<Config>, running: seq<Runner>, p: nat)
    requires p < |configs|
  {
    forall q :: 0 <= q < |configs| && !IsRunning(running, q) ==> configs[p].priority <= configs[q].priority
  }

  /** The code prefers the highest priority: the comment holds only when all idle ones are equal. */
  lemma DispatchesLowestIff(configs: seq<Config>, running: seq<Runner>, p: nat)
    requires IsNext(configs, running, p)
    ensures DispatchesLowest(configs, running, p) <==>
            forall q, r :: 0 <= q < |configs| && 0 <= r < |configs| && !IsRunning(running, q) && !IsRunning(running, r) ==>
              configs[q].priority == configs[r].priority
  {
  }

  lemma HighestPriorityFirst()
    ensures var configs := [Config(1, 1), Config(2, 1)];
            IsNext(configs, [], 1) && !IsNext(configs, [], 0) && !DispatchesLowest(configs, [], 1)
  {
    var configs := [Config(1, 1), Config(2, 1)];
    assert configs[0].priority == 1 && configs[1].priority == 2;
  }

  // ---------- the results so far ----------

  /** The list that `#checkQuorum` builds, in the order in which the runners were added. */
  function Results(configs: seq<Config>, running: seq<Runner>): seq<TallyResult>
    requires forall i :: 0 <= i < |running| ==> running[i].provider < |configs|
  {
    if running == [] then []
    else
      var last := running[|running| - 1];
      Results(configs, running[..|running| - 1]) +
      match last.result
      case None => []
      case Some(reply) => [TallyResult(reply.tag, reply.value, configs[last.provider].weight)]
  }

  /** `#checkQuorum` for the requests that go through `checkQuorum`. */
  ghost predicate Checks(quorum: int, results: seq<TallyResult>, v: Value) {
    if TotalWeight(results) < quorum then v == Undefined else IsQuorumValue(quorum, results, v)
  }

  // ---------- the steps ----------

  ghost predicate InRange(configs: seq<Config>, running: seq<Runner>) {
    forall i :: 0 <= i < |running| ==> running[i].provider < |configs|
  }

  ghost predicate Init(configs: seq<Config>, quorum: nat, s: State) {
    AddsMany(configs, [], s.running, quorum) && s.phase == Looking && s.looks == 0
  }

  /** A provider answers or fails, at any time. */
  ghost predicate ReplyStep(s: State, s': State, i: nat, reply: Reply) {
    && i < |s.running| && s.running[i].performing
    && s' == s.(running := s.running[i := s.running[i].(performing := false, result := Some(reply))])
  }

  /** A stall timer runs out, at any time. */
  ghost predicate StallStep(s: State, s': State, i: nat) {
    && i < |s.running| && s.running[i].stalling
    && s' == s.(running := s.running[i := s.running[i].(stalling := false)])
  }

  function Watched(running: seq<Runner>): set<Promise> {
    (set i | 0 <= i < |running| && running[i].performing :: Promise(i, true)) +
    (set i | 0 <= i < |running| && running[i].stalling :: Promise(i, false))
  }

  /** A runner that no longer stalls starts another one, once. */
  predicate Bumps(r: Runner) {
    !r.stalling && !r.didBump
  }

  function Bumped(running: seq<Runner>): seq<Runner> {
    if running == [] then []
    else
      var last := running[|running| - 1];
      Bumped(running[..|running| - 1]) + [if Bumps(last) then last.(didBump := true) else last]
  }

  function BumpCount(running: seq<Runner>): nat {
    if running == [] then 0
    else BumpCount(running[..|running| - 1]) + if Bumps(running[|running| - 1]) then 1 else 0
  }

  /** The loop over the runners and the quorum check, up to the first await. */
  ghost predicate LookStep(configs: seq<Config>, quorum: int, s: State, s': State, v: Value) {
    && s.phase == Looking && s.running != [] && InRange(configs, s.running)
    && Checks(quorum, Results(configs, s.running), v)
    && s' == State(
         Bumped(s.running),
         match v
         case Undefined => Adding(BumpCount(s.running), Watched(s.running))
         case Error(_) => Done(Threw(v))
         case _ => Done(Returned(v)),
         s.looks + 1)
  }

  /** Adding runners, and the assertion that something is left to wait for. */
  ghost predicate AddStep(configs: seq<Config>, s: State, s': State) {
    && s.phase.Adding?
    && AddsMany(configs, s.running, s'.running, s.phase.newRunners)
    && s'.looks == s.looks
    && s'.phase == if s.phase.watched == {} then Done(QuorumNotMet) else Waiting(s.phase.watched)
  }

  predicate Settled(running: seq<Runner>, p: Promise) {
    p.runner < |running| && if p.isReply then !running[p.runner].performing else !running[p.runner].stalling
  }

  /** The race is won by any watched promise that has settled. */
  ghost predicate WakeStep(s: State, s': State) {
    && s.phase.Waiting? && (exists p :: p in s.phase.watched && Settled(s.running, p))
    && s' == s.(phase := Looking)
  }

  ghost predicate Next(configs: seq<Config>, quorum: int, s: State, s': State) {
    || (exists i, reply :: ReplyStep(s, s', i, reply))
    || (exists i :: StallStep(s, s', i))
    || (exists v :: LookStep(configs, quorum, s, s', v))
    || AddStep(configs, s, s')
    || WakeStep(s, s')
  }

  /** A run: any interleaving of the steps and events of one request. */
  ghost predicate IsRun(configs: seq<Config>, quorum: nat, run: seq<State>) {
    && run != [] && Init(configs, quorum, run[0])
    && forall k :: 0 <= k < |run| - 1 ==> Next(configs, quorum, run[k], run[k + 1])
  }

  // ---------- the runners ----------

  ghost predicate Distinct(running: seq<Runner>) {
    forall i, j :: 0 <= i < j < |running| ==> running[i].provider != running[j].provider
  }

  /** No provider runs twice, and a runner has a result exactly when its request has settled. */
  ghost predicate RunnersOk(configs: seq<Config>, running: seq<Runner>) {
    && InRange(configs, running) && Distinct(running)
    && forall i :: 0 <= i < |running| ==> (running[i].result.Some? <==> !running[i].performing)
  }

  function Pending(r: Runner): nat {
    (if r.performing then 1 else 0) + (if r.stalling then 1 else 0)
  }

  function Outstanding(running: seq<Runner>): nat {
    if running == [] then 0 else Outstanding(running[..|running| - 1]) + Pending(running[|running| - 1])
  }

  /** Two for each provider not yet asked, one for each promise that is still pending. */
  function Measure(configs: seq<Config>, running: seq<Runner>): int {
    2 * (|configs| - |running|) + Outstanding(running)
  }

  lemma {:induction false} OutstandingUpdate(running: seq<Runner>, i: nat, r: Runner)
    requires i < |running|
    ensures Outstanding(running[i := r]) == Outstanding(running) - Pending(running[i]) + Pending(r)
    decreases |running|
  {
    var n := |running| - 1;
    if i < n {
      OutstandingUpdate(running[..n], i, r);
      assert running[i := r][..n] == running[..n][i := r];
    } else {
      assert running[i := r][..n] == running[..n];
    }
  }

  ghost predicate DistinctNumbers(ps: seq<nat>) {
    forall i, j :: 0 <= i < j < |ps| ==> ps[i] != ps[j]
  }

  function Without(ps: seq<nat>, k: nat): (r: seq<nat>)
    requires k < |ps|
    ensures |r| == |ps| - 1
    ensures forall p :: p in ps ==> p == ps[k] || p in r
  {
    assert ps == ps[..k] + [ps[k]] + ps[k + 1..];
    ps[..k] + ps[k + 1..]
  }

  lemma WithoutDistinct(ps: seq<nat>, k: nat)
    requires k < |ps| && DistinctNumbers(ps)
    ensures DistinctNumbers(Without(ps, k)) && ps[k] !in Without(ps, k)
    ensures forall p :: p in Without(ps, k) ==> p in ps
  {
  }

  /** Distinct numbers below n are at most n many. */
  lemma {:induction false} Pigeonhole(ps: seq<nat>, n: nat)
    requires DistinctNumbers(ps) && forall p :: p in ps ==> p < n
    ensures |ps| <= n
    decreases n
  {
    if ps != [] {
      assert ps[0] in ps;
      if n - 1 in ps {
        var k :| 0 <= k < |ps| && ps[k] == n - 1;
        WithoutDistinct(ps, k);
        Pigeonhole(Without(ps, k), n - 1);
      } else {
        Pigeonhole(ps, n - 1);
      }
    }
  }

  /** Numbers that include all those below n are at least n many. */
  lemma {:induction false} Covering(ps: seq<nat>, n: nat)
    requires forall p: nat :: p < n ==> p in ps
    ensures |ps| >= n
    decreases n
  {
    if n > 0 {
      assert n - 1 in ps;
      var k :| 0 <= k < |ps| && ps[k] == n - 1;
      Covering(Without(ps, k), n - 1);
    }
  }

  function Providers(running: seq<Runner>): (ps: seq<nat>)
    ensures |ps| == |running| && forall i :: 0 <= i < |ps| ==> ps[i] == running[i].provider
  {
    seq(|running|, i requires 0 <= i < |running| => running[i].provider)
  }

  lemma {:induction false} OutstandingNotNegative(running: seq<Runner>)
    ensures 0 <= Outstanding(running) <= 2 * |running|
    decreases |running|
  {
    if running != [] {
      OutstandingNotNegative(running[..|running| - 1]);
    }
  }

  /** Never more runners than providers, and all of them running exactly when none is idle. */
  lemma RunnersBounded(configs: seq<Config>, running: seq<Runner>)
    requires RunnersOk(configs, running)
    ensures |running| <= |configs| && 0 <= Measure(configs, running) <= 2 * |configs|
    ensures NoneIdle(configs, running) <==> |running| == |configs|
  {
    var ps := Providers(running);
    OutstandingNotNegative(running);
    Pigeonhole(ps, |configs|);
    if NoneIdle(configs, running) {
      forall p: nat | p < |configs|
        ensures p in ps
      {
        assert IsRunning(running, p);
        var i :| 0 <= i < |running| && running[i].provider == p;
        assert ps[i] == p;
      }
      Covering(ps, |configs|);
    } else {
      var p :| 0 <= p < |configs| && !IsRunning(running, p);
      Pigeonhole(ps + [p], |configs|);
    }
  }

  // ---------- adding ----------

  lemma AddsOneKeeps(configs: seq<Config>, running: seq<Runner>, next: seq<Runner>)
    requires RunnersOk(configs, running) && AddsOne(configs, running, next)
    ensures RunnersOk(configs, next) && running <= next && Measure(configs, next) == Measure(configs, running)
    ensures forall i :: |running| <= i < |next| ==> next[i].performing
  {
    if next != running {
      assert forall i :: 0 <= i < |running| ==> next[i] == next[..|running|][i];
      assert forall i :: 0 <= i < |running| ==> running[i].provider != next[|running|].provider;
    }
  }

  lemma {:induction false} AddsManyKeeps(configs: seq<Config>, running: seq<Runner>, next: seq<Runner>, n: nat)
    requires RunnersOk(configs, running) && AddsMany(configs, running, next, n)
    ensures RunnersOk(configs, next) && running <= next && Measure(configs, next) == Measure(configs, running)
    ensures forall i :: |running| <= i < |next| ==> next[i].performing
    decreases n
  {
    hide RunnersOk, AddsOne;
    if n > 0 {
      var mid :| AddsMany(configs, running, mid, n - 1) && AddsOne(configs, mid, next);
      AddsManyKeeps(configs, running, mid, n - 1);
      AddsOneKeeps(configs, mid, next);
    }
  }

  // ---------- looking ----------

  lemma {:induction false} BumpedKeeps(running: seq<Runner>)
    ensures |Bumped(running)| == |running| && Outstanding(Bumped(running)) == Outstanding(running)
    ensures forall i :: 0 <= i < |running| ==>
              Bumped(running)[i] == running[i].(didBump := Bumped(running)[i].didBump)
    decreases |running|
  {
    if running != [] {
      var n := |running| - 1;
      BumpedKeeps(running[..n]);
      assert Bumped(running)[..n] == Bumped(running[..n]);
    }
  }

  /** Providers that answered with the tag, in the order in which they were asked. */
  function Supporters(running: seq<Runner>, tag: string): seq<nat> {
    if running == [] then []
    else
      var last := running[|running| - 1];
      Supporters(running[..|running| - 1], tag) +
      if last.result.Some? && last.result.value.tag == tag then [last.provider] else []
  }

  function WeightSum(configs: seq<Config>, ps: seq<nat>): int
    requires forall i :: 0 <= i < |ps| ==> ps[i] < |configs|
  {
    if ps == [] then 0 else WeightSum(configs, ps[..|ps| - 1]) + configs[ps[|ps| - 1]].weight
  }

  /** `p` answered with that tag and value. */
  predicate Answered(running: seq<Runner>, p: nat, reply: Reply) {
    exists i :: 0 <= i < |running| && running[i].provider == p && running[i].result == Some(reply)
  }

  predicate AnsweredTag(running: seq<Runner>, p: nat, tag: string) {
    exists i :: 0 <= i < |running| && running[i].provider == p && running[i].result.Some? &&
                running[i].result.value.tag == tag
  }

  /** Distinct providers, of at least quorum weight, answered with one tag, and one of them with `v`. */
  ghost predicate Supported(configs: seq<Config>, quorum: int, running: seq<Runner>, v: Value) {
    exists tag: string, ps: seq<nat> ::
      && AreSupporters(configs, running, tag, ps)
      && WeightSum(configs, ps) >= quorum
      && exists p :: Answered(running, p, Reply(tag, v))
  }

  /** Distinct providers of the tag, weighing what the tally gives the tag. */
  ghost predicate AreSupporters(configs: seq<Config>, running: seq<Runner>, tag: string, ps: seq<nat>) {
    && (forall i :: 0 <= i < |ps| ==> ps[i] < |configs| && AnsweredTag(running, ps[i], tag))
    && DistinctNumbers(ps)
  }

  lemma AnsweredStays(running: seq<Runner>, r: Runner, p: nat, tag: string)
    requires AnsweredTag(running, p, tag)
    ensures AnsweredTag(running + [r], p, tag)
  {
    var k :| 0 <= k < |running| && running[k].provider == p && running[k].result.Some? &&
             running[k].result.value.tag == tag;
    assert (running + [r])[k] == running[k];
  }

  lemma SupportersStep(configs: seq<Config>, running: seq<Runner>, r: Runner, tag: string, ps: seq<nat>)
    requires AreSupporters(configs, running, tag, ps) && r.provider < |configs|
    requires forall i :: 0 <= i < |running| ==> running[i].provider != r.provider
    ensures AreSupporters(configs, running + [r], tag, ps)
    ensures r.result.Some? && r.result.value.tag == tag ==>
              AreSupporters(configs, running + [r], tag, ps + [r.provider])
  {
    forall i | 0 <= i < |ps|
      ensures AnsweredTag(running + [r], ps[i], tag) && ps[i] != r.provider
    {
      AnsweredStays(running, r, ps[i], tag);
    }
    assert (running + [r])[|running|] == r;
  }

  lemma {:induction false} SupportersAre(configs: seq<Config>, running: seq<Runner>, tag: string)
    requires InRange(configs, running) && Distinct(running)
    ensures AreSupporters(configs, running, tag, Supporters(running, tag))
    decreases |running|
  {
    if running != [] {
      hide AreSupporters;
      var n := |running| - 1;
      SupportersAre(configs, running[..n], tag);
      assert running == running[..n] + [running[n]];
      SupportersStep(configs, running[..n], running[n], tag, Supporters(running[..n], tag));
      assert Supporters(running[..n], tag) + [] == Supporters(running[..n], tag);
    }
  }

  lemma WeightSumAppend(configs: seq<Config>, ps: seq<nat>, p: nat)
    requires (forall i :: 0 <= i < |ps| ==> ps[i] < |configs|) && p < |configs|
    ensures forall i :: 0 <= i < |ps + [p]| ==> (ps + [p])[i] < |configs|
    ensures WeightSum(configs, ps + [p]) == WeightSum(configs, ps) + configs[p].weight
  {
    assert (ps + [p])[..|ps|] == ps;
  }

  lemma {:induction false} SupportersWeigh(configs: seq<Config>, running: seq<Runner>, tag: string)
    requires InRange(configs, running)
    ensures forall i :: 0 <= i < |Supporters(running, tag)| ==> Supporters(running, tag)[i] < |configs|
    ensures WeightSum(configs, Supporters(running, tag)) == WeightOf(Results(configs, running), tag)
    decreases |running|
  {
    hide WeightSum, WeightOf;
    if running == [] {
      EmptyWeights(configs, tag);
    } else {
      var n := |running| - 1;
      var init, last := running[..n], running[n];
      SupportersWeigh(configs, init, tag);
      var before := Supporters(init, tag);
      WeightSumAppend(configs, before, last.provider);
      if last.result.Some? {
        var reply := last.result.value;
        WeightAppend(Results(configs, init), TallyResult(reply.tag, reply.value, configs[last.provider].weight), tag);
      }
      assert before + [] == before && Results(configs, init) + [] == Results(configs, init);
    }
  }

  lemma EmptyWeights(configs: seq<Config>, tag: string)
    ensures WeightSum(configs, []) == 0 && WeightOf([], tag) == 0
  {
  }

  lemma {:induction false} ResultIsAnswer(configs: seq<Config>, running: seq<Runner>, k: nat)
    requires InRange(configs, running) && k < |Results(configs, running)|
    ensures var r := Results(configs, running)[k]; exists p :: Answered(running, p, Reply(r.tag, r.value))
    decreases |running|
  {
    var n := |running| - 1;
    var init := running[..n];
    if k < |Results(configs, init)| {
      ResultIsAnswer(configs, init, k);
      var r := Results(configs, running)[k];
      var p :| Answered(init, p, Reply(r.tag, r.value));
      var i :| 0 <= i < |init| && init[i].provider == p && init[i].result == Some(Reply(r.tag, r.value));
      assert running[i] == init[i];
      assert Answered(running, p, Reply(r.tag, r.value));
    } else {
      assert running[n].result == Some(Reply(Results(configs, running)[k].tag, Results(configs, running)[k].value));
      assert Answered(running, running[n].provider, running[n].result.value);
    }
  }

  /** What a look returns carries quorum weight from distinct providers with the same tag. */
  lemma CheckedIsSupported(configs: seq<Config>, quorum: int, running: seq<Runner>, v: Value)
    requires InRange(configs, running) && Distinct(running)
    requires Checks(quorum, Results(configs, running), v) && v != Undefined
    ensures Supported(configs, quorum, running, v)
  {
    var results := Results(configs, running);
    var tag :| Wins(quorum, results, tag) && v == results[FirstWith(results, tag)].value;
    FirstWithTag(results, tag);
    SupportersAre(configs, running, tag);
    SupportersWeigh(configs, running, tag);
    ResultIsAnswer(configs, running, FirstWith(results, tag));
  }

  /** Answers stay: what is supported once is supported for ever. */
  lemma SupportStays(configs: seq<Config>, quorum: int, running: seq<Runner>, next: seq<Runner>, v: Value)
    requires Supported(configs, quorum, running, v) && |running| <= |next|
    requires forall i :: 0 <= i < |running| ==>
               next[i].provider == running[i].provider && (running[i].result.Some? ==> next[i].result == running[i].result)
    ensures Supported(configs, quorum, next, v)
  {
    var tag: string, ps: seq<nat> :|
      && AreSupporters(configs, running, tag, ps)
      && WeightSum(configs, ps) >= quorum
      && exists p :: Answered(running, p, Reply(tag, v));
    forall i | 0 <= i < |ps|
      ensures AnsweredTag(next, ps[i], tag)
    {
      var k :| 0 <= k < |running| && running[k].provider == ps[i] && running[k].result.Some? &&
               running[k].result.value.tag == tag;
      assert next[k].provider == ps[i];
    }
    var p :| Answered(running, p, Reply(tag, v));
    var k :| 0 <= k < |running| && running[k].provider == p && running[k].result == Some(Reply(tag, v));
    assert next[k].provider == p;
    assert Answered(next, p, Reply(tag, v));
  }

  // ---------- the invariant ----------

  ghost predicate AnySettled(running: seq<Runner>, watched: set<Promise>) {
    exists p :: p in watched && Settled(running, p)
  }

  /** Every pending promise of the runners is among the watched ones. */
  ghost predicate AllWatched(running: seq<Runner>, watched: set<Promise>) {
    forall i :: 0 <= i < |running| ==>
      && (running[i].performing ==> Promise(i, true) in watched)
      && (running[i].stalling ==> Promise(i, false) in watched)
  }

  ghost predicate PhaseOk(configs: seq<Config>, quorum: int, bound: int, s: State) {
    var m := Measure(configs, s.running);
    match s.phase
    case Looking => s.looks + m <= bound
    case Adding(_, watched) =>
      && 1 <= s.looks && s.looks - 1 + m <= bound && (AnySettled(s.running, watched) ==> s.looks + m <= bound)
      && (forall p :: p in watched ==> p.runner < |s.running|)
      && AllWatched(s.running, watched)
    case Waiting(watched) =>
      && 1 <= s.looks && s.looks - 1 + m <= bound && (AnySettled(s.running, watched) ==> s.looks + m <= bound)
      && (forall p :: p in watched ==> p.runner < |s.running|)
      && watched != {}
    case Done(outcome) =>
      && s.looks <= bound + 1
      && match outcome
         case Returned(v) => !v.Error? && Supported(configs, quorum, s.running, v)
         case Threw(v) => v.Error? && Supported(configs, quorum, s.running, v)
         case QuorumNotMet => true
  }

  ghost predicate Inv(configs: seq<Config>, quorum: int, bound: int, s: State) {
    RunnersOk(configs, s.running) && s.running != [] && PhaseOk(configs, quorum, bound, s)
  }

  /** An event settles one promise, which is the only thing that lowers the measure. */
  lemma EventKeeps(configs: seq<Config>, quorum: int, bound: int, s: State, s': State, i: nat)
    requires Inv(configs, quorum, bound, s) && i < |s.running|
    requires |s'.running| == |s.running| && s' == s.(running := s.running[i := s'.running[i]])
    requires var r, r' := s.running[i], s'.running[i];
             && r'.provider == r.provider && Pending(r') == Pending(r) - 1
             && (r'.result.Some? <==> !r'.performing) && (r.result.Some? ==> r'.result == r.result)
             && (r'.performing ==> r.performing) && (r'.stalling ==> r.stalling)
    ensures Inv(configs, quorum, bound, s') && Measure(configs, s'.running) == Measure(configs, s.running) - 1
  {
    hide Supported;
    OutstandingUpdate(s.running, i, s'.running[i]);
    if s.phase.Done? && !s.phase.outcome.QuorumNotMet? {
      var v := if s.phase.outcome.Returned? then s.phase.outcome.value else s.phase.outcome.error;
      SupportStays(configs, quorum, s.running, s'.running, v);
    }
  }

  lemma ReplyKeeps(configs: seq<Config>, quorum: int, bound: int, s: State, s': State, i: nat, reply: Reply)
    requires Inv(configs, quorum, bound, s) && ReplyStep(s, s', i, reply)
    ensures Inv(configs, quorum, bound, s') && Measure(configs, s'.running) == Measure(configs, s.running) - 1
  {
    hide PhaseOk;
    assert s.running[i].result.None?;
    EventKeeps(configs, quorum, bound, s, s', i);
  }

  lemma StallKeeps(configs: seq<Config>, quorum: int, bound: int, s: State, s': State, i: nat)
    requires Inv(configs, quorum, bound, s) && StallStep(s, s', i)
    ensures Inv(configs, quorum, bound, s') && Measure(configs, s'.running) == Measure(configs, s.running) - 1
  {
    hide PhaseOk;
    EventKeeps(configs, quorum, bound, s, s', i);
  }

  /** The promises collected in the loop are those still pending. */
  lemma WatchedPending(running: seq<Runner>)
    ensures AllWatched(running, Watched(running)) && !AnySettled(running, Watched(running))
    ensures forall p :: p in Watched(running) ==> p.runner < |running|
  {
  }

  /** Marking runners as bumped changes nothing else about them. */
  ghost predicate SameButBump(running: seq<Runner>, next: seq<Runner>) {
    |next| == |running| && forall i :: 0 <= i < |running| ==> next[i] == running[i].(didBump := next[i].didBump)
  }

  lemma SameButBumpKeeps(configs: seq<Config>, running: seq<Runner>, next: seq<Runner>, watched: set<Promise>)
    requires SameButBump(running, next)
    ensures RunnersOk(configs, running) ==> RunnersOk(configs, next)
    ensures AllWatched(running, watched) ==> AllWatched(next, watched)
  {
    assert forall i :: 0 <= i < |running| ==> next[i].provider == running[i].provider;
  }

  lemma SameButBumpSettled(running: seq<Runner>, next: seq<Runner>, watched: set<Promise>)
    requires SameButBump(running, next)
    ensures AnySettled(next, watched) ==> AnySettled(running, watched)
  {
    if AnySettled(next, watched) {
      var p :| p in watched && Settled(next, p);
      assert Settled(running, p);
    }
  }

  lemma SameButBumpSupports(configs: seq<Config>, quorum: int, running: seq<Runner>, next: seq<Runner>, v: Value)
    requires SameButBump(running, next) && Supported(configs, quorum, running, v)
    ensures Supported(configs, quorum, next, v)
  {
    hide Supported;
    SupportStays(configs, quorum, running, next, v);
  }

  lemma LookKeeps(configs: seq<Config>, quorum: int, bound: int, s: State, s': State, v: Value)
    requires Inv(configs, quorum, bound, s) && LookStep(configs, quorum, s, s', v)
    ensures Inv(configs, quorum, bound, s') && Measure(configs, s'.running) == Measure(configs, s.running)
  {
    hide RunnersOk, SameButBump, AllWatched, AnySettled, Watched, Checks, Results, Supported, BumpCount;
    BumpedSame(s.running);
    RunnersBounded(configs, s.running);
    SameButBumpKeeps(configs, s.running, s'.running, Watched(s.running));
    if v != Undefined {
      LookSupports(configs, quorum, s.running, v);
      SameButBumpSupports(configs, quorum, s.running, s'.running, v);
    } else {
      WatchedPending(s.running);
      SameButBumpSettled(s.running, s'.running, Watched(s.running));
    }
  }

  lemma BumpedSame(running: seq<Runner>)
    ensures SameButBump(running, Bumped(running)) && |Bumped(running)| == |running|
    ensures Outstanding(Bumped(running)) == Outstanding(running)
  {
    BumpedKeeps(running);
  }

  lemma LookSupports(configs: seq<Config>, quorum: int, running: seq<Runner>, v: Value)
    requires RunnersOk(configs, running) && Checks(quorum, Results(configs, running), v) && v != Undefined
    ensures Supported(configs, quorum, running, v)
  {
    hide Supported, Checks, Results;
    CheckedIsSupported(configs, quorum, running, v);
  }

  lemma AddKeeps(configs: seq<Config>, quorum: int, bound: int, s: State, s': State)
    requires Inv(configs, quorum, bound, s) && AddStep(configs, s, s')
    ensures Inv(configs, quorum, bound, s') && Measure(configs, s'.running) == Measure(configs, s.running)
  {
    hide Supported, RunnersOk, AddsMany;
    var watched := s.phase.watched;
    AddsManyKeeps(configs, s.running, s'.running, s.phase.newRunners);
    RunnersBounded(configs, s'.running);
    if AnySettled(s'.running, watched) {
      var p :| p in watched && Settled(s'.running, p);
      assert s'.running[p.runner] == s.running[p.runner];
      assert Settled(s.running, p);
    }
  }

  lemma WakeKeeps(configs: seq<Config>, quorum: int, bound: int, s: State, s': State)
    requires Inv(configs, quorum, bound, s) && WakeStep(s, s')
    ensures Inv(configs, quorum, bound, s') && Measure(configs, s'.running) == Measure(configs, s.running)
  {
    assert AnySettled(s.running, s.phase.watched);
  }

  /** Bounds how many steps and events a request can still take. */
  function Potential(configs: seq<Config>, bound: int, s: State): int {
    Measure(configs, s.running) + 3 * (bound + 1 - s.looks) +
    match s.phase
    case Looking => 0
    case Adding(_, _) => 2
    case Waiting(_) => 1
    case Done(_) => 0
  }

  /** Every step and event keeps the invariant and uses up potential. */
  lemma NextKeeps(configs: seq<Config>, quorum: int, bound: int, s: State, s': State)
    requires Inv(configs, quorum, bound, s) && Next(configs, quorum, s, s')
    ensures Inv(configs, quorum, bound, s') && Potential(configs, bound, s') < Potential(configs, bound, s)
  {
    hide Inv, AddsMany, Checks;
    if i, reply :| ReplyStep(s, s', i, reply) {
      ReplyKeeps(configs, quorum, bound, s, s', i, reply);
    } else if i :| StallStep(s, s', i) {
      StallKeeps(configs, quorum, bound, s, s', i);
    } else if v :| LookStep(configs, quorum, s, s', v) {
      LookKeeps(configs, quorum, bound, s, s', v);
    } else if AddStep(configs, s, s') {
      AddKeeps(configs, quorum, bound, s, s');
    } else {
      WakeKeeps(configs, quorum, bound, s, s');
    }
  }

  lemma InitOk(configs: seq<Config>, quorum: nat, s: State)
    requires Init(configs, quorum, s) && configs != [] && quorum >= 1
    ensures Inv(configs, quorum, 2 * |configs|, s) && Potential(configs, 2 * |configs|, s) == 8 * |configs| + 3
  {
    AddsManyKeeps(configs, [], s.running, quorum);
    StartsSomething(configs, s.running, quorum);
  }

  lemma {:induction false} StartsSomething(configs: seq<Config>, running: seq<Runner>, n: nat)
    requires AddsMany(configs, [], running, n) && n >= 1 && configs != []
    ensures running != []
    decreases n
  {
    var mid :| AddsMany(configs, [], mid, n - 1) && AddsOne(configs, mid, running);
    if n > 1 {
      StartsSomething(configs, mid, n - 1);
    } else {
      assert !IsRunning([], 0);
    }
  }

  lemma PotentialNotNegative(configs: seq<Config>, quorum: int, bound: int, s: State)
    requires Inv(configs, quorum, bound, s)
    ensures Potential(configs, bound, s) >= 0
  {
    RunnersBounded(configs, s.running);
  }

  /** From a state that satisfies the invariant, all later ones do, and the potential falls with every step. */
  lemma {:induction false} RunKeeps(configs: seq<Config>, quorum: nat, bound: int, run: seq<State>, j: nat, k: nat)
    requires IsRun(configs, quorum, run) && j <= k < |run| && Inv(configs, quorum, bound, run[j])
    ensures Inv(configs, quorum, bound, run[k])
    ensures Potential(configs, bound, run[k]) <= Potential(configs, bound, run[j]) - (k - j)
    decreases k
  {
    hide Inv, Next, Init, Potential;
    if j < k {
      RunKeeps(configs, quorum, bound, run, j, k - 1);
      assert Next(configs, quorum, run[k - 1], run[k - 1 + 1]);
      NextKeeps(configs, quorum, bound, run[k - 1], run[k]);
    }
  }

  lemma RunOk(configs: seq<Config>, quorum: nat, run: seq<State>, k: nat)
    requires IsRun(configs, quorum, run) && configs != [] && quorum >= 1 && k < |run|
    ensures Inv(configs, quorum, 2 * |configs|, run[k])
    ensures Potential(configs, 2 * |configs|, run[k]) <= 8 * |configs| + 3 - k
  {
    hide Inv, Next, Init, Potential;
    InitOk(configs, quorum, run[0]);
    RunKeeps(configs, quorum, 2 * |configs|, run, 0, k);
  }

  /**
   * In every interleaving: no provider runs twice; the request looks at its results at most
   * 2 * providers + 1 times and takes at most 8 * providers + 3 steps; and what it returns carries
   * quorum weight from distinct providers that gave the same answer.
   */
  lemma EveryRun(configs: seq<Config>, quorum: nat, run: seq<State>)
    requires IsRun(configs, quorum, run) && configs != [] && quorum >= 1
    ensures |run| <= 8 * |configs| + 4
    ensures forall k :: 0 <= k < |run| ==>
      && Distinct(run[k].running) && |run[k].running| <= |configs| && run[k].looks <= 2 * |configs| + 1
      && (run[k].phase.Done? && run[k].phase.outcome.Returned? ==>
            Supported(configs, quorum, run[k].running, run[k].phase.outcome.value))
      && (run[k].phase.Done? && run[k].phase.outcome.Threw? ==>
            Supported(configs, quorum, run[k].running, run[k].phase.outcome.error))
  {
    hide Next, Init, Supported, Potential;
    RunOk(configs, quorum, run, |run| - 1);
    PotentialNotNegative(configs, quorum, 2 * |configs|, run[|run| - 1]);
    forall k | 0 <= k < |run|
      ensures Inv(configs, quorum, 2 * |configs|, run[k]) && |run[k].running| <= |configs| &&
              Measure(configs, run[k].running) >= 0
    {
      RunOk(configs, quorum, run, k);
      RunnersBounded(configs, run[k].running);
    }
  }

  /** Every further look is paid for by the measure: it falls at least once between any two looks. */
  lemma WakeUpsCost(configs: seq<Config>, quorum: nat, run: seq<State>, j: nat, k: nat)
    requires IsRun(configs, quorum, run) && configs != [] && quorum >= 1
    requires j <= k < |run| && run[j].phase == Looking && run[k].phase == Looking
    ensures Measure(configs, run[k].running) <= Measure(configs, run[j].running) - (run[k].looks - run[j].looks)
  {
    hide Next, Init, Supported, Potential, RunnersOk;
    RunOk(configs, quorum, run, j);
    RunKeeps(configs, quorum, run[j].looks + Measure(configs, run[j].running), run, j, k);
  }

  // ---------- progress ----------

  lemma {:induction false} BestIdle(configs: seq<Config>, running: seq<Runner>, n: nat) returns (p: nat)
    requires n <= |configs| && exists q :: 0 <= q < n && !IsRunning(running, q)
    ensures p < n && !IsRunning(running, p)
    ensures forall q :: 0 <= q < n && !IsRunning(running, q) ==> configs[q].priority <= configs[p].priority
    decreases n
  {
    hide IsRunning;
    if q :| 0 <= q < n - 1 && !IsRunning(running, q) {
      p := BestIdle(configs, running, n - 1);
      if !IsRunning(running, n - 1) && configs[n - 1].priority > configs[p].priority {
        p := n - 1;
      }
    } else {
      p := n - 1;
    }
  }

  lemma {:induction false} CanAdd(configs: seq<Config>, running: seq<Runner>, n: nat) returns (next: seq<Runner>)
    ensures AddsMany(configs, running, next, n)
    decreases n
  {
    hide IsRunning;
    if n == 0 {
      next := running;
    } else {
      var mid := CanAdd(configs, running, n - 1);
      if NoneIdle(configs, mid) {
        next := mid;
      } else {
        var p := BestIdle(configs, mid, |configs|);
        next := mid + [NewRunner(p)];
      }
      assert AddsOne(configs, mid, next);
    }
  }

  lemma CanCheck(quorum: int, results: seq<TallyResult>) returns (v: Value)
    ensures Checks(quorum, results, v)
  {
    hide Meets, Wins;
    v := Undefined;
    if TotalWeight(results) >= quorum && exists tag :: Meets(quorum, results, tag) {
      var tag := WinnerExists(quorum, results);
      v := results[FirstWith(results, tag)].value;
    }
  }

  /**
   * A request never gets stuck: as long as it is not done, a step or an event is possible. With the
   * bound of `EveryRun`, every run that goes on as long as it can is done in the end.
   */
  lemma NeverStuck(configs: seq<Config>, quorum: nat, bound: int, s: State) returns (s': State)
    requires Inv(configs, quorum, bound, s) && !s.phase.Done?
    ensures Next(configs, quorum, s, s')
  {
    hide Checks, AddsMany, Results;
    match s.phase {
      case Looking =>
        var v := CanCheck(quorum, Results(configs, s.running));
        s' := State(
          Bumped(s.running),
          match v
          case Undefined => Adding(BumpCount(s.running), Watched(s.running))
          case Error(_) => Done(Threw(v))
          case _ => Done(Returned(v)),
          s.looks + 1);
        assert LookStep(configs, quorum, s, s', v);
      case Adding(n, watched) =>
        var next := CanAdd(configs, s.running, n);
        s' := State(next, if watched == {} then Done(QuorumNotMet) else Waiting(watched), s.looks);
        assert AddStep(configs, s, s');
      case Waiting(watched) =>
        var p :| p in watched;
        var r := s.running[p.runner];
        if Settled(s.running, p) {
          s' := s.(phase := Looking);
          assert WakeStep(s, s');
        } else if p.isReply {
          s' := s.(running := s.running[p.runner := r.(performing := false, result := Some(Reply("", Undefined)))]);
          assert ReplyStep(s, s', p.runner, Reply("", Undefined));
        } else {
          s' := s.(running := s.running[p.runner := r.(stalling := false)]);
          assert StallStep(s, s', p.runner);
        }
    }
  }

  // ---------- the quorum that was not met ----------

  /** Every provider has answered or failed. */
  ghost predicate AllReplied(configs: seq<Config>, running: seq<Runner>) {
    forall p :: 0 <= p < |configs| ==> HasReplied(running, p)
  }

  predicate HasReplied(running: seq<Runner>, p: nat) {
    exists i :: 0 <= i < |running| && running[i].provider == p && running[i].result.Some?
  }

  /**
   * The comment above the assertion says that all providers have returned. That holds exactly when
   * all of them were running before the last ones were added.
   */
  lemma GivesUpAfterAllIff(configs: seq<Config>, quorum: int, bound: int, s: State, s': State)
    requires Inv(configs, quorum, bound, s) && AddStep(configs, s, s') && s'.phase == Done(QuorumNotMet)
    ensures AllReplied(configs, s'.running) <==> |s.running| == |configs|
  {
    hide AddsMany, Supported;
    AddsManyKeeps(configs, s.running, s'.running, s.phase.newRunners);
    RunnersBounded(configs, s.running);
    if |s.running| == |configs| {
      forall p | 0 <= p < |configs|
        ensures HasReplied(s'.running, p)
      {
        assert IsRunning(s.running, p);
        var i :| 0 <= i < |s.running| && s.running[i].provider == p;
        assert !s.running[i].performing;
        assert s'.running[i] == s.running[i];
      }
    } else if |s'.running| > |s.running| {
      NewestHasNotReplied(configs, s'.running, |s.running|);
    } else {
      var p :| 0 <= p < |configs| && !IsRunning(s.running, p);
      assert s'.running == s.running && !HasReplied(s'.running, p);
    }
  }

  lemma NewestHasNotReplied(configs: seq<Config>, running: seq<Runner>, k: nat)
    requires RunnersOk(configs, running) && k < |running| && running[k].performing
    ensures !AllReplied(configs, running)
  {
    var p := running[k].provider;
    assert !HasReplied(running, p) by {
      assert forall i :: 0 <= i < |running| && i != k ==> running[i].provider != running[k].provider;
    }
  }

  // ---------- a quorum as large as the number of providers ----------

  lemma {:induction false} AddsFill(configs: seq<Config>, running: seq<Runner>, next: seq<Runner>, n: nat)
    requires RunnersOk(configs, running) && AddsMany(configs, running, next, n)
    ensures |next| == if |running| + n <= |configs| then |running| + n else |configs|
    decreases n
  {
    hide RunnersOk, IsNext, NoneIdle;
    RunnersBounded(configs, running);
    if n > 0 {
      var mid :| AddsMany(configs, running, mid, n - 1) && AddsOne(configs, mid, next);
      AddsFill(configs, running, mid, n - 1);
      AddsManyKeeps(configs, running, mid, n - 1);
      AddsOneFills(configs, mid, next);
    }
  }

  lemma AddsOneFills(configs: seq<Config>, running: seq<Runner>, next: seq<Runner>)
    requires RunnersOk(configs, running) && AddsOne(configs, running, next)
    ensures |next| == if |running| < |configs| then |running| + 1 else |configs|
  {
    hide RunnersOk;
    RunnersBounded(configs, running);
    if next != running {
      assert !NoneIdle(configs, running) by {
        assert !IsRunning(running, next[|running|].provider);
      }
    }
  }

  lemma NoRunners(configs: seq<Config>)
    ensures RunnersOk(configs, [])
  {
  }

  lemma NeverFewer(configs: seq<Config>, quorum: int, bound: int, s: State, s': State)
    requires Inv(configs, quorum, bound, s) && Next(configs, quorum, s, s')
    ensures |s'.running| >= |s.running|
  {
    hide AddsMany, Checks, RunnersOk, PhaseOk;
    if AddStep(configs, s, s') {
      AddsManyKeeps(configs, s.running, s'.running, s.phase.newRunners);
    } else if v :| LookStep(configs, quorum, s, s', v) {
      BumpedKeeps(s.running);
    }
  }

  /** After the end only events are left, and they do not take answers away. */
  lemma DoneKeepsReplies(configs: seq<Config>, quorum: int, s: State, s': State)
    requires s.phase.Done? && Next(configs, quorum, s, s') && AllReplied(configs, s.running)
    ensures AllReplied(configs, s'.running)
  {
    hide AddsMany, Checks;
    forall p | 0 <= p < |configs|
      ensures HasReplied(s'.running, p)
    {
      assert HasReplied(s.running, p);
      var i :| 0 <= i < |s.running| && s.running[i].provider == p && s.running[i].result.Some?;
      assert s'.running[i].provider == p && s'.running[i].result.Some?;
    }
  }

  lemma {:induction false} AllRunFromTheStart(configs: seq<Config>, quorum: nat, run: seq<State>, k: nat)
    requires IsRun(configs, quorum, run) && configs != [] && quorum >= |configs| && k < |run|
    ensures |run[k].running| == |configs|
    decreases k
  {
    hide Inv, Next, AddsMany, RunnersOk, Potential;
    RunOk(configs, quorum, run, k);
    InvBounded(configs, quorum, 2 * |configs|, run[k]);
    if k == 0 {
      NoRunners(configs);
      AddsFill(configs, [], run[0].running, quorum);
    } else {
      AllRunFromTheStart(configs, quorum, run, k - 1);
      RunOk(configs, quorum, run, k - 1);
      assert Next(configs, quorum, run[k - 1], run[k - 1 + 1]);
      NeverFewer(configs, quorum, 2 * |configs|, run[k - 1], run[k]);
    }
  }

  lemma InvBounded(configs: seq<Config>, quorum: int, bound: int, s: State)
    requires Inv(configs, quorum, bound, s)
    ensures |s.running| <= |configs|
  {
    hide RunnersOk, PhaseOk;
    RunnersBounded(configs, s.running);
  }

  /** With a quorum no smaller than the number of providers, giving up means that all have replied. */
  lemma {:induction false} GivesUpAfterAll(configs: seq<Config>, quorum: nat, run: seq<State>, k: nat)
    requires IsRun(configs, quorum, run) && configs != [] && quorum >= |configs| && k < |run|
    ensures run[k].phase == Done(QuorumNotMet) ==> AllReplied(configs, run[k].running)
    decreases k
  {
    hide Inv, AddsMany, RunnersOk, Potential, AllReplied, Checks;
    if k > 0 && run[k].phase == Done(QuorumNotMet) {
      var s, s' := run[k - 1], run[k];
      assert Next(configs, quorum, s, run[k - 1 + 1]);
      if s.phase == Done(QuorumNotMet) {
        GivesUpAfterAll(configs, quorum, run, k - 1);
        DoneKeepsReplies(configs, quorum, s, s');
      } else {
        assert AddStep(configs, s, s');
        AllRunFromTheStart(configs, quorum, run, k - 1);
        RunOk(configs, quorum, run, k - 1);
        GivesUpAfterAllIff(configs, quorum, 2 * |configs|, s, s');
      }
    }
  }

  // ---------- giving up early ----------

  // Two providers reply, both stall timers run out, a third provider is started: nobody waits for it.

  const FIRST_REPLY := Reply("a", Number(0))

  /** Three providers of one priority; the first two weigh the same. */
  function ThreeProviders(weight: int, last: int): (configs: seq<Config>)
    ensures |configs| == 3 && forall p :: 0 <= p < 3 ==> configs[p].priority == 1
  {
    [Config(1, weight), Config(1, weight), Config(1, last)]
  }

  function Replied(p: nat, stalling: bool, didBump: bool, reply: Reply): Runner {
    Runner(p, false, stalling, didBump, Some(reply))
  }

  function EarlyRun(second: Reply): seq<State> {
    [State([NewRunner(0), NewRunner(1)], Looking, 0),
     State([Replied(0, true, false, FIRST_REPLY), NewRunner(1)], Looking, 0),
     State([Replied(0, true, false, FIRST_REPLY), Replied(1, true, false, second)], Looking, 0),
     State([Replied(0, false, false, FIRST_REPLY), Replied(1, true, false, second)], Looking, 0),
     State([Replied(0, false, false, FIRST_REPLY), Replied(1, false, false, second)], Looking, 0),
     State([Replied(0, false, true, FIRST_REPLY), Replied(1, false, true, second)], Adding(2, {}), 1),
     State([Replied(0, false, true, FIRST_REPLY), Replied(1, false, true, second), NewRunner(2)], Done(QuorumNotMet), 1)]
  }

  lemma EarlyStart(configs: seq<Config>, second: Reply)
    requires |configs| == 3 && forall p :: 0 <= p < 3 ==> configs[p].priority == 1
    ensures Init(configs, 2, EarlyRun(second)[0])
  {
    assert AddsMany(configs, [], [], 0);
    assert AddsOne(configs, [], [NewRunner(0)]) by {
      assert IsNext(configs, [], 0);
    }
    assert AddsMany(configs, [], [NewRunner(0)], 1);
    assert AddsOne(configs, [NewRunner(0)], [NewRunner(0), NewRunner(1)]) by {
      assert IsNext(configs, [NewRunner(0)], 1);
    }
  }

  lemma EarlyEvents(configs: seq<Config>, second: Reply, k: nat)
    requires k < 4
    ensures Next(configs, 2, EarlyRun(second)[k], EarlyRun(second)[k + 1])
  {
    hide AddsMany, Checks;
    var run := EarlyRun(second);
    if k == 0 {
      assert ReplyStep(run[0], run[1], 0, FIRST_REPLY);
    } else if k == 1 {
      assert ReplyStep(run[1], run[2], 1, second);
    } else if k == 2 {
      assert StallStep(run[2], run[3], 0);
    } else {
      assert StallStep(run[3], run[4], 1);
    }
  }

  function EarlyResults(weight: int, second: Reply): seq<TallyResult> {
    [TallyResult("a", Number(0), weight), TallyResult(second.tag, second.value, weight)]
  }

  lemma EarlyResultsAre(weight: int, last: int, second: Reply)
    ensures InRange(ThreeProviders(weight, last), EarlyRun(second)[4].running)
    ensures Results(ThreeProviders(weight, last), EarlyRun(second)[4].running) == EarlyResults(weight, second)
  {
    var r0, r1 := Replied(0, false, false, FIRST_REPLY), Replied(1, false, false, second);
    assert EarlyRun(second)[4].running == [r0, r1];
    assert [r0, r1][..1] == [r0] && [r0][..0] == [];
    assert Results(ThreeProviders(weight, last), [r0]) == [EarlyResults(weight, second)[0]];
  }

  lemma EarlyBumps(second: Reply)
    ensures Bumped(EarlyRun(second)[4].running) == EarlyRun(second)[5].running && BumpCount(EarlyRun(second)[4].running) == 2
    ensures Watched(EarlyRun(second)[4].running) == {}
  {
    var r0, r1 := Replied(0, false, false, FIRST_REPLY), Replied(1, false, false, second);
    assert EarlyRun(second)[4].running == [r0, r1];
    assert [r0, r1][..1] == [r0] && [r0][..0] == [];
    assert Bumped([r0]) == [r0.(didBump := true)] && BumpCount([r0]) == 1;
  }

  lemma EarlyLook(weight: int, last: int, second: Reply)
    requires Checks(2, EarlyResults(weight, second), Undefined)
    ensures Next(ThreeProviders(weight, last), 2, EarlyRun(second)[4], EarlyRun(second)[5])
  {
    EarlyResultsAre(weight, last, second);
    EarlyBumps(second);
    hide Checks, InRange, Results, Bumped, BumpCount, Watched, EarlyResults, ThreeProviders;
    assert LookStep(ThreeProviders(weight, last), 2, EarlyRun(second)[4], EarlyRun(second)[5], Undefined);
  }

  /** Two results of different tags, or of no weight, do not make up a quorum of two. */
  lemma TooLightChecksUndefined(a: TallyResult, b: TallyResult)
    requires a.weight == b.weight && (a.weight == 0 || (a.weight == 1 && a.tag != b.tag))
    ensures Checks(2, [a, b], Undefined)
  {
    assert [a, b][..1] == [a] && [a][..0] == [];
    forall tag
      ensures WeightOf([a, b], tag) <= 1
    {
      assert WeightOf([a], tag) == if a.tag == tag then a.weight else 0;
    }
  }

  lemma EarlyAdd(configs: seq<Config>, second: Reply)
    requires |configs| == 3 && forall p :: 0 <= p < 3 ==> configs[p].priority == 1
    ensures Next(configs, 2, EarlyRun(second)[5], EarlyRun(second)[6])
  {
    var before, after := EarlyRun(second)[5].running, EarlyRun(second)[6].running;
    assert AddsMany(configs, before, before, 0);
    assert AddsOne(configs, before, after) by {
      assert IsNext(configs, before, 2) by {
        assert before[0].provider == 0 && before[1].provider == 1;
      }
    }
    assert AddsMany(configs, before, after, 1);
    assert NoneIdle(configs, after) by {
      assert after[0].provider == 0 && after[1].provider == 1 && after[2].provider == 2;
    }
    assert AddsOne(configs, after, after);
    assert AddStep(configs, EarlyRun(second)[5], EarlyRun(second)[6]);
  }

  /** A run that ends with "quorum not met" while the third provider has only just been asked. */
  lemma EarlyRunIsRun(weight: int, last: int, second: Reply)
    requires weight == 0 || (weight == 1 && second.tag != FIRST_REPLY.tag)
    ensures IsRun(ThreeProviders(weight, last), 2, EarlyRun(second))
    ensures EarlyRun(second)[6].phase == Done(QuorumNotMet) && EarlyRun(second)[6].running[2].performing
    ensures !AllReplied(ThreeProviders(weight, last), EarlyRun(second)[6].running)
  {
    var configs, run := ThreeProviders(weight, last), EarlyRun(second);
    EarlyStart(configs, second);
    TooLightChecksUndefined(EarlyResults(weight, second)[0], EarlyResults(weight, second)[1]);
    hide Next, Init, Checks, ThreeProviders;
    forall k | 0 <= k < |run| - 1
      ensures Next(configs, 2, run[k], run[k + 1])
    {
      if k < 4 {
        EarlyEvents(configs, second, k);
      } else if k == 4 {
        EarlyLook(weight, last, second);
      } else {
        EarlyAdd(configs, second);
      }
    }
    assert !HasReplied(run[6].running, 2);
  }

  /** With three providers of weight 1, two of which disagree. */
  lemma GivesUpEarly()
    ensures var configs, run := ThreeProviders(1, 1), EarlyRun(Reply("b", Number(1)));
            && IsRun(configs, 2, run) && run[6].phase == Done(QuorumNotMet)
            && run[6].running[2].performing && !AllReplied(configs, run[6].running)
  {
    EarlyRunIsRun(1, 1, Reply("b", Number(1)));
  }
}
