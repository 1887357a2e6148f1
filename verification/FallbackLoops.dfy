/** The loops of one request of the fallback provider, in the form in which they run. */
module FallbackLoops {
  import opened Wrappers
  import opened Tally
  import opened Fallback

  /** The shuffled providers sorted by descending priority: every provider occurs. */
  ghost predicate IsOrdering(configs: seq<Config>, order: seq<nat>) {
    && (forall k :: 0 <= k < |order| ==> order[k] < |configs|)
    && (forall p: nat :: p < |configs| ==> p in order)
    && forall j, k :: 0 <= j < k < |order| ==> configs[order[k]].priority <= configs[order[j]].priority
  }

  /** `#getNextConfig`, for any outcome of the shuffle. */
  method NextConfig(configs: seq<Config>, running: seq<Runner>, order: seq<nat>) returns (next: Option<nat>)
    requires IsOrdering(configs, order)
    ensures match next case None => NoneIdle(configs, running) case Some(p) => IsNext(configs, running, p)
  {
    hide IsRunning;
    for k := 0 to |order|
      invariant forall j :: 0 <= j < k ==> IsRunning(running, order[j])
    {
      var isRunning := Contains(running, order[k]);
      if !isRunning {
        forall q | 0 <= q < |configs| && !IsRunning(running, q)
          ensures configs[q].priority <= configs[order[k]].priority
        {
          assert q in order;
          var j :| 0 <= j < |order| && order[j] == q;
        }
        return Some(order[k]);
      }
    }
    forall q | 0 <= q < |configs|
      ensures IsRunning(running, q)
    {
      assert q in order;
    }
    return None;
  }

  method Contains(running: seq<Runner>, p: nat) returns (found: bool)
    ensures found <==> IsRunning(running, p)
  {
    for i := 0 to |running|
      invariant forall j :: 0 <= j < i ==> running[j].provider != p
    {
      if running[i].provider == p {
        return true;
      }
    }
    return false;
  }

  /** The calls of `#addRunner` in a row; `orders` are the outcomes of the shuffles. */
  method AddRunners(configs: seq<Config>, running: seq<Runner>, count: nat, orders: seq<seq<nat>>) returns (next: seq<Runner>)
    requires |orders| == count && forall i :: 0 <= i < count ==> IsOrdering(configs, orders[i])
    ensures AddsMany(configs, running, next, count)
  {
    hide IsNext, NoneIdle;
    next := running;
    for i := 0 to count
      invariant AddsMany(configs, running, next, i)
    {
      ghost var before := next;
      var config := NextConfig(configs, next, orders[i]);
      if config.Some? {
        next := next + [NewRunner(config.value)];
      }
      assert AddsOne(configs, before, next);
      assert AddsMany(configs, running, next, i + 1);
    }
  }

  /** The first loop of `#waitForQuorum`; `interesting` is the array of promises to race. */
  method CollectInteresting(running: seq<Runner>)
    returns (bumped: seq<Runner>, newRunners: nat, interesting: seq<Promise>)
    ensures bumped == Bumped(running) && newRunners == BumpCount(running)
    ensures (set p | p in interesting) == Watched(running)
  {
    hide Bumped, BumpCount, Watched;
    bumped, newRunners, interesting := [], 0, [];
    NothingCollected();
    assert running[..0] == [];
    for i := 0 to |running|
      invariant bumped == Bumped(running[..i]) && newRunners == BumpCount(running[..i])
      invariant (set p | p in interesting) == Watched(running[..i])
    {
      var runner := running[i];
      CollectStep(running[..i], runner);
      assert running[..i + 1] == running[..i] + [runner];
      if runner.performing {
        interesting := interesting + [Promise(i, true)];
      }
      if runner.stalling {
        interesting := interesting + [Promise(i, false)];
        bumped := bumped + [runner];
        continue;
      }
      if runner.didBump {
        bumped := bumped + [runner];
        continue;
      }
      bumped := bumped + [runner.(didBump := true)];
      newRunners := newRunners + 1;
    }
    assert running[..|running|] == running;
  }

  lemma NothingCollected()
    ensures Bumped([]) == [] && BumpCount([]) == 0 && Watched([]) == {}
  {
  }

  lemma CollectStep(done: seq<Runner>, r: Runner)
    ensures Bumped(done + [r]) == Bumped(done) + [if Bumps(r) then r.(didBump := true) else r]
    ensures BumpCount(done + [r]) == BumpCount(done) + if Bumps(r) then 1 else 0
    ensures Watched(done + [r]) == Watched(done) + (if r.performing then {Promise(|done|, true)} else {}) +
                                   (if r.stalling then {Promise(|done|, false)} else {})
  {
    assert (done + [r])[..|done|] == done;
    WatchedStep(done, r);
  }

  lemma WatchedStep(done: seq<Runner>, r: Runner)
    ensures Watched(done + [r]) == Watched(done) + (if r.performing then {Promise(|done|, true)} else {}) +
                                   (if r.stalling then {Promise(|done|, false)} else {})
  {
    var more := done + [r];
    assert forall i :: 0 <= i < |done| ==> more[i] == done[i];
    assert more[|done|] == r;
  }

  /** `#checkQuorum` for the requests that go through `checkQuorum`. */
  method CheckRunners(configs: seq<Config>, quorum: int, running: seq<Runner>) returns (v: Value)
    requires InRange(configs, running)
    ensures Checks(quorum, Results(configs, running), v)
  {
    hide Results, TotalWeight, IsQuorumValue;
    var results: seq<TallyResult> := [];
    var weight := 0;
    NothingChecked(configs);
    assert running[..0] == [];
    for i := 0 to |running|
      invariant results == Results(configs, running[..i]) && weight == TotalWeight(results)
    {
      assert running[..i + 1] == running[..i] + [running[i]];
      ResultsStep(configs, running[..i], running[i]);
      if running[i].result.Some? {
        var reply := running[i].result.value;
        results := results + [TallyResult(reply.tag, reply.value, configs[running[i].provider].weight)];
        weight := weight + configs[running[i].provider].weight;
      }
    }
    assert running[..|running|] == running;
    if weight < quorum {
      return Undefined;
    }
    v := CheckQuorum(quorum, results);
  }

  lemma NothingChecked(configs: seq<Config>)
    ensures Results(configs, []) == [] && TotalWeight([]) == 0
  {
  }

  lemma ResultsStep(configs: seq<Config>, done: seq<Runner>, r: Runner)
    requires InRange(configs, done + [r]) && r.provider < |configs|
    ensures InRange(configs, done)
    ensures r.result.None? ==> Results(configs, done + [r]) == Results(configs, done)
    ensures r.result.Some? ==>
      var t := TallyResult(r.result.value.tag, r.result.value.value, configs[r.provider].weight);
      && Results(configs, done + [r]) == Results(configs, done) + [t]
      && TotalWeight(Results(configs, done) + [t]) == TotalWeight(Results(configs, done)) + t.weight
  {
    var more := done + [r];
    assert more[..|done|] == done && more[|done|] == r;
    assert forall i :: 0 <= i < |done| ==> more[i] == done[i];
    if r.result.Some? {
      var t := TallyResult(r.result.value.tag, r.result.value.value, configs[r.provider].weight);
      assert (Results(configs, done) + [t])[..|Results(configs, done)|] == Results(configs, done);
    }
  }
}
