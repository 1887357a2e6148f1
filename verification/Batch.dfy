/** Forming batches of requests: greedy, within a count and a size. */
module Batch {
  import opened Sequences

  /** A request, with its text in JSON. */
  datatype Payload = Payload(id: int, json: string)

  datatype Limits = Limits(maxCount: int, maxSize: int)

  /** The length of the array text: the brackets, the requests, and the commas between them. */
  function Size(batch: seq<Payload>): int {
    if batch == [] then 2
    else if |batch| == 1 then 2 + |batch[0].json|
    else |batch[0].json| + 1 + Size(batch[1..])
  }

  /** The texts of the requests, with commas between them. */
  function Joined(batch: seq<Payload>): string {
    if batch == [] then "" else if |batch| == 1 then batch[0].json else batch[0].json + "," + Joined(batch[1..])
  }

  /** The size of a batch is the length of the JSON array that is sent. */
  lemma {:induction false} SizeIsLength(batch: seq<Payload>)
    ensures Size(batch) == |"[" + Joined(batch) + "]"|
    decreases |batch|
  {
    if |batch| > 1 {
      SizeIsLength(batch[1..]);
    }
  }

  /** Within the count, unless it is not positive, and within the size or a single request. */
  predicate Fits(l: Limits, batch: seq<Payload>) {
    (l.maxCount >= 1 ==> |batch| <= l.maxCount) && (|batch| > 1 ==> Size(batch) <= l.maxSize)
  }

  /** Non-empty batches within the limits that make up the queue in order. */
  ghost predicate IsPartition(l: Limits, batches: seq<seq<Payload>>, queue: seq<Payload>) {
    && Flatten(batches) == queue
    && forall i :: 0 <= i < |batches| ==> batches[i] != [] && Fits(l, batches[i])
  }

  /** The batch could not have taken the request behind it. */
  predicate Full(l: Limits, batches: seq<seq<Payload>>, i: nat) {
    i + 1 < |batches| ==> batches[i + 1] != [] && !Fits(l, batches[i] + [batches[i + 1][0]])
  }

  ghost predicate IsGreedy(l: Limits, batches: seq<seq<Payload>>) {
    forall i :: 0 <= i < |batches| ==> Full(l, batches, i)
  }

  /** The batches so far, with the requests that are left. */
  ghost predicate Draining(l: Limits, batches: seq<seq<Payload>>, rest: seq<Payload>, queue: seq<Payload>) {
    && Flatten(batches) + rest == queue
    && (forall i :: 0 <= i < |batches| ==> batches[i] != [] && Fits(l, batches[i]))
    && IsGreedy(l, batches)
    && (batches != [] && rest != [] ==> !Fits(l, batches[|batches| - 1] + [rest[0]]))
  }

  lemma NothingDrained(l: Limits, queue: seq<Payload>)
    ensures Draining(l, [], queue, queue)
  {
  }

  lemma DrainStep(l: Limits, batches: seq<seq<Payload>>, batch: seq<Payload>, rest: seq<Payload>, queue: seq<Payload>)
    requires Draining(l, batches, batch + rest, queue) && batch != [] && Fits(l, batch)
    requires rest != [] ==> !Fits(l, batch + [rest[0]])
    ensures Draining(l, batches + [batch], rest, queue)
  {
    hide Fits, Flatten;
    FlattenStep(batches, batch);
    var more := batches + [batch];
    assert (batch + rest)[0] == batch[0];
    assert Flatten(batches) + (batch + rest) == Flatten(more) + rest;
    forall i | 0 <= i < |more|
      ensures Full(l, more, i)
    {
      if i < |batches| {
        assert Full(l, batches, i);
      }
    }
  }

  lemma AllDrained(l: Limits, batches: seq<seq<Payload>>, queue: seq<Payload>)
    requires Draining(l, batches, [], queue)
    ensures IsPartition(l, batches, queue) && IsGreedy(l, batches)
  {
  }

  /** The queue of a provider; draining takes it over and empties it batch by batch. */
  class Queue {
    var payloads: seq<Payload>

    constructor (items: seq<Payload>)
      ensures payloads == items
    {
      payloads := items;
    }

    /** The inner loop: as many requests from the front as fit. */
    method NextBatch(l: Limits) returns (batch: seq<Payload>)
      requires payloads != []
      modifies this
      ensures batch != [] && batch + payloads == old(payloads)
      ensures Fits(l, batch) && (payloads != [] ==> !Fits(l, batch + [payloads[0]]))
    {
      batch := [payloads[0]];
      payloads := payloads[1..];
      while payloads != []
        invariant batch != [] && batch + payloads == old(payloads) && Fits(l, batch)
        decreases |payloads|
      {
        if |batch| == l.maxCount {
          break;
        }
        ghost var before, rest := batch, payloads;
        batch := batch + [payloads[0]];
        payloads := payloads[1..];
        assert batch + payloads == before + rest;
        if Size(batch) > l.maxSize {
          payloads := [batch[|batch| - 1]] + payloads;
          batch := batch[..|batch| - 1];
          assert batch == before && payloads == rest;
          break;
        }
      }
    }

    /** The outer loop, until nothing is left. */
    method Drain(l: Limits) returns (batches: seq<seq<Payload>>)
      modifies this
      ensures payloads == []
      ensures IsPartition(l, batches, old(payloads)) && IsGreedy(l, batches)
    {
      hide Draining, Fits, IsPartition, IsGreedy;
      batches := [];
      NothingDrained(l, payloads);
      while payloads != []
        invariant Draining(l, batches, payloads, old(payloads))
        decreases |payloads|
      {
        var batch := NextBatch(l);
        DrainStep(l, batches, batch, payloads, old(payloads));
        batches := batches + [batch];
      }
      AllDrained(l, batches, old(payloads));
    }
  }

  // ---------- what greedy batches are ----------

  lemma {:induction false} SizeOfPrefix(a: seq<Payload>, b: seq<Payload>)
    ensures Size(a) <= Size(a + b)
  {
    if a == [] {
      SizeAtLeast(b);
      assert a + b == b;
    } else if |a| == 1 {
      if b != [] {
        SizeAtLeast(b);
        assert (a + b)[1..] == b;
      } else {
        assert a + b == a;
      }
    } else {
      SizeOfPrefix(a[1..], b);
      assert (a + b)[1..] == a[1..] + b;
    }
  }

  lemma {:induction false} SizeAtLeast(a: seq<Payload>)
    ensures Size(a) >= 2
  {
    if |a| > 1 {
      SizeAtLeast(a[1..]);
    }
  }

  lemma {:induction false} SizeOfSuffix(a: seq<Payload>, b: seq<Payload>)
    ensures Size(b) <= Size(a + b)
  {
    if a == [] {
      assert a + b == b;
    } else {
      SizeOfSuffix(a[1..], b);
      assert (a + b)[1..] == a[1..] + b;
      if |a + b| == 1 {
        assert b == [] && a[1..] == [];
      }
    }
  }

  /** The text of a stretch of requests is no longer than that of the whole. */
  lemma FitsStretch(l: Limits, a: seq<Payload>, b: seq<Payload>, c: seq<Payload>)
    requires Fits(l, a + b + c)
    ensures Fits(l, b)
  {
    SizeOfSuffix(a, b);
    SizeOfPrefix(a + b, c);
  }

  lemma PartitionTail(l: Limits, batches: seq<seq<Payload>>, queue: seq<Payload>)
    requires IsPartition(l, batches, queue) && batches != []
    ensures batches[0] != [] && Fits(l, batches[0]) && |batches[0]| <= |queue| && batches[0] == queue[..|batches[0]|]
    ensures IsPartition(l, batches[1..], queue[|batches[0]|..])
    ensures IsGreedy(l, batches) ==> IsGreedy(l, batches[1..])
  {
    assert queue[|batches[0]|..] == Flatten(batches[1..]);
    if IsGreedy(l, batches) {
      forall i | 0 <= i < |batches| - 1
        ensures Full(l, batches[1..], i)
      {
        assert Full(l, batches, i + 1);
      }
    }
  }

  /** A longer stretch from the front than the first greedy batch does not fit. */
  lemma GreedyIsLongest(l: Limits, batches: seq<seq<Payload>>, queue: seq<Payload>, k: nat)
    requires IsPartition(l, batches, queue) && IsGreedy(l, batches) && batches != []
    requires k <= |queue| && Fits(l, queue[..k])
    ensures k <= |batches[0]|
  {
    PartitionTail(l, batches, queue);
    var m := |batches[0]|;
    if k > m {
      assert batches[1..] != [] by {
        assert Flatten(batches[1..]) == queue[m..];
      }
      assert Full(l, batches, 0);
      assert batches[1][0] == queue[m] by {
        PartitionTail(l, batches[1..], queue[m..]);
      }
      var longer := batches[0] + [queue[m]];
      assert queue[..k] == [] + longer + queue[m + 1..k];
      FitsStretch(l, [], longer, queue[m + 1..k]);
    }
  }

  lemma QueueIsCovered(l: Limits, batches: seq<seq<Payload>>, queue: seq<Payload>)
    requires IsPartition(l, batches, queue) && queue != []
    ensures batches != []
  {
  }

  /** What another cut leaves in front of the queue, and what it takes of it, with its first batch. */
  lemma FirstOfOther(l: Limits, first: seq<Payload>, whole: seq<Payload>, d: nat)
    requires d < |first| <= |whole| && first == whole[..|first|] && Fits(l, first)
    ensures |first| - d <= |whole[d..]| && Fits(l, whole[d..][..|first| - d])
  {
    hide Fits;
    var taken := whole[d..][..|first| - d];
    assert first == whole[..d] + taken + [];
    FitsStretch(l, whole[..d], taken, []);
  }

  /**
   * Greedy is best: no way of cutting the queue into batches within the limits needs fewer of them.
   * The other cut may even be ahead by having taken `d` requests already.
   */
  lemma {:induction false} GreedyIsFewest(l: Limits, greedy: seq<seq<Payload>>, queue: seq<Payload>,
                                          other: seq<seq<Payload>>, whole: seq<Payload>, d: nat)
    requires IsPartition(l, greedy, queue) && IsGreedy(l, greedy)
    requires IsPartition(l, other, whole) && d <= |whole| && queue == whole[d..]
    ensures |greedy| <= |other|
    decreases |other|
  {
    hide Fits, IsPartition, IsGreedy;
    if greedy != [] {
      PartitionTail(l, greedy, queue);
      QueueIsCovered(l, other, whole);
      PartitionTail(l, other, whole);
      var m, g := |other[0]|, |greedy[0]|;
      if m <= d {
        DropTwice(whole, m, d - m);
        GreedyIsFewest(l, greedy, queue, other[1..], whole[m..], d - m);
      } else {
        FirstOfOther(l, other[0], whole, d);
        GreedyIsLongest(l, greedy, queue, m - d);
        DropTwice(whole, m, d + g - m);
        DropTwice(whole, d, g);
        GreedyIsFewest(l, greedy[1..], queue[g..], other[1..], whole[m..], d + g - m);
      }
    }
  }
}
