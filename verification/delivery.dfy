/** The invariant of the protocol and what it gives: exactly-once delivery, no lost wake-up,
    and stuck states that are only successful ones. */
module Delivery {
  import opened MasterWorker

  lemma InitInv(c: Config, s: State)
    requires Legal(c) && Init(c, s)
    ensures Inv(c, s)
  {
    assert s.buffer[..0] == [];
  }

  lemma OneMore(xs: seq<int>, y: int, x: int)
    ensures Occurs(xs + [y], x) == Occurs(xs, x) + if y == x then 1 else 0
  {
    assert (xs + [y])[..|xs|] == xs;
  }

  lemma MakeTogether(consumed: seq<int>, live: seq<int>, n: nat)
    requires Together(consumed, live, n)
    ensures Together(consumed, live + [n], n + 1)
  {
    forall x ensures Occurs(consumed, x) + Occurs(live + [n], x) == if 0 <= x < n + 1 then 1 else 0 {
      OneMore(live, n, x);
    }
  }

  lemma TakeTogether(consumed: seq<int>, live: seq<int>, item: int, n: nat)
    requires Together(consumed, live + [item], n)
    ensures Together(consumed + [item], live, n)
  {
    forall x ensures Occurs(consumed + [item], x) + Occurs(live, x) == if 0 <= x < n then 1 else 0 {
      OneMore(consumed, item, x);
      OneMore(live, item, x);
    }
  }

  lemma {:induction false} OccursAt(xs: seq<int>, k: nat)
    requires k < |xs|
    ensures Occurs(xs, xs[k]) > 0
    decreases |xs|
  {
    var last := |xs| - 1;
    if k < last { OccursAt(xs[..last], k); }
  }

  lemma LiveIsMade(consumed: seq<int>, live: seq<int>, n: nat, k: nat)
    requires Together(consumed, live, n) && k < |live|
    ensures 0 <= live[k] < n
  {
    OccursAt(live, k);
  }

  lemma OneMoreMade(output: seq<Event>, n: nat, i: nat)
    requires ProducedItems(output) == UpTo(n)
    ensures ProducedItems(output + [Produced(n, i)]) == UpTo(n + 1)
    ensures ConsumedItems(output + [Produced(n, i)]) == ConsumedItems(output)
  {
    OutputGrows(output, Produced(n, i));
    assert UpTo(n + 1) == UpTo(n) + [n];
  }

  lemma TopOfBuffer(buffer: seq<int>, k: nat, item: int)
    requires k < |buffer|
    ensures buffer[k := item][..k] == buffer[..k]
    ensures buffer[k := item][..k + 1] == buffer[..k] + [item]
  {
  }

  lemma ProduceDelivers(c: Config, s: State, i: nat)
    requires Shapes(c, s) && ExactlyOnce(c, s) && i < c.masters && s.itemToProduce < c.total
    ensures var t := Produce(c, s, i); Shapes(c, t) && ExactlyOnce(c, t)
  {
    if s.currBufSize < c.cap {
      OneMoreMade(s.output, s.itemToProduce, i);
      TopOfBuffer(s.buffer, s.currBufSize, s.itemToProduce);
      MakeTogether(ConsumedItems(s.output), s.buffer[..s.currBufSize], s.itemToProduce);
    }
  }

  lemma LiveSlots(c: Config, s: State, k: nat)
    requires Shapes(c, s) && ExactlyOnce(c, s) && k < s.currBufSize
    ensures 0 <= s.buffer[k] < s.itemToProduce
  {
    LiveIsMade(ConsumedItems(s.output), s.buffer[..s.currBufSize], s.itemToProduce, k);
  }

  /** The slot on top of the buffer is live, so the worker consumes it. */
  lemma TakeTakes(c: Config, s: State, j: nat)
    requires Shapes(c, s) && ExactlyOnce(c, s) && j < c.workers && s.currBufSize > 0
    ensures var n := s.currBufSize - 1;
            Take(c, s, j) == s.(workers := s.workers[j := Ready], buffer := s.buffer[n := -1], currBufSize := n,
                                itemToConsume := s.itemToConsume - 1,
                                output := s.output + [Consumed(s.buffer[n], j)])
    ensures s.itemToConsume > 0
  {
    LiveSlots(c, s, s.currBufSize - 1);
  }

  lemma TakeDelivers(c: Config, s: State, j: nat)
    requires Shapes(c, s) && ExactlyOnce(c, s) && j < c.workers && s.currBufSize > 0
    ensures var t := Take(c, s, j); Shapes(c, t) && ExactlyOnce(c, t)
  {
    var n := s.currBufSize - 1;
    var item := s.buffer[n];
    TakeTakes(c, s, j);
    OutputGrows(s.output, Consumed(item, j));
    TopOfBuffer(s.buffer, n, item);
    TopOfBuffer(s.buffer, n, -1);
    assert s.buffer[n := item] == s.buffer;
    TakeTogether(ConsumedItems(s.output), s.buffer[..n], item, s.itemToProduce);
  }

  /** A master that neither waits nor exits, while both counters only move forward. */
  lemma MasterMoves(c: Config, s: State, t: State, i: nat)
    requires Legal(c) && Shapes(c, s) && Shapes(c, t) && Coordination(c, s) && i < c.masters
    requires t.masters == s.masters[i := t.masters[i]] && t.workers == s.workers
    requires t.masters[i] == Ready || (t.masters[i] == Leaving && t.itemToProduce >= c.total)
    requires t.itemToConsume == s.itemToConsume && t.itemToProduce >= s.itemToProduce
    requires t.itemToProduce - t.currBufSize == s.itemToProduce - s.currBufSize
    ensures Coordination(c, t)
  {
    forall k | 0 <= k < c.masters ensures MasterOk(c, t.itemToProduce, t.currBufSize, t.masters[k]) {
      assert MasterOk(c, s.itemToProduce, s.currBufSize, s.masters[k]);
    }
    assert !AllExited(t.masters) by { assert t.masters[i] != Done; }
    assert NoneWaiting(s.masters) ==> NoneWaiting(t.masters);
  }

  lemma MasterProduces(c: Config, s: State, i: nat)
    requires Legal(c) && Inv(c, s) && i < c.masters && Runnable(s.masters[i]) && s.itemToProduce < c.total
    ensures Inv(c, Produce(c, s, i))
  {
    ProduceDelivers(c, s, i);
    MasterMoves(c, s, Produce(c, s, i), i);
  }

  lemma MasterLeaves(c: Config, s: State, i: nat)
    requires Legal(c) && Inv(c, s) && i < c.masters && Runnable(s.masters[i]) && s.itemToProduce >= c.total
    ensures Inv(c, s.(masters := s.masters[i := Leaving]))
  {
    MasterMoves(c, s, s.(masters := s.masters[i := Leaving]), i);
  }

  lemma MasterExits(c: Config, s: State, i: nat)
    requires Legal(c) && Inv(c, s) && i < c.masters && s.masters[i] == Leaving
    ensures Inv(c, s.(workers := Wake(s.workers), masters := s.masters[i := Done]))
  {
    assert MasterOk(c, s.itemToProduce, s.currBufSize, s.masters[i]);
    assert NoneWaiting(Wake(s.workers));
  }

  lemma MasterWaits(c: Config, s: State, i: nat)
    requires Legal(c) && Inv(c, s) && i < c.masters && Runnable(s.masters[i])
    requires s.itemToProduce < c.total && s.currBufSize == c.cap
    ensures Inv(c, s.(workers := Wake(s.workers), masters := s.masters[i := Waiting]))
  {
  }

  lemma MasterKeeps(c: Config, s: State, i: nat)
    requires Legal(c) && Inv(c, s) && i < c.masters && Runnable(s.masters[i])
    ensures Inv(c, MasterStep(c, s, i))
  {
    if s.masters[i] == Leaving {
      MasterExits(c, s, i);
    } else if s.itemToProduce >= c.total {
      MasterLeaves(c, s, i);
    } else if s.currBufSize == c.cap && (s.masters[i] == Ready || c.retest) {
      MasterWaits(c, s, i);
    } else {
      MasterProduces(c, s, i);
    }
  }

  lemma WorkerTakes(c: Config, s: State, j: nat)
    requires Legal(c) && Inv(c, s) && j < c.workers && Runnable(s.workers[j])
    ensures Inv(c, Take(c, s, j))
  {
    var t := Take(c, s, j);
    if s.currBufSize > 0 {
      TakeTakes(c, s, j);
      TakeDelivers(c, s, j);
    }
    WorkerMoves(c, s, t, j);
  }

  lemma WorkerMoves(c: Config, s: State, t: State, j: nat)
    requires Legal(c) && Shapes(c, s) && Shapes(c, t) && Coordination(c, s) && j < c.workers
    requires t.workers == s.workers[j := Ready] && t.masters == s.masters
    requires t.itemToConsume <= s.itemToConsume && t.itemToProduce == s.itemToProduce
    requires t.currBufSize <= s.currBufSize
    ensures Coordination(c, t)
  {
    forall k | 0 <= k < c.masters ensures MasterOk(c, t.itemToProduce, t.currBufSize, t.masters[k]) {
      assert MasterOk(c, s.itemToProduce, s.currBufSize, s.masters[k]);
    }
    assert NoneWaiting(s.workers) ==> NoneWaiting(t.workers);
  }

  lemma WorkerWaits(c: Config, s: State, j: nat)
    requires Legal(c) && Inv(c, s) && j < c.workers && s.workers[j] == Ready
    requires s.itemToConsume >= 1 && s.currBufSize == 0
    ensures Inv(c, s.(masters := Wake(s.masters), workers := s.workers[j := Waiting]))
  {
    // the buffer is empty and items are left, so some are still to be produced
    assert s.itemToProduce < c.total;
    assert Wake(s.masters)[0] != Done;
  }

  lemma WorkerLeaves(c: Config, s: State, j: nat)
    requires Legal(c) && Inv(c, s) && j < c.workers && s.workers[j] == Ready && s.itemToConsume < 1
    ensures Inv(c, s.(workers := s.workers[j := Done]))
  {
    assert NoneWaiting(s.workers) ==> NoneWaiting(s.workers[j := Done]);
  }

  lemma WorkerKeeps(c: Config, s: State, j: nat)
    requires Legal(c) && Inv(c, s) && j < c.workers && Runnable(s.workers[j])
    ensures Inv(c, WorkerStep(c, s, j))
  {
    assert WorkerOk(s.itemToConsume, s.workers[j]);
    if s.workers[j] == Ready && s.itemToConsume < 1 {
      WorkerLeaves(c, s, j);
    } else if s.workers[j] == Ready && s.currBufSize <= 0 {
      WorkerWaits(c, s, j);
    } else {
      WorkerTakes(c, s, j);
    }
  }

  lemma MasterWakesKeeps(c: Config, s: State, i: nat)
    requires Legal(c) && c.spurious && Inv(c, s) && i < c.masters && s.masters[i] == Waiting
    ensures Inv(c, s.(masters := s.masters[i := Woken]))
  {
    assert MasterOk(c, s.itemToProduce, s.currBufSize, s.masters[i]);
    assert !AllExited(s.masters[i := Woken]) by { assert s.masters[i := Woken][i] != Done; }
  }

  lemma WorkerWakesKeeps(c: Config, s: State, j: nat)
    requires Legal(c) && c.spurious && Inv(c, s) && j < c.workers && s.workers[j] == Waiting
    ensures Inv(c, s.(workers := s.workers[j := Woken]))
  {
    assert NoneWaiting(s.masters) && !AllExited(s.masters);
  }

  lemma NextKeeps(c: Config, s: State, t: State)
    requires Legal(c) && Inv(c, s) && Next(c, s, t)
    ensures Inv(c, t)
  {
    var step :| Enabled(c, s, step) && t == Apply(c, s, step);
    match step
    case MasterRuns(i) => MasterKeeps(c, s, i);
    case WorkerRuns(i) => WorkerKeeps(c, s, i);
    case MasterWakes(i) => MasterWakesKeeps(c, s, i);
    case WorkerWakes(j) => WorkerWakesKeeps(c, s, j);
  }

  /** Every state of every run, with any number of threads. */
  lemma {:induction false} RunInv(c: Config, run: seq<State>)
    requires Legal(c) && Run(c, run)
    ensures Inv(c, Last(run))
    decreases |run|
  {
    if |run| == 1 {
      InitInv(c, run[0]);
    } else {
      var before := run[..|run| - 1];
      assert forall k :: 0 <= k < |before| - 1 ==> Next(c, before[k], before[k + 1]);
      RunInv(c, before);
      NextKeeps(c, Last(before), Last(run));
    }
  }

  // ---------------------------------------------------------------- check.awk

  /** The item occurs once among the produced and once among the consumed ones. */
  predicate Once(produced: seq<int>, consumed: seq<int>, item: int) {
    Occurs(produced, item) == 1 && Occurs(consumed, item) == 1
  }

  /** check.awk's tally: how many items below `max` were produced once and consumed once. */
  function Passed(produced: seq<int>, consumed: seq<int>, max: nat): (n: nat)
    ensures n <= max
  {
    if max == 0 then 0
    else Passed(produced, consumed, max - 1) + if Once(produced, consumed, max - 1) then 1 else 0
  }

  /** The tally is full exactly when every item below `max` was produced once and consumed once. */
  lemma {:induction false} PassedExactly(produced: seq<int>, consumed: seq<int>, max: nat)
    ensures Passed(produced, consumed, max) == max <==>
              forall x :: 0 <= x < max ==> multiset(produced)[x] == 1 && multiset(consumed)[x] == 1
  {
    if max > 0 {
      PassedExactly(produced, consumed, max - 1);
      OccursIsCount(produced, max - 1);
      OccursIsCount(consumed, max - 1);
    }
  }

  lemma {:induction false} UpToOccurs(n: nat, x: int)
    ensures Occurs(UpTo(n), x) == if 0 <= x < n then 1 else 0
  {
    if n > 0 {
      UpToOccurs(n - 1, x);
      OneMore(UpTo(n - 1), n - 1, x);
      assert UpTo(n) == UpTo(n - 1) + [n - 1];
    }
  }

  lemma {:induction false} AllPassed(consumed: seq<int>, n: nat, max: nat)
    requires max <= n && Together(consumed, [], n)
    ensures Passed(UpTo(n), consumed, max) == max
  {
    if max > 0 {
      AllPassed(consumed, n, max - 1);
      UpToOccurs(n, max - 1);
      assert Once(UpTo(n), consumed, max - 1);
    }
  }

  lemma {:induction false} OccursIsCount(xs: seq<int>, x: int)
    ensures multiset(xs)[x] == Occurs(xs, x)
  {
    if xs != [] {
      var k := |xs| - 1;
      OccursIsCount(xs[..k], x);
      assert xs == xs[..k] + [xs[k]];
    }
  }

  /** With nothing left in the buffer the consumed items are the first n, in some order. */
  lemma AllConsumed(consumed: seq<int>, n: nat)
    requires Together(consumed, [], n)
    ensures multiset(consumed) == multiset(UpTo(n))
  {
    forall x ensures multiset(consumed)[x] == multiset(UpTo(n))[x] {
      OccursIsCount(consumed, x);
      OccursIsCount(UpTo(n), x);
      UpToOccurs(n, x);
      assert Occurs(consumed, x) + Occurs([], x) == if 0 <= x < n then 1 else 0;
    }
  }

  // ---------------------------------------------------------------- stuck states

  /** No thread can run: each one waits or is done. */
  predicate Stuck(c: Config, s: State) {
    && !s.overrun
    && (forall i :: 0 <= i < |s.masters| ==> !Runnable(s.masters[i]))
    && (forall j :: 0 <= j < |s.workers| ==> !Runnable(s.workers[j]))
  }

  predicate AllDone(s: State) {
    AllExited(s.masters) && AllExited(s.workers)
  }

  /** A master and a worker are never both in their wait sets. */
  lemma NeverBothWaiting(c: Config, run: seq<State>, i: nat, j: nat)
    requires Legal(c) && Run(c, run) && i < c.masters && j < c.workers
    ensures var s := Last(run);
            i < |s.masters| && j < |s.workers| && !(s.masters[i] == Waiting && s.workers[j] == Waiting)
  {
    RunInv(c, run);
  }

  /** Every item produced once and consumed once, the tally of check.awk full, the workers gone; and the
      masters, with one of them or a buffer that holds all items. */
  ghost predicate Delivered(c: Config, s: State) {
    var n := if c.total > 0 then c.total else 0;
    && s.itemToProduce == n && s.currBufSize == 0 && s.itemToConsume == c.total - n
    && multiset(ConsumedItems(s.output)) == multiset(UpTo(n))
    && Passed(ProducedItems(s.output), ConsumedItems(s.output), n) == n
    && AllExited(s.workers)
    && (c.masters == 1 || c.total <= c.cap ==> AllDone(s))
  }

  /** When nothing can run any more, everything has been delivered. */
  lemma StuckIsSuccess(c: Config, run: seq<State>)
    requires Legal(c) && Run(c, run) && Stuck(c, Last(run))
    ensures Delivered(c, Last(run))
  {
    RunInv(c, run);
    var s := Last(run);
    forall j: nat | j < c.workers ensures s.workers[j] == Done {
    }
    assert s.workers[0] == Done;
    assert s.buffer[..0] == [];
    AllConsumed(ConsumedItems(s.output), s.itemToProduce);
    AllPassed(ConsumedItems(s.output), s.itemToProduce, s.itemToProduce);
  }
}
