/** Every run without spurious wake-ups ends, with a bound on its length that only depends on
    the arguments of the program. */
module Termination {
  import opened MasterWorker
  import opened Delivery

  function Sum(xs: seq<Status>, weight: Status -> nat): nat {
    if xs == [] then 0 else Sum(xs[..|xs| - 1], weight) + weight(xs[|xs| - 1])
  }

  lemma {:induction false} SumUpdate(xs: seq<Status>, weight: Status -> nat, i: nat, v: Status)
    requires i < |xs|
    ensures Sum(xs[i := v], weight) + weight(xs[i]) == Sum(xs, weight) + weight(v)
    decreases |xs|
  {
    var n := |xs| - 1;
    if i == n {
      assert xs[i := v][..n] == xs[..n];
    } else {
      assert xs[i := v][..n] == xs[..n][i := v];
      SumUpdate(xs[..n], weight, i, v);
    }
  }

  lemma {:induction false} SumWake(xs: seq<Status>, weight: Status -> nat)
    requires weight(Waiting) == weight(Woken)
    ensures Sum(Wake(xs), weight) == Sum(xs, weight)
    decreases |xs|
  {
    if xs != [] {
      var n := |xs| - 1;
      assert Wake(xs)[..n] == Wake(xs[..n]);
      SumWake(xs[..n], weight);
    }
  }

  lemma {:induction false} SumBound(xs: seq<Status>, weight: Status -> nat, b: nat)
    requires forall v :: weight(v) <= b
    ensures Sum(xs, weight) <= |xs| * b
    decreases |xs|
  {
    if xs != [] {
      SumBound(xs[..|xs| - 1], weight, b);
    }
  }

  /** Critical sections a master still has to enter in order to exit. */
  const MASTER_EXIT: Status -> nat := (status: Status) => match status case Done => 0 case Leaving => 1 case _ => 2

  const WORKER_EXIT: Status -> nat := (status: Status) => if status == Done then 0 else 1

  /** While the buffer is full, what moves is masters going to sleep ... */
  const MASTER_UNREST: Status -> nat := (status: Status) => if status == Ready || status == Woken then 1 else 0

  /** ... and while it is empty, workers going to sleep, after one idle round if they were woken. */
  const WORKER_UNREST: Status -> nat := (status: Status) => match status case Ready => 1 case Woken => 2 case _ => 0

  function NonNegative(x: int): nat {
    if x < 0 then 0 else x
  }

  /** Productions, consumptions and exits still to come. */
  function Work(c: Config, s: State): nat {
    NonNegative(c.total - s.itemToProduce) + NonNegative(s.itemToConsume)
    + Sum(s.masters, MASTER_EXIT) + Sum(s.workers, WORKER_EXIT) + if s.overrun then 0 else 1
  }

  function Unrest(c: Config, s: State): nat {
    if s.currBufSize == c.cap then Sum(s.masters, MASTER_UNREST)
    else if s.currBufSize == 0 then Sum(s.workers, WORKER_UNREST)
    else 0
  }

  /** Less work left, or as much with fewer threads still to fall asleep. */
  predicate Closer(c: Config, t: State, s: State) {
    Work(c, t) < Work(c, s) || (Work(c, t) == Work(c, s) && Unrest(c, t) < Unrest(c, s))
  }

  /** A master gets one critical section nearer to its exit. */
  lemma ExitProgress(c: Config, s: State, i: nat, status: Status, workers: seq<Status>)
    requires i < |s.masters| && MASTER_EXIT(status) < MASTER_EXIT(s.masters[i])
    requires workers == s.workers || workers == Wake(s.workers)
    ensures Closer(c, s.(masters := s.masters[i := status], workers := workers), s)
  {
    SumUpdate(s.masters, MASTER_EXIT, i, status);
    SumWake(s.workers, WORKER_EXIT);
  }

  lemma SleepProgress(c: Config, s: State, i: nat)
    requires i < |s.masters| && (s.masters[i] == Ready || s.masters[i] == Woken) && s.currBufSize == c.cap
    ensures Closer(c, s.(masters := s.masters[i := Waiting], workers := Wake(s.workers)), s)
  {
    SumUpdate(s.masters, MASTER_EXIT, i, Waiting);
    SumUpdate(s.masters, MASTER_UNREST, i, Waiting);
    SumWake(s.workers, WORKER_EXIT);
  }

  lemma ProduceProgress(c: Config, s: State, i: nat)
    requires i < |s.masters| && (s.masters[i] == Ready || s.masters[i] == Woken)
    requires 0 <= s.currBufSize && s.itemToProduce < c.total && !s.overrun
    ensures Closer(c, Produce(c, s, i), s)
  {
    SumUpdate(s.masters, MASTER_EXIT, i, Ready);
  }

  lemma MasterProgress(c: Config, s: State, i: nat)
    requires Legal(c) && Shapes(c, s) && !s.overrun && i < c.masters && Runnable(s.masters[i])
    ensures Closer(c, MasterStep(c, s, i), s)
  {
    if s.masters[i] == Leaving {
      ExitProgress(c, s, i, Done, Wake(s.workers));
    } else if s.itemToProduce >= c.total {
      ExitProgress(c, s, i, Leaving, s.workers);
    } else if s.currBufSize == c.cap && (s.masters[i] == Ready || c.retest) {
      SleepProgress(c, s, i);
    } else {
      ProduceProgress(c, s, i);
    }
  }

  lemma WorkerExitProgress(c: Config, s: State, j: nat)
    requires j < |s.workers| && s.workers[j] == Ready
    ensures Closer(c, s.(workers := s.workers[j := Done]), s)
  {
    SumUpdate(s.workers, WORKER_EXIT, j, Done);
  }

  lemma WorkerSleepProgress(c: Config, s: State, j: nat)
    requires Legal(c) && j < |s.workers| && s.workers[j] == Ready && s.currBufSize == 0
    ensures Closer(c, s.(masters := Wake(s.masters), workers := s.workers[j := Waiting]), s)
  {
    SumUpdate(s.workers, WORKER_EXIT, j, Waiting);
    SumUpdate(s.workers, WORKER_UNREST, j, Waiting);
    SumWake(s.masters, MASTER_EXIT);
  }

  /** Woken in vain: the next time the worker will sleep. */
  lemma IdleProgress(c: Config, s: State, j: nat)
    requires Legal(c) && j < |s.workers| && s.workers[j] == Woken && s.currBufSize == 0
    ensures Closer(c, Take(c, s, j), s)
  {
    SumUpdate(s.workers, WORKER_EXIT, j, Ready);
    SumUpdate(s.workers, WORKER_UNREST, j, Ready);
  }

  lemma ConsumeProgress(c: Config, s: State, j: nat)
    requires Legal(c) && Shapes(c, s) && ExactlyOnce(c, s)
    requires j < c.workers && s.workers[j] != Done && s.currBufSize > 0
    ensures Closer(c, Take(c, s, j), s)
  {
    TakeTakes(c, s, j);
    SumUpdate(s.workers, WORKER_EXIT, j, Ready);
  }

  lemma WorkerProgress(c: Config, s: State, j: nat)
    requires Legal(c) && Inv(c, s) && !s.overrun && j < c.workers && Runnable(s.workers[j])
    ensures Closer(c, WorkerStep(c, s, j), s)
  {
    assert WorkerOk(s.itemToConsume, s.workers[j]);
    if s.workers[j] == Ready && s.itemToConsume < 1 {
      WorkerExitProgress(c, s, j);
    } else if s.currBufSize > 0 {
      ConsumeProgress(c, s, j);
    } else if s.workers[j] == Ready {
      WorkerSleepProgress(c, s, j);
    } else {
      IdleProgress(c, s, j);
    }
  }

  function Span(c: Config): nat {
    2 * (c.masters + c.workers) + 1
  }

  /** A step costs at least one unit of this measure. */
  function Measure(c: Config, s: State): nat {
    Work(c, s) * Span(c) + Unrest(c, s)
  }

  lemma UnrestBound(c: Config, s: State)
    requires Shapes(c, s)
    ensures Unrest(c, s) < Span(c)
  {
    SumBound(s.masters, MASTER_UNREST, 2);
    SumBound(s.workers, WORKER_UNREST, 2);
  }

  lemma Lexicographic(a: nat, b: nat, k: nat, x: nat, y: nat)
    requires (a < b || (a == b && x < y)) && x < k
    ensures a * k + x < b * k + y
  {
    if a < b { assert (a + 1) * k <= b * k; }
  }

  lemma MeasureDrops(c: Config, s: State, t: State)
    requires Shapes(c, s) && Shapes(c, t)
    requires Closer(c, t, s)
    ensures Measure(c, t) < Measure(c, s)
  {
    UnrestBound(c, s);
    UnrestBound(c, t);
    Lexicographic(Work(c, t), Work(c, s), Span(c), Unrest(c, t), Unrest(c, s));
  }

  lemma NextProgress(c: Config, s: State, t: State)
    requires Legal(c) && !c.spurious && Inv(c, s) && Next(c, s, t)
    ensures Measure(c, t) < Measure(c, s)
  {
    NextKeeps(c, s, t);
    var step :| Enabled(c, s, step) && t == Apply(c, s, step);
    match step
    case MasterRuns(i) => MasterProgress(c, s, i); MeasureDrops(c, s, t);
    case WorkerRuns(j) => WorkerProgress(c, s, j); MeasureDrops(c, s, t);
  }

  /** How many steps any run can have. */
  function StepBound(c: Config): nat {
    (2 * NonNegative(c.total) + 2 * c.masters + c.workers + 2) * Span(c)
  }

  lemma InitialWork(c: Config, s: State)
    requires Legal(c) && Init(c, s)
    ensures Work(c, s) < 2 * NonNegative(c.total) + 2 * c.masters + c.workers + 2
  {
    SumBound(s.masters, MASTER_EXIT, 2);
    SumBound(s.workers, WORKER_EXIT, 1);
  }

  lemma InitialMeasure(c: Config, s: State)
    requires Legal(c) && Init(c, s)
    ensures Measure(c, s) < StepBound(c)
  {
    InitInv(c, s);
    InitialWork(c, s);
    UnrestBound(c, s);
    Lexicographic(Work(c, s), 2 * NonNegative(c.total) + 2 * c.masters + c.workers + 2, Span(c), Unrest(c, s), 0);
  }

  lemma {:induction false} StepsSpent(c: Config, run: seq<State>)
    requires Legal(c) && !c.spurious && Run(c, run)
    ensures Measure(c, Last(run)) + |run| - 1 <= Measure(c, run[0])
    decreases |run|
  {
    if |run| > 1 {
      var before := run[..|run| - 1];
      assert forall k :: 0 <= k < |before| - 1 ==> Next(c, before[k], before[k + 1]);
      StepsSpent(c, before);
      RunInv(c, before);
      NextProgress(c, Last(before), Last(run));
    }
  }

  /** Any number of masters and workers, any scheduler: no run takes more steps than this. */
  lemma RunsEnd(c: Config, run: seq<State>)
    requires Legal(c) && !c.spurious && Run(c, run)
    ensures |run| <= StepBound(c)
    ensures StepBound(c) == (2 * (if c.total > 0 then c.total else 0) + 2 * c.masters + c.workers + 2)
                            * (2 * (c.masters + c.workers) + 1)
  {
    StepsSpent(c, run);
    InitialMeasure(c, run[0]);
  }
}
