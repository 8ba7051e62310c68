/** Exactly when the program as written stays inside its buffer, and exactly when it always
    ends with every thread joined. */
module Limits {
  import opened MasterWorker
  import opened Delivery

  /** The buffer is never overrun: the wait is re-tested, or the buffer never fills before the last
      item, or no wake-up is spurious and there is one master or too few items to fill the buffer
      a second time. */
  predicate Safe(c: Config) {
    c.retest || c.total <= c.cap || (!c.spurious && (c.masters == 1 || c.total <= 2 * c.cap))
  }

  lemma ProducesInside(c: Config, s: State, i: nat)
    requires Legal(c) && Safe(c) && Inv(c, s) && i < c.masters && s.itemToProduce < c.total
    requires (s.masters[i] == Ready && s.currBufSize != c.cap) ||
             (s.masters[i] == Woken && !(c.retest && s.currBufSize == c.cap))
    ensures s.currBufSize < c.cap
  {
    assert MasterOk(c, s.itemToProduce, s.currBufSize, s.masters[i]);
  }

  lemma MasterStaysInside(c: Config, s: State, i: nat)
    requires Legal(c) && Safe(c) && Inv(c, s) && !s.overrun && i < c.masters && Runnable(s.masters[i])
    ensures !MasterStep(c, s, i).overrun
  {
    if s.itemToProduce < c.total && s.masters[i] != Leaving {
      if !(s.currBufSize == c.cap && (s.masters[i] == Ready || c.retest)) {
        ProducesInside(c, s, i);
      }
    }
  }

  lemma WorkerStaysInside(c: Config, s: State, j: nat)
    requires Shapes(c, s) && !s.overrun && j < c.workers
    ensures !WorkerStep(c, s, j).overrun
  {
  }

  lemma NextStaysInside(c: Config, s: State, t: State)
    requires Legal(c) && Safe(c) && Inv(c, s) && Next(c, s, t)
    ensures !t.overrun
  {
    var step :| Enabled(c, s, step) && t == Apply(c, s, step);
    match step
    case MasterRuns(i) =>
      assert MasterOk(c, s.itemToProduce, s.currBufSize, s.masters[i]);
      MasterStaysInside(c, s, i);
    case WorkerRuns(j) => WorkerStaysInside(c, s, j);
    case _ =>
  }

  lemma {:induction false} SafeRuns(c: Config, run: seq<State>)
    requires Legal(c) && Safe(c) && Run(c, run)
    ensures !Last(run).overrun
    decreases |run|
  {
    if |run| > 1 {
      var before := run[..|run| - 1];
      assert forall k :: 0 <= k < |before| - 1 ==> Next(c, before[k], before[k + 1]);
      RunInv(c, before);
      NextStaysInside(c, Last(before), Last(run));
    }
  }

  // ---------------------------------------------------------------- building runs

  lemma Start(c: Config) returns (run: seq<State>)
    requires Legal(c)
    ensures Run(c, run) && |run| == 1
  {
    run := [State(0, 0, c.total, seq(c.cap, _ => 0), seq(c.masters, _ => Ready), seq(c.workers, _ => Ready), [],
                  false)];
  }

  lemma Extend(c: Config, run: seq<State>, step: Step) returns (r: seq<State>)
    requires Legal(c) && Run(c, run) && Enabled(c, Last(run), step)
    ensures Run(c, r) && run <= r && |r| == |run| + 1 && Last(r) == Apply(c, Last(run), step)
  {
    r := run + [Apply(c, Last(run), step)];
    forall k | 0 <= k < |r| - 1 ensures Next(c, r[k], r[k + 1]) {
      if k < |run| - 1 { assert Next(c, run[k], run[k + 1]); }
    }
  }

  lemma Sizes(c: Config, run: seq<State>)
    requires Legal(c) && Run(c, run)
    ensures var s := Last(run);
            |s.buffer| == c.cap && |s.masters| == c.masters && |s.workers| == c.workers && 0 <= s.currBufSize
  {
    RunInv(c, run);
  }

  lemma Takes(c: Config, run: seq<State>, j: nat)
    requires Legal(c) && Run(c, run) && j < c.workers && Last(run).currBufSize > 0
    ensures var s := Last(run);
            j < |s.workers| &&
            var t := Take(c, s, j);
            t.overrun == s.overrun && GistOf(t) == GistOf(s).(held := s.currBufSize - 1, left := s.itemToConsume - 1,
                                                              workers := s.workers[j := Ready])
  {
    RunInv(c, run);
    TakeTakes(c, Last(run), j);
  }

  /** The threads and the counters that the schedules below depend on. */
  datatype Gist = Gist(made: int, held: int, left: int, masters: seq<Status>, workers: seq<Status>)

  function GistOf(s: State): Gist {
    Gist(s.itemToProduce, s.currBufSize, s.itemToConsume, s.masters, s.workers)
  }

  ghost predicate At(c: Config, run: seq<State>, g: Gist) {
    Run(c, run) && !Last(run).overrun && GistOf(Last(run)) == g
  }

  /** A ready master fills n slots. */
  lemma {:induction false} Fill(c: Config, run: seq<State>, g: Gist, i: nat, n: nat) returns (r: seq<State>)
    requires Legal(c) && At(c, run, g) && i < |g.masters| == c.masters && g.masters[i] == Ready
    requires g.held + n <= c.cap && g.made + n <= c.total
    ensures At(c, r, g.(made := g.made + n, held := g.held + n))
    decreases n
  {
    r := run;
    if n > 0 {
      Sizes(c, run);
      r := Extend(c, run, MasterRuns(i));
      assert g.masters[i := Ready] == g.masters;
      r := Fill(c, r, g.(made := g.made + 1, held := g.held + 1), i, n - 1);
    }
  }

  /** A ready worker empties n slots. */
  lemma {:induction false} Drain(c: Config, run: seq<State>, g: Gist, j: nat, n: nat) returns (r: seq<State>)
    requires Legal(c) && At(c, run, g) && j < |g.workers| == c.workers && g.workers[j] == Ready
    requires n <= g.held && n <= g.left
    ensures At(c, r, g.(held := g.held - n, left := g.left - n))
    decreases n
  {
    r := run;
    if n > 0 {
      Takes(c, run, j);
      r := Extend(c, run, WorkerRuns(j));
      assert g.workers[j := Ready] == g.workers;
      r := Drain(c, r, g.(held := g.held - 1, left := g.left - 1), j, n - 1);
    }
  }

  lemma NobodyToWake(threads: seq<Status>)
    requires NoneWaiting(threads)
    ensures Wake(threads) == threads
  {
  }

  /** The buffer full, the first master asleep. */
  lemma FullAndAsleep(c: Config) returns (run: seq<State>, g: Gist)
    requires Legal(c) && c.total > c.cap
    ensures At(c, run, g) && g.made == c.cap && g.held == c.cap && g.left == c.total
    ensures |g.masters| == c.masters && g.masters[0] == Waiting
    ensures forall i :: 1 <= i < c.masters ==> g.masters[i] == Ready
    ensures |g.workers| == c.workers && forall j :: 0 <= j < c.workers ==> g.workers[j] == Ready
  {
    run := Start(c);
    g := GistOf(Last(run));
    run := Fill(c, run, g, 0, c.cap);
    NobodyToWake(Last(run).workers);
    run := Extend(c, run, MasterRuns(0));
    g := GistOf(Last(run));
  }

  /** One sleeping master and one spurious wake-up. */
  lemma OverrunBySpuriousWakeup(c: Config) returns (run: seq<State>)
    requires Legal(c) && !c.retest && c.spurious && c.total > c.cap
    ensures Run(c, run) && Last(run).overrun
  {
    var g: Gist;
    run, g := FullAndAsleep(c);
    run := Extend(c, run, MasterWakes(0));
    Sizes(c, run);
    run := Extend(c, run, MasterRuns(0));
  }

  /** Two sleeping masters woken together: one fills the buffer again before the other stores. */
  lemma OverrunBySecondMaster(c: Config) returns (run: seq<State>)
    requires Legal(c) && !c.retest && c.masters >= 2 && c.total > 2 * c.cap
    ensures Run(c, run) && Last(run).overrun
  {
    var g: Gist;
    run, g := FullAndAsleep(c);
    NobodyToWake(Last(run).workers);
    run := Extend(c, run, MasterRuns(1));
    g := GistOf(Last(run));
    run := Drain(c, run, g, 0, c.cap);
    run := Extend(c, run, WorkerRuns(0));
    Sizes(c, run);
    run := Extend(c, run, MasterRuns(0));
    g := GistOf(Last(run));
    run := Fill(c, run, g, 0, c.cap - 1);
    Sizes(c, run);
    run := Extend(c, run, MasterRuns(1));
  }

  /** No run overruns the buffer exactly in the safe configurations. */
  lemma SafeExactly(c: Config)
    requires Legal(c)
    ensures (forall run :: Run(c, run) ==> !Last(run).overrun) <==> Safe(c)
  {
    if Safe(c) {
      forall run | Run(c, run) ensures !Last(run).overrun { SafeRuns(c, run); }
    } else if c.spurious {
      var run := OverrunBySpuriousWakeup(c);
    } else {
      var run := OverrunBySecondMaster(c);
    }
  }

  // ---------------------------------------------------------------- masters left waiting

  /** The second master keeps the buffer full while a worker makes room. */
  lemma {:induction false} Shuttle(c: Config, run: seq<State>, g: Gist, n: nat) returns (r: seq<State>)
    requires Legal(c) && c.masters >= 2 && At(c, run, g)
    requires |g.masters| == c.masters && |g.workers| == c.workers && g.masters[1] == Ready && g.workers[0] == Ready
    requires g.held == c.cap && g.made + n <= c.total && n < g.left
    ensures At(c, r, g.(made := g.made + n, left := g.left - n))
    decreases n
  {
    r := run;
    if n > 0 {
      r := Drain(c, r, g, 0, 1);
      r := Fill(c, r, g.(held := g.held - 1, left := g.left - 1), 1, 1);
      r := Shuttle(c, r, g.(made := g.made + 1, left := g.left - 1), n - 1);
    }
  }

  /** Once everything is produced the ready masters exit. */
  lemma {:induction false} MastersExit(c: Config, run: seq<State>, g: Gist, i: nat) returns (r: seq<State>, h: Gist)
    requires Legal(c) && At(c, run, g) && g.made >= c.total && NoneWaiting(g.workers) && i <= |g.masters| == c.masters
    requires forall k :: i <= k < c.masters ==> g.masters[k] == Ready
    ensures At(c, r, h) && h == g.(masters := h.masters) && |h.masters| == |g.masters|
    ensures forall k :: 0 <= k < c.masters ==> h.masters[k] == if k < i then g.masters[k] else Done
    decreases c.masters - i
  {
    r, h := run, g;
    Sizes(c, run);
    if i < c.masters {
      r := Extend(c, r, MasterRuns(i));
      NobodyToWake(g.workers);
      r := Extend(c, r, MasterRuns(i));
      h := GistOf(Last(r));
      r, h := MastersExit(c, r, h, i + 1);
    }
  }

  lemma {:induction false} WorkersExit(c: Config, run: seq<State>, g: Gist, j: nat) returns (r: seq<State>, h: Gist)
    requires Legal(c) && At(c, run, g) && g.left < 1 && j <= |g.workers| == c.workers
    requires forall k :: j <= k < c.workers ==> g.workers[k] == Ready
    ensures At(c, r, h) && h == g.(workers := h.workers) && |h.workers| == |g.workers|
    ensures forall k :: 0 <= k < c.workers ==> h.workers[k] == if k < j then g.workers[k] else Done
    decreases c.workers - j
  {
    r, h := run, g;
    Sizes(c, run);
    if j < c.workers {
      r := Extend(c, r, WorkerRuns(j));
      h := GistOf(Last(r));
      r, h := WorkersExit(c, r, h, j + 1);
    }
  }

  /** Everything is delivered, every other thread has exited, and the first master sleeps on. */
  lemma MasterLeftWaiting(c: Config) returns (run: seq<State>)
    requires Legal(c) && c.masters >= 2 && c.total > c.cap
    ensures Run(c, run) && Stuck(c, Last(run)) && !AllDone(Last(run))
  {
    var g: Gist;
    run, g := FullAndAsleep(c);
    run := Shuttle(c, run, g, c.total - c.cap);
    g := g.(made := c.total, left := c.cap);
    run, g := MastersExit(c, run, g, 1);
    run := Drain(c, run, g, 0, c.cap);
    g := g.(held := 0, left := 0);
    run, g := WorkersExit(c, run, g, 0);
    assert Last(run).masters[0] == Waiting;
  }

  /** Every stuck state has all threads joined exactly when there is one master or the buffer
      holds all items. */
  lemma JoinsExactly(c: Config)
    requires Legal(c)
    ensures (forall run :: Run(c, run) && Stuck(c, Last(run)) ==> AllDone(Last(run))) <==>
              (c.masters == 1 || c.total <= c.cap)
  {
    if c.masters == 1 || c.total <= c.cap {
      forall run | Run(c, run) && Stuck(c, Last(run)) ensures AllDone(Last(run)) { StuckIsSuccess(c, run); }
    } else {
      var run := MasterLeftWaiting(c);
    }
  }
}
