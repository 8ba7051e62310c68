/** Which thread does what in a step: the line it prints, the threads it wakes, what becomes of itself. */
module Printed {
  import opened MasterWorker
  import opened Delivery

  /** A line that names the thread which runs in the step. */
  predicate By(e: Event, step: Step) {
    match step
    case MasterRuns(i) => e.Produced? && e.thread == i
    case WorkerRuns(j) => e.Consumed? && e.thread == j
    case _ => false
  }

  /** A step prints one line at most, in the name of its own thread, and takes nothing back. */
  lemma StepPrints(c: Config, s: State, step: Step)
    requires Enabled(c, s, step)
    ensures var t := Apply(c, s, step);
            && s.output <= t.output && |t.output| <= |s.output| + 1
            && (|t.output| > |s.output| ==> By(t.output[|s.output|], step))
  {
  }

  /** A master that counts an item up has stored and printed it, a worker that counts one down has taken it
      from the top of the buffer and printed it; otherwise nothing is printed. */
  lemma PrintsItem(c: Config, s: State, step: Step)
    requires Legal(c) && Inv(c, s) && Enabled(c, s, step)
    ensures var t := Apply(c, s, step);
            match step
            case MasterRuns(i) =>
              t.itemToConsume == s.itemToConsume &&
              if t.output == s.output then t.itemToProduce == s.itemToProduce && t.buffer == s.buffer
              else && t.output == s.output + [Produced(s.itemToProduce, i)] && t.itemToProduce == s.itemToProduce + 1
                   && s.currBufSize < |s.buffer| == |t.buffer| && t.currBufSize == s.currBufSize + 1
                   && t.buffer[s.currBufSize] == s.itemToProduce
            case WorkerRuns(j) =>
              t.itemToProduce == s.itemToProduce &&
              if t.output == s.output then t.itemToConsume == s.itemToConsume && t.buffer == s.buffer
              else && 0 < s.currBufSize <= |s.buffer| && t.currBufSize == s.currBufSize - 1
                   && t.output == s.output + [Consumed(s.buffer[s.currBufSize - 1], j)]
                   && t.itemToConsume == s.itemToConsume - 1
            case _ => t.output == s.output
  {
    match step
    case MasterRuns(i) =>
    case WorkerRuns(j) =>
      if s.currBufSize > 0 { TakeTakes(c, s, j); }
    case _ =>
  }

  /** What becomes of the thread that runs. */
  lemma RunnerMoves(c: Config, s: State, step: Step)
    requires Legal(c) && Inv(c, s) && Enabled(c, s, step)
    ensures var t := Apply(c, s, step);
            match step
            case MasterRuns(i) =>
              && |t.masters| == |s.masters|
              && (t.masters[i] == Done <==> s.masters[i] == Leaving)
              && (t.masters[i] == Leaving <==> s.masters[i] != Leaving && s.itemToProduce >= c.total)
              && (t.masters[i] == Waiting <==> s.itemToProduce < c.total && s.currBufSize == c.cap
                                               && (s.masters[i] == Ready || c.retest))
              && t.masters[i] != Woken
            case WorkerRuns(j) =>
              && |t.workers| == |s.workers|
              && (t.workers[j] == Done <==> s.workers[j] == Ready && s.itemToConsume < 1)
              && (t.workers[j] == Waiting <==> s.workers[j] == Ready && s.itemToConsume >= 1 && s.currBufSize == 0)
              && t.workers[j] != Woken && t.workers[j] != Leaving
            case MasterWakes(i) => t == s.(masters := s.masters[i := Woken])
            case WorkerWakes(j) => t == s.(workers := s.workers[j := Woken])
  {
    match step
    case MasterRuns(i) => assert MasterOk(c, s.itemToProduce, s.currBufSize, s.masters[i]);
    case WorkerRuns(j) => assert WorkerOk(s.itemToConsume, s.workers[j]);
    case _ =>
  }

  /** The masters are woken by a worker that goes to sleep, the workers by a master that goes to sleep or has
      left; no other step changes the status of another thread. */
  lemma StepWakes(c: Config, s: State, step: Step, k: nat)
    requires Enabled(c, s, step)
    ensures var t := Apply(c, s, step);
            && |t.masters| == |s.masters| && |t.workers| == |s.workers|
            && (k < |s.masters| && step != MasterRuns(k) && step != MasterWakes(k) ==>
                  var woken := s.masters[k] == Waiting && step.WorkerRuns? && t.workers[step.i] == Waiting;
                  t.masters[k] == if woken then Woken else s.masters[k])
            && (k < |s.workers| && step != WorkerRuns(k) && step != WorkerWakes(k) ==>
                  var woken := s.workers[k] == Waiting && step.MasterRuns?
                               && (t.masters[step.i] == Waiting || t.masters[step.i] == Done);
                  t.workers[k] == if woken then Woken else s.workers[k])
  {
  }

  lemma LastStep(c: Config, run: seq<State>) returns (step: Step)
    requires Run(c, run) && |run| > 1
    ensures Run(c, run[..|run| - 1])
    ensures Enabled(c, run[|run| - 2], step) && Last(run) == Apply(c, run[|run| - 2], step)
  {
    var before := run[..|run| - 1];
    assert forall j :: 0 <= j < |before| - 1 ==> Next(c, before[j], before[j + 1]);
    assert Next(c, run[|run| - 2], run[|run| - 1]);
    step :| Enabled(c, run[|run| - 2], step) && Last(run) == Apply(c, run[|run| - 2], step);
  }

  /** Every line of a run's output was printed, at its place, in a step of the thread it names. */
  lemma {:induction false} PrintedBy(c: Config, run: seq<State>, k: nat) returns (m: nat, step: Step)
    requires Legal(c) && Run(c, run) && k < |Last(run).output|
    ensures m + 1 < |run| && Enabled(c, run[m], step) && run[m + 1] == Apply(c, run[m], step)
    ensures |run[m].output| == k < |run[m + 1].output| && run[m + 1].output <= Last(run).output
    ensures By(Last(run).output[k], step)
    decreases |run|
  {
    assert |run| > 1 by { assert run[0].output == []; }
    var last := LastStep(c, run);
    var before := run[..|run| - 1];
    var s := Last(before);
    assert s == run[|run| - 2];
    StepPrints(c, s, last);
    if k < |s.output| {
      m, step := PrintedBy(c, before, k);
      assert Last(run).output[k] == s.output[k];
    } else {
      m, step := |run| - 2, last;
    }
  }
}
