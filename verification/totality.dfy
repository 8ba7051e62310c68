/** Total correctness of the protocol: in a safe configuration without spurious wake-ups every run can be
    finished within the bound, and however it is finished everything has been delivered. */
module Totality {
  import opened MasterWorker
  import opened Delivery
  import opened Termination
  import opened Limits

  /** No step is possible any more. */
  ghost predicate Ended(c: Config, s: State) {
    forall t :: !Next(c, s, t)
  }

  lemma EndedIsStuck(c: Config, s: State)
    requires !s.overrun && Ended(c, s)
    ensures Stuck(c, s)
  {
    forall i: nat | i < |s.masters| ensures !Runnable(s.masters[i]) {
      if Runnable(s.masters[i]) {
        assert Enabled(c, s, MasterRuns(i));
        assert Next(c, s, Apply(c, s, MasterRuns(i)));
      }
    }
    forall j: nat | j < |s.workers| ensures !Runnable(s.workers[j]) {
      if Runnable(s.workers[j]) {
        assert Enabled(c, s, WorkerRuns(j));
        assert Next(c, s, Apply(c, s, WorkerRuns(j)));
      }
    }
  }

  /** However a safe run ends, it has done its work. */
  lemma EndsDelivered(c: Config, run: seq<State>)
    requires Legal(c) && Safe(c) && Run(c, run) && Ended(c, Last(run))
    ensures Delivered(c, Last(run))
  {
    SafeRuns(c, run);
    EndedIsStuck(c, Last(run));
    StuckIsSuccess(c, run);
  }

  /** Every safe run can be finished, whatever has happened so far, within the bound on its length. */
  lemma {:induction false} Finishes(c: Config, run: seq<State>) returns (whole: seq<State>)
    requires Legal(c) && Safe(c) && !c.spurious && Run(c, run)
    ensures Run(c, whole) && run <= whole && |whole| <= StepBound(c)
    ensures Ended(c, Last(whole)) && Delivered(c, Last(whole))
    decreases StepBound(c) - |run|
  {
    RunsEnd(c, run);
    if Ended(c, Last(run)) {
      whole := run;
      EndsDelivered(c, run);
    } else {
      var t :| Next(c, Last(run), t);
      var step :| Enabled(c, Last(run), step) && t == Apply(c, Last(run), step);
      var longer := Extend(c, run, step);
      RunsEnd(c, longer);
      whole := Finishes(c, longer);
    }
  }
}
