/** The shared globals of master-worker.c, updated in place by the critical sections. */
module SharedBuffer {
  import opened MasterWorker
  import opened Delivery
  import opened Limits

  class Monitor {
    const c: Config
    var itemToProduce: int
    var currBufSize: int
    var itemToConsume: int
    const buffer: array<int>
    var masters: seq<Status>
    var workers: seq<Status>
    var output: seq<Event>
    var overrun: bool

    function View(): State
      reads this, buffer
    {
      State(itemToProduce, currBufSize, itemToConsume, buffer[..], masters, workers, output, overrun)
    }

    constructor (c: Config)
      requires Legal(c)
      ensures this.c == c && Init(c, View()) && fresh(buffer)
    {
      this.c := c;
      itemToProduce, currBufSize, itemToConsume := 0, 0, c.total;
      buffer := new int[c.cap];
      masters := seq(c.masters, _ => Ready);
      workers := seq(c.workers, _ => Ready);
      output, overrun := [], false;
    }

    /** pthread_cond_broadcast(&cond_worker). */
    method WakeWorkers()
      modifies this`workers
      ensures workers == Wake(old(workers))
    {
      workers := Wake(workers);
    }

    /** pthread_cond_broadcast(&cond_master). */
    method WakeMasters()
      modifies this`masters
      ensures masters == Wake(old(masters))
    {
      masters := Wake(masters);
    }

    /** One stretch of generate_requests_loop between two points where the mutex is free. */
    method RunMaster(i: nat)
      requires Enabled(c, View(), MasterRuns(i))
      modifies this, buffer
      ensures View() == Apply(c, old(View()), MasterRuns(i))
    {
      var resumed := masters[i] == Woken;
      if masters[i] == Leaving {
        WakeWorkers();
        masters := masters[i := Done];
      } else if itemToProduce >= c.total {
        masters := masters[i := Leaving];
      } else if currBufSize == c.cap && (!resumed || c.retest) {
        WakeWorkers();
        masters := masters[i := Waiting];
      } else {
        masters := masters[i := Ready];
        if currBufSize < 0 {
          currBufSize := 0;
        } else if currBufSize < buffer.Length {
          buffer[currBufSize] := itemToProduce;
          currBufSize := currBufSize + 1;
          output := output + [Produced(itemToProduce, i)];
          itemToProduce := itemToProduce + 1;
        } else {
          overrun := true;
        }
      }
    }

    /** One stretch of consume_requests_loop. */
    method RunWorker(j: nat)
      requires Enabled(c, View(), WorkerRuns(j)) && workers[j] != Leaving
      modifies this, buffer
      ensures View() == Apply(c, old(View()), WorkerRuns(j))
    {
      if workers[j] == Ready && itemToConsume < 1 {
        workers := workers[j := Done];
      } else if workers[j] == Ready && currBufSize <= 0 {
        WakeMasters();
        workers := workers[j := Waiting];
      } else {
        workers := workers[j := Ready];
        if currBufSize < 0 {
          currBufSize := 0;
        } else if currBufSize > buffer.Length {
          overrun := true;
        } else if currBufSize > 0 {
          currBufSize := currBufSize - 1;
          if buffer[currBufSize] != -1 {
            output := output + [Consumed(buffer[currBufSize], j)];
            buffer[currBufSize] := -1;
            itemToConsume := itemToConsume - 1;
          }
        }
      }
    }

    /** Runs a whole schedule: whatever it is, a safe configuration stays inside the buffer, and
        if nothing can run at the end every item went through exactly once. */
    method RunSchedule(schedule: seq<Step>) returns (ghost run: seq<State>)
      requires Legal(c) && Init(c, View())
      modifies this, buffer
      ensures Run(c, run) && View() == Last(run)
      ensures Safe(c) ==> !overrun
      ensures Stuck(c, View()) ==> Delivered(c, View())
    {
      run := [View()];
      for k := 0 to |schedule|
        invariant Run(c, run) && View() == Last(run)
      {
        var step := schedule[k];
        RunInv(c, run);
        ghost var before := run;
        match step {
          case MasterRuns(i) =>
            if !overrun && i < |masters| && Runnable(masters[i]) {
              RunMaster(i);
              run := Extend(c, before, step);
            }
          case WorkerRuns(j) =>
            if !overrun && j < |workers| && Runnable(workers[j]) {
              assert WorkerOk(itemToConsume, workers[j]);
              RunWorker(j);
              run := Extend(c, before, step);
            }
          case MasterWakes(i) =>
            if !overrun && c.spurious && i < |masters| && masters[i] == Waiting {
              masters := masters[i := Woken];
              run := Extend(c, before, step);
            }
          case WorkerWakes(j) =>
            if !overrun && c.spurious && j < |workers| && workers[j] == Waiting {
              workers := workers[j := Woken];
              run := Extend(c, before, step);
            }
        }
      }
      if Safe(c) { SafeRuns(c, run); }
      if Stuck(c, View()) { StuckIsSuccess(c, run); }
    }
  }
}
