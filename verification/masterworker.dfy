/** The bounded-buffer protocol of master-worker.c as a step system: one critical section, or
    one broadcast outside the mutex, per step. */
module MasterWorker {

  /** `retest`: the full-buffer wait is re-tested in a loop instead of by one `if`.
      `spurious`: pthread_cond_wait may return without a broadcast. */
  datatype Config = Config(total: int, cap: int, masters: nat, workers: nat, retest: bool, spurious: bool)

  /** Leaving: a master has released the mutex but not yet sent its last broadcast. */
  datatype Status = Ready | Waiting | Woken | Leaving | Done

  /** A printed line. */
  datatype Event = Produced(item: int, thread: nat) | Consumed(item: int, thread: nat)

  /** The shared globals, the threads, the output, and whether a store has gone past the buffer. */
  datatype State = State(itemToProduce: int, currBufSize: int, itemToConsume: int, buffer: seq<int>,
                         masters: seq<Status>, workers: seq<Status>, output: seq<Event>, overrun: bool)

  predicate Legal(c: Config) {
    c.cap >= 1 && c.masters >= 1 && c.workers >= 1
  }

  predicate Init(c: Config, s: State) {
    && s.itemToProduce == 0 && s.currBufSize == 0 && s.itemToConsume == c.total && |s.buffer| == c.cap
    && |s.masters| == c.masters && (forall i :: 0 <= i < c.masters ==> s.masters[i] == Ready)
    && |s.workers| == c.workers && (forall i :: 0 <= i < c.workers ==> s.workers[i] == Ready)
    && s.output == [] && !s.overrun
  }

  /** pthread_cond_broadcast. */
  function Wake(threads: seq<Status>): (r: seq<Status>)
    ensures |r| == |threads|
    ensures forall i :: 0 <= i < |r| ==> r[i] == if threads[i] == Waiting then Woken else threads[i]
  {
    seq(|threads|, i requires 0 <= i < |threads| => if threads[i] == Waiting then Woken else threads[i])
  }

  /** Lines 60 to 67. */
  function Produce(c: Config, s: State, i: nat): State
    requires i < |s.masters|
  {
    var t := s.(masters := s.masters[i := Ready]);
    if s.currBufSize < 0 then t.(currBufSize := 0)
    else if s.currBufSize < |s.buffer| then
      t.(buffer := s.buffer[s.currBufSize := s.itemToProduce], currBufSize := s.currBufSize + 1,
         output := s.output + [Produced(s.itemToProduce, i)], itemToProduce := s.itemToProduce + 1)
    else t.(overrun := true)
  }

  function MasterStep(c: Config, s: State, i: nat): State
    requires i < |s.masters|
  {
    match s.masters[i]
    case Ready =>
      if s.itemToProduce >= c.total then s.(masters := s.masters[i := Leaving])
      else if s.currBufSize == c.cap then s.(workers := Wake(s.workers), masters := s.masters[i := Waiting])
      else Produce(c, s, i)
    case Woken =>
      if s.itemToProduce >= c.total then s.(masters := s.masters[i := Leaving])
      else if c.retest && s.currBufSize == c.cap then
        s.(workers := Wake(s.workers), masters := s.masters[i := Waiting])
      else Produce(c, s, i)
    case Leaving => s.(workers := Wake(s.workers), masters := s.masters[i := Done])
    case _ => s
  }

  /** Lines 100 to 110. */
  function Take(c: Config, s: State, i: nat): State
    requires i < |s.workers|
  {
    var t := s.(workers := s.workers[i := Ready]);
    var n := s.currBufSize - 1;
    if s.currBufSize < 0 then t.(currBufSize := 0)
    else if s.currBufSize == 0 then t
    else if n >= |s.buffer| then t.(overrun := true)
    else if s.buffer[n] != -1 then
      t.(buffer := s.buffer[n := -1], currBufSize := n, itemToConsume := s.itemToConsume - 1,
         output := s.output + [Consumed(s.buffer[n], i)])
    else t.(currBufSize := n)
  }

  function WorkerStep(c: Config, s: State, i: nat): State
    requires i < |s.workers|
  {
    match s.workers[i]
    case Ready =>
      if s.itemToConsume < 1 then s.(workers := s.workers[i := Done])
      else if s.currBufSize <= 0 then s.(masters := Wake(s.masters), workers := s.workers[i := Waiting])
      else Take(c, s, i)
    case Woken => Take(c, s, i)
    case _ => s
  }

  predicate Runnable(status: Status) {
    status == Ready || status == Woken || status == Leaving
  }

  datatype Step = MasterRuns(i: nat) | WorkerRuns(i: nat) | MasterWakes(i: nat) | WorkerWakes(i: nat)

  predicate Enabled(c: Config, s: State, step: Step) {
    !s.overrun &&
    match step
    case MasterRuns(i) => i < |s.masters| && Runnable(s.masters[i])
    case WorkerRuns(i) => i < |s.workers| && Runnable(s.workers[i])
    case MasterWakes(i) => c.spurious && i < |s.masters| && s.masters[i] == Waiting
    case WorkerWakes(i) => c.spurious && i < |s.workers| && s.workers[i] == Waiting
  }

  function Apply(c: Config, s: State, step: Step): State
    requires Enabled(c, s, step)
  {
    match step
    case MasterRuns(i) => MasterStep(c, s, i)
    case WorkerRuns(i) => WorkerStep(c, s, i)
    case MasterWakes(i) => s.(masters := s.masters[i := Woken])
    case WorkerWakes(i) => s.(workers := s.workers[i := Woken])
  }

  ghost predicate Next(c: Config, s: State, t: State) {
    exists step :: Enabled(c, s, step) && t == Apply(c, s, step)
  }

  /** A run from an initial state. */
  ghost predicate Run(c: Config, run: seq<State>) {
    && run != [] && Init(c, run[0])
    && forall k :: 0 <= k < |run| - 1 ==> Next(c, run[k], run[k + 1])
  }

  function Last(run: seq<State>): State
    requires run != []
  {
    run[|run| - 1]
  }

  // ---------------------------------------------------------------- what the output says

  function ProducedItems(output: seq<Event>): seq<int> {
    if output == [] then []
    else
      var e := output[|output| - 1];
      ProducedItems(output[..|output| - 1]) + if e.Produced? then [e.item] else []
  }

  function ConsumedItems(output: seq<Event>): seq<int> {
    if output == [] then []
    else
      var e := output[|output| - 1];
      ConsumedItems(output[..|output| - 1]) + if e.Consumed? then [e.item] else []
  }

  function UpTo(n: nat): (s: seq<int>)
    ensures |s| == n && forall i :: 0 <= i < n ==> s[i] == i
  {
    seq(n, i => i)
  }

  lemma OutputGrows(output: seq<Event>, e: Event)
    ensures ProducedItems(output + [e]) == ProducedItems(output) + if e.Produced? then [e.item] else []
    ensures ConsumedItems(output + [e]) == ConsumedItems(output) + if e.Consumed? then [e.item] else []
  {
    assert (output + [e])[..|output|] == output;
  }

  // ---------------------------------------------------------------- the invariant

  ghost predicate Shapes(c: Config, s: State) {
    && |s.buffer| == c.cap && |s.masters| == c.masters && |s.workers| == c.workers
    && 0 <= s.currBufSize <= c.cap && 0 <= s.itemToProduce
    && (s.itemToProduce > 0 ==> s.itemToProduce <= c.total)
  }

  /** How often an item occurs. */
  function Occurs(xs: seq<int>, x: int): nat {
    if xs == [] then 0
    else
      var k := |xs| - 1;
      Occurs(xs[..k], x) + if xs[k] == x then 1 else 0
  }

  /** The consumed items and the live slots are together the first n items, each once. */
  ghost predicate Together(consumed: seq<int>, live: seq<int>, n: nat) {
    forall x {:trigger Occurs(consumed, x)} {:trigger Occurs(live, x)} ::
      Occurs(consumed, x) + Occurs(live, x) == if 0 <= x < n then 1 else 0
  }

  /** Exactly-once delivery: consumed items and live slots together are the items produced so far. */
  ghost predicate ExactlyOnce(c: Config, s: State)
    requires Shapes(c, s)
  {
    && ProducedItems(s.output) == UpTo(s.itemToProduce)
    && Together(ConsumedItems(s.output), s.buffer[..s.currBufSize], s.itemToProduce)
    && s.itemToConsume == c.total - |ConsumedItems(s.output)|
    && s.currBufSize == s.itemToProduce - |ConsumedItems(s.output)|
  }

  predicate NoneWaiting(threads: seq<Status>) {
    forall i :: 0 <= i < |threads| ==> threads[i] != Waiting
  }

  predicate AllExited(threads: seq<Status>) {
    forall i :: 0 <= i < |threads| ==> threads[i] == Done
  }

  /** What the status of one master says about the counters. Without spurious wake-ups a woken
      master was woken by a worker that had emptied the buffer. */
  predicate MasterOk(c: Config, itemToProduce: int, currBufSize: int, status: Status) {
    match status
    case Ready => true
    case Waiting => c.total > c.cap && itemToProduce >= c.cap && (c.masters == 1 ==> itemToProduce < c.total)
    case Woken =>
      && c.total > c.cap && itemToProduce >= c.cap
      && (!c.spurious ==> itemToProduce - currBufSize >= c.cap && (c.masters == 1 ==> currBufSize == 0))
    case _ => itemToProduce >= c.total
  }

  predicate WorkerOk(itemToConsume: int, status: Status) {
    status != Leaving && (status == Done ==> itemToConsume < 1)
  }

  ghost predicate Coordination(c: Config, s: State)
    requires Shapes(c, s)
  {
    && (forall i :: 0 <= i < c.masters ==> MasterOk(c, s.itemToProduce, s.currBufSize, s.masters[i]))
    && (forall j :: 0 <= j < c.workers ==> WorkerOk(s.itemToConsume, s.workers[j]))
    && (NoneWaiting(s.masters) || NoneWaiting(s.workers))
    && (NoneWaiting(s.workers) || !AllExited(s.masters))
  }

  ghost predicate Inv(c: Config, s: State) {
    Shapes(c, s) && ExactlyOnce(c, s) && Coordination(c, s)
  }
}
