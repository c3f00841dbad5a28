/** TaskManager.cpp as a step system: one manager and its worker threads, interleaved at every access to a
    worker's state. */
module TaskSystem {
  import opened Basics

  /** Tasks by identity; none of them is null. */
  type Task = nat

  datatype State = Ready | Running | ResultReady

  /** Where a worker is in TaskThread::run: not yet past its first two assignments, at or about to reach
      run_block, inside the task, or gone with it. */
  datatype Place = Starting | Waiting | Executing | Dead

  datatype Thread = Thread(state: State, task: Option<Task>, place: Place, signals: nat)

  datatype WorkerEvent = Boot | Wake | Finish | Die

  predicate WorkerEnabled(t: Thread, event: WorkerEvent) {
    match event
    case Boot => t.place.Starting?
    case Wake => t.place.Waiting? && t.signals > 0
    case Finish => t.place.Executing?
    case Die => t.place.Executing?
  }

  /** Does waking start a task? */
  predicate Starts(t: Thread, event: WorkerEvent) {
    event.Wake? && t.state.Ready? && t.task.Some?
  }

  function WorkerStep(t: Thread, event: WorkerEvent): Thread {
    match event
    case Boot => Thread(Ready, None, Waiting, t.signals)
    case Wake =>
      var woken := t.(signals := if t.signals > 0 then t.signals - 1 else 0);
      if Starts(t, event) then woken.(state := Running, place := Executing) else woken
    case Finish => t.(state := ResultReady, place := Waiting)
    case Die => t.(place := Dead)
  }

  /** A worker that has moved on: past its start, and no task dispatched to it still waiting to be noticed. */
  predicate Settled(t: Thread) {
    !t.place.Starting? && !(t.state.Ready? && t.task.Some?)
  }

  /** Where the manager is inside update(). */
  datatype Phase = Idle | CollectAt(i: nat) | DispatchAt(i: nat) | ReapAt(i: nat)

  /** The manager and its workers, with the history of what was queued, dispatched, started and handed out. */
  datatype World = World(
    threads: seq<Thread>, pending: seq<Task>, completed: seq<Task>, numRunning: int, phase: Phase,
    queued: seq<Task>, dispatched: seq<Task>, started: seq<Task>, handedOut: seq<Task>)

  datatype Step =
    | Queue(task: Task)
    | Take
    | BeginUpdate
    | RunInline
    | Collect(i: nat)
    | Dispatch(i: nat)
    | Reap(i: nat)
    | Work(i: nat, event: WorkerEvent)

  function Init(n: nat): World {
    World(seq(n, _ => Thread(Ready, None, Starting, 0)), [], [], 0, Idle, [], [], [], [])
  }

  predicate Enabled(w: World, step: Step) {
    match step
    case Queue(task) => w.phase.Idle? && task !in w.queued
    case Take => w.phase.Idle?
    case BeginUpdate => w.phase.Idle? && |w.threads| > 0 && forall i :: 0 <= i < |w.threads| ==> Settled(w.threads[i])
    case RunInline => w.phase.Idle? && |w.threads| == 0
    case Collect(i) => w.phase == CollectAt(i) && i < |w.threads|
    case Dispatch(i) => w.phase == DispatchAt(i) && i < |w.threads|
    case Reap(i) => w.phase == ReapAt(i) && i < |w.threads|
    case Work(i, event) => i < |w.threads| && WorkerEnabled(w.threads[i], event)
  }

  /** removeTask: the thread gives up its task and is ready again. */
  function Emptied(t: Thread): Thread {
    t.(task := None, state := Ready)
  }

  function ApplyCollect(w: World, i: nat): World
    requires i < |w.threads|
  {
    var t := w.threads[i];
    var next := w.(phase := DispatchAt(i));
    if t.state.ResultReady? && t.task.Some? then
      next.(threads := w.threads[i := Emptied(t)], completed := w.completed + [t.task.value],
            numRunning := w.numRunning - 1)
    else next
  }

  function ApplyDispatch(w: World, i: nat): World
    requires i < |w.threads|
  {
    var t := w.threads[i];
    var next := w.(phase := ReapAt(i));
    if t.state.Ready? && w.pending != [] then
      next.(threads := w.threads[i := t.(task := Some(w.pending[0]), signals := t.signals + 1)],
            pending := w.pending[1..], numRunning := w.numRunning + 1, dispatched := w.dispatched + [w.pending[0]])
    else next
  }

  function ApplyReap(w: World, i: nat): World
    requires i < |w.threads|
  {
    var t := w.threads[i];
    var next := w.(phase := if i + 1 < |w.threads| then CollectAt(i + 1) else Idle);
    if t.state.Running? && t.place.Dead? && t.task.Some? then
      next.(threads := w.threads[i := Emptied(t).(place := Starting)],
            completed := w.completed + [t.task.value], numRunning := w.numRunning - 1)
    else next
  }

  /** Single-threaded mode: update() itself runs the next task. */
  function ApplyRunInline(w: World): World {
    if w.pending == [] then w
    else
      var task := w.pending[0];
      w.(pending := w.pending[1..], dispatched := w.dispatched + [task], started := w.started + [task],
         completed := w.completed + [task])
  }

  function ApplyWork(w: World, i: nat, event: WorkerEvent): World
    requires i < |w.threads|
  {
    var t := w.threads[i];
    if !WorkerEnabled(t, event) then w
    else
      w.(threads := w.threads[i := WorkerStep(t, event)],
         started := if Starts(t, event) then w.started + [t.task.value] else w.started)
  }

  function Apply(w: World, step: Step): World {
    match step
    case Queue(task) => w.(pending := w.pending + [task], queued := w.queued + [task])
    case Take =>
      if w.completed == [] then w
      else w.(completed := w.completed[1..], handedOut := w.handedOut + [w.completed[0]])
    case BeginUpdate => w.(phase := CollectAt(0))
    case RunInline => ApplyRunInline(w)
    case Collect(i) => if i < |w.threads| then ApplyCollect(w, i) else w
    case Dispatch(i) => if i < |w.threads| then ApplyDispatch(w, i) else w
    case Reap(i) => if i < |w.threads| then ApplyReap(w, i) else w
    case Work(i, event) => if i < |w.threads| then ApplyWork(w, i, event) else w
  }

  function ApplyAll(w: World, steps: seq<Step>): World {
    if steps == [] then w else Apply(ApplyAll(w, steps[..|steps| - 1]), steps[|steps| - 1])
  }

  /** Every step of a run is possible when it comes. */
  predicate CanRun(w: World, steps: seq<Step>) {
    steps == [] ||
    (CanRun(w, steps[..|steps| - 1]) && Enabled(ApplyAll(w, steps[..|steps| - 1]), steps[|steps| - 1]))
  }

  // ----- what the threads hold

  /** Whether a thread holds task x (any task for None), and with startedOnly has started it. */
  predicate Holds(t: Thread, x: Option<Task>, startedOnly: bool) {
    t.task.Some? && (x.None? || t.task == x) && (startedOnly ==> !t.state.Ready?)
  }

  function Holders(threads: seq<Thread>, x: Option<Task>, startedOnly: bool): nat {
    if threads == [] then 0
    else Holders(threads[..|threads| - 1], x, startedOnly) + One(Holds(threads[|threads| - 1], x, startedOnly))
  }

  lemma {:induction false} HoldersUpdate(threads: seq<Thread>, i: nat, t: Thread, x: Option<Task>, startedOnly: bool)
    requires i < |threads|
    ensures Holders(threads[i := t], x, startedOnly) + One(Holds(threads[i], x, startedOnly)) ==
            Holders(threads, x, startedOnly) + One(Holds(t, x, startedOnly))
  {
    var n := |threads| - 1;
    if i == n {
      assert threads[i := t][..n] == threads[..n];
    } else {
      HoldersUpdate(threads[..n], i, t, x, startedOnly);
      assert threads[i := t][..n] == threads[..n][i := t];
    }
  }

  /** A thread that agrees with its place. */
  predicate Sound(t: Thread) {
    && (t.state.Running? <==> t.place.Executing? || t.place.Dead?)
    && (!t.state.Ready? ==> t.task.Some?)
    && (t.place.Starting? ==> t.task.None?)
    && (t.state.Ready? && t.task.Some? ==> t.signals > 0)
  }

  /** A task is in as many places, counted with multiplicity, as it was queued. */
  ghost predicate Conserved(w: World, x: Task) {
    Count(w.pending, x) + Holders(w.threads, Some(x), false) + Count(w.completed, x) + Count(w.handedOut, x)
    == Count(w.queued, x)
  }

  /** It was started once for each place it is in after its dispatch was noticed. */
  ghost predicate StartsCounted(w: World, x: Task) {
    Count(w.started, x) == Holders(w.threads, Some(x), true) + Count(w.completed, x) + Count(w.handedOut, x)
  }

  ghost predicate VisitedSettled(w: World) {
    forall j :: 0 <= j < |w.threads| && NotYetDispatched(w.phase, j) ==> Settled(w.threads[j])
  }

  predicate NotYetDispatched(phase: Phase, j: nat) {
    match phase
    case Idle => false
    case CollectAt(i) => j >= i
    case DispatchAt(i) => j >= i
    case ReapAt(i) => j > i
  }

  ghost predicate Inv(w: World) {
    && (forall i :: 0 <= i < |w.threads| ==> Sound(w.threads[i]))
    && VisitedSettled(w)
    && Distinct(w.queued)
    && (forall x :: Conserved(w, x) && StartsCounted(w, x))
    && w.numRunning == Holders(w.threads, None, false)
    && w.dispatched + w.pending == w.queued
  }

  lemma {:induction false} InitHoldsNothing(n: nat)
    ensures forall x, s :: Holders(Init(n).threads, x, s) == 0
  {
    if n > 0 {
      InitHoldsNothing(n - 1);
      assert Init(n).threads[..n - 1] == Init(n - 1).threads;
    }
  }

  lemma InitInv(n: nat)
    ensures Inv(Init(n))
  {
    InitHoldsNothing(n);
  }

  lemma CollectKeepsInv(w: World, i: nat)
    requires Inv(w) && Enabled(w, Collect(i))
    ensures Inv(ApplyCollect(w, i))
  {
    hide Holders, Count;
    var t, next := w.threads[i], ApplyCollect(w, i);
    if t.state.ResultReady? {
      HoldersUpdate(w.threads, i, Emptied(t), None, false);
    }
    forall x
      ensures Conserved(next, x) && StartsCounted(next, x)
    {
      assert Conserved(w, x) && StartsCounted(w, x);
      if t.state.ResultReady? {
        HoldersUpdate(w.threads, i, Emptied(t), Some(x), false);
        HoldersUpdate(w.threads, i, Emptied(t), Some(x), true);
        CountAppend(w.completed, t.task.value, x);
      }
    }
  }

  lemma DispatchKeepsInv(w: World, i: nat)
    requires Inv(w) && Enabled(w, Dispatch(i))
    ensures Inv(ApplyDispatch(w, i))
  {
    hide Holders, Count;
    var t, next := w.threads[i], ApplyDispatch(w, i);
    if t.state.Ready? && w.pending != [] {
      HoldersUpdate(w.threads, i, next.threads[i], None, false);
      assert w.dispatched + w.pending == (w.dispatched + [w.pending[0]]) + w.pending[1..];
    }
    forall x
      ensures Conserved(next, x) && StartsCounted(next, x)
    {
      assert Conserved(w, x) && StartsCounted(w, x);
      if t.state.Ready? && w.pending != [] {
        HoldersUpdate(w.threads, i, next.threads[i], Some(x), false);
        HoldersUpdate(w.threads, i, next.threads[i], Some(x), true);
        CountFirst(w.pending, x);
      }
    }
  }

  lemma ReapKeepsInv(w: World, i: nat)
    requires Inv(w) && Enabled(w, Reap(i))
    ensures Inv(ApplyReap(w, i))
  {
    hide Holders, Count;
    var t, next := w.threads[i], ApplyReap(w, i);
    if t.place.Dead? {
      HoldersUpdate(w.threads, i, next.threads[i], None, false);
    }
    forall x
      ensures Conserved(next, x) && StartsCounted(next, x)
    {
      assert Conserved(w, x) && StartsCounted(w, x);
      if t.place.Dead? {
        HoldersUpdate(w.threads, i, next.threads[i], Some(x), false);
        HoldersUpdate(w.threads, i, next.threads[i], Some(x), true);
        CountAppend(w.completed, t.task.value, x);
      }
    }
  }

  lemma WorkKeepsInv(w: World, i: nat, event: WorkerEvent)
    requires Inv(w) && Enabled(w, Work(i, event))
    ensures Inv(Apply(w, Work(i, event)))
  {
    hide Holders, Count;
    var t, next := w.threads[i], Apply(w, Work(i, event));
    HoldersUpdate(w.threads, i, next.threads[i], None, false);
    forall x
      ensures Conserved(next, x) && StartsCounted(next, x)
    {
      assert Conserved(w, x) && StartsCounted(w, x);
      HoldersUpdate(w.threads, i, next.threads[i], Some(x), false);
      HoldersUpdate(w.threads, i, next.threads[i], Some(x), true);
      if Starts(t, event) {
        CountAppend(w.started, t.task.value, x);
      }
    }
  }

  lemma TakeKeepsInv(w: World)
    requires Inv(w) && Enabled(w, Take)
    ensures Inv(Apply(w, Take))
  {
    hide Holders, Count;
    forall x
      ensures Conserved(Apply(w, Take), x) && StartsCounted(Apply(w, Take), x)
    {
      assert Conserved(w, x) && StartsCounted(w, x);
      if w.completed != [] {
        CountFirst(w.completed, x);
        CountAppend(w.handedOut, w.completed[0], x);
      }
    }
  }

  lemma QueueKeepsInv(w: World, task: Task)
    requires Inv(w) && Enabled(w, Queue(task))
    ensures Inv(Apply(w, Queue(task)))
  {
    hide Holders, Count;
    forall x
      ensures Conserved(Apply(w, Queue(task)), x) && StartsCounted(Apply(w, Queue(task)), x)
    {
      assert Conserved(w, x) && StartsCounted(w, x);
      CountAppend(w.pending, task, x);
      CountAppend(w.queued, task, x);
    }
  }

  lemma InlineKeepsInv(w: World)
    requires Inv(w) && Enabled(w, RunInline)
    ensures Inv(ApplyRunInline(w))
  {
    hide Holders, Count;
    var next := ApplyRunInline(w);
    if w.pending != [] {
      assert w.dispatched + w.pending == (w.dispatched + [w.pending[0]]) + w.pending[1..];
    }
    forall x
      ensures Conserved(next, x) && StartsCounted(next, x)
    {
      assert Conserved(w, x) && StartsCounted(w, x);
      if w.pending != [] {
        CountFirst(w.pending, x);
        CountAppend(w.completed, w.pending[0], x);
        CountAppend(w.started, w.pending[0], x);
      }
    }
  }

  lemma BeginKeepsInv(w: World)
    requires Inv(w) && Enabled(w, BeginUpdate)
    ensures Inv(Apply(w, BeginUpdate))
  {
    hide Holders, Count;
    forall x
      ensures Conserved(Apply(w, BeginUpdate), x) && StartsCounted(Apply(w, BeginUpdate), x)
    {
      assert Conserved(w, x) && StartsCounted(w, x);
    }
  }

  lemma StepKeepsInv(w: World, step: Step)
    requires Inv(w) && Enabled(w, step)
    ensures Inv(Apply(w, step))
  {
    hide Inv, Holders, Count;
    match step
    case Queue(task) => QueueKeepsInv(w, task);
    case Take => TakeKeepsInv(w);
    case BeginUpdate => BeginKeepsInv(w);
    case RunInline => InlineKeepsInv(w);
    case Collect(i) => CollectKeepsInv(w, i);
    case Dispatch(i) => DispatchKeepsInv(w, i);
    case Reap(i) => ReapKeepsInv(w, i);
    case Work(i, event) => WorkKeepsInv(w, i, event);
  }

  lemma {:induction false} RunKeepsInv(w: World, steps: seq<Step>)
    requires Inv(w) && CanRun(w, steps)
    ensures Inv(ApplyAll(w, steps))
  {
    hide Inv;
    if steps != [] {
      RunKeepsInv(w, steps[..|steps| - 1]);
      StepKeepsInv(ApplyAll(w, steps[..|steps| - 1]), steps[|steps| - 1]);
    }
  }

  // ----- what this says of every run

  lemma {:induction false} CountDistinct(s: seq<Task>, x: Task)
    requires Distinct(s)
    ensures Count(s, x) == One(x in s)
  {
    if s != [] {
      CountFirst(s, x);
      CountDistinct(s[1..], x);
      assert s == [s[0]] + s[1..];
    }
  }

  /** Each queued task is in exactly one place, is started at most once, and by the time it is completed exactly
      once. */
  lemma InvConserves(w: World, x: Task)
    requires Inv(w)
    ensures Count(w.pending, x) + Holders(w.threads, Some(x), false) + Count(w.completed, x) + Count(w.handedOut, x)
            == One(x in w.queued)
    ensures Count(w.started, x) <= 1
    ensures x in w.completed || x in w.handedOut ==> Count(w.started, x) == 1
  {
    assert Conserved(w, x) && StartsCounted(w, x);
    CountDistinct(w.queued, x);
    StartedAreHeld(w.threads, Some(x));
  }

  /** In every run each queued task is in exactly one place, is started at most once, and by the time it is
      completed exactly once; the count of running tasks is the number of threads holding one; tasks are
      dispatched in the order they were queued. */
  lemma TasksAreConserved(n: nat, steps: seq<Step>, x: Task)
    requires CanRun(Init(n), steps)
    ensures var w := ApplyAll(Init(n), steps);
            && Count(w.pending, x) + Holders(w.threads, Some(x), false) + Count(w.completed, x) + Count(w.handedOut, x)
               == One(x in w.queued)
            && Count(w.started, x) <= 1
            && (x in w.completed || x in w.handedOut ==> Count(w.started, x) == 1)
            && w.numRunning == Holders(w.threads, None, false)
            && w.dispatched <= w.queued
  {
    InitInv(n);
    RunKeepsInv(Init(n), steps);
    InvConserves(ApplyAll(Init(n), steps), x);
  }

  lemma {:induction false} StartedAreHeld(threads: seq<Thread>, x: Option<Task>)
    ensures Holders(threads, x, true) <= Holders(threads, x, false) <= Holders(threads, None, false)
  {
    if threads != [] {
      StartedAreHeld(threads[..|threads| - 1], x);
    }
  }

  /** getNumTasks */
  function NumTasks(w: World): int {
    |w.pending| + w.numRunning + |w.completed|
  }

  /** Wherever the invariant holds, nothing is left to wait for exactly when every queued task has been handed out. */
  lemma WaitEndsExactlyWhenDone(w: World)
    requires Inv(w)
    ensures NumTasks(w) >= |w.completed|
    ensures NumTasks(w) == 0 <==> forall x :: x in w.queued ==> x in w.handedOut
  {
    if NumTasks(w) == 0 {
      forall x | x in w.queued
        ensures x in w.handedOut
      {
        InvConserves(w, x);
        StartedAreHeld(w.threads, Some(x));
      }
    }
    if forall x :: x in w.queued ==> x in w.handedOut {
      if w.pending != [] {
        InvConserves(w, w.pending[0]);
      }
      if w.completed != [] {
        InvConserves(w, w.completed[0]);
      }
      if w.numRunning > 0 {
        var i := SomeHolder(w.threads);
        InvConserves(w, w.threads[i].task.value);
      }
    }
  }

  lemma {:induction false} SomeHolder(threads: seq<Thread>) returns (i: nat)
    requires Holders(threads, None, false) > 0
    ensures i < |threads| && threads[i].task.Some?
    ensures Holders(threads, threads[i].task, false) > 0
  {
    var n := |threads| - 1;
    if threads[n].task.Some? {
      i := n;
    } else {
      i := SomeHolder(threads[..n]);
    }
  }

  // ----- why workers must have moved on

  /** The world after update() dispatches to thread i and the thread's own start-up, if still to come. */
  function DispatchThenBoot(w: World, i: nat): World
    requires i < |w.threads|
  {
    var next := ApplyDispatch(w, i);
    if w.threads[i].place.Starting? then ApplyWork(next, i, Boot) else next
  }

  /** A dispatch to a ready thread keeps every task somewhere exactly when the thread is settled: a worker not
      yet started clears the task given to it, and one that has not noticed its task has it replaced. */
  lemma DispatchIsSafeExactlyWhenSettled(w: World, i: nat)
    requires i < |w.threads| && w.threads[i].state.Ready? && w.pending != []
    requires forall x :: Conserved(w, x)
    ensures (forall x :: Conserved(DispatchThenBoot(w, i), x)) <==> Settled(w.threads[i])
  {
    hide Holders, Count, Conserved;
    var t, task, last := w.threads[i], w.pending[0], DispatchThenBoot(w, i);
    forall x
      ensures t.place.Starting? ==>
                (Conserved(last, x) <==> !Holds(t, Some(x), false) && x != task)
      ensures !t.place.Starting? ==> (Conserved(last, x) <==> !Holds(t, Some(x), false))
    {
      DispatchedCount(w, i, x);
    }
    if !Settled(t) {
      var lost := if t.task.Some? then t.task.value else task;
      assert !Conserved(last, lost);
    }
  }

  lemma DispatchedCount(w: World, i: nat, x: Task)
    requires i < |w.threads| && w.threads[i].state.Ready? && w.pending != [] && Conserved(w, x)
    ensures var t, last := w.threads[i], DispatchThenBoot(w, i);
            Conserved(last, x) <==> !Holds(t, Some(x), false) && (t.place.Starting? ==> x != w.pending[0])
  {
    hide Holders, Count;
    var next, last := ApplyDispatch(w, i), DispatchThenBoot(w, i);
    HoldersUpdate(w.threads, i, next.threads[i], Some(x), false);
    HoldersUpdate(next.threads, i, last.threads[i], Some(x), false);
    CountFirst(w.pending, x);
    assert last.threads == next.threads[i := last.threads[i]];
  }

  // ----- progress

  /** How far a thread is from being idle. */
  function Weight(t: Thread): nat {
    t.signals + One(t.place.Starting?)
    + (if t.task.None? then 0 else if t.state.Ready? then 7 else if t.place.Executing? then 5 else 3)
  }

  function Weights(threads: seq<Thread>): nat {
    if threads == [] then 0 else Weights(threads[..|threads| - 1]) + Weight(threads[|threads| - 1])
  }

  lemma {:induction false} WeightsUpdate(threads: seq<Thread>, i: nat, t: Thread)
    requires i < |threads|
    ensures Weights(threads[i := t]) + Weight(threads[i]) == Weights(threads) + Weight(t)
  {
    var n := |threads| - 1;
    if i == n {
      assert threads[i := t][..n] == threads[..n];
    } else {
      WeightsUpdate(threads[..n], i, t);
      assert threads[i := t][..n] == threads[..n][i := t];
    }
  }

  /** What is left to do before every queued task is handed out. */
  function Remaining(w: World): nat {
    9 * |w.pending| + Weights(w.threads) + |w.completed|
  }

  /** Whatever the interleaving, a step that is not the queueing of a new task either brings the tasks nearer
      to being handed out or changes nothing but the manager's own position. */
  lemma StepsMakeProgress(w: World, step: Step)
    requires Inv(w) && Enabled(w, step) && !step.Queue?
    ensures var next := Apply(w, step);
            Remaining(next) < Remaining(w) || next.(phase := w.phase) == w
  {
    hide Weights, Holders, Count, Conserved, StartsCounted, Distinct;
    var next := Apply(w, step);
    match step
    case Collect(i) => WeightsUpdate(w.threads, i, next.threads[i]); Untouched(w.threads, i);
    case Dispatch(i) => WeightsUpdate(w.threads, i, next.threads[i]); Untouched(w.threads, i);
    case Reap(i) => WeightsUpdate(w.threads, i, next.threads[i]); Untouched(w.threads, i);
    case Work(i, event) => WeightsUpdate(w.threads, i, next.threads[i]);
    case _ =>
  }

  lemma Untouched(threads: seq<Thread>, i: nat)
    requires i < |threads|
    ensures threads[i := threads[i]] == threads
  {
  }

  /** The step is not the queueing of a task and changes more than the manager's position. */
  predicate Acts(w: World, step: Step) {
    !step.Queue? && Apply(w, step).(phase := w.phase) != w
  }

  /** How many steps of a run do. */
  function Acting(w: World, steps: seq<Step>): nat {
    if steps == [] then 0
    else
      var (before, last) := (steps[..|steps| - 1], steps[|steps| - 1]);
      Acting(w, before) + One(Acts(ApplyAll(w, before), last))
  }

  /** A run has no more steps that act than were left at its start, and nine for each task queued on the way. */
  lemma {:induction false} RunMakesProgress(w: World, steps: seq<Step>)
    requires Inv(w) && CanRun(w, steps)
    ensures var end := ApplyAll(w, steps);
            |end.queued| >= |w.queued|
            && Acting(w, steps) + Remaining(end) <= Remaining(w) + 9 * (|end.queued| - |w.queued|)
  {
    hide Inv, Enabled, Apply, Remaining;
    if steps != [] {
      var (before, last) := (steps[..|steps| - 1], steps[|steps| - 1]);
      var now := ApplyAll(w, before);
      RunMakesProgress(w, before);
      RunKeepsInv(w, before);
      QueueCounts(now, last);
      if !last.Queue? {
        StepsMakeProgress(now, last);
        OnlyPhase(now, Apply(now, last));
      }
    }
  }

  lemma QueueCounts(w: World, step: Step)
    ensures var next := Apply(w, step);
            if step.Queue? then Remaining(next) == Remaining(w) + 9 && |next.queued| == |w.queued| + 1
            else next.queued == w.queued
  {
  }

  lemma OnlyPhase(w: World, next: World)
    ensures next.(phase := w.phase) == w ==> Remaining(next) == Remaining(w)
  {
  }

  /** So from the start on a run with n workers has at most n + 9 * k acting steps when k tasks are queued in it. */
  lemma RunsAct(n: nat, steps: seq<Step>)
    requires CanRun(Init(n), steps)
    ensures Acting(Init(n), steps) <= n + 9 * |ApplyAll(Init(n), steps).queued|
  {
    hide CanRun, ApplyAll, Acting, Inv;
    InitInv(n);
    RunMakesProgress(Init(n), steps);
    StartWeights(n, n);
  }

  lemma {:induction false} StartWeights(n: nat, k: nat)
    requires k <= n
    ensures Weights(Init(n).threads[..k]) == k
    ensures Init(n).threads[..n] == Init(n).threads
  {
    if k > 0 {
      assert Init(n).threads[..k][..k - 1] == Init(n).threads[..k - 1];
      StartWeights(n, k - 1);
    }
  }

  /** The next update has something to do at thread t. */
  predicate UpdateActsOn(t: Thread, pending: seq<Task>) {
    t.state.ResultReady? || t.place.Dead? || (t.state.Ready? && pending != [])
  }

  /** While tasks are left the system is never stuck: a completed task can be taken, a worker can move, or
      all workers have moved on and the next update has something to do. */
  lemma NeverStuck(w: World)
    requires Inv(w) && w.phase.Idle? && NumTasks(w) > 0 && |w.threads| > 0
    ensures || w.completed != []
            || (exists i, event :: 0 <= i < |w.threads| && WorkerEnabled(w.threads[i], event))
            || (Enabled(w, BeginUpdate) && exists i :: 0 <= i < |w.threads| && UpdateActsOn(w.threads[i], w.pending))
  {
    if w.completed == [] && forall i, event :: 0 <= i < |w.threads| ==> !WorkerEnabled(w.threads[i], event) {
      forall i | 0 <= i < |w.threads|
        ensures Settled(w.threads[i])
        ensures w.threads[i].task.Some? || w.pending != [] ==> UpdateActsOn(w.threads[i], w.pending)
      {
        assert Sound(w.threads[i]);
        assert !WorkerEnabled(w.threads[i], Boot) && !WorkerEnabled(w.threads[i], Wake)
               && !WorkerEnabled(w.threads[i], Finish);
      }
      if w.pending == [] {
        var i := SomeHolder(w.threads);
      }
    }
  }
}

/** The classes of TaskManager.cpp. Each method does to the step system's world what the steps it stands for
    do; the workers' own steps are interleaved as a schedule given from outside. */
module TaskManager {
  import opened Basics
  import opened TaskSystem

  class TaskThread {
    var state: State
    var task: Option<Task>
    var place: Place
    var signals: nat

    /** The value of this thread in the step system. */
    function Value(): Thread
      reads this
    {
      Thread(state, task, place, signals)
    }

    constructor ()
      ensures Value() == Thread(Ready, None, Starting, 0)
    {
      state, task, place, signals := Ready, None, Starting, 0;
    }

    method RunTask(next: Task)
      modifies this
      ensures Value() == if old(state).Ready? then old(Value()).(task := Some(next), signals := old(signals) + 1)
                         else old(Value())
    {
      if state.Ready? {
        task := Some(next);
        signals := signals + 1;
      }
    }

    method RemoveTask() returns (result: Option<Task>)
      modifies this
      ensures result == old(task) && Value() == Emptied(old(Value()))
    {
      result := task;
      task := None;
      state := Ready;
    }

    /** One stretch of TaskThread::run, if the thread is where that stretch begins. */
    method Perform(event: WorkerEvent)
      modifies this
      ensures Value() == if WorkerEnabled(old(Value()), event) then WorkerStep(old(Value()), event) else old(Value())
    {
      match event
      case Boot =>
        if place.Starting? {
          task := None;
          state := Ready;
          place := Waiting;
        }
      case Wake =>
        if place.Waiting? && signals > 0 {
          signals := signals - 1;
          if state.Ready? && task.Some? {
            state := Running;
            place := Executing;
          }
        }
      case Finish =>
        if place.Executing? {
          state := ResultReady;
          place := Waiting;
        }
      case Die =>
        if place.Executing? {
          place := Dead;
        }
    }
  }

  /** A thread that is not ready has a task: what keeps the manager from using a null task. */
  predicate Tidy(t: Thread) {
    (t.state.Running? <==> t.place.Executing? || t.place.Dead?) && (!t.state.Ready? ==> t.task.Some?)
  }

  /** What the workers do between two accesses of the manager. */
  type Slot = seq<(nat, WorkerEvent)>

  function WorkSteps(slot: Slot): seq<Step> {
    if slot == [] then [] else WorkSteps(slot[..|slot| - 1]) + [Work(slot[|slot| - 1].0, slot[|slot| - 1].1)]
  }

  function SlotAt(work: seq<Slot>, k: nat): Slot {
    if k < |work| then work[k] else []
  }

  /** The steps of update() for thread i. */
  function VisitSteps(work: seq<Slot>, i: nat): seq<Step> {
    WorkSteps(SlotAt(work, 3 * i)) + [Collect(i)]
    + WorkSteps(SlotAt(work, 3 * i + 1)) + [Dispatch(i)]
    + WorkSteps(SlotAt(work, 3 * i + 2)) + [Reap(i)]
  }

  /** The steps of update() over the first n threads. */
  function UpdateSteps(work: seq<Slot>, n: nat): seq<Step> {
    if n == 0 then [BeginUpdate] else UpdateSteps(work, n - 1) + VisitSteps(work, n - 1)
  }

  function UpdateRun(work: seq<Slot>, n: nat): seq<Step> {
    if n == 0 then [RunInline] else UpdateSteps(work, n)
  }

  lemma {:induction false} ApplyConcat(w: World, a: seq<Step>, b: seq<Step>)
    ensures ApplyAll(w, a + b) == ApplyAll(ApplyAll(w, a), b)
  {
    hide Apply;
    if b == [] {
      assert a + b == a;
    } else {
      ApplyConcat(w, a, b[..|b| - 1]);
      assert (a + b)[..|a + b| - 1] == a + b[..|b| - 1];
    }
  }

  lemma ApplyOne(w: World, step: Step)
    ensures ApplyAll(w, [step]) == Apply(w, step)
  {
    assert [step][..0] == [];
    assert ApplyAll(w, [step][..0]) == w;
  }

  lemma {:induction false} WorkStepsKeepInv(w: World, slot: Slot)
    requires Inv(w)
    ensures var next := ApplyAll(w, WorkSteps(slot));
            Inv(next) && next.phase == w.phase && |next.threads| == |w.threads|
  {
    hide Inv;
    if slot != [] {
      var rest := slot[..|slot| - 1];
      var (i, event) := slot[|slot| - 1];
      WorkStepsKeepInv(w, rest);
      var mid := ApplyAll(w, WorkSteps(rest));
      ApplyConcat(w, WorkSteps(rest), [Work(i, event)]);
      ApplyOne(mid, Work(i, event));
      if Enabled(mid, Work(i, event)) {
        StepKeepsInv(mid, Work(i, event));
      }
    }
  }

  /** The worlds a visit of thread i goes through: before and after each access of the manager. */
  lemma VisitWorlds(w: World, work: seq<Slot>, i: nat) returns (w1: World, w2: World, w3: World, w4: World, w5: World)
    requires Inv(w) && w.phase == CollectAt(i) && i < |w.threads|
    ensures w1 == ApplyAll(w, WorkSteps(SlotAt(work, 3 * i))) && Inv(w1) && Enabled(w1, Collect(i))
    ensures w2 == Apply(w1, Collect(i)) && Inv(w2)
    ensures w3 == ApplyAll(w2, WorkSteps(SlotAt(work, 3 * i + 1))) && Inv(w3) && Enabled(w3, Dispatch(i))
    ensures w4 == Apply(w3, Dispatch(i)) && Inv(w4)
    ensures w5 == ApplyAll(w4, WorkSteps(SlotAt(work, 3 * i + 2))) && Inv(w5) && Enabled(w5, Reap(i))
    ensures ApplyAll(w, VisitSteps(work, i)) == Apply(w5, Reap(i)) && Inv(Apply(w5, Reap(i)))
    ensures |w5.threads| == |w.threads|
  {
    hide Inv, WorkSteps, ApplyAll;
    var s1, s2 := WorkSteps(SlotAt(work, 3 * i)), WorkSteps(SlotAt(work, 3 * i + 1));
    var s3 := WorkSteps(SlotAt(work, 3 * i + 2));
    WorkStepsKeepInv(w, SlotAt(work, 3 * i));
    w1 := ApplyAll(w, s1);
    StepKeepsInv(w1, Collect(i));
    w2 := Apply(w1, Collect(i));
    WorkStepsKeepInv(w2, SlotAt(work, 3 * i + 1));
    w3 := ApplyAll(w2, s2);
    StepKeepsInv(w3, Dispatch(i));
    w4 := Apply(w3, Dispatch(i));
    WorkStepsKeepInv(w4, SlotAt(work, 3 * i + 2));
    w5 := ApplyAll(w4, s3);
    StepKeepsInv(w5, Reap(i));
    ApplyOne(w1, Collect(i)); ApplyOne(w3, Dispatch(i)); ApplyOne(w5, Reap(i));
    ApplyConcat(w, s1, [Collect(i)]);
    ApplyConcat(w, s1 + [Collect(i)], s2);
    ApplyConcat(w, s1 + [Collect(i)] + s2, [Dispatch(i)]);
    ApplyConcat(w, s1 + [Collect(i)] + s2 + [Dispatch(i)], s3);
    ApplyConcat(w, s1 + [Collect(i)] + s2 + [Dispatch(i)] + s3, [Reap(i)]);
  }

  lemma VisitKeepsInv(w: World, work: seq<Slot>, i: nat)
    requires Inv(w) && w.phase == CollectAt(i) && i < |w.threads|
    ensures var next := ApplyAll(w, VisitSteps(work, i));
            && Inv(next) && |next.threads| == |w.threads|
            && next.phase == if i + 1 < |w.threads| then CollectAt(i + 1) else Idle
  {
    hide Inv, WorkSteps, ApplyAll;
    var w1, w2, w3, w4, w5 := VisitWorlds(w, work, i);
  }

  lemma {:induction false} UpdatePrefixKeepsInv(w: World, work: seq<Slot>, k: nat)
    requires Inv(w) && Enabled(w, BeginUpdate) && k <= |w.threads|
    ensures var next := ApplyAll(w, UpdateSteps(work, k));
            && Inv(next) && |next.threads| == |w.threads|
            && next.phase == if k < |w.threads| then CollectAt(k) else Idle
  {
    hide Inv, VisitSteps;
    if k == 0 {
      ApplyOne(w, BeginUpdate);
      StepKeepsInv(w, BeginUpdate);
    } else {
      UpdatePrefixKeepsInv(w, work, k - 1);
      var mid := ApplyAll(w, UpdateSteps(work, k - 1));
      VisitKeepsInv(mid, work, k - 1);
      ApplyConcat(w, UpdateSteps(work, k - 1), VisitSteps(work, k - 1));
    }
  }

  /** The manager is between updates, and every worker has moved on. */
  ghost predicate AtRest(w: World) {
    w.phase.Idle? && forall i :: 0 <= i < |w.threads| ==> Settled(w.threads[i])
  }

  /** A whole update keeps the invariant, whatever the workers do meanwhile, if it begins when every worker has
      moved on. */
  lemma UpdateKeepsInv(w: World, work: seq<Slot>)
    requires Inv(w) && AtRest(w)
    ensures Inv(ApplyAll(w, UpdateRun(work, |w.threads|)))
    ensures ApplyAll(w, UpdateRun(work, |w.threads|)).phase.Idle?
  {
    if |w.threads| == 0 {
      ApplyOne(w, RunInline);
      StepKeepsInv(w, RunInline);
    } else {
      UpdatePrefixKeepsInv(w, work, |w.threads|);
    }
  }

  // ----- what an update gets done

  /** Thread i is done with task x, or died of it, and the next update will take it back. */
  ghost predicate Due(w: World, i: nat, x: Task, died: bool) {
    && i < |w.threads| && w.threads[i].task == Some(x)
    && if died then w.threads[i].state.Running? && w.threads[i].place.Dead? else w.threads[i].state.ResultReady?
  }

  /** What updates and workers do: tasks come nearer to being handed out, or nothing but the manager's position changes;
      none is queued or handed out, and none once completed is lost. */
  ghost predicate Onward(w: World, next: World) {
    && (Remaining(next) < Remaining(w) || next.(phase := w.phase) == w)
    && next.queued == w.queued && next.handedOut == w.handedOut && |next.threads| == |w.threads|
    && w.completed <= next.completed
  }

  lemma OnwardTwice(a: World, b: World, c: World)
    requires Onward(a, b) && Onward(b, c)
    ensures Onward(a, c) && Remaining(c) <= Remaining(b) <= Remaining(a)
  {
    OnlyPhase(a, b);
    OnlyPhase(b, c);
    hide Remaining;
  }

  lemma OnwardOnce(w: World, step: Step)
    requires Inv(w) && Enabled(w, step) && !step.Queue? && !step.Take?
    ensures Onward(w, Apply(w, step))
  {
    hide Inv, Remaining;
    StepsMakeProgress(w, step);
  }

  lemma {:induction false} WorkOnward(w: World, slot: Slot)
    requires Inv(w)
    ensures Onward(w, ApplyAll(w, WorkSteps(slot)))
    ensures forall i, x, died :: Due(w, i, x, died) ==> Due(ApplyAll(w, WorkSteps(slot)), i, x, died)
  {
    hide Inv, Onward, Due;
    if slot == [] {
      OnwardNone(w);
    } else {
      var (rest, (i, event)) := (slot[..|slot| - 1], slot[|slot| - 1]);
      WorkOnward(w, rest);
      WorkStepsKeepInv(w, rest);
      var mid := ApplyAll(w, WorkSteps(rest));
      ApplyConcat(w, WorkSteps(rest), [Work(i, event)]);
      ApplyOne(mid, Work(i, event));
      WorkOnce(mid, i, event);
      OnwardTwice(w, mid, Apply(mid, Work(i, event)));
    }
  }

  lemma OnwardNone(w: World)
    ensures Onward(w, w)
  {
  }

  lemma WorkOnce(w: World, i: nat, event: WorkerEvent)
    requires Inv(w)
    ensures Onward(w, Apply(w, Work(i, event)))
    ensures forall j, x, died :: Due(w, j, x, died) ==> Due(Apply(w, Work(i, event)), j, x, died)
  {
    hide Inv, Remaining, Onward;
    if Enabled(w, Work(i, event)) {
      OnwardOnce(w, Work(i, event));
      SoundAt(w, i);
    } else {
      OnwardNone(w);
    }
  }

  lemma SoundAt(w: World, i: nat)
    requires Inv(w) && i < |w.threads|
    ensures Sound(w.threads[i])
  {
  }

  /** A visit of a thread on which the update has something to do gets something done, whatever the workers do, and
      leaves no task due at that thread. */
  lemma VisitActs(w: World, work: seq<Slot>, i: nat)
    requires Inv(w) && w.phase == CollectAt(i) && i < |w.threads|
    ensures var next := ApplyAll(w, VisitSteps(work, i));
            && Onward(w, next)
            && (UpdateActsOn(w.threads[i], w.pending) ==> Remaining(next) < Remaining(w))
            && (forall x, died :: Due(w, i, x, died) ==> x in next.completed)
            && forall j, x, died :: j != i && Due(w, j, x, died) ==> Due(next, j, x, died)
  {
    hide Inv, WorkSteps, ApplyAll, Onward, VisitSteps, Remaining, Apply, UpdateActsOn, Due;
    var w1, w2, w3, w4, w5 := VisitWorlds(w, work, i);
    var w6 := Apply(w5, Reap(i));
    WorkOnward(w, SlotAt(work, 3 * i));
    OnwardOnce(w1, Collect(i));
    WorkOnward(w2, SlotAt(work, 3 * i + 1));
    OnwardOnce(w3, Dispatch(i));
    WorkOnward(w4, SlotAt(work, 3 * i + 2));
    OnwardOnce(w5, Reap(i));
    OnwardTwice(w, w1, w2);
    OnwardTwice(w, w2, w3);
    OnwardTwice(w, w3, w4);
    OnwardTwice(w, w4, w5);
    OnwardTwice(w, w5, w6);
    OnwardTwice(w2, w3, w4); OnwardTwice(w2, w4, w5); OnwardTwice(w2, w5, w6);
    CollectActs(w1, i);
    DispatchActs(w3, i);
    ReapActs(w5, i);
    forall x, died | Due(w, i, x, died)
      ensures x in w6.completed
    {
      if !died {
        CompletedStays(w2, w6, x);
      }
    }
    if UpdateActsOn(w.threads[i], w.pending) && Remaining(w6) >= Remaining(w) {
      Unmoved(w, w1); Unmoved(w, w2); Unmoved(w, w3); Unmoved(w, w4); Unmoved(w, w5); Unmoved(w, w6);
      ActsSomewhere(w, i);
      assert false;
    }
  }

  lemma CompletedStays(w: World, next: World, x: Task)
    requires Onward(w, next) && x in w.completed
    ensures x in next.completed
  {
  }

  /** Where nothing has come nearer the worlds differ in the manager's position only. */
  lemma Unmoved(w: World, next: World)
    requires Onward(w, next) && Remaining(next) >= Remaining(w)
    ensures next.threads == w.threads && next.pending == w.pending
  {
  }

  lemma ActsSomewhere(w: World, i: nat)
    requires Inv(w) && i < |w.threads| && UpdateActsOn(w.threads[i], w.pending)
    ensures var t := w.threads[i];
            (t.state.ResultReady? && t.task.Some?) || (t.state.Ready? && w.pending != [])
            || (t.state.Running? && t.place.Dead? && t.task.Some?)
  {
    assert Sound(w.threads[i]);
  }

  /** Collecting a result moves the task to the completed ones. */
  lemma CollectActs(w: World, i: nat)
    requires Inv(w) && Enabled(w, Collect(i))
    ensures var next := Apply(w, Collect(i));
            && (w.threads[i].state.ResultReady? && w.threads[i].task.Some? ==> next.threads != w.threads)
            && (forall x :: Due(w, i, x, false) ==> x in next.completed)
            && forall j, x, died :: (j != i || died) && Due(w, j, x, died) ==> Due(next, j, x, died)
  {
    hide Inv, Remaining;
    var next := Apply(w, Collect(i));
    if w.threads[i].state.ResultReady? && w.threads[i].task.Some? {
      assert next.threads[i].task.None?;
    }
  }

  lemma DispatchActs(w: World, i: nat)
    requires Inv(w) && Enabled(w, Dispatch(i))
    ensures var next := Apply(w, Dispatch(i));
            && (w.threads[i].state.Ready? && w.pending != [] ==> next.pending != w.pending)
            && forall j, x, died :: Due(w, j, x, died) ==> Due(next, j, x, died)
  {
    hide Inv, Remaining;
  }

  lemma ReapActs(w: World, i: nat)
    requires Inv(w) && Enabled(w, Reap(i))
    ensures var next := Apply(w, Reap(i));
            && (w.threads[i].state.Running? && w.threads[i].place.Dead? && w.threads[i].task.Some? ==>
                  next.threads != w.threads)
            && (forall x :: Due(w, i, x, true) ==> x in next.completed)
            && forall j, x, died :: j != i && Due(w, j, x, died) ==> Due(next, j, x, died)
  {
    hide Inv, Remaining;
    var next := Apply(w, Reap(i));
    if w.threads[i].state.Running? && w.threads[i].place.Dead? && w.threads[i].task.Some? {
      assert next.threads[i].task.None?;
    }
  }

  /** Every task that one of the first k threads was done with is completed; those of the others are still due. */
  ghost predicate TakenBack(w: World, next: World, k: nat) {
    && (forall i: nat, x, died :: i < k && Due(w, i, x, died) ==> x in next.completed)
    && forall i: nat, x, died :: i >= k && Due(w, i, x, died) ==> Due(next, i, x, died)
  }

  lemma TakenBackNext(w: World, mid: World, next: World, k: nat)
    requires TakenBack(w, mid, k) && Onward(mid, next)
    requires forall x, died :: Due(mid, k, x, died) ==> x in next.completed
    requires forall j, x, died :: j != k && Due(mid, j, x, died) ==> Due(next, j, x, died)
    ensures TakenBack(w, next, k + 1)
  {
    hide Onward, Due;
    forall i: nat, x, died | i < k + 1 && Due(w, i, x, died)
      ensures x in next.completed
    {
      if i < k {
        CompletedStays(mid, next, x);
      }
    }
  }

  ghost predicate ActsBefore(w: World, k: nat) {
    exists i: nat :: i < k && i < |w.threads| && UpdateActsOn(w.threads[i], w.pending)
  }

  lemma {:induction false} UpdatePrefixActs(w: World, work: seq<Slot>, k: nat)
    requires Inv(w) && Enabled(w, BeginUpdate) && k <= |w.threads|
    ensures var next := ApplyAll(w, UpdateSteps(work, k));
            Onward(w, next) && TakenBack(w, next, k) && (ActsBefore(w, k) ==> Remaining(next) < Remaining(w))
  {
    hide Inv, VisitSteps, Onward, Remaining, UpdateActsOn, Due, TakenBack, ApplyAll, Enabled;
    if k == 0 {
      ApplyOne(w, BeginUpdate);
      Begun(w);
    } else {
      UpdatePrefixActs(w, work, k - 1);
      UpdatePrefixKeepsInv(w, work, k - 1);
      var mid := ApplyAll(w, UpdateSteps(work, k - 1));
      var next := ApplyAll(mid, VisitSteps(work, k - 1));
      ApplyConcat(w, UpdateSteps(work, k - 1), VisitSteps(work, k - 1));
      VisitActs(mid, work, k - 1);
      OnwardTwice(w, mid, next);
      TakenBackNext(w, mid, next, k - 1);
      if Remaining(mid) >= Remaining(w) {
        Unmoved(w, mid);
      }
    }
  }

  lemma Begun(w: World)
    requires Inv(w) && Enabled(w, BeginUpdate)
    ensures Onward(w, Apply(w, BeginUpdate)) && TakenBack(w, Apply(w, BeginUpdate), 0)
  {
    hide Inv, Remaining;
    OnwardOnce(w, BeginUpdate);
  }

  /** An update that has something to do at some thread gets something done, whatever the workers do meanwhile, and
      takes back every task that a thread was done with, or died of, when it began. */
  lemma UpdateActs(w: World, work: seq<Slot>)
    requires Inv(w) && Enabled(w, BeginUpdate)
    ensures var next := ApplyAll(w, UpdateRun(work, |w.threads|));
            && Onward(w, next)
            && ((exists i :: 0 <= i < |w.threads| && UpdateActsOn(w.threads[i], w.pending)) ==>
                  Remaining(next) < Remaining(w))
            && forall i: nat, x, died :: Due(w, i, x, died) ==> x in next.completed
  {
    hide Inv, Onward, Remaining, UpdateActsOn, ApplyAll, UpdateSteps;
    UpdatePrefixActs(w, work, |w.threads|);
  }

  // ----- workers that get their turns

  /** Each of n workers gets a turn at starting, at waking up, and at ending the task it is in. Events that find a
      worker elsewhere do nothing. */
  ghost predicate EachTurn(slot: Slot, n: nat) {
    forall i: nat :: i < n ==> (i, Boot) in slot && (i, Wake) in slot && ((i, Finish) in slot || (i, Die) in slot)
  }

  lemma {:induction false} WorkerSettles(w: World, slot: Slot, i: nat)
    requires Inv(w) && i < |w.threads|
    ensures var next := ApplyAll(w, WorkSteps(slot));
            && |next.threads| == |w.threads| && Sound(next.threads[i])
            && (next.threads[i].place.Starting? ==> (i, Boot) !in slot)
            && (next.threads[i].state.Ready? && next.threads[i].task.Some? ==> (i, Wake) !in slot)
  {
    hide Inv, Sound, Apply;
    SoundAt(w, i);
    if slot != [] {
      var (rest, (j, event)) := (slot[..|slot| - 1], slot[|slot| - 1]);
      WorkerSettles(w, rest, i);
      ApplyConcat(w, WorkSteps(rest), [Work(j, event)]);
      ApplyOne(ApplyAll(w, WorkSteps(rest)), Work(j, event));
      TurnTaken(ApplyAll(w, WorkSteps(rest)), j, event, i);
      assert slot == rest + [(j, event)];
    }
  }

  lemma TurnTaken(w: World, j: nat, event: WorkerEvent, i: nat)
    requires i < |w.threads| && Sound(w.threads[i])
    ensures var (t, next) := (w.threads[i], Apply(w, Work(j, event)));
            && |next.threads| == |w.threads| && Sound(next.threads[i])
            && (next.threads[i].place.Starting? ==> t.place.Starting? && (j, event) != (i, Boot))
            && (next.threads[i].state.Ready? && next.threads[i].task.Some? ==>
                  t.state.Ready? && t.task.Some? && (j, event) != (i, Wake))
  {
  }

  lemma {:induction false} SomeoneMoves(w: World, slot: Slot)
    requires Inv(w)
    ensures var next := ApplyAll(w, WorkSteps(slot));
            || Remaining(next) < Remaining(w)
            || (next == w && forall i, event :: (i, event) in slot && i < |w.threads| ==>
                                                !WorkerEnabled(w.threads[i], event))
  {
    hide Inv, Remaining, Onward;
    if slot != [] {
      var (rest, (j, event)) := (slot[..|slot| - 1], slot[|slot| - 1]);
      SomeoneMoves(w, rest);
      var mid := ApplyAll(w, WorkSteps(rest));
      ApplyConcat(w, WorkSteps(rest), [Work(j, event)]);
      ApplyOne(mid, Work(j, event));
      WorkStepsKeepInv(w, rest);
      WorkOnward(w, rest);
      WorkOnce(mid, j, event);
      OnwardTwice(w, mid, Apply(mid, Work(j, event)));
      assert slot == rest + [(j, event)];
      if mid == w && j < |w.threads| && WorkerEnabled(w.threads[j], event) {
        Moves(w, j, event);
      }
    }
  }

  lemma Moves(w: World, i: nat, event: WorkerEvent)
    requires Inv(w) && Enabled(w, Work(i, event))
    ensures Remaining(Apply(w, Work(i, event))) < Remaining(w)
  {
    hide Inv, Remaining;
    OnwardOnce(w, Work(i, event));
    var next := Apply(w, Work(i, event));
    assert next.threads[i] != w.threads[i];
  }

  /** Given their turns all workers move on, and if any could move the tasks come nearer. */
  lemma WorkersMove(w: World, slot: Slot)
    requires Inv(w) && w.phase.Idle? && EachTurn(slot, |w.threads|)
    ensures var next := ApplyAll(w, WorkSteps(slot));
            && Inv(next) && AtRest(next) && Onward(w, next) && (Remaining(next) < Remaining(w) || next == w)
            && ((exists i, event :: 0 <= i < |w.threads| && WorkerEnabled(w.threads[i], event)) ==>
                  Remaining(next) < Remaining(w))
  {
    hide Inv, Remaining, Onward;
    var next := ApplyAll(w, WorkSteps(slot));
    WorkStepsKeepInv(w, slot);
    WorkOnward(w, slot);
    SomeoneMoves(w, slot);
    forall i: nat | i < |next.threads|
      ensures Settled(next.threads[i])
    {
      WorkerSettles(w, slot, i);
    }
    if i: nat, event :| i < |w.threads| && WorkerEnabled(w.threads[i], event) {
      assert WorkerEnabled(w.threads[i], Finish) == WorkerEnabled(w.threads[i], Die);
      assert (i, Boot) in slot && (i, Wake) in slot && ((i, Finish) in slot || (i, Die) in slot);
    }
  }

  /** What wait() comes to: an update and, if that completes nothing and there is more to come, what the workers do
      while it blocks and another update. */
  ghost function AfterWait(w: World, work: seq<Slot>, blocked: Slot, moreWork: seq<Slot>): World {
    var updated := ApplyAll(w, UpdateRun(work, |w.threads|));
    if updated.completed == [] && NumTasks(updated) != 0 && |w.threads| > 0 then
      ApplyAll(ApplyAll(updated, WorkSteps(blocked)), UpdateRun(moreWork, |w.threads|))
    else updated
  }

  /** A turn of the loop that waits: what the workers do before, inside the first update, while it blocks, and inside
      the second update. */
  datatype Round = Round(before: Slot, work: seq<Slot>, blocked: Slot, moreWork: seq<Slot>)

  ghost predicate Fair(r: Round, n: nat) {
    EachTurn(r.before, n) && EachTurn(r.blocked, n)
  }

  ghost function AfterRound(w: World, r: Round): World {
    AfterWait(ApplyAll(w, WorkSteps(r.before)), r.work, r.blocked, r.moreWork)
  }

  lemma WaitActs(w: World, work: seq<Slot>, blocked: Slot, moreWork: seq<Slot>)
    requires Inv(w) && AtRest(w) && |w.threads| > 0 && EachTurn(blocked, |w.threads|)
    ensures var next := AfterWait(w, work, blocked, moreWork);
            && Inv(next) && next.phase.Idle? && Onward(w, next)
            && ((exists i :: 0 <= i < |w.threads| && UpdateActsOn(w.threads[i], w.pending)) ==>
                  Remaining(next) < Remaining(w))
  {
    hide Inv, Remaining, Onward, UpdateActsOn, UpdateRun, ApplyAll, Due, WorkSteps;
    var updated := ApplyAll(w, UpdateRun(work, |w.threads|));
    UpdateActs(w, work);
    UpdateKeepsInv(w, work);
    SameThreads(w, updated);
    if updated.completed == [] && NumTasks(updated) != 0 {
      WorkersMove(updated, blocked);
      var woken := ApplyAll(updated, WorkSteps(blocked));
      SameThreads(updated, woken);
      UpdateActs(woken, moreWork);
      UpdateKeepsInv(woken, moreWork);
      OnwardTwice(w, updated, woken);
      OnwardTwice(w, woken, ApplyAll(woken, UpdateRun(moreWork, |w.threads|)));
    }
  }

  lemma SameThreads(w: World, next: World)
    requires Onward(w, next)
    ensures |next.threads| == |w.threads|
  {
  }

  /** With tasks left and none completed a fair turn brings them nearer. */
  lemma RoundActs(w: World, r: Round)
    requires Inv(w) && w.phase.Idle? && |w.threads| > 0 && Fair(r, |w.threads|)
    ensures var (rested, next) := (ApplyAll(w, WorkSteps(r.before)), AfterRound(w, r));
            && Inv(rested) && AtRest(rested) && |rested.threads| == |w.threads|
            && Inv(next) && next.phase.Idle? && Onward(w, next) && Remaining(next) <= Remaining(w)
            && (w.completed == [] && NumTasks(w) > 0 ==> Remaining(next) < Remaining(w))
  {
    hide Inv, Remaining, Onward, UpdateActsOn, ApplyAll, WorkSteps, AfterWait, EachTurn;
    var (rested, next) := (ApplyAll(w, WorkSteps(r.before)), AfterRound(w, r));
    WorkersMove(w, r.before);
    SameThreads(w, rested);
    WaitActs(rested, r.work, r.blocked, r.moreWork);
    OnwardTwice(w, rested, next);
    if w.completed == [] && NumTasks(w) > 0 && rested == w {
      NeverStuck(w);
    }
  }

  /** Between the updates of a turn nothing is queued or handed out, so there is more to come after it just when
      there was after its first update. */
  lemma LeftOver(w: World, r: Round)
    requires Inv(w) && w.phase.Idle? && |w.threads| > 0 && Fair(r, |w.threads|)
    ensures var (rested, next) := (ApplyAll(w, WorkSteps(r.before)), AfterRound(w, r));
            var updated := ApplyAll(rested, UpdateRun(r.work, |w.threads|));
            && (NumTasks(next) != 0 <==> updated.completed != [] || NumTasks(updated) != 0)
            && next.queued == w.queued
  {
    hide Inv, Remaining, Onward, ApplyAll, WorkSteps, UpdateRun, Due, UpdateActsOn, AtRest;
    RoundActs(w, r);
    var (rested, next) := (ApplyAll(w, WorkSteps(r.before)), AfterRound(w, r));
    var updated := ApplyAll(rested, UpdateRun(r.work, |w.threads|));
    UpdateKeepsInv(rested, r.work);
    RestEnables(rested);
    UpdateActs(rested, r.work);
    WorkOnward(w, r.before);
    SameHistory(w, rested); SameHistory(rested, updated); SameHistory(w, next);
    WaitEndsExactlyWhenDone(updated);
    WaitEndsExactlyWhenDone(next);
  }

  lemma RestEnables(w: World)
    requires AtRest(w) && |w.threads| > 0
    ensures Enabled(w, BeginUpdate)
  {
  }

  lemma SameHistory(w: World, next: World)
    requires Onward(w, next)
    ensures next.queued == w.queued && next.handedOut == w.handedOut
  {
  }

  lemma TakeActs(w: World)
    requires Inv(w) && w.phase.Idle?
    ensures var next := Apply(w, Take);
            && Inv(next) && next.phase.Idle? && next.queued == w.queued && |next.threads| == |w.threads|
            && (if w.completed != [] then Remaining(next) < Remaining(w) else next == w)
  {
    hide Inv;
    StepKeepsInv(w, Take);
  }

  /** With nothing left to do each task queued was started once and handed out once. */
  lemma AllDone(w: World)
    requires Inv(w) && NumTasks(w) == 0
    ensures w.pending == [] && w.completed == []
    ensures multiset(w.handedOut) == multiset(w.queued) && multiset(w.started) == multiset(w.queued)
  {
    StartedAreHeld(w.threads, None);
    forall x
      ensures Count(w.handedOut, x) == Count(w.queued, x) && Count(w.started, x) == Count(w.queued, x)
    {
      assert Conserved(w, x) && StartsCounted(w, x);
      StartedAreHeld(w.threads, Some(x));
      CountNone(x);
    }
    forall x
      ensures multiset(w.handedOut)[x] == multiset(w.queued)[x] == multiset(w.started)[x]
    {
      assert Count(w.handedOut, x) == Count(w.queued, x) && Count(w.started, x) == Count(w.queued, x);
    }
  }

  lemma NoneDue(w: World)
    ensures forall i: nat, x, died :: Due(w, i, x, died) ==> |w.threads| > 0
  {
  }

  class TaskManager {
    const threads: seq<TaskThread>
    var pendingTasks: seq<Task>
    var completedTasks: seq<Task>
    var numRunningTasks: int
    ghost var phase: Phase
    ghost var queued: seq<Task>
    ghost var dispatched: seq<Task>
    ghost var started: seq<Task>
    ghost var handedOut: seq<Task>

    ghost predicate Valid()
      reads this, threads
    {
      && (forall i, j :: 0 <= i < j < |threads| ==> threads[i] != threads[j])
      && (forall i :: 0 <= i < |threads| ==> Tidy(threads[i].Value()))
    }

    ghost function Values(): seq<Thread>
      reads threads
    {
      seq(|threads|, i requires 0 <= i < |threads| reads threads => threads[i].Value())
    }

    /** The state of the step system this object and its threads are in. */
    ghost function Current(): World
      reads this, threads
    {
      World(Values(), pendingTasks, completedTasks, numRunningTasks, phase, queued, dispatched, started, handedOut)
    }

    constructor (maxRunningTasks: int)
      ensures Valid() && fresh(threads)
      ensures Current() == Init(if maxRunningTasks > 0 then maxRunningTasks else 0)
    {
      var list: seq<TaskThread> := [];
      var n := if maxRunningTasks > 0 then maxRunningTasks else 0;
      for k := 0 to n
        invariant |list| == k
        invariant forall i :: 0 <= i < k ==> fresh(list[i]) && list[i].Value() == Thread(Ready, None, Starting, 0)
        invariant forall i, j :: 0 <= i < j < k ==> list[i] != list[j]
      {
        var thread := new TaskThread();
        list := list + [thread];
      }
      threads, pendingTasks, completedTasks, numRunningTasks := list, [], [], 0;
      phase, queued, dispatched, started, handedOut := Idle, [], [], [], [];
    }

    method QueueTask(task: Task)
      requires Valid()
      modifies this
      ensures Valid()
      ensures Current() == Apply(old(Current()), Queue(task))
    {
      pendingTasks := pendingTasks + [task];
      queued := queued + [task];
    }

    method GetNumTasks() returns (n: int)
      ensures n == NumTasks(Current())
    {
      n := |pendingTasks| + numRunningTasks + |completedTasks|;
    }

    method GetNextCompletedTask() returns (result: Option<Task>)
      requires Valid()
      modifies this
      ensures Valid()
      ensures Current() == Apply(old(Current()), Take)
      ensures result == if old(completedTasks) == [] then None else Some(old(completedTasks)[0])
    {
      result := None;
      if |completedTasks| > 0 {
        result := Some(completedTasks[0]);
        handedOut := handedOut + [completedTasks[0]];
        completedTasks := completedTasks[1..];
      }
    }

    method Work(i: nat, event: WorkerEvent)
      requires Valid()
      modifies this`started, threads
      ensures Valid()
      ensures Current() == Apply(old(Current()), Step.Work(i, event))
    {
      if i < |threads| {
        ghost var w, was := Current(), threads[i].Value();
        threads[i].Perform(event);
        if WorkerEnabled(was, event) && Starts(was, event) {
          started := started + [was.task.value];
        }
        assert Values() == w.threads[i := threads[i].Value()];
      }
    }

    /** The workers run for a while. */
    method Interleave(slot: Slot)
      requires Valid()
      modifies this`started, threads
      ensures Valid()
      ensures Current() == ApplyAll(old(Current()), WorkSteps(slot))
    {
      hide Apply;
      for k := 0 to |slot|
        invariant Valid() && Current() == ApplyAll(old(Current()), WorkSteps(slot[..k]))
      {
        assert slot[..k + 1][..k] == slot[..k];
        var (i, event) := slot[k];
        ApplyConcat(old(Current()), WorkSteps(slot[..k]), [Step.Work(i, event)]);
        ApplyOne(Current(), Step.Work(i, event));
        Work(i, event);
      }
      assert slot[..|slot|] == slot;
    }

    /** A finished task is taken off its thread. */
    method CollectFrom(i: nat)
      requires Valid() && i < |threads|
      modifies this, threads[i]
      ensures Valid()
      ensures Current() == Apply(old(Current()), Collect(i))
      ensures old(threads[i].state).ResultReady? ==>
                && completedTasks == old(completedTasks) + [old(threads[i].task).value]
                && threads[i].state.Ready? && threads[i].task.None?
    {
      ghost var w := Current();
      if threads[i].state.ResultReady? {
        var task := threads[i].RemoveTask();
        completedTasks := completedTasks + [task.value];
        numRunningTasks := numRunningTasks - 1;
      }
      phase := DispatchAt(i);
      assert Values() == w.threads[i := threads[i].Value()];
    }

    /** The next pending task goes to a ready thread. */
    method DispatchTo(i: nat)
      requires Valid() && i < |threads|
      modifies this, threads[i]
      ensures Valid()
      ensures Current() == Apply(old(Current()), Dispatch(i))
      ensures old(threads[i].state).Ready? && |old(pendingTasks)| > 0 ==>
                && threads[i].task == Some(old(pendingTasks)[0]) && pendingTasks == old(pendingTasks)[1..]
                && threads[i].signals > 0
    {
      ghost var w := Current();
      if threads[i].state.Ready? && |pendingTasks| > 0 {
        var task := pendingTasks[0];
        pendingTasks := pendingTasks[1..];
        numRunningTasks := numRunningTasks + 1;
        threads[i].RunTask(task);
        dispatched := dispatched + [task];
      }
      phase := ReapAt(i);
      assert Values() == w.threads[i := threads[i].Value()];
    }

    /** A thread that died with its task is restarted. */
    method ReapThread(i: nat)
      requires Valid() && i < |threads|
      modifies this, threads[i]
      ensures Valid()
      ensures Current() == Apply(old(Current()), Reap(i))
      ensures old(threads[i].state).Running? && old(threads[i].place).Dead? ==>
                && completedTasks == old(completedTasks) + [old(threads[i].task).value]
                && threads[i].task.None? && threads[i].place.Starting?
    {
      ghost var w := Current();
      if threads[i].state.Running? && threads[i].place.Dead? {
        var deadTask := threads[i].RemoveTask();
        completedTasks := completedTasks + [deadTask.value];
        numRunningTasks := numRunningTasks - 1;
        threads[i].place := Starting;
      }
      phase := if i + 1 < |threads| then CollectAt(i + 1) else Idle;
      assert Values() == w.threads[i := threads[i].Value()];
    }

    /** What update() does for one thread. */
    method VisitThread(work: seq<Slot>, i: nat)
      requires Valid() && i < |threads|
      modifies this, threads
      ensures Valid()
      ensures Current() == ApplyAll(old(Current()), VisitSteps(work, i))
    {
      hide Apply, WorkSteps, Tidy;
      ghost var w := Current();
      Interleave(SlotAt(work, 3 * i));
      ghost var s1 := WorkSteps(SlotAt(work, 3 * i));
      ApplyOne(Current(), Collect(i));
      ApplyConcat(w, s1, [Collect(i)]);
      CollectFrom(i);
      ghost var s2 := WorkSteps(SlotAt(work, 3 * i + 1));
      ApplyConcat(w, s1 + [Collect(i)], s2);
      Interleave(SlotAt(work, 3 * i + 1));
      ApplyOne(Current(), Dispatch(i));
      ApplyConcat(w, s1 + [Collect(i)] + s2, [Dispatch(i)]);
      DispatchTo(i);
      ghost var s3 := WorkSteps(SlotAt(work, 3 * i + 2));
      ApplyConcat(w, s1 + [Collect(i)] + s2 + [Dispatch(i)], s3);
      Interleave(SlotAt(work, 3 * i + 2));
      ApplyOne(Current(), Reap(i));
      ApplyConcat(w, s1 + [Collect(i)] + s2 + [Dispatch(i)] + s3, [Reap(i)]);
      ReapThread(i);
    }

    /** Single-threaded mode: the manager runs the next task itself. */
    method RunNext()
      requires Valid()
      modifies this
      ensures Valid()
      ensures Current() == Apply(old(Current()), RunInline)
    {
      if |pendingTasks| > 0 {
        var task := pendingTasks[0];
        pendingTasks := pendingTasks[1..];
        dispatched, started := dispatched + [task], started + [task];
        completedTasks := completedTasks + [task];
      }
    }

    method BeginVisits()
      requires Valid()
      modifies this`phase
      ensures Valid()
      ensures Current() == Apply(old(Current()), BeginUpdate)
    {
      phase := CollectAt(0);
    }

    /** One update, with the workers interleaved at each access to a thread. One that begins when every worker has moved
        on takes back each task that a worker is done with. */
    method Update(work: seq<Slot>)
      requires Valid()
      modifies this, threads
      ensures Valid()
      ensures Current() == ApplyAll(old(Current()), UpdateRun(work, |threads|))
      ensures Inv(old(Current())) && AtRest(old(Current())) ==>
                forall i: nat, x, died :: Due(old(Current()), i, x, died) ==> x in completedTasks
    {
      hide Apply, VisitSteps, Tidy, Inv, Due, AtRest;
      ghost var w := Current();
      if |threads| > 0 && Inv(w) && AtRest(w) {
        RestEnables(w);
        UpdateActs(w, work);
      }
      NoneDue(w);
      if |threads| > 0 {
        ApplyOne(w, BeginUpdate);
        BeginVisits();
        for i := 0 to |threads|
          invariant Valid() && Current() == ApplyAll(w, UpdateSteps(work, i))
        {
          ApplyConcat(w, UpdateSteps(work, i), VisitSteps(work, i));
          VisitThread(work, i);
        }
      } else {
        ApplyOne(w, RunInline);
        RunNext();
      }
    }

    method HasMoreTasks() returns (more: bool)
      ensures more == (NumTasks(Current()) != 0)
    {
      var n := GetNumTasks();
      more := n != 0;
    }

    /** Blocking is a while in which the workers run; wait() tells whether to keep calling it. Called when every
        worker has moved on, it answers false exactly when, after its first update, every queued task has been handed
        out. */
    method Wait(work: seq<Slot>, blocked: Slot, moreWork: seq<Slot>) returns (more: bool)
      requires Valid()
      modifies this, threads
      ensures Valid()
      ensures Current() == AfterWait(old(Current()), work, blocked, moreWork)
      ensures var updated := ApplyAll(old(Current()), UpdateRun(work, |threads|));
              && more == (updated.completed != [] || NumTasks(updated) != 0)
              && (Inv(old(Current())) && AtRest(old(Current())) ==>
                    && Inv(updated) && (AtRest(ApplyAll(updated, WorkSteps(blocked))) ==> Inv(Current()))
                    && (more <==> exists x :: x in updated.queued && x !in updated.handedOut))
      ensures Inv(old(Current())) && AtRest(old(Current())) && !more ==> forall x :: x in queued ==> x in handedOut
    {
      hide ApplyAll, UpdateRun, Tidy, Inv, WorkSteps;
      Update(work);
      ghost var updated := Current();
      if Inv(old(Current())) && AtRest(old(Current())) {
        UpdateKeepsInv(old(Current()), work);
        WaitEndsExactlyWhenDone(updated);
        WorkStepsKeepInv(updated, blocked);
        if AtRest(ApplyAll(updated, WorkSteps(blocked))) {
          UpdateKeepsInv(ApplyAll(updated, WorkSteps(blocked)), moreWork);
        }
      }
      if |completedTasks| > 0 {
        return true;
      }
      more := HasMoreTasks();
      if !more {
        return false;
      }
      if |threads| > 0 {
        Interleave(blocked);
        Update(moreWork);
      }
      return true;
    }

    /** The same with worker threads: as long as wait() says so, take a completed task. If in every turn of the loop
        each worker gets its turns while the manager waits and before it updates again, the loop ends, with every
        task queued run once and handed out once. */
    method RunAll(rounds: nat -> Round)
      requires Valid() && |threads| > 0 && Inv(Current()) && phase.Idle?
      requires forall k: nat :: Fair(rounds(k), |threads|)
      modifies this, threads
      ensures Valid() && Inv(Current()) && queued == old(queued)
      ensures pendingTasks == [] && completedTasks == []
      ensures multiset(handedOut) == multiset(queued) && multiset(started) == multiset(queued)
    {
      hide ApplyAll, UpdateRun, Tidy, Inv, WorkSteps, Fair, AfterWait, Remaining, AtRest;
      ghost var w := Current();
      var k := 0;
      var more := Turn(rounds(0));
      while more
        invariant Valid() && Inv(Current()) && phase.Idle? && queued == old(queued)
        invariant more == (NumTasks(Current()) != 0)
        decreases Remaining(Current())
      {
        ghost var now := Current();
        TakeActs(now);
        WaitEndsExactlyWhenDone(now);
        var task := GetNextCompletedTask();
        k := k + 1;
        more := Turn(rounds(k));
      }
      AllDone(Current());
    }

    /** One turn of that loop: the workers run, and the manager waits. */
    method Turn(r: Round) returns (more: bool)
      requires Valid() && |threads| > 0 && Inv(Current()) && phase.Idle? && Fair(r, |threads|)
      modifies this, threads
      ensures Valid() && Inv(Current()) && phase.Idle? && queued == old(queued)
      ensures Current() == AfterRound(old(Current()), r) && more == (NumTasks(Current()) != 0)
      ensures Remaining(Current()) <= Remaining(old(Current()))
      ensures old(completedTasks) == [] && NumTasks(old(Current())) > 0 ==>
                Remaining(Current()) < Remaining(old(Current()))
    {
      hide ApplyAll, UpdateRun, Tidy, Inv, WorkSteps, Fair, AfterWait, Remaining, AtRest;
      ghost var w := Current();
      RoundActs(w, r);
      Interleave(r.before);
      more := Wait(r.work, r.blocked, r.moreWork);
      LeftOver(w, r);
    }

    /** The documented way to use a manager, in single-threaded mode: wait, then take one completed task. It
        ends, with every task run, and handed out, in the order they were queued. */
    method RunAllSingleThreaded()
      requires Valid() && |threads| == 0 && numRunningTasks == 0
      modifies this
      ensures Valid() && pendingTasks == [] && completedTasks == []
      ensures started == old(started + pendingTasks)
      ensures handedOut == old(handedOut + completedTasks + pendingTasks)
    {
      hide ApplyAll, UpdateRun, Tidy, RunOrder, HandOutOrder, Apply;
      ghost var w0 := Current();
      var more := Wait([], [], []);
      InlineEffect(w0);
      while more
        invariant Valid() && numRunningTasks == 0
        invariant RunOrder(Current()) == RunOrder(w0) && HandOutOrder(Current()) == HandOutOrder(w0)
        invariant more == (completedTasks != [] || pendingTasks != [])
        invariant pendingTasks != [] ==> completedTasks != []
        decreases |pendingTasks| + |completedTasks|
      {
        TakeEffect(Current());
        var task := GetNextCompletedTask();
        InlineEffect(Current());
        more := Wait([], [], []);
      }
      OrdersWhenDone(w0, Current());
    }
  }

  /** The order in which tasks have been and will be started, in single-threaded mode. */
  function RunOrder(w: World): seq<Task> {
    w.started + w.pending
  }

  function HandOutOrder(w: World): seq<Task> {
    w.handedOut + w.completed + w.pending
  }

  lemma InlineEffect(w: World)
    ensures var next := ApplyAll(w, UpdateRun([], 0));
            && RunOrder(next) == RunOrder(w) && HandOutOrder(next) == HandOutOrder(w)
            && |next.pending| + |next.completed| == |w.pending| + |w.completed|
            && (next.pending != [] ==> next.completed != []) && next.numRunning == w.numRunning
  {
    ApplyOne(w, RunInline);
    if w.pending != [] {
      assert w.pending == [w.pending[0]] + w.pending[1..];
    }
  }

  lemma TakeEffect(w: World)
    ensures var next := Apply(w, Take);
            && RunOrder(next) == RunOrder(w) && HandOutOrder(next) == HandOutOrder(w)
            && next.pending == w.pending && next.numRunning == w.numRunning
            && (w.completed != [] ==> |next.completed| == |w.completed| - 1)
  {
    if w.completed != [] {
      assert w.completed == [w.completed[0]] + w.completed[1..];
    }
  }

  lemma OrdersWhenDone(w0: World, w: World)
    requires RunOrder(w) == RunOrder(w0) && HandOutOrder(w) == HandOutOrder(w0)
    requires w.pending == [] && w.completed == []
    ensures w.started == w0.started + w0.pending && w.handedOut == w0.handedOut + w0.completed + w0.pending
  {
  }
}
