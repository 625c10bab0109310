/** The asynchronous character-load lane as a transition system.

    Every action is one critical section under the lane's mutex, or one piece of
    code that runs outside it.  The game thread and the worker thread interleave
    at that grain, so a run is any sequence of enabled actions. */
module LaneProtocol {

  /** A job's context pointer; 0 stands for NULL. */
  type Ctx = nat

  const ACL_MAX_QUEUE: nat := 65536

  /** Unsigned 32-bit wrap-around. */
  function U32(x: int): (r: nat)
    ensures r < 0x1_0000_0000
  {
    x % 0x1_0000_0000
  }

  /** ++ and -- on an unsigned int. */
  function Inc(x: nat): nat { if x == 0xffff_ffff then 0 else x + 1 }

  function Dec(x: nat): nat { if x == 0 then 0xffff_ffff else x - 1 }

  /** Where the worker thread stands in its loop. */
  datatype Worker =
    | AtTop                      // about to lock the mutex and test the queue
    | Asleep(signalled: bool)    // inside pthread_cond_wait
    | Working(job: Ctx)          // job dequeued, work_fn not finished
    | Worked(job: Ctx)           // work_fn finished, job not yet on the done list
    | Exited

  /** Where the game thread stands. */
  datatype Game =
    | Ready
    | Dispatching(batch: seq<Ctx>, count: nat)  // inside acl_poll, done list detached
    | Joining                                   // inside acl_destroy, waiting for the worker
    | Gone                                      // acl_destroy returned

  /** The lane's fields, both program counters and the history of the run. */
  datatype Lane = Lane(
    queue: seq<Ctx>, qLen: nat, qDropped: nat,
    done: seq<Ctx>, inflight: nat, shutdown: bool,
    worker: Worker, game: Game,
    accepted: seq<Ctx>,    // every job acl_submit answered 1 for, in order
    worked: seq<Ctx>,      // every job work_fn has run on, in order
    dispatched: seq<Ctx>,  // every job done_fn has run on, in order
    subtracted: nat)       // how many dispatched jobs were taken off inflight

  datatype Action =
    | Submit(ctx: Ctx, mallocOk: bool)
    | Check | Wake | Work | Complete
    | Detach | Dispatch | Subtract
    | Shutdown | Join

  const CREATED: Lane :=
    Lane([], 0, 0, [], 0, false, AtTop, Ready, [], [], [], 0)

  /** The job the worker has taken and not handed over. */
  function Held(w: Worker): seq<Ctx> {
    match w
    case Working(j) => [j]
    case Worked(j) => [j]
    case _ => []
  }

  /** The held job, if work_fn has run on it. */
  function HeldWorked(w: Worker): seq<Ctx> {
    if w.Worked? then [w.job] else []
  }

  /** Jobs detached by acl_poll whose done_fn has not run. */
  function Batch(g: Game): seq<Ctx> {
    if g.Dispatching? then g.batch else []
  }

  /** Jobs dispatched in the current poll, still counted in inflight. */
  function Uncounted(g: Game): nat {
    if g.Dispatching? then g.count else 0
  }

  function Signal(w: Worker): Worker {
    if w.Asleep? then Asleep(true) else w
  }

  predicate Accepts(s: Lane, ctx: Ctx, mallocOk: bool) {
    ctx != 0 && mallocOk && s.qLen < ACL_MAX_QUEUE
  }

  /** A sleeping worker may wake with or without a signal (spurious wake-up). */
  predicate Enabled(s: Lane, a: Action) {
    match a
    case Submit(_, _) => s.game.Ready? || s.game.Dispatching?
    case Check => s.worker.AtTop?
    case Wake => s.worker.Asleep?
    case Work => s.worker.Working?
    case Complete => s.worker.Worked?
    case Detach => s.game.Ready?
    case Dispatch => s.game.Dispatching? && s.game.batch != []
    case Subtract => s.game.Dispatching? && s.game.batch == []
    case Shutdown => s.game.Ready?
    case Join => s.game.Joining? && s.worker.Exited?
  }

  function DoSubmit(s: Lane, ctx: Ctx, mallocOk: bool): Lane {
    if ctx == 0 || !mallocOk then s
    else if s.qLen >= ACL_MAX_QUEUE then s.(qDropped := Inc(s.qDropped))
    else DoEnqueue(s, ctx)
  }

  function DoEnqueue(s: Lane, ctx: Ctx): Lane {
    s.(queue := s.queue + [ctx], qLen := Inc(s.qLen),
       inflight := Inc(s.inflight),
       worker := Signal(s.worker), accepted := s.accepted + [ctx])
  }

  function DoCheck(s: Lane): Lane {
    if s.queue != [] then DoDequeue(s)
    else s.(worker := if s.shutdown then Exited else Asleep(false))
  }

  /** q_len is unsigned: it would wrap if it were ever 0 here. */
  function DoDequeue(s: Lane): Lane
    requires s.queue != []
  {
    s.(queue := s.queue[1..], qLen := Dec(s.qLen),
       worker := Working(s.queue[0]))
  }

  function DoWork(s: Lane): Lane
    requires s.worker.Working?
  {
    s.(worker := Worked(s.worker.job), worked := s.worked + [s.worker.job])
  }

  function DoComplete(s: Lane): Lane
    requires s.worker.Worked?
  {
    s.(worker := AtTop, done := s.done + [s.worker.job])
  }

  function DoDetach(s: Lane): Lane {
    s.(game := Dispatching(s.done, 0), done := [])
  }

  function DoDispatch(s: Lane): Lane
    requires s.game.Dispatching? && s.game.batch != []
  {
    s.(game := Dispatching(s.game.batch[1..], s.game.count + 1),
       dispatched := s.dispatched + [s.game.batch[0]])
  }

  function DoSubtract(s: Lane): Lane
    requires s.game.Dispatching?
  {
    s.(game := Ready, inflight := U32(s.inflight - s.game.count),
       subtracted := s.subtracted + s.game.count)
  }

  function DoShutdown(s: Lane): Lane {
    s.(game := Joining, shutdown := true, worker := Signal(s.worker))
  }

  function Apply(s: Lane, a: Action): Lane
    requires Enabled(s, a)
  {
    match a
    case Submit(ctx, mallocOk) => DoSubmit(s, ctx, mallocOk)
    case Check => DoCheck(s)
    case Wake => s.(worker := AtTop)
    case Work => DoWork(s)
    case Complete => DoComplete(s)
    case Detach => DoDetach(s)
    case Dispatch => DoDispatch(s)
    case Subtract => DoSubtract(s)
    case Shutdown => DoShutdown(s)
    case Join => s.(game := Gone)
  }

  /** A schedule that is enabled action by action. */
  predicate IsRun(s: Lane, acts: seq<Action>)
    decreases |acts|
  {
    acts == [] || (Enabled(s, acts[0]) && IsRun(Apply(s, acts[0]), acts[1..]))
  }

  function After(s: Lane, acts: seq<Action>): Lane
    requires IsRun(s, acts)
    decreases |acts|
  {
    if acts == [] then s else After(Apply(s, acts[0]), acts[1..])
  }

  // ---------------------------------------------------------------- invariant

  /** Exactly-once FIFO: the five places a job can be, oldest first, spell the
      accepted submissions in order. */
  predicate Fifo(s: Lane) {
    s.dispatched + Batch(s.game) + s.done + Held(s.worker) + s.queue == s.accepted
  }

  /** work_fn has run, in order, on exactly the jobs past the worker. */
  predicate WorkedInOrder(s: Lane) {
    s.worked == s.dispatched + Batch(s.game) + s.done + HeldWorked(s.worker)
  }

  /** Jobs accepted and not yet subtracted from inflight. */
  function Outstanding(s: Lane): int { |s.accepted| - s.subtracted }

  predicate Counted(s: Lane) {
    && s.qLen == |s.queue| <= ACL_MAX_QUEUE
    && s.subtracted + Uncounted(s.game) == |s.dispatched|
    && s.inflight == U32(Outstanding(s))
  }

  /** A worker asleep without a pending signal has nothing to wake for. */
  predicate NoLostWakeup(s: Lane) {
    s.worker == Asleep(false) ==> s.queue == [] && !s.shutdown
  }

  predicate Phases(s: Lane) {
    && (s.shutdown <==> s.game.Joining? || s.game.Gone?)
    && (s.worker.Exited? ==> s.shutdown && s.queue == [])
    && (s.game.Gone? ==> s.worker.Exited?)
  }

  predicate Inv(s: Lane) {
    Fifo(s) && WorkedInOrder(s) && Counted(s) && NoLostWakeup(s) && Phases(s)
  }

  lemma TakeHead(before: seq<Ctx>, queue: seq<Ctx>)
    requires queue != []
    ensures before + [] + queue == before + [queue[0]] + queue[1..]
  {
  }

  lemma MoveToDone(before: seq<Ctx>, done: seq<Ctx>, job: Ctx)
    ensures before + (done + [job]) + [] == before + done + [job]
  {
  }

  lemma MoveToDispatched(dispatched: seq<Ctx>, batch: seq<Ctx>)
    requires batch != []
    ensures dispatched + [batch[0]] + batch[1..] == dispatched + batch
  {
  }

  lemma FifoKept(s: Lane, a: Action)
    requires Fifo(s) && Enabled(s, a)
    ensures Fifo(Apply(s, a))
  {
    var before := s.dispatched + Batch(s.game);
    match a
    case Submit(ctx, _) =>
      var ahead := before + s.done + Held(s.worker);
      assert ahead + (s.queue + [ctx]) == (ahead + s.queue) + [ctx];
    case Check => if s.queue != [] { TakeHead(before + s.done, s.queue); }
    case Complete => MoveToDone(before, s.done, s.worker.job);
    case Detach => assert s.dispatched + s.done + [] == s.dispatched + [] + s.done;
    case Dispatch => MoveToDispatched(s.dispatched, s.game.batch);
    case _ =>
  }

  lemma WorkedInOrderKept(s: Lane, a: Action)
    requires WorkedInOrder(s) && Enabled(s, a)
    ensures WorkedInOrder(Apply(s, a))
  {
    match a
    case Complete => MoveToDone(s.dispatched + Batch(s.game), s.done, s.worker.job);
    case Detach => assert s.dispatched + s.done + [] == s.dispatched + [] + s.done;
    case Dispatch => MoveToDispatched(s.dispatched, s.game.batch);
    case _ =>
  }

  /** Unsigned wrap-around commutes with adding. */
  lemma WrapAdd(x: int, d: int)
    ensures U32(U32(x) + d) == U32(x + d)
  {
  }

  lemma WrapInc(x: int)
    ensures Inc(U32(x)) == U32(x + 1)
  {
  }

  lemma CountedStep(s: Lane, a: Action)
    requires Counted(s) && Enabled(s, a)
    ensures Counted(Apply(s, a))
  {
    match a
    case Submit(_, _) => WrapInc(Outstanding(s));
    case Subtract => WrapAdd(Outstanding(s), 0 - s.game.count);
    case _ =>
  }

  lemma SleepKept(s: Lane, a: Action)
    requires NoLostWakeup(s) && Phases(s) && Enabled(s, a)
    ensures NoLostWakeup(Apply(s, a)) && Phases(Apply(s, a))
  {
  }

  /** Every interleaving step keeps the invariant. */
  lemma StepKeepsInv(s: Lane, a: Action)
    requires Inv(s) && Enabled(s, a)
    ensures Inv(Apply(s, a))
  {
    FifoKept(s, a);
    WorkedInOrderKept(s, a);
    CountedStep(s, a);
    SleepKept(s, a);
  }

  /** Every reachable state satisfies the invariant. */
  lemma {:induction false} RunKeepsInv(s: Lane, acts: seq<Action>)
    requires Inv(s) && IsRun(s, acts)
    ensures Inv(After(s, acts))
    decreases |acts|
  {
    if acts != [] {
      StepKeepsInv(s, acts[0]);
      RunKeepsInv(Apply(s, acts[0]), acts[1..]);
    }
  }

  lemma EveryReachableState(acts: seq<Action>)
    requires IsRun(CREATED, acts)
    ensures Inv(After(CREATED, acts))
  {
    RunKeepsInv(CREATED, acts);
  }

  /** The counter read by acl_pending is exact while fewer than 2^32 jobs are
      outstanding, and acl_poll never subtracts more than is outstanding. */
  lemma PendingIsExact(s: Lane)
    requires Inv(s)
    ensures Outstanding(s) == |Batch(s.game)| + Uncounted(s.game) + |s.done| + |Held(s.worker)| + |s.queue|
    ensures Outstanding(s) < 0x1_0000_0000 ==> s.inflight == Outstanding(s) && Uncounted(s.game) <= s.inflight
  {
    assert |s.accepted| == |s.dispatched| + |Batch(s.game)| + |s.done| + |Held(s.worker)| + |s.queue|;
  }

  // ------------------------------------------------- refinement to one sequence

  /** The specification: one sequence of accepted jobs and five cursors into it. */
  datatype Cursors = Cursors(jobs: seq<Ctx>, taken: nat, worked: nat, completed: nat, detached: nat, dispatched: nat)

  predicate Ordered(c: Cursors) {
    && c.dispatched <= c.detached <= c.completed <= c.worked <= c.taken <= |c.jobs|
    && c.taken <= c.completed + 1
  }

  function Abs(s: Lane): Cursors {
    var dispatched := |s.dispatched|;
    var detached := dispatched + |Batch(s.game)|;
    var completed := detached + |s.done|;
    Cursors(s.accepted, completed + |Held(s.worker)|, completed + |HeldWorked(s.worker)|,
            completed, detached, dispatched)
  }

  /** One specification step: a job is appended, or exactly one cursor advances,
      by one except that a poll detaches everything completed. */
  predicate SpecStep(c: Cursors, d: Cursors) {
    || d == c
    || (|d.jobs| == |c.jobs| + 1 && c.jobs <= d.jobs && d == c.(jobs := d.jobs))
    || (c.taken == c.completed && c.taken < |c.jobs| && d == c.(taken := c.taken + 1))
    || (c.worked < c.taken && d == c.(worked := c.worked + 1))
    || (c.completed < c.worked && d == c.(completed := c.completed + 1))
    || (c.dispatched == c.detached && d == c.(detached := c.completed))
    || (c.dispatched < c.detached && d == c.(dispatched := c.dispatched + 1))
  }

  lemma CursorsAreOrdered(s: Lane)
    requires Inv(s)
    ensures Ordered(Abs(s)) && |s.queue| == |s.accepted| - Abs(s).taken
  {
    assert |s.accepted| == |s.dispatched| + |Batch(s.game)| + |s.done| + |Held(s.worker)| + |s.queue|;
  }

  /** The lane's lists are exactly the slices between the cursors. */
  lemma ListsAreSlices(s: Lane)
    requires Inv(s)
    ensures var c := Abs(s);
      && Ordered(c)
      && s.dispatched == c.jobs[..c.dispatched]
      && Batch(s.game) == c.jobs[c.dispatched..c.detached]
      && s.done == c.jobs[c.detached..c.completed]
      && Held(s.worker) == c.jobs[c.completed..c.taken]
      && s.queue == c.jobs[c.taken..]
      && s.worked == c.jobs[..c.worked]
  {
    var d, b, f, h, q := s.dispatched, Batch(s.game), s.done, Held(s.worker), s.queue;
    assert s.accepted == d + b + f + h + q;
    assert HeldWorked(s.worker) == h[..|HeldWorked(s.worker)|];
  }

  /** Refinement: each action of either thread is one specification step. */
  lemma RefinesOneSequence(s: Lane, a: Action)
    requires Inv(s) && Enabled(s, a)
    ensures SpecStep(Abs(s), Abs(Apply(s, a)))
  {
    CursorsAreOrdered(s);
  }

  lemma DispatchedWasWorked(s: Lane)
    requires Inv(s)
    ensures s.dispatched <= s.worked <= s.accepted
  {
    ListsAreSlices(s);
  }

  lemma BatchWasWorked(s: Lane)
    requires Inv(s) && s.game.Dispatching? && s.game.batch != []
    ensures |s.dispatched| < |s.worked| && s.worked[|s.dispatched|] == s.game.batch[0]
  {
    ListsAreSlices(s);
  }

  lemma OnlyDispatchDispatches(s: Lane, a: Action)
    requires Enabled(s, a) && Apply(s, a).dispatched != s.dispatched
    ensures a.Dispatch? && s.game.Dispatching? && s.game.batch != []
    ensures Apply(s, a).dispatched == s.dispatched + [s.game.batch[0]]
  {
  }

  /** done_fn runs only in a Dispatch step of acl_poll, once per job and only
      after work_fn ran on that job. */
  lemma DoneOnlyAfterWork(s: Lane, a: Action)
    requires Inv(s) && Enabled(s, a)
    ensures var t := Apply(s, a);
      && (t.dispatched != s.dispatched ==>
            a.Dispatch? && |s.dispatched| < |s.worked| && t.dispatched == s.dispatched + [s.worked[|s.dispatched|]])
      && t.dispatched <= t.worked <= t.accepted
  {
    StepKeepsInv(s, a);
    DispatchedWasWorked(Apply(s, a));
    if Apply(s, a).dispatched != s.dispatched {
      OnlyDispatchDispatches(s, a);
      BatchWasWorked(s);
    }
  }

  // ------------------------------------------------------------------ shutdown

  predicate WorkerAction(a: Action) { a.Check? || a.Wake? || a.Work? || a.Complete? }

  /** Worker steps left once shutdown is set. */
  function StepsLeft(s: Lane): nat {
    3 * |s.queue| + match s.worker
      case Working(_) => 3
      case Worked(_) => 2
      case Asleep(_) => 2
      case AtTop => 1
      case Exited => 0
  }

  /** The worker step that needs no spurious wake-up. */
  function NextWorkerAction(w: Worker): Action
    requires !w.Exited?
  {
    match w
    case AtTop => Check
    case Asleep(_) => Wake
    case Working(_) => Work
    case Worked(_) => Complete
  }

  /** After shutdown the worker is never stuck: while it has not exited a step is
      enabled (a sleeping worker holds a signal), and each of its steps uses up
      the bounded work left. */
  lemma ShutdownProgress(s: Lane)
    requires Inv(s) && s.shutdown && !s.worker.Exited?
    ensures Enabled(s, NextWorkerAction(s.worker))
    ensures s.worker.Asleep? ==> s.worker.signalled
    ensures forall a :: WorkerAction(a) && Enabled(s, a) ==> StepsLeft(Apply(s, a)) < StepsLeft(s)
  {
  }

  /** No schedule of the worker after shutdown is longer than the work left. */
  lemma {:induction false} WorkerRunsAreBounded(s: Lane, acts: seq<Action>)
    requires Inv(s) && s.shutdown && IsRun(s, acts)
    requires forall i :: 0 <= i < |acts| ==> WorkerAction(acts[i])
    ensures |acts| <= StepsLeft(s)
    decreases |acts|
  {
    if acts != [] {
      StepKeepsInv(s, acts[0]);
      assert WorkerAction(acts[0]);
      ShutdownProgress(s);
      WorkerRunsAreBounded(Apply(s, acts[0]), acts[1..]);
    }
  }

  lemma ExitedHasDrained(s: Lane)
    requires Inv(s) && s.worker.Exited?
    ensures s.queue == [] && s.worked == s.accepted
  {
  }

  /** pthread_join returns: from any state with shutdown set, the worker's own
      steps lead to its exit with the queue drained and every job worked on. */
  lemma {:induction false} ShutdownDrains(s: Lane) returns (acts: seq<Action>)
    requires Inv(s) && s.shutdown
    ensures IsRun(s, acts) && |acts| <= StepsLeft(s)
    ensures forall i :: 0 <= i < |acts| ==> WorkerAction(acts[i])
    ensures After(s, acts).worker.Exited? && After(s, acts).queue == []
    ensures After(s, acts).worked == After(s, acts).accepted == s.accepted
    decreases StepsLeft(s)
  {
    if s.worker.Exited? {
      acts := [];
      ExitedHasDrained(s);
    } else {
      var a := NextWorkerAction(s.worker);
      ShutdownProgress(s);
      StepKeepsInv(s, a);
      var rest := ShutdownDrains(Apply(s, a));
      acts := [a] + rest;
      assert acts[1..] == rest;
    }
  }

  /** Once acl_destroy has joined the worker, work_fn has run exactly once, in
      order, on every accepted job, and done_fn on a prefix of them. */
  lemma DestroyAccounting(s: Lane)
    requires Inv(s) && s.game.Gone?
    ensures s.worked == s.accepted
    ensures s.dispatched <= s.worked && s.worked == s.dispatched + s.done
  {
    assert s.dispatched + Batch(s.game) + s.done + Held(s.worker) + s.queue == s.dispatched + s.done;
  }

  // ------------------------------------------------- the cap bounds the queue only

  lemma {:induction false} RunAppend(s: Lane, xs: seq<Action>, ys: seq<Action>)
    requires IsRun(s, xs) && IsRun(After(s, xs), ys)
    ensures IsRun(s, xs + ys) && After(s, xs + ys) == After(After(s, xs), ys)
    decreases |xs|
  {
    if xs == [] {
      assert xs + ys == ys;
    } else {
      assert (xs + ys)[1..] == xs[1..] + ys;
      RunAppend(Apply(s, xs[0]), xs[1..], ys);
    }
  }

  lemma RunOne(s: Lane, a: Action)
    requires Enabled(s, a)
    ensures IsRun(s, [a]) && After(s, [a]) == Apply(s, a)
  {
    assert IsRun(Apply(s, a), [a][1..]);
  }

  lemma RunExtend(s: Lane, xs: seq<Action>, a: Action)
    requires IsRun(s, xs) && Enabled(After(s, xs), a)
    ensures IsRun(s, xs + [a]) && After(s, xs + [a]) == Apply(After(s, xs), a)
  {
    RunOne(After(s, xs), a);
    RunAppend(s, xs, [a]);
  }

  /** The worker has finished every job it was given and the game thread is free. */
  predicate CaughtUp(s: Lane) {
    Inv(s) && s.queue == [] && s.worker.AtTop? && s.game.Ready?
  }

  /** One more job, carried to the done list and left there. */
  lemma OneMoreInFlight(s: Lane, xs: seq<Action>) returns (acts: seq<Action>)
    requires IsRun(s, xs) && CaughtUp(After(s, xs))
    ensures IsRun(s, acts) && CaughtUp(After(s, acts))
    ensures Outstanding(After(s, acts)) == Outstanding(After(s, xs)) + 1
  {
    var t := After(s, xs);
    var a := Submit(1, true);
    RunExtend(s, xs, a);
    StepKeepsInv(t, a);
    RunExtend(s, xs + [a], Check);
    StepKeepsInv(After(s, xs + [a]), Check);
    RunExtend(s, xs + [a] + [Check], Work);
    StepKeepsInv(After(s, xs + [a] + [Check]), Work);
    RunExtend(s, xs + [a] + [Check] + [Work], Complete);
    StepKeepsInv(After(s, xs + [a] + [Check] + [Work]), Complete);
    acts := xs + [a] + [Check] + [Work] + [Complete];
  }

  /** Although the queue never exceeds the cap, any number of jobs can be in
      flight: a game thread that submits without polling is never refused. */
  lemma {:induction false} CapDoesNotBoundInflight(s: Lane, n: nat) returns (acts: seq<Action>)
    requires CaughtUp(s)
    ensures IsRun(s, acts) && CaughtUp(After(s, acts))
    ensures Outstanding(After(s, acts)) == Outstanding(s) + n
  {
    if n == 0 {
      acts := [];
    } else {
      var xs := CapDoesNotBoundInflight(s, n - 1);
      acts := OneMoreInFlight(s, xs);
    }
  }

  /** In no state of the run are more jobs in flight than the cap. */
  predicate WithinCap(s: Lane, acts: seq<Action>)
    requires IsRun(s, acts)
    decreases |acts|
  {
    Outstanding(s) <= ACL_MAX_QUEUE && (acts != [] ==> WithinCap(Apply(s, acts[0]), acts[1..]))
  }

  /** Every job is accepted while acl_pending reads less than the cap. */
  predicate SubmitsBelowCap(s: Lane, acts: seq<Action>)
    requires IsRun(s, acts)
    decreases |acts|
  {
    acts == [] ||
    (&& (acts[0].Submit? && Accepts(s, acts[0].ctx, acts[0].mallocOk) ==> s.inflight < ACL_MAX_QUEUE)
     && SubmitsBelowCap(Apply(s, acts[0]), acts[1..]))
  }

  lemma OutstandingStep(s: Lane, a: Action)
    requires Inv(s) && Enabled(s, a)
    ensures a.Submit? && Accepts(s, a.ctx, a.mallocOk) ==> Outstanding(Apply(s, a)) == Outstanding(s) + 1
    ensures !(a.Submit? && Accepts(s, a.ctx, a.mallocOk)) ==> Outstanding(Apply(s, a)) <= Outstanding(s)
  {
  }

  /** The cap holds for the jobs in flight exactly in those runs whose submitter looks
      at acl_pending first. */
  lemma {:induction false} CapHoldsIffPendingIsChecked(s: Lane, acts: seq<Action>)
    requires Inv(s) && IsRun(s, acts) && Outstanding(s) <= ACL_MAX_QUEUE
    ensures WithinCap(s, acts) <==> SubmitsBelowCap(s, acts)
    decreases |acts|
  {
    if acts != [] {
      var a, t := acts[0], Apply(s, acts[0]);
      StepKeepsInv(s, a);
      PendingIsExact(s);
      OutstandingStep(s, a);
      if Outstanding(t) <= ACL_MAX_QUEUE {
        CapHoldsIffPendingIsChecked(t, acts[1..]);
      }
    }
  }

  // --------------------------------------------------------------- what is refused

  /** A job is accepted, at the end of the queue, exactly when it is there to be had and the
      queue has fewer than 65536; of the others only those refused for that are counted. */
  lemma SubmitDoes(s: Lane, ctx: Ctx, mallocOk: bool)
    requires Inv(s) && Enabled(s, Submit(ctx, mallocOk))
    ensures var t := Apply(s, Submit(ctx, mallocOk));
      if ctx == 0 || !mallocOk then t == s
      else if |s.queue| >= 65536 then t == s.(qDropped := t.qDropped)
      else
        && t.accepted == s.accepted + [ctx] && t.queue == s.queue + [ctx] && t.qDropped == s.qDropped
        && t.done == s.done && t.game == s.game && t.shutdown == s.shutdown
        && (t.worker == if s.worker.Asleep? then Asleep(true) else s.worker)
  {
  }

  /** The submissions of a run that find the queue full. */
  function Refused(s: Lane, acts: seq<Action>): nat
    requires IsRun(s, acts)
    decreases |acts|
  {
    if acts == [] then 0
    else
      var a := acts[0];
      Refused(Apply(s, a), acts[1..]) +
        if a.Submit? && a.ctx != 0 && a.mallocOk && |s.queue| >= 65536 then 1 else 0
  }

  /** q_dropped counts them, in 32 bits. */
  lemma {:induction false} DroppedIsRefused(s: Lane, acts: seq<Action>)
    requires Inv(s) && IsRun(s, acts) && s.qDropped < 0x1_0000_0000
    ensures After(s, acts).qDropped == (s.qDropped + Refused(s, acts)) % 0x1_0000_0000
    decreases |acts|
  {
    if acts != [] {
      StepKeepsInv(s, acts[0]);
      DroppedIsRefused(Apply(s, acts[0]), acts[1..]);
    }
  }

  /** Destroying the lane returns once the worker is joined. */
  lemma JoinDoes(s: Lane)
    requires Enabled(s, Join)
    ensures Apply(s, Join) == s.(game := Gone)
  {
  }

  /** The worker at the top of its loop takes the oldest job, or ends if told to, or sleeps. */
  lemma CheckDoes(s: Lane)
    requires Inv(s) && s.worker.AtTop?
    ensures var t := Apply(s, Check);
      if s.queue != [] then t.worker == Working(s.queue[0]) && t.queue == s.queue[1..]
      else t == s.(worker := if s.shutdown then Exited else Asleep(false))
  {
  }
}
