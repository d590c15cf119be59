/** The layers together: the machine that saves and restores contexts, the ready list that decides who
    is next, and the tasks that use the mutex. */
module Composition {
  import opened Prelude
  import opened RoundRobin
  import opened Avr
  import opened ContextMacros
  import opened TaskSwitch
  import TaskRefinement
  import MutexClients

  // Renaming: tasks as linked control blocks, as numbers, as addresses

  function Names<T, U>(ready: seq<T>, f: T -> U): seq<U> {
    seq(|ready|, i requires 0 <= i < |ready| => f(ready[i]))
  }

  /** The same schedule with every task called by another name. */
  function Renamed<T, U>(s: Schedule<T>, f: T -> U): Schedule<U> {
    Schedule(Names(s.ready, f), f(s.cur), if s.stale == None then None else Some(f(s.stale.value)))
  }

  /** Different tasks have different names. */
  ghost predicate Distinguishes<T, U>(f: T -> U, s: Schedule<T>) {
    forall a, b | a in s.ready + [s.cur] && b in s.ready + [s.cur] && f(a) == f(b) :: a == b
  }

  /** What a switch picks does not depend on what the tasks are called, so the linked list of control
      blocks and the list of task numbers are scheduled alike. */
  lemma SwitchIgnoresNames<T, U>(s: Schedule<T>, f: T -> U)
    requires LinkOk(s) && s.ready != [] && Distinguishes(f, s)
    ensures LinkOk(Renamed(s, f)) && Renamed(s, f).ready != []
    ensures Switch(Renamed(s, f)) == Renamed(Switch(s), f)
  {
    var names := Names(s.ready, f);
    NamesAreDistinct(s, f);
    if s.cur in s.ready {
      var i := Position(s.ready, s.cur);
      assert names[i] == f(s.cur);
      PositionUnique(names, i);
    } else {
      assert s.cur in s.ready + [s.cur];
    }
  }

  lemma NamesAreDistinct<T, U>(s: Schedule<T>, f: T -> U)
    requires NoDuplicates(s.ready) && Distinguishes(f, s)
    ensures
      var names := Names(s.ready, f);
      && NoDuplicates(names) && (f(s.cur) in names <==> s.cur in s.ready)
      && forall t | t in s.ready :: f(t) in names
  {
    var names, all := Names(s.ready, f), s.ready + [s.cur];
    assert forall i | 0 <= i < |names| :: s.ready[i] in all;
    assert s.cur in all;
    forall t | t in s.ready ensures f(t) in names {
      assert names[Position(s.ready, t)] == f(t);
    }
    if f(s.cur) in names {
      var i :| 0 <= i < |names| && names[i] == f(s.cur);
      assert s.ready[i] == s.cur;
    }
  }

  // The machine follows the list

  /** Every switch of the run goes where schedule_round_robin points. */
  ghost predicate Scheduled(sched: Schedule<nat>, events: seq<TaskRefinement.Event>)
    decreases |events|
  {
    sched.ready != [] && (events != [] ==>
      if events[0].Switch? then events[0].next == Switch(sched).cur && Scheduled(Switch(sched), events[1..])
      else Scheduled(sched, events[1..]))
  }

  function SwitchCount(events: seq<TaskRefinement.Event>): nat {
    if events == [] then 0 else (if events[0].Switch? then 1 else 0) + SwitchCount(events[1..])
  }

  /** The processor executes task t and c_task in memory points to its control block. */
  ghost predicate Executes(s: Symbols, ts: seq<TaskArea>, y: System, t: nat) {
    s.Valid() && y.cur == t < |ts| && WordAt(y.m.mem, s.cTask) == ts[t].task
  }

  /** The task k places after place i of the list. */
  function PlacesAfter(ready: seq<nat>, i: nat, k: nat): nat
    requires ready != []
  {
    ready[(i + k) % |ready|]
  }

  /** Over every run of the machine the processor executes the task that round robin says, c_task in
      memory points to it, and after k switches that is k places further in the list. */
  lemma {:induction false} MachineFollowsTheList(
    s: Symbols, ts: seq<TaskArea>, states: seq<System>, events: seq<TaskRefinement.Event>, sched: Schedule<nat>, i: nat)
    requires TaskRefinement.IsRun(s, ts, states, events) && Scheduled(sched, events)
    requires NoDuplicates(sched.ready) && i < |sched.ready| && sched.cur == sched.ready[i] == states[0].cur
    ensures Executes(s, ts, states[|events|], PlacesAfter(sched.ready, i, SwitchCount(events)))
  {
    RunEndsExecuting(s, ts, states, events);
    RunEndsWith(s, ts, states, events);
    ScheduledEndsWith(sched, events);
    ScheduledIsPlacesAfter(sched, i, SwitchCount(events));
  }

  lemma ScheduledIsPlacesAfter(sched: Schedule<nat>, i: nat, k: nat)
    requires NoDuplicates(sched.ready) && i < |sched.ready| && sched.cur == sched.ready[i]
    ensures AfterSwitches(sched, k).cur == PlacesAfter(sched.ready, i, k)
  {
    SwitchesAdvanceTheIndex(sched, i, k);
  }

  /** Who executes after the events, by the switches alone. */
  function EndsWith(events: seq<TaskRefinement.Event>, cur: nat): nat {
    if events == [] then cur else EndsWith(events[1..], if events[0].Switch? then events[0].next else cur)
  }

  lemma {:induction false} ScheduledEndsWith(sched: Schedule<nat>, events: seq<TaskRefinement.Event>)
    requires Scheduled(sched, events)
    ensures EndsWith(events, sched.cur) == AfterSwitches(sched, SwitchCount(events)).cur
    decreases |events|
  {
    if events != [] {
      ScheduledEndsWith(if events[0].Switch? then Switch(sched) else sched, events[1..]);
    }
  }

  lemma {:induction false} RunEndsWith(
    s: Symbols, ts: seq<TaskArea>, states: seq<System>, events: seq<TaskRefinement.Event>)
    requires TaskRefinement.IsRun(s, ts, states, events)
    ensures states[|events|].cur == EndsWith(events, states[0].cur)
    decreases |events|
  {
    if events != [] {
      EventMoves(s, ts, states[0], events[0], states[1]);
      RunEndsWith(s, ts, states[1..], events[1..]);
      assert states[1..][|events| - 1] == states[|events|];
    }
  }

  lemma RunEndsExecuting(s: Symbols, ts: seq<TaskArea>, states: seq<System>, events: seq<TaskRefinement.Event>)
    requires TaskRefinement.IsRun(s, ts, states, events)
    ensures Executes(s, ts, states[|events|], states[|events|].cur)
  {
    TaskRefinement.InterleavingRefinesIndependentTasks(s, ts, states, events, states[0].cur);
  }

  lemma EventMoves(s: Symbols, ts: seq<TaskArea>, y: System, e: TaskRefinement.Event, y': System)
    requires TaskRefinement.Inv(s, ts, y) && TaskRefinement.Next(s, ts, y, e, y')
    ensures y'.cur == (if e.Switch? then e.next else y.cur) && TaskRefinement.Inv(s, ts, y')
  {
    TaskRefinement.OneEvent(s, ts, y, e, y');
  }

  // The mutex in memory

  /** The owner field of a mutex at address mtx lies outside c_task, all control blocks and all stacks. */
  ghost predicate MutexApart(s: Symbols, ts: seq<TaskArea>, mtx: Word) {
    && mtx + 1 < 0x10000 && Apart(mtx, 2, s.cTask, 2)
    && (forall i | 0 <= i < |ts| :: Apart(mtx, 2, ts[i].task + s.offset, CONTEXT_SIZE))
    && (forall i | 0 <= i < |ts| :: ts[i].lo <= ts[i].hi && Apart(mtx, 2, ts[i].lo, ts[i].hi - ts[i].lo + 1))
  }

  /** The pointer that stands for an owner: null, or the address of a control block. */
  function OwnerWord(ts: seq<TaskArea>, owner: Option<nat>): Word
    requires owner.Some? ==> owner.value < |ts|
  {
    if owner == None then 0 else ts[owner.value].task
  }

  /** What the mutex code writes to the owner field, in terms of the two pointers it reads. */
  function NewOwnerWord<D>(a: MutexClients.Action<D>, first: bool, owner: Word, cTask: Word): Word {
    match a
    case Lock => if first && owner == cTask then owner else if owner != 0 then owner else cTask
    case TryLock => if owner != 0 then owner else cTask
    case Release => if cTask != owner then owner else 0
    case _ => owner
  }

  /** Control blocks are not at address zero, and no two of them at the same address. */
  lemma PointersNameTasks(s: Symbols, ts: seq<TaskArea>, i: nat, j: nat)
    requires Layout(s, ts) && i < |ts| && j < |ts|
    ensures ts[i].task != 0 && (ts[i].task == ts[j].task <==> i == j)
  {
    assert AreaOk(s, ts[i]);
    if i != j {
      TaskRefinement.Separate(s, ts, i, j);
    }
  }

  /** The pointer comparisons of the mutex code decide as the model does on tasks. */
  lemma PointerCodeIsOwnerCode<D>(s: Symbols, ts: seq<TaskArea>, c: MutexClients.State<D>, a: MutexClients.Action<D>)
    requires Layout(s, ts) && |c.clients| == |ts| && MutexClients.Enabled(c, a)
    requires c.running == c.cTask && (c.owner.Some? ==> c.owner.value < |ts|)
    ensures
      var owner' := MutexClients.Step(c, a).owner;
      && (owner'.Some? ==> owner'.value < |ts|)
      && OwnerWord(ts, owner')
         == NewOwnerWord(a, MutexClients.Me(c).call == MutexClients.Locking(true),
                         OwnerWord(ts, c.owner), ts[c.cTask].task)
  {
    PointersNameTasks(s, ts, c.cTask, if c.owner == None then c.cTask else c.owner.value);
    if c.owner.Some? {
      PointersNameTasks(s, ts, c.owner.value, c.cTask);
    }
  }

  /** The machine state behind a state of the mutex clients: the task whose view is in the processor is
      the running one, c_task in memory points to the control block of cTask, and the owner field to
      that of the owner. */
  ghost predicate Represents<D>(s: Symbols, ts: seq<TaskArea>, mtx: Word, y: System, c: MutexClients.State<D>) {
    && TaskRefinement.Inv(s, ts, y) && MutexApart(s, ts, mtx) && |c.clients| == |ts|
    && c.running == y.cur
    && c.cTask < |ts| && WordAt(y.m.mem, s.cTask) == ts[c.cTask].task
    && (c.owner.Some? ==> c.owner.value < |ts|) && WordAt(y.m.mem, mtx) == OwnerWord(ts, c.owner)
  }

  /** The running task is c_task: two control blocks at one address would overlap. */
  lemma RunningTaskIsCTask<D>(s: Symbols, ts: seq<TaskArea>, mtx: Word, y: System, c: MutexClients.State<D>)
    requires Represents(s, ts, mtx, y, c)
    ensures c.running == c.cTask
  {
    PointersNameTasks(s, ts, c.running, c.cTask);
  }

  /** A switch of the machine: saving, the scheduler's choice from the list of all tasks (which is
      NextTask, by NextTaskIsRoundRobin), restoring. The kernel code in between does not write the
      owner field. */
  ghost predicate SwitchesMachine(
    s: Symbols, ts: seq<TaskArea>, mtx: Word, y: System, e: TaskRefinement.Event, mid: Machine, y': System)
    requires TaskRefinement.Inv(s, ts, y) && mtx + 1 < 0x10000
  {
    && e.Switch? && TaskRefinement.SwitchVia(s, ts, y, e, mid, y') && e.next == MutexClients.NextTask(|ts|, y.cur)
    && WordAt(mid.mem, mtx) == WordAt(Suspend(s, e.entry, y.m).mem, mtx)
  }

  lemma SwitchKeepsOwnerField(
    s: Symbols, ts: seq<TaskArea>, mtx: Word, y: System, e: TaskRefinement.Event, mid: Machine, y': System)
    requires TaskRefinement.Inv(s, ts, y) && e.Switch? && TaskRefinement.SwitchVia(s, ts, y, e, mid, y')
    requires MutexApart(s, ts, mtx) && WordAt(mid.mem, mtx) == WordAt(Suspend(s, e.entry, y.m).mem, mtx)
    ensures WordAt(y'.m.mem, mtx) == WordAt(y.m.mem, mtx)
  {
    TaskRefinement.AllSuspended(s, ts, y, e, mid, e.next);
    SuspendKeepsWord(s, ts[y.cur], mtx, e.entry, y.m);
    ResumeKeepsWord(s, ts[e.next], mtx, e.exit, mid);
  }

  ghost predicate OutsideTask(s: Symbols, t: TaskArea, at: Word)
    requires AreaOk(s, t)
  {
    && at + 1 < 0x10000
    && Apart(at, 2, t.task + s.offset, CONTEXT_SIZE) && Apart(at, 2, t.lo, t.hi - t.lo + 1)
  }

  lemma SuspendKeepsWord(s: Symbols, t: TaskArea, at: Word, e: Entry, m: Machine)
    requires s.Valid() && AreaOk(s, t) && WordAt(m.mem, s.cTask) == t.task && HasRoom(t, m.sp) && OutsideTask(s, t, at)
    ensures WordAt(Suspend(s, e, m).mem, at) == WordAt(m.mem, at)
  {
    SuspendKeepsView(s, t, e, m);
    WordKept(at, m.mem, Suspend(s, e, m).mem, t.task + s.offset, CONTEXT_SIZE, m.sp - 4, 5);
  }

  lemma ResumeKeepsWord(s: Symbols, t: TaskArea, at: Word, x: Exit, m: Machine)
    requires s.Valid() && AreaOk(s, t) && WordAt(m.mem, s.cTask) == t.task && Resumable(s, m.mem, t)
    requires OutsideTask(s, t, at)
    ensures WordAt(Resume(s, x, m).mem, at) == WordAt(m.mem, at)
  {
    ResumeKeepsView(s, t, x, m);
    var sp := SavedContext(s, m.mem, t).sp;
    WordKept(at, m.mem, Resume(s, x, m).mem, sp - 1, 2, sp - 1, 2);
  }

  lemma WordKept(at: Word, was: Memory, now: Memory, a: int, n: nat, b: int, k: nat)
    requires at + 1 < 0x10000 && OnlyTouches(was, now, a, n, b, k) && Apart(at, 2, a, n) && Apart(at, 2, b, k)
    ensures WordAt(now, at) == WordAt(was, at)
  {
  }

  /** Code of the running task alone, which writes to the owner field what the mutex code computes from
      the pointers it finds in memory. */
  ghost predicate RunsMutexCode<D>(
    s: Symbols, ts: seq<TaskArea>, mtx: Word, y: System, effect: View -> View, y': System,
    a: MutexClients.Action<D>, first: bool)
    requires TaskRefinement.Inv(s, ts, y) && mtx + 1 < 0x10000
  {
    && TaskRefinement.LocalStep(s, ts, y, effect, y')
    && WordAt(y'.m.mem, mtx) == NewOwnerWord(a, first, WordAt(y.m.mem, mtx), WordAt(y.m.mem, s.cTask))
  }

  /** One step of the clients carried out by the machine. */
  ghost predicate CarriedOut<D>(
    s: Symbols, ts: seq<TaskArea>, mtx: Word, y: System, y': System,
    c: MutexClients.State<D>, a: MutexClients.Action<D>)
    requires Represents(s, ts, mtx, y, c) && MutexClients.Enabled(c, a)
  {
    var first := MutexClients.Me(c).call == MutexClients.Locking(true);
    if MutexClients.SwitchesTask(c, a) then exists e, mid :: SwitchesMachine(s, ts, mtx, y, e, mid, y')
    else exists effect :: RunsMutexCode(s, ts, mtx, y, effect, y', a, first)
  }

  /** The machine realises every step of the mutex clients: a preemption or a yielding lock pass by a
      switch, any other step by code of the running task. */
  lemma MachineRealisesSteps<D>(
    s: Symbols, ts: seq<TaskArea>, mtx: Word, y: System, y': System,
    c: MutexClients.State<D>, a: MutexClients.Action<D>)
    requires Represents(s, ts, mtx, y, c) && MutexClients.Enabled(c, a) && CarriedOut(s, ts, mtx, y, y', c, a)
    ensures Represents(s, ts, mtx, y', MutexClients.Step(c, a))
  {
    RunningTaskIsCTask(s, ts, mtx, y, c);
    if MutexClients.SwitchesTask(c, a) {
      var e, mid :| SwitchesMachine(s, ts, mtx, y, e, mid, y');
      TaskRefinement.SwitchIsTransparent(s, ts, y, e, mid, y');
      SwitchKeepsOwnerField(s, ts, mtx, y, e, mid, y');
    } else {
      var first := MutexClients.Me(c).call == MutexClients.Locking(true);
      var effect :| RunsMutexCode(s, ts, mtx, y, effect, y', a, first);
      PointerCodeIsOwnerCode(s, ts, c, a);
      TaskRefinement.LocalIsPrivate(s, ts, y, effect, y');
    }
  }

  // Whole runs of the machine

  /** Machine states that carry out a run of the clients, step by step, from a state that represents
      them. */
  ghost predicate CarriesOut<D>(
    s: Symbols, ts: seq<TaskArea>, mtx: Word, states: seq<System>,
    c: MutexClients.State<D>, run: seq<MutexClients.Action<D>>)
    decreases |run|
  {
    && |states| == |run| + 1
    && (run != [] && Represents(s, ts, mtx, states[0], c) ==>
          && MutexClients.Enabled(c, run[0]) && CarriedOut(s, ts, mtx, states[0], states[1], c, run[0])
          && CarriesOut(s, ts, mtx, states[1..], MutexClients.Step(c, run[0]), run[1..]))
  }

  lemma {:induction false} RunIsRepresented<D>(
    s: Symbols, ts: seq<TaskArea>, mtx: Word, states: seq<System>,
    c: MutexClients.State<D>, run: seq<MutexClients.Action<D>>)
    requires CarriesOut(s, ts, mtx, states, c, run) && Represents(s, ts, mtx, states[0], c)
    ensures MutexClients.EnabledRun(c, run)
    ensures Represents(s, ts, mtx, states[|run|], MutexClients.After(c, run))
    decreases |run|
  {
    if run != [] {
      MachineRealisesSteps(s, ts, mtx, states[0], states[1], c, run[0]);
      RunIsRepresented(s, ts, mtx, states[1..], MutexClients.Step(c, run[0]), run[1..]);
      assert states[1..][|run| - 1] == states[|run|];
    }
  }

  /** Exactly the task whose control block the owner field points to is inside. */
  ghost predicate InsideInMemory<D>(ts: seq<TaskArea>, mtx: Word, y: System, c: MutexClients.State<D>) {
    && mtx + 1 < 0x10000 && |c.clients| == |ts|
    && forall t | 0 <= t < |ts| :: c.clients[t].open > 0 <==> WordAt(y.m.mem, mtx) == ts[t].task
  }

  /** Mutual exclusion of the machine: through any switches, savings and restorings, the task between
      lock and release is the one whose control block the owner field in memory points to. */
  lemma MutualExclusionInMemory<D>(
    s: Symbols, ts: seq<TaskArea>, mtx: Word, states: seq<System>,
    c: MutexClients.State<D>, run: seq<MutexClients.Action<D>>)
    requires CarriesOut(s, ts, mtx, states, c, run) && Represents(s, ts, mtx, states[0], c)
    requires MutexClients.Exclusive(c)
    requires MutexClients.EnabledRun(c, run) && MutexClients.NeverFreesTooEarly(c, run)
    ensures InsideInMemory(ts, mtx, states[|run|], MutexClients.After(c, run))
  {
    RunIsRepresented(s, ts, mtx, states, c, run);
    MutexClients.MutualExclusion(c, run);
    OwnerFieldNamesInside(s, ts, mtx, states[|run|], MutexClients.After(c, run));
  }

  lemma OwnerFieldNamesInside<D>(s: Symbols, ts: seq<TaskArea>, mtx: Word, y: System, c: MutexClients.State<D>)
    requires Represents(s, ts, mtx, y, c) && MutexClients.Exclusive(c)
    ensures InsideInMemory(ts, mtx, y, c)
  {
    forall t | 0 <= t < |ts| ensures c.clients[t].open > 0 <==> WordAt(y.m.mem, mtx) == ts[t].task {
      PointersNameTasks(s, ts, t, if c.owner == None then t else c.owner.value);
    }
  }
}
