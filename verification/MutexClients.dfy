/** Any tasks that use the mutex, interleaved at every step: calls to mtx_lock, mtx_try_lock and
    mtx_release in any order, arbitrary code on the guarded data, and preemption in between. */
module MutexClients {
  import opened Prelude
  import opened RoundRobin
  import opened Mutex

  /** Inside mtx_lock (on its first pass or after a yield) or not. */
  datatype Call = Free | Locking(first: bool)

  /** open counts the locks a task has been granted and not given back. */
  datatype Client = Client(call: Call, open: nat)

  /** running is the task whose registers are in the processor; cTask is the kernel's variable. */
  datatype State<D> = State(data: D, owner: Option<Tid>, cTask: Tid, running: Tid, clients: seq<Client>)

  datatype Action<!D> =
    | CallLock               // the running task calls mtx_lock
    | Lock                   // one pass through mtx_lock, interrupts off
    | TryLock                // mtx_try_lock, whatever it returns
    | Release                // mtx_release, by the owner or by anyone else
    | Work(effect: D -> D)   // any code on the guarded data
    | Preempt                // timer interrupt or yield

  function Me<D>(s: State<D>): Client
    requires s.running < |s.clients|
  {
    s.clients[s.running]
  }

  function WithMe<D>(s: State<D>, c: Client): State<D>
    requires s.running < |s.clients|
  {
    s.(clients := s.clients[s.running := c])
  }

  predicate Enabled<D>(s: State<D>, a: Action<D>) {
    && s.running < |s.clients| && s.cTask < |s.clients|
    && match a
       case Lock => Me(s).call.Locking?
       case Preempt => true
       case _ => Me(s).call.Free?
  }

  function NextTask(n: nat, t: Tid): Tid { if t + 1 < n then t + 1 else 0 }

  /** The kernel's switch: c_task moves on, and the restored context is that of c_task. */
  function SwitchTask<D>(s: State<D>): State<D> {
    var t := NextTask(|s.clients|, s.cTask);
    s.(cTask := t, running := t)
  }

  /** NextTask is what schedule_round_robin does on the list 0, 1, ..., n-1. */
  lemma NextTaskIsRoundRobin(n: nat, t: Tid)
    requires t < n
    ensures Switch(Schedule(seq(n, i requires 0 <= i < n => i), t, None)).cur == NextTask(n, t)
  {
    var ready := seq(n, i requires 0 <= i < n => i);
    SwitchFromIndex(Schedule(ready, t, None), t);
  }

  function Step<D>(s: State<D>, a: Action<D>): State<D>
    requires Enabled(s, a)
  {
    var me := Me(s);
    match a
    case CallLock => WithMe(s, me.(call := Locking(true)))
    case Lock =>
      var (owner, outcome) := LockPass(s.owner, s.cTask, me.call.first);
      if outcome == MustYield then SwitchTask(WithMe(s, me.(call := Locking(false))))
      else WithMe(s, Client(Free, me.open + 1)).(owner := owner)
    case TryLock =>
      var (owner, r) := TryLocked(s.owner, s.cTask);
      WithMe(s, if r == MUTEX_OK then me.(open := me.open + 1) else me).(owner := owner)
    case Release =>
      WithMe(s, me.(open := if me.open > 0 then me.open - 1 else 0)).(owner := Released(s.owner, s.cTask).0)
    case Work(f) => s.(data := f(s.data))
    case Preempt => SwitchTask(s)
  }

  ghost predicate EnabledRun<D>(s: State<D>, run: seq<Action<D>>)
    decreases |run|
  {
    run != [] ==> Enabled(s, run[0]) && EnabledRun(Step(s, run[0]), run[1..])
  }

  ghost function After<D>(s: State<D>, run: seq<Action<D>>): State<D>
    requires EnabledRun(s, run)
    decreases |run|
  {
    if run == [] then s else After(Step(s, run[0]), run[1..])
  }

  // Mutual exclusion

  /** A task is inside, with a lock granted and not given back, exactly when it is the owner. */
  ghost predicate OnlyOwnerInside<D>(s: State<D>) {
    forall t | 0 <= t < |s.clients| :: s.clients[t].open > 0 <==> s.owner == Some(t)
  }

  /** The running task is c_task, only the owner is inside, and it is not waiting for itself. */
  ghost predicate Exclusive<D>(s: State<D>) {
    && s.running == s.cTask < |s.clients|
    && (s.owner.Some? ==> s.owner.value < |s.clients|)
    && OnlyOwnerInside(s)
    && forall t | 0 <= t < |s.clients| :: s.clients[t].call == Locking(false) ==> s.owner != Some(t)
  }

  /** A release by a task that has been granted the lock more than once. */
  predicate FreesTooEarly<D>(s: State<D>, a: Action<D>)
    requires Enabled(s, a)
  {
    a.Release? && Me(s).open >= 2
  }

  ghost predicate NeverFreesTooEarly<D>(s: State<D>, run: seq<Action<D>>)
    requires EnabledRun(s, run)
    decreases |run|
  {
    run != [] ==> !FreesTooEarly(s, run[0]) && NeverFreesTooEarly(Step(s, run[0]), run[1..])
  }

  /** Every step keeps mutual exclusion, nested locks, failed attempts and stray releases included,
      exactly when it is not a release by a task that holds the mutex more than once. */
  lemma StepKeepsExclusionExactlyWhen<D>(s: State<D>, a: Action<D>)
    requires Exclusive(s) && Enabled(s, a)
    ensures OnlyOwnerInside(Step(s, a)) <==> !FreesTooEarly(s, a)
    ensures Exclusive(Step(s, a)) <==> !FreesTooEarly(s, a)
    ensures |Step(s, a).clients| == |s.clients|
  {
    if FreesTooEarly(s, a) {
      assert Step(s, a).clients[s.running].open > 0;
    }
  }

  /** Only the owner is inside in every state of a run. */
  ghost predicate ExclusionThroughout<D>(s: State<D>, run: seq<Action<D>>)
    requires EnabledRun(s, run)
    decreases |run|
  {
    OnlyOwnerInside(s) && (run != [] ==> ExclusionThroughout(Step(s, run[0]), run[1..]))
  }

  /** The exact condition over every run: exclusion holds in every state if and only if no task that
      holds the mutex more than once releases it. */
  lemma {:induction false} ExclusionHoldsExactlyWhen<D>(s: State<D>, run: seq<Action<D>>)
    requires Exclusive(s) && EnabledRun(s, run)
    ensures ExclusionThroughout(s, run) <==> NeverFreesTooEarly(s, run)
    decreases |run|
  {
    if run != [] {
      StepKeepsExclusionExactlyWhen(s, run[0]);
      if !FreesTooEarly(s, run[0]) {
        ExclusionHoldsExactlyWhen(Step(s, run[0]), run[1..]);
      }
    }
  }

  /** Over every such run at most one task is between lock and release, and it is exactly the owner. */
  lemma {:induction false} MutualExclusion<D>(s: State<D>, run: seq<Action<D>>)
    requires Exclusive(s) && EnabledRun(s, run) && NeverFreesTooEarly(s, run)
    ensures
      var f := After(s, run);
      && Exclusive(f)
      && forall t, u | 0 <= t < |f.clients| && 0 <= u < |f.clients| ::
           f.clients[t].open > 0 && f.clients[u].open > 0 ==> t == u
    decreases |run|
  {
    if run != [] {
      StepKeepsExclusionExactlyWhen(s, run[0]);
      MutualExclusion(Step(s, run[0]), run[1..]);
    }
  }

  /** mtx_lock is not called by a task that holds the mutex. mtx_try_lock and mtx_release may be
      called by anyone at any time. */
  predicate NotNested<D>(s: State<D>, a: Action<D>)
    requires Enabled(s, a)
  {
    a.CallLock? ==> Me(s).open == 0
  }

  ghost predicate NotNestedRun<D>(s: State<D>, run: seq<Action<D>>)
    requires EnabledRun(s, run)
    decreases |run|
  {
    run != [] ==> NotNested(s, run[0]) && NotNestedRun(Step(s, run[0]), run[1..])
  }

  /** No task holds the mutex twice or waits for it while it holds it. */
  ghost predicate HeldOnce<D>(s: State<D>) {
    && (forall t | 0 <= t < |s.clients| :: s.clients[t].open <= 1)
    && (forall t | 0 <= t < |s.clients| :: s.clients[t].call.Locking? ==> s.clients[t].open == 0)
  }

  /** Clients that do not nest are such a run, so exclusion holds for them throughout. */
  lemma {:induction false} NotNestingSuffices<D>(s: State<D>, run: seq<Action<D>>)
    requires Exclusive(s) && HeldOnce(s) && EnabledRun(s, run) && NotNestedRun(s, run)
    ensures NeverFreesTooEarly(s, run) && ExclusionThroughout(s, run)
    decreases |run|
  {
    if run != [] {
      StepKeepsExclusionExactlyWhen(s, run[0]);
      NotNestingSuffices(Step(s, run[0]), run[1..]);
    }
  }

  /** What a try-lock or a release tells its caller: success means the caller takes a free mutex, or
      frees its own; failure is reported by its own code and nothing has changed. */
  lemma ReturnValuesAreTrue<D>(s: State<D>)
    requires Exclusive(s) && Me(s).call.Free?
    ensures
      var tried, s' := TryLocked(s.owner, s.cTask).1, Step(s, TryLock);
      if forall t | 0 <= t < |s.clients| :: s.clients[t].open == 0
      then tried == MUTEX_OK && Me(s').open == 1 && s'.owner == Some(s.running)
      else tried == MUTEX_ERR_ALREADY_LOCKED && s' == s
    ensures
      var released, s' := Released(s.owner, s.cTask).1, Step(s, Release);
      if Me(s).open > 0
      then released == MUTEX_OK && s'.owner == None && Me(s').open == Me(s).open - 1
      else released == MUTEX_ERR_NOT_OWNER && s' == s
  {
    if s.owner.Some? {
      assert s.clients[s.owner.value].open > 0;
    }
    assert s.clients[s.running := Me(s)] == s.clients;
  }

  /** What the running task can do next depends on its own place in the code alone, and a preemption is
      always possible. */
  lemma EnabledExactlyWhen<D>(s: State<D>, f: D -> D)
    requires Exclusive(s)
    ensures Enabled(s, Preempt)
    ensures Enabled(s, Lock) <==> Me(s).call.Locking?
    ensures Enabled(s, CallLock) && Enabled(s, TryLock) && Enabled(s, Release) && Enabled(s, Work(f))
       <==> Me(s).call.Free?
  {
  }

  /** How a task gets into a free mutex: by calling mtx_lock, or from where it already waits. */
  function EnterBy<D>(c: Client): seq<Action<D>> {
    if c.call.Free? then [CallLock, Lock] else [Lock]
  }

  lemma EnterFree<D>(s: State<D>)
    requires s.running == s.cTask < |s.clients| && s.owner == None
    ensures EnabledRun(s, EnterBy(Me(s)))
    ensures After(s, EnterBy(Me(s))) == WithMe(s, Client(Free, Me(s).open + 1)).(owner := Some(s.running))
  {
    if Me(s).call.Free? {
      var s1 := Step(s, CallLock);
      RunOne(s1, Lock, []);
      RunOne(s, CallLock, [Lock]);
    } else {
      RunOne(s, Lock, []);
    }
  }

  predicate BothInside<D>(s: State<D>, t: Tid, u: Tid) {
    t < |s.clients| && u < |s.clients| && s.clients[t].open > 0 && s.clients[u].open > 0
  }

  /** A release that comes too early lets another task in: whatever the other tasks are doing, the next
      one dispatched can take the mutex while the first is still inside. */
  lemma EarlyReleaseLetsAnotherIn<D>(s: State<D>)
    requires Exclusive(s) && |s.clients| >= 2 && Enabled(s, Release) && FreesTooEarly(s, Release)
    ensures
      var next := NextTask(|s.clients|, s.running);
      var run := [Release, Preempt] + EnterBy(s.clients[next]);
      next != s.running && EnabledRun(s, run) && BothInside(After(s, run), s.running, next)
  {
    var next := NextTask(|s.clients|, s.running);
    var enter := EnterBy(s.clients[next]);
    var s1 := Step(s, Release);
    var s2 := Step(s1, Preempt);
    EnterFree(s2);
    RunTwo(s, Release, Preempt, enter);
  }

  /** Nesting breaks exclusion, for any number of tasks in any state: a holder that locks again and
      releases once lets the next task in while its outer bracket is still open. */
  lemma NestingBreaksExclusion<D>(s: State<D>)
    requires Exclusive(s) && |s.clients| >= 2 && Me(s).call.Free? && Me(s).open > 0
    ensures
      var next := NextTask(|s.clients|, s.running);
      var run := [CallLock, Lock] + ([Release, Preempt] + EnterBy(s.clients[next]));
      next != s.running && EnabledRun(s, run) && BothInside(After(s, run), s.running, next)
  {
    var s' := WithMe(s, Client(Free, Me(s).open + 1));
    LockAgain(s);
    EarlyReleaseLetsAnotherIn(s');
    RunTwo(s, CallLock, Lock, [Release, Preempt] + EnterBy(s.clients[NextTask(|s.clients|, s.running)]));
  }

  /** A holder that calls mtx_lock again is let through at once. */
  lemma LockAgain<D>(s: State<D>)
    requires Exclusive(s) && Me(s).call.Free? && Me(s).open > 0
    ensures Enabled(s, CallLock) && Enabled(Step(s, CallLock), Lock)
    ensures
      var s' := Step(Step(s, CallLock), Lock);
      && s' == WithMe(s, Client(Free, Me(s).open + 1))
      && Exclusive(s') && Enabled(s', Release) && FreesTooEarly(s', Release)
  {
    StepKeepsExclusionExactlyWhen(s, CallLock);
    StepKeepsExclusionExactlyWhen(Step(s, CallLock), Lock);
  }

  lemma RunTwo<D>(s: State<D>, a: Action<D>, b: Action<D>, rest: seq<Action<D>>)
    requires Enabled(s, a) && Enabled(Step(s, a), b) && EnabledRun(Step(Step(s, a), b), rest)
    ensures EnabledRun(s, [a, b] + rest) && After(s, [a, b] + rest) == After(Step(Step(s, a), b), rest)
  {
    RunOne(Step(s, a), b, rest);
    RunOne(s, a, [b] + rest);
    assert [a] + ([b] + rest) == [a, b] + rest;
  }

  lemma RunOne<D>(s: State<D>, a: Action<D>, rest: seq<Action<D>>)
    requires Enabled(s, a) && EnabledRun(Step(s, a), rest)
    ensures EnabledRun(s, [a] + rest) && After(s, [a] + rest) == After(Step(s, a), rest)
  {
    assert ([a] + rest)[1..] == rest;
  }

  // Isolation of the guarded data

  /** The guarded data is touched only between lock and release. */
  ghost predicate GuardedRun<D>(s: State<D>, run: seq<Action<D>>)
    requires EnabledRun(s, run)
    decreases |run|
  {
    run != [] ==> (run[0].Work? ==> Me(s).open > 0) && GuardedRun(Step(s, run[0]), run[1..])
  }

  /** Task t does not call mtx_release during the run. */
  ghost predicate KeepsLock<D>(s: State<D>, run: seq<Action<D>>, t: Tid)
    requires EnabledRun(s, run)
    decreases |run|
  {
    run != [] ==> !(run[0].Release? && s.running == t) && KeepsLock(Step(s, run[0]), run[1..], t)
  }

  /** The data after task t's own work in a run, and nothing else. */
  ghost function OwnWork<D>(s: State<D>, run: seq<Action<D>>, t: Tid, data: D): D
    requires EnabledRun(s, run)
    decreases |run|
  {
    if run == [] then data
    else OwnWork(Step(s, run[0]), run[1..], t,
                 if run[0].Work? && s.running == t then run[0].effect(data) else data)
  }

  /** A critical section is atomic: from the moment a task holds the mutex until it releases it,
      whatever the others try, the data changes by that task's own work alone. */
  lemma {:induction false} SectionIsIsolated<D>(s: State<D>, run: seq<Action<D>>, t: Tid)
    requires Exclusive(s) && EnabledRun(s, run) && NeverFreesTooEarly(s, run) && GuardedRun(s, run)
    requires s.owner == Some(t) && KeepsLock(s, run, t)
    ensures After(s, run).owner == Some(t) && After(s, run).data == OwnWork(s, run, t, s.data)
    decreases |run|
  {
    if run != [] {
      StepKeepsExclusionExactlyWhen(s, run[0]);
      SectionIsIsolated(Step(s, run[0]), run[1..], t);
    }
  }

  // Bounded hand-over

  /** The step takes the mutex: it was free, and is now the running task's. */
  predicate Acquires<D>(s: State<D>, a: Action<D>)
    requires Enabled(s, a)
  {
    s.owner == None && Step(s, a).owner == Some(s.running)
  }

  ghost predicate SomeoneAcquires<D>(s: State<D>, run: seq<Action<D>>)
    requires EnabledRun(s, run)
    decreases |run|
  {
    run != [] && (Acquires(s, run[0]) || SomeoneAcquires(Step(s, run[0]), run[1..]))
  }

  /** The step ends in a switch: a preemption, or a lock pass that has to yield. */
  predicate SwitchesTask<D>(s: State<D>, a: Action<D>)
    requires Enabled(s, a)
  {
    a.Preempt? || (a.Lock? && LockPass(s.owner, s.cTask, Me(s).call.first).1 == MustYield)
  }

  /** Switches in a run. */
  ghost function Switches<D>(s: State<D>, run: seq<Action<D>>): nat
    requires EnabledRun(s, run)
    decreases |run|
  {
    if run == [] then 0
    else
      (if SwitchesTask(s, run[0]) then 1 else 0) + Switches(Step(s, run[0]), run[1..])
  }

  /** Each dispatched waiter reaches its re-check before being preempted. */
  ghost predicate WaitersReachRecheck<D>(s: State<D>, run: seq<Action<D>>)
    requires EnabledRun(s, run)
    decreases |run|
  {
    run != [] ==>
      && !(run[0].Preempt? && Me(s).call.Locking?)
      && WaitersReachRecheck(Step(s, run[0]), run[1..])
  }

  /** Switches until round robin reaches task w. */
  function Distance(n: nat, from: Tid, w: Tid): nat
    requires from < n && w < n
  {
    if from <= w then w - from else n - from + w
  }

  lemma {:induction false} FreeMutexIsTakenAux<D>(s: State<D>, run: seq<Action<D>>, w: Tid)
    requires Exclusive(s) && EnabledRun(s, run) && NeverFreesTooEarly(s, run) && WaitersReachRecheck(s, run)
    requires s.owner == None && w < |s.clients| && s.clients[w].call.Locking?
    requires !SomeoneAcquires(s, run)
    ensures Switches(s, run) <= Distance(|s.clients|, s.cTask, w)
    decreases |run|
  {
    if run != [] {
      StepKeepsExclusionExactlyWhen(s, run[0]);
      FreeMutexIsTakenAux(Step(s, run[0]), run[1..], w);
    }
  }

  /** If the mutex is free while some task waits for it, n switches cannot pass without an
      acquisition. */
  lemma FreeMutexIsTakenWithinOneRound<D>(s: State<D>, run: seq<Action<D>>, w: Tid)
    requires Exclusive(s) && EnabledRun(s, run) && NeverFreesTooEarly(s, run) && WaitersReachRecheck(s, run)
    requires s.owner == None && w < |s.clients| && s.clients[w].call.Locking?
    requires Switches(s, run) >= |s.clients|
    ensures SomeoneAcquires(s, run)
  {
    if !SomeoneAcquires(s, run) {
      FreeMutexIsTakenAux(s, run, w);
    }
  }
}
