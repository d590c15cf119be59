/** The mutex-guarded queue under preemption: tasks interleave at every step of every operation,
    and still all results are those of one sequential queue run in lock-acquisition order. */
module IpcQueue {
  import opened Prelude
  import opened Mutex
  import MutexClients
  import opened Fifo

  datatype Op<T> = Enqueue(item: T) | Dequeue | UsedSize | IsFull | Size

  datatype Result<T> = Flag(b: bool) | Number(n: nat) | Item(x: T)

  /** Where a task is inside the guarded region, with the values it holds in registers. */
  datatype Stage<T> =
    | Start
    | NotFull | Stored | HeadMoved
    | Loaded(item: T) | TailMoved(item: T)
    | Ready(result: Result<T>)

  /** Outside any operation; inside mtx_lock (first pass or after a yield); between lock and release. */
  datatype Local<T> = Idle | Locking(op: Op<T>, first: bool) | Inside(op: Op<T>, stage: Stage<T>)

  /** running is the task whose registers are in the processor; cTask is the kernel's variable. */
  datatype System<T> = System(ring: Ring<T>, owner: Option<Tid>, cTask: Tid, running: Tid, locals: seq<Local<T>>)

  datatype Action<T> =
    | Invoke(op: Op<T>)   // the running task calls an operation
    | Lock                // one pass through mtx_lock, interrupts off
    | Advance             // one step of the fifo operation, preemptible
    | Release             // mtx_release, and the operation returns
    | Preempt             // timer interrupt, or a yield outside any operation

  function Me<T>(s: System<T>): Local<T>
    requires s.running < |s.locals|
  {
    s.locals[s.running]
  }

  predicate Enabled<T>(s: System<T>, a: Action<T>) {
    && s.running < |s.locals| && s.cTask < |s.locals|
    && s.ring.head < |s.ring.buffer| && s.ring.tail < |s.ring.buffer|
    && match a
       case Invoke(_) => Me(s).Idle?
       case Lock => Me(s).Locking?
       case Advance => Me(s).Inside? && !Me(s).stage.Ready?
       case Release => Me(s).Inside? && Me(s).stage.Ready?
       case Preempt => true
  }

  /** One step of a fifo operation on the shared ring. */
  function Proceed<T>(r: Ring<T>, op: Op<T>, stage: Stage<T>): (Ring<T>, Stage<T>)
    requires r.head < |r.buffer| && r.tail < |r.buffer|
  {
    match stage
    case Start =>
      (match op
       case Enqueue(_) => (r, if r.count == |r.buffer| then Ready(Flag(true)) else NotFull)
       case Dequeue => (r, if r.count == 0 then Ready(Item(r.buffer[r.tail])) else Loaded(r.buffer[r.tail]))
       case UsedSize => (r, Ready(Number(r.count)))
       case IsFull => (r, Ready(Flag(r.count == |r.buffer|)))
       case Size => (r, Ready(Number(|r.buffer|))))
    case NotFull => (if op.Enqueue? then StoreItem(r, op.item) else r, Stored)
    case Stored => (AdvanceHead(r), HeadMoved)
    case HeadMoved => (r.(count := r.count + 1), Ready(Flag(false)))
    case Loaded(x) => (AdvanceTail(r), TailMoved(x))
    case TailMoved(x) => (r.(count := if r.count > 0 then r.count - 1 else 0), Ready(Item(x)))
    case Ready(_) => (r, stage)
  }

  function Step<T>(s: System<T>, a: Action<T>): System<T>
    requires Enabled(s, a)
  {
    var next := MutexClients.NextTask(|s.locals|, s.cTask);
    match a
    case Invoke(op) => s.(locals := s.locals[s.running := Locking(op, true)])
    case Lock =>
      var (owner, outcome) := LockPass(s.owner, s.cTask, Me(s).first);
      var s' := s.(owner := owner);
      if outcome == MustYield then
        s'.(locals := s.locals[s.running := Locking(Me(s).op, false)], cTask := next, running := next)
      else
        s'.(locals := s.locals[s.running := Inside(Me(s).op, Start)])
    case Advance =>
      var (ring, stage) := Proceed(s.ring, Me(s).op, Me(s).stage);
      s.(ring := ring, locals := s.locals[s.running := Inside(Me(s).op, stage)])
    case Release => s.(owner := Released(s.owner, s.cTask).0, locals := s.locals[s.running := Idle])
    case Preempt => s.(cTask := next, running := next)
  }

  ghost predicate EnabledRun<T>(s: System<T>, run: seq<Action<T>>)
    decreases |run|
  {
    run != [] ==> Enabled(s, run[0]) && EnabledRun(Step(s, run[0]), run[1..])
  }

  ghost function After<T>(s: System<T>, run: seq<Action<T>>): System<T>
    requires EnabledRun(s, run)
    decreases |run|
  {
    if run == [] then s else After(Step(s, run[0]), run[1..])
  }

  // The queue as a client of the mutex

  function ClientOf<T>(l: Local<T>): MutexClients.Client {
    match l
    case Idle => MutexClients.Client(MutexClients.Free, 0)
    case Locking(_, first) => MutexClients.Client(MutexClients.Locking(first), 0)
    case Inside(_, _) => MutexClients.Client(MutexClients.Free, 1)
  }

  /** What the mutex sees of the queue: the ring is the guarded data. */
  function AsClients<T>(s: System<T>): MutexClients.State<Ring<T>> {
    MutexClients.State(s.ring, s.owner, s.cTask, s.running,
                       seq(|s.locals|, i requires 0 <= i < |s.locals| => ClientOf(s.locals[i])))
  }

  function Effect<T>(op: Op<T>, stage: Stage<T>): Ring<T> -> Ring<T> {
    (r: Ring<T>) => if r.head < |r.buffer| && r.tail < |r.buffer| then Proceed(r, op, stage).0 else r
  }

  function ClientAction<T>(s: System<T>, a: Action<T>): MutexClients.Action<Ring<T>>
    requires Enabled(s, a)
  {
    match a
    case Invoke(_) => MutexClients.CallLock
    case Lock => MutexClients.Lock
    case Advance => MutexClients.Work(Effect(Me(s).op, Me(s).stage))
    case Release => MutexClients.Release
    case Preempt => MutexClients.Preempt
  }

  /** Every step of the queue is a step of a mutex client that does not nest and that works on the
      ring only while it holds the mutex. */
  lemma StepIsClientStep<T>(s: System<T>, a: Action<T>)
    requires Enabled(s, a)
    ensures
      var c, b := AsClients(s), ClientAction(s, a);
      && MutexClients.Enabled(c, b) && MutexClients.NotNested(c, b) && !MutexClients.FreesTooEarly(c, b)
      && (b.Work? ==> MutexClients.Me(c).open > 0)
      && AsClients(Step(s, a)) == MutexClients.Step(c, b)
  {
    var c, b := AsClients(s), ClientAction(s, a);
    assert MutexClients.Me(c) == ClientOf(Me(s));
    assert AsClients(Step(s, a)).clients == MutexClients.Step(c, b).clients;
  }

  ghost function ClientRun<T>(s: System<T>, run: seq<Action<T>>): seq<MutexClients.Action<Ring<T>>>
    requires EnabledRun(s, run)
    decreases |run|
  {
    if run == [] then [] else [ClientAction(s, run[0])] + ClientRun(Step(s, run[0]), run[1..])
  }

  /** Every run of the queue is a run of mutex clients that do not nest. */
  lemma {:induction false} RunIsClientRun<T>(s: System<T>, run: seq<Action<T>>)
    requires EnabledRun(s, run)
    ensures
      var c, bs := AsClients(s), ClientRun(s, run);
      && MutexClients.EnabledRun(c, bs) && MutexClients.NotNestedRun(c, bs)
      && MutexClients.NeverFreesTooEarly(c, bs) && MutexClients.GuardedRun(c, bs)
      && MutexClients.After(c, bs) == AsClients(After(s, run))
    decreases |run|
  {
    if run != [] {
      StepIsClientStep(s, run[0]);
      RunIsClientRun(Step(s, run[0]), run[1..]);
      assert ClientRun(s, run)[1..] == ClientRun(Step(s, run[0]), run[1..]);
    }
  }

  // Mutual exclusion

  /** The running task is c_task, and a task is inside exactly when it is the owner. */
  ghost predicate Exclusive<T>(s: System<T>) {
    && s.running == s.cTask < |s.locals|
    && (forall t | 0 <= t < |s.locals| :: s.locals[t].Inside? <==> s.owner == Some(t))
    && (s.owner.Some? ==> s.owner.value < |s.locals|)
  }

  lemma ExclusiveAsClients<T>(s: System<T>)
    ensures Exclusive(s) <==> MutexClients.Exclusive(AsClients(s))
  {
    var c := AsClients(s);
    assert forall t | 0 <= t < |s.locals| :: c.clients[t] == ClientOf(s.locals[t]);
    assert forall t | 0 <= t < |s.locals| :: s.locals[t].Inside? <==> c.clients[t].open > 0;
  }

  lemma StepKeepsExclusion<T>(s: System<T>, a: Action<T>)
    requires Exclusive(s) && Enabled(s, a)
    ensures Exclusive(Step(s, a)) && |Step(s, a).locals| == |s.locals|
  {
    ExclusiveAsClients(s);
    StepIsClientStep(s, a);
    MutexClients.StepKeepsExclusionExactlyWhen(AsClients(s), ClientAction(s, a));
    ExclusiveAsClients(Step(s, a));
  }

  /** Over every run at most one operation is between lock and release, and its task is exactly the
      owner. */
  lemma MutualExclusion<T>(s: System<T>, run: seq<Action<T>>)
    requires Exclusive(s) && EnabledRun(s, run)
    ensures
      var f := After(s, run);
      && Exclusive(f)
      && forall t, u | 0 <= t < |f.locals| && 0 <= u < |f.locals| ::
           f.locals[t].Inside? && f.locals[u].Inside? ==> t == u
  {
    ExclusiveAsClients(s);
    RunIsClientRun(s, run);
    MutexClients.MutualExclusion(AsClients(s), ClientRun(s, run));
    ExclusiveAsClients(After(s, run));
  }

  // Linearizability

  /** The sequential queue: one operation after another, nothing in between. */
  function Perform<T>(q: Queue<T>, n: nat, op: Op<T>): (Queue<T>, Result<T>)
    requires q.Valid(n)
  {
    match op
    case Enqueue(x) => var (q', full) := Put(q, n, x); (q', Flag(full))
    case Dequeue => var (q', x) := Take(q, n); (q', Item(x))
    case UsedSize => (q, Number(|q.Pending()|))
    case IsFull => (q, Flag(|q.Pending()| == n))
    case Size => (q, Number(n))
  }

  lemma PerformKeepsValid<T>(q: Queue<T>, n: nat, op: Op<T>)
    requires q.Valid(n)
    ensures Perform(q, n, op).0.Valid(n)
  {
  }

  /** The results of a sequence of operations on the sequential queue. */
  ghost function Results<T>(q: Queue<T>, n: nat, calls: seq<Call<T>>): (r: seq<Result<T>>)
    requires q.Valid(n)
    ensures |r| == |calls|
    decreases |calls|
  {
    if calls == [] then []
    else
      PerformKeepsValid(q, n, calls[0].op);
      var (q', x) := Perform(q, n, calls[0].op);
      [x] + Results(q', n, calls[1..])
  }

  datatype Call<T> = Call(tid: Tid, op: Op<T>)

  datatype Return<T> = Return(call: Call<T>, result: Result<T>)

  /** The acquisition an action makes, if any. */
  ghost function NewCall<T>(s: System<T>, a: Action<T>): seq<Call<T>>
    requires Enabled(s, a)
  {
    if a.Lock? && LockPass(s.owner, s.cTask, Me(s).first).1 == Acquired then [Call(s.running, Me(s).op)] else []
  }

  /** The return an action makes, if any. */
  ghost function NewReturn<T>(s: System<T>, a: Action<T>): seq<Return<T>>
    requires Enabled(s, a)
  {
    if a.Release? then [Return(Call(s.running, Me(s).op), Me(s).stage.result)] else []
  }

  /** The operations of a run in the order in which they acquired the lock. */
  ghost function Acquisitions<T>(s: System<T>, run: seq<Action<T>>): seq<Call<T>>
    requires EnabledRun(s, run)
    decreases |run|
  {
    if run == [] then [] else NewCall(s, run[0]) + Acquisitions(Step(s, run[0]), run[1..])
  }

  /** The operations of a run in the order in which they returned, with what they returned. */
  ghost function Returns<T>(s: System<T>, run: seq<Action<T>>): seq<Return<T>>
    requires EnabledRun(s, run)
    decreases |run|
  {
    if run == [] then [] else NewReturn(s, run[0]) + Returns(Step(s, run[0]), run[1..])
  }

  /** The operation that holds the lock, if any. */
  ghost function InProgress<T>(s: System<T>): seq<Call<T>>
    requires Exclusive(s)
  {
    if s.owner == None then [] else [Call(s.owner.value, s.locals[s.owner.value].op)]
  }

  /** What the ring looks like at each stage of an operation that started on ring r. */
  ghost predicate Partly<T>(r: Ring<T>, op: Op<T>, stage: Stage<T>, now: Ring<T>)
    requires r.head < |r.buffer| && r.tail < |r.buffer|
  {
    match stage
    case Start => now == r
    case NotFull => op.Enqueue? && r.count != |r.buffer| && now == r
    case Stored => op.Enqueue? && r.count != |r.buffer| && now == StoreItem(r, op.item)
    case HeadMoved => op.Enqueue? && r.count != |r.buffer| && now == AdvanceHead(StoreItem(r, op.item))
    case Loaded(x) => op.Dequeue? && r.count != 0 && x == r.buffer[r.tail] && now == r
    case TailMoved(x) => op.Dequeue? && r.count != 0 && x == r.buffer[r.tail] && now == AdvanceTail(r)
    case Ready(y) => (now, y) == Whole(r, op)
  }

  /** A fifo operation run without interruption. */
  function Whole<T>(r: Ring<T>, op: Op<T>): (Ring<T>, Result<T>)
    requires r.head < |r.buffer| && r.tail < |r.buffer|
  {
    match op
    case Enqueue(x) => var (r', full) := Enqueued(r, x); (r', Flag(full))
    case Dequeue => var (r', x) := Dequeued(r); (r', Item(x))
    case UsedSize => (r, Number(r.count))
    case IsFull => (r, Flag(r.count == |r.buffer|))
    case Size => (r, Number(|r.buffer|))
  }

  lemma WholeRefines<T>(r: Ring<T>, q: Queue<T>, op: Op<T>)
    requires Refines(r, q)
    ensures Whole(r, op).1 == Perform(q, |r.buffer|, op).1
    ensures Refines(Whole(r, op).0, Perform(q, |r.buffer|, op).0)
    ensures |Whole(r, op).0.buffer| == |r.buffer|
  {
    match op
    case Enqueue(x) => EnqueueRefines(r, q, x);
    case Dequeue => DequeueRefines(r, q);
    case _ =>
  }

  lemma ProceedKeepsPartly<T>(r: Ring<T>, op: Op<T>, stage: Stage<T>, now: Ring<T>)
    requires r.head < |r.buffer| && r.tail < |r.buffer| && now.head < |now.buffer| && now.tail < |now.buffer|
    requires Partly(r, op, stage, now) && !stage.Ready?
    ensures var (now', stage') := Proceed(now, op, stage); Partly(r, op, stage', now')
  {
  }

  /** Steps of the fifo code that an operation still has to make. */
  function StepsLeft<T>(stage: Stage<T>): nat {
    match stage
    case Start => 4
    case NotFull => 3
    case Stored => 2
    case HeadMoved => 1
    case Loaded(_) => 2
    case TailMoved(_) => 1
    case Ready(_) => 0
  }

  lemma ProceedComesCloser<T>(r: Ring<T>, op: Op<T>, stage: Stage<T>)
    requires r.head < |r.buffer| && r.tail < |r.buffer| && !stage.Ready?
    ensures StepsLeft(Proceed(r, op, stage).1) < StepsLeft(stage)
  {
  }

  /** Steps of fifo code in a run. */
  function Advances<T>(run: seq<Action<T>>): nat {
    if run == [] then 0 else (if run[0].Advance? then 1 else 0) + Advances(run[1..])
  }

  ghost function StepsLeftInside<T>(s: System<T>): nat
    requires Exclusive(s)
  {
    if s.owner == None then 4 else StepsLeft(s.locals[s.owner.value].stage)
  }

  /** Every operation ends: with the lock held or free, whoever runs in between, at most four steps of fifo
      code can happen before a release, so the holder comes to its release. */
  lemma {:induction false} OperationEnds<T>(s: System<T>, run: seq<Action<T>>)
    requires Exclusive(s) && EnabledRun(s, run) && Release !in run
    ensures Advances(run) <= StepsLeftInside(s) <= 4
    decreases |run|
  {
    if run != [] {
      StepKeepsExclusion(s, run[0]);
      StepComesCloser(s, run[0]);
      OperationEnds(Step(s, run[0]), run[1..]);
    }
  }

  lemma StepComesCloser<T>(s: System<T>, a: Action<T>)
    requires Exclusive(s) && Enabled(s, a) && !a.Release?
    ensures Exclusive(Step(s, a))
    ensures StepsLeftInside(Step(s, a)) + (if a.Advance? then 1 else 0) <= StepsLeftInside(s)
  {
    StepKeepsExclusion(s, a);
    if a.Advance? {
      ProceedComesCloser(s.ring, Me(s).op, Me(s).stage);
    }
  }

  /** q is the sequential queue after all returned operations, r the ring as the operation in
      progress found it. */
  ghost predicate Linked<T>(s: System<T>, q: Queue<T>, r: Ring<T>) {
    && Exclusive(s) && Refines(r, q)
    && (s.owner == None ==> s.ring == r)
    && (s.owner.Some? ==>
          var l := s.locals[s.owner.value];
          r.head < |r.buffer| && r.tail < |r.buffer| && Partly(r, l.op, l.stage, s.ring))
  }

  /** The run's returns, one by one, are the sequential results of the operation in progress
      followed by the operations that acquire the lock during the run. */
  ghost predicate Agrees<T>(q: Queue<T>, n: nat, calls: seq<Call<T>>, rets: seq<Return<T>>)
    requires q.Valid(n)
  {
    && |rets| <= |calls| <= |rets| + 1
    && forall k | 0 <= k < |rets| :: rets[k] == Return(calls[k], Results(q, n, calls)[k])
  }

  lemma AgreesCons<T>(q: Queue<T>, n: nat, c: Call<T>, calls: seq<Call<T>>, rets: seq<Return<T>>)
    requires q.Valid(n)
    requires Perform(q, n, c.op).0.Valid(n) && Agrees(Perform(q, n, c.op).0, n, calls, rets)
    ensures Agrees(q, n, [c] + calls, [Return(c, Perform(q, n, c.op).1)] + rets)
  {
    var q' := Perform(q, n, c.op).0;
    var all := [c] + calls;
    assert all[1..] == calls;
    assert Results(q, n, all) == [Perform(q, n, c.op).1] + Results(q', n, calls);
  }

  lemma RefinesInRange<T>(r: Ring<T>, q: Queue<T>)
    requires Refines(r, q)
    ensures r.head < |r.buffer| && r.tail < |r.buffer|
  {
  }

  /** In every linked state the running task can take its next step: nothing but its own place in
      the code decides which actions are enabled. */
  lemma RunningTaskCanMove<T>(s: System<T>, q: Queue<T>, r: Ring<T>, op: Op<T>)
    requires Linked(s, q, r)
    ensures Enabled(s, Preempt)
    ensures Enabled(s, Invoke(op)) <==> Me(s).Idle?
    ensures Enabled(s, Lock) <==> Me(s).Locking?
    ensures Enabled(s, Release) || Enabled(s, Advance) <==> Me(s).Inside?
  {
    RefinesInRange(r, q);
    if s.owner.Some? {
      var l := s.locals[s.owner.value];
      WholeRefines(r, q, l.op);
      RefinesInRange(Whole(r, l.op).0, Perform(q, |r.buffer|, l.op).0);
    }
  }

  /** The state relation is kept by every action; releasing moves the sequential queue on. */
  lemma StepKeepsLink<T>(s: System<T>, a: Action<T>, q: Queue<T>, r: Ring<T>)
    requires Linked(s, q, r) && Enabled(s, a) && !a.Release?
    ensures Linked(Step(s, a), q, r)
  {
    StepKeepsExclusion(s, a);
    RefinesInRange(r, q);
    if a.Advance? {
      ProceedKeepsPartly(r, Me(s).op, Me(s).stage, s.ring);
    }
  }

  lemma ReleaseMovesOn<T>(s: System<T>, q: Queue<T>, r: Ring<T>)
    requires Linked(s, q, r) && Enabled(s, Release)
    ensures
      var (q', x) := Perform(q, |r.buffer|, Me(s).op);
      && x == Me(s).stage.result
      && Linked(Step(s, Release), q', s.ring) && |s.ring.buffer| == |r.buffer|
      && InProgress(s) == [Call(s.running, Me(s).op)] && InProgress(Step(s, Release)) == []
  {
    StepKeepsExclusion(s, Release);
    WholeRefines(r, q, Me(s).op);
  }

  /** An acquired operation stays in progress until it is released. */
  lemma InProgressGrows<T>(s: System<T>, a: Action<T>)
    requires Exclusive(s) && Enabled(s, a) && !a.Release?
    ensures Exclusive(Step(s, a)) && InProgress(s) + NewCall(s, a) == InProgress(Step(s, a))
  {
    StepKeepsExclusion(s, a);
  }

  /** The sequences of a run, one action peeled off: an action that is not a release. */
  lemma PeelOther<T>(s: System<T>, run: seq<Action<T>>)
    requires Exclusive(s) && EnabledRun(s, run) && run != [] && !run[0].Release?
    ensures Exclusive(Step(s, run[0]))
    ensures InProgress(s) + Acquisitions(s, run)
         == InProgress(Step(s, run[0])) + Acquisitions(Step(s, run[0]), run[1..])
    ensures Returns(s, run) == Returns(Step(s, run[0]), run[1..])
  {
    var a, s' := run[0], Step(s, run[0]);
    var acquired := Acquisitions(s', run[1..]);
    InProgressGrows(s, a);
    assert InProgress(s) + (NewCall(s, a) + acquired) == (InProgress(s) + NewCall(s, a)) + acquired;
  }

  /** A release ends the operation in progress. */
  lemma PeelRelease<T>(s: System<T>, run: seq<Action<T>>)
    requires Exclusive(s) && EnabledRun(s, run) && run != [] && run[0].Release?
    ensures
      var s', c := Step(s, Release), Call(s.running, Me(s).op);
      && Exclusive(s')
      && InProgress(s) + Acquisitions(s, run) == [c] + (InProgress(s') + Acquisitions(s', run[1..]))
      && Returns(s, run) == [Return(c, Me(s).stage.result)] + Returns(s', run[1..])
  {
    StepKeepsExclusion(s, Release);
    assert InProgress(Step(s, Release)) == [];
  }

  lemma {:induction false} RunAgrees<T>(s: System<T>, run: seq<Action<T>>, q: Queue<T>, r: Ring<T>)
    requires Linked(s, q, r) && EnabledRun(s, run)
    ensures Agrees(q, |r.buffer|, InProgress(s) + Acquisitions(s, run), Returns(s, run))
    decreases |run|
  {
    if run == [] {
      NothingYet(s, q, |r.buffer|);
    } else if run[0].Release? {
      ReleaseMovesOn(s, q, r);
      var c, s' := Call(s.running, Me(s).op), Step(s, Release);
      RunAgrees(s', run[1..], Perform(q, |r.buffer|, c.op).0, s.ring);
      AgreesCons(q, |r.buffer|, c, InProgress(s') + Acquisitions(s', run[1..]), Returns(s', run[1..]));
      PeelRelease(s, run);
    } else {
      StepKeepsLink(s, run[0], q, r);
      RunAgrees(Step(s, run[0]), run[1..], q, r);
      PeelOther(s, run);
    }
  }

  lemma NothingYet<T>(s: System<T>, q: Queue<T>, n: nat)
    requires Exclusive(s) && q.Valid(n)
    ensures Agrees(q, n, InProgress(s) + Acquisitions(s, []), Returns(s, []))
  {
  }

  // What is called is what is run

  /** The operations that task t calls in a run, in order. */
  ghost function CalledBy<T>(s: System<T>, run: seq<Action<T>>, t: Tid): seq<Op<T>>
    requires EnabledRun(s, run)
    decreases |run|
  {
    if run == [] then []
    else (if run[0].Invoke? && s.running == t then [run[0].op] else []) + CalledBy(Step(s, run[0]), run[1..], t)
  }

  /** The operations of task t among calls. */
  function OfTask<T>(calls: seq<Call<T>>, t: Tid): seq<Op<T>> {
    if calls == [] then [] else (if calls[0].tid == t then [calls[0].op] else []) + OfTask(calls[1..], t)
  }

  /** The operation with which task t is still waiting for the lock, if any. */
  function Waiting<T>(s: System<T>, t: Tid): seq<Op<T>>
    requires t < |s.locals|
  {
    if s.locals[t].Locking? then [s.locals[t].op] else []
  }

  lemma OfTaskConcat<T>(c: seq<Call<T>>, calls: seq<Call<T>>, t: Tid)
    requires |c| <= 1
    ensures OfTask(c + calls, t) == OfTask(c, t) + OfTask(calls, t)
  {
    if c == [] {
      assert c + calls == calls;
    } else {
      assert (c + calls)[1..] == calls;
      assert c[1..] == [];
    }
  }

  /** One step: a task's waiting operation is the one it called, until that one acquires the lock. */
  lemma StepKeepsCalled<T>(s: System<T>, a: Action<T>, t: Tid)
    requires Exclusive(s) && Enabled(s, a) && t < |s.locals|
    ensures |Step(s, a).locals| == |s.locals|
    ensures Waiting(s, t) + (if a.Invoke? && s.running == t then [a.op] else [])
         == OfTask(NewCall(s, a), t) + Waiting(Step(s, a), t)
  {
  }

  /** Over every run, the operations a task calls are, in order, those with which it acquires the lock,
      followed by the one it is waiting with, if any. */
  lemma {:induction false} CalledIsAcquired<T>(s: System<T>, run: seq<Action<T>>, t: Tid)
    requires Exclusive(s) && EnabledRun(s, run) && t < |s.locals|
    ensures |After(s, run).locals| == |s.locals|
    ensures Waiting(s, t) + CalledBy(s, run, t) == OfTask(Acquisitions(s, run), t) + Waiting(After(s, run), t)
    decreases |run|
  {
    if run != [] {
      var a, s' := run[0], Step(s, run[0]);
      StepKeepsExclusion(s, a);
      StepKeepsCalled(s, a, t);
      CalledIsAcquired(s', run[1..], t);
      OfTaskConcat(NewCall(s, a), Acquisitions(s', run[1..]), t);
      Chain(Waiting(s, t), if a.Invoke? && s.running == t then [a.op] else [], CalledBy(s', run[1..], t),
            OfTask(NewCall(s, a), t), Waiting(s', t), OfTask(Acquisitions(s', run[1..]), t), Waiting(After(s, run), t));
    }
  }

  lemma Chain<T>(w: seq<T>, c: seq<T>, cs: seq<T>, a: seq<T>, w': seq<T>, acq: seq<T>, w'': seq<T>)
    requires w + c == a + w' && w' + cs == acq + w''
    ensures w + (c + cs) == (a + acq) + w''
  {
    assert w + (c + cs) == (w + c) + cs;
    assert (a + w') + cs == a + (w' + cs);
    assert a + (acq + w'') == (a + acq) + w'';
  }

  /** Every interleaving from the initial state: the operations each task calls are, in order, those with
      which it acquires the lock, followed by the one it still waits with; and the k-th operation to
      return is the k-th to have acquired the lock, and returns what the sequential queue returns. */
  lemma Linearizable<T>(buffer: seq<T>, tasks: nat, first: Tid, run: seq<Action<T>>)
    requires buffer != [] && first < tasks
    requires EnabledRun(Initial(buffer, tasks, first), run)
    ensures
      var s := Initial(buffer, tasks, first);
      && |After(s, run).locals| == tasks
      && (forall t | 0 <= t < tasks ::
            CalledBy(s, run, t) == OfTask(Acquisitions(s, run), t) + Waiting(After(s, run), t))
      && Agrees(EmptyQueue(buffer), |buffer|, Acquisitions(s, run), Returns(s, run))
  {
    var s := Initial(buffer, tasks, first);
    InitialRefines(buffer);
    RunAgrees(s, run, EmptyQueue(buffer), s.ring);
    assert InProgress(s) + Acquisitions(s, run) == Acquisitions(s, run);
    CalledIsAcquired(s, run, first);
    forall t | 0 <= t < tasks
      ensures CalledBy(s, run, t) == OfTask(Acquisitions(s, run), t) + Waiting(After(s, run), t)
    {
      CalledIsAcquired(s, run, t);
      assert [] + CalledBy(s, run, t) == CalledBy(s, run, t);
    }
  }

  function Initial<T>(buffer: seq<T>, tasks: nat, first: Tid): System<T> {
    System(Ring(buffer, 0, 0, 0), None, first, first, seq(tasks, _ => Idle))
  }

  // Bounded hand-over

  lemma {:induction false} AcquisitionsAreClientAcquisitions<T>(s: System<T>, run: seq<Action<T>>)
    requires EnabledRun(s, run)
    ensures MutexClients.EnabledRun(AsClients(s), ClientRun(s, run))
    ensures MutexClients.SomeoneAcquires(AsClients(s), ClientRun(s, run)) ==> Acquisitions(s, run) != []
    decreases |run|
  {
    RunIsClientRun(s, run);
    if run != [] {
      StepIsClientStep(s, run[0]);
      AcquisitionsAreClientAcquisitions(Step(s, run[0]), run[1..]);
      assert ClientRun(s, run)[1..] == ClientRun(Step(s, run[0]), run[1..]);
    }
  }

  /** If the mutex is free while some operation waits for it, n switches cannot pass without an
      operation entering the queue. */
  lemma FreeMutexIsTakenWithinOneRound<T>(s: System<T>, run: seq<Action<T>>, w: Tid)
    requires Exclusive(s) && EnabledRun(s, run)
    requires MutexClients.EnabledRun(AsClients(s), ClientRun(s, run))
    requires MutexClients.WaitersReachRecheck(AsClients(s), ClientRun(s, run))
    requires s.owner == None && w < |s.locals| && s.locals[w].Locking?
    requires MutexClients.Switches(AsClients(s), ClientRun(s, run)) >= |s.locals|
    ensures Acquisitions(s, run) != []
  {
    ExclusiveAsClients(s);
    RunIsClientRun(s, run);
    MutexClients.FreeMutexIsTakenWithinOneRound(AsClients(s), ClientRun(s, run), w);
    AcquisitionsAreClientAcquisitions(s, run);
  }
}
