/** Whole runs of the interleaved machine: any number of tasks, any sequence of timer preemptions
    and yields, any choice of the next task. Every task's view evolves exactly as it would on a
    processor of its own. */
module TaskRefinement {
  import opened Prelude
  import opened Avr
  import opened ContextMacros
  import opened TaskSwitch

  /** What a running task does between switches is any function of its own view; it may also
      write shared memory. A switch names how the kernel was entered and left and who runs next. */
  datatype Event =
    | Local(effect: View -> View)
    | Switch(entry: Entry, exit: Exit, next: nat)

  ghost predicate Inv(s: Symbols, ts: seq<TaskArea>, y: System) {
    && Layout(s, ts)
    && y.cur < |ts|
    && WordAt(y.m.mem, s.cTask) == ts[y.cur].task
    && OnStack(ts[y.cur], y.m.sp)
    && (forall k | 0 <= k < |ts| && k != y.cur :: Resumable(s, y.m.mem, ts[k]))
  }

  ghost function ViewOf(s: Symbols, ts: seq<TaskArea>, y: System, k: nat): View
    requires Inv(s, ts, y) && k < |ts|
  {
    if k == y.cur then RunningView(y.m, ts[k]) else SuspendedView(s, y.m.mem, ts[k])
  }

  /** Bytes that neither the running task nor the kernel code may write: every saved context
      and every stack except the one in use below the given address. */
  ghost predicate Untouched(s: Symbols, ts: seq<TaskArea>, cur: nat, floor: int, was: Memory, now: Memory)
    requires cur < |ts|
  {
    && (forall k, a | 0 <= k < |ts| && InContext(s, ts[k], a) && 0 <= a < 0x10000 :: now[a] == was[a])
    && (forall k, a | 0 <= k < |ts| && k != cur && InStack(ts[k], a) :: now[a] == was[a])
    && (forall a | floor < a && InStack(ts[cur], a) :: now[a] == was[a])
  }

  /** The running task acts on its own view and on memory that is no one else's. */
  ghost predicate LocalStep(s: Symbols, ts: seq<TaskArea>, y: System, effect: View -> View, y': System)
    requires Inv(s, ts, y)
  {
    var t := ts[y.cur];
    && y'.cur == y.cur && OnStack(t, y'.m.sp)
    && RunningView(y'.m, t) == effect(RunningView(y.m, t))
    && Untouched(s, ts, y.cur, t.hi, y.m.mem, y'.m.mem)
    && WordAt(y'.m.mem, s.cTask) == WordAt(y.m.mem, s.cTask)
  }

  /** The compiled code between the two macros: it points c_task at the next task, may leave any
      register contents, and uses only shared memory and the stack below the saved SP. */
  ghost predicate KernelCode(s: Symbols, ts: seq<TaskArea>, cur: nat, next: nat, m: Machine, m': Machine)
    requires s.Valid() && cur < |ts| && next < |ts|
  {
    && WordAt(m'.mem, s.cTask) == ts[next].task
    && !InterruptsOn(m')
    && Untouched(s, ts, cur, m.sp, m.mem, m'.mem)
  }

  ghost predicate SwitchVia(s: Symbols, ts: seq<TaskArea>, y: System, e: Event, mid: Machine, y': System)
    requires Inv(s, ts, y) && e.Switch?
  {
    && e.next < |ts| && !e.exit.PlainReturn?
    && (e.entry.TimerInterrupt? ==> InterruptsOn(y.m))
    && HasRoom(ts[y.cur], y.m.sp)
    && KernelCode(s, ts, y.cur, e.next, Suspend(s, e.entry, y.m), mid)
    && y' == System(Resume(s, e.exit, mid), e.next)
  }

  ghost predicate Next(s: Symbols, ts: seq<TaskArea>, y: System, e: Event, y': System)
    requires Inv(s, ts, y)
  {
    match e
    case Local(effect) => LocalStep(s, ts, y, effect, y')
    case Switch(_, _, _) => exists mid :: SwitchVia(s, ts, y, e, mid, y')
  }

  lemma Separate(s: Symbols, ts: seq<TaskArea>, i: nat, j: nat)
    requires Layout(s, ts) && i < |ts| && j < |ts| && i != j
    ensures AreaOk(s, ts[i]) && AreaOk(s, ts[j]) && AreasApart(s, ts[i], ts[j])
  {
    if j < i {
      assert AreasApart(s, ts[j], ts[i]);
    }
  }

  /** What the saving code, the kernel code and the restoring code do to a task that is neither
      the outgoing nor the incoming one, or to the incoming one before it is restored. */
  lemma OtherTaskKept(s: Symbols, ts: seq<TaskArea>, k: nat, cur: nat, sp: Word, m0: Memory, m1: Memory, m2: Memory)
    requires Layout(s, ts) && k < |ts| && cur < |ts| && k != cur && Resumable(s, m0, ts[k])
    requires HasRoom(ts[cur], sp)
    requires OnlyTouches(m0, m1, ts[cur].task + s.offset, CONTEXT_SIZE, sp - 4, 5)
    requires Untouched(s, ts, cur, sp - 2, m1, m2)
    ensures Resumable(s, m2, ts[k]) && SuspendedView(s, m2, ts[k]) == SuspendedView(s, m0, ts[k])
    ensures SavedContext(s, m2, ts[k]) == SavedContext(s, m0, ts[k])
  {
    Separate(s, ts, k, cur);
    SuspendedFrame(s, ts[k], m0, m1);
    SuspendedFrame(s, ts[k], m1, m2);
  }

  /** The restoring code writes two dead bytes on the incoming stack: no suspended view notices. */
  lemma RestoreKeepsOthers(s: Symbols, ts: seq<TaskArea>, k: nat, next: nat, m2: Memory, m3: Memory)
    requires Layout(s, ts) && k < |ts| && next < |ts| && k != next
    requires Resumable(s, m2, ts[k]) && Resumable(s, m2, ts[next])
    requires var sp := SavedContext(s, m2, ts[next]).sp; OnlyTouches(m2, m3, sp - 1, 2, sp - 1, 2)
    ensures Resumable(s, m3, ts[k]) && SuspendedView(s, m3, ts[k]) == SuspendedView(s, m2, ts[k])
    ensures SavedContext(s, m3, ts[k]) == SavedContext(s, m2, ts[k])
  {
    Separate(s, ts, k, next);
    SuspendedFrame(s, ts[k], m2, m3);
  }

  /** After the kernel code every task, the outgoing one included, is suspended with its view. */
  lemma AllSuspended(s: Symbols, ts: seq<TaskArea>, y: System, e: Event, mid: Machine, k: nat)
    requires Inv(s, ts, y) && e.Switch? && e.next < |ts| && HasRoom(ts[y.cur], y.m.sp) && k < |ts|
    requires KernelCode(s, ts, y.cur, e.next, Suspend(s, e.entry, y.m), mid)
    ensures Resumable(s, mid.mem, ts[k]) && SuspendedView(s, mid.mem, ts[k]) == ViewOf(s, ts, y, k)
    ensures if k == y.cur then SavedContext(s, mid.mem, ts[k]).sreg < 0x80
            else SavedContext(s, mid.mem, ts[k]) == SavedContext(s, y.m.mem, ts[k])
  {
    var n := Suspend(s, e.entry, y.m);
    SuspendKeepsView(s, ts[y.cur], e.entry, y.m);
    if k == y.cur {
      SuspendedFrame(s, ts[k], n.mem, mid.mem);
    } else {
      OtherTaskKept(s, ts, k, y.cur, y.m.sp, y.m.mem, n.mem, mid.mem);
    }
  }

  /** One switch: the next task runs with interrupts enabled, and no task's view has changed. */
  lemma SwitchIsTransparent(s: Symbols, ts: seq<TaskArea>, y: System, e: Event, mid: Machine, y': System)
    requires Inv(s, ts, y) && e.Switch? && SwitchVia(s, ts, y, e, mid, y')
    ensures Inv(s, ts, y') && y'.cur == e.next && InterruptsOn(y'.m)
    ensures forall k | 0 <= k < |ts| :: ViewOf(s, ts, y', k) == ViewOf(s, ts, y, k)
  {
    AllSuspended(s, ts, y, e, mid, e.next);
    ResumeKeepsView(s, ts[e.next], e.exit, mid);
    forall k | 0 <= k < |ts| && k != e.next
      ensures Resumable(s, y'.m.mem, ts[k]) && SuspendedView(s, y'.m.mem, ts[k]) == ViewOf(s, ts, y, k)
    {
      AllSuspended(s, ts, y, e, mid, k);
      RestoreKeepsOthers(s, ts, k, e.next, mid.mem, y'.m.mem);
    }
    CurrentPointerKept(s, ts, e.next, mid.mem, y'.m.mem);
  }

  lemma CurrentPointerKept(s: Symbols, ts: seq<TaskArea>, next: nat, m2: Memory, m3: Memory)
    requires Layout(s, ts) && next < |ts| && Resumable(s, m2, ts[next])
    requires var sp := SavedContext(s, m2, ts[next]).sp; OnlyTouches(m2, m3, sp - 1, 2, sp - 1, 2)
    ensures WordAt(m3, s.cTask) == WordAt(m2, s.cTask)
  {
    assert AreaOk(s, ts[next]);
  }

  /** What the running task does changes its own view by its own effect, and no other view. */
  lemma LocalIsPrivate(s: Symbols, ts: seq<TaskArea>, y: System, effect: View -> View, y': System)
    requires Inv(s, ts, y) && LocalStep(s, ts, y, effect, y')
    ensures Inv(s, ts, y')
    ensures forall k | 0 <= k < |ts| ::
              ViewOf(s, ts, y', k) == if k == y.cur then effect(ViewOf(s, ts, y, k)) else ViewOf(s, ts, y, k)
  {
    forall k | 0 <= k < |ts| && k != y.cur
      ensures Resumable(s, y'.m.mem, ts[k])
      ensures SuspendedView(s, y'.m.mem, ts[k]) == SuspendedView(s, y.m.mem, ts[k])
    {
      SuspendedFrame(s, ts[k], y.m.mem, y'.m.mem);
    }
  }

  /** kernel_start: with every task suspended and c_task set, restoring and returning starts that
      task; interrupts are then on exactly when its saved SREG says so. */
  lemma KernelStart(s: Symbols, ts: seq<TaskArea>, m: Machine, first: nat)
    requires Layout(s, ts) && first < |ts| && WordAt(m.mem, s.cTask) == ts[first].task
    requires forall k | 0 <= k < |ts| :: Resumable(s, m.mem, ts[k])
    ensures
      var y := System(Resume(s, PlainReturn, m), first);
      && Inv(s, ts, y)
      && (forall k | 0 <= k < |ts| :: ViewOf(s, ts, y, k) == SuspendedView(s, m.mem, ts[k]))
      && (InterruptsOn(y.m) <==> SavedContext(s, m.mem, ts[first]).sreg >= 0x80)
  {
    var y := System(Resume(s, PlainReturn, m), first);
    ResumeKeepsView(s, ts[first], PlainReturn, m);
    StartFlag(s, ts[first], m);
    forall k | 0 <= k < |ts| && k != first
      ensures Resumable(s, y.m.mem, ts[k])
      ensures SuspendedView(s, y.m.mem, ts[k]) == SuspendedView(s, m.mem, ts[k])
    {
      RestoreKeepsOthers(s, ts, k, first, m.mem, y.m.mem);
    }
    CurrentPointerKept(s, ts, first, m.mem, y.m.mem);
  }

  lemma StartFlag(s: Symbols, t: TaskArea, m: Machine)
    requires s.Valid() && AreaOk(s, t) && WordAt(m.mem, s.cTask) == t.task && Resumable(s, m.mem, t)
    ensures Resume(s, PlainReturn, m).sreg == SavedContext(s, m.mem, t).sreg
  {
    RestoreCorrect(s, m);
    ExitEffect(PlainReturn, Run(RestoreContext(s), m));
  }

  /** A run: consecutive states related by the events, from a state that satisfies the invariant. */
  ghost predicate IsRun(s: Symbols, ts: seq<TaskArea>, states: seq<System>, events: seq<Event>) {
    |states| == |events| + 1 && Inv(s, ts, states[0]) && Follows(s, ts, states, events)
  }

  ghost predicate Follows(s: Symbols, ts: seq<TaskArea>, states: seq<System>, events: seq<Event>)
    requires |states| == |events| + 1
    decreases |events|
  {
    events != [] && Inv(s, ts, states[0]) ==>
      Next(s, ts, states[0], events[0], states[1]) && Follows(s, ts, states[1..], events[1..])
  }

  /** Task k alone on a processor of its own: only its own effects, in order. */
  ghost function Alone(events: seq<Event>, cur: nat, k: nat, v: View): View {
    if events == [] then v
    else match events[0]
      case Local(effect) => Alone(events[1..], cur, k, if cur == k then effect(v) else v)
      case Switch(_, _, next) => Alone(events[1..], next, k, v)
  }

  /** The refinement: in every run, every task ends with the view it would have had alone. */
  lemma {:induction false} InterleavingRefinesIndependentTasks(
    s: Symbols, ts: seq<TaskArea>, states: seq<System>, events: seq<Event>, k: nat)
    requires IsRun(s, ts, states, events) && k < |ts|
    ensures Inv(s, ts, states[|events|])
    ensures ViewOf(s, ts, states[|events|], k)
         == Alone(events, states[0].cur, k, ViewOf(s, ts, states[0], k))
    decreases |events|
  {
    if events != [] {
      OneEvent(s, ts, states[0], events[0], states[1]);
      InterleavingRefinesIndependentTasks(s, ts, states[1..], events[1..], k);
      assert states[1..][|events| - 1] == states[|events|];
    }
  }

  /** Any single event keeps the invariant and changes at most the running task's view. */
  lemma OneEvent(s: Symbols, ts: seq<TaskArea>, y: System, e: Event, y': System)
    requires Inv(s, ts, y) && Next(s, ts, y, e, y')
    ensures Inv(s, ts, y')
    ensures y'.cur == if e.Switch? then e.next else y.cur
    ensures forall k | 0 <= k < |ts| ::
              ViewOf(s, ts, y', k)
              == if e.Local? && k == y.cur then e.effect(ViewOf(s, ts, y, k)) else ViewOf(s, ts, y, k)
  {
    match e
    case Local(effect) => LocalIsPrivate(s, ts, y, effect, y');
    case Switch(_, _, _) =>
      var mid :| SwitchVia(s, ts, y, e, mid, y');
      SwitchIsTransparent(s, ts, y, e, mid, y');
  }

  // Interrupts stay off inside every restore

  /** Every suspended task was suspended by the saving code, not freshly created: its SREG has I clear. */
  ghost predicate AllMasked(s: Symbols, ts: seq<TaskArea>, y: System)
    requires Inv(s, ts, y)
  {
    forall k | 0 <= k < |ts| && k != y.cur :: SavedContext(s, y.m.mem, ts[k]).sreg < 0x80
  }

  lemma MaskedSwitch(s: Symbols, ts: seq<TaskArea>, y: System, e: Event, mid: Machine, y': System)
    requires Inv(s, ts, y) && e.Switch? && SwitchVia(s, ts, y, e, mid, y') && AllMasked(s, ts, y)
    ensures Inv(s, ts, y') && AllMasked(s, ts, y')
  {
    SwitchIsTransparent(s, ts, y, e, mid, y');
    AllSuspended(s, ts, y, e, mid, e.next);
    ResumeKeepsView(s, ts[e.next], e.exit, mid);
    forall k | 0 <= k < |ts| && k != e.next ensures SavedContext(s, y'.m.mem, ts[k]).sreg < 0x80 {
      AllSuspended(s, ts, y, e, mid, k);
      RestoreKeepsOthers(s, ts, k, e.next, mid.mem, y'.m.mem);
    }
  }

  /** The restoring code of such a switch cannot be interrupted before its return. */
  lemma MaskedRestore(s: Symbols, ts: seq<TaskArea>, y: System, e: Event, mid: Machine, y': System, n: nat)
    requires Inv(s, ts, y) && e.Switch? && SwitchVia(s, ts, y, e, mid, y') && AllMasked(s, ts, y)
    requires n <= |RestoreContext(s)|
    ensures !InterruptsOn(After(RestoreContext(s), mid, n))
  {
    AllSuspended(s, ts, y, e, mid, e.next);
    MaskedContextRestore(s, ts[e.next], mid, n);
  }

  lemma MaskedContextRestore(s: Symbols, t: TaskArea, m: Machine, n: nat)
    requires s.Valid() && AreaOk(s, t) && WordAt(m.mem, s.cTask) == t.task && Resumable(s, m.mem, t)
    requires !InterruptsOn(m) && SavedContext(s, m.mem, t).sreg < 0x80 && n <= |RestoreContext(s)|
    ensures !InterruptsOn(After(RestoreContext(s), m, n))
  {
    RestoreIsUninterrupted(s, m);
  }

  /** Once every task has been dispatched, it stays so: over every run all suspended contexts have
      I clear, and (MaskedRestore) no restore on the way can be interrupted before its return. */
  lemma {:induction false} RestoresStayUninterrupted(
    s: Symbols, ts: seq<TaskArea>, states: seq<System>, events: seq<Event>)
    requires IsRun(s, ts, states, events) && AllMasked(s, ts, states[0])
    ensures Inv(s, ts, states[|events|]) && AllMasked(s, ts, states[|events|])
    decreases |events|
  {
    if events != [] {
      var y, e, y' := states[0], events[0], states[1];
      OneEvent(s, ts, y, e, y');
      match e {
        case Local(effect) =>
          forall k | 0 <= k < |ts| && k != y.cur ensures SavedContext(s, y'.m.mem, ts[k]).sreg < 0x80 {
            SuspendedFrame(s, ts[k], y.m.mem, y'.m.mem);
          }
        case Switch(_, _, _) =>
          var mid :| SwitchVia(s, ts, y, e, mid, y');
          MaskedSwitch(s, ts, y, e, mid, y');
      }
      RestoresStayUninterrupted(s, ts, states[1..], events[1..]);
      assert states[1..][|events| - 1] == states[|events|];
    }
  }
}
