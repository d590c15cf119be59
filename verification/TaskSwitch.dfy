/** Many tasks on one processor: the interleaved machine seen task by task. A task's view is its
    registers, stack pointer, arithmetic flags, program counter and live stack bytes; switching
    never changes any task's view, so each task runs as if it had a processor of its own. */
module TaskSwitch {
  import opened Prelude
  import opened Avr
  import opened ContextMacros

  /** The control block address and the lowest and highest address of the stack of one task. */
  datatype TaskArea = TaskArea(task: Word, lo: Word, hi: Word)

  datatype View = View(r: RegisterFile, sp: Word, flags: Byte, pc: Word, stack: seq<Byte>)

  datatype Entry = TimerInterrupt | YieldCall

  datatype Exit = ReturnFromInterrupt | EnableAndReturn | PlainReturn

  /** One processor and one memory, with the index of the task that is executing. */
  datatype System = System(m: Machine, cur: nat)

  predicate InContext(s: Symbols, t: TaskArea, a: int) {
    t.task + s.offset <= a < t.task + s.offset + CONTEXT_SIZE
  }

  predicate InStack(t: TaskArea, a: int) { t.lo <= a <= t.hi }

  ghost predicate AreaOk(s: Symbols, t: TaskArea) {
    && 0x100 <= t.task && t.task + s.offset + CONTEXT_SIZE <= 0x10000
    && 0x100 <= t.lo <= t.hi
    && Apart(s.cTask, 2, t.task + s.offset, CONTEXT_SIZE)
    && Apart(s.cTask, 2, t.lo, t.hi - t.lo + 1)
    && Apart(t.task + s.offset, CONTEXT_SIZE, t.lo, t.hi - t.lo + 1)
  }

  ghost predicate AreasApart(s: Symbols, t: TaskArea, u: TaskArea)
    requires AreaOk(s, t) && AreaOk(s, u)
  {
    && Apart(t.task + s.offset, CONTEXT_SIZE, u.task + s.offset, CONTEXT_SIZE)
    && Apart(t.lo, t.hi - t.lo + 1, u.lo, u.hi - u.lo + 1)
    && Apart(t.task + s.offset, CONTEXT_SIZE, u.lo, u.hi - u.lo + 1)
    && Apart(u.task + s.offset, CONTEXT_SIZE, t.lo, t.hi - t.lo + 1)
  }

  /** Control blocks and stacks lie in SRAM and are pairwise disjoint. */
  ghost predicate Layout(s: Symbols, ts: seq<TaskArea>) {
    && s.Valid()
    && (forall i | 0 <= i < |ts| :: AreaOk(s, ts[i]))
    && (forall i, j | 0 <= i < j < |ts| :: AreasApart(s, ts[i], ts[j]))
  }

  predicate OnStack(t: TaskArea, sp: Word) { t.lo <= sp + 1 && sp <= t.hi }

  function RunningView(m: Machine, t: TaskArea): View
    requires OnStack(t, m.sp)
  {
    View(m.r, m.sp, Flags(m.sreg), m.pc, m.mem[m.sp + 1..t.hi + 1])
  }

  function SavedContext(s: Symbols, mem: Memory, t: TaskArea): Context
    requires AreaOk(s, t)
  {
    ContextAt(mem, t.task + s.offset)
  }

  /** A complete resumable frame: the saved SP leaves room for the return address above it
      and for the two scratch bytes of the restoring code at and below it. */
  ghost predicate Resumable(s: Symbols, mem: Memory, t: TaskArea)
    requires AreaOk(s, t)
  {
    t.lo + 1 <= SavedContext(s, mem, t).sp <= t.hi - 2
  }

  function SuspendedView(s: Symbols, mem: Memory, t: TaskArea): View
    requires AreaOk(s, t) && Resumable(s, mem, t)
  {
    var c := SavedContext(s, mem, t);
    View(c.r, c.sp + 2, Flags(c.sreg), MakeWord(mem[c.sp + 2], mem[c.sp + 1]), mem[c.sp + 3..t.hi + 1])
  }

  /** Entering the kernel pushes the return address; an interrupt also clears I. */
  function Enter(e: Entry, m: Machine): Machine {
    match e
    case TimerInterrupt => PushPc(m).(sreg := Flags(m.sreg))
    case YieldCall => PushPc(m)
  }

  function ExitCode(x: Exit): seq<Instr> {
    match x
    case ReturnFromInterrupt => [Reti]
    case EnableAndReturn => [Sei, Ret]
    case PlainReturn => [Ret]
  }

  function Suspend(s: Symbols, e: Entry, m: Machine): Machine
    requires s.Valid()
  {
    Run(SaveContext(s), Enter(e, m))
  }

  function Resume(s: Symbols, x: Exit, m: Machine): Machine
    requires s.Valid()
  {
    Run(ExitCode(x), Run(RestoreContext(s), m))
  }

  /** Five free bytes below SP: the return address and the three scratch bytes of the saving code. */
  predicate HasRoom(t: TaskArea, sp: Word) { t.lo + 4 <= sp <= t.hi }

  /** n holds task t suspended as m was running it, and differs in memory only in the control block and
      five bytes below the stack in use. */
  ghost predicate SuspendedAs(s: Symbols, t: TaskArea, m: Machine, n: Machine)
    requires AreaOk(s, t) && HasRoom(t, m.sp)
  {
    && Resumable(s, n.mem, t) && SuspendedView(s, n.mem, t) == RunningView(m, t)
    && SavedContext(s, n.mem, t).sreg < 0x80
    && n.sp == m.sp - 2 && !InterruptsOn(n)
    && OnlyTouches(m.mem, n.mem, t.task + s.offset, CONTEXT_SIZE, m.sp - 4, 5)
  }

  /** What the saving code leaves behind is exactly the view of the interrupted task. */
  lemma SuspendKeepsView(s: Symbols, t: TaskArea, e: Entry, m: Machine)
    requires s.Valid() && AreaOk(s, t) && WordAt(m.mem, s.cTask) == t.task && HasRoom(t, m.sp)
    ensures SuspendedAs(s, t, m, Suspend(s, e, m))
  {
    var m1 := Enter(e, m);
    EnterKeepsPointer(s, t, e, m);
    SaveCorrect(s, m1);
    SavedView(s, t, m, m1, Suspend(s, e, m));
  }

  /** The machine that has entered the kernel from m, with the return address on the stack. */
  ghost predicate Entered(m: Machine, m1: Machine) {
    m1 == PushPc(m).(sreg := m1.sreg) && Flags(m1.sreg) == Flags(m.sreg)
  }

  /** An interrupt turns interrupts off before the first instruction of its handler; a call does not. */
  lemma EnterEffect(e: Entry, m: Machine)
    ensures
      var n := Enter(e, m);
      && n == PushPc(m).(sreg := n.sreg)
      && n.sreg == if e.TimerInterrupt? && m.sreg >= 0x80 then m.sreg - 0x80 else m.sreg
  {
  }

  lemma EnterKeepsPointer(s: Symbols, t: TaskArea, e: Entry, m: Machine)
    requires s.Valid() && AreaOk(s, t) && WordAt(m.mem, s.cTask) == t.task && HasRoom(t, m.sp)
    ensures
      var m1 := Enter(e, m);
      CanSave(s, m1) && CurrentBlock(s, m1.mem) == t.task + s.offset && Entered(m, m1)
  {
    var m1 := Enter(e, m);
    assert m1.mem == m.mem[m.sp := Lo(m.pc)][m.sp - 1 := Hi(m.pc)];
    assert m1.mem[s.cTask] == m.mem[s.cTask] && m1.mem[s.cTask + 1] == m.mem[s.cTask + 1];
  }

  lemma SavedView(s: Symbols, t: TaskArea, m: Machine, m1: Machine, n: Machine)
    requires s.Valid() && AreaOk(s, t) && HasRoom(t, m.sp)
    requires Entered(m, m1) && Saved(m1, t.task + s.offset, n)
    ensures SuspendedAs(s, t, m, n)
  {
    assert m1.sp == m.sp - 2;
    assert m1.mem == m.mem[m.sp := Lo(m.pc)][m.sp - 1 := Hi(m.pc)];
    assert n.mem[m.sp] == Lo(m.pc) && n.mem[m.sp - 1] == Hi(m.pc);
    StackKept(t, m, m1, n);
    ReturnAddressIs(m.pc);
  }

  lemma ReturnAddressIs(pc: Word)
    ensures MakeWord(Lo(pc), Hi(pc)) == pc
  {
  }

  lemma StackKept(t: TaskArea, m: Machine, m1: Machine, n: Machine)
    requires t.lo + 4 <= m.sp <= t.hi && m1.mem == m.mem[m.sp := Lo(m.pc)][m.sp - 1 := Hi(m.pc)]
    requires forall a | m.sp < a <= t.hi :: n.mem[a] == m1.mem[a]
    ensures n.mem[m.sp + 1..t.hi + 1] == m.mem[m.sp + 1..t.hi + 1]
  {
    forall a | m.sp < a <= t.hi ensures n.mem[a] == m.mem[a] {
      assert m1.mem[a] == m.mem[a];
    }
  }

  lemma ExitEffect(x: Exit, m: Machine)
    ensures
      var n := Run(ExitCode(x), m);
      && n == PopPc(m).(sreg := n.sreg) && Flags(n.sreg) == Flags(m.sreg)
      && (if x.PlainReturn? then n.sreg == m.sreg else InterruptsOn(n))
  {
    match x
    case ReturnFromInterrupt => RunOne(Reti, m);
    case EnableAndReturn => RunTwo(Sei, Ret, m);
    case PlainReturn => RunOne(Ret, m);
  }

  /** Resuming turns the saved view of the task c_task points to into the running view. */
  lemma ResumeKeepsView(s: Symbols, t: TaskArea, x: Exit, m: Machine)
    requires s.Valid() && AreaOk(s, t) && WordAt(m.mem, s.cTask) == t.task && Resumable(s, m.mem, t)
    ensures
      var c := SavedContext(s, m.mem, t);
      var n := Resume(s, x, m);
      && OnStack(t, n.sp) && RunningView(n, t) == SuspendedView(s, m.mem, t)
      && (!x.PlainReturn? ==> InterruptsOn(n))
      && OnlyTouches(m.mem, n.mem, c.sp - 1, 2, c.sp - 1, 2)
  {
    var c := SavedContext(s, m.mem, t);
    RestoreCorrect(s, m);
    var k := Run(RestoreContext(s), m);
    ExitEffect(x, k);
    ResumedView(s, t, m.mem, k, Resume(s, x, m));
  }

  lemma ResumedView(s: Symbols, t: TaskArea, mem: Memory, k: Machine, n: Machine)
    requires s.Valid() && AreaOk(s, t) && Resumable(s, mem, t)
    requires Context(k.r, k.sp, k.sreg) == SavedContext(s, mem, t)
    requires OnlyTouches(mem, k.mem, k.sp - 1, 2, k.sp - 1, 2)
    requires n == PopPc(k).(sreg := n.sreg) && Flags(n.sreg) == Flags(k.sreg)
    ensures OnStack(t, n.sp) && RunningView(n, t) == SuspendedView(s, mem, t)
  {
    var c := SavedContext(s, mem, t);
    assert k.mem[c.sp + 1] == mem[c.sp + 1] && k.mem[c.sp + 2] == mem[c.sp + 2];
    assert k.mem[c.sp + 3..t.hi + 1] == mem[c.sp + 3..t.hi + 1];
  }

  /** What goes wrong inside a restore that is not masked: when the saved SREG has I set, an interrupt
      is possible after the fourth instruction, with SP still on the outgoing stack u. It saves into
      the control block of t an SP on u and the registers of the kernel, so t's frame is gone. */
  lemma UnmaskedRestoreLosesFrame(s: Symbols, t: TaskArea, u: TaskArea, m: Machine)
    requires s.Valid() && AreaOk(s, t) && AreaOk(s, u) && AreasApart(s, t, u)
    requires WordAt(m.mem, s.cTask) == t.task && HasRoom(u, m.sp) && SavedContext(s, m.mem, t).sreg >= 0x80
    ensures |RestoreContext(s)| >= 4
    ensures
      var k := After(RestoreContext(s), m, 4);
      var n := Suspend(s, TimerInterrupt, k);
      && InterruptsOn(k)
      && SavedContext(s, n.mem, t).sp == m.sp - 2 && !Resumable(s, n.mem, t)
      && forall i | 0 <= i < 29 :: SavedContext(s, n.mem, t).r[i] == m.r[i]
  {
    var k := After(RestoreContext(s), m, 4);
    SregSetByRestore(s, m, t.task + s.offset);
    var mixed := TaskArea(t.task, u.lo, u.hi);
    SuspendKeepsView(s, mixed, TimerInterrupt, k);
    SavedOnStack(s, mixed, k, Suspend(s, TimerInterrupt, k));
  }

  lemma SavedOnStack(s: Symbols, t: TaskArea, m: Machine, n: Machine)
    requires AreaOk(s, t) && HasRoom(t, m.sp) && SuspendedAs(s, t, m, n)
    ensures SavedContext(s, n.mem, t).sp == m.sp - 2 && SavedContext(s, n.mem, t).r == m.r
  {
  }

  /** Two states show the same view exactly when registers, SP, PC, the status register up to I and every
      live stack byte agree. */
  lemma ViewsAgreeExactlyWhen(m: Machine, n: Machine, t: TaskArea)
    requires OnStack(t, m.sp) && OnStack(t, n.sp)
    ensures RunningView(m, t) == RunningView(n, t) <==>
              && m.r == n.r && m.sp == n.sp && m.pc == n.pc
              && (m.sreg == n.sreg || m.sreg == n.sreg + 0x80 || n.sreg == m.sreg + 0x80)
              && forall a | m.sp < a <= t.hi :: m.mem[a] == n.mem[a]
  {
    SameFlagsExactlyWhen(m.sreg, n.sreg);
    if m.sp == n.sp {
      var s1, s2 := m.mem[m.sp + 1..t.hi + 1], n.mem[m.sp + 1..t.hi + 1];
      assert forall a | m.sp < a <= t.hi :: s1[a - m.sp - 1] == m.mem[a] && s2[a - m.sp - 1] == n.mem[a];
      assert (forall a | m.sp < a <= t.hi :: m.mem[a] == n.mem[a]) ==> s1 == s2;
    }
  }

  /** The whole way round, on the machine itself: a task suspended in m, whose control block and stack
      are left alone, is resumed with the registers, SP, PC, arithmetic flags and stack bytes of m, and
      with interrupts on. */
  lemma SuspendThenResume(s: Symbols, t: TaskArea, e: Entry, x: Exit, m: Machine, mid: Machine)
    requires s.Valid() && AreaOk(s, t) && WordAt(m.mem, s.cTask) == t.task && HasRoom(t, m.sp)
    requires WordAt(mid.mem, s.cTask) == t.task && !x.PlainReturn?
    requires
      var n := Suspend(s, e, m);
      forall a | 0 <= a < 0x10000 && (InContext(s, t, a) || n.sp < a <= t.hi) :: mid.mem[a] == n.mem[a]
    ensures
      var f := Resume(s, x, mid);
      && f.r == m.r && f.sp == m.sp && f.pc == m.pc
      && f.sreg == (if m.sreg >= 0x80 then m.sreg else m.sreg + 0x80)
      && forall a | m.sp < a <= t.hi :: f.mem[a] == m.mem[a]
  {
    var n, f := Suspend(s, e, m), Resume(s, x, mid);
    SuspendKeepsView(s, t, e, m);
    SavedOnStack(s, t, m, n);
    SuspendedFrame(s, t, n.mem, mid.mem);
    ResumeKeepsView(s, t, x, mid);
    ViewsAgreeExactlyWhen(f, m, t);
  }

  /** A suspended view depends only on the saved context and the stack above the saved SP. */
  lemma SuspendedFrame(s: Symbols, t: TaskArea, was: Memory, now: Memory)
    requires s.Valid() && AreaOk(s, t) && Resumable(s, was, t)
    requires forall a | InContext(s, t, a) :: now[a] == was[a]
    requires forall a | SavedContext(s, was, t).sp < a <= t.hi :: now[a] == was[a]
    ensures Resumable(s, now, t) && SuspendedView(s, now, t) == SuspendedView(s, was, t)
    ensures SavedContext(s, now, t) == SavedContext(s, was, t)
  {
    var b := t.task + s.offset;
    assert now[b..b + 32] == was[b..b + 32];
    var c := SavedContext(s, was, t);
    assert now[c.sp + 3..t.hi + 1] == was[c.sp + 3..t.hi + 1];
  }
}
