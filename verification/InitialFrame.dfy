/** Creating a task with arguments: the two-pass encoder that puts the arguments of the entry
    function into the saved registers and onto the new stack, and the proof that the first
    dispatch delivers every argument where the calling convention looks for it. */
module InitialFrame {
  import opened Prelude
  import opened Avr
  import opened ContextMacros
  import opened TaskSwitch
  import opened TaskRefinement
  import opened TaskData

  /** An argument is the bytes of its object representation, lowest first. */
  type Argument = seq<Byte>

  /** Register bytes the code uses for arguments (r25 down to r10). */
  const CODE_LIMIT := 16

  /** Register bytes the avr-gcc convention uses (r25 down to r8). */
  const ABI_LIMIT := 18

  const NAME_MAX := 15

  /** Where the convention puts an argument: at an even register, or at a distance from the
      first stack argument. */
  datatype Place = InRegisters(base: int) | OnStackAt(distance: nat)

  function RoundUp(n: nat): nat { n + n % 2 }

  /** Register bytes needed by the first k arguments, each rounded up to an even size. */
  function RegisterBytes(args: seq<Argument>, k: nat): nat
    requires k <= |args|
  {
    if k == 0 then 0 else RegisterBytes(args, k - 1) + RoundUp(|args[k - 1]|)
  }

  predicate FitsRegisters(args: seq<Argument>, i: nat, limit: nat)
    requires i < |args|
  {
    RegisterBytes(args, i + 1) <= limit
  }

  /** Stack bytes, without padding, taken by those of the first k arguments that go to the stack. */
  function StackBytes(args: seq<Argument>, k: nat, limit: nat): nat
    requires k <= |args|
  {
    if k == 0 then 0
    else StackBytes(args, k - 1, limit) + if FitsRegisters(args, k - 1, limit) then 0 else |args[k - 1]|
  }

  /** The avr-gcc rule: registers while they last, then everything on the stack, left to right. */
  function PlaceOf(args: seq<Argument>, i: nat, limit: nat): Place
    requires i < |args|
  {
    if FitsRegisters(args, i, limit) then InRegisters(26 - RegisterBytes(args, i + 1))
    else OnStackAt(StackBytes(args, i, limit))
  }

  lemma {:induction false} RegisterBytesGrow(args: seq<Argument>, i: nat, k: nat)
    requires i <= k <= |args|
    ensures RegisterBytes(args, i) <= RegisterBytes(args, k)
  {
    if i < k {
      RegisterBytesGrow(args, i, k - 1);
    }
  }

  lemma {:induction false} RegisterBytesEven(args: seq<Argument>, k: nat)
    requires k <= |args|
    ensures RegisterBytes(args, k) % 2 == 0
  {
    if k > 0 {
      RegisterBytesEven(args, k - 1);
      EvenSum(RegisterBytes(args, k - 1), |args[k - 1]|);
    }
  }

  lemma EvenSum(x: nat, n: nat)
    requires x % 2 == 0
    ensures (x + RoundUp(n)) % 2 == 0
  {
  }

  lemma {:induction false} StackBytesGrow(args: seq<Argument>, i: nat, k: nat, limit: nat)
    requires i < k <= |args| && !FitsRegisters(args, i, limit)
    ensures StackBytes(args, i, limit) + |args[i]| <= StackBytes(args, k, limit)
  {
    if i + 1 < k {
      StackBytesGrow(args, i, k - 1, limit);
    }
  }

  /** Once an argument is on the stack, so is every later one. */
  lemma OnceOnStack(args: seq<Argument>, i: nat, k: nat, limit: nat)
    requires i <= k < |args| && !FitsRegisters(args, i, limit)
    ensures !FitsRegisters(args, k, limit)
  {
    RegisterBytesGrow(args, i + 1, k + 1);
  }

  /** Where in the stack array argument i starts, with the unused top byte above the last one. */
  function StackIndex(args: seq<Argument>, i: nat, size: nat): int
    requires i <= |args|
  {
    size - StackBytes(args, |args|, CODE_LIMIT) - 1 + StackBytes(args, i, CODE_LIMIT)
  }

  /** Argument i is where the code puts it: in the register image or in the stack array. */
  ghost predicate PlacedAt(args: seq<Argument>, i: nat, regs: seq<Byte>, stack: seq<Byte>)
    requires i < |args| && |regs| == 32
  {
    if FitsRegisters(args, i, CODE_LIMIT) then
      Holds(regs, 26 - RegisterBytes(args, i + 1), args[i])
    else
      Holds(stack, StackIndex(args, i, |stack|), args[i])
  }

  ghost predicate Holds(s: seq<Byte>, at: int, bytes: seq<Byte>) {
    0 <= at && at + |bytes| <= |s| && s[at..at + |bytes|] == bytes
  }

  ghost predicate Placed(args: seq<Argument>, n: nat, regs: seq<Byte>, stack: seq<Byte>)
    requires n <= |args| && |regs| == 32
  {
    forall i | 0 <= i < n :: PlacedAt(args, i, regs, stack)
  }

  /** Room for the stack arguments, the entry address, the return slot and the restore scratch. */
  predicate StackSuffices(args: seq<Argument>, size: nat) {
    StackBytes(args, |args|, CODE_LIMIT) + 7 <= size < 0x8000
  }

  /** sizeof is at least one and below half the address space, so the 16-bit sums are exact. */
  predicate ArgumentsOk(args: seq<Argument>) { forall i | 0 <= i < |args| :: 1 <= |args[i]| < 0x8000 }

  /** Distance of the initial SP from the start of the stack array. */
  function SpIndex(args: seq<Argument>, size: nat): int {
    var s := StackBytes(args, |args|, CODE_LIMIT);
    if s == 0 then size - 3 else size - s - 6
  }

  /** A frame that delivers entry and args at the first dispatch. */
  ghost predicate Complete(base: Word, entry: Word, args: seq<Argument>, c: Context, stack: seq<Byte>) {
    && ArgumentsOk(args) && StackSuffices(args, |stack|) && base + |stack| <= 0x10000
    && Placed(args, |args|, c.r, stack)
    && c.sreg == 0x80
    && var k := SpIndex(args, |stack|);
    && c.sp == base + k
    && stack[k + 1] == Hi(entry) && stack[k + 2] == Lo(entry)
  }

  ghost function SavedState(task: Task): Context
    requires task.Valid()
    reads task, task.regs
  {
    Context(task.regs[..], task.sp, task.sreg)
  }

  /** What create_task does before it looks at the name. */
  method Reset(task: Task)
    modifies task
    ensures task.IsReset() && task.sp == old(task.sp)
  {
    task.execTimeUs, task.execTimeOverflowCount, task.execStartTimeUs := 0, 0, 0;
    task.nextNode := null;
    task.state := READY;
    task.sreg := 0x80;
  }

  /** The argument-free create_task after the name: SP three below the end, entry on top. */
  method BaseFrame(task: Task, entry: Word)
    requires task.Valid() && task.stack.Length >= 4
    modifies task`sp, task.stack
    ensures
      var n := task.stack.Length;
      && task.sp == task.base + n - 3
      && task.stack[..] == old(task.stack[..])[n - 1 := Lo(entry)][n - 2 := Hi(entry)]
  {
    var n := task.stack.Length;
    task.sp := task.base + n - 3;
    task.stack[n - 1] := Lo(entry);
    task.stack[n - 2] := Hi(entry);
  }

  /** _process_arg: copies argument n to its place, given what the earlier ones used. */
  method ProcessArgument(
    regs: array<Byte>, stack: array<Byte>, args: seq<Argument>, n: nat, toStack: bool, regsUsed: nat, stackUsed: nat)
    returns (toStack': bool, regsUsed': nat, stackUsed': nat)
    requires regs.Length == 32 && regs != stack && StackSuffices(args, stack.Length) && n < |args|
    requires PassState(args, n, toStack, regsUsed)
    requires stackUsed == StackBytes(args, |args|, CODE_LIMIT) - StackBytes(args, n, CODE_LIMIT)
    requires Placed(args, n, regs[..], stack[..])
    modifies regs, stack
    ensures PassState(args, n + 1, toStack', regsUsed')
    ensures stackUsed' == StackBytes(args, |args|, CODE_LIMIT) - StackBytes(args, n + 1, CODE_LIMIT)
    ensures Placed(args, n + 1, regs[..], stack[..])
    ensures forall x | 0 <= x < stack.Length && !(StackIndex(args, 0, stack.Length) <= x < stack.Length - 1) ::
              stack[x] == old(stack[x])
  {
    var size := |args[n]|;
    var padding := size % 2;
    FitsIsTheTest(args, n, toStack, regsUsed);
    if regsUsed + size + padding < 17 && !toStack {
      var at := 25 - regsUsed - size - padding + 1;
      CopyBytes(regs, at, args[n]);
      RegisterWriteKeepsPlaced(args, n, old(regs[..]), regs[..], stack[..]);
      return toStack, regsUsed + size + padding, stackUsed;
    } else {
      StackBytesGrow(args, n, |args|, CODE_LIMIT);
      var at := stack.Length - stackUsed - 1;
      CopyBytes(stack, at, args[n]);
      StackWriteKeepsPlaced(args, n, regs[..], old(stack[..]), stack[..]);
      return true, regsUsed, stackUsed - size;
    }
  }

  /** The second pass: copies every argument to its place. */
  method PlaceArguments(regs: array<Byte>, stack: array<Byte>, args: seq<Argument>, stackBase: nat)
    requires regs.Length == 32 && regs != stack && StackSuffices(args, stack.Length) && ArgumentsOk(args)
    requires stackBase == StackBytes(args, |args|, CODE_LIMIT)
    modifies regs, stack
    ensures Placed(args, |args|, regs[..], stack[..])
    ensures forall x | 0 <= x < stack.Length && !(StackIndex(args, 0, stack.Length) <= x < stack.Length - 1) ::
              stack[x] == old(stack[x])
  {
    var toStack := false;
    var regsUsed: nat, stackUsed: nat := 0, stackBase;
    for n := 0 to |args|
      invariant PassState(args, n, toStack, regsUsed)
      invariant stackUsed == stackBase - StackBytes(args, n, CODE_LIMIT)
      invariant Placed(args, n, regs[..], stack[..])
      invariant forall x | 0 <= x < stack.Length && !(StackIndex(args, 0, stack.Length) <= x < stack.Length - 1) ::
                  stack[x] == old(stack[x])
    {
      toStack, regsUsed, stackUsed := ProcessArgument(regs, stack, args, n, toStack, regsUsed, stackUsed);
    }
  }

  /** What the variadic create_task adds to the base frame: the arguments, and with stack arguments a
      lower SP with the entry address above it. */
  method FinishFrame(task: Task, entry: Word, args: seq<Argument>)
    requires task.Valid() && StackSuffices(args, task.stack.Length) && ArgumentsOk(args)
    requires task.sreg == 0x80 && task.sp == task.base + task.stack.Length - 3
    requires task.stack[task.stack.Length - 1] == Lo(entry) && task.stack[task.stack.Length - 2] == Hi(entry)
    modifies task`sp, task.regs, task.stack
    ensures Complete(task.base, entry, args, SavedState(task), task.stack[..])
  {
    var stackBase := StackSizeNeeded(args);
    PlaceArguments(task.regs, task.stack, args, stackBase);
    if stackBase != 0 {
      var spIndex := task.stack.Length - stackBase - 6;
      task.sp := task.base + spIndex;
      label placed:
      task.stack[spIndex + 2] := Lo(entry);
      task.stack[spIndex + 1] := Hi(entry);
      StackWriteKeepsPlaced(args, |args|, task.regs[..], old@placed(task.stack[..]), task.stack[..]);
    }
  }

  /** The first pass: how many argument bytes go to the stack. */
  method StackSizeNeeded(args: seq<Argument>) returns (stackUsed: nat)
    ensures stackUsed == StackBytes(args, |args|, CODE_LIMIT)
  {
    var toStack := false;
    var regsUsed: nat := 0;
    stackUsed := 0;
    for n := 0 to |args|
      invariant PassState(args, n, toStack, regsUsed)
      invariant stackUsed == StackBytes(args, n, CODE_LIMIT)
    {
      var size := |args[n]|;
      var padding := size % 2;
      FitsIsTheTest(args, n, toStack, regsUsed);
      if regsUsed + size + padding < 17 && !toStack {
        regsUsed := regsUsed + size + padding;
      } else {
        toStack := true;
        stackUsed := stackUsed + size;
      }
    }
  }

  /** memcpy into an array. */
  method CopyBytes(dst: array<Byte>, at: nat, bytes: seq<Byte>)
    requires at + |bytes| <= dst.Length
    modifies dst
    ensures dst[at..at + |bytes|] == bytes
    ensures forall x | 0 <= x < dst.Length && !(at <= x < at + |bytes|) :: dst[x] == old(dst[x])
  {
    for k := 0 to |bytes|
      invariant forall x | 0 <= x < k :: dst[at + x] == bytes[x]
      invariant forall x | 0 <= x < dst.Length && !(at <= x < at + k) :: dst[x] == old(dst[x])
    {
      dst[at + k] := bytes[k];
    }
  }

  /** The running flag and counter of both passes before argument n: some earlier argument went to
      the stack, or all were rounded up into registers. */
  ghost predicate PassState(args: seq<Argument>, n: nat, toStack: bool, regsUsed: nat)
    requires n <= |args|
  {
    if toStack then n > 0 && !FitsRegisters(args, n - 1, CODE_LIMIT)
    else regsUsed == RegisterBytes(args, n) && regsUsed <= CODE_LIMIT
  }

  /** They decide exactly as the prefix sums do. */
  lemma FitsIsTheTest(args: seq<Argument>, n: nat, toStack: bool, regsUsed: nat)
    requires n < |args| && PassState(args, n, toStack, regsUsed)
    ensures FitsRegisters(args, n, CODE_LIMIT) <==> regsUsed + |args[n]| + |args[n]| % 2 < 17 && !toStack
  {
    if toStack {
      OnceOnStack(args, n - 1, n, CODE_LIMIT);
    }
  }

  /** A write elsewhere does not disturb bytes already in place. */
  lemma HoldsKept(was: seq<Byte>, now: seq<Byte>, at: int, bytes: seq<Byte>)
    requires |was| == |now| && Holds(was, at, bytes)
    requires forall x | at <= x < at + |bytes| :: now[x] == was[x]
    ensures Holds(now, at, bytes)
  {
    assert now[at..at + |bytes|] == was[at..at + |bytes|];
  }

  lemma RegisterWriteKeepsPlaced(args: seq<Argument>, n: nat, was: seq<Byte>, now: seq<Byte>, stack: seq<Byte>)
    requires n < |args| && |was| == |now| == 32 && FitsRegisters(args, n, CODE_LIMIT)
    requires Placed(args, n, was, stack)
    requires Holds(now, 26 - RegisterBytes(args, n + 1), args[n])
    requires forall x | 26 - RegisterBytes(args, n) <= x < 32 :: now[x] == was[x]
    ensures Placed(args, n + 1, now, stack)
  {
    forall i | 0 <= i < n ensures PlacedAt(args, i, now, stack) {
      assert PlacedAt(args, i, was, stack);
      if FitsRegisters(args, i, CODE_LIMIT) {
        RegisterBytesGrow(args, i + 1, n);
        HoldsKept(was, now, 26 - RegisterBytes(args, i + 1), args[i]);
      }
    }
  }

  /** A write at or above the place of argument n, or below all arguments, keeps the first n. */
  lemma StackWriteKeepsPlaced(args: seq<Argument>, n: nat, regs: seq<Byte>, was: seq<Byte>, now: seq<Byte>)
    requires n <= |args| && |regs| == 32 && |was| == |now| && Placed(args, n, regs, was)
    requires forall x | 0 <= x < |was| && StackIndex(args, 0, |was|) <= x < StackIndex(args, n, |was|) ::
               now[x] == was[x]
    ensures Placed(args, n, regs, now)
  {
    forall i | 0 <= i < n ensures PlacedAt(args, i, regs, now) {
      assert PlacedAt(args, i, regs, was);
      if !FitsRegisters(args, i, CODE_LIMIT) {
        StackBytesGrow(args, i, n, CODE_LIMIT);
        HoldsKept(was, now, StackIndex(args, i, |was|), args[i]);
      }
    }
  }

  /** What the callee reads as argument i on entry: registers from an even base upward, or stack
      bytes from SP+3 upward (SP+1 and SP+2 hold the return address). */
  function ReadArgument(v: View, args: seq<Argument>, i: nat, limit: nat): Option<Argument>
    requires i < |args|
  {
    var size := |args[i]|;
    match PlaceOf(args, i, limit)
    case InRegisters(b) => if 0 <= b && b + size <= 32 then Some(v.r[b..b + size]) else None
    case OnStackAt(d) => if 2 + d + size <= |v.stack| then Some(v.stack[2 + d..2 + d + size]) else None
  }

  /** Memory that holds a task's context in its control block and its stack array. */
  ghost predicate FrameInMemory(s: Symbols, mem: Memory, t: TaskArea, c: Context, stack: seq<Byte>)
    requires AreaOk(s, t)
  {
    SavedContext(s, mem, t) == c && mem[t.lo..t.hi + 1] == stack
  }

  /** A complete frame is resumable; its view starts at entry, and above the return slot lie the
      stack bytes of the array. */
  lemma CompleteFrameIsResumable(
    s: Symbols, mem: Memory, t: TaskArea, entry: Word, args: seq<Argument>, c: Context, stack: seq<Byte>)
    requires s.Valid() && AreaOk(s, t) && FrameInMemory(s, mem, t, c, stack)
    requires Complete(t.lo, entry, args, c, stack)
    ensures Resumable(s, mem, t)
    ensures
      var v := SuspendedView(s, mem, t);
      v.pc == entry && v.r == c.r && v.stack == stack[SpIndex(args, |stack|) + 3..]
  {
    var k := SpIndex(args, |stack|);
    forall x | 0 <= x < |stack| ensures mem[t.lo + x] == stack[x] {
      assert mem[t.lo..t.hi + 1][x] == stack[x];
    }
    assert mem[c.sp + 3..t.hi + 1] == stack[k + 3..];
  }

  /** The callee finds argument i in the registers and stack bytes of a complete frame. */
  lemma ReadsBack(v: View, args: seq<Argument>, stack: seq<Byte>, i: nat)
    requires ArgumentsOk(args) && StackSuffices(args, |stack|) && Placed(args, |args|, v.r, stack) && i < |args|
    requires v.stack == stack[SpIndex(args, |stack|) + 3..]
    ensures ReadArgument(v, args, i, CODE_LIMIT) == Some(args[i])
  {
    assert PlacedAt(args, i, v.r, stack);
    if !FitsRegisters(args, i, CODE_LIMIT) {
      StackBytesGrow(args, i, |args|, CODE_LIMIT);
      var b := StackIndex(args, i, |stack|);
      var k := SpIndex(args, |stack|) + 3;
      assert stack[k..][b - k..b - k + |args[i]|] == stack[b..b + |args[i]|];
    }
  }

  /** Every argument is readable, at the code's limit always, and at the convention's own limit
      whenever the two agree. */
  ghost predicate Delivers(v: View, entry: Word, args: seq<Argument>) {
    && v.pc == entry
    && (forall i | 0 <= i < |args| :: ReadArgument(v, args, i, CODE_LIMIT) == Some(args[i]))
    && (NoPrefixNeeds18(args) ==>
          forall i | 0 <= i < |args| :: ReadArgument(v, args, i, ABI_LIMIT) == Some(args[i]))
  }

  lemma CompleteFrameDelivers(
    s: Symbols, mem: Memory, t: TaskArea, entry: Word, args: seq<Argument>, c: Context, stack: seq<Byte>)
    requires s.Valid() && AreaOk(s, t) && FrameInMemory(s, mem, t, c, stack)
    requires Complete(t.lo, entry, args, c, stack)
    ensures Resumable(s, mem, t) && Delivers(SuspendedView(s, mem, t), entry, args)
  {
    CompleteFrameIsResumable(s, mem, t, entry, args, c, stack);
    PlacedIsDelivered(SuspendedView(s, mem, t), entry, args, stack);
  }

  lemma PlacedIsDelivered(v: View, entry: Word, args: seq<Argument>, stack: seq<Byte>)
    requires ArgumentsOk(args) && StackSuffices(args, |stack|) && Placed(args, |args|, v.r, stack)
    requires v.pc == entry && v.stack == stack[SpIndex(args, |stack|) + 3..]
    ensures Delivers(v, entry, args)
  {
    forall i | 0 <= i < |args|
      ensures ReadArgument(v, args, i, CODE_LIMIT) == Some(args[i])
      ensures NoPrefixNeeds18(args) ==> ReadArgument(v, args, i, ABI_LIMIT) == Some(args[i])
    {
      ReadsBack(v, args, stack, i);
      if NoPrefixNeeds18(args) {
        SamePlace(args, i);
      }
    }
  }

  /** The round trip: dispatching a freshly created task enters its entry function with every
      argument readable where the calling convention puts it. */
  lemma FirstDispatchDeliversArguments(
    s: Symbols, m: Machine, t: TaskArea, x: Exit, entry: Word, args: seq<Argument>, c: Context, stack: seq<Byte>)
    requires s.Valid() && AreaOk(s, t) && WordAt(m.mem, s.cTask) == t.task
    requires FrameInMemory(s, m.mem, t, c, stack) && Complete(t.lo, entry, args, c, stack)
    ensures
      var n := Resume(s, x, m);
      OnStack(t, n.sp) && Delivers(RunningView(n, t), entry, args)
  {
    CompleteFrameDelivers(s, m.mem, t, entry, args, c, stack);
    ResumeKeepsView(s, t, x, m);
  }

  /** The first dispatch is the one that can go wrong: a complete frame has I set, so a timer interrupt
      after the fourth instruction of its restore, on the stack of the outgoing task, saves the
      outgoing SP into the new task's control block; its entry and arguments are out of reach. */
  lemma FirstDispatchCanLoseFrame(
    s: Symbols, m: Machine, t: TaskArea, u: TaskArea, entry: Word, args: seq<Argument>, c: Context, stack: seq<Byte>)
    requires s.Valid() && AreaOk(s, t) && AreaOk(s, u) && AreasApart(s, t, u)
    requires WordAt(m.mem, s.cTask) == t.task && HasRoom(u, m.sp)
    requires FrameInMemory(s, m.mem, t, c, stack) && Complete(t.lo, entry, args, c, stack)
    ensures |RestoreContext(s)| >= 4 && InterruptsOn(After(RestoreContext(s), m, 4))
    ensures
      var n := Suspend(s, TimerInterrupt, After(RestoreContext(s), m, 4));
      !Resumable(s, n.mem, t) && InStack(u, SavedContext(s, n.mem, t).sp)
  {
    UnmaskedRestoreLosesFrame(s, t, u, m);
  }

  /** Task k does nothing of its own during the events. */
  ghost predicate NotYetRun(events: seq<Event>, cur: nat, k: nat) {
    events != [] ==>
      && !(events[0].Local? && cur == k)
      && NotYetRun(events[1..], if events[0].Switch? then events[0].next else cur, k)
  }

  lemma {:induction false} AloneUntilRun(events: seq<Event>, cur: nat, k: nat, v: View)
    requires NotYetRun(events, cur, k)
    ensures Alone(events, cur, k, v) == v
  {
    if events != [] {
      AloneUntilRun(events[1..], if events[0].Switch? then events[0].next else cur, k, v);
    }
  }

  /** End to end: however long other tasks run and switch first, a created task is dispatched at
      its entry function with its arguments. */
  lemma NewTaskStartsWithItsArguments(
    s: Symbols, ts: seq<TaskArea>, states: seq<System>, events: seq<Event>, k: nat,
    entry: Word, args: seq<Argument>, c: Context, stack: seq<Byte>)
    requires IsRun(s, ts, states, events) && k < |ts| && states[0].cur != k && states[|events|].cur == k
    requires NotYetRun(events, states[0].cur, k)
    requires FrameInMemory(s, states[0].m.mem, ts[k], c, stack) && Complete(ts[k].lo, entry, args, c, stack)
    ensures OnStack(ts[k], states[|events|].m.sp)
    ensures Delivers(RunningView(states[|events|].m, ts[k]), entry, args)
  {
    InterleavingRefinesIndependentTasks(s, ts, states, events, k);
    CompleteFrameDelivers(s, states[0].m.mem, ts[k], entry, args, c, stack);
    AloneUntilRun(events, states[0].cur, k, ViewOf(s, ts, states[0], k));
  }

  lemma {:induction false} SameStackBytes(args: seq<Argument>, k: nat)
    requires k <= |args| && NoPrefixNeeds18(args)
    ensures StackBytes(args, k, CODE_LIMIT) == StackBytes(args, k, ABI_LIMIT)
  {
    if k > 0 {
      SameStackBytes(args, k - 1);
      RegisterBytesEven(args, k);
    }
  }

  /** The code agrees with the avr-gcc convention (r25 down to r8) exactly for those argument
      lists of which no prefix needs 18 register bytes. */
  lemma CodeMatchesAbiExactlyWhen(args: seq<Argument>)
    ensures AgreesWithAbi(args) <==> NoPrefixNeeds18(args)
  {
    if NoPrefixNeeds18(args) {
      forall i | 0 <= i < |args| ensures PlaceOf(args, i, CODE_LIMIT) == PlaceOf(args, i, ABI_LIMIT) {
        SamePlace(args, i);
      }
    } else {
      var k :| 0 <= k <= |args| && RegisterBytes(args, k) == 18;
      DifferentPlace(args, k - 1);
    }
  }

  lemma SamePlace(args: seq<Argument>, i: nat)
    requires i < |args| && NoPrefixNeeds18(args)
    ensures PlaceOf(args, i, CODE_LIMIT) == PlaceOf(args, i, ABI_LIMIT)
  {
    SameStackBytes(args, i);
    RegisterBytesEven(args, i + 1);
  }

  lemma DifferentPlace(args: seq<Argument>, i: nat)
    requires i < |args| && RegisterBytes(args, i + 1) == 18
    ensures PlaceOf(args, i, CODE_LIMIT) != PlaceOf(args, i, ABI_LIMIT)
  {
  }

  ghost predicate NoPrefixNeeds18(args: seq<Argument>) {
    forall k | 0 <= k <= |args| :: RegisterBytes(args, k) != 18
  }

  ghost predicate AgreesWithAbi(args: seq<Argument>) {
    forall i | 0 <= i < |args| :: PlaceOf(args, i, CODE_LIMIT) == PlaceOf(args, i, ABI_LIMIT)
  }

  /** Two eight-byte arguments and a two-byte one: the convention expects the last in r8 and r9,
      the code puts it on the stack. */
  lemma CodeAndAbiDisagree()
    ensures
      var eight: Argument := [1, 2, 3, 4, 5, 6, 7, 8];
      var args := [eight, eight, [9, 10]];
      && PlaceOf(args, 2, ABI_LIMIT) == InRegisters(8)
      && PlaceOf(args, 2, CODE_LIMIT) == OnStackAt(0)
  {
    var eight: Argument := [1, 2, 3, 4, 5, 6, 7, 8];
    var args := [eight, eight, [9, 10]];
    assert RegisterBytes(args, 1) == 8;
    assert RegisterBytes(args, 2) == 16;
    assert RegisterBytes(args, 3) == 18;
    assert StackBytes(args, 1, CODE_LIMIT) == 0;
    assert StackBytes(args, 2, CODE_LIMIT) == 0;
  }
}
