/** Publication of a new task: create_task puts the task on the ready list before its arguments
    are in place. It is safe because the outer create_task has interrupts off from before the
    nested call until the frame is finished; the nested call restores that "off". */
module Publication {
  import opened Prelude
  import opened Avr
  import opened ContextMacros
  import opened InitialFrame

  /** The steps of create_task, each one indivisible for an interrupt. */
  datatype Step =
    | SaveOuter | CliOuter
    | SaveInner | CliInner
    | SetBaseFrame
    | AddToReadyList
    | RestoreInner
    | PlaceArgument(i: nat)
    | SetEntry
    | RestoreOuter
    | EnableInterrupts

  /** The I flag, the I flags remembered by the two nested calls, and the new task. */
  datatype Creation = Creation(i: bool, outer: bool, inner: bool, listed: bool, c: Context, stack: seq<Byte>)

  /** What is being created: the stack's address, the entry function and its arguments. */
  datatype Request = Request(base: Word, entry: Word, args: seq<Argument>, size: nat) {
    ghost predicate Valid() {
      ArgumentsOk(args) && StackSuffices(args, size) && base + size <= 0x10000
    }
  }

  function Overwrite(s: seq<Byte>, at: int, bytes: seq<Byte>): (r: seq<Byte>)
    requires 0 <= at && at + |bytes| <= |s|
    ensures |r| == |s| && r[at..at + |bytes|] == bytes
    ensures forall x | 0 <= x < |s| && !(at <= x < at + |bytes|) :: r[x] == s[x]
  {
    s[..at] + bytes + s[at + |bytes|..]
  }

  function BaseFrame(q: Request, x: Creation): Creation
    requires q.Valid() && |x.stack| == q.size
  {
    x.(c := Context(x.c.r, q.base + q.size - 3, 0x80),
       stack := x.stack[q.size - 1 := Lo(q.entry)][q.size - 2 := Hi(q.entry)])
  }

  function WithArgument(q: Request, i: nat, x: Creation): Creation
    requires q.Valid() && |x.stack| == q.size && i < |q.args|
  {
    ArgumentInRange(q, i);
    if FitsRegisters(q.args, i, CODE_LIMIT) then
      x.(c := x.c.(r := Overwrite(x.c.r, 26 - RegisterBytes(q.args, i + 1), q.args[i])))
    else
      x.(stack := Overwrite(x.stack, StackIndex(q.args, i, q.size), q.args[i]))
  }

  lemma ArgumentInRange(q: Request, i: nat)
    requires q.Valid() && i < |q.args|
    ensures FitsRegisters(q.args, i, CODE_LIMIT) ==>
              10 <= 26 - RegisterBytes(q.args, i + 1) && 26 - RegisterBytes(q.args, i + 1) + |q.args[i]| <= 26
    ensures !FitsRegisters(q.args, i, CODE_LIMIT) ==>
              0 <= StackIndex(q.args, i, q.size) && StackIndex(q.args, i, q.size) + |q.args[i]| < q.size
  {
    if !FitsRegisters(q.args, i, CODE_LIMIT) {
      StackBytesGrow(q.args, i, |q.args|, CODE_LIMIT);
    }
  }

  function WithEntry(q: Request, x: Creation): Creation
    requires q.Valid() && |x.stack| == q.size
  {
    if StackBytes(q.args, |q.args|, CODE_LIMIT) == 0 then x
    else
      var k := SpIndex(q.args, q.size);
      x.(c := x.c.(sp := q.base + k), stack := x.stack[k + 2 := Lo(q.entry)][k + 1 := Hi(q.entry)])
  }

  function Perform(q: Request, s: Step, x: Creation): (r: Creation)
    requires q.Valid() && |x.stack| == q.size && (s.PlaceArgument? ==> s.i < |q.args|)
    ensures |r.stack| == q.size
  {
    match s
    case SaveOuter => x.(outer := x.i)
    case CliOuter => x.(i := false)
    case SaveInner => x.(inner := x.i)
    case CliInner => x.(i := false)
    case SetBaseFrame => BaseFrame(q, x)
    case AddToReadyList => x.(listed := true)
    case RestoreInner => x.(i := x.inner)
    case PlaceArgument(i) => WithArgument(q, i, x)
    case SetEntry => WithEntry(q, x)
    case RestoreOuter => x.(i := x.outer)
    case EnableInterrupts => x.(i := true)
  }

  const PUBLISH: seq<Step> :=
    [SaveOuter, CliOuter, SaveInner, CliInner, SetBaseFrame, AddToReadyList, RestoreInner]

  function StepCount(q: Request): nat { 10 + |q.args| }

  /** The n-th step of create_task with arguments, after the name has been accepted. */
  function StepNumber(q: Request, n: nat): Step
    requires n < StepCount(q)
  {
    var k := |q.args|;
    if n < 7 then PUBLISH[n]
    else if n < 7 + k then PlaceArgument(n - 7)
    else if n == 7 + k then SetEntry
    else if n == 8 + k then RestoreOuter
    else EnableInterrupts
  }

  /** The state when the first n steps are done. */
  function At(q: Request, x: Creation, n: nat): (r: Creation)
    requires q.Valid() && |x.stack| == q.size && n <= StepCount(q)
    ensures |r.stack| == q.size
  {
    if n == 0 then x else Perform(q, StepNumber(q, n - 1), At(q, x, n - 1))
  }

  /** After publication and k placed arguments: listed, interrupts still off, base frame intact. */
  ghost predicate Placing(q: Request, i: bool, k: nat, y: Creation)
    requires q.Valid() && k <= |q.args|
  {
    && |y.stack| == q.size
    && y.listed && !y.i && y.outer == i
    && y.c.sreg == 0x80 && y.c.sp == q.base + q.size - 3
    && Placed(q.args, k, y.c.r, y.stack)
    && y.stack[q.size - 1] == Lo(q.entry)
    && (StackBytes(q.args, k, CODE_LIMIT) == 0 ==> y.stack[q.size - 2] == Hi(q.entry))
  }

  lemma {:induction false} WhilePlacing(q: Request, x: Creation, k: nat)
    requires q.Valid() && |x.stack| == q.size && k <= |q.args|
    ensures Placing(q, x.i, k, At(q, x, 7 + k))
  {
    if k == 0 {
      Published(q, x);
      BaseIsPlacing(q, x);
    } else {
      WhilePlacing(q, x, k - 1);
      PlacingStep(q, x.i, k - 1, At(q, x, 6 + k));
      NextArgument(q, x, k - 1);
    }
  }

  lemma NextArgument(q: Request, x: Creation, k: nat)
    requires q.Valid() && |x.stack| == q.size && k < |q.args|
    ensures At(q, x, 8 + k) == WithArgument(q, k, At(q, x, 7 + k))
  {
    AtNext(q, x, 7 + k);
  }

  lemma BaseIsPlacing(q: Request, x: Creation)
    requires q.Valid() && |x.stack| == q.size
    ensures Placing(q, x.i, 0, BaseFrame(q, x).(i := false, outer := x.i, inner := false, listed := true))
  {
  }

  lemma PlacingStep(q: Request, i: bool, k: nat, y: Creation)
    requires q.Valid() && k < |q.args| && Placing(q, i, k, y)
    ensures Placing(q, i, k + 1, WithArgument(q, k, y))
  {
    ArgumentInRange(q, k);
    PlacingOne(q, k, y);
  }

  lemma AtNext(q: Request, x: Creation, n: nat)
    requires q.Valid() && |x.stack| == q.size && n < StepCount(q)
    ensures At(q, x, n + 1) == Perform(q, StepNumber(q, n), At(q, x, n))
  {
  }

  /** Before the task is listed: interrupts go off and stay off. */
  lemma BeforeListing(q: Request, x: Creation)
    requires q.Valid() && |x.stack| == q.size
    ensures At(q, x, 1) == x.(outer := x.i)
    ensures At(q, x, 2) == x.(outer := x.i, i := false)
    ensures At(q, x, 3) == At(q, x, 4) == x.(outer := x.i, i := false, inner := false)
  {
    AtNext(q, x, 0);
    AtNext(q, x, 1);
    AtNext(q, x, 2);
    AtNext(q, x, 3);
  }

  lemma Published(q: Request, x: Creation)
    requires q.Valid() && |x.stack| == q.size
    ensures At(q, x, 5) == BaseFrame(q, x).(i := false, outer := x.i, inner := false)
    ensures At(q, x, 6) == At(q, x, 7) == At(q, x, 5).(listed := true)
  {
    BeforeListing(q, x);
    AtNext(q, x, 4);
    AtNext(q, x, 5);
    AtNext(q, x, 6);
  }

  lemma PlacingOne(q: Request, i: nat, y: Creation)
    requires q.Valid() && |y.stack| == q.size && i < |q.args| && Placed(q.args, i, y.c.r, y.stack)
    ensures var z := WithArgument(q, i, y); Placed(q.args, i + 1, z.c.r, z.stack)
  {
    var z := WithArgument(q, i, y);
    ArgumentInRange(q, i);
    if FitsRegisters(q.args, i, CODE_LIMIT) {
      RegisterWriteKeepsPlaced(q.args, i, y.c.r, z.c.r, y.stack);
    } else {
      StackWriteKeepsPlaced(q.args, i, y.c.r, y.stack, z.stack);
      assert PlacedAt(q.args, i, z.c.r, z.stack);
    }
  }

  /** The frame delivers the requested entry and arguments. */
  ghost predicate FrameComplete(q: Request, y: Creation) {
    Complete(q.base, q.entry, q.args, y.c, y.stack)
  }

  /** The frame is complete and only the interrupt flag remains to be restored. */
  ghost predicate Done(q: Request, i: bool, y: Creation) {
    !y.i && y.outer == i && y.listed && FrameComplete(q, y)
  }

  lemma EntryCompletes(q: Request, i: bool, y: Creation)
    requires q.Valid() && Placing(q, i, |q.args|, y)
    ensures Done(q, i, WithEntry(q, y))
  {
    StackWriteKeepsPlaced(q.args, |q.args|, y.c.r, y.stack, WithEntry(q, y).stack);
  }

  lemma NextEntry(q: Request, x: Creation)
    requires q.Valid() && |x.stack| == q.size
    ensures At(q, x, 8 + |q.args|) == WithEntry(q, At(q, x, 7 + |q.args|))
  {
    AtNext(q, x, 7 + |q.args|);
    EntryStep(q, At(q, x, 7 + |q.args|));
  }

  lemma EntryStep(q: Request, y: Creation)
    requires q.Valid() && |y.stack| == q.size
    ensures Perform(q, StepNumber(q, 7 + |q.args|), y) == WithEntry(q, y)
  {
  }

  /** After SetEntry the frame is complete. */
  lemma Finished(q: Request, x: Creation)
    requires q.Valid() && |x.stack| == q.size
    ensures Done(q, x.i, At(q, x, 8 + |q.args|))
  {
    WhilePlacing(q, x, |q.args|);
    NextEntry(q, x);
    EntryCompletes(q, x.i, At(q, x, 7 + |q.args|));
  }

  /** How create_task ends: its last but one step gives back the interrupt flag it was entered with, and
      its last step turns interrupts on, with the task listed and its frame complete. */
  lemma EndsListedAndEnabled(q: Request, x: Creation)
    requires q.Valid() && |x.stack| == q.size
    ensures At(q, x, 9 + |q.args|).i == x.i
    ensures var y := At(q, x, StepCount(q)); y.i && y.listed && FrameComplete(q, y)
  {
    var n := |q.args|;
    Finished(q, x);
    RestoreStep(q, x.i, At(q, x, 8 + n));
    AtNext(q, x, 8 + n);
    EnableStep(q, At(q, x, 9 + n));
    AtNext(q, x, 9 + n);
  }

  lemma RestoreStep(q: Request, i: bool, y: Creation)
    requires q.Valid() && |y.stack| == q.size && Done(q, i, y)
    ensures
      var z := Perform(q, StepNumber(q, 8 + |q.args|), y);
      z.i == i && z.listed && FrameComplete(q, z)
  {
  }

  lemma EnableStep(q: Request, y: Creation)
    requires q.Valid() && |y.stack| == q.size && y.listed && FrameComplete(q, y)
    ensures
      var z := Perform(q, StepNumber(q, 9 + |q.args|), y);
      z.i && z.listed && FrameComplete(q, z)
  {
  }

  /** In every state in which an interrupt can be taken, a listed task has a complete frame. */
  lemma PublicationIsSafe(q: Request, x: Creation, n: nat)
    requires q.Valid() && |x.stack| == q.size && n <= StepCount(q) && !x.listed
    ensures var y := At(q, x, n); y.i && y.listed ==> FrameComplete(q, y)
  {
    var k := |q.args|;
    if n <= 4 {
      BeforeListing(q, x);
    } else if n <= 7 {
      Published(q, x);
    } else if n <= 7 + k {
      WhilePlacing(q, x, n - 7);
    } else {
      Closing(q, x, n);
    }
  }

  /** After SetEntry nothing but the I flag changes. */
  lemma {:induction false} Closing(q: Request, x: Creation, n: nat)
    requires q.Valid() && |x.stack| == q.size && 8 + |q.args| <= n <= StepCount(q)
    ensures FrameComplete(q, At(q, x, n))
  {
    if n == 8 + |q.args| {
      Finished(q, x);
    } else {
      Closing(q, x, n - 1);
      AtNext(q, x, n - 1);
      FlagStep(q, StepNumber(q, n - 1), At(q, x, n - 1));
    }
  }

  lemma FlagStep(q: Request, s: Step, y: Creation)
    requires q.Valid() && |y.stack| == q.size && FrameComplete(q, y)
    requires s.RestoreOuter? || s.EnableInterrupts?
    ensures FrameComplete(q, Perform(q, s, y))
  {
  }

  /** The nested call, which is also the create_task without arguments: interrupts are off from its second
      step until the task is listed, then the caller's flag comes back. Without arguments its frame is
      complete by then. */
  lemma NestedCallIsMasked(q: Request, x: Creation)
    requires q.Valid() && |x.stack| == q.size
    ensures
      var y1 := Perform(q, CliInner, Perform(q, SaveInner, x));
      var y2 := Perform(q, SetBaseFrame, y1);
      var y3 := Perform(q, AddToReadyList, y2);
      var y4 := Perform(q, RestoreInner, y3);
      && !y1.i && !y2.i && !y3.i && y3.listed
      && y4.i == x.i && y4.listed && y4.outer == x.outer
      && (q.args == [] ==> FrameComplete(q, y4))
  {
    var y := Perform(q, SetBaseFrame, Perform(q, CliInner, Perform(q, SaveInner, x)));
    if q.args == [] {
      assert Placed(q.args, 0, y.c.r, y.stack);
    }
  }

  /** Without the outer cli the same steps expose a task whose argument is not there yet. */
  lemma OuterCliIsNeeded(q: Request, x: Creation)
    requires q.Valid() && |x.stack| == q.size && x.i && q.args == [[1]] && x.c.r[24] == 0
    ensures
      var y := Perform(q, RestoreInner, Perform(q, AddToReadyList, Perform(q, SetBaseFrame,
               Perform(q, CliInner, Perform(q, SaveInner, x)))));
      y.i && y.listed && !Complete(q.base, q.entry, q.args, y.c, y.stack)
  {
    var y := Perform(q, RestoreInner, Perform(q, AddToReadyList, Perform(q, SetBaseFrame,
             Perform(q, CliInner, Perform(q, SaveInner, x)))));
    assert RegisterBytes(q.args, 0) == 0;
    assert RegisterBytes(q.args, 1) == 2;
    assert FitsRegisters(q.args, 0, CODE_LIMIT);
    assert y.c.r[24..25][0] == 0;
    assert !PlacedAt(q.args, 0, y.c.r, y.stack);
  }
}
