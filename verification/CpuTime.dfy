/** Per-task CPU time: what every switch charges to the outgoing task, and the conservation law
    over whole runs of switches. */
module CpuTime {
  import opened Prelude
  import opened TaskData
  import opened Clock

  const UINT32_MAX := UINT32 - 1

  /** The accounting fields of a control block. */
  datatype Times = Times(exec: Uint32, overflowCount: Byte, start: Uint32)

  /** Length of the slice that started at start and ends at now, across at most one wrap. */
  function Slice(start: Uint32, now: Uint32): Uint32 {
    if now >= start then now - start else UINT32_MAX - start + now + 1
  }

  /** The test made without exceeding 32 bits: the sum would not fit. */
  predicate Overflows(t: Times, slice: Uint32)
    ensures Overflows(t, slice) <==> t.exec + slice >= UINT32
  {
    t.exec > UINT32_MAX - slice
  }

  /** calculate_task_execution_time: on overflow the accumulator restarts from the last slice. */
  function Charge(t: Times, now: Uint32): Times {
    var slice := Slice(t.start, now);
    if Overflows(t, slice) then t.(exec := slice, overflowCount := (t.overflowCount + 1) % 0x100)
    else t.(exec := t.exec + slice)
  }

  ghost function TimesOf(task: Task): Times
    reads task
  {
    Times(task.execTimeUs, task.execTimeOverflowCount, task.execStartTimeUs)
  }

  /** The control blocks that a charge writes: none for null. */
  function Charged(task: Task?): set<Task> { if task == null then {} else {task} }

  method CalculateExecutionTime(task: Task?, now: Uint32)
    modifies Charged(task)`execTimeUs, Charged(task)`execTimeOverflowCount
    ensures task != null ==> TimesOf(task) == Charge(old(TimesOf(task)), now)
  {
    if task == null {
      return;
    }
    var slice: Uint32;
    if now >= task.execStartTimeUs {
      slice := now - task.execStartTimeUs;
    } else {
      slice := UINT32_MAX - task.execStartTimeUs + now + 1;
    }
    if task.execTimeUs > UINT32_MAX - slice {
      task.execTimeOverflowCount := (task.execTimeOverflowCount + 1) % 0x100;
      task.execTimeUs := slice;
    } else {
      task.execTimeUs := task.execTimeUs + slice;
    }
  }

  /** The wrapped difference is the true length of any slice shorter than 2^32 microseconds. */
  lemma SliceIsExact(from: nat, to: nat)
    requires from <= to < from + UINT32
    ensures Slice(from % UINT32, to % UINT32) == to - from
  {
  }

  // Whole runs

  /** A switch at true time charged (outgoing task charged) and stamped (incoming task's start). */
  datatype SwitchAt = SwitchAt(charged: nat, stamped: nat, next: nat)

  datatype Accounts = Accounts(tasks: seq<Times>, cur: nat)

  /** A switch with the two readings of the microsecond clock that it takes. */
  function SwitchWith(s: Accounts, charged: Uint32, stamped: Uint32, next: nat): Accounts
    requires s.cur < |s.tasks| && next < |s.tasks|
  {
    var tasks := s.tasks[s.cur := Charge(s.tasks[s.cur], charged)];
    Accounts(tasks[next := tasks[next].(start := stamped)], next)
  }

  function PerformSwitch(s: Accounts, w: SwitchAt): Accounts
    requires s.cur < |s.tasks| && w.next < |s.tasks|
  {
    SwitchWith(s, w.charged % UINT32, w.stamped % UINT32, w.next)
  }

  /** Times move forward from the last stamp, and no slice is longer than the clock can measure. */
  ghost predicate Timely(since: nat, tasks: nat, ws: seq<SwitchAt>)
    decreases |ws|
  {
    ws != [] ==>
      && since <= ws[0].charged <= ws[0].stamped && ws[0].charged < since + UINT32
      && ws[0].next < tasks
      && Timely(ws[0].stamped, tasks, ws[1..])
  }

  /** The running task was stamped at the true time since. */
  ghost predicate StampedAt(s: Accounts, since: nat) {
    s.cur < |s.tasks| && s.tasks[s.cur].start == since % UINT32
  }

  ghost function AfterSwitches(s: Accounts, since: nat, ws: seq<SwitchAt>): Accounts
    requires s.cur < |s.tasks| && Timely(since, |s.tasks|, ws)
    decreases |ws|
  {
    if ws == [] then s else AfterSwitches(PerformSwitch(s, ws[0]), ws[0].stamped, ws[1..])
  }

  function Total(ts: seq<Times>): nat {
    if ts == [] then 0 else Total(ts[..|ts| - 1]) + ts[|ts| - 1].exec
  }

  /** Time spent in the kernel between each charge and the following stamp. */
  function Gaps(ws: seq<SwitchAt>): int {
    if ws == [] then 0 else ws[0].stamped - ws[0].charged + Gaps(ws[1..])
  }

  function LastStamp(since: nat, ws: seq<SwitchAt>): nat {
    if ws == [] then since else ws[|ws| - 1].stamped
  }

  /** Time thrown away by accumulators that restarted. */
  ghost function Lost(s: Accounts, since: nat, ws: seq<SwitchAt>): nat
    requires s.cur < |s.tasks| && Timely(since, |s.tasks|, ws)
    decreases |ws|
  {
    if ws == [] then 0
    else
      (if Overflows(s.tasks[s.cur], ws[0].charged - since) then s.tasks[s.cur].exec else 0)
      + Lost(PerformSwitch(s, ws[0]), ws[0].stamped, ws[1..])
  }

  ghost predicate NoOverflow(s: Accounts, since: nat, ws: seq<SwitchAt>)
    requires s.cur < |s.tasks| && Timely(since, |s.tasks|, ws)
    decreases |ws|
  {
    ws != [] ==>
      && !Overflows(s.tasks[s.cur], ws[0].charged - since)
      && NoOverflow(PerformSwitch(s, ws[0]), ws[0].stamped, ws[1..])
  }

  lemma {:induction false} TotalUpdate(ts: seq<Times>, i: nat, t: Times)
    requires i < |ts|
    ensures Total(ts[i := t]) == Total(ts) - ts[i].exec + t.exec
  {
    var n := |ts| - 1;
    if i < n {
      TotalUpdate(ts[..n], i, t);
      assert ts[i := t][..n] == ts[..n][i := t];
    } else {
      assert ts[i := t][..n] == ts[..n];
    }
  }

  /** One switch: the total grows by the slice, less what an overflowing accumulator drops. */
  lemma OneSwitch(s: Accounts, since: nat, w: SwitchAt)
    requires s.cur < |s.tasks| && w.next < |s.tasks| && s.tasks[s.cur].start == since % UINT32
    requires since <= w.charged < since + UINT32
    ensures
      Total(PerformSwitch(s, w).tasks)
      == Total(s.tasks) + (w.charged - since)
         - if Overflows(s.tasks[s.cur], w.charged - since) then s.tasks[s.cur].exec else 0
    ensures
      var r := PerformSwitch(s, w);
      && r.cur == w.next && |r.tasks| == |s.tasks| && StampedAt(r, w.stamped)
      && (forall i | 0 <= i < |s.tasks| && i != s.cur ::
            r.tasks[i].exec == s.tasks[i].exec && r.tasks[i].overflowCount == s.tasks[i].overflowCount)
      && r.tasks[s.cur].overflowCount
         == (s.tasks[s.cur].overflowCount + if Overflows(s.tasks[s.cur], w.charged - since) then 1 else 0) % 0x100
  {
    SliceIsExact(since, w.charged);
    var charged := s.tasks[s.cur := Charge(s.tasks[s.cur], w.charged % UINT32)];
    TotalUpdate(s.tasks, s.cur, Charge(s.tasks[s.cur], w.charged % UINT32));
    TotalUpdate(charged, w.next, charged[w.next].(start := w.stamped % UINT32));
  }

  /** Conservation: charged time, kernel gaps and dropped time add up to the time elapsed. */
  lemma {:induction false} TimeIsConserved(s: Accounts, since: nat, ws: seq<SwitchAt>)
    requires StampedAt(s, since) && Timely(since, |s.tasks|, ws)
    ensures Total(AfterSwitches(s, since, ws).tasks) + Gaps(ws) + Lost(s, since, ws)
         == Total(s.tasks) + LastStamp(since, ws) - since
    decreases |ws|
  {
    if ws != [] {
      OneSwitch(s, since, ws[0]);
      TimeIsConserved(PerformSwitch(s, ws[0]), ws[0].stamped, ws[1..]);
    }
  }

  lemma {:induction false} NothingLostExactlyWhen(s: Accounts, since: nat, ws: seq<SwitchAt>)
    requires s.cur < |s.tasks| && Timely(since, |s.tasks|, ws)
    ensures Lost(s, since, ws) == 0 <==> NoOverflow(s, since, ws)
    decreases |ws|
  {
    if ws != [] {
      NothingLostExactlyWhen(PerformSwitch(s, ws[0]), ws[0].stamped, ws[1..]);
    }
  }

  /** From start-up (all accumulators zero, the first task charged from clock zero): the sum of all
      exec_time_us plus the kernel gaps is the time of the last switch exactly when no accumulator
      overflowed, even if the microsecond clock wrapped inside slices. */
  lemma CpuTimeAddsUpExactlyWhen(n: nat, first: nat, ws: seq<SwitchAt>)
    requires first < n && Timely(0, n, ws)
    ensures
      var s := Accounts(seq(n, _ => Times(0, 0, 0)), first);
      Total(AfterSwitches(s, 0, ws).tasks) + Gaps(ws) == LastStamp(0, ws) <==> NoOverflow(s, 0, ws)
  {
    var s := Accounts(seq(n, _ => Times(0, 0, 0)), first);
    TimeIsConserved(s, 0, ws);
    NothingLostExactlyWhen(s, 0, ws);
    TotalZero(s.tasks);
  }

  // Measured by the clock

  /** A switch of a clock run: how many clock events precede each of its two readings, and whether a tick
      falls inside the reading. */
  datatype Measured = Measured(charge: nat, chargeEdge: bool, stamp: nat, stampEdge: bool, next: nat)

  ghost predicate Within(es: seq<Event>, ms: seq<Measured>, tasks: nat) {
    forall i | 0 <= i < |ms| :: ms[i].charge <= |es| && ms[i].stamp <= |es| && ms[i].next < tasks
  }

  /** The true time in microseconds after k clock events. */
  function TrueTime(es: seq<Event>, k: nat): nat
    requires k <= |es|
  {
    4 * After(START, es[..k]).ticks
  }

  /** What get_us returns there. */
  function Reading(es: seq<Event>, k: nat, edge: bool): Uint32
    requires k <= |es|
  {
    GetUs(After(START, es[..k]), edge)
  }

  lemma ReadingIsTrueTime(es: seq<Event>, k: nat, edge: bool)
    requires AdmittedRun(START, es) && k <= |es|
    ensures Reading(es, k, edge) == TrueTime(es, k) % UINT32
  {
    assert es == es[..k] + es[k..];
    PrefixIsAdmitted(START, es[..k], es[k..]);
    GetUsIsExact(es[..k], edge);
  }

  /** The accounts after switches that charge and stamp with what get_us returns. */
  function AfterMeasured(es: seq<Event>, s: Accounts, ms: seq<Measured>): Accounts
    requires s.cur < |s.tasks| && Within(es, ms, |s.tasks|)
    decreases |ms|
  {
    if ms == [] then s
    else
      var m := ms[0];
      AfterMeasured(es, SwitchWith(s, Reading(es, m.charge, m.chargeEdge), Reading(es, m.stamp, m.stampEdge), m.next),
                    ms[1..])
  }

  function TrueSwitch(es: seq<Event>, m: Measured): SwitchAt
    requires m.charge <= |es| && m.stamp <= |es|
  {
    SwitchAt(TrueTime(es, m.charge), TrueTime(es, m.stamp), m.next)
  }

  function TrueSwitches(es: seq<Event>, ms: seq<Measured>): seq<SwitchAt>
    requires forall i | 0 <= i < |ms| :: ms[i].charge <= |es| && ms[i].stamp <= |es|
    decreases |ms|
  {
    if ms == [] then [] else [TrueSwitch(es, ms[0])] + TrueSwitches(es, ms[1..])
  }

  lemma SwitchIsTrueSwitch(es: seq<Event>, s: Accounts, m: Measured)
    requires AdmittedRun(START, es) && m.charge <= |es| && m.stamp <= |es|
    requires s.cur < |s.tasks| && m.next < |s.tasks|
    ensures SwitchWith(s, Reading(es, m.charge, m.chargeEdge), Reading(es, m.stamp, m.stampEdge), m.next)
         == PerformSwitch(s, TrueSwitch(es, m))
  {
    ReadingIsTrueTime(es, m.charge, m.chargeEdge);
    ReadingIsTrueTime(es, m.stamp, m.stampEdge);
  }

  /** Accounting with get_us is accounting with the true time, modulo 2^32. */
  lemma {:induction false} MeasuredIsTrue(es: seq<Event>, s: Accounts, since: nat, ms: seq<Measured>)
    requires AdmittedRun(START, es) && s.cur < |s.tasks| && Within(es, ms, |s.tasks|)
    requires Timely(since, |s.tasks|, TrueSwitches(es, ms))
    ensures AfterMeasured(es, s, ms) == AfterSwitches(s, since, TrueSwitches(es, ms))
    decreases |ms|
  {
    if ms != [] {
      var ws := TrueSwitches(es, ms);
      SwitchIsTrueSwitch(es, s, ms[0]);
      assert ws[0] == TrueSwitch(es, ms[0]) && ws[1..] == TrueSwitches(es, ms[1..]);
      MeasuredIsTrue(es, PerformSwitch(s, ws[0]), ws[0].stamped, ms[1..]);
    }
  }

  /** End to end, from the timer's ticks to exec_time_us: while overflow interrupts are served in time,
      the sum of all tasks' times plus the kernel gaps is the true time of the last switch exactly when
      no accumulator overflowed. */
  lemma MeasuredTimeAddsUpExactlyWhen(es: seq<Event>, n: nat, first: nat, ms: seq<Measured>)
    requires AdmittedRun(START, es) && first < n && Within(es, ms, n)
    requires Timely(0, n, TrueSwitches(es, ms))
    ensures
      var s, ws := Accounts(seq(n, _ => Times(0, 0, 0)), first), TrueSwitches(es, ms);
      Total(AfterMeasured(es, s, ms).tasks) + Gaps(ws) == LastStamp(0, ws) <==> NoOverflow(s, 0, ws)
  {
    MeasuredIsTrue(es, Accounts(seq(n, _ => Times(0, 0, 0)), first), 0, ms);
    CpuTimeAddsUpExactlyWhen(n, first, TrueSwitches(es, ms));
  }

  /** One task charged twice for 3000 seconds: the accumulator restarts, and half the time is gone. */
  lemma OverflowDropsTime()
    ensures
      var s := Accounts([Times(0, 0, 0)], 0);
      var ws := [SwitchAt(3_000_000_000, 3_000_000_000, 0), SwitchAt(6_000_000_000, 6_000_000_000, 0)];
      && Timely(0, 1, ws) && !NoOverflow(s, 0, ws)
      && AfterSwitches(s, 0, ws).tasks[0].exec == 3_000_000_000
      && AfterSwitches(s, 0, ws).tasks[0].overflowCount == 1
  {
    var a, b := SwitchAt(3_000_000_000, 3_000_000_000, 0), SwitchAt(6_000_000_000, 6_000_000_000, 0);
    var s := Accounts([Times(0, 0, 0)], 0);
    var s1 := Accounts([Times(3_000_000_000, 0, 3_000_000_000)], 0);
    var s2 := Accounts([Times(3_000_000_000, 1, 6_000_000_000 % UINT32)], 0);
    assert PerformSwitch(s, a) == s1;
    assert PerformSwitch(s1, b) == s2;
    assert [a, b][1..] == [b] && [b][1..] == [];
    assert Timely(3_000_000_000, 1, [b]);
    assert AfterSwitches(s1, 3_000_000_000, [b]) == s2;
  }

  lemma {:induction false} TotalZero(ts: seq<Times>)
    requires forall i | 0 <= i < |ts| :: ts[i].exec == 0
    ensures Total(ts) == 0
  {
    if ts != [] {
      TotalZero(ts[..|ts| - 1]);
    }
  }
}
