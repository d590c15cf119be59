/** The clock: an 8-bit hardware counter that ticks every 64 cycles at 16 MHz (4 microseconds), its
    overflow flag and interrupt, and the microsecond and millisecond clocks built on them. */
module Clock {
  import opened Prelude
  import opened Modular

  const CYCLES_PER_US := 16
  const US_PER_OVERFLOW := 64 * 256 / CYCLES_PER_US
  const MS_INC := US_PER_OVERFLOW / 1000
  const FRACT_INC := (US_PER_OVERFLOW % 1000) / 8
  const FRACT_MAX := 1000 / 8

  /** ticks is the true number of timer ticks since start; TCNT0 is its low byte. tov is the
      pending overflow flag. The other fields are the driver's variables. */
  datatype State = State(ticks: nat, tov: bool, overflows: Uint32, ms: Uint32, fract: Byte) {
    function Tcnt(): Byte { ticks % 256 }
  }

  datatype Event = Tick | Service

  const START := State(0, false, 0, 0, 0)

  /** The hardware counts, and raises the flag when the counter wraps to zero. */
  function TickOnce(s: State): State {
    s.(ticks := s.ticks + 1, tov := s.tov || (s.ticks + 1) % 256 == 0)
  }

  /** The millisecond pair after one overflow, in byte and 32-bit arithmetic. */
  function NextMs(ms: Uint32, fract: Byte): (Uint32, Byte) {
    var m := (ms + MS_INC) % UINT32;
    var f := (fract + FRACT_INC) % 0x100;
    if f >= FRACT_MAX then ((m + 1) % UINT32, f - FRACT_MAX) else (m, f)
  }

  /** ISR(TIMER0_OVF_vect): taking the interrupt clears the flag. */
  function ServiceOverflow(s: State): State {
    var (ms, fract) := NextMs(s.ms, s.fract);
    State(s.ticks, false, (s.overflows + 1) % UINT32, ms, fract)
  }

  /** get_us: the overflow count is read, then TCNT0, then the flag; edge says whether a tick
      falls between the last two reads. */
  function GetUs(s: State, edge: bool): Uint32 {
    var t := s.Tcnt();
    var flag := (if edge then TickOnce(s) else s).tov;
    Microseconds(s.overflows + if flag && t < 255 then 1 else 0, t)
  }

  /** 256 ticks per overflow, 64 / 16 microseconds per tick, modulo 2^32. */
  function Microseconds(overflows: nat, t: Byte): Uint32 {
    4 * (256 * overflows + t) % UINT32
  }

  function Apply(s: State, e: Event): State {
    match e
    case Tick => TickOnce(s)
    case Service => ServiceOverflow(s)
  }

  function After(s: State, es: seq<Event>): State {
    if es == [] then s else Apply(After(s, es[..|es| - 1]), es[|es| - 1])
  }

  /** What the hardware can do: tick at any time, and interrupt only when the flag is up. */
  ghost predicate HardwareRun(s: State, es: seq<Event>) {
    if es == [] then true
    else
      var p, e := es[..|es| - 1], es[|es| - 1];
      HardwareRun(s, p) && (e.Service? ==> After(s, p).tov)
  }

  /** Overflow interrupts taken in a run. */
  function Serviced(es: seq<Event>): nat {
    if es == [] then 0 else Serviced(es[..|es| - 1]) + if es[|es| - 1].Service? then 1 else 0
  }

  /** The counter wraps while the flag is still up: one flag stands for two overflows. */
  predicate LosesOverflow(s: State, e: Event) { e.Tick? && s.tov && (s.ticks + 1) % 256 == 0 }

  /** Overflows of a run that found the flag already up. */
  function Lost(s: State, es: seq<Event>): nat {
    if es == [] then 0
    else
      var p, e := es[..|es| - 1], es[|es| - 1];
      Lost(s, p) + if LosesOverflow(After(s, p), e) then 1 else 0
  }

  /** Every wrap of the counter is serviced, pending or lost, and the millisecond pair is exact
      for the n serviced overflows. */
  ghost predicate Consistent(s: State, n: nat, lost: nat) {
    && s.ticks / 256 == n + lost + (if s.tov then 1 else 0)
    && s.overflows == n % UINT32
    && MsExact(s.ms, s.fract, n)
  }

  /** The whole milliseconds in n overflows of 1024 microseconds. */
  function MillisecondsAfter(n: nat): nat { 128 * n / 125 }

  /** ms is floor(128 n / 125), wrapped, and fract is the remainder, in units of 8 microseconds. */
  ghost predicate MsExact(ms: Uint32, fract: Byte, n: nat) {
    MsIs(ms, fract, MillisecondsAfter(n), n)
  }

  ghost predicate MsIs(ms: Uint32, fract: Byte, k: nat, n: nat) {
    ms == k % UINT32 && fract < FRACT_MAX && 125 * k + fract == 128 * n
  }

  lemma TickKeepsConsistent(s: State, n: nat, lost: nat)
    requires Consistent(s, n, lost)
    ensures Consistent(TickOnce(s), n, if LosesOverflow(s, Tick) then lost + 1 else lost)
  {
  }

  lemma ServiceKeepsConsistent(s: State, n: nat, lost: nat)
    requires Consistent(s, n, lost) && s.tov
    ensures Consistent(ServiceOverflow(s), n + 1, lost)
  {
    MillisecondStep(s.ms, s.fract, n);
    AddWraps(n, 1, UINT32);
  }

  lemma MillisecondStep(ms: Uint32, fract: Byte, n: nat)
    requires MsExact(ms, fract, n)
    ensures var (m, f) := NextMs(ms, fract); MsExact(m, f, n + 1)
  {
    var k := MillisecondsAfter(n);
    MsIsStep(ms, fract, k, n);
    if fract + 3 >= 125 {
      QuotientIs(128 * (n + 1), k + 2, fract + 3 - 125);
    } else {
      QuotientIs(128 * (n + 1), k + 1, fract + 3);
    }
  }

  lemma MsIsStep(ms: Uint32, fract: Byte, k: nat, n: nat)
    requires MsIs(ms, fract, k, n)
    ensures var (m, f) := NextMs(ms, fract); MsIs(m, f, if fract + 3 >= 125 then k + 2 else k + 1, n + 1)
  {
    NextMsIs(ms, fract, k);
  }

  /** The fraction never overflows its byte, and the two increments of ms may each wrap. */
  lemma NextMsIs(ms: Uint32, fract: Byte, k: nat)
    requires ms == k % UINT32 && fract < FRACT_MAX
    ensures NextMs(ms, fract)
         == if fract + 3 >= 125 then ((k + 2) % UINT32, fract + 3 - 125) else ((k + 1) % UINT32, fract + 3)
  {
    assert MS_INC == 1 && FRACT_INC == 3 && FRACT_MAX == 125;
    SmallSum(fract);
    AddWraps(k, 1, UINT32);
    AddWraps(k + 1, 1, UINT32);
  }

  lemma SmallSum(fract: Byte)
    requires fract < 125
    ensures (fract + 3) % 0x100 == fract + 3
  {
  }

  lemma QuotientIs(x: nat, q: nat, r: nat)
    requires x == 125 * q + r && r < 125
    ensures x / 125 == q
  {
  }

  /** Over every run of the hardware from start-up each overflow is serviced, pending or lost, and
      the millisecond clock is exactly floor(128 n / 125) with its remainder in fract, for the n
      serviced ones. */
  lemma {:induction false} RunIsConsistent(es: seq<Event>)
    requires HardwareRun(START, es)
    ensures Consistent(After(START, es), Serviced(es), Lost(START, es))
  {
    if es != [] {
      var p, e := es[..|es| - 1], es[|es| - 1];
      RunIsConsistent(p);
      match e
      case Tick => TickKeepsConsistent(After(START, p), Serviced(p), Lost(START, p));
      case Service => ServiceKeepsConsistent(After(START, p), Serviced(p), Lost(START, p));
    }
  }

  /** The counter is not at 255 with an overflow already pending. */
  predicate Timely(s: State) { !(s.tov && s.Tcnt() == 255) }

  /** 1024 microseconds per overflow make 2^32 after so many overflows. */
  const OVERFLOWS_PER_WRAP := UINT32 / 1024

  /** Overflows that a reading in state s misses, after lost ones were never flagged. */
  function Missed(s: State, lost: nat): nat { lost + if Timely(s) then 0 else 1 }

  /** get_us gives four times the true tick count, modulo 2^32. */
  predicate Exact(s: State, edge: bool) { GetUs(s, edge) == 4 * s.ticks % UINT32 }

  ghost predicate ExactIffWhole(s: State, edge: bool, missed: nat) {
    Exact(s, edge) <==> missed % OVERFLOWS_PER_WRAP == 0
  }

  /** When get_us is right, for everything the hardware can do: the reading is four times the true
      tick count, modulo 2^32, exactly when the overflows that found the flag up, plus one if the
      counter is read at 255 with the flag up, number a multiple of 2^22. An overflow between the
      two reads never matters. */
  lemma {:induction false} GetUsExactlyWhen(es: seq<Event>, edge: bool)
    requires HardwareRun(START, es)
    ensures ExactIffWhole(After(START, es), edge, Missed(After(START, es), Lost(START, es)))
  {
    RunIsConsistent(es);
    ExactInState(After(START, es), Serviced(es), Lost(START, es), edge);
  }

  lemma ExactInState(s: State, n: nat, lost: nat, edge: bool)
    requires Consistent(s, n, lost)
    ensures ExactIffWhole(s, edge, Missed(s, lost))
  {
    var c := if s.tov && s.Tcnt() < 255 then 1 else 0;
    CountedOverflows(s, edge, c);
    TicksAre(s, n, lost);
    MissedIs(s, lost, c);
    ReadingAgainstTicks(GetUs(s, edge), s.ticks, n, c, Missed(s, lost), s.Tcnt());
  }

  lemma ReadingAgainstTicks(us: int, ticks: nat, n: nat, c: nat, missed: nat, t: Byte)
    requires us == Microseconds(n % UINT32 + c, t) && ticks == 256 * (n + c + missed) + t
    ensures us == 4 * ticks % UINT32 <==> missed % OVERFLOWS_PER_WRAP == 0
  {
    ReadingExactlyWhen(n, c, missed, t);
  }

  lemma MissedIs(s: State, lost: nat, c: nat)
    requires c == if s.tov && s.Tcnt() < 255 then 1 else 0
    ensures c + Missed(s, lost) == lost + if s.tov then 1 else 0
  {
  }

  /** An overflow between the two reads is not counted, one pending before them is. */
  lemma CountedOverflows(s: State, edge: bool, c: nat)
    requires c == if s.tov && s.Tcnt() < 255 then 1 else 0
    ensures GetUs(s, edge) == Microseconds(s.overflows + c, s.Tcnt())
  {
  }

  lemma TicksAre(s: State, n: nat, lost: nat)
    requires Consistent(s, n, lost)
    ensures s.ticks == 256 * (n + lost + if s.tov then 1 else 0) + s.Tcnt()
  {
  }

  /** A reading that misses k overflows is right exactly when they fill whole wraps. */
  lemma ReadingExactlyWhen(n: nat, c: nat, k: nat, t: Byte)
    ensures Microseconds(n % UINT32 + c, t) == 4 * (256 * (n + c + k) + t) % UINT32
       <==> k % OVERFLOWS_PER_WRAP == 0
  {
    ScaleWraps(n, c, t);
    MissedShows(4 * (256 * (n + c) + t), k);
  }

  lemma MissedShows(a: nat, k: nat)
    ensures a % UINT32 == (a + 1024 * k) % UINT32 <==> k % OVERFLOWS_PER_WRAP == 0
  {
    MissedParts(a, k, k / OVERFLOWS_PER_WRAP, k % OVERFLOWS_PER_WRAP);
  }

  lemma MissedParts(a: nat, k: nat, q: nat, r: nat)
    requires k == 0x40_0000 * q + r && r < 0x40_0000
    ensures a % UINT32 == (a + 1024 * k) % UINT32 <==> r == 0
  {
    assert a + 1024 * k == (a + 1024 * r) + UINT32 * q;
    DropMultiple(a + 1024 * r, q);
    SmallShift(a, 1024 * r);
  }

  lemma SmallShift(a: nat, d: nat)
    requires d < UINT32
    ensures a % UINT32 == (a + d) % UINT32 <==> d == 0
  {
  }

  /** Reducing the overflow count first does not change the reduced microseconds. */
  lemma ScaleWraps(n: nat, more: nat, t: Byte)
    ensures Microseconds(n % UINT32 + more, t) == Microseconds(n + more, t)
  {
    var m, q := n % UINT32, n / UINT32;
    assert 4 * (256 * (n + more) + t) == 4 * (256 * (m + more) + t) + UINT32 * (1024 * q);
    DropMultiple(4 * (256 * (m + more) + t), 1024 * q);
  }

  lemma DropMultiple(a: nat, k: nat)
    ensures (a + UINT32 * k) % UINT32 == a % UINT32
  {
  }

  /** The interrupt is served in time: a tick is admitted unless the flag has been pending for
      254 ticks, and a service only when the flag is up. */
  predicate Admitted(s: State, e: Event) {
    match e
    case Tick => !(s.tov && s.Tcnt() >= 254)
    case Service => s.tov
  }

  ghost predicate AdmittedRun(s: State, es: seq<Event>) {
    if es == [] then true
    else AdmittedRun(s, es[..|es| - 1]) && Admitted(After(s, es[..|es| - 1]), es[|es| - 1])
  }

  /** Interrupts served in time lose nothing, and the flag is never 255 ticks old. */
  lemma {:induction false} ServedInTime(s: State, es: seq<Event>)
    requires AdmittedRun(s, es) && Timely(s)
    ensures HardwareRun(s, es) && Lost(s, es) == 0 && Timely(After(s, es))
  {
    if es != [] {
      var p, e := es[..|es| - 1], es[|es| - 1];
      ServedInTime(s, p);
      AdmittedKeepsTimely(After(s, p), e);
    }
  }

  lemma AdmittedKeepsTimely(s: State, e: Event)
    requires Timely(s) && Admitted(s, e)
    ensures Timely(Apply(s, e)) && !LosesOverflow(s, e)
  {
  }

  /** In every state reached while interrupts are served in time, get_us is four times the true
      tick count. */
  lemma {:induction false} GetUsIsExact(es: seq<Event>, edge: bool)
    requires AdmittedRun(START, es)
    ensures Exact(After(START, es), edge)
  {
    ServedInTime(START, es);
    GetUsExactlyWhen(es, edge);
    NothingMissed(After(START, es), edge);
  }

  lemma NothingMissed(s: State, edge: bool)
    requires ExactIffWhole(s, edge, Missed(s, 0)) && Timely(s)
    ensures Exact(s, edge)
  {
  }

  lemma {:induction false} TicksGrow(s: State, es: seq<Event>, more: seq<Event>)
    ensures After(s, es).ticks <= After(s, es + more).ticks
  {
    if more == [] {
      assert es + more == es;
    } else {
      var m := more[..|more| - 1];
      TicksGrow(s, es, m);
      assert (es + more)[..|es + more| - 1] == es + m;
    }
  }

  lemma {:induction false} PrefixIsAdmitted(s: State, es: seq<Event>, more: seq<Event>)
    requires AdmittedRun(s, es + more)
    ensures AdmittedRun(s, es)
  {
    if more == [] {
      assert es + more == es;
    } else {
      assert (es + more)[..|es + more| - 1] == es + more[..|more| - 1];
      PrefixIsAdmitted(s, es, more[..|more| - 1]);
    }
  }

  /** Later readings are never smaller, across any number of overflows, until the 32-bit wrap. */
  lemma {:induction false} GetUsIsMonotone(es: seq<Event>, e1: bool, more: seq<Event>, e2: bool)
    requires AdmittedRun(START, es + more) && 4 * After(START, es + more).ticks < UINT32
    ensures GetUs(After(START, es), e1) <= GetUs(After(START, es + more), e2)
  {
    var s1, s2 := After(START, es), After(START, es + more);
    PrefixIsAdmitted(START, es, more);
    GetUsIsExact(es, e1);
    GetUsIsExact(es + more, e2);
    TicksGrow(START, es, more);
    OrderedReadings(GetUs(s1, e1), s1.ticks, GetUs(s2, e2), s2.ticks);
  }

  lemma OrderedReadings(u1: int, t1: nat, u2: int, t2: nat)
    requires u1 == 4 * t1 % UINT32 && u2 == 4 * t2 % UINT32
    requires t1 <= t2 && 4 * t2 < UINT32
    ensures u1 <= u2
  {
    NoWrap(u1, 4 * t1);
    NoWrap(u2, 4 * t2);
  }

  lemma NoWrap(us: int, x: nat)
    requires us == x % UINT32 && x < UINT32
    ensures us == x
  {
  }

  /** No overflow is pending and the true time is below 2^32 microseconds. */
  predicate BeforeWrap(s: State) { !s.tov && 4 * s.ticks < UINT32 }

  predicate InStep(s: State, edge: bool) { 0 <= GetUs(s, edge) - 1000 * s.ms <= 2012 }

  /** The two clocks stay together over every run of the hardware, lost overflows or not: before any
      wrap and with no overflow pending, microseconds minus 1000 times milliseconds is between 0
      and 2012. */
  lemma {:induction false} ClocksAgree(es: seq<Event>, edge: bool)
    requires HardwareRun(START, es) && BeforeWrap(After(START, es))
    ensures InStep(After(START, es), edge)
  {
    RunIsConsistent(es);
    AgreeInState(After(START, es), Serviced(es), Lost(START, es), edge);
  }

  lemma AgreeInState(s: State, n: nat, lost: nat, edge: bool)
    requires Consistent(s, n, lost) && BeforeWrap(s)
    ensures InStep(s, edge)
  {
    CountedOverflows(s, edge, 0);
    TicksAre(s, n, lost);
    ReadingWithoutWrap(GetUs(s, edge), s.ticks, n, lost, s.Tcnt());
    ClockDifference(GetUs(s, edge), s.ms, s.fract, MillisecondsAfter(n), n, s.Tcnt());
  }

  lemma ReadingWithoutWrap(us: int, ticks: nat, n: nat, lost: nat, t: Byte)
    requires us == Microseconds(n % UINT32, t) && ticks == 256 * (n + lost) + t && 4 * ticks < UINT32
    ensures us == 4 * (256 * n + t) < UINT32
  {
    ScaleWraps(n, 0, t);
    NoWrap(us, 4 * (256 * n + t));
  }

  lemma ClockDifference(us: nat, ms: Uint32, fract: Byte, k: nat, n: nat, t: Byte)
    requires MsIs(ms, fract, k, n) && us == 4 * (256 * n + t) && us < UINT32
    ensures 0 <= us - 1000 * ms <= 2012
  {
    assert 1000 * k + 8 * fract == 1024 * n;
    NoWrap(ms, k);
  }

  /** Ticks alone, with interrupts off. */
  function Ticks(k: nat): seq<Event> { seq(k, _ => Tick) }

  lemma {:induction false} TicksAlone(k: nat)
    requires k < 768
    ensures HardwareRun(START, Ticks(k)) && After(START, Ticks(k)) == State(k, k >= 256, 0, 0, 0)
    ensures Lost(START, Ticks(k)) == if k >= 512 then 1 else 0
  {
    if k > 0 {
      assert Ticks(k)[..k - 1] == Ticks(k - 1);
      TicksAlone(k - 1);
      TickAlone(k);
    }
  }

  lemma TickAlone(k: nat)
    requires 0 < k < 768
    ensures
      var s := State(k - 1, k > 256, 0, 0, 0);
      TickOnce(s) == State(k, k >= 256, 0, 0, 0) && (LosesOverflow(s, Tick) <==> k == 512)
  {
  }

  /** Interrupts off for 511 ticks, read at 255 with the flag up: one overflow is missing. */
  lemma StaleFlagIsMisread()
    ensures HardwareRun(START, Ticks(511)) && !Timely(After(START, Ticks(511)))
    ensures GetUs(After(START, Ticks(511)), false) == 4 * 255
  {
    TicksAlone(511);
  }

  /** Interrupts off for 517 ticks: the second overflow finds the flag up and is lost, so get_us reads
      1044 where 2068 microseconds have passed, although the counter is at 5. */
  lemma LostOverflowIsMisread()
    ensures HardwareRun(START, Ticks(517)) && Timely(After(START, Ticks(517)))
    ensures GetUs(After(START, Ticks(517)), false) == 1044 && 4 * After(START, Ticks(517)).ticks == 2068
  {
    TicksAlone(517);
  }

  /** The shift, the addition and the multiplication may each wrap: the result is the same. */
  lemma WrapsStepByStep(overflows: Uint32, more: nat, t: Byte)
    requires more <= 1
    ensures
      var n := if more == 1 then (overflows + 1) % UINT32 else overflows;
      (n * 256 % UINT32 + t) % UINT32 * 4 % UINT32 == Microseconds(overflows + more, t)
  {
    var n := if more == 1 then (overflows + 1) % UINT32 else overflows;
    ReducedCount(overflows, more);
    ShiftAddMultiply(n, t);
    ScaleWraps(overflows + more, 0, t);
  }

  lemma ReducedCount(overflows: Uint32, more: nat)
    requires more <= 1
    ensures (if more == 1 then (overflows + 1) % UINT32 else overflows) == (overflows + more) % UINT32
  {
  }

  lemma ShiftAddMultiply(n: Uint32, t: Byte)
    ensures (n * 256 % UINT32 + t) % UINT32 * 4 % UINT32 == Microseconds(n, t)
  {
    AddWraps(n * 256, t, UINT32);
    FourWraps(n * 256 + t);
  }

  lemma FourWraps(a: nat)
    ensures a % UINT32 * 4 % UINT32 == 4 * a % UINT32
  {
    var q := a / UINT32;
    assert 4 * a == 4 * (a % UINT32) + UINT32 * (4 * q);
    DropMultiple(4 * (a % UINT32), 4 * q);
  }

  /** The driver as an object: the interrupt and the readers. */
  class Driver {
    var timer0OverflowCount: Uint32
    var timer0Ms: Uint32
    var timer0FractionalMs: Byte
    var ticks: nat
    var tov0: bool

    ghost function Value(): State
      reads this
    {
      State(ticks, tov0, timer0OverflowCount, timer0Ms, timer0FractionalMs)
    }

    constructor ()
      ensures Value() == START
    {
      timer0OverflowCount, timer0Ms, timer0FractionalMs, ticks, tov0 := 0, 0, 0, 0, false;
    }

    method OverflowInterrupt()
      modifies this
      ensures Value() == ServiceOverflow(old(Value()))
    {
      tov0 := false;
      var ms := timer0Ms;
      var fract := timer0FractionalMs;
      ms := (ms + MS_INC) % UINT32;
      fract := (fract + FRACT_INC) % 0x100;
      if fract >= FRACT_MAX {
        fract := fract - FRACT_MAX;
        ms := (ms + 1) % UINT32;
      }
      timer0FractionalMs := fract;
      timer0Ms := ms;
      timer0OverflowCount := (timer0OverflowCount + 1) % UINT32;
    }

    method Hardware()
      modifies this`ticks, this`tov0
      ensures Value() == TickOnce(old(Value()))
    {
      ticks := ticks + 1;
      tov0 := tov0 || ticks % 256 == 0;
    }

    /** get_ms: the whole milliseconds in the overflows serviced so far. */
    method GetMs() returns (ms: Uint32)
      ensures forall n, lost | Consistent(Value(), n, lost) :: ms == MillisecondsAfter(n) % UINT32
    {
      ms := timer0Ms;
    }

    /** A tick may fall between reading TCNT0 and reading TIFR0. */
    method ReadUs(edge: bool) returns (us: Uint32)
      modifies this`ticks, this`tov0
      ensures us == GetUs(old(Value()), edge)
      ensures Value() == if edge then TickOnce(old(Value())) else old(Value())
    {
      var n := timer0OverflowCount;
      var t := ticks % 256;
      if edge {
        Hardware();
      }
      if tov0 && t < 255 {
        n := (n + 1) % UINT32;
      }
      WrapsStepByStep(old(timer0OverflowCount), if tov0 && t < 255 then 1 else 0, t);
      us := (n * 256 % UINT32 + t) % UINT32 * (64 / CYCLES_PER_US) % UINT32;
    }
  }
}
