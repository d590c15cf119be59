/** The two context macros of the kernel as straight-line programs, and what each does
    to a task control block: saving writes the whole context, restoring reads it back. */
module ContextMacros {
  import opened Prelude
  import opened Avr

  /** Offsets inside the packed cpu_registers block. */
  const SP_FIELD := 32
  const SREG_FIELD := 34
  const CONTEXT_SIZE := 35

  /** The displacement field of std/ldd is six bits wide. */
  const MAX_OFFSET := 29

  /** What a task control block remembers of the processor. */
  datatype Context = Context(r: RegisterFile, sp: Word, sreg: Byte)

  /** c_task: the address of the c_task pointer; offset: offsetof(task_data_t, cpu_state). */
  datatype Symbols = Symbols(cTask: Word, offset: nat) {
    ghost predicate Valid() { cTask + 1 < 0x10000 && offset <= MAX_OFFSET }
  }

  /** Two instructions that copy one byte into the control block through r29. */
  function Via29(source: Instr, s: Symbols, field: nat): seq<Instr>
    requires s.Valid() && field < CONTEXT_SIZE
  {
    [source, Std(s.offset + field, 29)]
  }

  const FREE_R29_TO_R31: seq<Instr> := [Cli, Push(29)] + [Push(30), Push(31)]

  function PointZ(s: Symbols): seq<Instr>
    requires s.Valid()
  {
    [Lds(30, s.cTask), Lds(31, s.cTask + 1)]
  }

  function SavePrologue(s: Symbols): seq<Instr>
    requires s.Valid()
  {
    FREE_R29_TO_R31 + PointZ(s)
    + Via29(InSreg(29), s, SREG_FIELD)
    + Via29(Pop(29), s, 31) + Via29(Pop(29), s, 30) + Via29(Pop(29), s, 29)
    + Via29(InSpl(29), s, SP_FIELD) + Via29(InSph(29), s, SP_FIELD + 1)
  }

  /** std Z+r0_offset+i, ri for i = 0 .. n-1, in that order. */
  function StoreRegisters(s: Symbols, n: nat): seq<Instr>
    requires s.Valid() && n <= 29
  {
    seq(n, i requires 0 <= i < n => Std(s.offset + i, i))
  }

  function SaveContext(s: Symbols): seq<Instr>
    requires s.Valid()
  {
    SavePrologue(s) + StoreRegisters(s, 29)
  }

  function LoadSreg(s: Symbols): seq<Instr>
    requires s.Valid()
  {
    [Ldd(29, s.offset + SREG_FIELD), OutSreg(29)]
  }

  function LoadPair(s: Symbols, field: nat): seq<Instr>
    requires s.Valid() && field + 1 < CONTEXT_SIZE
  {
    [Ldd(28, s.offset + field), Ldd(29, s.offset + field + 1)]
  }

  const SET_SP: seq<Instr> := [OutSpl(28), OutSph(29)]

  const PUSH_PAIR: seq<Instr> := [Push(28), Push(29)]

  function RestorePrologue(s: Symbols): seq<Instr>
    requires s.Valid()
  {
    PointZ(s) + LoadSreg(s) + LoadPair(s, SP_FIELD) + SET_SP + LoadPair(s, 30) + PUSH_PAIR
  }

  function LoadRegisters(s: Symbols, n: nat): seq<Instr>
    requires s.Valid() && n <= 30
  {
    seq(n, i requires 0 <= i < n => Ldd(i, s.offset + i))
  }

  const POP_Z: seq<Instr> := [Pop(31), Pop(30)]

  function RestoreContext(s: Symbols): seq<Instr>
    requires s.Valid()
  {
    RestorePrologue(s) + LoadRegisters(s, 30) + POP_Z
  }

  /** The context stored in a control block whose cpu_state starts at base. */
  function ContextAt(mem: Memory, base: Word): Context
    requires base + CONTEXT_SIZE <= 0x10000
  {
    Context(mem[base..base + 32], MakeWord(mem[base + SP_FIELD], mem[base + SP_FIELD + 1]), mem[base + SREG_FIELD])
  }

  function WordAt(mem: Memory, a: Word): Word
    requires a + 1 < 0x10000
  {
    MakeWord(mem[a], mem[a + 1])
  }

  /** Where the saved context of the task pointed to by c_task lives. */
  function CurrentBlock(s: Symbols, mem: Memory): int
    requires s.Valid()
  {
    WordAt(mem, s.cTask) + s.offset
  }

  /** n bytes from a and k bytes from b do not overlap. */
  predicate Apart(a: int, n: nat, b: int, k: nat) { a + n <= b || b + k <= a }

  /** What the saving code needs: the current task's block is in memory, c_task is outside it,
      and the three scratch bytes at SP-2 .. SP overlap neither. */
  ghost predicate CanSave(s: Symbols, m: Machine) {
    && s.Valid()
    && var b := CurrentBlock(s, m.mem);
    && b + CONTEXT_SIZE <= 0x10000
    && m.sp >= 3
    && Apart(m.sp - 2, 3, b, CONTEXT_SIZE)
    && Apart(m.sp - 2, 3, s.cTask, 2)
    && Apart(s.cTask, 2, b, CONTEXT_SIZE)
  }

  /** Memory that differs from before only inside the given block and the scratch bytes. */
  ghost predicate OnlyTouches(was: Memory, now: Memory, a: int, n: nat, b: int, k: nat) {
    forall x | 0 <= x < 0x10000 && !(a <= x < a + n) && !(b <= x < b + k) :: now[x] == was[x]
  }

  /** Four instructions in: interrupts are off and r29 .. r31 are on the stack. */
  lemma FreeRegistersEffect(m: Machine)
    requires m.sp >= 3
    ensures Run(FREE_R29_TO_R31, m)
         == m.(sp := m.sp - 3, sreg := Flags(m.sreg),
               mem := m.mem[m.sp := m.r[29]][m.sp - 1 := m.r[30]][m.sp - 2 := m.r[31]])
  {
    RunTwo(Cli, Push(29), m);
    RunTwo(Push(30), Push(31), Run([Cli, Push(29)], m));
    RunConcat([Cli, Push(29)], [Push(30), Push(31)], m);
  }

  lemma PointZEffect(s: Symbols, m: Machine)
    requires s.Valid()
    ensures Run(PointZ(s), m) == m.(r := m.r[30 := m.mem[s.cTask]][31 := m.mem[s.cTask + 1]])
  {
    RunTwo(Lds(30, s.cTask), Lds(31, s.cTask + 1), m);
  }

  lemma Via29Effect(source: Instr, s: Symbols, field: nat, m: Machine, v: Byte, sp: Word)
    requires s.Valid() && field < CONTEXT_SIZE && Z(m) + s.offset + CONTEXT_SIZE <= 0x10000
    requires Step(source, m) == m.(r := m.r[29 := v], sp := sp)
    ensures Run(Via29(source, s, field), m)
         == m.(r := m.r[29 := v], sp := sp, mem := m.mem[Z(m) + s.offset + field := v])
  {
    RunTwo(source, Std(s.offset + field, 29), m);
  }

  /** The three pops put r31, r30 and r29 as they were on entry into the block. */
  lemma PopFieldsEffect(s: Symbols, k: Machine, b: Word, sp: Word)
    requires s.Valid() && Z(k) + s.offset == b && b + CONTEXT_SIZE <= 0x10000
    requires sp >= 3 && k.sp == sp - 3 && Apart(sp - 2, 3, b, CONTEXT_SIZE)
    ensures
      var n := Run(Via29(Pop(29), s, 29), Run(Via29(Pop(29), s, 30), Run(Via29(Pop(29), s, 31), k)));
      n == k.(r := k.r[29 := k.mem[sp]], sp := sp,
              mem := k.mem[b + 31 := k.mem[sp - 2]][b + 30 := k.mem[sp - 1]][b + 29 := k.mem[sp]])
  {
    Via29Effect(Pop(29), s, 31, k, k.mem[sp - 2], sp - 2);
    var k1 := Run(Via29(Pop(29), s, 31), k);
    Via29Effect(Pop(29), s, 30, k1, k.mem[sp - 1], sp - 1);
    var k2 := Run(Via29(Pop(29), s, 30), k1);
    Via29Effect(Pop(29), s, 29, k2, k.mem[sp], sp);
  }

  lemma SpFieldsEffect(s: Symbols, k: Machine, b: Word)
    requires s.Valid() && Z(k) + s.offset == b && b + CONTEXT_SIZE <= 0x10000
    ensures
      Run(Via29(InSph(29), s, SP_FIELD + 1), Run(Via29(InSpl(29), s, SP_FIELD), k))
      == k.(r := k.r[29 := Hi(k.sp)],
            mem := k.mem[b + SP_FIELD := Lo(k.sp)][b + SP_FIELD + 1 := Hi(k.sp)])
  {
    Via29Effect(InSpl(29), s, SP_FIELD, k, Lo(k.sp), k.sp);
    Via29Effect(InSph(29), s, SP_FIELD + 1, Run(Via29(InSpl(29), s, SP_FIELD), k), Hi(k.sp), k.sp);
  }

  /** The prologue is its eight parts run one after the other. */
  lemma SaveParts(s: Symbols, m: Machine)
    requires s.Valid()
    ensures
      var a := Run(Via29(InSreg(29), s, SREG_FIELD), Run(PointZ(s), Run(FREE_R29_TO_R31, m)));
      var b := Run(Via29(Pop(29), s, 29), Run(Via29(Pop(29), s, 30), Run(Via29(Pop(29), s, 31), a)));
      Run(SavePrologue(s), m) == Run(Via29(InSph(29), s, SP_FIELD + 1), Run(Via29(InSpl(29), s, SP_FIELD), b))
  {
    var p0 := FREE_R29_TO_R31;
    var p1 := p0 + PointZ(s);
    var p2 := p1 + Via29(InSreg(29), s, SREG_FIELD);
    var p3 := p2 + Via29(Pop(29), s, 31);
    var p4 := p3 + Via29(Pop(29), s, 30);
    var p5 := p4 + Via29(Pop(29), s, 29);
    var p6 := p5 + Via29(InSpl(29), s, SP_FIELD);
    RunConcat(p0, PointZ(s), m);
    RunConcat(p1, Via29(InSreg(29), s, SREG_FIELD), m);
    RunConcat(p2, Via29(Pop(29), s, 31), m);
    RunConcat(p3, Via29(Pop(29), s, 30), m);
    RunConcat(p4, Via29(Pop(29), s, 29), m);
    RunConcat(p5, Via29(InSpl(29), s, SP_FIELD), m);
    RunConcat(p6, Via29(InSph(29), s, SP_FIELD + 1), m);
  }

  /** Up to the store of SREG: interrupts off, Z at the control block, r29 .. r31 on the stack. */
  lemma SaveFirstHalf(s: Symbols, m: Machine, b: Word)
    requires CanSave(s, m) && b == CurrentBlock(s, m.mem)
    ensures
      var k := Run(Via29(InSreg(29), s, SREG_FIELD), Run(PointZ(s), Run(FREE_R29_TO_R31, m)));
      && k.sp == m.sp - 3 && k.sreg == Flags(m.sreg) && Z(k) + s.offset == b
      && k.r == m.r[30 := k.r[30]][31 := k.r[31]][29 := Flags(m.sreg)]
      && k.mem == m.mem[m.sp := m.r[29]][m.sp - 1 := m.r[30]][m.sp - 2 := m.r[31]][b + SREG_FIELD := Flags(m.sreg)]
  {
    FreeRegistersEffect(m);
    var k0 := Run(FREE_R29_TO_R31, m);
    PointZEffect(s, k0);
    var k1 := Run(PointZ(s), k0);
    assert k0.mem[s.cTask] == m.mem[s.cTask] && k0.mem[s.cTask + 1] == m.mem[s.cTask + 1];
    Via29Effect(InSreg(29), s, SREG_FIELD, k1, Flags(m.sreg), k1.sp);
  }

  /** From there: the three pops and the two halves of SP. */
  lemma SaveSecondHalf(s: Symbols, k: Machine, b: Word, sp: Word)
    requires s.Valid() && Z(k) + s.offset == b && b + CONTEXT_SIZE <= 0x10000
    requires sp >= 3 && k.sp == sp - 3 && Apart(sp - 2, 3, b, CONTEXT_SIZE)
    ensures
      var n := Run(Via29(Pop(29), s, 29), Run(Via29(Pop(29), s, 30), Run(Via29(Pop(29), s, 31), k)));
      Run(Via29(InSph(29), s, SP_FIELD + 1), Run(Via29(InSpl(29), s, SP_FIELD), n))
      == k.(r := k.r[29 := Hi(sp)], sp := sp,
            mem := k.mem[b + 31 := k.mem[sp - 2]][b + 30 := k.mem[sp - 1]][b + 29 := k.mem[sp]]
                        [b + SP_FIELD := Lo(sp)][b + SP_FIELD + 1 := Hi(sp)])
  {
    PopFieldsEffect(s, k, b, sp);
    var n := Run(Via29(Pop(29), s, 29), Run(Via29(Pop(29), s, 30), Run(Via29(Pop(29), s, 31), k)));
    SpFieldsEffect(s, n, b);
    assert k.r[29 := k.mem[sp]][29 := Hi(sp)] == k.r[29 := Hi(sp)];
  }

  /** What the first 18 instructions of the saving code leave behind. */
  ghost predicate PrologueSaved(s: Symbols, m: Machine, b: Word, n: Machine)
    requires s.Valid() && b + CONTEXT_SIZE <= 0x10000
  {
    && n.sp == m.sp && n.sreg == Flags(m.sreg) && Z(n) + s.offset == b
    && (forall i | 0 <= i < 29 :: n.r[i] == m.r[i])
    && n.mem[b + 29] == m.r[29] && n.mem[b + 30] == m.r[30] && n.mem[b + 31] == m.r[31]
    && n.mem[b + SP_FIELD] == Lo(m.sp) && n.mem[b + SP_FIELD + 1] == Hi(m.sp)
    && n.mem[b + SREG_FIELD] == Flags(m.sreg)
    && OnlyTouches(m.mem, n.mem, b, CONTEXT_SIZE, m.sp - 2, 3)
  }

  /** The first 18 instructions save SREG (with I clear), r29..r31 and SP, and balance the stack. */
  lemma SavePrologueEffect(s: Symbols, m: Machine)
    requires CanSave(s, m)
    ensures PrologueSaved(s, m, CurrentBlock(s, m.mem), Run(SavePrologue(s), m))
  {
    var b := CurrentBlock(s, m.mem);
    var k := Run(Via29(InSreg(29), s, SREG_FIELD), Run(PointZ(s), Run(FREE_R29_TO_R31, m)));
    SaveFirstHalf(s, m, b);
    SaveSecondHalf(s, k, b, m.sp);
    SaveParts(s, m);
    HalvesTogether(s, m, b, k, Run(SavePrologue(s), m));
  }

  lemma HalvesTogether(s: Symbols, m: Machine, b: Word, k: Machine, n: Machine)
    requires s.Valid() && b + CONTEXT_SIZE <= 0x10000 && m.sp >= 3 && Apart(m.sp - 2, 3, b, CONTEXT_SIZE)
    requires k.sreg == Flags(m.sreg) && Z(k) + s.offset == b
    requires k.r == m.r[30 := k.r[30]][31 := k.r[31]][29 := Flags(m.sreg)]
    requires k.mem == m.mem[m.sp := m.r[29]][m.sp - 1 := m.r[30]][m.sp - 2 := m.r[31]][b + SREG_FIELD := Flags(m.sreg)]
    requires n == k.(r := k.r[29 := Hi(m.sp)], sp := m.sp,
                     mem := k.mem[b + 31 := k.mem[m.sp - 2]][b + 30 := k.mem[m.sp - 1]][b + 29 := k.mem[m.sp]]
                                 [b + SP_FIELD := Lo(m.sp)][b + SP_FIELD + 1 := Hi(m.sp)])
    ensures PrologueSaved(s, m, b, n)
  {
  }

  /** n consecutive std instructions copy r0 .. r(n-1) into the block and change nothing else. */
  lemma {:induction false} StoreRegistersEffect(s: Symbols, m: Machine, n: nat)
    requires s.Valid() && n <= 29 && Z(m) + s.offset + CONTEXT_SIZE <= 0x10000
    ensures
      var b := Z(m) + s.offset;
      var k := After(StoreRegisters(s, 29), m, n);
      && k == m.(mem := k.mem)
      && (forall i | 0 <= i < n :: k.mem[b + i] == m.r[i])
      && (forall x | 0 <= x < 0x10000 && !(b <= x < b + n) :: k.mem[x] == m.mem[x])
  {
    if n > 0 {
      StoreRegistersEffect(s, m, n - 1);
    }
  }

  /** The block at b holds exactly the registers, SP and arithmetic flags of m, with I clear; n has the
      same SP, interrupts off, and differs in memory only in the block and the scratch bytes. */
  ghost predicate Saved(m: Machine, b: Word, n: Machine)
    requires b + CONTEXT_SIZE <= 0x10000
  {
    && ContextAt(n.mem, b) == Context(m.r, m.sp, if m.sreg >= 0x80 then m.sreg - 0x80 else m.sreg)
    && n.sp == m.sp && !InterruptsOn(n)
    && OnlyTouches(m.mem, n.mem, b, CONTEXT_SIZE, m.sp - 2, 3)
  }

  /** Saving stores exactly the registers, SP and arithmetic flags the macro was entered with;
      the saved SREG has I clear because cli comes first. SP is unchanged. */
  lemma SaveCorrect(s: Symbols, m: Machine)
    requires CanSave(s, m)
    ensures Saved(m, CurrentBlock(s, m.mem), Run(SaveContext(s), m))
  {
    var b := CurrentBlock(s, m.mem);
    var k := Run(SavePrologue(s), m);
    SavePrologueEffect(s, m);
    StoreRegistersEffect(s, k, 29);
    RunConcat(SavePrologue(s), StoreRegisters(s, 29), m);
    SavedContextIs(m, k.mem, Run(SaveContext(s), m).mem, b);
  }

  /** The bytes written by the two parts of the saving code make up the context. */
  lemma SavedContextIs(m: Machine, k: Memory, n: Memory, b: Word)
    requires b + CONTEXT_SIZE <= 0x10000
    requires k[b + 29] == m.r[29] && k[b + 30] == m.r[30] && k[b + 31] == m.r[31]
    requires k[b + SP_FIELD] == Lo(m.sp) && k[b + SP_FIELD + 1] == Hi(m.sp) && k[b + SREG_FIELD] == Flags(m.sreg)
    requires forall i | 0 <= i < 29 :: n[b + i] == m.r[i]
    requires forall x | 0 <= x < 0x10000 && !(b <= x < b + 29) :: n[x] == k[x]
    ensures ContextAt(n, b) == Context(m.r, m.sp, if m.sreg >= 0x80 then m.sreg - 0x80 else m.sreg)
  {
    forall i | 0 <= i < 32 ensures n[b..b + 32][i] == m.r[i] {
      assert n[b..b + 32][i] == n[b + i];
    }
    assert n[b..b + 32] == m.r;
  }

  /** What restoring needs: a block in memory whose saved SP has two free bytes at SP-1 .. SP
      that overlap neither the block nor c_task. */
  ghost predicate CanRestore(s: Symbols, m: Machine) {
    && s.Valid()
    && var b := CurrentBlock(s, m.mem);
    && b + CONTEXT_SIZE <= 0x10000
    && var sp := ContextAt(m.mem, b).sp;
    && sp >= 2
    && Apart(sp - 1, 2, b, CONTEXT_SIZE)
  }

  lemma LoadSregEffect(s: Symbols, m: Machine, b: Word)
    requires s.Valid() && Z(m) + s.offset == b && b + CONTEXT_SIZE <= 0x10000
    ensures Run(LoadSreg(s), m) == m.(r := m.r[29 := m.mem[b + SREG_FIELD]], sreg := m.mem[b + SREG_FIELD])
  {
    RunTwo(Ldd(29, s.offset + SREG_FIELD), OutSreg(29), m);
  }

  lemma LoadPairEffect(s: Symbols, m: Machine, b: Word, field: nat)
    requires s.Valid() && Z(m) + s.offset == b && field + 1 < CONTEXT_SIZE && b + CONTEXT_SIZE <= 0x10000
    ensures Run(LoadPair(s, field), m) == m.(r := m.r[28 := m.mem[b + field]][29 := m.mem[b + field + 1]])
  {
    RunTwo(Ldd(28, s.offset + field), Ldd(29, s.offset + field + 1), m);
  }

  lemma SetSpEffect(m: Machine)
    ensures Run(SET_SP, m) == m.(sp := MakeWord(m.r[28], m.r[29]))
  {
    RunTwo(OutSpl(28), OutSph(29), m);
    WordParts(m.r[28], Hi(m.sp));
  }

  lemma PushPairEffect(m: Machine)
    requires m.sp >= 2
    ensures Run(PUSH_PAIR, m) == m.(sp := m.sp - 2, mem := m.mem[m.sp := m.r[28]][m.sp - 1 := m.r[29]])
  {
    RunTwo(Push(28), Push(29), m);
  }

  lemma RestoreParts(s: Symbols, m: Machine)
    requires s.Valid()
    ensures
      var k := Run(SET_SP, Run(LoadPair(s, SP_FIELD), Run(LoadSreg(s), Run(PointZ(s), m))));
      Run(RestorePrologue(s), m) == Run(PUSH_PAIR, Run(LoadPair(s, 30), k))
  {
    var p1 := PointZ(s);
    var p2 := p1 + LoadSreg(s);
    var p3 := p2 + LoadPair(s, SP_FIELD);
    var p4 := p3 + SET_SP;
    var p5 := p4 + LoadPair(s, 30);
    RunConcat(p1, LoadSreg(s), m);
    RunConcat(p2, LoadPair(s, SP_FIELD), m);
    RunConcat(p3, SET_SP, m);
    RunConcat(p4, LoadPair(s, 30), m);
    RunConcat(p5, PUSH_PAIR, m);
  }

  /** After the first 12 instructions SREG and SP are the saved ones and r30, r31 are on the stack. */
  lemma RestorePrologueEffect(s: Symbols, m: Machine)
    requires CanRestore(s, m)
    ensures
      var b := CurrentBlock(s, m.mem);
      var c := ContextAt(m.mem, b);
      var n := Run(RestorePrologue(s), m);
      && n.sp == c.sp - 2 && n.sreg == c.sreg && Z(n) + s.offset == b
      && n.mem == m.mem[c.sp := c.r[30]][c.sp - 1 := c.r[31]]
  {
    var b: Word := CurrentBlock(s, m.mem);
    PointZEffect(s, m);
    var m1 := Run(PointZ(s), m);
    LoadSregEffect(s, m1, b);
    var m2 := Run(LoadSreg(s), m1);
    LoadPairEffect(s, m2, b, SP_FIELD);
    var m3 := Run(LoadPair(s, SP_FIELD), m2);
    SetSpEffect(m3);
    var m4 := Run(SET_SP, m3);
    LoadPairEffect(s, m4, b, 30);
    var m5 := Run(LoadPair(s, 30), m4);
    PushPairEffect(m5);
    RestoreParts(s, m);
  }

  /** n consecutive ldd instructions fill r0 .. r(n-1) from the block and change nothing else. */
  lemma {:induction false} LoadRegistersEffect(s: Symbols, m: Machine, n: nat)
    requires s.Valid() && n <= 30 && Z(m) + s.offset + CONTEXT_SIZE <= 0x10000
    ensures
      var b := Z(m) + s.offset;
      var k := After(LoadRegisters(s, 30), m, n);
      && k == m.(r := k.r)
      && (forall i | 0 <= i < n :: k.r[i] == m.mem[b + i])
      && (forall i | n <= i < 32 :: k.r[i] == m.r[i])
  {
    if n > 0 {
      LoadRegistersEffect(s, m, n - 1);
    }
  }

  /** The last two pops complete the register file. */
  lemma RestoredRegisters(l: Machine, k: Machine, mem: Memory, b: Word, c: Context)
    requires b + CONTEXT_SIZE <= 0x10000 && c == ContextAt(mem, b)
    requires c.sp >= 2 && Apart(c.sp - 1, 2, b, CONTEXT_SIZE)
    requires k.mem == mem[c.sp := c.r[30]][c.sp - 1 := c.r[31]] && k.sp == c.sp - 2
    requires l == k.(r := l.r) && forall i | 0 <= i < 30 :: l.r[i] == k.mem[b + i]
    ensures Step(Pop(30), Step(Pop(31), l)) == l.(r := c.r, sp := c.sp)
  {
    var n := Step(Pop(30), Step(Pop(31), l));
    assert n.r == l.r[31 := c.r[31]][30 := c.r[30]];
    forall i | 0 <= i < 30 ensures l.r[i] == c.r[i] {
      assert c.r[i] == mem[b + i];
    }
    assert n.r == c.r;
  }

  /** Restoring brings back all 32 registers, SP and SREG, and writes only two dead stack bytes. */
  lemma RestoreCorrect(s: Symbols, m: Machine)
    requires CanRestore(s, m)
    ensures
      var b := CurrentBlock(s, m.mem);
      var c := ContextAt(m.mem, b);
      var n := Run(RestoreContext(s), m);
      && Context(n.r, n.sp, n.sreg) == c
      && OnlyTouches(m.mem, n.mem, c.sp - 1, 2, c.sp - 1, 2)
  {
    var b := CurrentBlock(s, m.mem);
    var c := ContextAt(m.mem, b);
    var k := Run(RestorePrologue(s), m);
    RestorePrologueEffect(s, m);
    var l := Run(LoadRegisters(s, 30), k);
    LoadRegistersEffect(s, k, 30);
    var n := Run(POP_Z, l);
    assert Run(RestoreContext(s), m) == n by {
      RunConcat(RestorePrologue(s), LoadRegisters(s, 30), m);
      RunConcat(RestorePrologue(s) + LoadRegisters(s, 30), POP_Z, m);
    }
    RunTwo(Pop(31), Pop(30), l);
    RestoredRegisters(l, k, m.mem, b, c);
  }

  /** Instructions that can change SREG. */
  predicate WritesSreg(i: Instr) { i.Cli? || i.Sei? || i.OutSreg? || i.Reti? }

  lemma StepKeepsSreg(i: Instr, m: Machine)
    requires !WritesSreg(i)
    ensures Step(i, m).sreg == m.sreg
  {
  }

  lemma {:induction false} SregKept(p: seq<Instr>, m: Machine, a: nat, n: nat)
    requires a <= n <= |p| && forall i | a <= i < n :: !WritesSreg(p[i])
    ensures After(p, m, n).sreg == After(p, m, a).sreg
  {
    if a < n {
      SregKept(p, m, a, n - 1);
      StepKeepsSreg(p[n - 1], After(p, m, n - 1));
    }
  }

  /** From its first instruction on, the saving code cannot be interrupted, whatever the state. */
  lemma SaveIsUninterrupted(s: Symbols, m: Machine, n: nat)
    requires s.Valid() && 1 <= n <= |SaveContext(s)|
    ensures !InterruptsOn(After(SaveContext(s), m, n))
  {
    var p := SaveContext(s);
    assert p[0] == Cli;
    assert forall i | 1 <= i < n :: !WritesSreg(p[i]);
    assert After(p, m, 1) == Step(Cli, m);
    SregKept(p, m, 1, n);
  }

  /** The restoring code, entered with interrupts off, stays uninterrupted exactly when the saved
      SREG has I clear: every context written by SaveContext does, a freshly created task does not. */
  lemma RestoreIsUninterrupted(s: Symbols, m: Machine)
    requires CanRestore(s, m) && !InterruptsOn(m)
    ensures (forall n | 0 <= n <= |RestoreContext(s)| :: !InterruptsOn(After(RestoreContext(s), m, n)))
       <==> ContextAt(m.mem, CurrentBlock(s, m.mem)).sreg < 0x80
  {
    var p := RestoreContext(s);
    var b: Word := CurrentBlock(s, m.mem);
    SregSetByRestore(s, m, b);
    RestoreInstructions(s);
    forall n | 0 <= n <= |p|
      ensures After(p, m, n).sreg == if n < 4 then m.sreg else m.mem[b + SREG_FIELD]
    {
      SregKept(p, m, if n < 4 then 0 else 4, n);
    }
    assert !InterruptsOn(After(p, m, 4)) <==> m.mem[b + SREG_FIELD] < 0x80;
  }

  lemma RestoreInstructions(s: Symbols)
    requires s.Valid()
    ensures |RestoreContext(s)| == 44
    ensures forall i | 0 <= i < 44 && i != 3 :: !WritesSreg(RestoreContext(s)[i])
  {
    var p := RestorePrologue(s);
    assert forall i | 0 <= i < 12 && i != 3 :: !WritesSreg(p[i]);
    assert forall i | 0 <= i < 30 :: LoadRegisters(s, 30)[i].Ldd?;
  }

  /** The fourth instruction loads the saved SREG, while SP is still the outgoing one. */
  lemma SregSetByRestore(s: Symbols, m: Machine, b: Word)
    requires s.Valid() && b == CurrentBlock(s, m.mem) && b + CONTEXT_SIZE <= 0x10000
    ensures |RestoreContext(s)| >= 4
    ensures
      var k := After(RestoreContext(s), m, 4);
      && k == m.(r := k.r, sreg := m.mem[b + SREG_FIELD])
      && forall i | 0 <= i < 29 :: k.r[i] == m.r[i]
  {
    var q := PointZ(s) + LoadSreg(s);
    var rest := LoadPair(s, SP_FIELD) + SET_SP + LoadPair(s, 30) + PUSH_PAIR + LoadRegisters(s, 30) + POP_Z;
    assert RestoreContext(s) == q + rest;
    AfterPrefix(q, rest, m, 4);
    RunConcat(PointZ(s), LoadSreg(s), m);
    PointZEffect(s, m);
    LoadSregEffect(s, Run(PointZ(s), m), b);
  }
}
