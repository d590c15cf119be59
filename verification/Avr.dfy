/** The part of the ATmega328P that the context switch uses: the register file, the
    stack pointer, the status register, the program counter and the data memory,
    with the instructions that appear in the save and restore macros. */
module Avr {
  import opened Prelude

  type Register = x: int | 0 <= x < 32
  type RegisterFile = s: seq<Byte> | |s| == 32 witness seq(32, _ => 0)
  type Memory = s: seq<Byte> | |s| == 0x10000 witness seq(0x10000, _ => 0)

  datatype Machine = Machine(r: RegisterFile, sp: Word, sreg: Byte, pc: Word, mem: Memory)

  datatype Instr =
    | Cli
    | Sei
    | Push(r: Register)
    | Pop(r: Register)
    | Lds(r: Register, addr: Word)
    | InSreg(r: Register)
    | InSpl(r: Register)
    | InSph(r: Register)
    | OutSreg(r: Register)
    | OutSpl(r: Register)
    | OutSph(r: Register)
    | Std(q: Byte, r: Register)
    | Ldd(r: Register, q: Byte)
    | Ret
    | Reti

  function Lo(w: Word): Byte { w % 0x100 }

  function Hi(w: Word): Byte { w / 0x100 }

  function MakeWord(lo: Byte, hi: Byte): Word { lo + 0x100 * hi }

  lemma WordParts(lo: Byte, hi: Byte)
    ensures Lo(MakeWord(lo, hi)) == lo && Hi(MakeWord(lo, hi)) == hi
  {
  }

  /** A word is its low byte plus 256 times its high byte, and nothing else has these bytes. */
  lemma WordIsItsBytes(w: Word)
    ensures Lo(w) + 0x100 * Hi(w) == w && MakeWord(Lo(w), Hi(w)) == w
  {
  }

  /** 16-bit wrap-around of an address computation. */
  function Wrap(a: int): Word { if 0 <= a < 0x10000 then a else a % 0x10000 }

  /** The arithmetic flags: SREG without the global interrupt enable bit I (bit 7). */
  function Flags(sreg: Byte): Byte { sreg % 0x80 }

  /** Two status registers have the same arithmetic flags exactly when they differ in I at most. */
  lemma SameFlagsExactlyWhen(a: Byte, b: Byte)
    ensures Flags(a) == Flags(b) <==> a == b || a == b + 0x80 || b == a + 0x80
  {
  }

  /** cli, sei and reti write the I bit and no other: seven bits of SREG stay as they are. */
  lemma OnlyTheInterruptBit(m: Machine)
    ensures
      var off := if m.sreg >= 0x80 then m.sreg - 0x80 else m.sreg;
      && Step(Cli, m) == m.(sreg := off)
      && Step(Sei, m) == m.(sreg := off + 0x80)
      && Step(Reti, m) == Step(Ret, m).(sreg := off + 0x80)
  {
  }

  predicate InterruptsOn(m: Machine) { m.sreg >= 0x80 }

  function Z(m: Machine): Word { MakeWord(m.r[30], m.r[31]) }

  /** The stack grows downwards and SP points at the next free byte. */
  function PushByte(m: Machine, b: Byte): Machine {
    m.(mem := m.mem[m.sp := b], sp := Wrap(m.sp - 1))
  }

  /** A call or an interrupt pushes the low byte of the return address first. */
  function PushPc(m: Machine): Machine {
    PushByte(PushByte(m, Lo(m.pc)), Hi(m.pc))
  }

  function PopPc(m: Machine): Machine {
    m.(pc := MakeWord(m.mem[Wrap(m.sp + 2)], m.mem[Wrap(m.sp + 1)]), sp := Wrap(m.sp + 2))
  }

  function Step(i: Instr, m: Machine): Machine {
    match i
    case Cli => m.(sreg := Flags(m.sreg))
    case Sei => m.(sreg := Flags(m.sreg) + 0x80)
    case Push(r) => PushByte(m, m.r[r])
    case Pop(r) => m.(r := m.r[r := m.mem[Wrap(m.sp + 1)]], sp := Wrap(m.sp + 1))
    case Lds(r, addr) => m.(r := m.r[r := m.mem[addr]])
    case InSreg(r) => m.(r := m.r[r := m.sreg])
    case InSpl(r) => m.(r := m.r[r := Lo(m.sp)])
    case InSph(r) => m.(r := m.r[r := Hi(m.sp)])
    case OutSreg(r) => m.(sreg := m.r[r])
    case OutSpl(r) => m.(sp := MakeWord(m.r[r], Hi(m.sp)))
    case OutSph(r) => m.(sp := MakeWord(Lo(m.sp), m.r[r]))
    case Std(q, r) => m.(mem := m.mem[Wrap(Z(m) + q) := m.r[r]])
    case Ldd(r, q) => m.(r := m.r[r := m.mem[Wrap(Z(m) + q)]])
    case Ret => PopPc(m)
    case Reti => PopPc(m).(sreg := Flags(m.sreg) + 0x80)
  }

  /** The stack pointer is written half by half: each half leaves the other as it was. */
  lemma SpWrittenByHalves(m: Machine, r: Register)
    ensures
      var lo, hi := Step(OutSpl(r), m), Step(OutSph(r), m);
      && lo == m.(sp := m.sp - m.sp % 0x100 + m.r[r])
      && hi == m.(sp := m.sp % 0x100 + 0x100 * (m.r[r] as int))
  {
  }

  /** The machine after the first n instructions of a straight-line program. */
  function After(p: seq<Instr>, m: Machine, n: nat): Machine
    requires n <= |p|
  {
    if n == 0 then m else Step(p[n - 1], After(p, m, n - 1))
  }

  function Run(p: seq<Instr>, m: Machine): Machine { After(p, m, |p|) }

  lemma {:induction false} AfterPrefix(p: seq<Instr>, q: seq<Instr>, m: Machine, n: nat)
    requires n <= |p|
    ensures After(p + q, m, n) == After(p, m, n)
  {
    if n > 0 {
      AfterPrefix(p, q, m, n - 1);
    }
  }

  lemma {:induction false} AfterConcat(p: seq<Instr>, q: seq<Instr>, m: Machine, n: nat)
    requires n <= |q|
    ensures After(p + q, m, |p| + n) == After(q, Run(p, m), n)
  {
    if n == 0 {
      AfterPrefix(p, q, m, |p|);
    } else {
      AfterConcat(p, q, m, n - 1);
    }
  }

  /** Running one program after another is running their concatenation. */
  lemma RunConcat(p: seq<Instr>, q: seq<Instr>, m: Machine)
    ensures Run(p + q, m) == Run(q, Run(p, m))
  {
    AfterConcat(p, q, m, |q|);
  }

  lemma RunOne(i: Instr, m: Machine)
    ensures Run([i], m) == Step(i, m)
  {
    assert After([i], m, 0) == m;
  }

  lemma RunTwo(i: Instr, j: Instr, m: Machine)
    ensures Run([i, j], m) == Step(j, Step(i, m))
  {
    assert After([i, j], m, 1) == Step(i, m);
  }

  /** The processor as an object whose registers and memory the instructions update in place. */
  class Cpu {
    const regs: array<Byte>
    const sram: array<Byte>
    var sp: Word
    var sreg: Byte
    var pc: Word

    ghost predicate Valid() reads this {
      regs.Length == 32 && sram.Length == 0x10000 && regs != sram
    }

    ghost function State(): Machine
      requires Valid()
      reads this, regs, sram
    {
      Machine(regs[..], sp, sreg, pc, sram[..])
    }

    constructor ()
      ensures Valid() && fresh(regs) && fresh(sram)
      ensures State() == Machine(seq(32, _ => 0), 0, 0, 0, seq(0x10000, _ => 0))
    {
      regs := new Byte[32](_ => 0);
      sram := new Byte[0x10000](_ => 0);
      sp, sreg, pc := 0, 0, 0;
    }

    method StoreByte(a: Word, b: Byte)
      requires Valid()
      modifies sram
      ensures State() == old(State()).(mem := old(State()).mem[a := b])
    {
      sram[a] := b;
    }

    method LoadRegister(r: Register, b: Byte)
      requires Valid()
      modifies regs
      ensures State() == old(State()).(r := old(State()).r[r := b])
    {
      regs[r] := b;
    }

    method ReturnAddress()
      requires Valid()
      modifies this
      ensures State() == PopPc(old(State()))
    {
      pc := MakeWord(sram[Wrap(sp + 2)], sram[Wrap(sp + 1)]);
      sp := Wrap(sp + 2);
    }

    method Execute(i: Instr)
      requires Valid()
      modifies this, regs, sram
      ensures State() == Step(i, old(State()))
    {
      var z := MakeWord(regs[30], regs[31]);
      match i
      case Cli => sreg := Flags(sreg);
      case Sei => sreg := Flags(sreg) + 0x80;
      case Push(r) => StoreByte(sp, regs[r]); sp := Wrap(sp - 1);
      case Pop(r) => sp := Wrap(sp + 1); LoadRegister(r, sram[sp]);
      case Lds(r, addr) => LoadRegister(r, sram[addr]);
      case InSreg(r) => LoadRegister(r, sreg);
      case InSpl(r) => LoadRegister(r, Lo(sp));
      case InSph(r) => LoadRegister(r, Hi(sp));
      case OutSreg(r) => sreg := regs[r];
      case OutSpl(r) => sp := MakeWord(regs[r], Hi(sp));
      case OutSph(r) => sp := MakeWord(Lo(sp), regs[r]);
      case Std(q, r) => StoreByte(Wrap(z + q), regs[r]);
      case Ldd(r, q) => LoadRegister(r, sram[Wrap(z + q)]);
      case Ret => ReturnAddress();
      case Reti => ReturnAddress(); sreg := Flags(sreg) + 0x80;
    }

    /** Executes a straight-line program, such as an expanded context macro. */
    method ExecuteProgram(p: seq<Instr>)
      requires Valid()
      modifies this, regs, sram
      ensures State() == Run(p, old(State()))
    {
      for i := 0 to |p|
        invariant State() == After(p, old(State()), i)
      {
        Execute(p[i]);
      }
    }
  }
}
