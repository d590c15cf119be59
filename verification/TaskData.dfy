/** The task control block. */
module TaskData {
  import opened Prelude

  datatype TaskState = READY | RUNNING | BLOCKED | SLEEP | UNDEFINED

  /** task_data_t with the stack array it owns; base is the address of that array. */
  class Task {
    const regs: array<Byte>
    const stack: array<Byte>
    const base: Word
    var sp: Word
    var sreg: Byte
    var nextNode: Task?
    var state: TaskState
    var execTimeUs: Uint32
    var execTimeOverflowCount: Byte
    var execStartTimeUs: Uint32

    ghost predicate Valid() reads this {
      regs.Length == 32 && regs != stack && base + stack.Length <= 0x10000
    }

    constructor (stackArray: array<Byte>, address: Word)
      requires address + stackArray.Length <= 0x10000
      ensures Valid() && stack == stackArray && base == address && fresh(regs)
    {
      regs := new Byte[32](_ => 0);
      stack, base := stackArray, address;
      sp, sreg, nextNode, state := 0, 0, null, UNDEFINED;
      execTimeUs, execTimeOverflowCount, execStartTimeUs := 0, 0, 0;
    }

    /** Unlinked, ready, with cleared CPU time and a status that enables interrupts. */
    ghost predicate IsReset()
      reads this
    {
      && nextNode == null && state == READY && sreg == 0x80
      && execTimeUs == 0 && execTimeOverflowCount == 0 && execStartTimeUs == 0
    }
  }
}
