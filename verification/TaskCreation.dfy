/** The whole of create_task: the control block, the ready list and the frame. */
module TaskCreation {
  import opened Prelude
  import opened TaskData
  import opened RoundRobin
  import opened ReadyList
  import opened InitialFrame

  /** The variadic create_task. A long name fails, but only after the control block has been reset;
      otherwise the task joins the end of the ready list with a complete frame for its arguments. */
  method CreateTask(k: Kernel, task: Task, nameLength: nat, entry: Word, args: seq<Argument>) returns (failed: bool)
    requires k.Valid() && task !in k.ready
    requires task.Valid() && StackSuffices(args, task.stack.Length) && ArgumentsOk(args)
    modifies k, k.tasks`nextNode, task, task.regs, task.stack
    ensures k.Valid() && task.IsReset()
    ensures failed <==> nameLength >= NAME_MAX
    ensures failed ==> k.ready == old(k.ready) && k.cTask == old(k.cTask)
    ensures failed ==> task.regs[..] == old(task.regs[..]) && task.stack[..] == old(task.stack[..])
    ensures failed ==> task.sp == old(task.sp)
    ensures !failed ==> k.ready == old(k.ready) + [task]
    ensures !failed ==> k.cTask == if old(k.cTask) == null then k.ready[0] else old(k.cTask)
    ensures !failed && old(k.cTask) != null ==> k.View() == Add(old(k.View()), task)
    ensures !failed ==> Complete(task.base, entry, args, SavedState(task), task.stack[..])
  {
    Reset(task);
    if nameLength >= NAME_MAX {
      return true;
    }
    BaseFrame(task, entry);
    k.Publish(task);
    FinishFrame(task, entry, args);
    return false;
  }
}
