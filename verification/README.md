# Verified model of the atmega328-scheduler kernel

This project models the preemptive kernel of an ATmega328P and the drivers that run on it, and
proves properties of the model. The source is C, C++ and AVR assembly; the model is Dafny.

| file | models |
|---|---|
| Avr.dfy | registers, SP, SREG, PC, data memory and the instructions the context macros use |
| ContextMacros.dfy | `_SAVE_CTX` and `_RESTORE_CTX` as programs; what they do to a control block |
| TaskSwitch.dfy, TaskRefinement.dfy | entering and leaving the kernel; N tasks on one processor |
| TaskData.dfy | the task control block |
| InitialFrame.dfy, Publication.dfy | variadic `create_task`: argument placement, first dispatch, publication |
| RoundRobin.dfy, ReadyList.dfy | scheduling over a list of values; the linked ready list that refines it |
| TaskCreation.dfy | the whole of `create_task`: control block, ready list and frame |
| Mutex.dfy, MutexClients.dfy | the mutex; any tasks that use it, under preemption |
| Fifo.dfy, IpcQueue.dfy | the ring buffer, and the mutex-guarded queue as one such client |
| Composition.dfy | the machine, the ready list and the mutex clients tied together |
| Clock.dfy, CpuTime.dfy | timer 0 clocks; CPU-time accounting |
| UartRing.dfy, UartTransmit.dfy, UartReceive.dfy | the UART rings against their interrupts |
| Xmodem.dfy | the XMODEM receiver example |
| Prelude.dfy, Modular.dfy | shared types; remainders by a divisor that is not a constant |

Code that changes things in place is modelled by classes whose methods are proved against functions
on values; the laws are then proved about those functions, over whole runs. Concurrency is modelled
as steps: a preemption, a yield, and one step per region with interrupts off.

## The main results

- **Transparent switching.** For any number of tasks with disjoint stacks and control blocks, any
  sequence of preemptions and yields, and any scheduling order, every task ends with exactly the
  registers, SP, PC, arithmetic flags and live stack bytes it would have on a processor of its own.
- **Uninterrupted switching.** The saving code is uninterrupted from its first instruction. The
  restoring code is uninterrupted exactly when the saved SREG has I clear, which every saved context
  has and a freshly created one has not: an interrupt in the first restore of a new task loses the
  frame of that task.
- **Argument delivery.** For every argument list the first dispatch enters the entry function with
  every argument where the calling convention looks for it, at the 16-byte register limit of the
  code. The avr-gcc convention has 18 bytes (r25 to r8, as the comment at src/scheduler.h:71 says):
  the code agrees with it exactly when no prefix of the argument list needs 18 register bytes.
- **Publication.** Whenever an interrupt can be taken, a listed task has a complete frame; `create_task`
  ends with the task listed, its frame complete and interrupts on.
- **Fairness and removal.** Every window of n switches serves each of n ready tasks exactly once. After
  any adds and removals a switch dispatches a task that is not listed exactly when the current task
  was removed while it was the head, was not added again, and the task then behind it is not listed
  at the switch; over the runs in which that never happens, and only over those, every dispatched
  task is listed.
- **Mutual exclusion, isolation, linearizability, hand-over.** For every interleaving of tasks that
  lock, lock again, try to lock and release as they like, exactly the owner is inside in every state
  if and only if no task that has been granted the lock more than once releases it; clients that do
  not nest never do. A critical section sees only its own changes; the queue's results are those of
  one sequential queue in lock-acquisition order; a free mutex with a waiter is taken within one
  round.
- **The layers together.** The processor executes the task round robin says and c_task points to, and
  through all switches the task inside the mutex is the one whose control block the owner field in
  memory points to.
- **Clocks.** For everything the hardware can do, `get_us` is exact modulo 2^32 exactly when the
  number of overflows that found the flag already up, plus one if the counter is read at 255 with
  the flag up, is a multiple of 2^22; so it is exact whenever interrupts are served in time. The
  millisecond clock never drifts; charged time plus kernel gaps equals elapsed time exactly when no
  accumulator overflows, with the readings taken from the timer model.
- **UART.** No byte is lost, duplicated or reordered in either direction, except received bytes that
  arrive while size-1 are held; the transmit interrupt is armed exactly when the ring is non-empty.
- **XMODEM.** What a sender sends arrives. Draining the ring byte by byte equals a block-by-block reading of the stream; the
  transfer ends as completed exactly when an end of transmission at a block boundary is the last
  byte drained.

## What the model takes from outside

- CONF_TASK_NAME_MAX_LENGTH is 15 and F_CPU is 16 MHz (CMakeLists.txt); `offsetof(task_data_t,
  cpu_state)` is any offset the 6-bit displacement of `std` and `ldd` can reach.
- Code generated by the compiler between the two macros may leave any register contents and write any
  memory except saved contexts, stacks not in use and the stack in use above the saved SP.
- A task may do anything to its own view and to shared memory; it leaves five free bytes below SP
  whenever it is switched away (return address and scratch of the saving code).
- `sei; ret` takes no interrupt in between, because `sei` takes effect after the next instruction.
- At the first dispatch of a new task no interrupt is taken inside the restore; at `kernel_start` no
  compare match is pending. `TIFR0 |=` in `yield` clears only OCF0B.
- `remove_task` is one step. The list is never empty at a switch, an added task is not yet listed, and
  a removed one is.
- The kernel code between the two macros does not write the owner field of a mutex.
- `_crc_xmodem_update` is an arbitrary function.
- Masking an index with size-1 is modelled as the remainder by a power of two.

## Model

| member | source | states |
|---|---|---|
| `Avr.Cpu.Execute` | src/kernel.cpp:73-133 | one instruction updates registers, SP, SREG and memory as its value semantics says; of these instructions only returns set the PC |
| `Avr.Cpu.ExecuteProgram` | src/kernel.cpp:138-193 | a straight-line program executed in place is the composition of its instructions |
| `Avr.OnlyTheInterruptBit` | src/kernel.cpp:74 | cli, sei and reti write the I bit of SREG and no other |
| `Avr.SameFlagsExactlyWhen` | src/kernel.cpp:80-81 | two status registers have the same arithmetic flags if and only if they differ in I at most |
| `Avr.SpWrittenByHalves` | src/kernel.cpp:146-147 | writing one half of SP leaves the other half |
| `ContextMacros.SavePrologueEffect` | src/kernel.cpp:74-91 | the first 18 instructions store SREG with I clear, r29 to r31 and SP in the current task's block, keep r0 to r28, and balance the stack |
| `ContextMacros.StoreRegistersEffect` | src/kernel.cpp:92-120 | the unrolled stores copy r0 to r28 into the block and change nothing else |
| `ContextMacros.SaveCorrect` | src/kernel.cpp:72-133 | the block holds exactly the registers and SP on entry and SREG with the I bit taken away; only the block and three scratch bytes change |
| `ContextMacros.RestorePrologueEffect` | src/kernel.cpp:140-151 | SREG and SP are the saved ones and r30, r31 lie on the incoming stack |
| `ContextMacros.LoadRegistersEffect` | src/kernel.cpp:152-181 | the unrolled loads fill r0 to r29 from the block and change nothing else |
| `ContextMacros.RestoreCorrect` | src/kernel.cpp:138-193 | all 32 registers, SP and SREG come back as saved; only two dead stack bytes change |
| `ContextMacros.SaveIsUninterrupted` | src/kernel.cpp:74-80 | interrupts are off after every non-empty prefix of the saving code, from any state |
| `ContextMacros.RestoreIsUninterrupted` | src/kernel.cpp:140-183 | interrupts stay off through every prefix of the restoring code if and only if the saved SREG has I clear |
| `TaskSwitch.SuspendKeepsView` | src/kernel.cpp:200-203 | interrupt or yield entry plus saving leaves a frame whose view is the interrupted task's view, with I clear |
| `TaskSwitch.EnterEffect` | src/kernel.cpp:200-203 | an interrupt clears I before the first instruction of its handler, a call does not; both push the PC |
| `TaskSwitch.ExitEffect` | src/kernel.cpp:216-269 | reti and sei;ret both pop the PC and set I; plain ret keeps SREG; the flags survive all three |
| `TaskSwitch.ResumeKeepsView` | src/kernel.cpp:215-269 | restoring and returning turns the saved view into the running view, with interrupts enabled |
| `TaskSwitch.ViewsAgreeExactlyWhen` | src/kernel.cpp:57-71 | two states show the same view if and only if registers, SP, PC, SREG up to I and all live stack bytes agree |
| `TaskSwitch.SuspendThenResume` | src/kernel.cpp:72-271 | a suspended task whose block and stack are left alone resumes with its registers, SP, PC, seven flags and stack bytes, and I set |
| `TaskSwitch.UnmaskedRestoreLosesFrame` | src/kernel.cpp:140-151 | when the saved SREG has I set, a timer interrupt after the fourth instruction saves the outgoing SP into the incoming block, whose frame is then gone |
| `TaskRefinement.SwitchIsTransparent` | src/kernel.cpp:200-271 | one switch changes no task's view, and the chosen task runs with interrupts enabled |
| `TaskRefinement.LocalIsPrivate` | src/kernel.cpp:57-71 | what the running task does changes only its own view |
| `TaskRefinement.InterleavingRefinesIndependentTasks` | src/kernel.cpp:72-271 | in every run every task ends with the view it would have alone |
| `TaskRefinement.KernelStart` | src/kernel.cpp:233-239 | the first dispatch starts the task c_task points to with its view; interrupts follow its saved SREG |
| `TaskRefinement.MaskedRestore` | src/kernel.cpp:138-193 | when all suspended contexts have I clear, no restore of a switch can be interrupted before its return |
| `TaskRefinement.RestoresStayUninterrupted` | src/kernel.cpp:72-271 | over every run all suspended contexts keep I clear |
| `InitialFrame.StackSizeNeeded` | src/scheduler.h:44-66 | the first pass computes the stack bytes the calling convention assigns |
| `InitialFrame.FitsIsTheTest` | src/scheduler.h:56-92 | the running flag and counter decide as the prefix sums of rounded sizes do |
| `InitialFrame.CopyBytes` | src/scheduler.h:94-118 | the bytes are in place and no other element changes |
| `InitialFrame.Reset` | src/scheduler.cpp:36-47 | CPU time cleared, unlinked, READY, status with I set, before the name is looked at |
| `InitialFrame.BaseFrame` | src/scheduler.cpp:56-61 | SP three below the end, entry address in the top two bytes, low byte highest |
| `InitialFrame.ProcessArgument` | src/scheduler.h:80-122 | argument n is put in its place and the earlier ones stay in theirs |
| `InitialFrame.PlaceArguments` | src/scheduler.h:150-168 | all arguments are in place; bytes outside the argument area are untouched |
| `InitialFrame.FinishFrame` | src/scheduler.h:154-191 | on a base frame the two passes and the final SP leave a complete frame |
| `TaskCreation.CreateTask` | src/scheduler.h:124-196 | fails exactly on a long name; the control block is reset even then, while list, registers, stack and SP stay; otherwise the task is appended as in the value model with a complete frame |
| `InitialFrame.CompleteFrameIsResumable` | src/scheduler.h:170-191 | a complete frame is resumable, starts at entry, and shows the stack bytes above the return slot |
| `InitialFrame.ReadsBack` | src/scheduler.h:68-122 | the callee reads every argument back from registers or from SP+3 upward |
| `InitialFrame.FirstDispatchDeliversArguments` | src/scheduler.h:81-191 | create, restore and return enter entry with every argument readable, at the code's limit and, where they agree, at the convention's |
| `InitialFrame.FirstDispatchCanLoseFrame` | src/scheduler.cpp:45 | a complete new frame has I set, so a timer interrupt inside its first restore puts its saved SP on the outgoing stack |
| `InitialFrame.NewTaskStartsWithItsArguments` | src/kernel.cpp:138-271 | the same after any run of other tasks before the first dispatch |
| `InitialFrame.CodeMatchesAbiExactlyWhen` | src/scheduler.h:56-79 | placement agrees with the r25 to r8 rule if and only if no prefix needs 18 register bytes |
| `InitialFrame.CodeAndAbiDisagree` | src/scheduler.h:92-107 | sizes 8, 8, 2: the rule expects r8 and r9, the code uses the stack |
| `Publication.PublicationIsSafe` | src/scheduler.h:135-195 | in every intermediate state with interrupts on, a listed task has a complete frame |
| `Publication.EndsListedAndEnabled` | src/scheduler.h:193-195 | the last but one step gives back the interrupt flag on entry; at the end interrupts are on, the task is listed and its frame complete |
| `Publication.NestedCallIsMasked` | src/scheduler.cpp:29-70 | the nested call has interrupts off until the task is listed and then gives its caller's flag back; without arguments its frame is complete |
| `Publication.OuterCliIsNeeded` | src/scheduler.cpp:29-70 | the nested call alone would expose a task whose argument is missing |
| `RoundRobin.SwitchFromIndex` | src/drivers/scheduling/sched.cpp:3-12 | a switch moves to the next index, and from the last to the first |
| `RoundRobin.SwitchesAdvanceTheIndex` | src/drivers/scheduling/sched.cpp:3-12 | k switches move from index i to (i + k) mod n |
| `RoundRobin.DispatchedIsRotation` | src/drivers/scheduling/sched.cpp:3-12 | up to n switches walk along the rotation after the current task |
| `RoundRobin.EveryWindowServesEveryTask` | src/drivers/scheduling/sched.cpp:3-12 | any n consecutive switches dispatch each of n ready tasks exactly once |
| `RoundRobin.WithoutKeepsOthers` | src/task.cpp:101-112 | removal deletes exactly one task and keeps the list duplicate-free |
| `RoundRobin.RemovalKeepsLinkExactlyWhen` | src/task.cpp:93-113 | a removal keeps c_task's link null or listed if and only if c_task is listed or its link is another task |
| `RoundRobin.SwitchPicksListedExactlyWhen` | src/drivers/scheduling/sched.cpp:3-12 | a switch picks a listed task if and only if c_task's link is null or listed |
| `RoundRobin.EventKeepsLink` | src/task.cpp:79-113 | switch, add and any removal but that of the stale link's target keep the link, and a switch picks a listed task |
| `RoundRobin.RunKeepsLinkExactlyWhen` | src/task.cpp:79-113 | the link is sound in every state of a run if and only if no removal takes the stale link's target |
| `RoundRobin.SwitchIsSafeExactlyWhen` | src/task.cpp:79-113 | after any adds and removals a switch dispatches an unlisted task if and only if the current task was removed as head, not added again, and the task then behind it is not listed |
| `RoundRobin.RunIsSafeExactlyWhen` | src/drivers/scheduling/sched.cpp:3-12 | a run dispatches listed tasks only, if and only if none of its switches is of that kind |
| `RoundRobin.RemovedTaskStaysOut` | src/scheduler.cpp:73-80 | over every such run an unlisted task is never dispatched until it is added |
| `RoundRobin.RemoveCurrentThenSwitch` | src/scheduler.cpp:73-80 | after removing the running task the next switch picks another, listed task |
| `RoundRobin.DanglingLink` | src/task.cpp:101-104 | for every list whose head runs: removing it and the task behind it makes the next switch dispatch the latter |
| `ReadyList.Kernel.FindPreceding` | src/task.cpp:34-59 | the node before the target, or the last node for null; the walk terminates |
| `ReadyList.Kernel.FindTask` | src/task.cpp:61-77 | the task when listed, null otherwise and for null |
| `ReadyList.Kernel.AddTask` | src/task.cpp:79-91 | append; the chain stays acyclic and duplicate-free |
| `ReadyList.Kernel.Publish` | src/scheduler.cpp:41-67 | clears the link, appends, sets c_task only when there was none; otherwise the schedule changes as adding does in the value model |
| `ReadyList.Kernel.UnlinkHead` | src/task.cpp:101-104 | the head moves on; the removed task keeps its link |
| `ReadyList.Kernel.UnlinkInner` | src/task.cpp:106-112 | the predecessor takes over the link and the removed task's own is cleared |
| `ReadyList.Kernel.RemoveFromReadyList` | src/task.cpp:93-113 | null fails; otherwise the list loses exactly that task and the schedule changes as in the value model |
| `ReadyList.Kernel.RemoveTask` | src/scheduler.cpp:73-80 | the same, and the task's state becomes UNDEFINED |
| `ReadyList.Kernel.ScheduleNext` | src/drivers/scheduling/sched.cpp:3-12 | c_task moves as in the value model, and is listed if and only if its link was null or listed |
| `Mutex.MutexObject.LockRegion` | src/drivers/synchronization/mutex.cpp:9-27 | one pass with interrupts off: already owner, must yield, or acquired |
| `Mutex.MutexObject.TryLock` | src/drivers/synchronization/mutex.cpp:29-42 | one region with interrupts off, as the client steps of MutexClients take it |
| `Mutex.MutexObject.Release` | src/drivers/synchronization/mutex.cpp:44-57 | only the owner frees it |
| `Mutex.NestedLockIsNotCounted` | src/drivers/synchronization/mutex.cpp:14-18 | lock, lock, release frees the mutex |
| `MutexClients.NextTaskIsRoundRobin` | src/drivers/scheduling/sched.cpp:3-12 | the switch of the step model is round robin on the task list |
| `MutexClients.StepKeepsExclusionExactlyWhen` | src/drivers/synchronization/mutex.cpp:9-57 | a step, nested locks and stray releases included, keeps exactly the owner inside if and only if it is not a release by a task granted the lock more than once |
| `MutexClients.ExclusionHoldsExactlyWhen` | src/drivers/synchronization/mutex.cpp:9-57 | over every run exactly the owner is inside in every state if and only if no such release occurs |
| `MutexClients.MutualExclusion` | src/drivers/synchronization/mutex.cpp:9-57 | over every such run at most one task is inside, and it is the owner |
| `MutexClients.NotNestingSuffices` | src/drivers/synchronization/mutex.cpp:9-57 | clients that do not call mtx_lock while they hold the mutex have exclusion throughout |
| `MutexClients.ReturnValuesAreTrue` | src/drivers/synchronization/mutex.cpp:29-57 | try-lock succeeds exactly when nobody is inside, release exactly for a holder; each failure has its own code and changes nothing |
| `MutexClients.EnabledExactlyWhen` | src/drivers/synchronization/mutex.cpp:9-57 | what a task can do next depends on its place in the code alone; a preemption is always possible |
| `MutexClients.EarlyReleaseLetsAnotherIn` | src/drivers/synchronization/mutex.cpp:44-57 | for any number of tasks in any state, after such a release the next task can enter while the first is inside |
| `MutexClients.NestingBreaksExclusion` | src/drivers/synchronization/mutex.cpp:14-18 | for any number of tasks in any state, a holder that locks again and releases once ends with two tasks inside |
| `MutexClients.SectionIsIsolated` | src/drivers/synchronization/mutex.cpp:9-57 | while a task holds the mutex the guarded data changes by that task's work alone |
| `MutexClients.FreeMutexIsTakenWithinOneRound` | src/drivers/synchronization/mutex.cpp:20-26 | with a waiter and a free mutex, n switches include an acquisition, by lock or try-lock, if waiters reach their re-check |
| `Fifo.QueueLaws` | src/drivers/data_types/fifo.h:78-99 | the sequential queue is first in, first out within its capacity; an empty one yields the item put one capacity ago |
| `Fifo.EnqueueRefines` | src/drivers/data_types/fifo.h:78-89 | enqueue on the ring is put on the bounded queue, refusal included |
| `Fifo.DequeueRefines` | src/drivers/data_types/fifo.h:91-99 | dequeue is take, and on an empty queue returns the item put one capacity earlier |
| `Fifo.InitialRefines` | src/drivers/data_types/fifo.h:38-45 | a fresh ring is the empty queue |
| `Fifo.FifoBuffer.IncrementHead` | src/drivers/data_types/fifo.h:15-24 | moves head and count unless full |
| `Fifo.FifoBuffer.IncrementTail` | src/drivers/data_types/fifo.h:26-35 | moves tail and count unless empty |
| `Fifo.FifoBuffer.Enqueue` | src/drivers/data_types/fifo.h:78-89 | refuses without a buffer or when full, otherwise acts as the ring value |
| `Fifo.FifoBuffer.Dequeue` | src/drivers/data_types/fifo.h:91-99 | acts as the ring value |
| `IpcQueue.StepIsClientStep` | src/drivers/ipc/ipc_fifo.h:22-65 | every step of a queue operation is a step of a non-nesting mutex client that touches the ring only inside |
| `IpcQueue.RunIsClientRun` | src/drivers/ipc/ipc_fifo.h:22-65 | every run of the queue is a run of mutex clients |
| `IpcQueue.StepKeepsExclusion` | src/drivers/ipc/ipc_fifo.h:22-65 | every step of a queue operation keeps: the running task is c_task, and inside means owner |
| `IpcQueue.MutualExclusion` | src/drivers/ipc/ipc_fifo.h:22-65 | over every run at most one operation is between lock and release, and its task is the owner |
| `IpcQueue.ProceedKeepsPartly` | src/drivers/data_types/fifo.h:15-99 | each preemptible step of an operation leaves the ring as that operation partly done |
| `IpcQueue.WholeRefines` | src/drivers/ipc/ipc_fifo.h:22-65 | an uninterrupted operation acts as the sequential queue |
| `IpcQueue.RunningTaskCanMove` | src/drivers/ipc/ipc_fifo.h:49-65 | in every linked state the running task's next step is enabled |
| `IpcQueue.OperationEnds` | src/drivers/data_types/fifo.h:15-99 | whoever runs in between, at most four steps of fifo code happen before a release, so the holder comes to its release |
| `IpcQueue.CalledIsAcquired` | src/drivers/ipc/ipc_fifo.h:22-65 | over every run the operations a task calls are, in order, those with which it acquires the lock, then the one it waits with |
| `IpcQueue.RunAgrees` | src/drivers/ipc/ipc_fifo.h:22-65 | from any linked state the returns are the sequential results in acquisition order |
| `IpcQueue.Linearizable` | src/drivers/ipc/ipc_fifo.h:15-65 | from the initial state, for every interleaving, the operations each task calls are those it acquires with, and the k-th return is the k-th acquisition with the sequential result |
| `IpcQueue.FreeMutexIsTakenWithinOneRound` | src/drivers/ipc/ipc_fifo.h:22-65 | with a waiting operation and a free mutex, n switches include an operation entering the queue |
| `Composition.SwitchIgnoresNames` | src/drivers/scheduling/sched.cpp:3-12 | the linked list of control blocks and a list of task numbers are scheduled alike |
| `Composition.MachineFollowsTheList` | src/kernel.cpp:200-271 | over every run the processor executes the task k places further in the ready list after k switches, and c_task points to it |
| `Composition.RunningTaskIsCTask` | src/kernel.cpp:57-71 | the task in the processor is the one c_task points to, because control blocks do not overlap |
| `Composition.PointerCodeIsOwnerCode` | src/drivers/synchronization/mutex.cpp:9-57 | the pointer comparisons and assignments of the mutex code do to the owner field what the model does to the owner |
| `Composition.MachineRealisesSteps` | src/kernel.cpp:200-271 | a switch of the machine along the list of tasks realises a preemption or a yielding lock pass and keeps the owner field; code of the running task that does to that field what the mutex code does realises every other step |
| `Composition.MutualExclusionInMemory` | src/kernel.cpp:200-271 | over every run of the machine the task inside is the one whose control block the owner field points to |
| `Clock.TickKeepsConsistent` | src/drivers/clock/clock.cpp:7-24 | a tick keeps: every overflow is serviced, pending or lost, lost exactly when the wrap finds the flag up |
| `Clock.ServiceKeepsConsistent` | src/drivers/clock/clock.cpp:7-24 | the interrupt counts the pending overflow in all three variables |
| `Clock.RunIsConsistent` | src/drivers/clock/clock.cpp:7-24 | over every hardware run, after n serviced overflows 125 ms + fract = 128 n with fract < 125, and every overflow is serviced, pending or lost |
| `Clock.NextMsIs` | src/drivers/timer/timer.h:9-20 | the fraction never overflows its byte; ms gains one or two, modulo 2^32 |
| `Clock.GetUsExactlyWhen` | src/drivers/clock/clock.cpp:37-64 | over every hardware run get_us is 4 times the true tick count modulo 2^32 if and only if the lost overflows, plus one for 255 read with the flag up, are a multiple of 2^22 |
| `Clock.GetUsIsExact` | src/drivers/clock/clock.cpp:37-64 | exact in every state of every run whose interrupts are served in time, with or without a tick between the reads |
| `Clock.GetUsIsMonotone` | src/drivers/clock/clock.cpp:37-64 | of two readings in one admitted run the later is not smaller, before the 32-bit wrap |
| `Clock.ClocksAgree` | src/drivers/clock/clock.cpp:26-64 | over every hardware run, lost overflows or not, microseconds minus 1000 ms stays within 0 to 2012 when no overflow is pending |
| `Clock.StaleFlagIsMisread` | src/drivers/clock/clock.cpp:54-55 | interrupts off for 511 ticks: 255 is read with the flag up and one overflow is missing |
| `Clock.LostOverflowIsMisread` | src/drivers/clock/clock.cpp:54-64 | interrupts off for 517 ticks: get_us reads 1044 instead of 2068 at counter 5 |
| `Clock.Driver.OverflowInterrupt` | src/drivers/clock/clock.cpp:7-24 | the interrupt's in-place updates |
| `Clock.Driver.ReadUs` | src/drivers/clock/clock.cpp:37-64 | the shift, addition and multiplication in 32 bits give the reading |
| `Clock.Driver.GetMs` | src/drivers/clock/clock.cpp:26-35 | floor(128 n / 125) modulo 2^32 for the n overflows serviced so far |
| `CpuTime.CalculateExecutionTime` | src/kernel.cpp:28-54 | null is ignored; otherwise the slice is charged or the accumulator restarts |
| `CpuTime.SliceIsExact` | src/kernel.cpp:37-43 | the wrapped difference is the true length of a slice below 2^32 microseconds |
| `CpuTime.OneSwitch` | src/kernel.cpp:205-213 | one switch adds the slice to the total, less what an overflow drops; other tasks are untouched |
| `CpuTime.TimeIsConserved` | src/kernel.cpp:28-54 | charged, kernel and dropped time add up to elapsed time over every run of switches |
| `CpuTime.CpuTimeAddsUpExactlyWhen` | src/scheduler.cpp:36-40 | from start-up, charged time plus kernel gaps is the time of the last switch if and only if no accumulator overflowed |
| `CpuTime.MeasuredIsTrue` | src/kernel.cpp:205-213 | charging and stamping with get_us is accounting with the true time while overflow interrupts are served in time |
| `CpuTime.MeasuredTimeAddsUpExactlyWhen` | src/kernel.cpp:28-54 | from timer ticks to exec_time_us, the times and gaps add up to the true time if and only if no accumulator overflowed |
| `CpuTime.OverflowDropsTime` | src/kernel.cpp:46-49 | one task charged twice for 3000 seconds keeps half of it |
| `UartRing.AvailableBytesIsLength` | lib/AVR-UART-LIB/usart.h:1858 | the byte arithmetic gives the number of bytes held |
| `UartRing.FullMeansSizeMinusOne` | lib/AVR-UART-LIB/usart.c:289-291 | the full test holds exactly at size-1 bytes, the empty test exactly at none |
| `UartRing.WriteAheadKeepsContent` | lib/AVR-UART-LIB/usart.c:294 | the slot after head is invisible until head moves |
| `UartRing.MoveHeadAppends` | lib/AVR-UART-LIB/usart.c:298 | moving head appends the byte written ahead |
| `UartRing.MoveTailRemovesOldest` | lib/AVR-UART-LIB/usart.c:4651-4657 | moving tail removes the oldest byte |
| `UartTransmit.HandedIsPublished` | lib/AVR-UART-LIB/usart.c:262-311 | over every interleaving the bytes handed to putc, and to putc_noblock when there was room, are the published ones, then the one in hand |
| `UartTransmit.PublishedIsSent` | lib/AVR-UART-LIB/usart.c:4649-4658 | over every interleaving what was held and published is what is sent, then what is held |
| `UartTransmit.NothingLostOrReordered` | lib/AVR-UART-LIB/usart.c:262-311 | from callers to UDR: bytes held, in hand and handed over are, in order, those sent, held and in hand; UDRIE set exactly when non-empty |
| `UartTransmit.EnabledExactlyWhen` | lib/AVR-UART-LIB/usart.c:262-311 | each step waits for the producer's place in the code, the interrupt for a byte in the ring |
| `UartTransmit.CallGoesThrough` | lib/AVR-UART-LIB/usart.c:289-310 | with room in the ring a call passes its wait and ends with its byte appended |
| `UartTransmit.InterruptKeepsInv` | lib/AVR-UART-LIB/usart.c:4649-4658 | the interrupt sends the oldest byte and disarms itself exactly at the last one |
| `UartTransmit.RunExtends` | lib/AVR-UART-LIB/usart.c:262-311 | no run is cut short by the ring |
| `UartTransmit.WaitEndsAfterOneInterrupt` | lib/AVR-UART-LIB/usart.c:291 | a waiting putc has the interrupt armed, and one firing frees a slot |
| `UartTransmit.FlushEnds` | lib/AVR-UART-LIB/usart.c:905-912 | as many firings as bytes held send the content in order and empty the ring |
| `UartTransmit.Transmitter.UdreInterrupt` | lib/AVR-UART-LIB/usart.c:4700-4844 | sends the oldest byte without an emptiness test, relying on the armed invariant |
| `UartTransmit.Transmitter.Putc` | lib/AVR-UART-LIB/usart.c:262-311 | terminates and appends the byte to the stream |
| `UartTransmit.Transmitter.PutcNoblock` | lib/AVR-UART-LIB/usart.c:487-531 | refuses exactly when size-1 bytes are held |
| `UartTransmit.Transmitter.Putchar` | lib/AVR-UART-LIB/usart.c:4607-4613 | a line feed is sent as carriage return and line feed |
| `UartTransmit.Transmitter.Flush` | lib/AVR-UART-LIB/usart.c:905-912 | terminates with everything held sent in order |
| `UartReceive.ReceiveAppendsOrDrops` | lib/AVR-UART-LIB/usart.c:4674-4695 | a received byte is appended unless size-1 are held; the byte being read is never overwritten |
| `UartReceive.EnabledExactlyWhen` | lib/AVR-UART-LIB/usart.c:4674-4695 | the interrupt is never held up; the consumer's steps wait for its place in the code |
| `UartReceive.ReadReturnsOldest` | lib/AVR-UART-LIB/usart.c:2583-2621 | a read of a non-empty ring gets past the test and returns and removes the oldest byte; of an empty one it changes nothing |
| `UartReceive.ReadsAreReceivedBytesInOrder` | lib/AVR-UART-LIB/usart.c:2583-2621 | over every interleaving, reads followed by held bytes are the received ones minus exactly those that found size-1 held; AvailableBytes is exact |
| `UartReceive.RunExtends` | lib/AVR-UART-LIB/usart.c:2583-2621 | no run is cut short by the ring |
| `UartReceive.Receiver.RxInterrupt` | lib/AVR-UART-LIB/usart.c:4871-5106 | the interrupt's in-place updates |
| `UartReceive.Receiver.GetData` | lib/AVR-UART-LIB/usart.c:3007-3030 | -1 exactly from an empty ring, otherwise the oldest byte |
| `UartReceive.Receiver.Getc` | lib/AVR-UART-LIB/usart.c:2583-2621 | zero from an empty ring, otherwise the oldest byte |
| `Xmodem.HandleKeepsValid` | lib/AVR-UART-LIB/example(xmodem).c:258-309 | buffer and file index stay in range for every byte |
| `Xmodem.VerdictExactlyWhen` | lib/AVR-UART-LIB/example(xmodem).c:311-342 | a packet is good or duplicate if and only if header, number and check value say so |
| `Xmodem.AcceptedAreConsecutive` | lib/AVR-UART-LIB/example(xmodem).c:311-342 | accepted packets are well-formed, consecutively numbered modulo 256, and carry a matching check value |
| `Xmodem.WholeBlock` | lib/AVR-UART-LIB/example(xmodem).c:272-306 | only a good packet moves the number on and adds its payload; duplicates are not stored |
| `Xmodem.StoredHolds` | lib/AVR-UART-LIB/example(xmodem).c:366-373 | the file ring holds the last 1024 bytes of everything stored, in order |
| `Xmodem.ReceiverRealisesBlocks` | lib/AVR-UART-LIB/example(xmodem).c:214-309 | for every drained stream the byte machine has the replies, last status, position, number and file of the block reading |
| `Xmodem.OneTransfer` | lib/AVR-UART-LIB/example(xmodem).c:258-373 | whatever is drained from position 0: packets 1, 2, 3, ... and exactly their payloads after the old file |
| `Xmodem.GoodExactlyForSenderBlocks` | lib/AVR-UART-LIB/example(xmodem).c:311-342 | a packet is good if and only if it is the block a sender builds for the next number and some 128 bytes, CRC high byte first or checksum |
| `Xmodem.TransferRoundTrip` | lib/AVR-UART-LIB/example(xmodem).c:258-373 | a sender's blocks of k payloads are answered with k acknowledgements and leave exactly those payloads; EOT behind them completes the transfer |
| `Xmodem.CompletesExactlyWhen` | lib/AVR-UART-LIB/example(xmodem).c:214-265 | a drained stream ends as completed if and only if its last byte is EOT at a block boundary |
| `Xmodem.QueuedByteHidesCompletion` | lib/AVR-UART-LIB/example(xmodem).c:214-215 | a byte queued behind EOT puts the transfer back in progress |
| `Xmodem.FeedConcat` | lib/AVR-UART-LIB/example(xmodem).c:214-215 | draining in two parts is draining the whole, with the status of the last byte |
| `Xmodem.SessionIsFeed` | lib/AVR-UART-LIB/example(xmodem).c:199-229 | the rounds of the main loop amount to one drained stream, up to where the transfer ends |
| `Xmodem.CalcChecksum` | lib/AVR-UART-LIB/example(xmodem).c:357-364 | the sum of the bytes modulo 256 |
| `Xmodem.CalcCrc` | lib/AVR-UART-LIB/example(xmodem).c:344-355 | the fold of the update function |
| `Xmodem.XmodemReceiver.MoveData` | lib/AVR-UART-LIB/example(xmodem).c:366-373 | the bytes go around the file ring |
| `Xmodem.XmodemReceiver.ValidatePacket` | lib/AVR-UART-LIB/example(xmodem).c:311-342 | the verdict, and the packet number moves only for a good packet |
| `Xmodem.XmodemReceiver.HandleIncomingData` | lib/AVR-UART-LIB/example(xmodem).c:258-309 | one byte's in-place updates, status and replies |
| `Xmodem.XmodemReceiver.Drain` | lib/AVR-UART-LIB/example(xmodem).c:214-215 | the loop over the bytes found in the ring leaves state, status and replies of the drained stream |

## Left out

- `soft_yield`, timer and UART register set-up: plain register writes.
- `get_current_task`, stack usage and state getters: one-line accessors.
- lib/singly_linked_list: not used by the kernel.
- `uart0_BytesToSend`: subtracts one more than the ring convention needs, so it has no count to prove.
- `exec_time_us` with its overflow counter as one wide counter: on overflow the accumulator restarts.
- UART variants 1 to 3, soft CTS/RTS, RS485, MPCM, fast insertions and the unsafe interrupt modes: copies of USART0 or off by default.
- More than one producer or consumer of a UART ring: the code has no protection against it.
- Number formatting, `uart0_LoadData`, `uart0_peek` and the string functions: easy consequences of the ring laws, or library code.
- XMODEM timeouts, retries, the command loop outside a transfer and restarting after an abort.
- Torn 16-bit accesses to fifo fields: only the lock owner touches them.
- `blocked_head` of the mutex: initialised and never used.
- ReadyList.Kernel.FindPreceding: a target that is neither null nor listed behind the head is outside the contract; the code would follow a null pointer there.
- RoundRobin.RunIsSafeExactlyWhen: what happens after a removed task has been dispatched is not followed further.
- Composition.MutualExclusionInMemory: the owner field is tied to memory; the guarded data and each task's place in its code are not.
- Avr.Cpu.Execute: the program counter inside kernel code is not tracked; only returns set it.
