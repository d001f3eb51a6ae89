/** Traps, returns, context switches and task creation as steps of one machine.

  The machine is one hart with its memory and the thread_structs; its steps read and write nothing else
  (Moves).  Beside it stands an account of the tasks: where their stacks are, and the addresses of the
  trap frames that are live on each, outermost first.  The account only serves to say what compiled
  kernel code keeps to (Disciplined) and to state the invariant.

  A trap is several steps, and so is a return: an interrupt may come between them whenever the machine
  allows it, that is in user mode or with the interrupt enable of sstatus set.
 */
module Traps {
  import opened TrapFrames

  const THREAD_INFO_SIZE: int := 32

  /** Where the hart is: in user code or compiled kernel code; between a trap and SAVE_ALL's end; before
    sscratch is cleared; before the cause is looked at; with sscratch loaded for the return; or with the
    CSRs restored. */
  datatype Phase = Running | Entering | Saved | Dispatching | Leaving | Restoring

  /** The addresses that the assembly loads. */
  datatype Symbols = Symbols(gp: nat, retFromException: nat, retFromFork: nat, retFromKernelThread: nat)

  datatype Machine = Machine(core: Core, phase: Phase, threads: Threads, symbols: Symbols)

  /** An Idle task is one that was not made by copy_thread: it has no frame at task_pt_regs. */
  datatype Kind = UserTask | KernelThread | Idle

  datatype Task = Task(stack: nat, kind: Kind, frames: seq<int>) {
    function Top(): nat { stack + THREAD_SIZE }

    /** task_pt_regs */
    function UserFrame(): int { Top() - PT_SIZE }

    /** Where frame k has to end: the next frame outwards, or the top of the stack. */
    function Above(k: nat): int
      requires k <= |frames|
    {
      if k == 0 then Top() else frames[k - 1]
    }

    /** Lowest live address. */
    function Floor(): int { Above(|frames|) }
  }

  datatype World = World(m: Machine, cur: nat, tasks: map<nat, Task>)

  datatype Event =
    | UserRun
    | KernelRun
    | Trap(interrupt: bool, cause: nat, badaddr: nat)
    | SaveAll
    | ClearScratch
    | Handle
    | SyscallEnter
    | SyscallExit
    | BeginReturn
    | RestoreCsrs
    | Sret
    | Switch
    | Fork(child: nat, stack: nat, parent: int, usp: nat, settls: bool)
    | ForkThread(child: nat, stack: nat, fn: nat, arg: nat)
    | Exec(regs: int, pc: nat, sp: nat)
    | EditUser(id: nat, i: nat, v: nat)
    | Reap(id: nat)

  // ----- the machine -----

  /** An interrupt is taken in user mode, or if it is enabled. */
  predicate MayInterrupt(c: Core) { c.user || Has(c.status, IE) }

  /** A stretch of user or compiled kernel code: registers, memory, and sstatus but for its mode. */
  predicate Executes(c: Core, d: Core) {
    |d.x| == 32 && d.x[0] == 0 && d == c.(x := d.x, pc := d.pc, status := d.status, mem := d.mem)
  }

  /** The stack page of a new task: thread_info at its bottom, and nothing outside it. */
  ghost predicate NewStack(mem: Memory, mem': Memory, id: nat, stack: nat) {
    OnlyWithin(mem, mem', stack, stack + THREAD_SIZE) && Load(mem', stack) == id
  }

  /** Event e takes machine m to n. */
  ghost predicate Moves(m: Machine, e: Event, n: Machine) {
    var c, d := m.core, n.core;
    var inKernel := m.phase.Running? && !c.user;
    && |c.x| == 32
    && match e
       case UserRun =>
         && m.phase.Running? && c.user && Executes(c, d) && n == m.(core := d)
         && Has(d.status, IE) == Has(c.status, IE)
       case KernelRun => inKernel && Executes(c, d) && n == m.(core := d)
       case Trap(interrupt, cause, badaddr) =>
         && (m.phase.Running? || interrupt) && (interrupt ==> MayInterrupt(c))
         && Trapped(c, d, cause, badaddr) && n == m.(core := d, phase := Entering)
       case SaveAll => m.phase.Entering? && SavedAll(c, d) && n == m.(core := d, phase := Saved)
       case ClearScratch =>
         && m.phase.Saved? && ScratchCleared(c, d, m.symbols.gp, m.symbols.retFromException)
         && n == m.(core := d, phase := Dispatching)
       case Handle =>
         && m.phase.Dispatching? && c.x[20] != EXC_SYSCALL && n == m.(core := d, phase := Running)
         && |d.x| == 32 && d == c.(x := d.x) && forall i | 0 <= i < 32 && i !in [5, 6, 7, 10, 11] :: d.x[i] == c.x[i]
       case SyscallEnter =>
         m.phase.Dispatching? && c.x[20] == EXC_SYSCALL && EcallEntered(c, d) && n == m.(core := d, phase := Running)
       case SyscallExit => inKernel && EcallLeft(c, d) && n == m.(core := d)
       case BeginReturn => inKernel && ReturnBegun(c, d) && n == m.(core := d, phase := Leaving)
       case RestoreCsrs => m.phase.Leaving? && CsrsRestored(c, d) && n == m.(core := d, phase := Restoring)
       case Sret => m.phase.Restoring? && Sreturned(c, d) && n == m.(core := d, phase := Running)
       case Switch => inKernel && Switched(c, m.threads, d, n.threads) && n == m.(core := d, threads := n.threads)
       case Fork(child, stack, parent, usp, settls) =>
         var childregs := stack + THREAD_SIZE - PT_SIZE;
         && inKernel && NewStack(c.mem, d.mem, child, stack) && ForkFrame(c.mem, d.mem, parent, childregs, usp, settls)
         && c.x[4] in m.threads && |m.threads[c.x[4]]| == 14
         && n == m.(core := c.(mem := d.mem),
                    threads := m.threads[child := ChildThread(m.threads[c.x[4]], false, childregs, usp, 0,
                                                                 m.symbols.retFromFork)])
       case ForkThread(child, stack, fn, arg) =>
         var childregs := stack + THREAD_SIZE - PT_SIZE;
         && inKernel && NewStack(c.mem, d.mem, child, stack) && ThreadFrame(d.mem, childregs, c.x[3])
         && c.x[4] in m.threads && |m.threads[c.x[4]]| == 14
         && n == m.(core := c.(mem := d.mem),
                    threads := m.threads[child := ChildThread(m.threads[c.x[4]], true, childregs, fn, arg,
                                                                 m.symbols.retFromKernelThread)])
       case Exec(regs, pc, sp) => inKernel && n == m.(core := c.(mem := StartThread(c.mem, regs, pc, sp)))
       case EditUser(_, _, _) => inKernel && n == m.(core := c.(mem := d.mem))
       case Reap(id) => inKernel && n == m.(threads := m.threads - {id})
  }

  // ----- what kernel code keeps to, and the account -----

  /** Neither user code nor compiled kernel code writes a live frame or thread_info.task. */
  ghost predicate KeepsStacks(tasks: map<nat, Task>, mem: Memory, mem': Memory) {
    && (forall id | id in tasks :: Load(mem', tasks[id].stack) == Load(mem, tasks[id].stack))
    && (forall id, k | id in tasks && 0 <= k < |tasks[id].frames| :: SameFrame(mem, mem', tasks[id].frames[k]))
  }

  /** sp of a task that is executing in the kernel. */
  predicate SpOk(t: Task, sp: int) {
    t.stack + THREAD_INFO_SIZE <= sp <= t.Floor() && (t.kind.Idle? || t.frames != [])
  }

  ghost predicate Disciplined(w: World, e: Event, n: Machine)
    requires w.cur in w.tasks && |w.m.core.x| == 32 && Moves(w.m, e, n)
  {
    var t, c, d := w.tasks[w.cur], w.m.core, n.core;
    match e
    case UserRun => KeepsStacks(w.tasks, c.mem, d.mem)
    case KernelRun => KeepsStacks(w.tasks, c.mem, d.mem) && d.x[4] == c.x[4] && SpOk(t, d.x[2])
    case Trap(_, _, _) => c.user || t.stack + THREAD_INFO_SIZE + PT_SIZE <= c.x[2]
    case SyscallExit => t.frames != [] && c.x[2] == t.Floor()
    case BeginReturn => t.frames != [] && c.x[2] == t.Floor() && (t.kind.KernelThread? ==> |t.frames| > 1)
    case Switch => c.x[10] == w.cur && c.x[11] in w.tasks
    case Fork(child, stack, parent, _, _) =>
      t.kind.UserTask? && t.frames != [] && parent == t.UserFrame() && Fresh(w.tasks, child, stack)
    case ForkThread(child, stack, _, _) => Fresh(w.tasks, child, stack)
    case Exec(regs, _, _) => !t.kind.Idle? && |t.frames| == 1 && regs == t.UserFrame()
    case EditUser(id, i, v) =>
      && id in w.tasks && w.tasks[id].kind.UserTask? && w.tasks[id].frames != [] && i < 32
      && d.mem == c.mem[w.tasks[id].UserFrame() + 8 * i := v]
    case Reap(id) => id != w.cur
    case _ => true
  }

  predicate Fresh(tasks: map<nat, Task>, id: nat, stack: nat) {
    id !in tasks && stack % THREAD_SIZE == 0 && forall i | i in tasks :: tasks[i].stack != stack
  }

  function NewTask(stack: nat, kind: Kind): Task { Task(stack, kind, [stack + THREAD_SIZE - PT_SIZE]) }

  function TasksAfter(w: World, e: Event): map<nat, Task>
    requires w.cur in w.tasks && |w.m.core.x| == 32
  {
    var t := w.tasks[w.cur];
    match e
    case SaveAll => w.tasks[w.cur := t.(frames := t.frames + [KernelSp(w.m.core) - PT_SIZE])]
    case Sret => if t.frames == [] then w.tasks else w.tasks[w.cur := t.(frames := t.frames[..|t.frames| - 1])]
    case Fork(child, stack, _, _, _) => w.tasks[child := NewTask(stack, UserTask)]
    case ForkThread(child, stack, _, _) => w.tasks[child := NewTask(stack, KernelThread)]
    case Exec(_, _, _) => w.tasks[w.cur := t.(kind := UserTask)]
    case Reap(id) => w.tasks - {id}
    case _ => w.tasks
  }

  ghost predicate Step(w: World, e: Event, v: World) {
    && w.cur in w.tasks && Moves(w.m, e, v.m) && Disciplined(w, e, v.m)
    && v.tasks == TasksAfter(w, e) && v.cur == if e.Switch? then w.m.core.x[11] else w.cur
  }

  // ----- the invariant -----

  /** A live frame has its place, returns to the right mode with interrupts off, and if it returns to the
    kernel, to the stack and the task it came from. */
  ghost predicate FrameOk(mem: Memory, id: nat, t: Task, k: nat)
    requires k < |t.frames|
  {
    var a := t.frames[k];
    var status := Load(mem, a + PT_SSTATUS);
    && t.stack + THREAD_INFO_SIZE <= a && a + PT_SIZE <= t.Above(k)
    && (k == 0 && !t.kind.Idle? ==> a == t.UserFrame())
    && Has(status, PS) == (k > 0 || !t.kind.UserTask?) && !Has(status, IE)
    && (k > 0 || t.kind.Idle? ==> Load(mem, a + PT_SP) == a + PT_SIZE && Load(mem, a + 32) == id)
  }

  ghost predicate StackOk(mem: Memory, id: nat, t: Task) {
    && t.stack % THREAD_SIZE == 0 && Load(mem, t.stack) == id
    && forall k | 0 <= k < |t.frames| :: FrameOk(mem, id, t, k)
  }

  ghost predicate TasksOk(mem: Memory, tasks: map<nat, Task>) {
    && (forall id | id in tasks :: StackOk(mem, id, tasks[id]))
    && (forall i, j | i in tasks && j in tasks && i != j :: tasks[i].stack != tasks[j].stack)
  }

  /** Every task has a saved context; that of a task that is not running is on its own stack. */
  ghost predicate ThreadsOk(ts: Threads, cur: nat, tasks: map<nat, Task>) {
    forall id | id in tasks :: id in ts && |ts[id]| == 14 && (id != cur ==> SpOk(tasks[id], ts[id][1]))
  }

  /** In the kernel, below the frame at sp. */
  predicate AtFrame(c: Core, t: Task) { |c.x| == 32 && t.frames != [] && c.x[2] == t.Floor() }

  /** Returning through the frame at sp. */
  predicate ReturnOk(c: Core, id: nat, t: Task) {
    && AtFrame(c, t) && (t.kind.KernelThread? ==> |t.frames| > 1) && c.x[4] == id
    && c.sscratch == if Has(Load(c.mem, c.x[2] + PT_SSTATUS), PS) then 0 else t.Top()
  }

  predicate PhaseOk(m: Machine, id: nat, t: Task) {
    var c := m.core;
    && |c.x| == 32 && c.x[0] == 0
    && (!m.phase.Running? ==> !c.user && !Has(c.status, IE))
    && match m.phase
       case Running =>
         if c.user then t.kind.UserTask? && t.frames == [] && c.sscratch == t.Top() && !Has(c.status, IE)
         else c.sscratch == 0 && c.x[4] == id && SpOk(t, c.x[2])
       case Entering =>
         if !Has(c.status, PS) then t.kind.UserTask? && t.frames == [] && c.sscratch == t.Top()
         else c.sscratch == 0 && c.x[4] == id && SpOk(t, c.x[2]) && t.stack + THREAD_INFO_SIZE + PT_SIZE <= c.x[2]
       case Saved => AtFrame(c, t) && c.x[18] == Load(c.mem, c.x[2] + PT_SEPC)
       case Dispatching =>
         AtFrame(c, t) && c.x[18] == Load(c.mem, c.x[2] + PT_SEPC) && c.sscratch == 0 && c.x[4] == id
       case Leaving => ReturnOk(c, id, t)
       case Restoring =>
         ReturnOk(c, id, t) && c.status == Load(c.mem, c.x[2] + PT_SSTATUS) && c.sepc == Load(c.mem, c.x[2] + PT_SEPC)
  }

  ghost predicate Inv(w: World) {
    && w.cur in w.tasks && PhaseOk(w.m, w.cur, w.tasks[w.cur])
    && TasksOk(w.m.core.mem, w.tasks) && ThreadsOk(w.m.threads, w.cur, w.tasks)
  }

  // ----- frames do not collide -----

  /** Inner frames lie strictly below outer ones. */
  lemma {:induction false} Descending(mem: Memory, id: nat, t: Task, j: nat, k: nat)
    requires j < k < |t.frames| && StackOk(mem, id, t)
    ensures t.frames[k] + PT_SIZE <= t.frames[j]
  {
    assert FrameOk(mem, id, t, k);
    if j < k - 1 {
      Descending(mem, id, t, j, k - 1);
      assert FrameOk(mem, id, t, k - 1);
    }
  }

  lemma {:induction false} BelowTop(mem: Memory, id: nat, t: Task, k: nat)
    requires k <= |t.frames| && StackOk(mem, id, t)
    ensures t.Above(k) <= t.Top() - k * PT_SIZE
    ensures k < |t.frames| ==> t.Floor() <= t.frames[k] && t.stack + THREAD_INFO_SIZE <= t.frames[k]
  {
    if k > 0 {
      assert FrameOk(mem, id, t, k - 1);
      BelowTop(mem, id, t, k - 1);
    }
    if k < |t.frames| {
      assert FrameOk(mem, id, t, k);
    }
    if k < |t.frames| - 1 {
      Descending(mem, id, t, k, |t.frames| - 1);
    }
  }

  lemma WithinStack(mem: Memory, id: nat, t: Task, k: nat)
    requires StackOk(mem, id, t) && k < |t.frames|
    ensures t.stack + THREAD_INFO_SIZE <= t.frames[k] && t.frames[k] + PT_SIZE <= t.Top()
  {
    assert FrameOk(mem, id, t, k);
    BelowTop(mem, id, t, k);
  }

  lemma Apart(a: int, b: int)
    requires a % THREAD_SIZE == 0 && b % THREAD_SIZE == 0 && a != b
    ensures a + THREAD_SIZE <= b || b + THREAD_SIZE <= a
  {}

  /** Two live frames, of one task or of two, do not overlap. */
  lemma FramesApart(mem: Memory, tasks: map<nat, Task>, id: nat, k: nat, id': nat, k': nat)
    requires TasksOk(mem, tasks) && id in tasks && id' in tasks && (id, k) != (id', k')
    requires k < |tasks[id].frames| && k' < |tasks[id'].frames|
    ensures var a, b := tasks[id].frames[k], tasks[id'].frames[k']; a + PT_SIZE <= b || b + PT_SIZE <= a
  {
    var t, t' := tasks[id], tasks[id'];
    assert StackOk(mem, id, t) && StackOk(mem, id', t');
    if id != id' {
      Apart(t.stack, t'.stack);
      WithinStack(mem, id, t, k);
      WithinStack(mem, id', t', k');
    } else if k < k' {
      Descending(mem, id, t, k, k');
    } else {
      Descending(mem, id, t, k', k);
    }
  }

  /** The words from lo up to hi belong to no live frame and to no thread_info.task. */
  ghost predicate Unused(tasks: map<nat, Task>, lo: int, hi: int) {
    && (forall id | id in tasks :: tasks[id].stack < lo || hi <= tasks[id].stack)
    && (forall id, k | id in tasks && 0 <= k < |tasks[id].frames| ::
          tasks[id].frames[k] + PT_SIZE <= lo || hi <= tasks[id].frames[k])
  }

  lemma UnusedKeeps(tasks: map<nat, Task>, mem: Memory, mem': Memory, lo: int, hi: int)
    requires Unused(tasks, lo, hi) && OnlyWithin(mem, mem', lo, hi)
    ensures KeepsStacks(tasks, mem, mem')
  {
    forall id, k | id in tasks && 0 <= k < |tasks[id].frames|
      ensures SameFrame(mem, mem', tasks[id].frames[k])
    {
      var a := tasks[id].frames[k];
      assert a + PT_SIZE <= lo || hi <= a;
    }
  }

  /** A task's stack below its innermost live frame is unused. */
  lemma BelowFloorUnused(mem: Memory, tasks: map<nat, Task>, id: nat, lo: int, hi: int)
    requires TasksOk(mem, tasks) && id in tasks
    requires tasks[id].stack + THREAD_INFO_SIZE <= lo <= hi <= tasks[id].Floor()
    ensures Unused(tasks, lo, hi)
  {
    var t := tasks[id];
    assert StackOk(mem, id, t);
    BelowTop(mem, id, t, |t.frames|);
    forall id' | id' in tasks
      ensures tasks[id'].stack < lo || hi <= tasks[id'].stack
      ensures forall k | 0 <= k < |tasks[id'].frames| ::
                tasks[id'].frames[k] + PT_SIZE <= lo || hi <= tasks[id'].frames[k]
    {
      StackElsewhere(mem, tasks, id, lo, hi, id');
    }
  }

  lemma StackElsewhere(mem: Memory, tasks: map<nat, Task>, id: nat, lo: int, hi: int, id': nat)
    requires TasksOk(mem, tasks) && id in tasks && id' in tasks
    requires tasks[id].stack + THREAD_INFO_SIZE <= lo <= hi <= tasks[id].Floor() <= tasks[id].Top()
    ensures tasks[id'].stack < lo || hi <= tasks[id'].stack
    ensures forall k | 0 <= k < |tasks[id'].frames| ::
              tasks[id'].frames[k] + PT_SIZE <= lo || hi <= tasks[id'].frames[k]
  {
    var t, t' := tasks[id], tasks[id'];
    assert StackOk(mem, id, t) && StackOk(mem, id', t');
    if id != id' { Apart(t.stack, t'.stack); }
    forall k | 0 <= k < |t'.frames|
      ensures t'.frames[k] + PT_SIZE <= lo || hi <= t'.frames[k]
    {
      WithinStack(mem, id', t', k);
      if id == id' { BelowTop(mem, id, t, k); }
    }
  }

  /** So is a stack that no task has. */
  lemma FreshUnused(mem: Memory, tasks: map<nat, Task>, id: nat, stack: nat)
    requires TasksOk(mem, tasks) && Fresh(tasks, id, stack)
    ensures Unused(tasks, stack, stack + THREAD_SIZE)
  {
    forall id' | id' in tasks
      ensures tasks[id'].stack < stack || stack + THREAD_SIZE <= tasks[id'].stack
      ensures forall k | 0 <= k < |tasks[id'].frames| ::
                tasks[id'].frames[k] + PT_SIZE <= stack || stack + THREAD_SIZE <= tasks[id'].frames[k]
    {
      var t' := tasks[id'];
      assert StackOk(mem, id', t');
      Apart(stack, t'.stack);
      forall k | 0 <= k < |t'.frames|
        ensures t'.frames[k] + PT_SIZE <= stack || stack + THREAD_SIZE <= t'.frames[k]
      {
        WithinStack(mem, id', t', k);
      }
    }
  }

  /** Writing one live frame touches no other, and no thread_info.task. */
  lemma OtherFrames(mem: Memory, mem': Memory, tasks: map<nat, Task>, id: nat, k: nat, id': nat)
    requires TasksOk(mem, tasks) && id in tasks && k < |tasks[id].frames| && id' in tasks
    requires OnlyFrame(mem, mem', tasks[id].frames[k])
    ensures Load(mem', tasks[id'].stack) == Load(mem, tasks[id'].stack)
    ensures forall j | 0 <= j < |tasks[id'].frames| && (id', j) != (id, k) :: SameFrame(mem, mem', tasks[id'].frames[j])
  {
    assert StackOk(mem, id, tasks[id]) && StackOk(mem, id', tasks[id']);
    WithinStack(mem, id, tasks[id], k);
    if id != id' { Apart(tasks[id].stack, tasks[id'].stack); }
    forall j | 0 <= j < |tasks[id'].frames| && (id', j) != (id, k)
      ensures SameFrame(mem, mem', tasks[id'].frames[j])
    {
      FramesApart(mem, tasks, id, k, id', j);
    }
  }
}
