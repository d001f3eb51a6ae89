/** Every step of the trap machine keeps its invariant. */
module TrapSteps {
  import opened Bits
  import opened TrapFrames
  import opened Traps

  // ----- memory under the account -----

  lemma SameFrameOk(mem: Memory, mem': Memory, id: nat, t: Task, k: nat)
    requires k < |t.frames| && FrameOk(mem, id, t, k) && SameFrame(mem, mem', t.frames[k])
    ensures FrameOk(mem', id, t, k)
  {
    var a := t.frames[k];
    assert Load(mem', a + 8 * 32) == Load(mem, a + 8 * 32);
    assert Load(mem', a + 8 * 2) == Load(mem, a + 8 * 2);
    assert Load(mem', a + 8 * 4) == Load(mem, a + 8 * 4);
  }

  lemma KeepsTasksOk(tasks: map<nat, Task>, mem: Memory, mem': Memory)
    requires TasksOk(mem, tasks) && KeepsStacks(tasks, mem, mem')
    ensures TasksOk(mem', tasks)
  {
    forall id | id in tasks
      ensures StackOk(mem', id, tasks[id])
    {
      assert StackOk(mem, id, tasks[id]);
      forall k | 0 <= k < |tasks[id].frames|
        ensures FrameOk(mem', id, tasks[id], k)
      {
        SameFrameOk(mem, mem', id, tasks[id], k);
      }
    }
  }

  /** Changing one task whose stack stays where it is. */
  lemma OneTask(mem: Memory, tasks: map<nat, Task>, id: nat, u: Task)
    requires TasksOk(mem, tasks) && id in tasks && StackOk(mem, id, u) && u.stack == tasks[id].stack
    ensures TasksOk(mem, tasks[id := u])
  {}

  /** Writing frame k of a task, which may make it a user task if it is its only one. */
  lemma EditKeeps(mem: Memory, mem': Memory, tasks: map<nat, Task>, id: nat, k: nat, u: Task)
    requires TasksOk(mem, tasks) && id in tasks && k < |tasks[id].frames|
    requires OnlyFrame(mem, mem', tasks[id].frames[k])
    requires u == tasks[id].(kind := u.kind) && FrameOk(mem', id, u, k)
    requires u.kind != tasks[id].kind ==> |u.frames| == 1
    ensures TasksOk(mem', tasks[id := u])
  {
    forall id' | id' in tasks
      ensures StackOk(mem', id', tasks[id := u][id'])
    {
      EditKeepsStack(mem, mem', tasks, id, k, u, id');
    }
  }

  lemma EditKeepsStack(mem: Memory, mem': Memory, tasks: map<nat, Task>, id: nat, k: nat, u: Task, id': nat)
    requires TasksOk(mem, tasks) && id in tasks && k < |tasks[id].frames| && id' in tasks
    requires OnlyFrame(mem, mem', tasks[id].frames[k])
    requires u == tasks[id].(kind := u.kind) && FrameOk(mem', id, u, k)
    requires u.kind != tasks[id].kind ==> |u.frames| == 1
    ensures StackOk(mem', id', tasks[id := u][id'])
  {
    var t' := tasks[id := u][id'];
    assert StackOk(mem, id', tasks[id']);
    OtherFrames(mem, mem', tasks, id, k, id');
    forall j | 0 <= j < |t'.frames|
      ensures FrameOk(mem', id', t', j)
    {
      if (id', j) != (id, k) {
        SameFrameOk(mem, mem', id', tasks[id'], j);
      }
    }
  }

  // ----- entry -----

  /** An interrupt can only come while the machine runs: everywhere else it is off, in kernel mode. */
  lemma TrapsWhileRunning(w: World, e: Event, v: World)
    requires Inv(w) && Step(w, e, v) && e.Trap?
    ensures w.m.phase.Running?
  {}

  lemma TrapKeepsInv(w: World, e: Event, v: World)
    requires Inv(w) && Step(w, e, v) && e.Trap?
    ensures Inv(v)
  {
    TrapsWhileRunning(w, e, v);
    TrapStatusBits(w.m.core.status, w.m.core.user);
  }

  /** SAVE_ALL puts its frame on the current task's own stack: at task_pt_regs when the trap came from user
    mode, below every live frame otherwise. */
  lemma SavesOnOwnStack(w: World, v: World)
    requires Inv(w) && Step(w, SaveAll, v)
    ensures |w.m.core.x| == 32
    ensures var t, a := w.tasks[w.cur], KernelSp(w.m.core) - PT_SIZE;
            && t.stack + THREAD_INFO_SIZE <= a && a + PT_SIZE <= t.Floor()
            && (!Has(w.m.core.status, PS) ==> a == t.UserFrame())
  {}

  /** The state SAVE_ALL stores: interrupts off, and if it is the kernel's, its stack pointer and task. */
  lemma SavesKernelState(w: World, v: World)
    requires Inv(w) && Step(w, SaveAll, v)
    ensures var c, t := w.m.core, w.tasks[w.cur];
            && |c.x| == 32 && !Has(c.status, IE) && Has(c.status, PS) == (t.frames != [] || !t.kind.UserTask?)
            && (Has(c.status, PS) ==> KernelSp(c) == c.x[2] && c.x[4] == w.cur)
            && (t.frames == [] && !t.kind.Idle? ==> t.kind.UserTask?)
            && v.tasks == w.tasks[w.cur := t.(frames := t.frames + [KernelSp(c) - PT_SIZE])] && v.cur == w.cur
            && FrameAt(v.m.core.mem, KernelSp(c) - PT_SIZE, PtRegs(c.x, c.sepc, c.status, c.badaddr, c.cause))
  {
    hide TasksOk, ThreadsOk;
  }

  lemma StoredFrameOk(mem: Memory, id: nat, t: Task, k: nat, r: PtRegs)
    requires k < |t.frames| && FrameAt(mem, t.frames[k], r) && t.stack + THREAD_INFO_SIZE <= t.frames[k]
    requires t.frames[k] + PT_SIZE <= t.Above(k) && (k == 0 && !t.kind.Idle? ==> t.frames[k] == t.UserFrame())
    requires Has(r.status, PS) == (k > 0 || !t.kind.UserTask?) && !Has(r.status, IE)
    requires k > 0 || t.kind.Idle? ==> r.x[2] == t.frames[k] + PT_SIZE && r.x[4] == id
    ensures FrameOk(mem, id, t, k)
  {
    var a := t.frames[k];
    assert Load(mem, a + 8 * 32) == Field(r, 32);
    assert Load(mem, a + 8 * 2) == Field(r, 2) && Load(mem, a + 8 * 4) == Field(r, 4);
  }

  lemma NewFrameOk(w: World, v: World)
    requires Inv(w) && Step(w, SaveAll, v)
    ensures v.cur in v.tasks && v.tasks[v.cur].frames != []
    ensures FrameOk(v.m.core.mem, v.cur, v.tasks[v.cur], |v.tasks[v.cur].frames| - 1)
  {
    var c := w.m.core;
    SavesOnOwnStack(w, v);
    SavesKernelState(w, v);
    hide Inv, Step, FrameAt, FrameOk, Has;
    StoredFrameOk(v.m.core.mem, v.cur, v.tasks[v.cur], |v.tasks[v.cur].frames| - 1,
                  PtRegs(c.x, c.sepc, c.status, c.badaddr, c.cause));
  }

  lemma SaveAllKeepsInv(w: World, v: World)
    requires Inv(w) && Step(w, SaveAll, v)
    ensures Inv(v)
  {
    SaveAllPhaseOk(w, v);
    SaveAllTasksOk(w, v);
    hide PhaseOk, TasksOk, Step;
  }

  lemma SaveAllPhaseOk(w: World, v: World)
    requires Inv(w) && Step(w, SaveAll, v)
    ensures v.cur == w.cur && v.cur in v.tasks && PhaseOk(v.m, v.cur, v.tasks[v.cur])
    ensures ThreadsOk(v.m.threads, v.cur, v.tasks)
  {
    hide TasksOk, FrameStored;
    SavesOnOwnStack(w, v);
    ClearFsKeeps(w.m.core.status);
    SavedSepc(w.m.core, v.m.core);
  }

  lemma SaveAllTasksOk(w: World, v: World)
    requires Inv(w) && Step(w, SaveAll, v)
    ensures TasksOk(v.m.core.mem, v.tasks)
  {
    var t, a := w.tasks[w.cur], KernelSp(w.m.core) - PT_SIZE;
    var mem, mem' := w.m.core.mem, v.m.core.mem;
    SavesOnOwnStack(w, v);
    SavesKernelState(w, v);
    SavesBelow(w, v);
    NewFrameOk(w, v);
    StackOfTask(w);
    hide PhaseOk, Step, FrameAt, ThreadsOk, StackOk, FrameOk;
    BelowFloorUnused(mem, w.tasks, w.cur, a, a + PT_SIZE);
    UnusedKeeps(w.tasks, mem, mem', a, a + PT_SIZE);
    KeepsTasksOk(w.tasks, mem, mem');
    StackIn(mem', w.tasks, w.cur);
    PushOk(mem', w.cur, t, v.tasks[w.cur]);
    OneTask(mem', w.tasks, w.cur, v.tasks[w.cur]);
  }

  lemma StackIn(mem: Memory, tasks: map<nat, Task>, id: nat)
    requires TasksOk(mem, tasks) && id in tasks
    ensures StackOk(mem, id, tasks[id])
  {}

  lemma SavesBelow(w: World, v: World)
    requires Step(w, SaveAll, v)
    ensures |w.m.core.x| == 32
    ensures OnlyWithin(w.m.core.mem, v.m.core.mem, KernelSp(w.m.core) - PT_SIZE, KernelSp(w.m.core))
  {
    hide Disciplined, TasksAfter;
  }

  lemma SavedSepc(c: Core, d: Core)
    requires SavedAll(c, d)
    ensures |d.x| == 32 && d.x[0] == c.x[0] && d.x[2] == KernelSp(c) - PT_SIZE
    ensures d.x[18] == Load(d.mem, d.x[2] + PT_SEPC)
    ensures d.user == c.user && d.status == ClearFs(c.status)
  {
    assert Load(d.mem, d.x[2] + 8 * 0) == Field(PtRegs(c.x, c.sepc, c.status, c.badaddr, c.cause), 0);
  }

  lemma PushOk(mem: Memory, id: nat, t: Task, u: Task)
    requires StackOk(mem, id, t) && u.frames != [] && t.frames == u.frames[..|u.frames| - 1]
    requires u == t.(frames := u.frames)
    requires FrameOk(mem, id, u, |t.frames|)
    ensures StackOk(mem, id, u)
  {
    forall k | 0 <= k < |u.frames|
      ensures FrameOk(mem, id, u, k)
    {
      if k < |t.frames| {
        assert FrameOk(mem, id, t, k);
      }
    }
  }

  /** The base of the stack that an address on it belongs to. */
  lemma StackBase(stack: int, a: int)
    requires stack % THREAD_SIZE == 0 && stack <= a < stack + THREAD_SIZE
    ensures a - a % THREAD_SIZE == stack
  {}

  lemma ClearScratchKeepsInv(w: World, e: Event, v: World)
    requires Inv(w) && Step(w, e, v) && e.ClearScratch?
    ensures Inv(v)
  {
    var t := w.tasks[w.cur];
    assert StackOk(w.m.core.mem, w.cur, t);
    WithinStack(w.m.core.mem, w.cur, t, |t.frames| - 1);
    StackBase(t.stack, w.m.core.x[2]);
  }

  lemma AtFrameSpOk(w: World)
    requires Inv(w) && AtFrame(w.m.core, w.tasks[w.cur])
    ensures SpOk(w.tasks[w.cur], w.m.core.x[2])
  {
    var t := w.tasks[w.cur];
    assert StackOk(w.m.core.mem, w.cur, t);
    WithinStack(w.m.core.mem, w.cur, t, |t.frames| - 1);
  }

  lemma HandleKeepsInv(w: World, v: World)
    requires Inv(w) && Step(w, Handle, v)
    ensures Inv(v)
  {
    AtFrameSpOk(w);
  }

  // ----- words of a frame -----

  /** One word of a frame. */
  lemma WordOnly(mem: Memory, a: int, i: nat, v: nat)
    requires i < 35
    ensures OnlyFrame(mem, mem[a + 8 * i := v], a)
  {}

  /** A word of frame k other than sstatus, and other than sp and tp of a kernel frame, may change. */
  lemma WordKeeps(mem: Memory, tasks: map<nat, Task>, id: nat, k: nat, i: nat, v: nat)
    requires TasksOk(mem, tasks) && id in tasks && k < |tasks[id].frames| && i < 32
    requires i == 0 || i == 10 || (k == 0 && tasks[id].kind.UserTask?)
    ensures TasksOk(mem[tasks[id].frames[k] + 8 * i := v], tasks)
  {
    var a := tasks[id].frames[k];
    var mem' := mem[a + 8 * i := v];
    WordOnly(mem, a, i, v);
    assert StackOk(mem, id, tasks[id]) && FrameOk(mem, id, tasks[id], k);
    EditKeeps(mem, mem', tasks, id, k, tasks[id]);
    assert tasks[id := tasks[id]] == tasks;
  }

  lemma SyscallKeepsInv(w: World, e: Event, v: World)
    requires Inv(w) && Step(w, e, v) && (e.SyscallEnter? || e.SyscallExit?)
    ensures Inv(v)
  {
    var t, c := w.tasks[w.cur], w.m.core;
    AtFrameSpOk(w);
    WordKeeps(c.mem, w.tasks, w.cur, |t.frames| - 1, if e.SyscallEnter? then 0 else 10,
              if e.SyscallEnter? then AfterEcall(c.x[18]) else c.x[10]);
  }

  lemma EditUserKeepsInv(w: World, e: Event, v: World)
    requires Inv(w) && Step(w, e, v) && e.EditUser?
    ensures Inv(v)
  {
    var t := w.tasks[e.id];
    assert StackOk(w.m.core.mem, e.id, t) && FrameOk(w.m.core.mem, e.id, t, 0);
    WordKeeps(w.m.core.mem, w.tasks, e.id, 0, e.i, e.v);
  }

  lemma ModeBits()
    ensures !Has(0x2020, PS) && !Has(0x2020, IE) && Has(0x120, PS) && !Has(0x120, IE)
  {
    assert Shr(0x2020, 8) == 0x20 && Shr(0x120, 8) == 1;
    assert Shr(0x2020, 1) == 0x1010 && Shr(0x120, 1) == 0x90;
  }

  lemma ExecFrameOk(mem: Memory, id: nat, t: Task, pc: nat, sp: nat)
    requires !t.kind.Idle? && |t.frames| == 1 && FrameOk(mem, id, t, 0)
    ensures FrameOk(StartThread(mem, t.UserFrame(), pc, sp), id, t.(kind := UserTask), 0)
    ensures OnlyFrame(mem, StartThread(mem, t.UserFrame(), pc, sp), t.frames[0])
  {
    ModeBits();
  }

  lemma ExecKeepsInv(w: World, e: Event, v: World)
    requires Inv(w) && Step(w, e, v) && e.Exec?
    ensures Inv(v)
  {
    var t, mem := w.tasks[w.cur], w.m.core.mem;
    ExecUnfolds(w, e, v);
    ExecFrameOk(mem, w.cur, t, e.pc, e.sp);
    hide Step, StartThread, FrameOk, StackOk, OnlyFrame;
    EditKeeps(mem, v.m.core.mem, w.tasks, w.cur, 0, v.tasks[w.cur]);
  }

  lemma ExecUnfolds(w: World, e: Event, v: World)
    requires Inv(w) && Step(w, e, v) && e.Exec?
    ensures var t := w.tasks[w.cur];
            && v.cur == w.cur && v.tasks == w.tasks[w.cur := t.(kind := UserTask)] && !t.kind.Idle? && |t.frames| == 1
            && FrameOk(w.m.core.mem, w.cur, t, 0) && w.m.phase.Running? && !w.m.core.user
            && v.m == w.m.(core := w.m.core.(mem := StartThread(w.m.core.mem, t.UserFrame(), e.pc, e.sp)))
  {
    hide PhaseOk, ThreadsOk, FrameOk, StartThread;
    StackOfTask(w);
  }

  // ----- exit -----

  lemma BeginReturnKeepsInv(w: World, v: World)
    requires Inv(w) && Step(w, BeginReturn, v)
    ensures Inv(v)
  {
    var t := w.tasks[w.cur];
    assert StackOk(w.m.core.mem, w.cur, t) && FrameOk(w.m.core.mem, w.cur, t, |t.frames| - 1);
    SetBits(w.m.core.status, IE, false, IE);
  }

  lemma RestoreCsrsKeepsInv(w: World, v: World)
    requires Inv(w) && Step(w, RestoreCsrs, v)
    ensures Inv(v)
  {
    var t := w.tasks[w.cur];
    assert StackOk(w.m.core.mem, w.cur, t) && FrameOk(w.m.core.mem, w.cur, t, |t.frames| - 1);
  }

  lemma PopOk(mem: Memory, id: nat, t: Task)
    requires StackOk(mem, id, t) && t.frames != []
    ensures StackOk(mem, id, t.(frames := t.frames[..|t.frames| - 1]))
  {
    var u := t.(frames := t.frames[..|t.frames| - 1]);
    forall k | 0 <= k < |u.frames|
      ensures FrameOk(mem, id, u, k)
    {
      assert FrameOk(mem, id, t, k);
    }
  }

  /** sret goes back to where the frame's trap came from. */
  lemma SretPhaseOk(w: World, v: World)
    requires Inv(w) && Step(w, Sret, v)
    ensures v.cur in v.tasks && PhaseOk(v.m, v.cur, v.tasks[v.cur])
  {
    hide SretStatus, TasksOk, ThreadsOk;
    var t, mem := w.tasks[w.cur], w.m.core.mem;
    StackOfTask(w);
    assert FrameOk(mem, w.cur, t, |t.frames| - 1);
    assert v.m.core.x[2] == Load(mem, w.m.core.x[2] + 8 * 2) && v.m.core.x[4] == Load(mem, w.m.core.x[2] + 8 * 4);
    if !Has(w.m.core.status, PS) { SretToUser(w.m.core.status); }
  }

  lemma StackOfTask(w: World)
    requires Inv(w)
    ensures StackOk(w.m.core.mem, w.cur, w.tasks[w.cur])
  {}

  lemma SretKeepsInv(w: World, v: World)
    requires Inv(w) && Step(w, Sret, v)
    ensures Inv(v)
  {
    SretPhaseOk(w, v);
    hide PhaseOk, Sreturned, SretStatus;
    var t, mem := w.tasks[w.cur], w.m.core.mem;
    StackOfTask(w);
    SretAccount(w, v);
    PopOk(mem, w.cur, t);
    OneTask(mem, w.tasks, w.cur, v.tasks[w.cur]);
  }

  lemma SretAccount(w: World, v: World)
    requires Inv(w) && Step(w, Sret, v)
    ensures var t := w.tasks[w.cur];
            && t.frames != [] && v.cur == w.cur && v.m.core.mem == w.m.core.mem && v.m.threads == w.m.threads
            && v.tasks == w.tasks[w.cur := t.(frames := t.frames[..|t.frames| - 1])]
  {}

  // ----- code, switches, new tasks -----

  lemma RunKeepsInv(w: World, e: Event, v: World)
    requires Inv(w) && Step(w, e, v) && (e.UserRun? || e.KernelRun?)
    ensures Inv(v)
  {
    KeepsTasksOk(w.tasks, w.m.core.mem, v.m.core.mem);
  }

  /** The task switched to has its saved context back. */
  lemma SwitchStep(w: World, v: World)
    requires Inv(w) && Step(w, Switch, v)
    ensures |w.m.core.x| == |v.m.core.x| == 32 && v.cur in v.tasks && w.cur in v.tasks && v.tasks == w.tasks
    ensures v.m.threads == w.m.threads[w.cur := CalleeSaved(w.m.core.x)]
    ensures v.cur in v.m.threads && v.m.threads[v.cur] == CalleeSaved(v.m.core.x)
    ensures v.m.core.pc == v.m.core.x[1] && v.m.core.x[4] == v.cur && v.m.core.mem == w.m.core.mem
    ensures v.m.phase.Running? && v.m.core == w.m.core.(x := v.m.core.x, pc := v.m.core.pc) && v.m.core.x[0] == 0
  {
    hide *;
    SwitchMoves(w, v);
    ZeroIsZero(w);
    SwitchedCore(w.m.core, w.m.threads, v.m.core, v.m.threads);
  }

  lemma ZeroIsZero(w: World)
    requires Inv(w)
    ensures |w.m.core.x| == 32 && w.m.core.x[0] == 0 && w.cur in w.tasks
  {}

  lemma SwitchMoves(w: World, v: World)
    requires Step(w, Switch, v)
    ensures var c := w.m.core;
            && |c.x| == 32 && w.m.phase.Running? && !c.user && Switched(c, w.m.threads, v.m.core, v.m.threads)
            && v.m == w.m.(core := v.m.core, threads := v.m.threads)
            && c.x[10] == w.cur && c.x[11] in w.tasks && v.tasks == w.tasks && v.cur == c.x[11]
  {
    hide Switched;
  }

  lemma SwitchKeepsInv(w: World, v: World)
    requires Inv(w) && Step(w, Switch, v)
    ensures Inv(v)
  {
    SwitchStep(w, v);
    hide Moves, Disciplined, TasksOk;
    assert !w.m.core.user;
  }

  lemma CreateKeepsInv(w: World, v: World, id: nat, stack: nat, kind: Kind)
    requires Inv(w) && w.m.phase.Running? && !w.m.core.user && Fresh(w.tasks, id, stack)
    requires v.cur == w.cur && v.tasks == w.tasks[id := NewTask(stack, kind)] && !kind.Idle?
    requires NewStack(w.m.core.mem, v.m.core.mem, id, stack) && v.m.core == w.m.core.(mem := v.m.core.mem)
    requires v.m.phase.Running? && id in v.m.threads && v.m.threads == w.m.threads[id := v.m.threads[id]]
    requires |v.m.threads[id]| == 14 && v.m.threads[id][1] == stack + THREAD_SIZE - PT_SIZE
    requires var status := Load(v.m.core.mem, stack + THREAD_SIZE - PT_SIZE + PT_SSTATUS);
             Has(status, PS) == !kind.UserTask? && !Has(status, IE)
    ensures Inv(v)
  {
    var mem, mem' := w.m.core.mem, v.m.core.mem;
    FreshUnused(mem, w.tasks, id, stack);
    UnusedKeeps(w.tasks, mem, mem', stack, stack + THREAD_SIZE);
    KeepsTasksOk(w.tasks, mem, mem');
    assert FrameOk(mem', id, NewTask(stack, kind), 0);
  }

  lemma ForkKeepsInv(w: World, e: Event, v: World)
    requires Inv(w) && Step(w, e, v) && e.Fork?
    ensures Inv(v)
  {
    ForkUnfolds(w, e, v);
    hide Step;
    CreateKeepsInv(w, v, e.child, e.stack, UserTask);
  }

  lemma ForkUnfolds(w: World, e: Event, v: World)
    requires Inv(w) && Step(w, e, v) && e.Fork?
    ensures w.m.phase.Running? && v.m.phase.Running? && !w.m.core.user && Fresh(w.tasks, e.child, e.stack)
    ensures v.cur == w.cur && v.tasks == w.tasks[e.child := NewTask(e.stack, UserTask)]
    ensures NewStack(w.m.core.mem, v.m.core.mem, e.child, e.stack) && v.m.core == w.m.core.(mem := v.m.core.mem)
    ensures e.child in v.m.threads && v.m.threads == w.m.threads[e.child := v.m.threads[e.child]]
    ensures |v.m.threads[e.child]| == 14 && v.m.threads[e.child][1] == e.stack + THREAD_SIZE - PT_SIZE
    ensures var status := Load(v.m.core.mem, e.stack + THREAD_SIZE - PT_SIZE + PT_SSTATUS);
            !Has(status, PS) && !Has(status, IE)
  {
    hide PhaseOk, ThreadsOk, NewStack, Fresh, Has;
    var t, mem, mem' := w.tasks[w.cur], w.m.core.mem, v.m.core.mem;
    StackOfTask(w);
    assert FrameOk(mem, w.cur, t, 0);
    assert Load(mem', e.stack + THREAD_SIZE - PT_SIZE + 8 * 32) == ForkWord(mem, e.parent, e.usp, e.settls, 32);
  }

  lemma ForkThreadKeepsInv(w: World, e: Event, v: World)
    requires Inv(w) && Step(w, e, v) && e.ForkThread?
    ensures Inv(v)
  {
    ModeBits();
    assert Load(v.m.core.mem, e.stack + THREAD_SIZE - PT_SIZE + 8 * 32) == ThreadWord(w.m.core.x[3], 32);
    CreateKeepsInv(w, v, e.child, e.stack, KernelThread);
  }

  lemma ReapKeepsInv(w: World, e: Event, v: World)
    requires Inv(w) && Step(w, e, v) && e.Reap?
    ensures Inv(v)
  {
    assert forall i | i in v.tasks :: i in w.tasks && v.tasks[i] == w.tasks[i];
  }

  lemma StepInv(w: World, e: Event, v: World)
    requires Inv(w) && Step(w, e, v)
    ensures Inv(v)
  {
    hide *;
    match e
    case UserRun => RunKeepsInv(w, e, v);
    case KernelRun => RunKeepsInv(w, e, v);
    case Trap(_, _, _) => TrapKeepsInv(w, e, v);
    case SaveAll => SaveAllKeepsInv(w, v);
    case ClearScratch => ClearScratchKeepsInv(w, e, v);
    case Handle => HandleKeepsInv(w, v);
    case SyscallEnter => SyscallKeepsInv(w, e, v);
    case SyscallExit => SyscallKeepsInv(w, e, v);
    case BeginReturn => BeginReturnKeepsInv(w, v);
    case RestoreCsrs => RestoreCsrsKeepsInv(w, v);
    case Sret => SretKeepsInv(w, v);
    case Switch => SwitchKeepsInv(w, v);
    case Fork(_, _, _, _, _) => ForkKeepsInv(w, e, v);
    case ForkThread(_, _, _, _) => ForkThreadKeepsInv(w, e, v);
    case Exec(_, _, _) => ExecKeepsInv(w, e, v);
    case EditUser(_, _, _) => EditUserKeepsInv(w, e, v);
    case Reap(_) => ReapKeepsInv(w, e, v);
  }
}
