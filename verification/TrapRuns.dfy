/** Whole runs of the trap machine: where frames land, that no interrupt hits the windows in which sscratch
  is in use, and what returns, system calls, fork, exec and context switches give back.

  What a return restores is read from memory; that the frame is still what the trap stored there follows
  from every step in between keeping the words of the live frames it does not write.
 */
module TrapRuns {
  import opened Bits
  import opened TrapFrames
  import opened Traps
  import opened TrapSteps

  ghost predicate StepAt(ws: seq<World>, es: seq<Event>, i: nat)
    requires i < |es| && |ws| == |es| + 1
  {
    Step(ws[i], es[i], ws[i + 1])
  }

  ghost predicate Run(ws: seq<World>, es: seq<Event>) {
    && |ws| == |es| + 1 && Inv(ws[0])
    && forall i | 0 <= i < |es| :: StepAt(ws, es, i)
  }

  lemma {:induction false} RunInv(ws: seq<World>, es: seq<Event>, i: nat)
    requires Run(ws, es) && i < |ws|
    ensures Inv(ws[i])
  {
    hide Step, PhaseOk, TasksOk, ThreadsOk;
    if i > 0 {
      RunInv(ws, es, i - 1);
      assert StepAt(ws, es, i - 1);
      StepInv(ws[i - 1], es[i - 1], ws[i]);
    }
  }

  lemma BootInv(w: World)
    requires w.cur in w.tasks && w.tasks.Keys == {w.cur} && w.m.phase.Running? && !w.m.core.user
    requires w.m.core.sscratch == 0
    requires var t, c := w.tasks[w.cur], w.m.core;
             && t.kind.Idle? && t.frames == [] && w.cur in w.m.threads && |w.m.threads[w.cur]| == 14
             && t.stack % THREAD_SIZE == 0 && Load(c.mem, t.stack) == w.cur
             && |c.x| == 32 && c.x[0] == 0 && c.x[4] == w.cur
             && t.stack + THREAD_INFO_SIZE <= c.x[2] <= t.Top()
    ensures Inv(w)
  {
    assert forall id | id in w.tasks :: id == w.cur;
  }

  // ----- sscratch -----

  /** At every point of a run where an exception or an enabled interrupt can come, sscratch tells where the
    hart is: in user mode it is the top of the current task's kernel stack, in the kernel it is 0. */
  lemma SscratchTells(ws: seq<World>, es: seq<Event>, i: nat)
    requires Run(ws, es) && i < |ws|
    requires ws[i].m.phase.Running? || MayInterrupt(ws[i].m.core)
    ensures ws[i].cur in ws[i].tasks && |ws[i].m.core.x| == 32
    ensures var c, t := ws[i].m.core, ws[i].tasks[ws[i].cur];
            if c.user then c.sscratch == t.Top() && t.frames == []
            else c.sscratch == 0 && c.x[4] == ws[i].cur
  {
    RunInv(ws, es, i);
  }

  /** Between a trap and the clearing of sscratch, and between its loading and sret, the kernel runs with
    interrupts off, and no trap comes. */
  lemma WindowsUndisturbed(ws: seq<World>, es: seq<Event>, i: nat)
    requires Run(ws, es) && i < |ws| && !ws[i].m.phase.Running?
    ensures !ws[i].m.core.user && !Has(ws[i].m.core.status, IE)
    ensures i < |es| ==> !es[i].Trap?
  {
    RunInv(ws, es, i);
    if i < |es| && es[i].Trap? {
      assert StepAt(ws, es, i);
      TrapsWhileRunning(ws[i], es[i], ws[i + 1]);
    }
  }

  /** So SAVE_ALL always follows. */
  lemma TrapThenSaves(ws: seq<World>, es: seq<Event>, i: nat)
    requires Run(ws, es) && i + 1 < |es| && es[i].Trap?
    ensures es[i + 1] == SaveAll && ws[i].m.phase.Running? && ws[i + 1].cur == ws[i].cur
    ensures ws[i + 1].tasks == ws[i].tasks
    ensures Trapped(ws[i].m.core, ws[i + 1].m.core, es[i].cause, es[i].badaddr)
  {
    assert StepAt(ws, es, i) && StepAt(ws, es, i + 1);
    RunInv(ws, es, i);
    TrapsWhileRunning(ws[i], es[i], ws[i + 1]);
    WindowsUndisturbed(ws, es, i + 1);
    OnlySaveAll(ws[i + 1], es[i + 1], ws[i + 2]);
  }

  lemma OnlySaveAll(w: World, e: Event, v: World)
    requires Step(w, e, v) && w.m.phase.Entering? && !e.Trap?
    ensures e == SaveAll
  {}

  /** A trap at any point of a run leaves its frame on the current task's own stack, below everything live
    there, and at task_pt_regs if it came from user mode. */
  lemma TrapsLandOnOwnStack(ws: seq<World>, es: seq<Event>, i: nat)
    requires Run(ws, es) && i + 1 < |es| && es[i].Trap?
    ensures ws[i].cur in ws[i].tasks && |ws[i + 2].m.core.x| == 32
    ensures var t := ws[i].tasks[ws[i].cur];
            var sp := ws[i + 2].m.core.x[2];
            && t.stack + THREAD_INFO_SIZE <= sp && sp + PT_SIZE <= t.Floor()
            && (ws[i].m.core.user ==> sp == t.UserFrame())
  {
    TrapThenSaves(ws, es, i);
    RunInv(ws, es, i + 1);
    assert StepAt(ws, es, i + 1);
    SavesOnOwnStack(ws[i + 1], ws[i + 2]);
    SavedSepc(ws[i + 1].m.core, ws[i + 2].m.core);
    TrapStatusBits(ws[i].m.core.status, ws[i].m.core.user);
  }

  // ----- live frames -----

  /** Frame k of task id is live in w. */
  predicate Live(w: World, id: nat, k: nat) { id in w.tasks && k < |w.tasks[id].frames| }

  /** All live frames of a world, of one task or of two, occupy disjoint memory. */
  lemma FramesDisjoint(ws: seq<World>, es: seq<Event>, i: nat, id: nat, k: nat, id': nat, k': nat)
    requires Run(ws, es) && i < |ws| && Live(ws[i], id, k) && Live(ws[i], id', k') && (id, k) != (id', k')
    ensures var a, b := ws[i].tasks[id].frames[k], ws[i].tasks[id'].frames[k']; a + PT_SIZE <= b || b + PT_SIZE <= a
  {
    RunInv(ws, es, i);
    FramesApart(ws[i].m.core.mem, ws[i].tasks, id, k, id', k');
  }

  /** Event e at w writes frame k of task id. */
  predicate Writes(w: World, e: Event, id: nat, k: nat) {
    if e.EditUser? then e.id == id && k == 0
    else
      && (e.SyscallEnter? || e.SyscallExit? || e.Exec?)
      && w.cur == id && Live(w, id, k) && k + 1 == |w.tasks[id].frames|
  }

  /** From i to j frame k of task id stays live and nobody writes it. */
  predicate Untouched(ws: seq<World>, es: seq<Event>, id: nat, k: nat, i: nat, j: nat)
    requires i <= j < |ws| && |ws| == |es| + 1
  {
    && (forall m | i <= m <= j :: Live(ws[m], id, k))
    && (forall m | i <= m < j :: !Writes(ws[m], es[m], id, k))
  }

  lemma StaysAt(w: World, e: Event, v: World, id: nat, k: nat)
    requires Inv(w) && Step(w, e, v) && Live(w, id, k) && Live(v, id, k)
    ensures v.tasks[id].frames[k] == w.tasks[id].frames[k]
  {}

  /** A step writes none of the words of a live frame, unless it is one of those that do. */
  lemma StepKeepsFrame(w: World, e: Event, v: World, id: nat, k: nat)
    requires Inv(w) && Step(w, e, v) && Live(w, id, k) && !Writes(w, e, id, k)
    ensures SameFrame(w.m.core.mem, v.m.core.mem, w.tasks[id].frames[k])
  {
    if e.SaveAll? {
      hide Step;
      SaveAllKeepsStacks(w, v);
    } else if e.Fork? || e.ForkThread? {
      hide Step;
      NewTaskKeepsStacks(w, e, v);
    } else if e.SyscallEnter? || e.SyscallExit? || e.Exec? || e.EditUser? {
      hide Step;
      WriterKeepsFrame(w, e, v, id, k);
    } else {
      hide PhaseOk, TasksOk, ThreadsOk;
    }
  }

  lemma SaveAllKeepsStacks(w: World, v: World)
    requires Inv(w) && Step(w, SaveAll, v)
    ensures KeepsStacks(w.tasks, w.m.core.mem, v.m.core.mem)
  {
    hide PhaseOk, TasksOk, ThreadsOk;
    var a := KernelSp(w.m.core) - PT_SIZE;
    SavesOnOwnStack(w, v);
    BelowFloorUnused(w.m.core.mem, w.tasks, w.cur, a, a + PT_SIZE);
    UnusedKeeps(w.tasks, w.m.core.mem, v.m.core.mem, a, a + PT_SIZE);
  }

  lemma NewTaskKeepsStacks(w: World, e: Event, v: World)
    requires Inv(w) && Step(w, e, v) && (e.Fork? || e.ForkThread?)
    ensures KeepsStacks(w.tasks, w.m.core.mem, v.m.core.mem)
  {
    hide PhaseOk, TasksOk, ThreadsOk;
    FreshUnused(w.m.core.mem, w.tasks, e.child, e.stack);
    UnusedKeeps(w.tasks, w.m.core.mem, v.m.core.mem, e.stack, e.stack + THREAD_SIZE);
  }

  /** The frame that such a step writes. */
  lemma WrittenFrame(w: World, e: Event, v: World) returns (id: nat, k: nat)
    requires Inv(w) && Step(w, e, v) && (e.SyscallEnter? || e.SyscallExit? || e.Exec? || e.EditUser?)
    ensures Live(w, id, k) && Writes(w, e, id, k) && OnlyFrame(w.m.core.mem, v.m.core.mem, w.tasks[id].frames[k])
    ensures forall id', k' | Live(w, id', k') && Writes(w, e, id', k') :: id' == id && k' == k
  {
    if e.EditUser? {
      id, k := EditedFrame(w, e, v);
    } else {
      id, k := OwnFrame(w, e, v);
    }
  }

  lemma EditedFrame(w: World, e: Event, v: World) returns (id: nat, k: nat)
    requires Inv(w) && Step(w, e, v) && e.EditUser?
    ensures Live(w, id, k) && Writes(w, e, id, k) && OnlyFrame(w.m.core.mem, v.m.core.mem, w.tasks[id].frames[k])
    ensures forall id', k' | Live(w, id', k') && Writes(w, e, id', k') :: id' == id && k' == k
  {
    hide ThreadsOk, PhaseOk;
    id, k := e.id, 0;
    assert StackOk(w.m.core.mem, id, w.tasks[id]) && FrameOk(w.m.core.mem, id, w.tasks[id], k);
  }

  lemma OwnFrame(w: World, e: Event, v: World) returns (id: nat, k: nat)
    requires Inv(w) && Step(w, e, v) && (e.SyscallEnter? || e.SyscallExit? || e.Exec?)
    ensures Live(w, id, k) && Writes(w, e, id, k) && OnlyFrame(w.m.core.mem, v.m.core.mem, w.tasks[id].frames[k])
    ensures forall id', k' | Live(w, id', k') && Writes(w, e, id', k') :: id' == id && k' == k
  {
    hide ThreadsOk, TasksOk, AfterEcall;
    StackOfTask(w);
    id, k := w.cur, |w.tasks[w.cur].frames| - 1;
    assert FrameOk(w.m.core.mem, id, w.tasks[id], k);
  }

  lemma WriterKeepsFrame(w: World, e: Event, v: World, id: nat, k: nat)
    requires Inv(w) && Step(w, e, v) && Live(w, id, k) && !Writes(w, e, id, k)
    requires e.SyscallEnter? || e.SyscallExit? || e.Exec? || e.EditUser?
    ensures SameFrame(w.m.core.mem, v.m.core.mem, w.tasks[id].frames[k])
  {
    hide Step, Writes, TasksOk, OnlyFrame, PhaseOk, ThreadsOk;
    var id', k' := WrittenFrame(w, e, v);
    OtherFrames(w.m.core.mem, v.m.core.mem, w.tasks, id', k', id);
  }

  lemma SameFrameTwice(m: Memory, n: Memory, p: Memory, a: int)
    requires SameFrame(m, n, a) && SameFrame(n, p, a)
    ensures SameFrame(m, p, a)
  {
    forall i | 0 <= i < 35
      ensures Load(p, a + 8 * i) == Load(m, a + 8 * i)
    {
      assert Load(n, a + 8 * i) == Load(m, a + 8 * i);
    }
  }

  /** The words of an untouched frame are where they were, and what they were. */
  lemma {:induction false} UntouchedKeeps(ws: seq<World>, es: seq<Event>, id: nat, k: nat, i: nat, j: nat)
    requires Run(ws, es) && i <= j < |ws| && Untouched(ws, es, id, k, i, j)
    ensures Live(ws[i], id, k) && Live(ws[j], id, k)
    ensures ws[j].tasks[id].frames[k] == ws[i].tasks[id].frames[k]
    ensures SameFrame(ws[i].m.core.mem, ws[j].m.core.mem, ws[i].tasks[id].frames[k])
    decreases j - i
  {
    hide Step, SameFrame, Inv;
    assert Live(ws[i], id, k) && Live(ws[j], id, k);
    if i == j {
      SameFrameSelf(ws[i].m.core.mem, ws[i].tasks[id].frames[k]);
    } else {
      UntouchedKeeps(ws, es, id, k, i, j - 1);
      RunInv(ws, es, j - 1);
      StepOf(ws, es, j - 1);
      assert Live(ws[j - 1], id, k) && !Writes(ws[j - 1], es[j - 1], id, k);
      StaysAt(ws[j - 1], es[j - 1], ws[j], id, k);
      StepKeepsFrame(ws[j - 1], es[j - 1], ws[j], id, k);
      SameFrameTwice(ws[i].m.core.mem, ws[j - 1].m.core.mem, ws[j].m.core.mem, ws[i].tasks[id].frames[k]);
    }
  }

  lemma SameFrameSelf(m: Memory, a: int)
    ensures SameFrame(m, m, a)
  {}

  lemma StepOf(ws: seq<World>, es: seq<Event>, i: nat)
    requires Run(ws, es) && i < |es|
    ensures Step(ws[i], es[i], ws[i + 1])
  {
    assert StepAt(ws, es, i);
  }

  // ----- returns -----

  /** d is the state that a return through the frame at a in mem leads to. */
  predicate RestoredFrom(mem: Memory, a: int, d: Core) {
    var status := Load(mem, a + PT_SSTATUS);
    && |d.x| == 32 && d.x[0] == 0 && (forall n | 1 <= n < 32 :: d.x[n] == Load(mem, a + 8 * n))
    && d.pc == Load(mem, a + PT_SEPC) && d.user == !Has(status, PS) && d.status == SretStatus(status)
  }

  /** The sret that takes frame k off the stack of the current task. */
  predicate Pops(ws: seq<World>, es: seq<Event>, id: nat, k: nat, j: nat)
    requires j < |es| < |ws|
  {
    es[j].Sret? && ws[j].cur == id && Live(ws[j], id, k) && |ws[j].tasks[id].frames| == k + 1
  }

  lemma SretReads(w: World, v: World)
    requires Inv(w) && Step(w, Sret, v)
    ensures var t := w.tasks[w.cur];
            && t.frames != [] && RestoredFrom(w.m.core.mem, t.Floor(), v.m.core)
            && v.cur == w.cur && v.cur in v.tasks && |v.tasks[v.cur].frames| == |t.frames| - 1 && v.m.phase.Running?
            && v.m.core.sscratch == if v.m.core.user then t.Floor() + PT_SIZE else 0
  {
    hide TasksOk, SretStatus, ThreadsOk;
    ReturnsUpwards(w);
  }

  /** A return to user mode is through the outermost frame, at task_pt_regs. */
  lemma ReturnsUpwards(w: World)
    requires Inv(w) && w.m.phase.Restoring?
    ensures var t := w.tasks[w.cur]; t.frames != [] && (!Has(w.m.core.status, PS) ==> t.Floor() + PT_SIZE == t.Top())
  {
    var t := w.tasks[w.cur];
    assert StackOk(w.m.core.mem, w.cur, t) && FrameOk(w.m.core.mem, w.cur, t, |t.frames| - 1);
  }

  lemma SameFrameRestores(mem: Memory, mem': Memory, a: int, d: Core)
    requires SameFrame(mem, mem', a) && RestoredFrom(mem', a, d)
    ensures RestoredFrom(mem, a, d)
  {
    hide SretStatus;
    assert Load(mem', a + 8 * 32) == Load(mem, a + 8 * 32) && Load(mem', a + 8 * 0) == Load(mem, a + 8 * 0);
    assert forall n | 1 <= n < 32 :: Load(mem', a + 8 * n) == Load(mem, a + 8 * n);
  }

  /** A return through a frame that nobody wrote since i restores what its words were at i. */
  lemma ReturnsThrough(ws: seq<World>, es: seq<Event>, id: nat, k: nat, i: nat, j: nat)
    requires Run(ws, es) && i <= j < |es| && Untouched(ws, es, id, k, i, j) && Pops(ws, es, id, k, j)
    ensures Live(ws[i], id, k) && RestoredFrom(ws[i].m.core.mem, ws[i].tasks[id].frames[k], ws[j + 1].m.core)
    ensures ws[j + 1].cur == id && id in ws[j + 1].tasks && |ws[j + 1].tasks[id].frames| == k
    ensures ws[j + 1].m.phase.Running?
    ensures var d := ws[j + 1].m.core; d.sscratch == if d.user then ws[i].tasks[id].frames[k] + PT_SIZE else 0
  {
    hide Step, Inv, RestoredFrom, SameFrame;
    UntouchedKeeps(ws, es, id, k, i, j);
    RunInv(ws, es, j);
    StepOf(ws, es, j);
    SretReads(ws[j], ws[j + 1]);
    SameFrameRestores(ws[i].m.core.mem, ws[j].m.core.mem, ws[i].tasks[id].frames[k], ws[j + 1].m.core);
  }

  // ----- nested traps -----

  /** What a trap taken in c leaves in its frame. */
  function EntryRegs(c: Core, cause: nat, badaddr: nat): PtRegs {
    PtRegs(c.x, c.pc, TrapStatus(c.status, c.user), badaddr, cause)
  }

  lemma SaveAllPushes(w: World, v: World)
    requires Step(w, SaveAll, v)
    ensures |w.m.core.x| == 32
    ensures var c, k := w.m.core, |w.tasks[w.cur].frames|;
            && v.cur == w.cur && Live(v, w.cur, k) && |v.tasks[v.cur].frames| == k + 1
            && v.tasks[v.cur].frames[k] == KernelSp(c) - PT_SIZE
            && FrameAt(v.m.core.mem, KernelSp(c) - PT_SIZE, PtRegs(c.x, c.sepc, c.status, c.badaddr, c.cause))
  {}

  /** Two steps after a trap its frame is live, and holds the interrupted state. */
  lemma TrapPushes(ws: seq<World>, es: seq<Event>, i: nat, id: nat, k: nat)
    requires Run(ws, es) && i + 1 < |es| && es[i].Trap?
    requires ws[i].cur == id && id in ws[i].tasks && |ws[i].tasks[id].frames| == k
    ensures Live(ws[i + 2], id, k) && |ws[i + 2].tasks[id].frames| == k + 1 && ws[i + 2].cur == id
    ensures |ws[i + 1].m.core.x| == 32 && ws[i + 2].tasks[id].frames[k] == KernelSp(ws[i + 1].m.core) - PT_SIZE
    ensures FrameAt(ws[i + 2].m.core.mem, ws[i + 2].tasks[id].frames[k],
                    EntryRegs(ws[i].m.core, es[i].cause, es[i].badaddr))
  {
    TrapThenSaves(ws, es, i);
    StepOf(ws, es, i + 1);
    SaveAllPushes(ws[i + 1], ws[i + 2]);
  }

  lemma FrameAtRestores(mem: Memory, a: int, r: PtRegs, d: Core)
    requires FrameAt(mem, a, r) && RestoredFrom(mem, a, d)
    ensures |d.x| == 32 && d.x[0] == 0 && (forall n | 1 <= n < 32 :: d.x[n] == r.x[n])
    ensures d.pc == r.sepc && d.user == !Has(r.status, PS) && d.status == SretStatus(r.status)
  {
    hide SretStatus;
    assert Load(mem, a + 8 * 32) == Field(r, 32) && Load(mem, a + 8 * 0) == Field(r, 0);
    forall n | 1 <= n < 32
      ensures d.x[n] == r.x[n]
    {
      assert Load(mem, a + 8 * n) == Field(r, n);
    }
  }

  lemma RunCore(ws: seq<World>, es: seq<Event>, i: nat)
    requires Run(ws, es) && i < |ws| && ws[i].m.phase.Running?
    ensures ws[i].cur in ws[i].tasks && |ws[i].m.core.x| == 32 && ws[i].m.core.x[0] == 0
    ensures var c, t := ws[i].m.core, ws[i].tasks[ws[i].cur];
            c.sscratch == (if c.user then t.Top() else 0) && (c.user ==> !Has(c.status, IE) && t.frames == [])
  {
    RunInv(ws, es, i);
  }

  /** The state a trap interrupted is back: registers, pc, mode, sscratch, and sstatus but for PIE and PS. */
  predicate Resumed(c: Core, d: Core, bit: nat) {
    && d.x == c.x && d.pc == c.pc && d.user == c.user && d.sscratch == c.sscratch
    && (bit != PIE && bit != PS ==> Has(d.status, bit) == Has(c.status, bit))
  }

  lemma EntryThenReturn(c: Core, cause: nat, badaddr: nat, mem: Memory, a: int, d: Core, bit: nat)
    requires |c.x| == 32 && c.x[0] == 0 && (c.user ==> !Has(c.status, IE))
    requires FrameAt(mem, a, EntryRegs(c, cause, badaddr)) && RestoredFrom(mem, a, d)
    ensures d.x == c.x && d.pc == c.pc && d.user == c.user
    ensures bit != PIE && bit != PS ==> Has(d.status, bit) == Has(c.status, bit)
  {
    hide TrapStatus, SretStatus, FrameAt;
    FrameAtRestores(mem, a, EntryRegs(c, cause, badaddr), d);
    TrapStatusBits(c.status, c.user);
    if bit != PIE && bit != PS { TrapThenSret(c.status, c.user, bit); }
  }

  /** Traps nested to any depth unwind exactly: whatever runs between a trap and the return through its
    frame (other traps, other tasks), that return restores the interrupted state. */
  lemma NestedTrapsUnwind(ws: seq<World>, es: seq<Event>, i: nat, j: nat, id: nat, k: nat, bit: nat)
    requires Run(ws, es) && i + 2 <= j < |es| && es[i].Trap?
    requires ws[i].cur == id && id in ws[i].tasks && |ws[i].tasks[id].frames| == k
    requires Untouched(ws, es, id, k, i + 2, j) && Pops(ws, es, id, k, j)
    ensures Resumed(ws[i].m.core, ws[j + 1].m.core, bit) && ws[j + 1].cur == id
    ensures id in ws[j + 1].tasks && |ws[j + 1].tasks[id].frames| == k
  {
    hide Untouched, FrameAt, RestoredFrom, Step;
    TrapThenSaves(ws, es, i);
    TrapPushes(ws, es, i, id, k);
    ReturnsThrough(ws, es, id, k, i + 2, j);
    RunCore(ws, es, i);
    RunCore(ws, es, j + 1);
    EntryThenReturn(ws[i].m.core, es[i].cause, es[i].badaddr, ws[i + 2].m.core.mem, ws[i + 2].tasks[id].frames[k],
                    ws[j + 1].m.core, bit);
  }

  // ----- frames that are edited -----

  lemma SameFrameAt(mem: Memory, mem': Memory, a: int, r: PtRegs)
    requires SameFrame(mem, mem', a) && FrameAt(mem, a, r)
    ensures FrameAt(mem', a, r)
  {
    forall i | 0 <= i < 35
      ensures Load(mem', a + 8 * i) == Field(r, i)
    {
      assert Load(mem', a + 8 * i) == Load(mem, a + 8 * i);
    }
  }

  lemma HoldsUntouched(ws: seq<World>, es: seq<Event>, id: nat, k: nat, i: nat, j: nat, r: PtRegs)
    requires Run(ws, es) && i <= j < |ws| && Untouched(ws, es, id, k, i, j)
    requires Live(ws[i], id, k) && FrameAt(ws[i].m.core.mem, ws[i].tasks[id].frames[k], r)
    ensures Live(ws[j], id, k) && FrameAt(ws[j].m.core.mem, ws[j].tasks[id].frames[k], r)
    ensures ws[j].tasks[id].frames[k] == ws[i].tasks[id].frames[k]
  {
    hide Run, Untouched, SameFrame, FrameAt;
    UntouchedKeeps(ws, es, id, k, i, j);
    SameFrameAt(ws[i].m.core.mem, ws[j].m.core.mem, ws[i].tasks[id].frames[k], r);
  }

  lemma OneWord(mem: Memory, a: int, r: PtRegs, i: nat, v: nat)
    requires FrameAt(mem, a, r) && (i == 0 || i == 10)
    ensures FrameAt(mem[a + 8 * i := v], a, if i == 0 then r.(sepc := v) else r.(x := r.x[10 := v]))
  {
    var r' := if i == 0 then r.(sepc := v) else r.(x := r.x[10 := v]);
    forall n | 0 <= n < 35
      ensures Load(mem[a + 8 * i := v], a + 8 * n) == Field(r', n)
    {
      assert Load(mem, a + 8 * n) == Field(r, n);
    }
  }

  /** Frame k of task id is the one the current task would return through. */
  predicate Innermost(w: World, id: nat, k: nat) { w.cur == id && Live(w, id, k) && |w.tasks[id].frames| == k + 1 }

  /** A system call's first step moves sepc in the frame in memory past the ecall. */
  lemma EnterEdits(w: World, v: World, id: nat, k: nat, r: PtRegs)
    requires Inv(w) && Step(w, SyscallEnter, v) && Innermost(w, id, k)
    requires FrameAt(w.m.core.mem, w.tasks[id].frames[k], r)
    ensures v.tasks == w.tasks && FrameAt(v.m.core.mem, w.tasks[id].frames[k], r.(sepc := AfterEcall(r.sepc)))
  {
    hide TasksOk, ThreadsOk, AfterEcall;
    var c, a := w.m.core, w.tasks[id].frames[k];
    assert Load(c.mem, a + 8 * 0) == Field(r, 0);
    OneWord(c.mem, a, r, 0, AfterEcall(r.sepc));
  }

  /** Its last one stores the result in the frame's a0. */
  lemma ExitEdits(w: World, v: World, id: nat, k: nat, r: PtRegs)
    requires Inv(w) && Step(w, SyscallExit, v) && Innermost(w, id, k) && FrameAt(w.m.core.mem, w.tasks[id].frames[k], r)
    ensures |w.m.core.x| == 32 && v.tasks == w.tasks
    ensures FrameAt(v.m.core.mem, w.tasks[id].frames[k], r.(x := r.x[10 := w.m.core.x[10]]))
  {
    hide TasksOk, ThreadsOk;
    OneWord(w.m.core.mem, w.tasks[id].frames[k], r, 10, w.m.core.x[10]);
  }

  /** From the trap at i to the start of the call at a: the frame holds what was trapped, past the ecall. */
  lemma CallStarts(ws: seq<World>, es: seq<Event>, i: nat, a: nat, m: nat, id: nat, k: nat)
    requires Run(ws, es) && i + 2 <= a < m < |ws| && es[i].Trap? && es[a] == SyscallEnter
    requires ws[i].cur == id && id in ws[i].tasks && |ws[i].tasks[id].frames| == k && Innermost(ws[a], id, k)
    requires Untouched(ws, es, id, k, i + 2, a) && Untouched(ws, es, id, k, a + 1, m)
    ensures |ws[i + 1].m.core.x| == 32 && Live(ws[m], id, k)
    ensures ws[m].tasks[id].frames[k] == KernelSp(ws[i + 1].m.core) - PT_SIZE
    ensures var r := EntryRegs(ws[i].m.core, es[i].cause, es[i].badaddr);
            FrameAt(ws[m].m.core.mem, ws[m].tasks[id].frames[k], r.(sepc := AfterEcall(r.sepc)))
  {
    hide Untouched, FrameAt, Step, Inv, AfterEcall, TrapStatus;
    var r := EntryRegs(ws[i].m.core, es[i].cause, es[i].badaddr);
    TrapPushes(ws, es, i, id, k);
    HoldsUntouched(ws, es, id, k, i + 2, a, r);
    RunInv(ws, es, a);
    StepOf(ws, es, a);
    EnterEdits(ws[a], ws[a + 1], id, k, r);
    HoldsUntouched(ws, es, id, k, a + 1, m, r.(sepc := AfterEcall(r.sepc)));
  }

  /** A system call returns behind its ecall with a0 the value ret_from_syscall stored and every other
    register as it was, if nothing but the call's own two steps writes its frame. */
  lemma SyscallReturns(ws: seq<World>, es: seq<Event>, i: nat, a: nat, b: nat, j: nat, id: nat, k: nat, bit: nat)
    requires Run(ws, es) && i + 2 <= a < b < j < |es| && es[i].Trap? && es[a] == SyscallEnter && es[b] == SyscallExit
    requires ws[i].cur == id && id in ws[i].tasks && |ws[i].tasks[id].frames| == k
    requires Innermost(ws[a], id, k) && Innermost(ws[b], id, k) && Pops(ws, es, id, k, j)
    requires Untouched(ws, es, id, k, i + 2, a) && Untouched(ws, es, id, k, a + 1, b)
    requires Untouched(ws, es, id, k, b + 1, j)
    ensures |ws[i].m.core.x| == |ws[b].m.core.x| == 32
    ensures var c := ws[i].m.core;
            Resumed(c.(x := c.x[10 := ws[b].m.core.x[10]], pc := (c.pc + 4) % W64), ws[j + 1].m.core, bit)
    ensures ws[j + 1].cur == id && id in ws[j + 1].tasks && |ws[j + 1].tasks[id].frames| == k
  {
    hide Untouched, FrameAt, RestoredFrom, Step, Inv, TrapStatus, SretStatus;
    var c := ws[i].m.core;
    CallStarts(ws, es, i, a, b, id, k);
    RunInv(ws, es, b);
    StepOf(ws, es, b);
    var r := EntryRegs(c, es[i].cause, es[i].badaddr).(sepc := AfterEcall(c.pc));
    ExitEdits(ws[b], ws[b + 1], id, k, r);
    ReturnsThrough(ws, es, id, k, b + 1, j);
    TrapThenSaves(ws, es, i);
    RunCore(ws, es, i);
    RunCore(ws, es, j + 1);
    EntryThenReturn(c.(x := c.x[10 := ws[b].m.core.x[10]], pc := AfterEcall(c.pc)), es[i].cause, es[i].badaddr,
                    ws[b + 1].m.core.mem, ws[b + 1].tasks[id].frames[k], ws[j + 1].m.core, bit);
  }

  // ----- fork and exec -----

  lemma ForkRestores(mem: Memory, mem': Memory, parent: int, base: int, usp: nat, settls: bool, r: PtRegs, d: Core)
    requires ForkFrame(mem, mem', parent, base, usp, settls) && FrameAt(mem, parent, r) && RestoredFrom(mem', base, d)
    ensures |d.x| == 32 && d.x[10] == 0 && d.x[2] == (if usp != 0 then usp else r.x[2])
    ensures d.x[4] == (if settls then r.x[15] else r.x[4])
    ensures forall n | 1 <= n < 32 && n !in {2, 4, 10} :: d.x[n] == r.x[n]
    ensures d.pc == r.sepc && d.user == !Has(r.status, PS)
  {
    hide SretStatus;
    assert Load(mem', base + 8 * 0) == ForkWord(mem, parent, usp, settls, 0)
        && Load(mem, parent + 8 * 0) == Field(r, 0);
    assert Load(mem', base + 8 * 32) == ForkWord(mem, parent, usp, settls, 32);
    assert Load(mem, parent + 8 * 32) == Field(r, 32) && Load(mem, parent + 8 * 15) == Field(r, 15);
    forall n | 1 <= n < 32
      ensures d.x[n] == ForkWord(mem, parent, usp, settls, n) && Load(mem, parent + 8 * n) == r.x[n]
    {
      assert Load(mem', base + 8 * n) == ForkWord(mem, parent, usp, settls, n);
      assert Load(mem, parent + 8 * n) == Field(r, n);
    }
  }

  /** The system call of the task id that forks: its trap, its start, and copy_thread at f. */
  predicate Forks(ws: seq<World>, es: seq<Event>, i: nat, a: nat, f: nat, id: nat) {
    && |ws| == |es| + 1 && i + 2 <= a < f < |es| && es[i].Trap? && es[a] == SyscallEnter && es[f].Fork?
    && ws[i].cur == id && id in ws[i].tasks && ws[i].m.core.user
    && Innermost(ws[a], id, 0) && ws[f].cur == id
    && Untouched(ws, es, id, 0, i + 2, a) && Untouched(ws, es, id, 0, a + 1, f)
  }

  lemma ForkStep(w: World, e: Event, v: World)
    requires Inv(w) && Step(w, e, v) && e.Fork?
    ensures Live(w, w.cur, 0) && e.parent == w.tasks[w.cur].frames[0]
    ensures e.child !in w.tasks && Live(v, e.child, 0) && v.tasks[e.child].frames == [e.stack + THREAD_SIZE - PT_SIZE]
    ensures ForkFrame(w.m.core.mem, v.m.core.mem, e.parent, e.stack + THREAD_SIZE - PT_SIZE, e.usp, e.settls)
    ensures v.cur == w.cur
  {
    assert StackOk(w.m.core.mem, w.cur, w.tasks[w.cur]) && FrameOk(w.m.core.mem, w.cur, w.tasks[w.cur], 0);
  }

  /** The child's first return to user mode gives it its parent's registers at the system call, 0 in a0,
    and the stack and thread pointers it was given, and continues behind the parent's ecall. */
  lemma ForkReturns(ws: seq<World>, es: seq<Event>, i: nat, a: nat, f: nat, j: nat, id: nat)
    requires Run(ws, es) && Forks(ws, es, i, a, f, id) && f < j < |es|
    requires Untouched(ws, es, es[f].child, 0, f + 1, j) && Pops(ws, es, es[f].child, 0, j)
    ensures |ws[i].m.core.x| == |ws[j + 1].m.core.x| == 32 && ws[j + 1].cur == es[f].child != id
    ensures var c, d, e := ws[i].m.core, ws[j + 1].m.core, es[f];
            && d.x[10] == 0 && d.x[2] == (if e.usp != 0 then e.usp else c.x[2])
            && d.x[4] == (if e.settls then c.x[15] else c.x[4])
            && (forall n | 0 <= n < 32 && n !in {2, 4, 10} :: d.x[n] == c.x[n])
            && d.pc == (c.pc + 4) % W64 && d.user && d.sscratch == e.stack + THREAD_SIZE
  {
    hide Untouched, FrameAt, RestoredFrom, ForkFrame, Step, Inv, TrapStatus, SretStatus;
    var c, e := ws[i].m.core, es[f];
    TrapThenSaves(ws, es, i);
    RunCore(ws, es, i);
    CallStarts(ws, es, i, a, f, id, 0);
    RunInv(ws, es, f);
    StepOf(ws, es, f);
    ForkStep(ws[f], e, ws[f + 1]);
    ReturnsThrough(ws, es, e.child, 0, f + 1, j);
    ForkRestores(ws[f].m.core.mem, ws[f + 1].m.core.mem, e.parent, e.stack + THREAD_SIZE - PT_SIZE, e.usp, e.settls,
                 EntryRegs(c, es[i].cause, es[i].badaddr).(sepc := AfterEcall(c.pc)), ws[j + 1].m.core);
    TrapStatusBits(c.status, true);
    RunCore(ws, es, j + 1);
  }

  lemma ExecStep(w: World, e: Event, v: World)
    requires Inv(w) && Step(w, e, v) && e.Exec?
    ensures Live(w, w.cur, 0) && Live(v, w.cur, 0) && v.tasks[w.cur].frames == w.tasks[w.cur].frames == [e.regs]
    ensures v.m.core.mem == StartThread(w.m.core.mem, e.regs, e.pc, e.sp)
    ensures e.regs + PT_SIZE == w.tasks[w.cur].Top()
  {
    assert StackOk(w.m.core.mem, w.cur, w.tasks[w.cur]) && FrameOk(w.m.core.mem, w.cur, w.tasks[w.cur], 0);
  }

  lemma ExecRestores(mem: Memory, regs: int, pc: nat, sp: nat, d: Core)
    requires RestoredFrom(StartThread(mem, regs, pc, sp), regs, d)
    ensures |d.x| == 32 && d.pc == pc && d.x[2] == sp && d.user
    ensures Has(d.status, UIE) && Has(d.status, 13) && !Has(d.status, 14)
    ensures forall n | 1 <= n < 32 && n != 2 :: d.x[n] == Load(mem, regs + 8 * n)
  {
    var mem' := StartThread(mem, regs, pc, sp);
    assert Load(mem', regs + PT_SSTATUS) == 0x2020 && Load(mem', regs + 8 * 2) == sp;
    ModeBits();
    StartStatus();
  }

  /** What start_thread stores turns user-mode interrupts on, and the floating-point unit to its initial state. */
  lemma StartStatus()
    ensures Has(SretStatus(0x2020), UIE) && Has(SretStatus(0x2020), 13) && !Has(SretStatus(0x2020), 14)
  {
    assert Shr(0x2020, 5) == 0x101 && Shr(0x2020, 13) == 1 && Shr(0x2020, 14) == 0;
    ModeBits();
    StartStatusBit(UIE);
    StartStatusBit(13);
    StartStatusBit(14);
  }

  lemma StartStatusBit(j: nat)
    requires j != PIE && j != PS && Has(0x2020, PIE) && !Has(0x2020, PS)
    ensures Has(SretStatus(0x2020), j) == (j == UIE || Has(0x2020, j))
  {
    var s4 := SetBit(0x2020, UIE, true);
    SetBits(0x2020, UIE, true, j);
    SetBits(s4, PIE, true, j);
    SetBits(SetBit(s4, PIE, true), PS, false, j);
  }

  /** After start_thread the first return to user mode enters the new program at its pc with its sp. */
  lemma ExecReturns(ws: seq<World>, es: seq<Event>, i: nat, j: nat, id: nat)
    requires Run(ws, es) && i < j < |es| && es[i].Exec? && ws[i].cur == id
    requires Untouched(ws, es, id, 0, i + 1, j) && Pops(ws, es, id, 0, j)
    ensures id in ws[i].tasks && |ws[j + 1].m.core.x| == 32
    ensures var d := ws[j + 1].m.core;
            && d.pc == es[i].pc && d.x[2] == es[i].sp && d.user && d.sscratch == ws[i].tasks[id].Top()
            && (forall n | 1 <= n < 32 && n != 2 :: d.x[n] == Load(ws[i].m.core.mem, es[i].regs + 8 * n))
            && Has(d.status, UIE) && Has(d.status, 13) && !Has(d.status, 14)
  {
    hide Untouched, RestoredFrom, Step, Inv, StartThread;
    RunInv(ws, es, i);
    StepOf(ws, es, i);
    ExecStep(ws[i], es[i], ws[i + 1]);
    ReturnsThrough(ws, es, id, 0, i + 1, j);
    ExecRestores(ws[i].m.core.mem, es[i].regs, es[i].pc, es[i].sp, ws[j + 1].m.core);
  }

  // ----- context switches -----

  /** From i to j task id exists and is not running. */
  predicate Away(ws: seq<World>, id: nat, i: nat, j: nat)
    requires i <= j < |ws|
  {
    forall m | i <= m <= j :: id in ws[m].tasks && ws[m].cur != id
  }

  lemma AwayStep(w: World, e: Event, v: World, id: nat)
    requires Inv(w) && Step(w, e, v) && id in w.tasks && id in v.tasks && w.cur != id
    ensures id in w.m.threads && id in v.m.threads && v.m.threads[id] == w.m.threads[id]
    ensures v.tasks[id] == w.tasks[id]
  {
    hide PhaseOk, TasksOk, NewStack, ForkFrame, ThreadFrame, SavedAll, EcallEntered, Sreturned, ReturnBegun,
      CsrsRestored;
  }

  /** Nobody changes the saved context of a task that is not running, nor its account. */
  lemma {:induction false} AwayKeeps(ws: seq<World>, es: seq<Event>, id: nat, i: nat, j: nat)
    requires Run(ws, es) && i <= j < |ws| && Away(ws, id, i, j)
    ensures id in ws[i].m.threads && id in ws[j].m.threads && ws[j].m.threads[id] == ws[i].m.threads[id]
    ensures id in ws[i].tasks && id in ws[j].tasks && ws[j].tasks[id] == ws[i].tasks[id]
    decreases j - i
  {
    hide Step, PhaseOk, TasksOk;
    RunInv(ws, es, i);
    if i < j {
      AwayKeeps(ws, es, id, i, j - 1);
      RunInv(ws, es, j - 1);
      StepOf(ws, es, j - 1);
      AwayStep(ws[j - 1], es[j - 1], ws[j], id);
    }
  }

  /** A task that is switched away from and later back to continues behind its call of __switch_to with
    its callee-saved registers, its stack pointer and its frames; nobody wrote those but through
    task_pt_regs. */
  lemma SwitchReturns(ws: seq<World>, es: seq<Event>, i: nat, j: nat, id: nat)
    requires Run(ws, es) && i < j < |es| && es[i] == Switch && es[j] == Switch && ws[i].cur == id
    requires Away(ws, id, i + 1, j) && ws[j + 1].cur == id
    ensures |ws[i].m.core.x| == |ws[j + 1].m.core.x| == 32
    ensures var c, d := ws[i].m.core, ws[j + 1].m.core;
            && d.pc == c.x[1] && d.x[1] == c.x[1] && d.x[2] == c.x[2] && d.x[4] == id && d.x[8] == c.x[8]
            && d.x[9] == c.x[9]
            && forall n | 18 <= n <= 27 :: d.x[n] == c.x[n]
    ensures id in ws[i].tasks && id in ws[j + 1].tasks && ws[j + 1].tasks[id] == ws[i].tasks[id]
    ensures forall k: nat | Live(ws[i], id, k) && (k > 0 || forall m | i < m < j :: !Edits(es[m], id)) ::
              SameFrame(ws[i].m.core.mem, ws[j + 1].m.core.mem, ws[i].tasks[id].frames[k])
  {
    hide Step, Inv, SameFrame;
    RunInv(ws, es, i);
    StepOf(ws, es, i);
    SwitchStep(ws[i], ws[i + 1]);
    AwayKeeps(ws, es, id, i + 1, j);
    RunInv(ws, es, j);
    StepOf(ws, es, j);
    SwitchStep(ws[j], ws[j + 1]);
    CalleeSavedWords(ws[i].m.core.x);
    CalleeSavedWords(ws[j + 1].m.core.x);
    forall k: nat | Live(ws[i], id, k) && (k > 0 || forall m | i < m < j :: !Edits(es[m], id))
      ensures SameFrame(ws[i].m.core.mem, ws[j + 1].m.core.mem, ws[i].tasks[id].frames[k])
    {
      AwayUntouched(ws, es, id, k, i, j);
      UntouchedKeeps(ws, es, id, k, i, j + 1);
    }
  }

  predicate Edits(e: Event, id: nat) { e.EditUser? && e.id == id }

  lemma AwayUntouched(ws: seq<World>, es: seq<Event>, id: nat, k: nat, i: nat, j: nat)
    requires Run(ws, es) && i < j < |es| && es[i] == Switch && es[j] == Switch && Live(ws[i], id, k)
    requires Away(ws, id, i + 1, j) && id in ws[j + 1].tasks && ws[j + 1].tasks[id] == ws[i].tasks[id]
    requires ws[i + 1].tasks == ws[i].tasks && (k > 0 || forall m | i < m < j :: !Edits(es[m], id))
    ensures Untouched(ws, es, id, k, i, j + 1)
  {
    hide Step, Inv;
    forall m | i <= m <= j + 1
      ensures Live(ws[m], id, k) && (m <= j ==> !Writes(ws[m], es[m], id, k))
    {
      if i < m <= j {
        assert Away(ws, id, i + 1, m);
        AwayKeeps(ws, es, id, i + 1, m);
        assert m < j ==> k > 0 || !Edits(es[m], id);
      }
    }
  }

  /** No step changes the addresses that the assembly loads. */
  lemma {:induction false} SymbolsStay(ws: seq<World>, es: seq<Event>, i: nat)
    requires Run(ws, es) && i < |ws|
    ensures ws[i].m.symbols == ws[0].m.symbols
  {
    if i > 0 {
      SymbolsStay(ws, es, i - 1);
      StepOf(ws, es, i - 1);
      SymbolsStep(ws[i - 1], es[i - 1], ws[i]);
    }
  }

  lemma SymbolsStep(w: World, e: Event, v: World)
    requires Step(w, e, v)
    ensures v.m.symbols == w.m.symbols
  {}

  /** Where the saved context of a new task goes on, and its s0 and s1 if it is a kernel thread. */
  predicate NewContext(t: seq<nat>, e: Event, symbols: Symbols)
    requires e.Fork? || e.ForkThread?
  {
    && |t| == 14 && t[1] == e.stack + THREAD_SIZE - PT_SIZE
    && t[0] == (if e.Fork? then symbols.retFromFork else symbols.retFromKernelThread)
    && (e.ForkThread? ==> t[2] == e.fn && t[3] == e.arg)
  }

  lemma NewTaskStep(w: World, e: Event, v: World)
    requires Inv(w) && Step(w, e, v) && (e.Fork? || e.ForkThread?)
    ensures e.child in v.m.threads && NewContext(v.m.threads[e.child], e, w.m.symbols)
  {
    hide PhaseOk, TasksOk, ThreadsOk, NewStack, ForkFrame, ThreadFrame;
  }

  lemma SavedStart(x: seq<nat>)
    requires |x| == 32
    ensures CalleeSaved(x)[..4] == [x[1], x[2], x[8], x[9]]
  {}

  /** The first switch to a new task goes to ret_from_fork or ret_from_kernel_thread, with sp at its frame;
    a kernel thread has its function in s0 and the argument in s1. */
  lemma ForkStarts(ws: seq<World>, es: seq<Event>, f: nat, j: nat)
    requires Run(ws, es) && f < j < |es| && (es[f].Fork? || es[f].ForkThread?) && es[j] == Switch
    requires ws[j + 1].cur == es[f].child && Away(ws, es[f].child, f + 1, j)
    ensures |ws[j + 1].m.core.x| == 32
    ensures var d, e, symbols := ws[j + 1].m.core, es[f], ws[0].m.symbols;
            && d.pc == (if e.Fork? then symbols.retFromFork else symbols.retFromKernelThread)
            && d.x[2] == e.stack + THREAD_SIZE - PT_SIZE && d.x[4] == e.child
            && (e.ForkThread? ==> d.x[8] == e.fn && d.x[9] == e.arg)
  {
    hide Step, Inv, CalleeSaved;
    SymbolsStay(ws, es, f);
    RunInv(ws, es, f);
    StepOf(ws, es, f);
    NewTaskStep(ws[f], es[f], ws[f + 1]);
    AwayKeeps(ws, es, es[f].child, f + 1, j);
    RunInv(ws, es, j);
    StepOf(ws, es, j);
    SwitchStep(ws[j], ws[j + 1]);
    assert ws[j].cur != es[f].child;
    SavedStart(ws[j + 1].m.core.x);
  }
}
