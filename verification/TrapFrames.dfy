/** The trap frame and the assembly that fills and empties it (64-bit registers).

  A hart executes SAVE_ALL, the start of handle_exception, ret_from_exception and RESTORE_ALL
  instruction by instruction on its registers, CSRs and word-addressed memory.  The two macros are
  tables of (register, offset) pairs in the order of their REG_S and REG_L lines.
 */
module TrapFrames {
  import opened Bits

  const THREAD_SIZE: int := 8192
  const PT_SIZE: int := 280
  const PT_SEPC: int := 0
  const PT_SP: int := 16
  const PT_A0: int := 80
  const PT_SSTATUS: int := 256
  const PT_SBADADDR: int := 264
  const PT_SCAUSE: int := 272
  const SR_FS: int := 0x6000

  // ----- sstatus -----

  const UIE: nat := 0
  const IE: nat := 1
  const PIE: nat := 5
  const PS: nat := 8

  function Has(status: nat, bit: nat): bool { Bit(status, bit) == 1 }

  /** The hardware's update of sstatus when a trap is taken: PIE gets the interrupt enable of the mode
    that was interrupted. */
  function TrapStatus(status: nat, user: bool): nat {
    SetBit(SetBit(SetBit(status, PIE, Has(status, if user then UIE else IE)), IE, false), PS, !user)
  }

  /** The hardware's update of sstatus on sret: the interrupt enable of the mode returned to gets PIE. */
  function SretStatus(status: nat): nat {
    SetBit(SetBit(SetBit(status, if Has(status, PS) then IE else UIE, Has(status, PIE)), PIE, true), PS, false)
  }

  function ClearFs(status: nat): nat { SetBit(SetBit(status, 13, false), 14, false) }

  lemma TrapStatusBits(status: nat, user: bool)
    ensures Has(TrapStatus(status, user), PS) == !user && !Has(TrapStatus(status, user), IE)
  {
    var s1 := SetBit(status, PIE, Has(status, if user then UIE else IE));
    SetBits(s1, IE, false, 0);
    SetBits(SetBit(s1, IE, false), PS, !user, 0);
  }

  /** Taking a trap and returning from it restores every bit but PIE and PS, if the supervisor's interrupt
    enable is off in user mode, where it has no effect. */
  lemma TrapThenSret(status: nat, user: bool, j: nat)
    requires j != PIE && j != PS && (user ==> !Has(status, IE))
    ensures Has(SretStatus(TrapStatus(status, user)), j) == Has(status, j)
  {
    var e := if user then UIE else IE;
    var s1 := SetBit(status, PIE, Has(status, e));
    var s2 := SetBit(s1, IE, false);
    var s3 := TrapStatus(status, user);
    SetBits(status, PIE, Has(status, e), j);
    SetBits(s1, IE, false, j);
    SetBits(s2, PS, !user, j);
    var s4 := SetBit(s3, e, Has(s3, PIE));
    var s5 := SetBit(s4, PIE, true);
    SetBits(s3, e, Has(s3, PIE), j);
    SetBits(s4, PIE, true, j);
    SetBits(s5, PS, false, j);
  }

  /** sret to user mode leaves the supervisor's interrupt enable alone. */
  lemma SretToUser(status: nat)
    requires !Has(status, PS) && !Has(status, IE)
    ensures !Has(SretStatus(status), IE)
  {
    var s4 := SetBit(status, UIE, Has(status, PIE));
    SetBits(status, UIE, Has(status, PIE), 0);
    SetBits(s4, PIE, true, 0);
    SetBits(SetBit(s4, PIE, true), PS, false, 0);
  }

  /** Only the two bits of the floating-point state are cleared. */
  lemma ClearFsBits(status: nat, j: nat)
    ensures Has(ClearFs(status), j) == (j != 13 && j != 14 && Has(status, j))
  {
    SetBits(status, 13, false, j);
    SetBits(SetBit(status, 13, false), 14, false, j);
  }

  lemma {:induction false} SetBitsAll(s: nat, k: nat, b: bool)
    ensures forall j :: Has(SetBit(s, k, b), j) == if j == k then b else Has(s, j)
  {
    forall j
      ensures Has(SetBit(s, k, b), j) == if j == k then b else Has(s, j)
    {
      SetBits(s, k, b, j);
    }
  }

  lemma ClearFsKeeps(status: nat)
    ensures Has(ClearFs(status), IE) == Has(status, IE) && Has(ClearFs(status), PS) == Has(status, PS)
  {
    SetBits(status, 13, false, 0);
    SetBits(SetBit(status, 13, false), 14, false, 0);
  }

  lemma {:induction false} SetBits(s: nat, k: nat, b: bool, j: nat)
    ensures var s' := SetBit(s, k, b);
            && Has(s', j) == (if j == k then b else Has(s, j))
            && Has(s', IE) == (if IE == k then b else Has(s, IE))
            && Has(s', PIE) == (if PIE == k then b else Has(s, PIE))
            && Has(s', PS) == (if PS == k then b else Has(s, PS))
  {
    SetBitBit(s, k, b, j);
    SetBitBit(s, k, b, IE);
    SetBitBit(s, k, b, PIE);
    SetBitBit(s, k, b, PS);
  }

  // ----- frames in memory -----

  type Memory = map<int, nat>

  function Load(mem: Memory, a: int): nat { if a in mem then mem[a] else 0 }

  /** `struct pt_regs`; x[0] is not stored. */
  datatype PtRegs = PtRegs(x: seq<nat>, sepc: nat, status: nat, badaddr: nat, cause: nat)

  /** The field at byte offset 8*i. */
  function Field(r: PtRegs, i: int): nat
    requires |r.x| == 32 && 0 <= i < 35
  {
    if i == 0 then r.sepc
    else if i < 32 then r.x[i]
    else if i == 32 then r.status
    else if i == 33 then r.badaddr
    else r.cause
  }

  ghost predicate FrameAt(mem: Memory, base: int, r: PtRegs) {
    |r.x| == 32 && forall i | 0 <= i < 35 :: Load(mem, base + 8 * i) == Field(r, i)
  }

  /** Only words from lo up to hi differ. */
  ghost predicate OnlyWithin(mem: Memory, mem': Memory, lo: int, hi: int) {
    forall a | a < lo || a >= hi :: Load(mem', a) == Load(mem, a)
  }

  lemma FrameWords(mem: Memory, base: int, r: PtRegs)
    requires FrameAt(mem, base, r)
    ensures |r.x| == 32 && forall n | 1 <= n < 32 :: Load(mem, base + 8 * n) == r.x[n]
    ensures Load(mem, base) == r.sepc && Load(mem, base + 256) == r.status
    ensures Load(mem, base + 264) == r.badaddr && Load(mem, base + 272) == r.cause
  {
    assert Load(mem, base + 8 * 0) == Field(r, 0) && Load(mem, base + 8 * 32) == Field(r, 32);
    assert Load(mem, base + 8 * 33) == Field(r, 33) && Load(mem, base + 8 * 34) == Field(r, 34);
    forall n | 1 <= n < 32
      ensures Load(mem, base + 8 * n) == r.x[n]
    {
      assert Load(mem, base + 8 * n) == Field(r, n);
    }
  }

  ghost predicate OnlyFrame(mem: Memory, mem': Memory, base: int) { OnlyWithin(mem, mem', base, base + PT_SIZE) }

  ghost predicate FrameStored(mem: Memory, mem': Memory, base: int, r: PtRegs) {
    FrameAt(mem', base, r) && OnlyFrame(mem, mem', base)
  }

  lemma StoredAfter(m: Memory, n: Memory, p: Memory, base: int, r: PtRegs)
    requires OnlyFrame(m, n, base) && FrameStored(n, p, base, r)
    ensures FrameStored(m, p, base, r)
  {}

  /** The frame at base has not been written. */
  ghost predicate SameFrame(mem: Memory, mem': Memory, base: int) {
    forall i | 0 <= i < 35 :: Load(mem', base + 8 * i) == Load(mem, base + 8 * i)
  }

  // ----- what one hart does, as relations on its state -----

  datatype Core = Core(x: seq<nat>, pc: nat, user: bool, sscratch: nat, status: nat, sepc: nat, badaddr: nat,
                       cause: nat, mem: Memory)

  /** The hardware part of a trap. */
  predicate Trapped(c: Core, d: Core, cause: nat, badaddr: nat) {
    d == c.(sepc := c.pc, cause := cause, badaddr := badaddr, status := TrapStatus(c.status, c.user), user := false)
  }

  /** The stack SAVE_ALL continues on: the one in sscratch, or the current one if that is 0. */
  function KernelSp(c: Core): nat
    requires |c.x| == 32
  {
    if c.sscratch != 0 then c.sscratch else c.x[2]
  }

  /** SAVE_ALL */
  ghost predicate SavedAll(c: Core, d: Core) {
    && |c.x| == 32 && PT_SIZE <= KernelSp(c)
    && var sp := KernelSp(c) - PT_SIZE;
       && FrameStored(c.mem, d.mem, sp, PtRegs(c.x, c.sepc, c.status, c.badaddr, c.cause))
       && d == c.(x := c.x[2 := sp][5 := SR_FS][8 := c.x[2]][9 := c.status]
                         [18 := c.sepc][19 := c.badaddr][20 := c.cause],
                  sscratch := c.x[2], status := ClearFs(c.status), mem := d.mem)
  }

  lemma SavedAllWords(c: Core, d: Core)
    requires SavedAll(c, d)
    ensures |c.x| == |d.x| == 32
    ensures var sp := (if c.sscratch != 0 then c.sscratch else c.x[2]) - 280;
            && d.x[2] == sp && d.x[18] == c.sepc && d.x[19] == c.badaddr && d.x[20] == c.cause
            && (forall n | 0 <= n < 32 && n !in {2, 5, 8, 9, 18, 19, 20} :: d.x[n] == c.x[n])
            && (forall n | 1 <= n < 32 :: Load(d.mem, sp + 8 * n) == c.x[n])
            && Load(d.mem, sp) == c.sepc && Load(d.mem, sp + 256) == c.status
            && Load(d.mem, sp + 264) == c.badaddr && Load(d.mem, sp + 272) == c.cause
            && (forall a | a < sp || a >= sp + 280 :: Load(d.mem, a) == Load(c.mem, a))
    ensures forall j :: Has(d.status, j) == (j != 13 && j != 14 && Has(c.status, j))
    ensures d.sscratch == c.x[2]
  {
    hide FrameAt, ClearFs, Has;
    FrameWords(d.mem, KernelSp(c) - 280, PtRegs(c.x, c.sepc, c.status, c.badaddr, c.cause));
    forall j
      ensures Has(d.status, j) == (j != 13 && j != 14 && Has(c.status, j))
    {
      ClearFsBits(c.status, j);
    }
  }

  /** From the end of SAVE_ALL to the branch on the cause. */
  predicate ScratchCleared(c: Core, d: Core, gp: nat, ra: nat) {
    && |c.x| == 32
    && d == c.(sscratch := 0, x := c.x[4 := Load(c.mem, c.x[2] - c.x[2] % THREAD_SIZE)][3 := gp][1 := ra])
  }

  const EXC_SYSCALL: nat := 8

  /** handle_syscall, up to the call: only sepc changes in the frame. */
  predicate EcallEntered(c: Core, d: Core) {
    && |c.x| == 32
    && var pc := AfterEcall(c.x[18]);
       d == c.(x := c.x[18 := pc], mem := c.mem[c.x[2] + PT_SEPC := pc], status := SetBit(c.status, IE, true))
  }

  /** ret_from_syscall: only a0 changes in the frame. */
  predicate EcallLeft(c: Core, d: Core) {
    |c.x| == 32 && d == c.(mem := c.mem[c.x[2] + PT_A0 := c.x[10]])
  }

  /** ret_from_exception, up to restore_all. */
  predicate ReturnBegun(c: Core, d: Core) {
    && |c.x| == 32 && |d.x| == 32 && (forall i | 0 <= i < 32 && i != 8 && i != 9 :: d.x[i] == c.x[i])
    && var toUser := !Has(Load(c.mem, c.x[2] + PT_SSTATUS), PS);
       d == c.(x := d.x, status := SetBit(c.status, IE, false),
               sscratch := if toUser then c.x[2] + PT_SIZE else c.sscratch)
  }

  /** The CSR lines of RESTORE_ALL. */
  predicate CsrsRestored(c: Core, d: Core) {
    && |c.x| == 32
    && var status, sepc := Load(c.mem, c.x[2] + PT_SSTATUS), Load(c.mem, c.x[2] + PT_SEPC);
       d == c.(x := c.x[10 := status][12 := sepc], status := status, sepc := sepc)
  }

  /** The register lines of RESTORE_ALL, and sret. */
  predicate Sreturned(c: Core, d: Core) {
    && |c.x| == 32 && |d.x| == 32 && d.x[0] == c.x[0]
    && (forall i | 1 <= i < 32 :: d.x[i] == Load(c.mem, c.x[2] + 8 * i))
    && d == c.(x := d.x, pc := c.sepc, user := !Has(c.status, PS), status := SretStatus(c.status))
  }

  /** The registers __switch_to saves and restores: ra, sp, s0 to s11. */
  const CALLEE_SAVED: seq<nat> := [1, 2, 8, 9, 18, 19, 20, 21, 22, 23, 24, 25, 26, 27]

  function CalleeSaved(x: seq<nat>): (t: seq<nat>)
    requires |x| == 32
    ensures |t| == 14 && t[0] == x[1] && t[1] == x[2]
  {
    [x[1], x[2], x[8], x[9], x[18], x[19], x[20], x[21], x[22], x[23], x[24], x[25], x[26], x[27]]
  }

  lemma CalleeSavedAre(x: seq<nat>, t: seq<nat>)
    requires |x| == 32 && |t| == 14 && forall j | 0 <= j < 14 :: x[CALLEE_SAVED[j]] == t[j]
    ensures CalleeSaved(x) == t
  {
    assert forall j | 0 <= j < 14 :: CalleeSaved(x)[j] == x[CALLEE_SAVED[j]];
  }

  /** The words are ra, sp, s0, s1 and s2 to s11. */
  lemma CalleeSavedWords(x: seq<nat>)
    requires |x| == 32
    ensures var t := CalleeSaved(x);
            && |t| == 14 && t[0] == x[1] && t[1] == x[2] && t[2] == x[8] && t[3] == x[9]
            && forall n | 18 <= n <= 27 :: t[n - 14] == x[n]
  {}

  lemma TpNotSaved(x: seq<nat>, v: nat)
    requires |x| == 32
    ensures CalleeSaved(x[4 := v]) == CalleeSaved(x) && 11 !in CALLEE_SAVED
  {}

  /** The thread_struct of each task: CALLEE_SAVED in that order. */
  type Threads = map<nat, seq<nat>>

  /** __switch_to, with a0 and a1 holding the two tasks. */
  predicate Switched(c: Core, ts: Threads, d: Core, ts': Threads) {
    && |c.x| == 32 && |d.x| == 32 && c.x[10] in ts && c.x[11] in ts
    && ts' == ts[c.x[10] := CalleeSaved(c.x)]
    && CalleeSaved(d.x) == ts'[c.x[11]] && d.x[4] == c.x[11]
    && (forall i | 0 <= i < 32 && i !in CALLEE_SAVED && i != 4 :: d.x[i] == c.x[i])
    && d == c.(x := d.x, pc := d.x[1])
  }

  lemma SwitchedCore(c: Core, ts: Threads, d: Core, ts': Threads)
    requires Switched(c, ts, d, ts')
    ensures |c.x| == |d.x| == 32 && d.x[0] == c.x[0] && d.x[4] == c.x[11] && d.pc == d.x[1] && d.mem == c.mem
    ensures ts' == ts[c.x[10] := CalleeSaved(c.x)] && c.x[11] in ts' && ts'[c.x[11]] == CalleeSaved(d.x)
    ensures d == c.(x := d.x, pc := d.pc)
  {
    hide CalleeSaved;
    assert 0 !in CALLEE_SAVED;
  }

  /** Word i of the frame copy_thread leaves for a user task that copies the frame at parent. */
  function ForkWord(mem: Memory, parent: int, usp: nat, settls: bool, i: int): nat {
    if i == 10 then 0
    else if i == 4 && settls then Load(mem, parent + 120)
    else if i == 2 && usp != 0 then usp
    else Load(mem, parent + 8 * i)
  }

  /** Word i of the frame copy_thread makes up for a kernel thread: supervisor mode, interrupts on. */
  function ThreadWord(gp: nat, i: int): nat { if i == 3 then gp else if i == 32 then 0x120 else 0 }

  ghost predicate ForkFrame(mem: Memory, mem': Memory, parent: int, base: int, usp: nat, settls: bool) {
    forall i | 0 <= i < 35 :: Load(mem', base + 8 * i) == ForkWord(mem, parent, usp, settls, i)
  }

  ghost predicate ThreadFrame(mem: Memory, base: int, gp: nat) {
    forall i | 0 <= i < 35 :: Load(mem, base + 8 * i) == ThreadWord(gp, i)
  }

  lemma ForkFrameWords(mem: Memory, mem': Memory, parent: int, base: int, usp: nat, settls: bool)
    requires ForkFrame(mem, mem', parent, base, usp, settls)
    ensures Load(mem', base + 80) == 0 && Load(mem', base + 32) == Load(mem, parent + if settls then 120 else 32)
    ensures Load(mem', base + 16) == if usp != 0 then usp else Load(mem, parent + 16)
    ensures forall i | 0 <= i < 35 && i !in {2, 4, 10} :: Load(mem', base + 8 * i) == Load(mem, parent + 8 * i)
  {
    assert Load(mem', base + 8 * 10) == ForkWord(mem, parent, usp, settls, 10);
    assert Load(mem', base + 8 * 4) == ForkWord(mem, parent, usp, settls, 4);
    assert Load(mem', base + 8 * 2) == ForkWord(mem, parent, usp, settls, 2);
    forall i | 0 <= i < 35 && i !in {2, 4, 10}
      ensures Load(mem', base + 8 * i) == Load(mem, parent + 8 * i)
    {
      assert Load(mem', base + 8 * i) == ForkWord(mem, parent, usp, settls, i);
    }
  }

  lemma ThreadFrameWords(mem: Memory, base: int, gp: nat)
    requires ThreadFrame(mem, base, gp)
    ensures Load(mem, base + 24) == gp && Load(mem, base + 256) == 0x120
    ensures forall i | 0 <= i < 35 && i != 3 && i != 32 :: Load(mem, base + 8 * i) == 0
  {
    assert Load(mem, base + 8 * 3) == ThreadWord(gp, 3) && Load(mem, base + 8 * 32) == ThreadWord(gp, 32);
    forall i | 0 <= i < 35 && i != 3 && i != 32
      ensures Load(mem, base + 8 * i) == 0
    {
      assert Load(mem, base + 8 * i) == ThreadWord(gp, i);
    }
  }

  const ZEROES: seq<nat> := [0, 0, 0, 0, 0, 0, 0, 0, 0, 0, 0, 0, 0, 0, 0, 0,
                              0, 0, 0, 0, 0, 0, 0, 0, 0, 0, 0, 0, 0, 0, 0, 0]

  /** thread_struct of a new task; t was copied from its parent. */
  function ChildThread(t: seq<nat>, kthread: bool, childregs: nat, usp: nat, arg: nat, ra: nat): seq<nat>
    requires |t| == 14
  {
    if kthread then t[0 := ra][2 := usp][3 := arg][1 := childregs] else t[0 := ra][1 := childregs]
  }

  /** start_thread: user mode, interrupts on, floating point in its initial state. */
  function StartThread(mem: Memory, regs: int, pc: nat, sp: nat): Memory {
    mem[regs + PT_SSTATUS := 0x2020][regs + PT_SEPC := pc][regs + PT_SP := sp]
  }

  function AfterEcall(pc: nat): nat { (pc + 4) % W64 }

  // ----- the macros as tables -----

  /** SAVE_ALL: REG_S lines before the CSRs are read. */
  const SAVED: seq<(nat, int)> := [
    (1, 8), (3, 24), (4, 32), (5, 40), (6, 48), (7, 56), (8, 64), (9, 72),
    (10, 80), (11, 88), (12, 96), (13, 104), (14, 112), (15, 120), (16, 128), (17, 136),
    (18, 144), (19, 152), (20, 160), (21, 168), (22, 176), (23, 184), (24, 192), (25, 200),
    (26, 208), (27, 216), (28, 224), (29, 232), (30, 240), (31, 248)]

  /** RESTORE_ALL: REG_L lines after the CSRs are written, up to the last one, which loads sp. */
  const RESTORED: seq<(nat, int)> := [
    (1, 8), (3, 24), (4, 32), (5, 40), (6, 48), (7, 56), (8, 64), (9, 72),
    (10, 80), (11, 88), (12, 96), (13, 104), (14, 112), (15, 120), (16, 128), (17, 136),
    (18, 144), (19, 152), (20, 160), (21, 168), (22, 176), (23, 184), (24, 192), (25, 200),
    (26, 208), (27, 216), (28, 224), (29, 232), (30, 240), (31, 248)]

  /** The line of a macro that moves register i: every register but x0 and sp has one. */
  function Line(i: nat): nat
    requires 1 <= i < 32 && i != 2
  {
    if i == 1 then 0 else i - 2
  }

  /** Entry k moves the register whose line k is, to or from the register's slot in pt_regs. */
  ghost predicate GoodTable(t: seq<(nat, int)>) {
    |t| == 30 && forall k | 0 <= k < 30 ::
      1 <= t[k].0 < 32 && t[k].0 != 2 && Line(t[k].0) == k && t[k].1 == 8 * t[k].0
  }

  lemma TablesAreGood()
    ensures GoodTable(SAVED) && GoodTable(RESTORED)
  {}

  lemma CsrStores(mem: Memory, base: int, r: PtRegs)
    requires |r.x| == 32
    requires forall i | 1 <= i < 32 && i != 2 :: Load(mem, base + 8 * i) == r.x[i]
    ensures var mem' := mem[base + PT_SP := r.x[2]][base + PT_SSTATUS := r.status][base + PT_SEPC := r.sepc]
                        [base + PT_SBADADDR := r.badaddr][base + PT_SCAUSE := r.cause];
            FrameStored(mem, mem', base, r)
  {}

  /** Where an exception or interrupt is handled: by the routine whose address an entry of excp_vect_table
    holds, or by one of three fixed ones. */
  datatype Handler = Irq | Syscall | Vector(entry: nat) | Unknown

  const VECTORS: nat := 10

  /** slli and srli by one drop the most significant bit. */
  lemma DropsMsb(c: nat)
    requires W64 / 2 <= c < W64
    ensures c * 2 % W64 / 2 == c - W64 / 2
  {}

  /** The address of entry c of excp_vect_table, as two instructions compute it: it lies in the table or
    below it unless the offset is beyond the table and adding it does not wrap around. */
  lemma EntryAddress(table: nat, c: nat)
    requires table + 8 * VECTORS < W64
    ensures var a := (table + c * 8 % W64) % W64;
            && a == (table + 8 * c) % W64 && (c < VECTORS ==> a == table + 8 * c)
            && (a >= table + 8 * VECTORS) == (8 * VECTORS <= 8 * c % W64 < W64 - table)
  {
    var offset := c * 8 % W64;
    if table + offset < W64 {
      SmallRest(table + offset);
    } else {
      SmallRest(table + offset - W64);
    }
  }

  lemma SmallRest(a: nat)
    requires a < W64
    ensures a % W64 == a && (a + W64) % W64 == a
  {}

  class Hart {
    var x: seq<nat>
    var pc: nat
    var user: bool
    var sscratch: nat
    var status: nat
    var sepc: nat
    var sbadaddr: nat
    var scause: nat
    var mem: Memory
    var threads: Threads
    const gp: nat
    const retFromException: nat
    const retFromFork: nat
    const retFromKernelThread: nat

    constructor (pc: nat, mem: Memory, gp: nat, retFromException: nat, retFromFork: nat, retFromKernelThread: nat)
      ensures |x| == 32 && x[0] == 0 && this.pc == pc && this.mem == mem && !user && sscratch == 0 && threads == map[]
      ensures this.gp == gp && this.retFromException == retFromException
      ensures this.retFromFork == retFromFork && this.retFromKernelThread == retFromKernelThread
    {
      this.gp, this.retFromException := gp, retFromException;
      this.retFromFork, this.retFromKernelThread := retFromFork, retFromKernelThread;
      x, threads := ZEROES, map[];
      this.pc, this.mem := pc, mem;
      user, sscratch, status, sepc, sbadaddr, scause := false, 0, 0, 0, 0, 0;
    }

    function State(): Core
      reads this
    {
      Core(x, pc, user, sscratch, status, sepc, sbadaddr, scause, mem)
    }

    // ----- entry -----

    /** The hardware part of a trap. */
    method TakeTrap(cause: nat, badaddr: nat)
      modifies this`sepc, this`scause, this`sbadaddr, this`status, this`user
      ensures Trapped(old(State()), State(), cause, badaddr)
    {
      sepc, scause, sbadaddr := pc, cause, badaddr;
      status := TrapStatus(status, user);
      user := false;
    }

    /** SAVE_ALL */
    method SaveAll()
      requires |x| == 32 && PT_SIZE <= KernelSp(State())
      modifies this`x, this`sscratch, this`status, this`mem
      ensures SavedAll(old(State()), State())
      ensures var sp := (if old(sscratch) != 0 then old(sscratch) else old(x[2])) - 280;
              && |x| == 32 && x[2] == sp && x[18] == sepc && x[19] == sbadaddr && x[20] == scause
              && (forall n | 0 <= n < 32 && n !in {2, 5, 8, 9, 18, 19, 20} :: x[n] == old(x[n]))
              && (forall n | 1 <= n < 32 :: Load(mem, sp + 8 * n) == old(x[n]))
              && Load(mem, sp) == sepc && Load(mem, sp + 256) == old(status)
              && Load(mem, sp + 264) == sbadaddr && Load(mem, sp + 272) == scause
              && (forall a | a < sp || a >= sp + 280 :: Load(mem, a) == Load(old(mem), a))
      ensures sscratch == old(x[2]) && sepc == old(sepc) && sbadaddr == old(sbadaddr) && scause == old(scause)
      ensures forall j :: Has(status, j) == (j != 13 && j != 14 && Has(old(status), j))
    {
      hide ClearFs, FrameStored, OnlyFrame;
      ghost var c := State();
      sscratch, x := x[2], x[2 := sscratch];
      if x[2] == 0 {
        x := x[2 := sscratch];
      }
      x := x[2 := x[2] - PT_SIZE];
      StoreRegisters();
      assert x[2 := sscratch] == old(x);
      ghost var mid := mem;
      ReadAndStoreCsrs();
      StoredAfter(old(mem), mid, mem, x[2], PtRegs(c.x, sepc, c.status, sbadaddr, scause));
      SavedAllWords(c, State());
    }

    /** The REG_S lines of SAVE_ALL up to x31. */
    method StoreRegisters()
      requires |x| == 32
      modifies this`mem
      ensures OnlyFrame(old(mem), mem, x[2])
      ensures forall i | 1 <= i < 32 && i != 2 :: Load(mem, x[2] + 8 * i) == x[i]
    {
      TablesAreGood();
      for k := 0 to |SAVED|
        invariant OnlyFrame(old(mem), mem, x[2])
        invariant forall i | 1 <= i < 32 && i != 2 && Line(i) < k :: Load(mem, x[2] + 8 * i) == x[i]
      {
        mem := mem[x[2] + SAVED[k].1 := x[SAVED[k].0]];
      }
    }

    /** The second half of SAVE_ALL: the CSRs are read and stored, and with them the interrupted sp. */
    method ReadAndStoreCsrs()
      requires |x| == 32
      requires forall i | 1 <= i < 32 && i != 2 :: Load(mem, x[2] + 8 * i) == x[i]
      modifies this`x, this`status, this`mem
      ensures FrameStored(old(mem), mem, old(x[2]), PtRegs(old(x)[2 := sscratch], sepc, old(status), sbadaddr, scause))
      ensures x == old(x)[5 := SR_FS][8 := sscratch][9 := old(status)][18 := sepc][19 := sbadaddr][20 := scause]
      ensures status == ClearFs(old(status))
    {
      hide ClearFs, FrameStored;
      ghost var r := PtRegs(x[2 := sscratch], sepc, status, sbadaddr, scause);
      ReadCsrs();
      StoreCsrs(r);
    }

    method ReadCsrs()
      requires |x| == 32
      modifies this`x, this`status
      ensures x == old(x)[5 := SR_FS][8 := sscratch][9 := old(status)][18 := sepc][19 := sbadaddr][20 := scause]
      ensures status == ClearFs(old(status))
    {
      hide ClearFs;
      x := x[5 := SR_FS];
      x := x[8 := sscratch];
      x, status := x[9 := status], ClearFs(status);
      x := x[18 := sepc];
      x := x[19 := sbadaddr];
      x := x[20 := scause];
    }

    method StoreCsrs(ghost r: PtRegs)
      requires |x| == |r.x| == 32 && forall i | 1 <= i < 32 && i != 2 :: Load(mem, x[2] + 8 * i) == r.x[i]
      requires x[8] == r.x[2] && x[9] == r.status && x[18] == r.sepc && x[19] == r.badaddr && x[20] == r.cause
      modifies this`mem
      ensures FrameStored(old(mem), mem, x[2], r)
    {
      hide FrameStored;
      CsrStores(mem, x[2], r);
      mem := mem[x[2] + PT_SP := x[8]];
      mem := mem[x[2] + PT_SSTATUS := x[9]];
      mem := mem[x[2] + PT_SEPC := x[18]];
      mem := mem[x[2] + PT_SBADADDR := x[19]];
      mem := mem[x[2] + PT_SCAUSE := x[20]];
    }

    /** sscratch shows that the kernel runs; tp is found through the thread_info below sp. */
    method ClearScratch()
      requires |x| == 32
      modifies this`x, this`sscratch
      ensures ScratchCleared(old(State()), State(), gp, retFromException)
      ensures sscratch == 0 && |x| == 32 && x[3] == gp && x[1] == retFromException
      ensures x[4] == Load(mem, old(x[2]) - old(x[2]) % 8192)
      ensures forall n | 0 <= n < 32 && n !in {1, 3, 4} :: x[n] == old(x[n])
    {
      sscratch := 0;
      x := x[4 := x[2] - x[2] % THREAD_SIZE];
      x := x[4 := Load(mem, x[4])];
      x := x[3 := gp];
      x := x[1 := retFromException];
    }

    /** The branch on the cause: its most significant bit tells interrupts from exceptions, and exceptions
      index excp_vect_table, which stands at `table`. */
    method Dispatch(table: nat) returns (to: Handler)
      requires |x| == 32 && x[20] < W64 && table + 8 * VECTORS < W64
      modifies this`x
      ensures |x| == 32 && forall i | 0 <= i < 32 && i !in [5, 6, 7, 10, 11] :: x[i] == old(x[i])
      ensures x[20] >= W64 / 2 ==> to == Irq && x[10] == x[20] - W64 / 2 && x[11] == x[2]
      ensures x[20] == EXC_SYSCALL ==> to == Syscall && forall i | 10 <= i < 18 :: x[i] == old(x[i])
      ensures x[20] < W64 / 2 && x[20] != EXC_SYSCALL ==> x[10] == x[2]
      ensures x[20] != EXC_SYSCALL && x[20] < VECTORS ==> to == Vector(table + 8 * x[20])
      ensures x[20] < W64 / 2 && x[20] != EXC_SYSCALL ==>
                if 8 * VECTORS <= 8 * x[20] % W64 < W64 - table then to == Unknown
                else to == Vector((table + 8 * x[20]) % W64)
    {
      if x[20] >= W64 / 2 {
        DropsMsb(x[20]);
        x := x[10 := x[20] * 2 % W64];
        x := x[10 := x[10] / 2];
        x := x[11 := x[2]];
        return Irq;
      }
      x := x[5 := EXC_SYSCALL];
      if x[20] == x[5] {
        return Syscall;
      }
      EntryAddress(table, x[20]);
      x := x[5 := x[20] * 8 % W64];
      x := x[6 := table];
      x := x[7 := table + 8 * VECTORS];
      x := x[10 := x[2]];
      x := x[5 := (x[6] + x[5]) % W64];
      return if x[5] >= x[7] then Unknown else Vector(x[5]);
    }

    /** A whole trap, up to the branch on the cause. */
    method EnterHandler(cause: nat, badaddr: nat)
      requires |x| == 32 && PT_SIZE <= KernelSp(State())
      modifies this`sepc, this`scause, this`sbadaddr, this`status, this`user, this`x, this`sscratch, this`mem
      ensures exists c, d :: Trapped(old(State()), c, cause, badaddr) && SavedAll(c, d)
                             && ScratchCleared(d, State(), gp, retFromException)
    {
      TakeTrap(cause, badaddr);
      ghost var c := State();
      SaveAll();
      ghost var d := State();
      ClearScratch();
      assert SavedAll(c, d);
    }

    /** handle_syscall, up to the call: step over the ecall instruction, turn interrupts on. */
    method SyscallEnter()
      requires |x| == 32
      modifies this`x, this`mem, this`status
      ensures EcallEntered(old(State()), State())
      ensures mem == old(mem)[old(x[2]) := (old(x[18]) + 4) % W64]
      ensures forall j :: Has(status, j) == (j == 1 || Has(old(status), j))
    {
      hide SetBit, Has;
      SetBitsAll(status, IE, true);
      x := x[18 := AfterEcall(x[18])];
      mem := mem[x[2] + PT_SEPC := x[18]];
      status := SetBit(status, IE, true);
    }

    /** ret_from_syscall: hand the result to the user. */
    method SyscallExit()
      requires |x| == 32
      modifies this`mem
      ensures EcallLeft(old(State()), State()) && mem == old(mem)[x[2] + 80 := x[10]]
    {
      mem := mem[x[2] + PT_A0 := x[10]];
    }

    // ----- exit -----

    /** ret_from_exception up to restore_all.  Returning to user mode is put off while the task has work
      pending; the kernel then goes on with that work. */
    method BeginReturn(flags: nat, workPending: bool) returns (leaves: bool)
      requires |x| == 32
      modifies this`x, this`status, this`sscratch
      ensures leaves == (Has(Load(mem, old(x[2]) + PT_SSTATUS), PS) || !workPending)
      ensures leaves ==> ReturnBegun(old(State()), State())
      ensures |x| == 32 && (forall i | 0 <= i < 32 && i != 8 && i != 9 :: x[i] == old(x[i]))
      ensures !leaves ==> sscratch == old(sscratch) && status == SetBit(old(status), IE, false)
      ensures forall j :: Has(status, j) == (j != 1 && Has(old(status), j))
      ensures leaves ==>
                sscratch == if Has(Load(mem, old(x[2]) + 256), 8) then old(sscratch) else old(x[2]) + 280
    {
      hide SetBit, Has;
      SetBitsAll(status, IE, false);
      x := x[8 := Load(mem, x[2] + PT_SSTATUS)];
      status := SetBit(status, IE, false);
      if !Has(x[8], PS) {
        x := x[8 := flags];
        x := x[9 := if workPending then 1 else 0];
        if x[9] != 0 {
          return false;
        }
        x := x[8 := x[2] + PT_SIZE];
        sscratch := x[8];
      }
      return true;
    }

    /** The CSR lines of RESTORE_ALL. */
    method RestoreCsrs()
      requires |x| == 32
      modifies this`x, this`status, this`sepc
      ensures CsrsRestored(old(State()), State())
      ensures status == Load(mem, old(x[2]) + 256) && sepc == Load(mem, old(x[2]))
    {
      x := x[10 := Load(mem, x[2] + PT_SSTATUS)];
      x := x[12 := Load(mem, x[2] + PT_SEPC)];
      status := x[10];
      sepc := x[12];
    }

    /** The register lines of RESTORE_ALL, the last of which loads sp, and sret. */
    method RestoreRegisters()
      requires |x| == 32
      modifies this`x, this`user, this`pc, this`status
      ensures Sreturned(old(State()), State())
      ensures |x| == 32 && x[0] == old(x[0]) && forall i | 1 <= i < 32 :: x[i] == Load(mem, old(x[2]) + 8 * i)
      ensures pc == sepc && user == !Has(old(status), 8)
    {
      hide SretStatus;
      LoadRegisters();
      user, pc := !Has(status, PS), sepc;
      status := SretStatus(status);
    }

    method LoadRegisters()
      requires |x| == 32
      modifies this`x
      ensures |x| == 32 && x[0] == old(x[0]) && forall i | 1 <= i < 32 :: x[i] == Load(mem, old(x[2]) + 8 * i)
    {
      TablesAreGood();
      ghost var base := x[2];
      for k := 0 to |RESTORED|
        modifies this`x
        invariant |x| == 32 && x[0] == old(x[0]) && x[2] == base
        invariant forall i | 1 <= i < 32 && i != 2 && Line(i) < k :: x[i] == Load(mem, base + 8 * i)
      {
        x := x[RESTORED[k].0 := Load(mem, x[2] + RESTORED[k].1)];
      }
      x := x[2 := Load(mem, x[2] + PT_SP)];
    }

    /** ret_from_exception to sret. */
    method RetFromException(flags: nat, workPending: bool) returns (left: bool)
      requires |x| == 32
      modifies this`x, this`user, this`pc, this`status, this`sepc, this`sscratch
      ensures left == (Has(Load(mem, old(x[2]) + PT_SSTATUS), PS) || !workPending)
      ensures left ==> exists c, d :: ReturnBegun(old(State()), c) && CsrsRestored(c, d) && Sreturned(d, State())
      ensures !left ==> user == old(user) && sscratch == old(sscratch) && status == SetBit(old(status), IE, false)
    {
      left := BeginReturn(flags, workPending);
      if left {
        ghost var c := State();
        RestoreCsrs();
        ghost var d := State();
        RestoreRegisters();
        assert CsrsRestored(c, d);
      }
    }

    // ----- tasks -----

    /** __switch_to */
    method SwitchTo()
      requires |x| == 32 && x[10] in threads && x[11] in threads
      requires |threads[x[10]]| == 14 && |threads[x[11]]| == 14
      modifies this`x, this`pc, this`threads
      ensures Switched(old(State()), old(threads), State(), threads)
      ensures threads == old(threads)[old(x[10]) := threads[old(x[10])]] && |threads[old(x[10])]| == 14
      ensures var t, y := threads[old(x[10])], old(x);
              && t[0] == y[1] && t[1] == y[2] && t[2] == y[8] && t[3] == y[9]
              && forall n | 18 <= n <= 27 :: t[n - 14] == y[n]
      ensures |x| == 32 && old(x[11]) in threads && |threads[old(x[11])]| == 14
      ensures var t := threads[old(x[11])];
              && pc == t[0] && x[1] == t[0] && x[2] == t[1] && x[8] == t[2] && x[9] == t[3] && x[4] == old(x[11])
              && forall n | 18 <= n <= 27 :: x[n] == t[n - 14]
      ensures forall n | 0 <= n < 32 && n !in {1, 2, 4, 8, 9} && !(18 <= n <= 27) :: x[n] == old(x[n])
    {
      hide CalleeSaved;
      CalleeSavedWords(x);
      SaveContext();
      RestoreContext();
      TpNotSaved(x, x[11]);
      x := x[4 := x[11]];
      pc := x[1];
      CalleeSavedWords(x);
    }

    /** The REG_L half of __switch_to. */
    method RestoreContext()
      requires |x| == 32 && x[11] in threads && |threads[x[11]]| == 14
      modifies this`x
      ensures |x| == 32 && CalleeSaved(x) == threads[old(x[11])]
      ensures forall i | 0 <= i < 32 && i !in CALLEE_SAVED :: x[i] == old(x[i])
    {
      hide CalleeSaved;
      ghost var y := x;
      for k := 0 to |CALLEE_SAVED|
        invariant |x| == 32 && forall j | 0 <= j < k :: x[CALLEE_SAVED[j]] == threads[y[11]][j]
        invariant forall i | 0 <= i < 32 && i !in CALLEE_SAVED :: x[i] == y[i]
      {
        assert 11 !in CALLEE_SAVED;
        x := x[CALLEE_SAVED[k] := threads[x[11]][k]];
      }
      CalleeSavedAre(x, threads[y[11]]);
    }

    /** The REG_S half of __switch_to. */
    method SaveContext()
      requires |x| == 32 && x[10] in threads && |threads[x[10]]| == 14
      modifies this`threads
      ensures threads == old(threads)[x[10] := CalleeSaved(x)]
    {
      for k := 0 to |CALLEE_SAVED|
        invariant x[10] in threads && |threads[x[10]]| == 14 && threads == old(threads)[x[10] := threads[x[10]]]
        invariant forall j | 0 <= j < k :: threads[x[10]][j] == x[CALLEE_SAVED[j]]
      {
        threads := threads[x[10] := threads[x[10]][k := x[CALLEE_SAVED[k]]]];
      }
      assert threads[x[10]] == CalleeSaved(x);
    }

    /** start_thread */
    method StartProgram(regs: int, pc: nat, sp: nat)
      modifies this`mem
      ensures mem == StartThread(old(mem), regs, pc, sp)
      ensures Load(mem, regs) == pc && Load(mem, regs + 16) == sp && Load(mem, regs + 256) == 0x2020
      ensures forall a | a !in {regs, regs + 16, regs + 256} :: Load(mem, a) == Load(old(mem), a)
    {
      mem := mem[regs + PT_SSTATUS := 0x2020];
      mem := mem[regs + PT_SEPC := pc];
      mem := mem[regs + PT_SP := sp];
    }

    /** copy_thread; parent is current_pt_regs() and threads[p] already a copy of the parent's. */
    method CopyThread(kthread: bool, usp: nat, arg: nat, settls: bool, p: nat, stack: nat, parent: nat)
      requires |x| == 32 && p in threads && |threads[p]| == 14
      requires !kthread ==> parent + PT_SIZE <= stack || stack + THREAD_SIZE <= parent
      modifies this`mem, this`threads
      ensures var childregs := stack + THREAD_SIZE - PT_SIZE;
              && OnlyFrame(old(mem), mem, childregs)
              && (kthread ==> ThreadFrame(mem, childregs, x[3]))
              && (!kthread ==> ForkFrame(old(mem), mem, parent, childregs, usp, settls))
              && threads == old(threads)[p := ChildThread(old(threads)[p], kthread, childregs, usp, arg,
                                                          if kthread then retFromKernelThread else retFromFork)]
      ensures var a := stack + 8192 - 280;
              && (kthread ==>
                    && Load(mem, a + 24) == x[3] && Load(mem, a + 256) == 0x120
                    && forall i | 0 <= i < 35 && i != 3 && i != 32 :: Load(mem, a + 8 * i) == 0)
              && (!kthread ==>
                    && Load(mem, a + 80) == 0
                    && Load(mem, a + 32) == Load(old(mem), parent + if settls then 120 else 32)
                    && Load(mem, a + 16) == (if usp != 0 then usp else Load(old(mem), parent + 16))
                    && forall i | 0 <= i < 35 && i !in {2, 4, 10} :: Load(mem, a + 8 * i)
                        == Load(old(mem), parent + 8 * i))
      ensures threads == old(threads)[p := threads[p]] && |threads[p]| == 14
      ensures var t, t0 := threads[p], old(threads)[p];
              && t[1] == stack + 8192 - 280 && t[4..] == t0[4..]
              && (if kthread then t[0] == retFromKernelThread && t[2] == usp && t[3] == arg
                  else t[0] == retFromFork && t[2..4] == t0[2..4])
    {
      hide ForkFrame, ThreadFrame;
      var childregs := stack + THREAD_SIZE - PT_SIZE;
      var t: seq<nat> := threads[p];
      if kthread {
        MakeThreadFrame(childregs);
        t := t[0 := retFromKernelThread];
        t := t[2 := usp];
        t := t[3 := arg];
      } else {
        CopyFrame(parent, childregs);
        MakeForkFrame(old(mem), parent, childregs, usp, settls);
        t := t[0 := retFromFork];
      }
      t := t[1 := childregs];
      threads := threads[p := t];
      if kthread { ThreadFrameWords(mem, childregs, x[3]); }
      else { ForkFrameWords(old(mem), mem, parent, childregs, usp, settls); }
    }

    /** `memset(childregs, 0, ...)` and the two fields set after it */
    method MakeThreadFrame(base: int)
      requires |x| == 32
      modifies this`mem
      ensures OnlyFrame(old(mem), mem, base) && ThreadFrame(mem, base, x[3])
    {
      for k := 0 to 35
        invariant OnlyFrame(old(mem), mem, base)
        invariant forall i | 0 <= i < k :: Load(mem, base + 8 * i) == 0
      {
        mem := mem[base + 8 * k := 0];
      }
      mem := mem[base + 24 := x[3]];
      mem := mem[base + PT_SSTATUS := 0x120];
    }

    /** `*childregs = *current_pt_regs()` */
    method CopyFrame(from: int, to: int)
      requires from + PT_SIZE <= to || to + PT_SIZE <= from
      modifies this`mem
      ensures OnlyFrame(old(mem), mem, to)
      ensures forall i | 0 <= i < 35 :: Load(mem, to + 8 * i) == Load(old(mem), from + 8 * i)
    {
      for k := 0 to 35
        invariant OnlyFrame(old(mem), mem, to)
        invariant forall i | 0 <= i < k :: Load(mem, to + 8 * i) == Load(old(mem), from + 8 * i)
      {
        assert Load(mem, from + 8 * k) == Load(old(mem), from + 8 * k);
        mem := mem[to + 8 * k := Load(mem, from + 8 * k)];
      }
    }

    /** The fields copy_thread changes in the copied frame. */
    method MakeForkFrame(ghost was: Memory, ghost parent: int, base: int, usp: nat, settls: bool)
      requires forall i | 0 <= i < 35 :: Load(mem, base + 8 * i) == Load(was, parent + 8 * i)
      modifies this`mem
      ensures OnlyFrame(old(mem), mem, base) && ForkFrame(was, mem, parent, base, usp, settls)
    {
      assert Load(mem, base + 8 * 15) == Load(was, parent + 8 * 15);
      if usp != 0 {
        mem := mem[base + PT_SP := usp];
      }
      if settls {
        mem := mem[base + 32 := Load(mem, base + 120)];
      }
      mem := mem[base + PT_A0 := 0];
    }
  }
}
