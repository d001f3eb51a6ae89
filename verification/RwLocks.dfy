/** Reader/writer locks built from LR/SC and AMO instructions.

  Every CPU steps through the assembly of one lock routine; instructions of different CPUs
  interleave freely.  Fences and the aq/rl bits are taken as giving sequential consistency.  A CPU
  holds at most one reservation; any write to the lock word cancels all of them, and a
  store-conditional may fail although its reservation is intact.
 */
module RwLocks {
  import opened Counting

  const MAX_INT: int := 0x7FFF_FFFF

  /** The 32-bit two's complement value of the low bits of x, as lr.w reads it back. */
  function Wrap32(x: int): int { (x + 0x8000_0000) % 0x1_0000_0000 - 0x8000_0000 }

  datatype Routine = ReadLock | WriteLock | ReadTrylock | WriteTrylock {
    predicate Reads() { this == ReadLock || this == ReadTrylock }
    predicate Try() { this == ReadTrylock || this == WriteTrylock }
  }

  /** Program counter and the one scratch register of a routine.
      Start: before lr.w.  Loaded: after lr.w.  Ready: before sc.w.  Tested: after sc.w.
      Returned: after the routine, its scratch register being `busy` for a trylock. */
  datatype Pc =
    | Outside
    | Start(r: Routine)
    | Loaded(r: Routine, tmp: int)
    | Ready(r: Routine, tmp: int)
    | Tested(r: Routine, tmp: int)
    | Returned(r: Routine, busy: int)

  /** `reserved` is the CPU's reservation on the lock word; `mode` records, apart from the program
    counter, whether its store to the lock word took the lock. */
  datatype Mode = None | Reader | Writer

  datatype Cpu = Cpu(pc: Pc, reserved: bool, mode: Mode)

  datatype State = State(lock: int, cpus: seq<Cpu>)

  datatype Step =
    | Call(c: nat, r: Routine)
    | LoadReserved(c: nat)
    | Branch(c: nat)
    | StoreConditional(c: nat, spurious: bool)
    | Retry(c: nat)
    | GiveUp(c: nat)
    | ReadUnlock(c: nat)
    | WriteUnlock(c: nat)

  /** The caller of a routine may treat the lock as taken: a lock routine has returned, or a trylock
    has returned `!busy == 1`. */
  predicate Succeeded(pc: Pc) { pc.Returned? && (pc.r.Try() ==> pc.busy == 0) }

  predicate Enabled(st: State, step: Step) {
    step.c < |st.cpus| &&
    var pc := st.cpus[step.c].pc;
    match step
    case Call(_, _) => pc == Outside
    case LoadReserved(_) => pc.Start?
    case Branch(_) => pc.Loaded?
    case StoreConditional(_, _) => pc.Ready?
    case Retry(_) => pc.Tested?
    case GiveUp(_) => pc.Returned? && !Succeeded(pc)
    case ReadUnlock(_) => Succeeded(pc) && pc.r.Reads()
    case WriteUnlock(_) => Succeeded(pc) && !pc.r.Reads()
  }

  /** A write to the lock word cancels every reservation. */
  function Cancel(cpus: seq<Cpu>): (r: seq<Cpu>)
    ensures |r| == |cpus|
    ensures forall i | 0 <= i < |cpus| :: r[i] == Cpu(cpus[i].pc, false, cpus[i].mode)
  {
    seq(|cpus|, i requires 0 <= i < |cpus| => Cpu(cpus[i].pc, false, cpus[i].mode))
  }

  function Write(st: State, lock: int, c: nat, pc: Pc, mode: Mode): State
    requires c < |st.cpus|
  {
    State(Wrap32(lock), Cancel(st.cpus)[c := Cpu(pc, false, mode)])
  }

  function Apply(st: State, step: Step): State
    requires Enabled(st, step)
  {
    var c := step.c;
    var cpu := st.cpus[c];
    match step
    case Call(_, r) => st.(cpus := st.cpus[c := cpu.(pc := Start(r))])
    case LoadReserved(_) =>
      st.(cpus := st.cpus[c := cpu.(pc := Loaded(cpu.pc.r, st.lock), reserved := true)])
    case Branch(_) =>
      var r, tmp := cpu.pc.r, cpu.pc.tmp;
      var taken := if r.Reads() then tmp < 0 else tmp != 0;
      var pc := if taken then (if r.Try() then Returned(r, tmp) else Start(r))
                else Ready(r, if r.Reads() then tmp + 1 else -1);
      st.(cpus := st.cpus[c := cpu.(pc := pc)])
    case StoreConditional(_, spurious) =>
      var r := cpu.pc.r;
      if cpu.reserved && !spurious
      then Write(st, cpu.pc.tmp, c, Tested(r, 0), if r.Reads() then Reader else Writer)
      else st.(cpus := st.cpus[c := cpu.(pc := Tested(r, 1), reserved := false)])
    case Retry(_) =>
      var r, tmp := cpu.pc.r, cpu.pc.tmp;
      st.(cpus := st.cpus[c := cpu.(pc := if tmp != 0 then Start(r) else Returned(r, tmp))])
    case GiveUp(_) => st.(cpus := st.cpus[c := cpu.(pc := Outside)])
    case ReadUnlock(_) => Write(st, st.lock - 1, c, Outside, None)
    case WriteUnlock(_) => Write(st, 0, c, Outside, None)
  }

  ghost predicate Init(st: State) {
    && st.lock == 0 && |st.cpus| <= MAX_INT
    && forall c | 0 <= c < |st.cpus| :: st.cpus[c] == Cpu(Outside, false, None)
  }

  ghost predicate Runs(st: State, steps: seq<Step>, st': State)
    decreases |steps|
  {
    if steps == [] then st == st'
    else Enabled(st, steps[0]) && Runs(Apply(st, steps[0]), steps[1..], st')
  }

  /** The CPUs whose store took the lock in the given mode. */
  function Flags(cpus: seq<Cpu>, mode: Mode): (r: seq<bool>)
    ensures |r| == |cpus|
    ensures forall i | 0 <= i < |cpus| :: r[i] == (cpus[i].mode == mode)
  {
    seq(|cpus|, i requires 0 <= i < |cpus| => cpus[i].mode == mode)
  }

  function Readers(st: State): nat { Count(Flags(st.cpus, Reader)) }

  function Writers(st: State): nat { Count(Flags(st.cpus, Writer)) }

  /** What a scratch register means, given that the reservation is intact, and what the program
    counter says about the lock. */
  predicate CpuOk(cpu: Cpu, lock: int) {
    match cpu.pc
    case Outside => cpu.mode == None
    case Start(_) => cpu.mode == None
    case Loaded(_, tmp) => cpu.mode == None && (cpu.reserved ==> tmp == lock)
    case Ready(r, tmp) =>
      && cpu.mode == None
      && (cpu.reserved ==> if r.Reads() then lock >= 0 && tmp == lock + 1 else lock == 0 && tmp == -1)
    case Tested(r, tmp) =>
      cpu.mode == if tmp != 0 then None else if r.Reads() then Reader else Writer
    case Returned(r, busy) =>
      && (!r.Try() ==> busy == 0)
      && cpu.mode == if busy != 0 then None else if r.Reads() then Reader else Writer
  }

  /** The lock word is -1 with one writer and no reader, or the number of readers with no writer. */
  ghost predicate LockWord(st: State) {
    || (st.lock == -1 && Writers(st) == 1 && Readers(st) == 0)
    || (st.lock == Readers(st) && Writers(st) == 0)
  }

  ghost predicate Inv(st: State) {
    && |st.cpus| <= MAX_INT
    && (forall c | 0 <= c < |st.cpus| :: CpuOk(st.cpus[c], st.lock))
    && LockWord(st)
  }

  lemma InitInv(st: State)
    requires Init(st)
    ensures Inv(st)
  {
    CountBounds(Flags(st.cpus, Reader));
    CountBounds(Flags(st.cpus, Writer));
  }

  /** Only the stepping CPU changes its mode. */
  lemma ModeUpdate(st: State, step: Step, mode: Mode)
    requires Enabled(st, step)
    ensures var cpus' := Apply(st, step).cpus;
            && |cpus'| == |st.cpus|
            && Count(Flags(cpus', mode)) == Count(Flags(st.cpus, mode))
                 - (if st.cpus[step.c].mode == mode then 1 else 0)
                 + (if cpus'[step.c].mode == mode then 1 else 0)
  {
    var cpus' := Apply(st, step).cpus;
    assert Flags(cpus', mode) == Flags(st.cpus, mode)[step.c := cpus'[step.c].mode == mode];
    CountUpdate(Flags(st.cpus, mode), step.c, cpus'[step.c].mode == mode);
  }

  /** A CPU that is not yet a reader leaves room for one more in the 32-bit word. */
  lemma RoomForReader(st: State, c: nat)
    requires c < |st.cpus| <= MAX_INT && st.cpus[c].mode != Reader
    ensures Readers(st) < MAX_INT
  {
    CountBounds(Flags(st.cpus, Reader));
    assert !Flags(st.cpus, Reader)[c];
  }

  lemma SomeHolder(st: State, c: nat)
    requires c < |st.cpus| && st.cpus[c].mode != None
    ensures st.cpus[c].mode == Reader ==> Readers(st) >= 1
    ensures st.cpus[c].mode == Writer ==> Writers(st) >= 1
  {
    CountBounds(Flags(st.cpus, Reader));
    CountBounds(Flags(st.cpus, Writer));
    assert Flags(st.cpus, st.cpus[c].mode)[c];
  }

  /** What a step does to the lock word and to the mode of its CPU. */
  lemma LockEffect(st: State, step: Step)
    requires Enabled(st, step) && CpuOk(st.cpus[step.c], st.lock)
    ensures step.c < |Apply(st, step).cpus|
    ensures var was, now := st.cpus[step.c].mode, Apply(st, step).cpus[step.c].mode;
            var lock' := Apply(st, step).lock;
            || (was == now && lock' == st.lock)
            || (was == None && now == Reader && st.lock >= 0 && lock' == Wrap32(st.lock + 1))
            || (was == None && now == Writer && st.lock == 0 && lock' == -1)
            || (was == Reader && now == None && lock' == Wrap32(st.lock - 1))
            || (was == Writer && now == None && lock' == 0)
  {}

  lemma StepLockWord(st: State, step: Step)
    requires Inv(st) && Enabled(st, step)
    ensures LockWord(Apply(st, step))
  {
    hide CpuOk, Apply, Count, Flags;
    var cpu := st.cpus[step.c];
    LockEffect(st, step);
    SameCpus(st, step);
    ModeUpdate(st, step, Reader);
    ModeUpdate(st, step, Writer);
    CountBounds(Flags(st.cpus, Reader));
    if cpu.mode == None { RoomForReader(st, step.c); } else { SomeHolder(st, step.c); }
  }

  lemma StepInv(st: State, step: Step)
    requires Inv(st) && Enabled(st, step)
    ensures Inv(Apply(st, step))
  {
    StepLockWord(st, step);
    var st' := Apply(st, step);
    SameCpus(st, step);
    hide LockWord, CpuOk, Enabled, Apply;
    forall i | 0 <= i < |st'.cpus|
      ensures CpuOk(st'.cpus[i], st'.lock)
    {
      assert CpuOk(st.cpus[i], st.lock);
      if i == step.c { OwnCpuOk(st, step); } else { OtherCpuOk(st, step, i); }
    }
  }

  lemma SameCpus(st: State, step: Step)
    requires Enabled(st, step)
    ensures |Apply(st, step).cpus| == |st.cpus|
  {}

  lemma OwnCpuOk(st: State, step: Step)
    requires Enabled(st, step) && CpuOk(st.cpus[step.c], st.lock)
    ensures step.c < |Apply(st, step).cpus| && CpuOk(Apply(st, step).cpus[step.c], Apply(st, step).lock)
  {}

  /** Another CPU loses its reservation when the lock word is written. */
  lemma OtherCpuOk(st: State, step: Step, i: nat)
    requires Enabled(st, step) && i < |st.cpus| && i != step.c && CpuOk(st.cpus[i], st.lock)
    ensures i < |Apply(st, step).cpus| && CpuOk(Apply(st, step).cpus[i], Apply(st, step).lock)
  {}

  lemma {:induction false} RunInv(st: State, steps: seq<Step>, st': State)
    requires Inv(st) && Runs(st, steps, st')
    ensures Inv(st')
    decreases |steps|
  {
    if steps != [] {
      StepInv(st, steps[0]);
      RunInv(Apply(st, steps[0]), steps[1..], st');
    }
  }

  /** Over every run the word is -1 with exactly one writer and no reader, or it is the number of
    readers and there is no writer. */
  lemma {:induction false} LockWordAlways(st0: State, steps: seq<Step>, st: State)
    requires Init(st0) && Runs(st0, steps, st)
    ensures LockWord(st)
  {
    InitInv(st0);
    RunInv(st0, steps, st);
  }

  /** Over every run, what a routine tells its caller is what happened: a trylock reports success
    exactly when its store took the lock, a lock routine returns only after it did. */
  lemma {:induction false} ReportIsTrue(st0: State, steps: seq<Step>, st: State, c: nat)
    requires Init(st0) && Runs(st0, steps, st)
    requires c < |st.cpus| && st.cpus[c].pc.Returned?
    ensures Succeeded(st.cpus[c].pc) <==> st.cpus[c].mode != None
    ensures Succeeded(st.cpus[c].pc) ==> (st.cpus[c].mode == Reader <==> st.cpus[c].pc.r.Reads())
    ensures !st.cpus[c].pc.r.Try() ==> Succeeded(st.cpus[c].pc)
  {
    InitInv(st0);
    RunInv(st0, steps, st);
    assert CpuOk(st.cpus[c], st.lock);
  }

  /** Over every run, two CPUs told that they have the lock are both readers. */
  lemma {:induction false} MutualExclusion(st0: State, steps: seq<Step>, st: State, a: nat, b: nat)
    requires Init(st0) && Runs(st0, steps, st)
    requires a < |st.cpus| && b < |st.cpus| && a != b
    requires Succeeded(st.cpus[a].pc) && Succeeded(st.cpus[b].pc)
    ensures st.cpus[a].pc.r.Reads() && st.cpus[b].pc.r.Reads() && st.lock >= 2
  {
    InitInv(st0);
    RunInv(st0, steps, st);
    assert CpuOk(st.cpus[a], st.lock) && CpuOk(st.cpus[b], st.lock);
    SomeHolder(st, a);
    SomeHolder(st, b);
    var m := st.cpus[a].mode;
    if st.cpus[b].mode == m { CountTwo(Flags(st.cpus, m), a, b); }
  }

  /** Does the word let the routine in? */
  predicate Permits(lock: int, r: Routine) {
    match r
    case ReadLock => lock >= 0
    case ReadTrylock => lock >= 0
    case WriteLock => lock == 0
    case WriteTrylock => lock == 0
  }

  /** Alone and without a spurious failure, a routine started on a permitting word acquires it: a reader adds
    one to the word, a writer makes it -1. */
  lemma SoloAcquires(st: State, c: nat)
    requires Inv(st) && c < |st.cpus| && st.cpus[c].pc.Start? && Permits(st.lock, st.cpus[c].pc.r)
    ensures var r := st.cpus[c].pc.r;
            var s1 := Apply(st, LoadReserved(c));
            && Enabled(s1, Branch(c))
            && var s2 := Apply(s1, Branch(c));
               && Enabled(s2, StoreConditional(c, false))
               && var s3 := Apply(s2, StoreConditional(c, false));
                  && Enabled(s3, Retry(c)) && Succeeded(Apply(s3, Retry(c)).cpus[c].pc)
                  && Apply(s3, Retry(c)).lock
                     == (if r == ReadLock || r == ReadTrylock then Wrap32(st.lock + 1) else -1)
  {}

  /** A word that does not permit it stays as it is: a trylock returns that the lock is busy, a lock starts
    over.  So does any routine whose store fails. */
  lemma SoloRefused(st: State, c: nat)
    requires c < |st.cpus| && st.cpus[c].pc.Start?
    ensures var r := st.cpus[c].pc.r;
            var s1 := Apply(st, LoadReserved(c));
            && Enabled(s1, Branch(c)) && s1.lock == st.lock
            && var s2 := Apply(s1, Branch(c));
               && s2.lock == st.lock
               && (!Permits(st.lock, r) && (r == ReadTrylock || r == WriteTrylock) ==>
                     s2.cpus[c].pc.Returned? && s2.cpus[c].pc.busy != 0)
               && (!Permits(st.lock, r) && (r == ReadLock || r == WriteLock) ==> s2.cpus[c].pc == Start(r))
               && (Permits(st.lock, r) ==>
                     && Enabled(s2, StoreConditional(c, true))
                     && var s3 := Apply(s2, StoreConditional(c, true));
                        && Enabled(s3, Retry(c)) && Apply(s3, Retry(c)).lock == st.lock
                        && Apply(s3, Retry(c)).cpus[c].pc == Start(r))
  {}

  /** A reader that leaves takes one off the word, a writer makes it 0. */
  lemma UnlockFrees(st: State, c: nat)
    requires Inv(st) && c < |st.cpus| && Succeeded(st.cpus[c].pc)
    ensures var r := st.cpus[c].pc.r;
            if r == ReadLock || r == ReadTrylock then
              Enabled(st, ReadUnlock(c)) && st.lock > 0 && Apply(st, ReadUnlock(c)).lock == Wrap32(st.lock - 1)
            else Enabled(st, WriteUnlock(c)) && st.lock == -1 && Apply(st, WriteUnlock(c)).lock == 0
  {
    hide Apply, Flags;
    assert CpuOk(st.cpus[c], st.lock);
    SomeHolder(st, c);
    UnlockWords(st, c);
  }

  lemma UnlockWords(st: State, c: nat)
    requires c < |st.cpus| && Succeeded(st.cpus[c].pc)
    ensures var r := st.cpus[c].pc.r;
            if r.Reads() then Enabled(st, ReadUnlock(c)) && Apply(st, ReadUnlock(c)).lock == Wrap32(st.lock - 1)
            else Enabled(st, WriteUnlock(c)) && Apply(st, WriteUnlock(c)).lock == 0
  {}
}
