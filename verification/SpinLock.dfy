/** The test-and-test-and-set spin lock, each CPU running lock, trylock or unlock in atomic steps. */
module SpinLock {
  import opened Counting

  /** Spin: about to test the word.  Swap: about to execute amoswap.  Swapped: old value in `busy`.
      Returned: back in the caller, `busy` as returned. */
  datatype Pc = Outside | Spin | Swap(try: bool) | Swapped(try: bool, busy: int) | Returned(busy: int)

  /** `acquired` records, apart from the program counter, that the CPU's swap found the lock free. */
  datatype Cpu = Cpu(pc: Pc, acquired: bool)

  datatype State = State(lock: int, cpus: seq<Cpu>)

  datatype Step =
    | Lock(c: nat) | Trylock(c: nat) | Test(c: nat) | AmoSwap(c: nat) | Decide(c: nat) | Leave(c: nat) | Unlock(c: nat)

  predicate Enabled(st: State, step: Step) {
    step.c < |st.cpus| &&
    var pc := st.cpus[step.c].pc;
    match step
    case Lock(_) => pc == Outside
    case Trylock(_) => pc == Outside
    case Test(_) => pc == Spin
    case AmoSwap(_) => pc.Swap?
    case Decide(_) => pc.Swapped?
    case Leave(_) => pc.Returned? && pc.busy != 0
    case Unlock(_) => pc.Returned? && pc.busy == 0
  }

  function Apply(st: State, step: Step): State
    requires Enabled(st, step)
  {
    var c := step.c;
    var cpu := st.cpus[c];
    match step
    case Lock(_) => st.(cpus := st.cpus[c := cpu.(pc := Spin)])
    case Trylock(_) => st.(cpus := st.cpus[c := cpu.(pc := Swap(true))])
    case Test(_) => if st.lock != 0 then st else st.(cpus := st.cpus[c := cpu.(pc := Swap(false))])
    case AmoSwap(_) => State(1, st.cpus[c := Cpu(Swapped(cpu.pc.try, st.lock), st.lock == 0)])
    case Decide(_) =>
      var again := !cpu.pc.try && cpu.pc.busy != 0;
      st.(cpus := st.cpus[c := cpu.(pc := if again then Spin else Returned(cpu.pc.busy))])
    case Leave(_) => st.(cpus := st.cpus[c := cpu.(pc := Outside)])
    case Unlock(_) => State(0, st.cpus[c := Cpu(Outside, false)])
  }

  ghost predicate Init(st: State) {
    st.lock == 0 && forall c | 0 <= c < |st.cpus| :: st.cpus[c] == Cpu(Outside, false)
  }

  ghost predicate Runs(st: State, steps: seq<Step>, st': State)
    decreases |steps|
  {
    if steps == [] then st == st'
    else Enabled(st, steps[0]) && Runs(Apply(st, steps[0]), steps[1..], st')
  }

  function Acquired(cpus: seq<Cpu>): (r: seq<bool>)
    ensures |r| == |cpus|
    ensures forall i | 0 <= i < |cpus| :: r[i] == cpus[i].acquired
  {
    seq(|cpus|, i requires 0 <= i < |cpus| => cpus[i].acquired)
  }

  predicate CpuOk(cpu: Cpu) {
    cpu.acquired <==> (cpu.pc.Swapped? || cpu.pc.Returned?) && cpu.pc.busy == 0
  }

  /** The word is the number of holders, and there is at most one. */
  ghost predicate Inv(st: State) {
    && (forall c | 0 <= c < |st.cpus| :: CpuOk(st.cpus[c]))
    && st.lock == Count(Acquired(st.cpus)) <= 1
  }

  lemma StepInv(st: State, step: Step)
    requires Inv(st) && Enabled(st, step)
    ensures Inv(Apply(st, step))
  {
    var st' := Apply(st, step);
    var c := step.c;
    assert CpuOk(st.cpus[c]);
    assert Acquired(st'.cpus) == Acquired(st.cpus)[c := st'.cpus[c].acquired];
    CountUpdate(Acquired(st.cpus), c, st'.cpus[c].acquired);
    CountBounds(Acquired(st.cpus));
    forall i | 0 <= i < |st'.cpus|
      ensures CpuOk(st'.cpus[i])
    {
      assert CpuOk(st.cpus[i]);
      assert Acquired(st.cpus)[i] == st.cpus[i].acquired;
    }
  }

  lemma {:induction false} RunInv(st: State, steps: seq<Step>, st': State)
    requires Inv(st) && Runs(st, steps, st')
    ensures Inv(st')
    decreases |steps|
  {
    if steps != [] {
      StepInv(st, steps[0]);
      RunInv(Apply(st, steps[0]), steps[1..], st');
    }
  }

  /** Over every run a CPU that has been told that it holds the lock is the only one that acquired it,
    and the word is 1. */
  lemma {:induction false} SpinLockSafety(st0: State, steps: seq<Step>, st: State, a: nat, b: nat)
    requires Init(st0) && Runs(st0, steps, st)
    requires a < |st.cpus| && b < |st.cpus|
    requires st.cpus[a].pc == Returned(0)
    ensures st.lock == 1 && st.cpus[a].acquired
    ensures st.cpus[b].acquired ==> b == a
    ensures st.cpus[b].pc == Returned(0) ==> b == a
  {
    CountBounds(Acquired(st0.cpus));
    RunInv(st0, steps, st);
    assert CpuOk(st.cpus[a]) && CpuOk(st.cpus[b]);
    CountBounds(Acquired(st.cpus));
    assert Acquired(st.cpus)[a];
    if st.cpus[b].acquired && a != b { CountTwo(Acquired(st.cpus), a, b); }
  }

  // ----- one CPU, undisturbed -----

  /** The word, and CPU c at pc, with everything about the other CPUs as in st. */
  predicate NowAt(st: State, st': State, c: nat, lock: int, pc: Pc) {
    && |st'.cpus| == |st.cpus| && st'.lock == lock && c < |st'.cpus| && st'.cpus[c].pc == pc
    && forall i | 0 <= i < |st.cpus| && i != c :: st'.cpus[i] == st.cpus[i]
  }

  /** arch_spin_lock, called with the word 0, tests it, swaps once and returns with the lock: the word is 1. */
  lemma SoloLocks(st: State, c: nat) returns (end: State)
    requires c < |st.cpus| && st.cpus[c].pc == Outside && st.lock == 0
    ensures Runs(st, [Lock(c), Test(c), AmoSwap(c), Decide(c)], end)
    ensures NowAt(st, end, c, 1, Returned(0))
  {
    var s1 := Apply(st, Lock(c));
    var s2 := Apply(s1, Test(c));
    var s3 := Apply(s2, AmoSwap(c));
    end := Apply(s3, Decide(c));
    RunFour(st, Lock(c), Test(c), AmoSwap(c), Decide(c));
  }

  /** arch_spin_trylock, called with the word 0, returns with the lock. */
  lemma SoloTries(st: State, c: nat) returns (end: State)
    requires c < |st.cpus| && st.cpus[c].pc == Outside && st.lock == 0
    ensures Runs(st, [Trylock(c), AmoSwap(c), Decide(c)], end)
    ensures NowAt(st, end, c, 1, Returned(0))
  {
    end := Apply(Apply(Apply(st, Trylock(c)), AmoSwap(c)), Decide(c));
    RunThree(st, Trylock(c), AmoSwap(c), Decide(c));
  }

  /** With the word 1 arch_spin_trylock returns that it is busy and leaves the word 1. */
  lemma BusyTries(st: State, c: nat) returns (end: State)
    requires c < |st.cpus| && st.cpus[c].pc == Outside && st.lock == 1
    ensures Runs(st, [Trylock(c), AmoSwap(c), Decide(c)], end)
    ensures NowAt(st, end, c, 1, Returned(1))
  {
    end := Apply(Apply(Apply(st, Trylock(c)), AmoSwap(c)), Decide(c));
    RunThree(st, Trylock(c), AmoSwap(c), Decide(c));
  }

  /** While the word is 1 arch_spin_lock only tests it; losing the race for a free word takes it back to that. */
  lemma BusyLocks(st: State, c: nat)
    requires c < |st.cpus| && st.lock == 1
    ensures st.cpus[c].pc == Spin ==> Apply(st, Test(c)) == st
    ensures st.cpus[c].pc == Swap(false) ==>
              var s1 := Apply(st, AmoSwap(c));
              Enabled(s1, Decide(c)) && NowAt(st, Apply(s1, Decide(c)), c, 1, Spin)
  {}

  /** arch_spin_unlock leaves the word 0, so the next one to test or to swap finds the lock free. */
  lemma UnlockFrees(st: State, c: nat)
    requires c < |st.cpus| && st.cpus[c].pc == Returned(0)
    ensures NowAt(st, Apply(st, Unlock(c)), c, 0, Outside)
  {}

  lemma {:induction false} RunThree(st: State, a: Step, b: Step, c: Step)
    requires Enabled(st, a) && Enabled(Apply(st, a), b) && Enabled(Apply(Apply(st, a), b), c)
    ensures Runs(st, [a, b, c], Apply(Apply(Apply(st, a), b), c))
  {
    assert [a, b, c][1..] == [b, c] && [b, c][1..] == [c] && [c][1..] == [];
    assert Runs(Apply(Apply(st, a), b), [c], Apply(Apply(Apply(st, a), b), c));
    assert Runs(Apply(st, a), [b, c], Apply(Apply(Apply(st, a), b), c));
  }

  lemma {:induction false} RunFour(st: State, a: Step, b: Step, c: Step, d: Step)
    requires Enabled(st, a) && Enabled(Apply(st, a), b) && Enabled(Apply(Apply(st, a), b), c)
    requires Enabled(Apply(Apply(Apply(st, a), b), c), d)
    ensures Runs(st, [a, b, c, d], Apply(Apply(Apply(Apply(st, a), b), c), d))
  {
    RunThree(Apply(st, a), b, c, d);
    assert [a, b, c, d][1..] == [b, c, d];
  }
}
