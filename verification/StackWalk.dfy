/** The frame-pointer stack walk, on stack contents that may be arbitrary. */
module StackWalk {
  import Arith
  import opened Xlen

  const THREAD_SIZE: nat := 8192

  /** A machine: register width, the words of memory by address, and `__kernel_text_address`. */
  datatype Machine = Machine(xl: Width, load: nat -> nat, isText: nat -> bool) {
    ghost predicate Valid() { forall a :: load(a) < xl.M() }

    /** `sizeof(struct stackframe)` */
    function FrameSize(): nat { 2 * xl.SZREG() }

    /** Register addition, wrapping around at either end of the address space. */
    function Plus(a: nat, d: int): (r: nat)
      requires a < xl.M() && -(xl.M() as int) < d < xl.M()
      ensures r < xl.M()
    {
      Wrapped(a + d, xl.M())
    }

    /** `ALIGN(sp, THREAD_SIZE)` */
    function StackTop(sp: nat): nat
      requires sp < xl.M()
    {
      Plus(sp, THREAD_SIZE - 1) / THREAD_SIZE * THREAD_SIZE
    }

    /** The test "Validate frame pointer". */
    predicate ValidFrame(fp: nat, sp: nat)
      requires sp < xl.M()
    {
      Plus(sp, FrameSize()) <= fp <= StackTop(sp) && fp % 8 == 0
    }

    /** Saved frame pointer and return address, below fp. */
    function SavedFp(fp: nat): nat
      requires fp < xl.M()
    {
      load(Plus(fp, -(FrameSize() as int)))
    }

    function SavedPc(fp: nat): nat
      requires fp < xl.M() && Valid()
    {
      Plus(load(Plus(fp, -(xl.SZREG() as int))), -4)
    }

    /** A valid frame pointer is above sp by at least a frame and by at most what is left of the
      stack, even where addresses wrap around. */
    lemma FrameAdvances(fp: nat, sp: nat)
      requires sp < xl.M() && fp < xl.M() && ValidFrame(fp, sp)
      ensures var d := Plus(fp, -(sp as int));
              && FrameSize() <= d <= StackLeft(sp)
              && fp == Plus(sp, d) && StackLeft(fp) == StackLeft(sp) - d
    {
      WrapFrame(fp, sp, xl.M(), FrameSize());
    }

    /** The pcs handed to the callback, as long as it does not ask to stop. */
    function Frames(fp: nat, sp: nat, pc: nat): seq<nat>
      requires sp < xl.M() && fp < xl.M()
      requires Valid()
      decreases StackLeft(sp)
    {
      if !isText(pc) then []
      else if !ValidFrame(fp, sp) then [pc]
      else
        FrameAdvances(fp, sp);
        [pc] + Frames(SavedFp(fp), fp, SavedPc(fp))
    }

    /** The addresses of the words read while visiting the first n pcs. */
    function Reads(fp: nat, sp: nat, pc: nat, n: nat): seq<nat>
      requires sp < xl.M() && fp < xl.M()
      requires Valid()
      decreases n
    {
      if n <= 1 || !isText(pc) || !ValidFrame(fp, sp) then []
      else [Plus(fp, -(FrameSize() as int)), Plus(fp, -(xl.SZREG() as int))]
           + Reads(SavedFp(fp), fp, SavedPc(fp), n - 1)
    }

    /** The word at address a lies between sp and the top of its stack. */
    predicate InStack(a: nat, sp: nat)
      requires sp < xl.M() && a < xl.M()
    {
      Plus(a, -(sp as int)) + xl.SZREG() <= StackLeft(sp)
    }

    /** Every word read, however corrupt the stack, lies between the initial sp and the top of its
      THREAD_SIZE-aligned stack. */
    lemma {:induction false} ReadsInStack(fp: nat, sp: nat, pc: nat, n: nat)
      requires sp < xl.M() && fp < xl.M() && Valid()
      ensures forall a | a in Reads(fp, sp, pc, n) :: a < xl.M() && InStack(a, sp)
      decreases n
    {
      hide InStack, ValidFrame, StackLeft, Plus, FrameSize;
      if n > 1 && isText(pc) && ValidFrame(fp, sp) {
        FrameWords(fp, sp);
        ReadsInStack(SavedFp(fp), fp, SavedPc(fp), n - 1);
        forall a | a in Reads(SavedFp(fp), fp, SavedPc(fp), n - 1)
          ensures InStack(a, sp)
        {
          StillInStack(a, fp, sp);
        }
      }
    }

    /** The two words of a valid frame. */
    lemma FrameWords(fp: nat, sp: nat)
      requires sp < xl.M() && fp < xl.M() && ValidFrame(fp, sp)
      ensures InStack(Plus(fp, -(FrameSize() as int)), sp) && InStack(Plus(fp, -(xl.SZREG() as int)), sp)
    {
      FrameAdvances(fp, sp);
    }

    /** What lies above a valid frame lies above sp. */
    lemma StillInStack(a: nat, fp: nat, sp: nat)
      requires sp < xl.M() && fp < xl.M() && a < xl.M() && ValidFrame(fp, sp) && InStack(a, fp)
      ensures InStack(a, sp)
    {
      FrameAdvances(fp, sp);
      FurtherUp(a, fp, sp, xl.M(), StackLeft(sp));
    }

    /** At most one frame for every FrameSize bytes of stack. */
    lemma {:induction false} FramesBounded(fp: nat, sp: nat, pc: nat)
      requires sp < xl.M() && fp < xl.M() && Valid()
      ensures |Frames(fp, sp, pc)| * FrameSize() <= StackLeft(sp) + FrameSize()
      decreases StackLeft(sp)
    {
      if isText(pc) && ValidFrame(fp, sp) {
        FrameAdvances(fp, sp);
        FramesBounded(SavedFp(fp), fp, SavedPc(fp));
        Arith.Distrib(|Frames(fp, sp, pc)|, 1, FrameSize());
      }
    }
  }

  /** Bytes from sp to the top of its THREAD_SIZE-aligned stack. */
  function StackLeft(sp: nat): (r: nat)
    ensures r < THREAD_SIZE
  {
    (THREAD_SIZE - sp % THREAD_SIZE) % THREAD_SIZE
  }

  function Wrapped(x: int, m: int): (r: nat)
    requires -m <= x < 2 * m
    ensures r == x || r == x + m || r == x - m
  {
    if x >= m then x - m else if x < 0 then x + m else x
  }

  lemma WrapFrame(fp: nat, sp: nat, m: nat, fs: nat)
    requires m % THREAD_SIZE == 0 && 2 * THREAD_SIZE <= m
    requires fs == 8 || fs == 16
    requires sp < m && fp < m && fp % 8 == 0
    requires Wrapped(sp + fs, m) <= fp <= Wrapped(sp + THREAD_SIZE - 1, m) / THREAD_SIZE * THREAD_SIZE
    ensures var d := Wrapped(fp - sp, m);
            fs <= d <= StackLeft(sp) && fp == Wrapped(sp + d, m) && StackLeft(fp) == StackLeft(sp) - d
  {
    hide StackLeft;
    var over := sp % THREAD_SIZE;
    var base := sp - over;
    StackBase(sp, m);
    StackLeftIs(base, over);
    RoundedTop(base, over, m);
    if fp == 0 {
      StackLeftIs(0, 0);
    } else if fp == base + THREAD_SIZE {
      StackLeftIs(fp, 0);
    } else {
      StackLeftIs(base, fp - base);
    }
  }

  lemma StackBase(sp: nat, m: nat)
    requires m % THREAD_SIZE == 0 && sp < m
    ensures var base := sp - sp % THREAD_SIZE;
            && 0 <= base && base % THREAD_SIZE == 0 && (base + THREAD_SIZE) % THREAD_SIZE == 0
            && (base + THREAD_SIZE == m || base + 2 * THREAD_SIZE <= m)
  {}

  lemma StackLeftIs(base: nat, over: nat)
    requires base % THREAD_SIZE == 0 && over < THREAD_SIZE
    ensures StackLeft(base + over) == if over == 0 then 0 else THREAD_SIZE - over
  {
    Arith.DivUnique(base + over, THREAD_SIZE, base / THREAD_SIZE, over);
  }

  /** `ALIGN(sp, THREAD_SIZE)` for sp = base + over. */
  lemma RoundedTop(base: nat, over: nat, m: nat)
    requires base % THREAD_SIZE == 0 && over < THREAD_SIZE && 2 * THREAD_SIZE <= m
    requires base + THREAD_SIZE == m || base + 2 * THREAD_SIZE <= m
    ensures Wrapped(base + over + THREAD_SIZE - 1, m) / THREAD_SIZE * THREAD_SIZE
            == if over == 0 then base else if base + THREAD_SIZE == m then 0 else base + THREAD_SIZE
  {
    var x := Wrapped(base + over + THREAD_SIZE - 1, m);
    var q := base / THREAD_SIZE;
    if over == 0 {
      Arith.DivUnique(x, THREAD_SIZE, q, THREAD_SIZE - 1);
    } else if base + THREAD_SIZE == m {
      Arith.DivUnique(x, THREAD_SIZE, 0, over - 1);
    } else {
      Arith.DivUnique(x, THREAD_SIZE, q + 1, over - 1);
    }
  }

  lemma FurtherUp(a: nat, fp: nat, sp: nat, m: int, left: nat)
    requires a < m && fp < m && sp < m && left < THREAD_SIZE <= m
    requires 0 <= Wrapped(fp - sp, m) <= left
    requires Wrapped(a - fp, m) + Wrapped(fp - sp, m) <= left
    ensures Wrapped(a - sp, m) == Wrapped(a - fp, m) + Wrapped(fp - sp, m)
  {}

  // ----- recording a trace -----

  /** `struct stack_trace` */
  class StackTrace {
    const entries: array<nat>
    const max: nat
    var nr: nat
    var skip: nat

    constructor (entries: array<nat>, max: nat, skip: nat)
      requires max <= entries.Length
      ensures this.entries == entries && this.max == max && nr == 0 && this.skip == skip
    {
      this.entries, this.max := entries, max;
      this.nr, this.skip := 0, skip;
    }

    /** save_trace: records pc unless it is to be skipped; true means the buffer is full. */
    method Save(pc: nat) returns (stop: bool)
      requires nr < max <= entries.Length
      modifies this`nr, this`skip, entries
      ensures skip == if old(skip) > 0 then old(skip) - 1 else 0
      ensures old(skip) > 0 ==> !stop && nr == old(nr) && entries[..] == old(entries[..])
      ensures old(skip) == 0 ==> nr == old(nr) + 1 && stop == (nr >= max)
      ensures old(skip) == 0 ==> entries[..] == old(entries[..])[old(nr) := pc]
    {
      if skip > 0 {
        skip := skip - 1;
        return false;
      }
      entries[nr] := pc;
      nr := nr + 1;
      return nr >= max;
    }
  }

  function Drop<T>(s: seq<T>, n: nat): seq<T> { if n <= |s| then s[n..] else [] }

  function Take<T>(s: seq<T>, n: nat): seq<T> { if n <= |s| then s[..n] else s }

  /** What ends up in the buffer: the visited pcs without the first `skip`, as many as fit. */
  function Recorded(visited: seq<nat>, skip: nat, room: nat): seq<nat> {
    Take(Drop(visited, skip), room)
  }

  /** The buffer after the pcs in `seen` went through save_trace. */
  ghost predicate Holds(t: StackTrace, was: seq<nat>, nr0: nat, rec: seq<nat>)
    reads t, t.entries
  {
    && t.nr == nr0 + |rec| <= t.max <= t.entries.Length == |was|
    && t.entries[..] == was[..nr0] + rec + was[t.nr..]
  }

  /** save_trace, applied to the next pc. */
  method SaveNext(t: StackTrace, pc: nat, ghost was: seq<nat>, ghost nr0: nat, ghost skip0: nat, ghost seen: seq<nat>)
    returns (stop: bool)
    requires Holds(t, was, nr0, Drop(seen, skip0)) && t.nr < t.max
    requires t.skip == if |seen| <= skip0 then skip0 - |seen| else 0
    modifies t`nr, t`skip, t.entries
    ensures Holds(t, was, nr0, Drop(seen + [pc], skip0)) && stop == (t.nr >= t.max)
    ensures t.skip == if |seen + [pc]| <= skip0 then skip0 - |seen + [pc]| else 0
  {
    hide Drop;
    DropGrows(seen, pc, skip0);
    stop := t.Save(pc);
    if t.skip == 0 && |seen| >= skip0 {
      Appended(was, nr0, Drop(seen, skip0), pc);
    }
  }

  lemma DropGrows(seen: seq<nat>, pc: nat, skip: nat)
    ensures Drop(seen + [pc], skip) == if |seen| >= skip then Drop(seen, skip) + [pc] else []
    ensures |seen| <= skip ==> Drop(seen, skip) == []
  {}

  lemma Appended(was: seq<nat>, nr0: nat, rec: seq<nat>, pc: nat)
    requires nr0 + |rec| < |was|
    ensures var n := nr0 + |rec|;
            (was[..nr0] + rec + was[n..])[n := pc] == was[..nr0] + (rec + [pc]) + was[n + 1..]
  {}

  /** The second half of the walk's loop: check the frame pointer, then load the frame below it. */
  method Unwind(m: Machine, fp: nat, sp: nat, pc: nat) returns (more: bool, fp': nat, sp': nat, pc': nat)
    requires m.Valid() && fp < m.xl.M() && sp < m.xl.M() && m.isText(pc)
    ensures fp' < m.xl.M() && sp' < m.xl.M() && |m.Frames(fp, sp, pc)| > 0
    ensures m.Frames(fp, sp, pc)[0] == pc
    ensures m.Frames(fp, sp, pc)[1..] == if more then m.Frames(fp', sp', pc') else []
    ensures more ==> StackLeft(sp') < StackLeft(sp)
  {
    more, fp', sp', pc' := m.ValidFrame(fp, sp), fp, sp, pc;
    if more {
      m.FrameAdvances(fp, sp);
      fp', sp', pc' := m.SavedFp(fp), fp, m.SavedPc(fp);
    }
  }

  /** walk_stackframe with save_trace as its callback. */
  method WalkStackframe(m: Machine, fp0: nat, sp0: nat, pc0: nat, t: StackTrace)
    requires m.Valid() && fp0 < m.xl.M() && sp0 < m.xl.M()
    requires t.nr < t.max <= t.entries.Length
    modifies t`nr, t`skip, t.entries
    ensures Holds(t, old(t.entries[..]), old(t.nr),
                  Recorded(m.Frames(fp0, sp0, pc0), old(t.skip), t.max - old(t.nr)))
  {
    hide Holds, Drop, Recorded, Machine.Frames;
    ghost var was, nr0, skip0 := t.entries[..], t.nr, t.skip;
    HoldsNone(t, skip0);
    var fp: nat, sp: nat, pc: nat := fp0, sp0, pc0;
    ghost var seen: seq<nat> := [];
    while m.isText(pc)
      invariant fp < m.xl.M() && sp < m.xl.M()
      invariant m.Frames(fp0, sp0, pc0) == seen + m.Frames(fp, sp, pc)
      invariant t.skip == if |seen| <= skip0 then skip0 - |seen| else 0
      invariant Holds(t, was, nr0, Drop(seen, skip0)) && t.nr < t.max
      decreases StackLeft(sp)
    {
      var stop := SaveNext(t, pc, was, nr0, skip0, seen);
      FirstFrame(m, fp, sp, pc);
      Regroup(m.Frames(fp0, sp0, pc0), seen, m.Frames(fp, sp, pc), pc);
      seen := seen + [pc];
      if stop {
        break;
      }
      var more;
      more, fp, sp, pc := Unwind(m, fp, sp, pc);
      if !more {
        break;
      }
    }
    HoldsRoom(t, was, nr0, Drop(seen, skip0));
    FirstFrame(m, fp, sp, pc);
    CutPrefix(seen, m.Frames(fp0, sp0, pc0), skip0, t.max - nr0);
  }

  lemma {:induction false} FirstFrame(m: Machine, fp: nat, sp: nat, pc: nat)
    requires m.Valid() && fp < m.xl.M() && sp < m.xl.M()
    ensures m.isText(pc) == (m.Frames(fp, sp, pc) != [])
    ensures m.isText(pc) ==> m.Frames(fp, sp, pc)[0] == pc
  {}

  lemma HoldsNone(t: StackTrace, skip: nat)
    requires t.nr <= t.max <= t.entries.Length
    ensures Holds(t, t.entries[..], t.nr, Drop([], skip))
  {}

  lemma HoldsRoom(t: StackTrace, was: seq<nat>, nr0: nat, rec: seq<nat>)
    requires Holds(t, was, nr0, rec)
    ensures |rec| == t.nr - nr0 && t.nr <= t.max
  {}

  lemma Regroup(all: seq<nat>, seen: seq<nat>, rest: seq<nat>, pc: nat)
    requires all == seen + rest && |rest| > 0 && rest[0] == pc
    ensures all == (seen + [pc]) + rest[1..]
  {}

  /** Stopping at a full buffer, or at the end of the frames, records the same. */
  lemma CutPrefix(seen: seq<nat>, all: seq<nat>, skip: nat, room: nat)
    requires seen <= all && |Drop(seen, skip)| <= room
    requires seen == all || |Drop(seen, skip)| == room
    ensures room > 0 ==> Recorded(all, skip, room) == Drop(seen, skip)
  {}

  // ----- what a well-formed stack gives -----

  /** A function that is running: its frame pointer, and where in it execution stands. */
  datatype Call = Call(fp: nat, pc: nat)

  /** The stack from sp upwards holds the frames of calls, innermost first: the two words below a frame pointer
    are the caller's frame pointer and the return address, which is behind the 4 bytes of the call.  The
    outermost frame pointer is 0. */
  ghost predicate Stacked(m: Machine, sp: nat, calls: seq<Call>)
    decreases |calls|
  {
    && |calls| > 0 && sp + THREAD_SIZE < m.xl.M() && m.isText(calls[0].pc)
    && var fp, word := calls[0].fp, m.xl.SZREG();
       if |calls| == 1 then fp == 0
       else
         && fp % 8 == 0 && sp + 2 * word <= fp <= (sp + 8191) / 8192 * 8192
         && m.load(fp - 2 * word) == calls[1].fp && m.load(fp - word) == calls[1].pc + 4
         && Stacked(m, fp, calls[1..])
  }

  function Pcs(calls: seq<Call>): (pcs: seq<nat>)
    ensures |pcs| == |calls| && forall i | 0 <= i < |calls| :: pcs[i] == calls[i].pc
  {
    seq(|calls|, i requires 0 <= i < |calls| => calls[i].pc)
  }

  /** On such a stack the walk visits exactly the calls. */
  lemma {:induction false} WalkFindsCalls(m: Machine, sp: nat, calls: seq<Call>)
    requires m.Valid() && Stacked(m, sp, calls)
    ensures sp < m.xl.M() && calls[0].fp < m.xl.M() && m.Frames(calls[0].fp, sp, calls[0].pc) == Pcs(calls)
    decreases |calls|
  {
    hide Machine.Frames;
    var fp, pc := calls[0].fp, calls[0].pc;
    if |calls| == 1 {
      LastFrame(m, sp, pc);
    } else {
      WalkFindsCalls(m, fp, calls[1..]);
      NextFrame(m, fp, sp, pc, calls[1].fp, calls[1].pc);
      assert Pcs(calls) == [pc] + Pcs(calls[1..]);
    }
  }

  lemma {:induction false} LastFrame(m: Machine, sp: nat, pc: nat)
    requires m.Valid() && m.isText(pc) && sp + THREAD_SIZE < m.xl.M()
    ensures m.Frames(0, sp, pc) == [pc]
  {}

  lemma {:induction false} NextFrame(m: Machine, fp: nat, sp: nat, pc: nat, fp': nat, pc': nat)
    requires m.Valid() && m.isText(pc) && sp + THREAD_SIZE < m.xl.M() && fp < m.xl.M() && fp' < m.xl.M()
    requires fp % 8 == 0 && sp + 2 * m.xl.SZREG() <= fp <= (sp + 8191) / 8192 * 8192
    requires m.load(fp - 2 * m.xl.SZREG()) == fp' && m.load(fp - m.xl.SZREG()) == pc' + 4
    ensures m.Frames(fp, sp, pc) == [pc] + m.Frames(fp', fp, pc')
  {}

  // ----- other callbacks -----

  /** What a callback leaves in its argument when it is handed pcs until it asks to stop. */
  function Visit<S>(fn: (nat, S) -> (S, bool), pcs: seq<nat>, arg: S): S {
    if pcs == [] then arg
    else
      var (next, stop) := fn(pcs[0], arg);
      if stop then next else Visit(fn, pcs[1..], next)
  }

  /** walk_stackframe with any callback, as a function of the pc and of what its argument points to. */
  method WalkWith<S>(m: Machine, fp0: nat, sp0: nat, pc0: nat, fn: (nat, S) -> (S, bool), arg: S) returns (arg': S)
    requires m.Valid() && fp0 < m.xl.M() && sp0 < m.xl.M()
    ensures arg' == Visit(fn, m.Frames(fp0, sp0, pc0), arg)
  {
    hide Machine.Frames;
    var fp: nat, sp: nat, pc: nat := fp0, sp0, pc0;
    arg' := arg;
    while m.isText(pc)
      invariant fp < m.xl.M() && sp < m.xl.M()
      invariant Visit(fn, m.Frames(fp0, sp0, pc0), arg) == Visit(fn, m.Frames(fp, sp, pc), arg')
      decreases StackLeft(sp)
    {
      FirstFrame(m, fp, sp, pc);
      var (next, stop) := fn(pc, arg');
      arg' := next;
      if stop {
        return;
      }
      var more;
      more, fp, sp, pc := Unwind(m, fp, sp, pc);
      if !more {
        return;
      }
    }
    FirstFrame(m, fp, sp, pc);
  }

  /** get_wchan: of a blocked task, the first pc of its frames outside the scheduler; otherwise 0. */
  method GetWchan(m: Machine, fp: nat, sp: nat, pc: nat, inSched: nat -> bool, blocked: bool) returns (wchan: nat)
    requires m.Valid() && fp < m.xl.M() && sp < m.xl.M()
    ensures !blocked ==> wchan == 0
    ensures blocked ==>
            var pcs := m.Frames(fp, sp, pc);
            || (wchan == 0 && forall i | 0 <= i < |pcs| :: inSched(pcs[i]))
            || exists k :: FirstOutside(pcs, inSched, k) && wchan == pcs[k]
  {
    if !blocked {
      return 0;
    }
    var saveWchan := (p: nat, arg: nat) => if !inSched(p) then (p, true) else (arg, false);
    wchan := WalkWith(m, fp, sp, pc, saveWchan, 0);
    FirstVisited(saveWchan, m.Frames(fp, sp, pc), inSched);
  }

  predicate FirstOutside(pcs: seq<nat>, inSched: nat -> bool, k: int) {
    0 <= k < |pcs| && !inSched(pcs[k]) && forall i | 0 <= i < k :: inSched(pcs[i])
  }

  lemma {:induction false} FirstVisited(fn: (nat, nat) -> (nat, bool), pcs: seq<nat>, inSched: nat -> bool)
    requires forall p: nat, arg: nat :: fn(p, arg) == if !inSched(p) then (p, true) else (arg, false)
    ensures var found := Visit(fn, pcs, 0);
            || (found == 0 && forall i | 0 <= i < |pcs| :: inSched(pcs[i]))
            || exists k :: FirstOutside(pcs, inSched, k) && found == pcs[k]
    decreases |pcs|
  {
    if pcs != [] {
      if !inSched(pcs[0]) {
        assert FirstOutside(pcs, inSched, 0);
      } else {
        FirstVisited(fn, pcs[1..], inSched);
        if k :| FirstOutside(pcs[1..], inSched, k) && Visit(fn, pcs[1..], 0) == pcs[1..][k] {
          assert FirstOutside(pcs, inSched, k + 1);
        } else {
          assert forall i | 1 <= i < |pcs| :: pcs[i] == pcs[1..][i - 1];
        }
      }
    }
  }

  /** save_stack_trace_tsk: the recorded pcs, then ULONG_MAX if there is room for it. */
  method SaveStackTrace(m: Machine, fp: nat, sp: nat, pc: nat, t: StackTrace)
    requires m.Valid() && fp < m.xl.M() && sp < m.xl.M()
    requires t.nr < t.max <= t.entries.Length
    modifies t`nr, t`skip, t.entries
    ensures var rec := Recorded(m.Frames(fp, sp, pc), old(t.skip), t.max - old(t.nr));
            Holds(t, old(t.entries[..]), old(t.nr),
                  if old(t.nr) + |rec| < t.max then rec + [m.xl.M() - 1] else rec)
  {
    hide Recorded;
    WalkStackframe(m, fp, sp, pc, t);
    if t.nr < t.max {
      t.entries[t.nr] := m.xl.M() - 1;
      t.nr := t.nr + 1;
    }
  }
}
