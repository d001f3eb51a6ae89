/** __copy_user and __clear_user: word loops between byte loops, every access to memory possibly
  ending in the shared fault fixup. */
module UserCopy {
  import opened Arith
  import opened Bits
  import WordAtATime
  import opened Xlen
  import opened MemCpy

  /** The hart as these routines see it.  `faults(k)` says whether the k-th access traps (any pattern
    is possible), `pum` is the sstatus bit that forbids the kernel to touch user memory, and
    `hasPum` is CONFIG_RV_PUM. */
  class Hart {
    const mem: array<byte>
    const faults: nat -> bool
    const hasPum: bool
    var accesses: nat
    var pum: bool

    constructor (mem: array<byte>, faults: nat -> bool, hasPum: bool)
      ensures this.mem == mem && this.faults == faults && this.hasPum == hasPum
      ensures accesses == 0 && pum == hasPum
    {
      this.mem, this.faults, this.hasPum := mem, faults, hasPum;
      accesses, pum := 0, hasPum;
    }

    /** User memory may be touched. */
    predicate Open()
      reads this
    {
      hasPum ==> !pum
    }

    /** One entry of the exception table: the access either happens or jumps to the fixup, as it does where
      there is no memory. */
    method Access(addr: nat, size: nat) returns (fault: bool)
      requires Open()
      modifies this`accesses
      ensures fault == (faults(old(accesses)) || addr + size > mem.Length) && accesses == old(accesses) + 1
    {
      fault := faults(accesses) || addr + size > mem.Length;
      accesses := accesses + 1;
    }

    method OpenWindow()
      modifies this`pum
      ensures Open() && (!hasPum ==> pum == old(pum))
    {
      if hasPum { pum := false; }
    }

    method CloseWindow()
      modifies this`pum
      ensures pum == if hasPum then true else old(pum)
    {
      if hasPum { pum := true; }
    }
  }

  /** Some access between the counts lo and hi trapped. */
  ghost predicate Faulted(h: Hart, lo: nat, hi: nat) { exists k: nat | lo <= k < hi :: h.faults(k) }

  // ----- copying -----

  /** The registers and memory after the bytes before a1 have been copied, since the call when
    memory was `was` and `start` accesses had been made. */
  ghost predicate CopyState(h: Hart, was: seq<byte>, start: nat, to: nat, from: nat, a0: nat, a1: nat, fault: bool)
    reads h, h.mem
  {
    && start <= h.accesses && from <= a1 && a0 - to == a1 - from
    && fault == Faulted(h, start, h.accesses)
    && Copied(h.mem[..], was, to, from, a1 - from)
  }

  /** Labels 4 and 5: bytes up to source address end. */
  method CopyByteLoop(h: Hart, a0: nat, a1: nat, end: nat,
                      ghost was: seq<byte>, ghost start: nat, ghost to: nat, ghost from: nat)
    returns (a0': nat, a1': nat, fault: bool)
    requires h.Open() && a1 <= end <= h.mem.Length && a0 + (end - a1) <= h.mem.Length
    requires to <= from || end <= to
    requires CopyState(h, was, start, to, from, a0, a1, false)
    modifies h`accesses, h.mem
    ensures CopyState(h, was, start, to, from, a0', a1', fault)
    ensures a1' <= end && fault == (a1' < end)
  {
    a0', a1', fault := a0, a1, false;
    while a1' < end
      invariant a1' <= end && CopyState(h, was, start, to, from, a0', a1', false)
      decreases end - a1'
    {
      fault := h.Access(a1', 1);
      if fault { return; }
      var t2 := h.mem[a1'];
      fault := h.Access(a0', 1);
      if fault { return; }
      h.mem[a0'] := t2;
      a1' := a1' + 1;
      a0' := a0' + 1;
    }
  }

  /** Label 1: registers up to source address end, at least one. */
  method CopyWordLoop(h: Hart, a0: nat, a1: nat, end: nat, xl: Width,
                      ghost was: seq<byte>, ghost start: nat, ghost to: nat, ghost from: nat)
    returns (a0': nat, a1': nat, fault: bool)
    requires h.Open() && a1 < end <= h.mem.Length && a0 + (end - a1) <= h.mem.Length
    requires to <= from || end <= to
    requires a0 % xl.SZREG() == 0 && a1 % xl.SZREG() == 0 && end % xl.SZREG() == 0
    requires CopyState(h, was, start, to, from, a0, a1, false)
    modifies h`accesses, h.mem
    ensures CopyState(h, was, start, to, from, a0', a1', fault)
    ensures a1' <= end && fault == (a1' < end)
  {
    a0', a1', fault := a0, a1, false;
    while true
      invariant a1' < end && CopyState(h, was, start, to, from, a0', a1', false)
      invariant a0' % xl.SZREG() == 0 && a1' % xl.SZREG() == 0
      decreases end - a1'
    {
      NextWord(a1', end, xl);
      AddMultiple(a0', 1, xl.SZREG());
      fault := h.Access(a1', xl.SZREG());
      if fault { return; }
      fault := h.Access(a0', xl.SZREG());
      if fault { return; }
      CopyWord(h.mem, a0', a1', was, to, from, xl.SZREG());
      a1' := a1' + xl.SZREG();
      a0' := a0' + xl.SZREG();
      if a1' >= end { return; }
    }
  }

  /** REG_L t2, (a1); REG_S t2, (a0). */
  method CopyWord(mem: array<byte>, a0: nat, a1: nat, ghost was: seq<byte>, ghost to: nat, ghost from: nat, sz: nat)
    requires sz > 0 && a0 % sz == 0 && a0 + sz <= mem.Length && a1 + sz <= mem.Length
    requires from <= a1 && a0 - to == a1 - from
    requires to <= from || a1 + sz <= to
    requires Copied(mem[..], was, to, from, a1 - from)
    modifies mem
    ensures Copied(mem[..], was, to, from, a1 + sz - from)
  {
    var t2 := FromBytes(mem[a1..a1 + sz]);
    assert mem[a1..a1 + sz] == was[a1..a1 + sz];
    StoreLoaded(mem, a0, t2, was, to, from, sz);
  }

  lemma NextWord(pos: nat, end: nat, xl: Width)
    requires pos < end && pos % xl.SZREG() == 0 && end % xl.SZREG() == 0
    ensures pos + xl.SZREG() <= end && (pos + xl.SZREG()) % xl.SZREG() == 0
  {
    if xl.RV32? { assert xl.SZREG() == 4; } else { assert xl.SZREG() == 8; }
  }

  /** Rounding p up to a register wraps around: p lies in the last register of the address space, but not
    at its start. */
  predicate Last(p: nat, xl: Width) { p + xl.SZREG() - 1 >= xl.M() }

  /** The word-oriented path for equally misaligned pointers: bytes to the first boundary, then
    registers to the last one.  When the first boundary wraps around to 0, nothing comes before the
    registers, and the first of them runs past the end of memory. */
  method CopyUserWords(h: Hart, to: nat, from: nat, a3: nat, xl: Width) returns (a0: nat, a1: nat, fault: bool)
    requires h.Open() && from < xl.M() && h.mem.Length <= xl.M()
    requires from <= a3 ==>
               a3 <= h.mem.Length && a3 < xl.M() && to + (a3 - from) <= h.mem.Length && (to <= from || a3 <= to)
    requires a3 < from ==> a3 == 0
    requires to % xl.SZREG() == from % xl.SZREG()
    modifies h`accesses, h.mem
    ensures h.accesses >= old(h.accesses)
    ensures a3 < from ==>
              !fault && a0 == to && a1 == from && h.mem[..] == old(h.mem[..]) && h.accesses == old(h.accesses)
    ensures from <= a3 ==>
              && a1 <= a3
              && if Last(from, xl) then fault && a0 == to && a1 == from && h.mem[..] == old(h.mem[..])
                 else CopyState(h, old(h.mem[..]), old(h.accesses), to, from, a0, a1, fault) && (fault ==> a1 < a3)
  {
    ghost var was, start := h.mem[..], h.accesses;
    a0, a1, fault := to, from, false;
    var t0, t1 := WordRange(to, from, a3, xl);
    if t0 < t1 {
      if a1 < t0 {
        a0, a1, fault := CopyByteLoop(h, a0, a1, t0, was, start, to, from);
      }
      if fault {
        return;
      }
      if Last(from, xl) {
        fault := h.Access(a1, xl.SZREG());
        return;
      }
      a0, a1, fault := CopyWordLoop(h, a0, a1, t1, xl, was, start, to, from);
    }
  }

  /** t0: lowest register boundary in the source; t1: highest one. */
  method WordRange(to: nat, from: nat, a3: nat, xl: Width) returns (t0: nat, t1: nat)
    requires from < xl.M() && a3 < xl.M() && to % xl.SZREG() == from % xl.SZREG()
    ensures t1 <= a3 && t1 % xl.SZREG() == 0 && t0 % xl.SZREG() == 0
    ensures Last(from, xl) ==> t0 == 0 && (from <= a3 ==> 0 < t1)
    ensures !Last(from, xl) ==> from <= t0 && (to + (t0 - from)) % xl.SZREG() == 0
  {
    hide Width.AlignDown, Width.M, Width.SZREG;
    AlignedDown(a3, xl);
    t0 := xl.AlignDown((from + xl.SZREG() - 1) % xl.M());
    t1 := xl.AlignDown(a3);
    if Last(from, xl) {
      LastRounds(from, if from <= a3 then a3 else from, xl);
    } else {
      FirstRounds(to, from, xl);
    }
  }

  lemma FirstRounds(to: nat, from: nat, xl: Width)
    requires !Last(from, xl) && to % xl.SZREG() == from % xl.SZREG()
    ensures var t0 := xl.AlignDown((from + xl.SZREG() - 1) % xl.M());
            t0 % xl.SZREG() == 0 && from <= t0 && (to + (t0 - from)) % xl.SZREG() == 0
  {
    var x := from + xl.SZREG() - 1;
    DivUnique(x, xl.M(), 0, x);
    xl.RoundUp(from);
    PeelPhase(to, from, xl.AlignDown(x), xl);
  }

  lemma LastRounds(p: nat, q: nat, xl: Width)
    requires Last(p, xl) && p <= q < xl.M()
    ensures xl.AlignDown((p + xl.SZREG() - 1) % xl.M()) == 0 < xl.AlignDown(q)
  {
    var over := p + xl.SZREG() - 1 - xl.M();
    DivUnique(p + xl.SZREG() - 1, xl.M(), 1, over);
    xl.Aligned(over);
    xl.Aligned(q);
    DivUnique(over, xl.SZREG(), 0, over);
  }

  lemma AlignedDown(x: nat, xl: Width)
    requires x < xl.M()
    ensures xl.AlignDown(x) % xl.SZREG() == 0
  {
    hide Width.SZREG, Width.AlignDown;
    xl.Aligned(x);
    DivMod(x, xl.SZREG());
    DivUnique(x - x % xl.SZREG(), xl.SZREG(), x / xl.SZREG(), 0);
  }

  lemma PeelPhase(to: nat, from: nat, t0: nat, xl: Width)
    requires to % xl.SZREG() == from % xl.SZREG() && from <= t0 && t0 % xl.SZREG() == 0
    ensures (to + (t0 - from)) % xl.SZREG() == 0
  {
    if xl.RV32? { assert xl.SZREG() == 4; } else { assert xl.SZREG() == 8; }
  }

  /** `__copy_user(to, from, n)`.  Exactly a prefix of `done` bytes is copied; without a fault it is
    everything and 0 is returned.  On a fault the shared fixup subtracts the destination pointer
    from the end of the source, so the number of bytes left comes out shifted by from - to.  A source
    in the last register of the address space faults at once, whatever n is, if the destination is
    equally misaligned.  If the source ends with the address space, its end wraps around to 0: nothing is
    copied, and 0 returned. */
  method CopyUser(h: Hart, to: nat, from: nat, n: nat, xl: Width) returns (ret: nat, ghost done: nat)
    requires from + n <= h.mem.Length && to + n <= h.mem.Length
    requires from < xl.M() && to < xl.M() && n < xl.M() && h.mem.Length <= xl.M()
    requires to <= from || from + n <= to
    modifies h, h.mem
    ensures done <= n && Copied(h.mem[..], old(h.mem[..]), to, from, done)
    ensures h.accesses >= old(h.accesses)
    ensures if from + n == xl.M() then done == 0 && ret == 0 && h.accesses == old(h.accesses)
            else if Last(from, xl) && to % xl.SZREG() == from % xl.SZREG() then
              done == 0 && ret == (from + n - to) % xl.M()
            else
              var fault := Faulted(h, old(h.accesses), h.accesses);
              && (fault <==> done < n)
              && ret == if fault then (from + n - (to + done)) % xl.M() else 0
    ensures h.pum == if h.hasPum then true else old(h.pum)
  {
    hide Copied, And;
    ghost var was, start := h.mem[..], h.accesses;
    h.OpenWindow();
    xl.Aligned(to);
    xl.Aligned(from);
    var a0, a1, a3, fault := to, from, xl.Reg(from + n), false;
    if And(a0, xl.SZREG() - 1) == And(a1, xl.SZREG() - 1) {
      a0, a1, fault := CopyUserWords(h, a0, a1, a3, xl);
    }
    if !fault && a1 < a3 {
      a0, a1, fault := CopyByteLoop(h, a0, a1, a3, was, start, to, from);
    }
    NothingCopied(was, to, from);
    done := a1 - from;
    h.CloseWindow();
    ret := if fault then (a3 - a0) % xl.M() else 0;
  }

  /** The count returned by __copy_user after a fault is the number of bytes left exactly when source
    and destination are the same address. */
  lemma CopyFaultCount(to: nat, from: nat, n: nat, done: nat, xl: Width)
    requires to < xl.M() && from < xl.M() && n < xl.M() && done <= n
    ensures (from + n - (to + done)) % xl.M() == n - done <==> to == from
  {
    if to == from {
      DivUnique(n - done, xl.M(), 0, n - done);
    } else if (from + n - (to + done)) % xl.M() == n - done {
      DivMod(from + n - (to + done), xl.M());
      SmallMultiple((from + n - (to + done)) / xl.M(), xl.M());
    }
  }

  // ----- clearing -----

  ghost predicate ClearState(h: Hart, was: seq<byte>, start: nat, to: nat, a0: nat, fault: bool)
    reads h, h.mem
  {
    && start <= h.accesses && to <= a0
    && fault == Faulted(h, start, h.accesses)
    && Filled(h.mem[..], was, to, a0, 0)
  }

  method ClearByteLoop(h: Hart, a0: nat, end: nat, ghost was: seq<byte>, ghost start: nat, ghost to: nat)
    returns (a0': nat, fault: bool)
    requires h.Open() && a0 <= end <= h.mem.Length
    requires ClearState(h, was, start, to, a0, false)
    modifies h`accesses, h.mem
    ensures ClearState(h, was, start, to, a0', fault) && a0' <= end && fault == (a0' < end)
  {
    a0', fault := a0, false;
    while a0' < end
      invariant a0' <= end && ClearState(h, was, start, to, a0', false)
      decreases end - a0'
    {
      fault := h.Access(a0', 1);
      if fault { return; }
      h.mem[a0'] := 0;
      a0' := a0' + 1;
    }
  }

  method ClearWordLoop(h: Hart, a0: nat, end: nat, xl: Width,
                       ghost was: seq<byte>, ghost start: nat, ghost to: nat)
    returns (a0': nat, fault: bool)
    requires h.Open() && a0 < end <= h.mem.Length
    requires a0 % xl.SZREG() == 0 && end % xl.SZREG() == 0
    requires ClearState(h, was, start, to, a0, false)
    modifies h`accesses, h.mem
    ensures ClearState(h, was, start, to, a0', fault) && a0' <= end && fault == (a0' < end)
  {
    a0', fault := a0, false;
    while true
      invariant a0' < end && a0' % xl.SZREG() == 0 && ClearState(h, was, start, to, a0', false)
      decreases end - a0'
    {
      NextWord(a0', end, xl);
      fault := h.Access(a0', xl.SZREG());
      if fault { return; }
      ghost var mid := h.mem[..];
      ZeroWord(h.mem, a0', xl.SZREG());
      FilledJoin(was, mid, h.mem[..], to, a0', a0' + xl.SZREG(), 0);
      a0' := a0' + xl.SZREG();
      if a0' >= end { return; }
    }
  }

  /** REG_S zero, (a0). */
  method ZeroWord(mem: array<byte>, a0: nat, sz: nat)
    requires sz > 0 && a0 % sz == 0 && a0 + sz <= mem.Length
    modifies mem
    ensures Filled(mem[..], old(mem[..]), a0, a0 + sz, 0)
  {
    StoreReg(mem, a0, 0, sz);
    forall i: nat | i < sz ensures WordAtATime.Byte(0, i) == 0 { ZeroBytes(i); }
  }

  lemma {:induction false} ZeroBytes(i: nat)
    ensures WordAtATime.Byte(0, i) == 0
  {
    if i > 0 { ZeroBytes(i - 1); }
  }

  /** The path by registers, as for the copy. */
  method ClearUserWords(h: Hart, to: nat, a3: nat, xl: Width) returns (a0: nat, fault: bool)
    requires h.Open() && to < xl.M() && a3 <= h.mem.Length && a3 < xl.M() && h.mem.Length <= xl.M()
    requires a3 < to ==> a3 == 0
    modifies h`accesses, h.mem
    ensures h.accesses >= old(h.accesses)
    ensures a3 < to ==> !fault && a0 == to && h.mem[..] == old(h.mem[..]) && h.accesses == old(h.accesses)
    ensures to <= a3 ==>
              && a0 <= a3
              && if Last(to, xl) then fault && a0 == to && h.mem[..] == old(h.mem[..])
                 else ClearState(h, old(h.mem[..]), old(h.accesses), to, a0, fault) && (fault ==> a0 < a3)
  {
    ghost var was, start := h.mem[..], h.accesses;
    a0, fault := to, false;
    var t0, t1 := WordRange(to, to, a3, xl);
    if t0 < t1 {
      if a0 < t0 {
        a0, fault := ClearByteLoop(h, a0, t0, was, start, to);
      }
      if fault {
        return;
      }
      if Last(to, xl) {
        fault := h.Access(a0, xl.SZREG());
        return;
      }
      a0, fault := ClearWordLoop(h, a0, t1, xl, was, start, to);
    }
  }

  /** `__clear_user(to, n)`: exactly a prefix is cleared, and the result is the number of bytes that
    were not; nothing is cleared in the last register of the address space.  If the region ends with the
    address space, nothing is cleared either, and 0 returned. */
  method ClearUser(h: Hart, to: nat, n: nat, xl: Width) returns (ret: nat, ghost done: nat)
    requires to + n <= h.mem.Length && to < xl.M() && n < xl.M() && h.mem.Length <= xl.M()
    modifies h, h.mem
    ensures done <= n && Filled(h.mem[..], old(h.mem[..]), to, to + done, 0)
    ensures h.accesses >= old(h.accesses)
    ensures if to + n == xl.M() then done == 0 && ret == 0 && h.accesses == old(h.accesses)
            else
              && ret == n - done
              && if Last(to, xl) then done == 0 else done < n <==> Faulted(h, old(h.accesses), h.accesses)
    ensures h.pum == if h.hasPum then true else old(h.pum)
  {
    hide Filled, Faulted, Last;
    ghost var was, start := h.mem[..], h.accesses;
    h.OpenWindow();
    var a3 := xl.Reg(to + n);
    var a0, fault := ClearUserWords(h, to, a3, xl);
    if !fault && a0 < a3 {
      a0, fault := ClearByteLoop(h, a0, a3, was, start, to);
    }
    NothingFilled(was, to);
    done := a0 - to;
    h.CloseWindow();
    if fault { SmallRest(a3 - a0, xl.M()); }
    ret := if fault then (a3 - a0) % xl.M() else 0;
  }

  lemma SmallRest(x: int, m: int)
    requires 0 <= x < m
    ensures x % m == x
  {}

  lemma NothingFilled(was: seq<byte>, to: nat)
    ensures Filled(was, was, to, to, 0)
  {}
}
