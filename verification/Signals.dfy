/** Signal frames on the user stack: delivery and rt_sigreturn, nested to any depth (64-bit registers).

  The layout of `struct rt_sigframe` comes from generic headers and is a parameter.  What a copy to or
  from the user finds unmapped is a set of word addresses; a copy stops at the first of them.  The
  floating-point state is the words of thread.fstate; alternate stacks and system call restarts are not
  modelled.
 */
module Signals {
  import opened Bits
  import opened TrapFrames

  /** Byte offsets of info, uc, uc.uc_flags, uc.uc_link, uc.uc_stack, sc_regs, sc_fpregs and uc.uc_sigmask,
    the numbers of words copied to info and to sc_fpregs, and the size of the frame. */
  datatype Layout = Layout(info: nat, uc: nat, flags: nat, link: nat, stack: nat, regs: nat, fp: nat, mask: nat,
                           infoWords: nat, fpWords: nat, size: nat)
  {
    /** Offset and number of words of every field, in the order in which they are written. */
    function Fields(): (s: seq<(nat, nat)>)
      ensures |s| == 7
    {
      [(info, infoWords), (flags, 1), (link, 1), (stack, 3), (regs, 32), (fp, fpWords), (mask, 1)]
    }

    predicate Valid() {
      && size < 0x1_0000
      && (forall p | 0 <= p < 7 :: Fields()[p].0 + 8 * Fields()[p].1 <= size)
      && forall p, q | 0 <= p < q < 7 :: Apart(Fields()[p], Fields()[q])
    }
  }

  predicate Apart(a: (nat, nat), b: (nat, nat)) { a.0 + 8 * a.1 <= b.0 || b.0 + 8 * b.1 <= a.0 }

  /** The words at base. */
  ghost predicate WordsAt(mem: Memory, base: int, ws: seq<nat>) {
    forall i | 0 <= i < |ws| :: Load(mem, base + 8 * i) == ws[i]
  }

  ghost predicate OnlySigFrame(mem: Memory, mem': Memory, l: Layout, base: int) {
    OnlyWithin(mem, mem', base, base + l.size)
  }

  /** pc and x1 to x31: the front of pt_regs, and what sc_regs holds. */
  function UserWords(r: PtRegs): (s: seq<nat>)
    requires |r.x| == 32
    ensures |s| == 32
  {
    [r.sepc] + r.x[1..]
  }

  /** What the frame holds for rt_sigreturn. */
  ghost predicate SavedAt(mem: Memory, l: Layout, base: int, r: PtRegs, fstate: seq<nat>, oldset: nat) {
    && |r.x| == 32 && WordsAt(mem, base + l.regs, UserWords(r)) && WordsAt(mem, base + l.fp, fstate)
    && Load(mem, base + l.mask) == oldset
  }

  lemma SavedOneByOne(mem: Memory, l: Layout, base: int, r: PtRegs, fstate: seq<nat>, oldset: nat)
    requires SavedAt(mem, l, base, r, fstate, oldset)
    ensures |r.x| == 32 && Load(mem, base + l.regs) == r.sepc && Load(mem, base + l.mask) == oldset
    ensures forall i | 1 <= i < 32 :: Load(mem, base + l.regs + 8 * i) == r.x[i]
    ensures WordsAt(mem, base + l.fp, fstate)
  {
    assert Load(mem, base + l.regs + 8 * 0) == UserWords(r)[0];
    forall i | 1 <= i < 32
      ensures Load(mem, base + l.regs + 8 * i) == r.x[i]
    {
      assert Load(mem, base + l.regs + 8 * i) == UserWords(r)[i];
    }
  }

  /** The registers rt_sigreturn gives back: pc and x1 to x31. */
  predicate SameUserRegs(r: PtRegs, q: PtRegs) {
    |r.x| == 32 && |q.x| == 32 && q.sepc == r.sepc && forall i | 1 <= i < 32 :: q.x[i] == r.x[i]
  }

  /** sp less the frame, as a machine word, aligned down to 16 bytes. */
  function SigFrameAt(l: Layout, sp: nat): nat
    requires l.Valid() && sp < W64
  {
    var top := if sp >= l.size then sp - l.size else sp - l.size + W64;
    top - top % 16
  }

  predicate AccessOk(l: Layout, limit: nat, frame: nat) { l.size <= limit && frame <= limit - l.size }

  /** Frames are aligned, and below the interrupted stack pointer: a frame that would wrap around is not
    accessible. */
  lemma FrameBelowSp(l: Layout, limit: nat, sp: nat)
    requires l.Valid() && sp < W64 && limit <= 0x8000_0000_0000_0000
    ensures SigFrameAt(l, sp) % 16 == 0
    ensures l.size <= sp ==> SigFrameAt(l, sp) <= sp - l.size < SigFrameAt(l, sp) + 16
    ensures AccessOk(l, limit, SigFrameAt(l, sp)) ==> SigFrameAt(l, sp) + l.size <= sp
  {}

  /** The registers a handler starts with. */
  function HandlerRegs(l: Layout, r: PtRegs, frame: nat, sig: nat, handler: nat, ra: nat): PtRegs
    requires |r.x| == 32
  {
    r.(sepc := handler, x := r.x[1 := ra][2 := frame][10 := sig][11 := frame + l.info][12 := frame + l.uc])
  }

  lemma HandlerRegsAre(l: Layout, r: PtRegs, frame: nat, sig: nat, handler: nat, ra: nat)
    requires |r.x| == 32
    ensures var q := HandlerRegs(l, r, frame, sig, handler, ra);
            && |q.x| == 32 && q.x[10] == sig && q.x[2] == frame && q.x[1] == ra && q.sepc == handler
            && q.x[11] == frame + l.info && q.x[12] == frame + l.uc
            && (forall i | 0 <= i < 32 && i !in {1, 2, 10, 11, 12} :: q.x[i] == r.x[i])
            && q.status == r.status && q.badaddr == r.badaddr && q.cause == r.cause
  {}

  // ----- copies that may fault -----

  /** Words at base a copy of n moves: those before the first address in bad. */
  function Moved(bad: set<int>, base: int, n: nat): (m: nat)
    ensures m <= n && (m < n ==> base + 8 * m in bad) && forall i | 0 <= i < m :: base + 8 * i !in bad
  {
    if n == 0 then 0
    else if Moved(bad, base, n - 1) < n - 1 || base + 8 * (n - 1) in bad then Moved(bad, base, n - 1)
    else n
  }

  /** A copy that stops at k, before the end only if the next word faults. */
  lemma {:induction false} MovedIs(bad: set<int>, base: int, n: nat, k: nat)
    requires k <= n && (k < n ==> base + 8 * k in bad) && forall i | 0 <= i < k :: base + 8 * i !in bad
    ensures Moved(bad, base, n) == k
  {}

  /** A word-aligned copy to the user. */
  method CopyOut(mem: Memory, bad: set<int>, base: int, ws: seq<nat>) returns (mem': Memory, failed: bool)
    ensures failed == (Moved(bad, base, |ws|) < |ws|)
    ensures WordsAt(mem', base, ws[..Moved(bad, base, |ws|)])
    ensures OnlyWithin(mem, mem', base, base + 8 * Moved(bad, base, |ws|))
  {
    mem' := mem;
    var k := 0;
    while k < |ws| && base + 8 * k !in bad
      invariant k <= |ws| && (forall i | 0 <= i < k :: base + 8 * i !in bad)
      invariant WordsAt(mem', base, ws[..k]) && OnlyWithin(mem, mem', base, base + 8 * k)
    {
      mem' := mem'[base + 8 * k := ws[k]];
      k := k + 1;
    }
    MovedIs(bad, base, |ws|, k);
    failed := k < |ws|;
  }

  /** A word-aligned copy from the user, over the words in dst. */
  method CopyIn(mem: Memory, bad: set<int>, base: int, dst: seq<nat>) returns (ws: seq<nat>, failed: bool)
    ensures failed == (Moved(bad, base, |dst|) < |dst|) && |ws| == |dst|
    ensures WordsAt(mem, base, ws[..Moved(bad, base, |dst|)])
    ensures ws[Moved(bad, base, |dst|)..] == dst[Moved(bad, base, |dst|)..]
  {
    ws := dst;
    var k := 0;
    while k < |dst| && base + 8 * k !in bad
      invariant k <= |dst| == |ws| && (forall i | 0 <= i < k :: base + 8 * i !in bad)
      invariant WordsAt(mem, base, ws[..k]) && ws[k..] == dst[k..]
    {
      ws := ws[k := Load(mem, base + 8 * k)];
      k := k + 1;
    }
    MovedIs(bad, base, |dst|, k);
    failed := k < |dst|;
  }

  // ----- the parts of a frame -----

  /** What is written to the fields of a frame, in this order. */
  function Parts(info: seq<nat>, stack: seq<nat>, r: PtRegs, fstate: seq<nat>, oldset: nat): (s: seq<seq<nat>>)
    requires |r.x| == 32
    ensures |s| == 7
  {
    [info, [0], [0], stack, UserWords(r), fstate, [oldset]]
  }

  predicate PartsFit(l: Layout, parts: seq<seq<nat>>) {
    |parts| == 7 && forall p | 0 <= p < 7 :: |parts[p]| == l.Fields()[p].1
  }

  /** What is left of a part when the copy of it has faulted. */
  function Arrives(bad: set<int>, base: int, ws: seq<nat>): seq<nat> { ws[..Moved(bad, base, |ws|)] }

  predicate PartFaults(l: Layout, bad: set<int>, base: int, parts: seq<seq<nat>>, p: nat)
    requires PartsFit(l, parts) && p < 7
  {
    Moved(bad, base + l.Fields()[p].0, |parts[p]|) < |parts[p]|
  }

  /** The first n parts have been written to the frame at base, each up to its first fault. */
  ghost predicate Written(l: Layout, bad: set<int>, base: int, parts: seq<seq<nat>>, mem: Memory, n: nat)
    requires PartsFit(l, parts) && n <= 7
  {
    forall p | 0 <= p < n :: WordsAt(mem, base + l.Fields()[p].0, Arrives(bad, base + l.Fields()[p].0, parts[p]))
  }

  /** Writing one field leaves the others. */
  lemma OthersStay(l: Layout, bad: set<int>, base: int, parts: seq<seq<nat>>, mem: Memory, mem': Memory, n: nat)
    requires l.Valid() && PartsFit(l, parts) && n < 7 && Written(l, bad, base, parts, mem, n)
    requires OnlyWithin(mem, mem', base + l.Fields()[n].0, base + l.Fields()[n].0 + 8 * |parts[n]|)
    ensures Written(l, bad, base, parts, mem', n)
  {
    forall p | 0 <= p < n
      ensures WordsAt(mem', base + l.Fields()[p].0, Arrives(bad, base + l.Fields()[p].0, parts[p]))
    {
      assert Apart(l.Fields()[p], l.Fields()[n]);
      var a, ws := base + l.Fields()[p].0, Arrives(bad, base + l.Fields()[p].0, parts[p]);
      assert WordsAt(mem, a, ws);
      forall i | 0 <= i < |ws|
        ensures Load(mem', a + 8 * i) == ws[i]
      {
        assert Load(mem, a + 8 * i) == ws[i];
      }
    }
  }

  lemma {:induction false} OneMore(l: Layout, bad: set<int>, base: int, parts: seq<seq<nat>>, mem: Memory, n: nat)
    requires PartsFit(l, parts) && n < 7 && Written(l, bad, base, parts, mem, n)
    requires var a := base + l.Fields()[n].0; WordsAt(mem, a, parts[n][..Moved(bad, a, |parts[n]|)])
    ensures Written(l, bad, base, parts, mem, n + 1)
  {}

  predicate AnyFault(l: Layout, bad: set<int>, base: int, parts: seq<seq<nat>>, n: nat)
    requires PartsFit(l, parts) && n <= 7
  {
    exists p: nat | p < n :: PartFaults(l, bad, base, parts, p)
  }

  lemma AllArrive(l: Layout, bad: set<int>, base: int, parts: seq<seq<nat>>, mem: Memory, p: nat)
    requires PartsFit(l, parts) && p < 7 && Written(l, bad, base, parts, mem, 7) && !AnyFault(l, bad, base, parts, 7)
    ensures WordsAt(mem, base + l.Fields()[p].0, parts[p])
  {
    assert !PartFaults(l, bad, base, parts, p);
    assert Arrives(bad, base + l.Fields()[p].0, parts[p]) == parts[p];
  }

  /** A frame written without a fault holds what rt_sigreturn reads. */
  lemma WrittenIsSaved(l: Layout, bad: set<int>, base: int, info: seq<nat>, stack: seq<nat>, r: PtRegs,
                       fstate: seq<nat>, oldset: nat, mem: Memory)
    requires |r.x| == 32 && var parts := Parts(info, stack, r, fstate, oldset);
             PartsFit(l, parts) && Written(l, bad, base, parts, mem, 7) && !AnyFault(l, bad, base, parts, 7)
    ensures SavedAt(mem, l, base, r, fstate, oldset)
    ensures WordsAt(mem, base + l.info, info) && WordsAt(mem, base + l.stack, stack)
    ensures Load(mem, base + l.flags) == 0 && Load(mem, base + l.link) == 0
  {
    hide Written, AnyFault;
    var parts := Parts(info, stack, r, fstate, oldset);
    AllArrive(l, bad, base, parts, mem, 0);
    AllArrive(l, bad, base, parts, mem, 1);
    AllArrive(l, bad, base, parts, mem, 2);
    AllArrive(l, bad, base, parts, mem, 3);
    assert Load(mem, base + l.flags + 8 * 0) == parts[1][0] && Load(mem, base + l.link + 8 * 0) == parts[2][0];
    AllArrive(l, bad, base, parts, mem, 4);
    AllArrive(l, bad, base, parts, mem, 5);
    AllArrive(l, bad, base, parts, mem, 6);
    assert Load(mem, base + l.mask + 8 * 0) == parts[6][0];
  }

  predicate RegsOk(r: PtRegs) { |r.x| == 32 && r.sepc < W64 && forall i | 0 <= i < 32 :: r.x[i] < W64 }

  class Thread {
    const layout: Layout
    const limit: nat
    const vdsoReturn: nat
    var regs: PtRegs
    var fstate: seq<nat>
    var mem: Memory
    var bad: set<int>
    var blocked: nat
    var killed: bool

    constructor (layout: Layout, limit: nat, vdsoReturn: nat, regs: PtRegs, fstate: seq<nat>, mem: Memory,
                 bad: set<int>)
      ensures this.layout == layout && this.limit == limit && this.vdsoReturn == vdsoReturn && this.regs == regs
      ensures this.fstate == fstate && this.mem == mem && this.bad == bad && blocked == 0 && !killed
    {
      this.layout, this.limit, this.vdsoReturn := layout, limit, vdsoReturn;
      this.regs, this.fstate, this.mem, this.bad := regs, fstate, mem, bad;
      blocked, killed := 0, false;
    }

    predicate Valid()
      reads this
    {
      layout.Valid() && limit <= 0x8000_0000_0000_0000 && RegsOk(regs) && |fstate| == layout.fpWords
    }

    /** get_sigframe without an alternate stack */
    method GetSigframe() returns (frame: nat)
      requires Valid()
      ensures frame == SigFrameAt(layout, regs.x[2])
    {
      var sp := regs.x[2];
      sp := (sp - layout.size) % W64;
      frame := sp - sp % 16;
    }

    /** One of the copies of setup_rt_frame; err gathers their results. */
    method Put(frame: nat, offset: nat, ws: seq<nat>, err: bool, ghost parts: seq<seq<nat>>, ghost n: nat)
      returns (err': bool)
      requires Valid() && PartsFit(layout, parts) && n < 7 && ws == parts[n] && offset == layout.Fields()[n].0
      requires Written(layout, bad, frame, parts, mem, n) && err == AnyFault(layout, bad, frame, parts, n)
      modifies this`mem
      ensures Written(layout, bad, frame, parts, mem, n + 1) && err' == AnyFault(layout, bad, frame, parts, n + 1)
      ensures OnlySigFrame(old(mem), mem, layout, frame)
    {
      hide Written;
      var was := mem;
      var failed;
      mem, failed := CopyOut(mem, bad, frame + offset, ws);
      OthersStay(layout, bad, frame, parts, was, mem, n);
      OneMore(layout, bad, frame, parts, mem, n);
      assert failed == PartFaults(layout, bad, frame, parts, n);
      err' := err || failed;
    }

    /** setup_rt_frame.  It fails, leaving the registers alone, if the frame is not accessible or any of the
      copies faults; each copy is made as far as it goes. */
    method SetupRtFrame(sig: nat, handler: nat, info: seq<nat>, stack: seq<nat>, oldset: nat) returns (ok: bool)
      requires Valid() && |info| == layout.infoWords && |stack| == 3
      modifies this`regs, this`mem
      ensures var frame, parts := SigFrameAt(layout, old(regs).x[2]), Parts(info, stack, old(regs), fstate, oldset);
              && PartsFit(layout, parts)
              && ok == (AccessOk(layout, limit, frame) && !AnyFault(layout, bad, frame, parts, 7))
              && (!AccessOk(layout, limit, frame) ==> mem == old(mem))
              && (AccessOk(layout, limit, frame) ==> Written(layout, bad, frame, parts, mem, 7))
              && OnlySigFrame(old(mem), mem, layout, frame)
              && (!ok ==> regs == old(regs))
              && regs == if ok then HandlerRegs(layout, old(regs), frame, sig, handler, vdsoReturn) else old(regs)
      ensures ok ==>
                && |regs.x| == 32 && regs.x[10] == sig && regs.x[2] == SigFrameAt(layout, old(regs).x[2])
                && regs.x[11] == regs.x[2] + layout.info && regs.x[12] == regs.x[2] + layout.uc
                && regs.x[1] == vdsoReturn && regs.sepc == handler
                && (forall i | 0 <= i < 32 && i !in {1, 2, 10, 11, 12} :: regs.x[i] == old(regs).x[i])
                && regs.status == old(regs).status && regs.badaddr == old(regs).badaddr && regs.cause == old(regs).cause
      ensures var frame := SigFrameAt(layout, old(regs).x[2]);
              ok ==>
                && WordsAt(mem, frame + layout.info, info) && WordsAt(mem, frame + layout.stack, stack)
                && Load(mem, frame + layout.flags) == 0 && Load(mem, frame + layout.link) == 0
                && Load(mem, frame + layout.regs) == old(regs).sepc && Load(mem, frame + layout.mask) == oldset
                && (forall i | 1 <= i < 32 :: Load(mem, frame + layout.regs + 8 * i) == old(regs).x[i])
                && WordsAt(mem, frame + layout.fp, fstate)
    {
      hide Written, AnyFault, OnlyWithin, WordsAt, SavedAt, HandlerRegs;
      var frame := GetSigframe();
      ghost var parts := Parts(info, stack, regs, fstate, oldset);
      OnlyWithinSelf(mem, frame, frame + layout.size);
      if !AccessOk(layout, limit, frame) {
        return false;
      }
      var err := FillFrame(frame, info, stack, oldset, parts);
      if err {
        return false;
      }
      WrittenIsSaved(layout, bad, frame, info, stack, regs, fstate, oldset, mem);
      SavedOneByOne(mem, layout, frame, regs, fstate, oldset);
      HandlerRegsAre(layout, regs, frame, sig, handler, vdsoReturn);
      StartHandler(frame, sig, handler);
      return true;
    }

    /** Its last part, where the registers become the handler's. */
    method StartHandler(frame: nat, sig: nat, handler: nat)
      requires Valid()
      modifies this`regs
      ensures regs == HandlerRegs(layout, old(regs), frame, sig, handler, vdsoReturn)
    {
      regs := regs.(x := regs.x[1 := vdsoReturn]);
      regs := regs.(sepc := handler);
      regs := regs.(x := regs.x[2 := frame]);
      regs := regs.(x := regs.x[10 := sig]);
      regs := regs.(x := regs.x[11 := frame + layout.info]);
      regs := regs.(x := regs.x[12 := frame + layout.uc]);
    }

    /** The copies of setup_rt_frame. */
    method FillFrame(frame: nat, info: seq<nat>, stack: seq<nat>, oldset: nat, ghost parts: seq<seq<nat>>)
      returns (err: bool)
      requires Valid() && |info| == layout.infoWords && |stack| == 3
      requires parts == Parts(info, stack, regs, fstate, oldset)
      modifies this`mem
      ensures PartsFit(layout, parts) && Written(layout, bad, frame, parts, mem, 7)
      ensures err == AnyFault(layout, bad, frame, parts, 7) && OnlySigFrame(old(mem), mem, layout, frame)
    {
      var was := mem;
      NoneWritten(layout, bad, frame, parts, mem);
      hide Written, AnyFault, Layout.Valid, RegsOk, Load;
      err := Put(frame, layout.info, info, false, parts, 0);
      err := Put(frame, layout.flags, [0], err, parts, 1);
      err := Put(frame, layout.link, [0], err, parts, 2);
      err := Put(frame, layout.stack, stack, err, parts, 3);
      err := SetupSigcontext(frame, err, parts);
      err := Put(frame, layout.mask, [oldset], err, parts, 6);
    }

    method SetupSigcontext(frame: nat, err: bool, ghost parts: seq<seq<nat>>) returns (err': bool)
      requires Valid() && PartsFit(layout, parts) && parts[4] == UserWords(regs) && parts[5] == fstate
      requires Written(layout, bad, frame, parts, mem, 4) && err == AnyFault(layout, bad, frame, parts, 4)
      modifies this`mem
      ensures Written(layout, bad, frame, parts, mem, 6) && err' == AnyFault(layout, bad, frame, parts, 6)
      ensures OnlySigFrame(old(mem), mem, layout, frame)
    {
      hide Written, AnyFault, Layout.Valid, Load;
      err' := Put(frame, layout.regs, UserWords(regs), err, parts, 4);
      err' := Put(frame, layout.fp, fstate, err', parts, 5);
    }

    /** rt_sigreturn.  A frame that is not accessible or faults where it is read kills the thread. */
    method RtSigreturn() returns (a0: nat)
      requires Valid()
      modifies this`regs, this`fstate, this`blocked, this`killed
      ensures var frame := old(regs).x[2];
              && killed == (old(killed) || !Readable(layout, limit, bad, frame))
              && (Readable(layout, limit, bad, frame) ==>
                    |regs.x| == 32 && SavedAt(mem, layout, frame, regs, fstate, blocked) && a0 == regs.x[10]
                    && regs == old(regs).(sepc := regs.sepc, x := regs.x) && regs.x[0] == old(regs).x[0])
              && (!Readable(layout, limit, bad, frame) ==> a0 == 0)
              && (!AccessOk(layout, limit, frame) || frame + layout.mask in bad ==>
                    regs == old(regs) && fstate == old(fstate) && blocked == old(blocked))
              && (AccessOk(layout, limit, frame) && frame + layout.mask !in bad ==>
                    blocked == Load(mem, frame + layout.mask))
      ensures |regs.x| == 32 && |fstate| == layout.fpWords
      ensures var frame := old(regs).x[2];
              Readable(layout, limit, bad, frame) ==>
                && regs.sepc == Load(mem, frame + layout.regs) && WordsAt(mem, frame + layout.fp, fstate)
                && forall i | 1 <= i < 32 :: regs.x[i] == Load(mem, frame + layout.regs + 8 * i)
    {
      hide SavedAt, WordsAt, UserWords, Moved;
      var frame := regs.x[2];
      if !AccessOk(layout, limit, frame) || frame + layout.mask in bad {
        killed := true;
        return 0;
      }
      blocked := Load(mem, frame + layout.mask);
      var failed := RestoreSigcontext(frame);
      if failed {
        killed := true;
        return 0;
      }
      // restore_altstack reads its three words
      if Moved(bad, frame + layout.stack, 3) < 3 {
        killed := true;
        return 0;
      }
      SavedNow(frame);
      SavedOneByOne(mem, layout, frame, regs, fstate, blocked);
      return regs.x[10];
    }

    lemma SavedNow(frame: int)
      requires |regs.x| == 32 && WordsAt(mem, frame + layout.regs, UserWords(regs))
      requires WordsAt(mem, frame + layout.fp, fstate) && blocked == Load(mem, frame + layout.mask)
      ensures SavedAt(mem, layout, frame, regs, fstate, blocked)
    {}

    /** restore_sigcontext: the registers are copied over pt_regs as far as the copy goes. */
    method RestoreSigcontext(frame: nat) returns (err: bool)
      requires Valid()
      modifies this`regs, this`fstate
      ensures err == (Moved(bad, frame + layout.regs, 32) < 32
                      || Moved(bad, frame + layout.fp, layout.fpWords) < layout.fpWords)
      ensures |regs.x| == 32 && |fstate| == layout.fpWords
      ensures !err ==> WordsAt(mem, frame + layout.regs, UserWords(regs)) && WordsAt(mem, frame + layout.fp, fstate)
      ensures regs == old(regs).(sepc := regs.sepc, x := regs.x) && regs.x[0] == old(regs).x[0]
      ensures var n := Moved(bad, frame + layout.regs, 32);
              WordsAt(mem, frame + layout.regs, UserWords(regs)[..n])
                  && UserWords(regs)[n..] == UserWords(old(regs))[n..]
      ensures var n := Moved(bad, frame + layout.fp, layout.fpWords);
              WordsAt(mem, frame + layout.fp, fstate[..n]) && fstate[n..] == old(fstate)[n..]
    {
      var ws, failed := CopyIn(mem, bad, frame + layout.regs, UserWords(regs));
      regs := regs.(sepc := ws[0], x := [regs.x[0]] + ws[1..]);
      assert UserWords(regs) == ws;
      err := failed;
      fstate, failed := CopyIn(mem, bad, frame + layout.fp, fstate);
      err := err || failed;
      if !err {
        assert UserWords(regs)[..32] == UserWords(regs) && fstate[..|fstate|] == fstate;
      }
    }
  }

  /** None of n words at base faults. */
  predicate Clear(bad: set<int>, base: int, n: nat) { forall i | 0 <= i < n :: base + 8 * i !in bad }

  lemma {:induction false} MovedAll(bad: set<int>, base: int, n: nat)
    ensures Moved(bad, base, n) == n <==> Clear(bad, base, n)
  {
    if Moved(bad, base, n) < n { assert base + 8 * Moved(bad, base, n) in bad; }
  }

  /** rt_sigreturn can read a frame if it ends within the limit and none of the words of the mask, the registers,
    the floating-point state and the stack faults. */
  lemma ReadableIs(l: Layout, limit: nat, bad: set<int>, frame: nat)
    ensures Readable(l, limit, bad, frame) <==>
            && frame + l.size <= limit && frame + l.mask !in bad && Clear(bad, frame + l.regs, 32)
            && Clear(bad, frame + l.fp, l.fpWords) && Clear(bad, frame + l.stack, 3)
  {
    hide Moved, Clear;
    MovedAll(bad, frame + l.regs, 32);
    MovedAll(bad, frame + l.fp, l.fpWords);
    MovedAll(bad, frame + l.stack, 3);
  }

  /** A delivery writes its frame without a fault exactly if no word of any field faults. */
  lemma FaultsAre(l: Layout, bad: set<int>, base: int, parts: seq<seq<nat>>)
    requires PartsFit(l, parts)
    ensures !AnyFault(l, bad, base, parts, 7) <==>
            && Clear(bad, base + l.info, l.infoWords) && Clear(bad, base + l.flags, 1) && Clear(bad, base + l.link, 1)
            && Clear(bad, base + l.stack, 3) && Clear(bad, base + l.regs, 32) && Clear(bad, base + l.fp, l.fpWords)
            && Clear(bad, base + l.mask, 1)
  {
    hide Moved, Clear, AnyFault, PartFaults, PartsFit, Layout.Fields;
    FieldsAre(l);
    PartClear(l, bad, base, parts, 0, l.info, l.infoWords);
    PartClear(l, bad, base, parts, 1, l.flags, 1);
    PartClear(l, bad, base, parts, 2, l.link, 1);
    PartClear(l, bad, base, parts, 3, l.stack, 3);
    PartClear(l, bad, base, parts, 4, l.regs, 32);
    PartClear(l, bad, base, parts, 5, l.fp, l.fpWords);
    PartClear(l, bad, base, parts, 6, l.mask, 1);
    SevenFaults(l, bad, base, parts);
  }

  lemma PartClear(l: Layout, bad: set<int>, base: int, parts: seq<seq<nat>>, p: nat, offset: nat, n: nat)
    requires PartsFit(l, parts) && p < 7 && l.Fields()[p] == (offset, n)
    ensures PartFaults(l, bad, base, parts, p) == !Clear(bad, base + offset, n)
  {
    hide Clear, Moved;
    MovedAll(bad, base + offset, n);
  }

  lemma FieldsAre(l: Layout)
    ensures l.Fields()[0] == (l.info, l.infoWords) && l.Fields()[1] == (l.flags, 1) && l.Fields()[2] == (l.link, 1)
    ensures l.Fields()[3] == (l.stack, 3) && l.Fields()[4] == (l.regs, 32) && l.Fields()[5] == (l.fp, l.fpWords)
    ensures l.Fields()[6] == (l.mask, 1)
  {}

  lemma SevenFaults(l: Layout, bad: set<int>, base: int, parts: seq<seq<nat>>)
    requires PartsFit(l, parts)
    ensures !AnyFault(l, bad, base, parts, 7) <==>
            && !PartFaults(l, bad, base, parts, 0) && !PartFaults(l, bad, base, parts, 1)
            && !PartFaults(l, bad, base, parts, 2) && !PartFaults(l, bad, base, parts, 3)
            && !PartFaults(l, bad, base, parts, 4) && !PartFaults(l, bad, base, parts, 5)
            && !PartFaults(l, bad, base, parts, 6)
  {
    hide PartFaults;
  }

  /** rt_sigreturn finds everything it reads. */
  predicate Readable(l: Layout, limit: nat, bad: set<int>, frame: nat) {
    && AccessOk(l, limit, frame) && frame + l.mask !in bad && Moved(bad, frame + l.regs, 32) == 32
    && Moved(bad, frame + l.fp, l.fpWords) == l.fpWords && Moved(bad, frame + l.stack, 3) == 3
  }

  lemma OnlyWithinSelf(mem: Memory, lo: int, hi: int)
    ensures OnlyWithin(mem, mem, lo, hi)
  {}

  lemma NoneWritten(l: Layout, bad: set<int>, base: int, parts: seq<seq<nat>>, mem: Memory)
    requires PartsFit(l, parts)
    ensures Written(l, bad, base, parts, mem, 0) && !AnyFault(l, bad, base, parts, 0)
  {}

  lemma {:induction false} SavedIsUnique(mem: Memory, l: Layout, base: int, r: PtRegs, q: PtRegs, f: seq<nat>,
                                         g: seq<nat>, m: nat, n: nat)
    requires SavedAt(mem, l, base, r, f, m) && SavedAt(mem, l, base, q, g, n) && |f| == |g|
    ensures SameUserRegs(r, q) && f == g && m == n
  {
    forall i | 0 <= i < 32
      ensures UserWords(r)[i] == UserWords(q)[i]
    {
      assert Load(mem, base + l.regs + 8 * i) == UserWords(r)[i];
    }
    forall i | 1 <= i < 32
      ensures r.x[i] == q.x[i]
    {
      assert UserWords(r)[i] == UserWords(q)[i];
    }
    assert UserWords(r)[0] == UserWords(q)[0];
    forall i | 0 <= i < |f|
      ensures f[i] == g[i]
    {
      assert Load(mem, base + l.fp + 8 * i) == f[i];
    }
  }

  // ----- runs of one thread -----

  /** A thread in user mode; frames are the addresses of its live signal frames, outermost first. */
  datatype User = User(regs: PtRegs, fstate: seq<nat>, mem: Memory, blocked: nat, frames: seq<int>)

  datatype Event =
    | Run
    | Deliver(sig: nat, handler: nat, ra: nat, info: seq<nat>, stack: seq<nat>, oldset: nat, nowBlocked: nat)
    | DeliveryFails
    | Sigreturn

  /** Delivery finds no fault. */
  ghost predicate Delivers(l: Layout, limit: nat, u: User, e: Event, v: User)
    requires e.Deliver?
  {
    && l.Valid() && RegsOk(u.regs) && |u.fstate| == l.fpWords && |e.info| == l.infoWords && |e.stack| == 3
    && var frame := SigFrameAt(l, u.regs.x[2]);
       var parts := Parts(e.info, e.stack, u.regs, u.fstate, e.oldset);
       && AccessOk(l, limit, frame) && OnlySigFrame(u.mem, v.mem, l, frame)
       && (exists bad :: Written(l, bad, frame, parts, v.mem, 7) && !AnyFault(l, bad, frame, parts, 7))
       && v.regs == HandlerRegs(l, u.regs, frame, e.sig, e.handler, e.ra) && RegsOk(v.regs)
       && v.fstate == u.fstate && v.blocked == e.nowBlocked
  }

  /** rt_sigreturn reads the frame at sp. */
  ghost predicate Sigreturns(l: Layout, limit: nat, u: User, v: User) {
    && |u.regs.x| == 32 && AccessOk(l, limit, u.regs.x[2])
    && SavedAt(u.mem, l, u.regs.x[2], v.regs, v.fstate, v.blocked)
    && v.mem == u.mem && v.regs == u.regs.(sepc := v.regs.sepc, x := v.regs.x) && v.regs.x[0] == u.regs.x[0]
    && |v.fstate| == l.fpWords
  }

  /** The words of a frame that rt_sigreturn restores. */
  ghost predicate SameSaved(l: Layout, mem: Memory, mem': Memory, a: int) {
    && Load(mem', a + l.mask) == Load(mem, a + l.mask)
    && (forall i | 0 <= i < 32 :: Load(mem', a + l.regs + 8 * i) == Load(mem, a + l.regs + 8 * i))
    && forall i | 0 <= i < l.fpWords :: Load(mem', a + l.fp + 8 * i) == Load(mem, a + l.fp + 8 * i)
  }

  /** What frame k has above it: the next frame outwards. */
  predicate BelowOuter(frames: seq<int>, k: nat, a: int)
    requires k <= |frames|
  {
    k > 0 ==> a <= frames[k - 1]
  }

  /** User code keeps what live frames hold and runs below them, and calls sigreturn with sp at the innermost. */
  ghost predicate Step(l: Layout, limit: nat, u: User, e: Event, v: User) {
    && l.Valid() && RegsOk(u.regs)
    && match e
       case Run =>
         && RegsOk(v.regs) && |v.fstate| == l.fpWords && v.frames == u.frames
         && BelowOuter(u.frames, |u.frames|, v.regs.x[2])
         && forall k | 0 <= k < |u.frames| :: SameSaved(l, u.mem, v.mem, u.frames[k])
       case Deliver(_, _, _, _, _, _, _) =>
         Delivers(l, limit, u, e, v) && v.frames == u.frames + [SigFrameAt(l, u.regs.x[2])]
       case DeliveryFails =>
         var frame := SigFrameAt(l, u.regs.x[2]);
         && (if AccessOk(l, limit, frame) then OnlySigFrame(u.mem, v.mem, l, frame) else v.mem == u.mem)
         && v == u.(mem := v.mem)
       case Sigreturn =>
         && u.frames != [] && u.regs.x[2] == u.frames[|u.frames| - 1]
         && Sigreturns(l, limit, u, v) && v.frames == u.frames[..|u.frames| - 1]
  }

  /** sp as frame k holds it. */
  function SavedSp(l: Layout, mem: Memory, a: int): nat { Load(mem, a + l.regs + 16) }

  ghost predicate FrameOk(l: Layout, u: User, k: nat)
    requires k < |u.frames|
  {
    var a := u.frames[k];
    && a % 16 == 0 && a + l.size <= SavedSp(l, u.mem, a) && BelowOuter(u.frames, k, SavedSp(l, u.mem, a))
    && forall i | 0 <= i < 32 :: Load(u.mem, a + l.regs + 8 * i) < W64
  }

  ghost predicate Inv(l: Layout, u: User) {
    && l.Valid() && RegsOk(u.regs) && |u.fstate| == l.fpWords && BelowOuter(u.frames, |u.frames|, u.regs.x[2])
    && forall k | 0 <= k < |u.frames| :: FrameOk(l, u, k)
  }

  lemma {:induction false} FramesDescend(l: Layout, u: User, j: nat, k: nat)
    requires Inv(l, u) && j < k < |u.frames|
    ensures u.frames[k] + l.size <= u.frames[j]
  {
    assert FrameOk(l, u, k);
    if j < k - 1 {
      FramesDescend(l, u, j, k - 1);
      assert FrameOk(l, u, k - 1);
    }
  }

  lemma Offsets(l: Layout)
    requires l.Valid()
    ensures l.regs + 256 <= l.size && l.fp + 8 * l.fpWords <= l.size && l.mask + 8 <= l.size
  {
    assert l.Fields()[4] == (l.regs, 32) && l.Fields()[5] == (l.fp, l.fpWords) && l.Fields()[6] == (l.mask, 1);
  }

  /** Writing below sp spares every live frame. */
  lemma BelowSpKeeps(l: Layout, limit: nat, u: User, mem: Memory, k: nat)
    requires Inv(l, u) && k < |u.frames| && limit <= 0x8000_0000_0000_0000
    requires var frame := SigFrameAt(l, u.regs.x[2]); AccessOk(l, limit, frame) && OnlySigFrame(u.mem, mem, l, frame)
    ensures SameSaved(l, u.mem, mem, u.frames[k])
  {
    FrameBelowSp(l, limit, u.regs.x[2]);
    Offsets(l);
    if k < |u.frames| - 1 { FramesDescend(l, u, k, |u.frames| - 1); }
  }

  /** Every step keeps what live frames hold. */
  lemma StepKeepsFrame(l: Layout, limit: nat, u: User, e: Event, v: User, k: nat)
    requires Inv(l, u) && Step(l, limit, u, e, v) && Deeper(u, k) && Deeper(v, k) && limit <= 0x8000_0000_0000_0000
    ensures v.frames[k] == u.frames[k] && SameSaved(l, u.mem, v.mem, u.frames[k])
  {
    if e.Deliver? || (e.DeliveryFails? && AccessOk(l, limit, SigFrameAt(l, u.regs.x[2]))) {
      BelowSpKeeps(l, limit, u, v.mem, k);
    }
  }

  predicate Deeper(u: User, k: nat) { k < |u.frames| }

  lemma SameSavedOk(l: Layout, u: User, v: User, k: nat)
    requires Deeper(u, k) && Deeper(v, k) && FrameOk(l, u, k) && SameSaved(l, u.mem, v.mem, u.frames[k])
    requires v.frames[..k + 1] == u.frames[..k + 1]
    ensures FrameOk(l, v, k)
  {
    assert v.frames[k] == v.frames[..k + 1][k] == u.frames[k];
    if k > 0 { assert v.frames[k - 1] == v.frames[..k + 1][k - 1] == u.frames[k - 1]; }
    var a := u.frames[k];
    assert Load(v.mem, a + l.regs + 8 * 2) == Load(u.mem, a + l.regs + 8 * 2);
    forall i | 0 <= i < 32
      ensures Load(v.mem, a + l.regs + 8 * i) < W64
    {
      assert Load(u.mem, a + l.regs + 8 * i) < W64;
    }
  }

  /** A delivered frame holds the interrupted state. */
  lemma DeliverSaves(l: Layout, limit: nat, u: User, e: Event, v: User)
    requires Step(l, limit, u, e, v) && e.Deliver?
    ensures SavedAt(v.mem, l, SigFrameAt(l, u.regs.x[2]), u.regs, u.fstate, e.oldset)
  {
    var frame := SigFrameAt(l, u.regs.x[2]);
    var parts := Parts(e.info, e.stack, u.regs, u.fstate, e.oldset);
    hide Written, AnyFault;
    var bad :| Written(l, bad, frame, parts, v.mem, 7) && !AnyFault(l, bad, frame, parts, 7);
    WrittenIsSaved(l, bad, frame, e.info, e.stack, u.regs, u.fstate, e.oldset, v.mem);
  }

  lemma SavedWords(mem: Memory, l: Layout, a: int, r: PtRegs, fstate: seq<nat>, oldset: nat)
    requires SavedAt(mem, l, a, r, fstate, oldset) && RegsOk(r)
    ensures SavedSp(l, mem, a) == r.x[2] && forall i | 0 <= i < 32 :: Load(mem, a + l.regs + 8 * i) < W64
  {
    forall i | 0 <= i < 32
      ensures Load(mem, a + l.regs + 8 * i) < W64 && (i == 2 ==> Load(mem, a + l.regs + 8 * i) == r.x[2])
    {
      assert Load(mem, a + l.regs + 8 * i) == UserWords(r)[i];
    }
    assert Load(mem, a + l.regs + 8 * 2) == r.x[2];
  }

  lemma DeliverKeepsInv(l: Layout, limit: nat, u: User, e: Event, v: User)
    requires Inv(l, u) && Step(l, limit, u, e, v) && e.Deliver? && limit <= 0x8000_0000_0000_0000
    ensures Inv(l, v)
  {
    var frame := SigFrameAt(l, u.regs.x[2]);
    FrameBelowSp(l, limit, u.regs.x[2]);
    DeliverSaves(l, limit, u, e, v);
    SavedWords(v.mem, l, frame, u.regs, u.fstate, e.oldset);
    forall k | 0 <= k < |v.frames|
      ensures FrameOk(l, v, k)
    {
      if k < |u.frames| {
        StepKeepsFrame(l, limit, u, e, v, k);
        SameSavedOk(l, u, v, k);
      }
    }
  }

  /** rt_sigreturn goes back to a stack pointer below the next frame outwards. */
  lemma SigreturnKeepsInv(l: Layout, limit: nat, u: User, v: User)
    requires Inv(l, u) && Step(l, limit, u, Sigreturn, v)
    ensures Inv(l, v)
  {
    var a := u.frames[|u.frames| - 1];
    assert FrameOk(l, u, |u.frames| - 1);
    forall i | 0 <= i < 32
      ensures UserWords(v.regs)[i] == Load(u.mem, a + l.regs + 8 * i) < W64
    {}
    assert forall i | 1 <= i < 32 :: v.regs.x[i] == UserWords(v.regs)[i];
    assert v.regs.sepc == UserWords(v.regs)[0];
    forall k | 0 <= k < |v.frames|
      ensures FrameOk(l, v, k)
    {
      assert FrameOk(l, u, k);
    }
  }

  lemma StepInv(l: Layout, limit: nat, u: User, e: Event, v: User)
    requires Inv(l, u) && Step(l, limit, u, e, v) && limit <= 0x8000_0000_0000_0000
    ensures Inv(l, v)
  {
    match e
    case Deliver(_, _, _, _, _, _, _) => DeliverKeepsInv(l, limit, u, e, v);
    case Sigreturn => SigreturnKeepsInv(l, limit, u, v);
    case _ =>
      forall k | 0 <= k < |v.frames|
        ensures FrameOk(l, v, k)
      {
        assert FrameOk(l, u, k);
        StepKeepsFrame(l, limit, u, e, v, k);
        SameSavedOk(l, u, v, k);
      }
  }

  ghost predicate StepAt(l: Layout, limit: nat, us: seq<User>, es: seq<Event>, i: nat)
    requires i < |es| && |us| == |es| + 1
  {
    Step(l, limit, us[i], es[i], us[i + 1])
  }

  ghost predicate Runs(l: Layout, limit: nat, us: seq<User>, es: seq<Event>) {
    && |us| == |es| + 1 && Inv(l, us[0]) && limit <= 0x8000_0000_0000_0000
    && forall i | 0 <= i < |es| :: StepAt(l, limit, us, es, i)
  }

  lemma StepOf(l: Layout, limit: nat, us: seq<User>, es: seq<Event>, i: nat)
    requires Runs(l, limit, us, es) && i < |es|
    ensures Step(l, limit, us[i], es[i], us[i + 1])
  {
    assert StepAt(l, limit, us, es, i);
  }

  lemma {:induction false} RunInv(l: Layout, limit: nat, us: seq<User>, es: seq<Event>, i: nat)
    requires Runs(l, limit, us, es) && i < |us|
    ensures Inv(l, us[i])
  {
    hide Step, Inv;
    if i > 0 {
      RunInv(l, limit, us, es, i - 1);
      StepOf(l, limit, us, es, i - 1);
      StepInv(l, limit, us[i - 1], es[i - 1], us[i]);
    }
  }

  lemma SameSavedTwice(l: Layout, m: Memory, n: Memory, p: Memory, a: int)
    requires SameSaved(l, m, n, a) && SameSaved(l, n, p, a)
    ensures SameSaved(l, m, p, a)
  {
    forall i | 0 <= i < 32
      ensures Load(p, a + l.regs + 8 * i) == Load(m, a + l.regs + 8 * i)
    {
      assert Load(n, a + l.regs + 8 * i) == Load(m, a + l.regs + 8 * i);
    }
    forall i | 0 <= i < l.fpWords
      ensures Load(p, a + l.fp + 8 * i) == Load(m, a + l.fp + 8 * i)
    {
      assert Load(n, a + l.fp + 8 * i) == Load(m, a + l.fp + 8 * i);
    }
  }

  lemma SameSavedSelf(l: Layout, m: Memory, a: int)
    ensures SameSaved(l, m, m, a)
  {}

  /** A frame that stays live stays where it is, and keeps what it holds. */
  lemma {:induction false} FrameStays(l: Layout, limit: nat, us: seq<User>, es: seq<Event>, k: nat, i: nat, j: nat)
    requires Runs(l, limit, us, es) && i <= j < |us| && forall m | i <= m <= j :: Deeper(us[m], k)
    ensures Deeper(us[i], k) && Deeper(us[j], k) && us[j].frames[k] == us[i].frames[k]
    ensures SameSaved(l, us[i].mem, us[j].mem, us[i].frames[k])
    decreases j - i
  {
    hide Step, SameSaved, Inv;
    assert Deeper(us[i], k) && Deeper(us[j], k);
    if i == j {
      SameSavedSelf(l, us[i].mem, us[i].frames[k]);
    } else {
      FrameStays(l, limit, us, es, k, i, j - 1);
      assert Deeper(us[j - 1], k);
      RunInv(l, limit, us, es, j - 1);
      StepOf(l, limit, us, es, j - 1);
      StepKeepsFrame(l, limit, us[j - 1], es[j - 1], us[j], k);
      SameSavedTwice(l, us[i].mem, us[j - 1].mem, us[j].mem, us[i].frames[k]);
    }
  }

  /** A frame read back after others were put below it and taken off again. */
  lemma ReadsBack(l: Layout, m: Memory, n: Memory, a: int, r: PtRegs, f: seq<nat>, s: nat)
    requires SavedAt(m, l, a, r, f, s) && SameSaved(l, m, n, a) && |f| == l.fpWords
    ensures SavedAt(n, l, a, r, f, s)
  {
    forall i | 0 <= i < 32
      ensures Load(n, a + l.regs + 8 * i) == UserWords(r)[i]
    {
      assert Load(m, a + l.regs + 8 * i) == UserWords(r)[i];
    }
    forall i | 0 <= i < |f|
      ensures Load(n, a + l.fp + 8 * i) == f[i]
    {
      assert Load(m, a + l.fp + 8 * i) == f[i];
    }
  }

  lemma DeliverPushes(l: Layout, limit: nat, u: User, e: Event, v: User)
    requires Step(l, limit, u, e, v) && e.Deliver?
    ensures Deeper(v, |u.frames|) && v.frames[|u.frames|] == SigFrameAt(l, u.regs.x[2]) && |u.fstate| == l.fpWords
  {}

  lemma SigreturnPops(l: Layout, limit: nat, u: User, v: User)
    requires Step(l, limit, u, Sigreturn, v)
    ensures u.frames != [] && |v.frames| == |u.frames| - 1 && |v.fstate| == l.fpWords
    ensures SavedAt(u.mem, l, u.frames[|u.frames| - 1], v.regs, v.fstate, v.blocked)
  {}

  /** Delivery and sigreturn are inverse at any nesting depth: the sigreturn that reads the frame of a
    delivery back from the user's stack restores the user registers and the floating-point state of that
    moment, and the mask saved then. */
  lemma SigreturnUndoesDelivery(l: Layout, limit: nat, us: seq<User>, es: seq<Event>, i: nat, j: nat)
    requires Runs(l, limit, us, es) && i < j < |es| && es[i].Deliver? && es[j].Sigreturn?
    requires forall m | i < m <= j :: Deeper(us[m], |us[i].frames|)
    requires |us[j].frames| == |us[i].frames| + 1
    ensures SameUserRegs(us[i].regs, us[j + 1].regs) && us[j + 1].fstate == us[i].fstate
    ensures us[j + 1].blocked == es[i].oldset
    ensures |us[j + 1].frames| == |us[i].frames|
  {
    hide Step, SavedAt, SameSaved, SigFrameAt;
    var k, a := |us[i].frames|, us[j].frames[|us[i].frames|];
    RunInv(l, limit, us, es, i);
    StepOf(l, limit, us, es, i);
    StepOf(l, limit, us, es, j);
    DeliverPushes(l, limit, us[i], es[i], us[i + 1]);
    DeliverSaves(l, limit, us[i], es[i], us[i + 1]);
    FrameStays(l, limit, us, es, k, i + 1, j);
    ReadsBack(l, us[i + 1].mem, us[j].mem, a, us[i].regs, us[i].fstate, es[i].oldset);
    SigreturnPops(l, limit, us[j], us[j + 1]);
    SavedIsUnique(us[j].mem, l, a, us[i].regs, us[j + 1].regs, us[i].fstate, us[j + 1].fstate, es[i].oldset,
                  us[j + 1].blocked);
  }

  /** At any point of a run where a signal is delivered, the handler starts with the signal number in a0, its
    siginfo in a1, its ucontext in a2, sp at the frame, ra at the return trampoline, and every other
    register as it was interrupted. */
  lemma HandlerStarts(l: Layout, limit: nat, us: seq<User>, es: seq<Event>, i: nat)
    requires Runs(l, limit, us, es) && i < |es| && es[i].Deliver?
    ensures |us[i + 1].frames| == |us[i].frames| + 1 && us[i + 1].frames[..|us[i].frames|] == us[i].frames
    ensures |us[i].regs.x| == |us[i + 1].regs.x| == 32
    ensures var e, r, q, frame := es[i], us[i].regs, us[i + 1].regs, us[i + 1].frames[|us[i].frames|];
            && q.x[10] == e.sig && q.x[11] == frame + l.info && q.x[12] == frame + l.uc
            && q.x[1] == e.ra && q.x[2] == frame && q.sepc == e.handler
            && (forall n | 0 <= n < 32 && n !in {1, 2, 10, 11, 12} :: q.x[n] == r.x[n])
            && q.status == r.status && q.badaddr == r.badaddr && q.cause == r.cause
            && us[i + 1].fstate == us[i].fstate && us[i + 1].blocked == e.nowBlocked
  {
    hide Written, AnyFault, SigFrameAt;
    StepOf(l, limit, us, es, i);
  }

  /** At every moment live frames are 16-byte aligned, below the stack pointer they interrupted, and apart. */
  lemma FramesApart(l: Layout, limit: nat, us: seq<User>, es: seq<Event>, i: nat, j: nat, k: nat)
    requires Runs(l, limit, us, es) && i < |us| && k < |us[i].frames|
    ensures us[i].frames[k] % 16 == 0 && us[i].frames[k] + l.size <= SavedSp(l, us[i].mem, us[i].frames[k])
    ensures j < k ==> us[i].frames[k] + l.size <= us[i].frames[j]
  {
    RunInv(l, limit, us, es, i);
    assert FrameOk(l, us[i], k);
    if j < k { FramesDescend(l, us[i], j, k); }
  }
}
