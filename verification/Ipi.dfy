/** Inter-processor interrupts as a concurrent protocol.

  Senders run `send_ipi_message`, harts take the software interrupt and run `handle_ipi`.  Every
  access to shared memory or to the interrupt controller is one atomic step, and the steps of all
  senders and harts interleave freely.  The counters `made` and `handled` are observations: they
  count the requests put into a hart's word and the requests its callbacks have seen.
 */
module Ipi {

  /** `enum ipi_message_type` has IPI_RESCHEDULE and IPI_CALL_FUNC, 0 and 1. */
  const IPI_MAX: nat := 2

  /** Where a hart is in the software-interrupt path.  Work(ops, op): the word just exchanged is
    ops, and the callbacks of the operations below op have run. */
  datatype Pc = Idle | Taken | Drain | Work(ops: set<nat>, op: nat) | Bug

  /** `bits` is the hart's ipi_data word, as the set of its bit numbers; `pending` is the
    interrupt controller's flag for the hart. */
  datatype Hart = Hart(bits: set<nat>, pending: bool, pc: Pc, made: seq<nat>, handled: seq<nat>)

  /** A call of send_ipi_message: first the set_bit loop over `left`, then the sbi_send_ipi loop. */
  datatype Sender = Ready | Setting(op: nat, to: set<nat>, left: set<nat>) | Sending(left: set<nat>)

  datatype State = State(harts: seq<Hart>, senders: seq<Sender>)

  datatype Step =
    | Call(s: nat, op: nat, to: set<nat>)
    | SetBit(s: nat, i: nat)
    | FirstLoopDone(s: nat)
    | SendIpi(s: nat, i: nat)
    | Return(s: nat)
    | TakeInterrupt(i: nat)
    | ClearIpi(i: nat)
    | Xchg(i: nat)
    | Callback(i: nat)
    | CheckStray(i: nat)

  predicate Enabled(st: State, step: Step) {
    match step
    case Call(s, op, to) =>
      s < |st.senders| && st.senders[s] == Ready && op < IPI_MAX && forall i | i in to :: i < |st.harts|
    case SetBit(s, i) =>
      s < |st.senders| && st.senders[s].Setting? && i in st.senders[s].left && i < |st.harts|
    case FirstLoopDone(s) =>
      s < |st.senders| && st.senders[s].Setting? && st.senders[s].left == {}
    case SendIpi(s, i) =>
      s < |st.senders| && st.senders[s].Sending? && i in st.senders[s].left && i < |st.harts|
    case Return(s) =>
      s < |st.senders| && st.senders[s].Sending? && st.senders[s].left == {}
    case TakeInterrupt(i) =>
      i < |st.harts| && st.harts[i].pc == Idle && st.harts[i].pending
    case ClearIpi(i) => i < |st.harts| && st.harts[i].pc == Taken
    case Xchg(i) => i < |st.harts| && st.harts[i].pc == Drain
    case Callback(i) =>
      && i < |st.harts| && st.harts[i].pc.Work?
      && st.harts[i].pc.op < IPI_MAX <= |st.harts[i].made| == |st.harts[i].handled|
    case CheckStray(i) =>
      i < |st.harts| && st.harts[i].pc.Work? && st.harts[i].pc.op >= IPI_MAX
  }

  function Apply(st: State, step: Step): State
    requires Enabled(st, step)
  {
    match step
    case Call(s, op, to) => st.(senders := st.senders[s := Setting(op, to, to)])
    case SetBit(s, i) =>
      var c := st.senders[s];
      State(st.harts[i := Request(st.harts[i], c.op)], st.senders[s := c.(left := c.left - {i})])
    case FirstLoopDone(s) => st.(senders := st.senders[s := Sending(st.senders[s].to)])
    case SendIpi(s, i) =>
      State(st.harts[i := st.harts[i].(pending := true)],
            st.senders[s := Sending(st.senders[s].left - {i})])
    case Return(s) => st.(senders := st.senders[s := Ready])
    case TakeInterrupt(i) => st.(harts := st.harts[i := st.harts[i].(pc := Taken)])
    case ClearIpi(i) =>
      // sbi_clear_ipi tells whether an interrupt was pending; if none was, BUG() is reached
      var h := st.harts[i];
      st.(harts := st.harts[i := h.(pending := false, pc := if h.pending then Drain else Bug)])
    case Xchg(i) =>
      var h := st.harts[i];
      st.(harts := st.harts[i := h.(bits := {}, pc := if h.bits == {} then Idle else Work(h.bits, 0))])
    case Callback(i) =>
      var h := st.harts[i];
      var done := if h.pc.op in h.pc.ops then h.handled[h.pc.op := h.made[h.pc.op]] else h.handled;
      st.(harts := st.harts[i := h.(pc := Work(h.pc.ops, h.pc.op + 1), handled := done)])
    case CheckStray(i) =>
      var h := st.harts[i];
      var stray := exists b :: b in h.pc.ops && b >= IPI_MAX;
      st.(harts := st.harts[i := h.(pc := if stray then Bug else Drain)])
  }

  function Request(h: Hart, op: nat): Hart {
    h.(bits := h.bits + {op}, made := if op < |h.made| then h.made[op := h.made[op] + 1] else h.made)
  }

  ghost predicate Init(st: State) {
    && (forall i | 0 <= i < |st.harts| :: st.harts[i] == Hart({}, false, Idle, [0, 0], [0, 0]))
    && (forall s | 0 <= s < |st.senders| :: st.senders[s] == Ready)
  }

  /** A run is a list of steps, each enabled where it is taken. */
  ghost predicate Runs(st: State, steps: seq<Step>, st': State)
    decreases |steps|
  {
    if steps == [] then st == st'
    else Enabled(st, steps[0]) && Runs(Apply(st, steps[0]), steps[1..], st')
  }

  // ----- the invariant -----

  /** Sender s will still send hart i an interrupt. */
  predicate Owes(c: Sender, i: nat) {
    (c.Setting? && i in c.to) || (c.Sending? && i in c.left)
  }

  /** The word of hart i is about to be looked at. */
  ghost predicate Covered(st: State, i: nat)
    requires i < |st.harts|
  {
    st.harts[i].pending || st.harts[i].pc != Idle
    || exists s :: 0 <= s < |st.senders| && Owes(st.senders[s], i)
  }

  /** A request that no callback has seen yet is in the word or in the hands of the handler. */
  predicate Waiting(h: Hart, op: nat) {
    op in h.bits || (h.pc.Work? && op in h.pc.ops && h.pc.op <= op)
  }

  ghost predicate HartOk(h: Hart) {
    && |h.made| == IPI_MAX == |h.handled|
    && h.pc != Bug
    && (h.pc == Taken ==> h.pending)
    && (forall b | b in h.bits :: b < IPI_MAX)
    && (h.pc.Work? ==> h.pc.op <= IPI_MAX && forall b | b in h.pc.ops :: b < IPI_MAX)
    && (forall op | 0 <= op < IPI_MAX ::
          h.handled[op] <= h.made[op] && (h.handled[op] < h.made[op] ==> Waiting(h, op)))
  }

  ghost predicate SenderOk(c: Sender, harts: nat) {
    && (c.Setting? ==> c.op < IPI_MAX && c.left <= c.to && forall i | i in c.to :: i < harts)
    && (c.Sending? ==> forall i | i in c.left :: i < harts)
  }

  ghost predicate Inv(st: State) {
    && (forall i | 0 <= i < |st.harts| :: HartOk(st.harts[i]))
    && (forall s | 0 <= s < |st.senders| :: SenderOk(st.senders[s], |st.harts|))
    && (forall i | 0 <= i < |st.harts| && st.harts[i].bits != {} :: Covered(st, i))
  }

  lemma InitInv(st: State)
    requires Init(st)
    ensures Inv(st)
  {}

  lemma HartStep(st: State, step: Step, i: nat)
    requires Inv(st) && Enabled(st, step) && i < |st.harts|
    ensures |Apply(st, step).harts| == |st.harts| && HartOk(Apply(st, step).harts[i])
  {
    var h := st.harts[i];
    assert HartOk(h);
    if step.SetBit? {
      assert SenderOk(st.senders[step.s], |st.harts|);
    }
  }

  /** Whoever owes hart i an interrupt either still does or has just delivered it. */
  lemma CoverStep(st: State, step: Step, i: nat)
    requires Inv(st) && Enabled(st, step) && i < |st.harts|
    requires Apply(st, step).harts[i].bits != {}
    ensures |Apply(st, step).harts| == |st.harts| && Covered(Apply(st, step), i)
  {
    var st' := Apply(st, step);
    if step.SetBit? && step.i == i {
      assert SenderOk(st.senders[step.s], |st.harts|);
      assert Owes(st'.senders[step.s], i);
    } else {
      assert Covered(st, i);
      if s :| 0 <= s < |st.senders| && Owes(st.senders[s], i) {
        if !Owes(st'.senders[s], i) {
          assert step == SendIpi(s, i);
        }
      }
    }
  }

  lemma StepInv(st: State, step: Step)
    requires Inv(st) && Enabled(st, step)
    ensures Inv(Apply(st, step))
  {
    var st' := Apply(st, step);
    forall i | 0 <= i < |st'.harts|
      ensures HartOk(st'.harts[i]) && (st'.harts[i].bits != {} ==> Covered(st', i))
    {
      HartStep(st, step, i);
      if st'.harts[i].bits != {} { CoverStep(st, step, i); }
    }
    forall s | 0 <= s < |st'.senders|
      ensures SenderOk(st'.senders[s], |st'.harts|)
    {
      assert SenderOk(st.senders[s], |st.harts|);
    }
  }

  lemma {:induction false} RunInv(st: State, steps: seq<Step>, st': State)
    requires Inv(st) && Runs(st, steps, st')
    ensures Inv(st')
    decreases |steps|
  {
    if steps != [] {
      StepInv(st, steps[0]);
      RunInv(Apply(st, steps[0]), steps[1..], st');
    }
  }

  // ----- what the invariant is for -----

  ghost predicate Quiescent(st: State) {
    && (forall i | 0 <= i < |st.harts| :: st.harts[i].pc == Idle && !st.harts[i].pending)
    && (forall s | 0 <= s < |st.senders| :: st.senders[s] == Ready)
  }

  /** In every reachable state: neither BUG() nor the BUG_ON on stray bits is reached, a set bit has
    somebody on the way to it, and an unseen request is still represented. */
  lemma {:induction false} NoLostRequest(st0: State, steps: seq<Step>, st: State, i: nat, op: nat)
    requires Init(st0) && Runs(st0, steps, st) && i < |st.harts| && op < IPI_MAX
    ensures st.harts[i].pc != Bug
    ensures op in st.harts[i].bits ==> Covered(st, i)
    ensures |st.harts[i].made| == |st.harts[i].handled| == IPI_MAX
    ensures st.harts[i].handled[op] < st.harts[i].made[op] ==> Waiting(st.harts[i], op)
  {
    InitInv(st0);
    RunInv(st0, steps, st);
    assert HartOk(st.harts[i]);
  }

  /** When nothing is left to do, every callback has run after the last request for it. */
  lemma {:induction false} QuiescentMeansHandled(st0: State, steps: seq<Step>, st: State, i: nat)
    requires Init(st0) && Runs(st0, steps, st) && Quiescent(st) && i < |st.harts|
    ensures st.harts[i].bits == {} && st.harts[i].handled == st.harts[i].made
  {
    InitInv(st0);
    RunInv(st0, steps, st);
    IdleMeansHandled(st, i);
  }

  /** One pass of handle_ipi takes the word and runs the callbacks of exactly the operations in it; once the
    word is empty the handler is done. */
  lemma {:induction false} PassHandles(st: State, i: nat)
    requires Inv(st) && i < |st.harts| && st.harts[i].pc == Drain
    ensures st.harts[i].bits == {} ==> Apply(st, Xchg(i)) == st.(harts := st.harts[i := st.harts[i].(pc := Idle)])
    ensures st.harts[i].bits != {} ==> exists end ::
                Runs(st, [Xchg(i), Callback(i), Callback(i), CheckStray(i)], end) && Passed(st, end, i)
  {
    if st.harts[i].bits != {} {
      var s1, s2, s3 := PassSteps(st, i);
      hide *;
      RunFour(st, Xchg(i), Callback(i), Callback(i), CheckStray(i), s1, s2, s3);
    }
  }

  lemma PassSteps(st: State, i: nat) returns (s1: State, s2: State, s3: State)
    requires Inv(st) && i < |st.harts| && st.harts[i].pc == Drain && st.harts[i].bits != {}
    ensures Enabled(st, Xchg(i)) && s1 == Apply(st, Xchg(i))
    ensures Enabled(s1, Callback(i)) && s2 == Apply(s1, Callback(i))
    ensures Enabled(s2, Callback(i)) && s3 == Apply(s2, Callback(i))
    ensures Enabled(s3, CheckStray(i)) && |st.harts[i].made| == |st.harts[i].handled| == IPI_MAX
    ensures Passed(st, Apply(s3, CheckStray(i)), i)
  {
    var h := st.harts[i];
    assert HartOk(h);
    hide Inv, HartOk;
    s1 := Apply(st, Xchg(i));
    assert s1.harts[i] == h.(bits := {}, pc := Work(h.bits, 0));
    s2 := Apply(s1, Callback(i));
    s3 := Apply(s2, Callback(i));
    var end := Apply(s3, CheckStray(i));
    assert s3.harts[i].pc == Work(h.bits, 2);
    assert end.harts[i] == h.(bits := {}, handled := s3.harts[i].handled);
    assert s3.harts[i].handled
        == [if 0 in h.bits then h.made[0] else h.handled[0], if 1 in h.bits then h.made[1] else h.handled[1]];
    assert end.harts == st.harts[i := end.harts[i]];
  }

  lemma {:induction false} RunFour(st: State, a: Step, b: Step, c: Step, d: Step, s1: State, s2: State, s3: State)
    requires Enabled(st, a) && s1 == Apply(st, a) && Enabled(s1, b) && s2 == Apply(s1, b)
    requires Enabled(s2, c) && s3 == Apply(s2, c) && Enabled(s3, d)
    ensures Runs(st, [a, b, c, d], Apply(s3, d))
  {
    hide Apply, Enabled;
    var end := Apply(s3, d);
    assert [d][1..] == [] && Runs(end, [], end) && Runs(s3, [d], end);
    assert [c, d][1..] == [d] && Runs(s2, [c, d], end);
    assert [b, c, d][1..] == [c, d] && Runs(s1, [b, c, d], end);
    assert [a, b, c, d][1..] == [b, c, d];
  }

  ghost predicate Passed(st: State, end: State, i: nat)
    requires i < |st.harts| && |st.harts[i].made| == |st.harts[i].handled| == IPI_MAX
  {
    var h := st.harts[i];
    && end.senders == st.senders
    && end.harts == st.harts[i := h.(bits := {}, handled := [if 0 in h.bits then h.made[0] else h.handled[0],
                                                              if 1 in h.bits then h.made[1] else h.handled[1]])]
  }

  /** Whatever else runs, a callback runs only for an operation in the word that its hart has taken. */
  lemma CallbackWasAskedFor(st: State, step: Step, i: nat)
    requires Inv(st) && Enabled(st, step) && i < |st.harts|
    requires Apply(st, step).harts[i].handled != st.harts[i].handled
    ensures step == Callback(i) && st.harts[i].pc.Work? && st.harts[i].pc.op in st.harts[i].pc.ops
  {}

  // ----- a call makes its requests -----

  /** set_bit adds a bit to the word of one hart, and one request to those made of it. */
  lemma SetBitRequests(st: State, s: nat, i: nat)
    requires Inv(st) && Enabled(st, SetBit(s, i))
    ensures var op, h, h' := st.senders[s].op, st.harts[i], Apply(st, SetBit(s, i)).harts[i];
            && op < IPI_MAX == |h.made| && op in h'.bits && h'.made == h.made[op := h.made[op] + 1]
            && h' == h.(bits := h.bits + {op}, made := h'.made)
            && forall j | 0 <= j < |st.harts| && j != i :: Apply(st, SetBit(s, i)).harts[j] == st.harts[j]
  {
    assert SenderOk(st.senders[s], |st.harts|) && HartOk(st.harts[i]);
  }

  /** sbi_send_ipi raises the interrupt of one hart. */
  lemma SendIpiRaises(st: State, s: nat, i: nat)
    requires Enabled(st, SendIpi(s, i))
    ensures Apply(st, SendIpi(s, i)).harts[i] == st.harts[i].(pending := true)
    ensures forall j | 0 <= j < |st.harts| && j != i :: Apply(st, SendIpi(s, i)).harts[j] == st.harts[j]
  {}

  lemma MadeStep(st: State, step: Step, i: nat, op: nat)
    requires Inv(st) && Enabled(st, step) && i < |st.harts| && op < IPI_MAX
    ensures |st.harts[i].made| == IPI_MAX
    ensures |Apply(st, step).harts| == |st.harts| && |Apply(st, step).harts[i].made| == IPI_MAX
    ensures Apply(st, step).harts[i].made[op] >= st.harts[i].made[op]
    ensures step.SetBit? && step.i == i && st.senders[step.s].op == op ==>
              Apply(st, step).harts[i].made[op] == st.harts[i].made[op] + 1
  {
    assert HartOk(st.harts[i]);
    HartStep(st, step, i);
  }

  /** Requests are never taken back. */
  lemma {:induction false} MadeGrows(st: State, steps: seq<Step>, st': State, i: nat, op: nat)
    requires Inv(st) && Runs(st, steps, st') && i < |st.harts| && op < IPI_MAX
    ensures |st'.harts| == |st.harts| && |st.harts[i].made| == |st'.harts[i].made| == IPI_MAX
    ensures st'.harts[i].made[op] >= st.harts[i].made[op]
    decreases |steps|
  {
    hide Inv, Apply;
    if steps == [] {
      MadeSize(st, i);
    } else {
      MadeStep(st, steps[0], i, op);
      StepInv(st, steps[0]);
      MadeGrows(Apply(st, steps[0]), steps[1..], st', i, op);
    }
  }

  lemma MadeSize(st: State, i: nat)
    requires Inv(st) && i < |st.harts|
    ensures |st.harts[i].made| == |st.harts[i].handled| == IPI_MAX
  {
    assert HartOk(st.harts[i]);
  }

  /** What another step leaves of sender s. */
  lemma SenderStep(st: State, step: Step, s: nat)
    requires Enabled(st, step) && s < |st.senders|
    ensures |Apply(st, step).senders| == |st.senders|
    ensures Apply(st, step).senders[s]
            == match step
               case Call(c, op, to) => if c == s then Setting(op, to, to) else st.senders[s]
               case SetBit(c, i) =>
                 if c == s then st.senders[s].(left := st.senders[s].left - {i}) else st.senders[s]
               case FirstLoopDone(c) => if c == s then Sending(st.senders[s].to) else st.senders[s]
               case SendIpi(c, i) => if c == s then Sending(st.senders[s].left - {i}) else st.senders[s]
               case Return(c) => if c == s then Ready else st.senders[s]
               case _ => st.senders[s]
  {}

  /** In the second loop sender s asks nobody, and raises an interrupt exactly for the harts left. */
  lemma {:induction false} SecondLoop(st: State, steps: seq<Step>, st': State, s: nat)
    requires Runs(st, steps, st') && s < |st.senders| && st.senders[s].Sending? && Return(s) !in steps
    requires s < |st'.senders| && st'.senders[s] == Sending({})
    ensures forall j :: SetBit(s, j) !in steps
    ensures forall j :: SendIpi(s, j) in steps <==> j in st.senders[s].left
    decreases |steps|
  {
    hide Apply;
    if steps != [] {
      SenderStep(st, steps[0], s);
      assert steps == [steps[0]] + steps[1..];
      assert steps[0] in steps;
      SecondLoop(Apply(st, steps[0]), steps[1..], st', s);
    }
  }

  /** In the first loop sender s asks exactly the harts left, each of them for its operation, and raises no
    interrupt before the loop is done, at k. */
  lemma {:induction false} FirstLoop(st: State, steps: seq<Step>, st': State, s: nat) returns (k: nat)
    requires Inv(st) && Runs(st, steps, st') && s < |st.senders| && st.senders[s].Setting? && Return(s) !in steps
    requires s < |st'.senders| && st'.senders[s] == Sending({})
    ensures k < |steps| && steps[k] == FirstLoopDone(s)
    ensures forall j :: SetBit(s, j) in steps <==> j in st.senders[s].left
    ensures forall p | k <= p < |steps| :: !(steps[p].SetBit? && steps[p].s == s)
    ensures forall j :: SendIpi(s, j) in steps <==> j in st.senders[s].to
    ensures forall p | 0 <= p <= k :: !(steps[p].SendIpi? && steps[p].s == s)
    decreases |steps|
  {
    hide Inv, Apply;
    assert steps != [];
    var st1, rest := Apply(st, steps[0]), steps[1..];
    assert steps == [steps[0]] + rest && steps[0] in steps;
    SenderStep(st, steps[0], s);
    if steps[0] == FirstLoopDone(s) {
      k := 0;
      SecondLoop(st1, rest, st', s);
      DoneMeansNoneLeft(st, s);
      assert forall p | 0 <= p < |steps| :: steps[p] in steps;
    } else {
      StepInv(st, steps[0]);
      StillSetting(st, steps[0], s);
      k := FirstLoop(st1, rest, st', s);
      k := k + 1;
      forall p | k <= p < |steps|
        ensures !(steps[p].SetBit? && steps[p].s == s)
      {
        assert steps[p] == rest[p - 1];
      }
      forall p | 0 <= p <= k
        ensures !(steps[p].SendIpi? && steps[p].s == s)
      {
        if p > 0 { assert steps[p] == rest[p - 1]; } else { assert Enabled(st, steps[0]); }
      }
    }
  }

  lemma DoneMeansNoneLeft(st: State, s: nat)
    requires Enabled(st, FirstLoopDone(s))
    ensures st.senders[s].left == {}
  {}

  lemma StillSetting(st: State, step: Step, s: nat)
    requires Enabled(st, step) && s < |st.senders| && st.senders[s].Setting?
    requires step != FirstLoopDone(s) && step != Return(s)
    ensures s < |Apply(st, step).senders| && Apply(st, step).senders[s].Setting?
    ensures Apply(st, step).senders[s].op == st.senders[s].op && Apply(st, step).senders[s].to == st.senders[s].to
  {}

  /** Every request that sender s makes in its first loop is for its operation. */
  lemma {:induction false} AsksFor(st: State, steps: seq<Step>, st': State, s: nat, i: nat)
    requires Inv(st) && Runs(st, steps, st') && s < |st.senders| && st.senders[s].Setting? && Return(s) !in steps
    requires i < |st.harts| && SetBit(s, i) in steps
    ensures Inv(st') && |st'.harts| == |st.harts| && st.senders[s].op < IPI_MAX
    ensures |st.harts[i].made| == |st'.harts[i].made| == IPI_MAX
    ensures st'.harts[i].made[st.senders[s].op] > st.harts[i].made[st.senders[s].op]
    decreases |steps|
  {
    hide Apply;
    var op, st1 := st.senders[s].op, Apply(st, steps[0]);
    assert SenderOk(st.senders[s], |st.harts|);
    hide Inv;
    RunInv(st, steps, st');
    MadeStep(st, steps[0], i, op);
    StepInv(st, steps[0]);
    if steps[0] == SetBit(s, i) {
      MadeGrows(st1, steps[1..], st', i, op);
    } else {
      assert steps == [steps[0]] + steps[1..];
      if steps[0] == FirstLoopDone(s) {
        SenderStep(st, steps[0], s);
        AsksNobody(st1, steps[1..], st', s, i);
        assert false;
      } else {
        StillSetting(st, steps[0], s);
        AsksFor(st1, steps[1..], st', s, i);
      }
    }
  }

  /** Behind the first loop a call makes no request. */
  lemma {:induction false} AsksNobody(st: State, steps: seq<Step>, st': State, s: nat, i: nat)
    requires Runs(st, steps, st') && s < |st.senders| && st.senders[s].Sending? && Return(s) !in steps
    ensures SetBit(s, i) !in steps
    decreases |steps|
  {
    hide Apply;
    if steps != [] {
      SenderStep(st, steps[0], s);
      assert steps == [steps[0]] + steps[1..] && steps[0] in steps;
      AsksNobody(Apply(st, steps[0]), steps[1..], st', s, i);
    }
  }

  /** As long as a call is in its first loop it is for the operation and the harts it was made for. */
  lemma {:induction false} OperationStays(st: State, steps: seq<Step>, st': State, s: nat)
    requires Runs(st, steps, st') && s < |st.senders| && !st.senders[s].Ready? && Return(s) !in steps
    ensures s < |st'.senders| && !st'.senders[s].Ready?
    ensures st'.senders[s].Setting? ==>
              st.senders[s].Setting? && st'.senders[s].op == st.senders[s].op && st'.senders[s].to == st.senders[s].to
    decreases |steps|
  {
    hide Apply;
    if steps != [] {
      SenderStep(st, steps[0], s);
      assert steps == [steps[0]] + steps[1..] && steps[0] in steps;
      OperationStays(Apply(st, steps[0]), steps[1..], st', s);
    }
  }

  /** A call of send_ipi_message, from its start in x to its return in z, whatever runs in between: it sets the
    bit of its operation for exactly the harts it was called for, then raises the interrupt of exactly these,
    and of each of them one request more has been made. */
  lemma {:induction false} CallRequests(x: State, s: nat, op: nat, to: set<nat>, mid: seq<Step>, z: State)
    requires Inv(x) && Enabled(x, Call(s, op, to)) && Runs(Apply(x, Call(s, op, to)), mid, z)
    requires Return(s) !in mid && Enabled(z, Return(s))
    ensures forall i :: SetBit(s, i) in mid <==> i in to
    ensures forall i :: SendIpi(s, i) in mid <==> i in to
    ensures forall p, q | 0 <= p < |mid| && 0 <= q < |mid| ::
              mid[p].SetBit? && mid[p].s == s && mid[q].SendIpi? && mid[q].s == s ==> p < q
    ensures |z.harts| == |x.harts|
    ensures forall i | i in to ::
              && i < |x.harts| && |x.harts[i].made| == |z.harts[i].made| == IPI_MAX
              && z.harts[i].made[op] > x.harts[i].made[op]
  {
    var y := Apply(x, Call(s, op, to));
    StepInv(x, Call(s, op, to));
    assert y.senders[s] == Setting(op, to, to) && y.harts == x.harts;
    OperationStays(y, mid, z, s);
    assert z.senders[s] == Sending({});
    hide Inv, Apply;
    var k := FirstLoop(y, mid, z, s);
    SameHarts(y, mid, z);
    forall i | i in to
      ensures i < |x.harts| && |x.harts[i].made| == |z.harts[i].made| == IPI_MAX
      ensures z.harts[i].made[op] > x.harts[i].made[op]
    {
      AsksFor(y, mid, z, s, i);
    }
  }

  /** Each request that the call makes on the way adds its operation, and no other, to a hart it is for. */
  lemma {:induction false} OnlyItsRequest(x: State, s: nat, op: nat, to: set<nat>, mid: seq<Step>, w: State, i: nat)
    requires Inv(x) && Enabled(x, Call(s, op, to)) && Runs(Apply(x, Call(s, op, to)), mid, w)
    requires Return(s) !in mid && Enabled(w, SetBit(s, i))
    ensures i in to && i < |w.harts| && op < |w.harts[i].made|
    ensures var h := w.harts[i];
            Apply(w, SetBit(s, i)).harts
            == w.harts[i := h.(bits := h.bits + {op}, made := h.made[op := h.made[op] + 1])]
  {
    var y := Apply(x, Call(s, op, to));
    StepInv(x, Call(s, op, to));
    RunInv(y, mid, w);
    OperationStays(y, mid, w, s);
    SetBitRequests(w, s, i);
    assert SenderOk(w.senders[s], |w.harts|);
  }

  lemma {:induction false} SameHarts(st: State, steps: seq<Step>, st': State)
    requires Runs(st, steps, st')
    ensures |st'.harts| == |st.harts|
    decreases |steps|
  {
    if steps != [] { SameHarts(Apply(st, steps[0]), steps[1..], st'); }
  }

  /** And no such request is lost: in whatever quiescent state the run gets to behind the call, the callback of
    the operation has run on every hart the call was for, more often than requests had been made before it. */
  lemma {:induction false} CallHandled(st0: State, pre: seq<Step>, x: State, s: nat, op: nat, to: set<nat>,
                                       mid: seq<Step>, z: State, post: seq<Step>, st: State, i: nat)
    requires Init(st0) && Runs(st0, pre, x) && Enabled(x, Call(s, op, to))
    requires Runs(Apply(x, Call(s, op, to)), mid, z) && Return(s) !in mid && Enabled(z, Return(s))
    requires Runs(Apply(z, Return(s)), post, st) && Quiescent(st) && i in to
    ensures i < |x.harts| == |st.harts| && |x.harts[i].made| == |st.harts[i].handled| == IPI_MAX
    ensures st.harts[i].handled[op] > x.harts[i].made[op]
  {
    InitInv(st0);
    RunInv(st0, pre, x);
    StepInv(x, Call(s, op, to));
    RunInv(Apply(x, Call(s, op, to)), mid, z);
    StepInv(z, Return(s));
    CallRequests(x, s, op, to, mid, z);
    MadeGrows(Apply(z, Return(s)), post, st, i, op);
    RunInv(Apply(z, Return(s)), post, st);
    IdleMeansHandled(st, i);
  }

  lemma IdleMeansHandled(st: State, i: nat)
    requires Inv(st) && Quiescent(st) && i < |st.harts|
    ensures st.harts[i].bits == {} && st.harts[i].handled == st.harts[i].made
  {
    assert HartOk(st.harts[i]);
    assert !Covered(st, i);
    var h := st.harts[i];
    assert forall op | 0 <= op < IPI_MAX :: h.handled[op] == h.made[op];
  }

  // ----- and it does become quiescent -----

  function PcRank(pc: Pc): nat {
    match pc
    case Bug => 0
    case Taken => 0
    case Idle => 1
    case Drain => 2
    case Work(_, op) => if op < IPI_MAX then 3 + IPI_MAX - op else 3
  }

  function HartRank(h: Hart): nat {
    6 * |h.bits| + (if h.pending then 3 else 0) + PcRank(h.pc)
  }

  /** Each pass over one target accounts for the bit it sets and the interrupt it raises. */
  function SenderRank(c: Sender): nat {
    match c
    case Ready => 0
    case Setting(_, to, left) => 2 + 7 * |left| + 4 * |to|
    case Sending(left) => 1 + 4 * |left|
  }

  function HartsRank(hs: seq<Hart>): nat {
    if hs == [] then 0 else HartRank(hs[0]) + HartsRank(hs[1..])
  }

  function SendersRank(cs: seq<Sender>): nat {
    if cs == [] then 0 else SenderRank(cs[0]) + SendersRank(cs[1..])
  }

  /** The work left over once no new call of send_ipi_message is made. */
  function Rank(st: State): nat { HartsRank(st.harts) + SendersRank(st.senders) }

  lemma {:induction false} HartsRankUpdate(hs: seq<Hart>, i: nat, h: Hart)
    requires i < |hs|
    ensures HartsRank(hs[i := h]) == HartsRank(hs) - HartRank(hs[i]) + HartRank(h)
  {
    if i == 0 {
      assert hs[0 := h][1..] == hs[1..];
    } else {
      assert hs[i := h][1..] == hs[1..][i - 1 := h];
      HartsRankUpdate(hs[1..], i - 1, h);
    }
  }

  lemma {:induction false} SendersRankUpdate(cs: seq<Sender>, s: nat, c: Sender)
    requires s < |cs|
    ensures SendersRank(cs[s := c]) == SendersRank(cs) - SenderRank(cs[s]) + SenderRank(c)
  {
    if s == 0 {
      assert cs[0 := c][1..] == cs[1..];
    } else {
      assert cs[s := c][1..] == cs[1..][s - 1 := c];
      SendersRankUpdate(cs[1..], s - 1, c);
    }
  }

  lemma AddOne(bits: set<nat>, b: nat)
    ensures |bits + {b}| <= |bits| + 1
  {
    if b in bits { assert bits + {b} == bits; }
  }

  lemma SendDecreasesRank(st: State, step: Step)
    requires Enabled(st, step) && (step.SetBit? || step.SendIpi?)
    ensures Rank(Apply(st, step)) < Rank(st)
  {
    hide SendersRank, HartsRank;
    var st' := Apply(st, step);
    var c := st.senders[step.s];
    AddOne(st.harts[step.i].bits, if c.Setting? then c.op else 0);
    assert |c.left - {step.i}| == |c.left| - 1;
    HartsRankUpdate(st.harts, step.i, st'.harts[step.i]);
    SendersRankUpdate(st.senders, step.s, st'.senders[step.s]);
  }

  lemma HandleDecreasesRank(st: State, step: Step)
    requires Enabled(st, step)
    requires step.TakeInterrupt? || step.ClearIpi? || step.Xchg? || step.Callback? || step.CheckStray?
    requires step.i < |st.harts| && HartOk(st.harts[step.i])
    ensures Rank(Apply(st, step)) < Rank(st)
  {
    hide SendersRank, HartsRank, Waiting;
    var st' := Apply(st, step);
    HartsRankUpdate(st.harts, step.i, st'.harts[step.i]);
  }

  /** Every step but a new call uses up some of the remaining work. */
  lemma StepDecreasesRank(st: State, step: Step)
    requires Inv(st) && Enabled(st, step) && !step.Call?
    ensures Rank(Apply(st, step)) < Rank(st)
  {
    if step.SetBit? || step.SendIpi? {
      hide *;
      SendDecreasesRank(st, step);
    } else if step.FirstLoopDone? || step.Return? {
      hide SendersRank, HartsRank, Inv;
      SendersRankUpdate(st.senders, step.s, Apply(st, step).senders[step.s]);
    } else {
      hide SendersRank, HartsRank, HartOk, Covered, Rank, Apply;
      HandleDecreasesRank(st, step);
    }
  }

  /** While the system is not quiescent, a step other than a new call is enabled. */
  lemma NoDeadlock(st: State)
    requires Inv(st) && !Quiescent(st)
    ensures exists step :: Enabled(st, step) && !step.Call?
  {
    if i :| 0 <= i < |st.harts| && !(st.harts[i].pc == Idle && !st.harts[i].pending) {
      assert HartOk(st.harts[i]);
      var step := match st.harts[i].pc
        case Idle => TakeInterrupt(i)
        case Taken => ClearIpi(i)
        case Drain => Xchg(i)
        case Work(_, op) => if op < IPI_MAX then Callback(i) else CheckStray(i);
      assert Enabled(st, step);
    } else {
      var s :| 0 <= s < |st.senders| && st.senders[s] != Ready;
      var c := st.senders[s];
      assert SenderOk(c, |st.harts|);
      if c.left == {} {
        assert Enabled(st, if c.Setting? then FirstLoopDone(s) else Return(s));
      } else {
        var i :| i in c.left;
        assert Enabled(st, if c.Setting? then SetBit(s, i) else SendIpi(s, i));
      }
    }
  }

  /** A run without new calls has at most Rank(st) steps, so every request made so far is handled
    by then: with NoDeadlock it can always be extended to a quiescent state. */
  lemma {:induction false} RunBounded(st: State, steps: seq<Step>, st': State)
    requires Inv(st) && Runs(st, steps, st')
    requires forall k | 0 <= k < |steps| :: !steps[k].Call?
    ensures |steps| <= Rank(st)
    decreases |steps|
  {
    if steps != [] {
      StepInv(st, steps[0]);
      StepDecreasesRank(st, steps[0]);
      RunBounded(Apply(st, steps[0]), steps[1..], st');
    }
  }

  /** From every reachable state the outstanding requests can be, and without new calls will be,
    driven to a quiescent state. */
  lemma {:induction false} ReachesQuiescence(st: State) returns (steps: seq<Step>, st': State)
    requires Inv(st)
    ensures Runs(st, steps, st') && Quiescent(st') && Inv(st')
    ensures forall k | 0 <= k < |steps| :: !steps[k].Call?
    decreases Rank(st)
  {
    if Quiescent(st) {
      return [], st;
    }
    NoDeadlock(st);
    var step :| Enabled(st, step) && !step.Call?;
    StepInv(st, step);
    StepDecreasesRank(st, step);
    var rest;
    rest, st' := ReachesQuiescence(Apply(st, step));
    steps := [step] + rest;
    assert steps[1..] == rest;
  }
}
