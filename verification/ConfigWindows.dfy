/** The part of the text that a device found by the scan is given, and what looking names up in it gives:
  the same as in the tree of the device's block.
 */
module ConfigWindows {
  import opened ConfigBuffers
  import opened ConfigChars
  import opened ConfigDevices
  import opened ConfigLookup
  import opened ConfigOrder
  import opened ConfigPrint
  import opened ConfigStrings
  import opened ConfigText
  import opened ConfigTrace

  // ----- the window of a block -----

  /** config_end of a device whose block starts at p: behind the line of its last entry. */
  function ConfigEnd(s: Text, p: nat): (e: nat)
    requires p <= Nul(s)
    ensures p <= e <= Nul(s)
  {
    var es := ParseBlock(s, Nul(s), p);
    LookupEnds(s, Nul(s), SpaceEnd(s, p), []);
    LastValuesAbove(s, Nul(s), SpaceEnd(s, p));
    if es.Entry? then LineEnd(s, Past(s, LastValues(es, 0), SEMI)) else p
  }

  lemma {:induction false} LineBeforeSpace(s: Text, p: nat)
    requires p <= Nul(s)
    ensures LineEnd(s, p) <= SpaceEnd(s, p)
    decreases Nul(s) - p
  {
    if IsSpace(s[p]) { LineBeforeSpace(s, p + 1); }
  }

  /** Values that end before e parse the same in a text taken to end at e. */
  lemma {:induction false} SameValues(s: Text, e: nat, p: nat)
    requires p <= Nul(s) && e <= Nul(s) && ParseValues(s, Nul(s), p).End() < e
    ensures ParseValues(s, e, p) == ParseValues(s, Nul(s), p)
    decreases Nul(s) - p, 0
  {
    hide ParseEntries, SpaceEnd, StringEnd, KeyEnd;
    if s[p] != SEMI {
      if s[p] == QUOTE {
        SameValues(s, e, SpaceEnd(s, StringEnd(s, p + 1)));
      } else if s[p] == OPEN {
        SameEntries(s, e, SpaceEnd(s, p + 1));
        SameValues(s, e, SpaceEnd(s, Past(s, ParseBlock(s, Nul(s), p + 1).End(), CLOSE)));
      } else {
        SameValues(s, e, SpaceEnd(s, KeyEnd(s, p + 1)));
      }
    }
  }

  lemma {:induction false} SameEntries(s: Text, e: nat, p: nat)
    requires p <= Nul(s) && e <= Nul(s) && ParseEntries(s, Nul(s), p).End() < e
    ensures ParseEntries(s, e, p) == ParseEntries(s, Nul(s), p)
    decreases Nul(s) - p, 1
  {
    hide ParseValues, SpaceEnd, KeyEnd;
    if s[p] != CLOSE {
      var q := SpaceEnd(s, KeyEnd(s, p));
      SameValues(s, e, q);
      SameEntries(s, e, NextEntry(s, ParseValues(s, Nul(s), q).End()));
    }
  }

  /** The outermost entries of a window, too, parse as they do in the whole text. */
  lemma {:induction false} WindowEntries(s: Text, e: nat, p: nat)
    requires p <= Nul(s) && e <= Nul(s) && ParseEntries(s, Nul(s), p).Entry?
    requires var es := ParseEntries(s, Nul(s), p);
             LastValues(es, 0) <= Nul(s) && e == LineEnd(s, Past(s, LastValues(es, 0), SEMI))
    ensures ParseEntries(s, e, p) == ParseEntries(s, Nul(s), p) && e <= ParseEntries(s, Nul(s), p).End()
    decreases Nul(s) - p
  {
    hide ParseEntries, ParseValues, SpaceEnd, KeyEnd, LineEnd;
    WholeEntry(s, p);
    var q := SpaceEnd(s, KeyEnd(s, p));
    var vs := ParseValues(s, Nul(s), q);
    var next := NextEntry(s, vs.End());
    var es := ParseEntries(s, Nul(s), next);
    LastValuesFrom(es, vs.End(), 0);
    LastValuesAbove(s, Nul(s), next);
    if e < Nul(s) { SameValues(s, e, q); }
    EntryParses(s, e, p);
    if es.Entry? {
      WindowEntries(s, e, next);
    } else {
      LineBeforeSpace(s, Past(s, vs.End(), SEMI));
      DoneParses(s, e, next);
    }
  }

  /** Behind values that end at `end`, their semicolon and white space. */
  function NextEntry(s: Text, end: nat): (next: nat)
    requires end <= Nul(s)
    ensures end <= next <= Nul(s)
  {
    SpaceEnd(s, Past(s, end, SEMI))
  }

  lemma {:induction false} WholeEntry(s: Text, p: nat)
    requires p <= Nul(s) && ParseEntries(s, Nul(s), p).Entry?
    ensures p < Nul(s) && s[p] != CLOSE
    ensures var vs := ParseValues(s, Nul(s), SpaceEnd(s, KeyEnd(s, p)));
            && p < NextEntry(s, vs.End()) && p <= vs.End() <= NextEntry(s, vs.End())
            && vs.End() <= Nul(s)
            && ParseEntries(s, Nul(s), p) == Entry(p, KeyEnd(s, p), s[p..KeyEnd(s, p)], vs,
                                                   ParseEntries(s, Nul(s), NextEntry(s, vs.End())))
  {}

  lemma {:induction false} DoneParses(s: Text, e: nat, p: nat)
    requires e <= p <= Nul(s) && ParseEntries(s, Nul(s), p).Done?
    ensures ParseEntries(s, e, p) == ParseEntries(s, Nul(s), p) == Done(p)
  {}

  /** In its window a block has the tree that it has in the whole text, and does not end before the window does. */
  lemma {:induction false} WindowParses(s: Text, p: nat)
    requires p <= Nul(s) && ParseBlock(s, Nul(s), p).Entry?
    ensures ParseBlock(s, ConfigEnd(s, p), p) == ParseBlock(s, Nul(s), p)
    ensures ConfigEnd(s, p) <= ParseBlock(s, Nul(s), p).End()
  {
    var e, q := ConfigEnd(s, p), SpaceEnd(s, p);
    LookupEnds(s, Nul(s), q, []);
    WindowEntries(s, e, q);
  }

  lemma {:induction false} LastValuesStop(s: Text, p: nat)
    requires p <= Nul(s) && ParseEntries(s, Nul(s), p).Entry?
    ensures var end := LastValues(ParseEntries(s, Nul(s), p), 0); end == Nul(s) || (end < Nul(s) && s[end] == SEMI)
    decreases Nul(s) - p
  {
    hide ParseEntries, ParseValues, SpaceEnd, KeyEnd;
    WholeEntry(s, p);
    var vs := ParseValues(s, Nul(s), SpaceEnd(s, KeyEnd(s, p)));
    var next := NextEntry(s, vs.End());
    LastValuesFrom(ParseEntries(s, Nul(s), next), vs.End(), 0);
    if ParseEntries(s, Nul(s), next).Entry? { LastValuesStop(s, next); }
  }

  // ----- looking up names in it -----

  /** A lookup in the window of a block gives what the block's tree gives.  A missing name is reported exactly
    if the search enters no nested block, or one that the text does not close. */
  lemma {:induction false} WindowLookup(s: Text, p: nat, name: seq<nat>)
    requires p <= Nul(s) && ParseBlock(s, Nul(s), p).Entry?
    ensures var es, e := ParseBlock(s, Nul(s), p), ConfigEnd(s, p);
            var last, pos := SearchEnd(es, name), Lookup(es, name);
            && ParseBlock(s, e, p) == es
            && (last.Entry? ==> pos < e)
            && (last.Done? ==> pos == last.at <= Nul(s) && (pos >= e) == !(Enters(es, name) && s[last.at] == CLOSE))
  {
    hide ParseEntries, SpaceEnd, SearchEnd, Lookup, Enters, FirstPlain;
    var es, e, q := ParseBlock(s, Nul(s), p), ConfigEnd(s, p), SpaceEnd(s, p);
    WindowParses(s, p);
    LookupEnds(s, e, q, name);
    LookupEnds(s, Nul(s), q, name);
    LastValuesStop(s, q);
  }

  // ----- the devices of a scan have such windows -----

  predicate FinishOf(ev: Event, d: nat) { ev.Finish? && ev.dev == d }

  /** The device that event i opens is given the window of a block with an interface key. */
  ghost predicate WindowAt(s: Text, evs: seq<Event>, i: nat)
    requires i < |evs| && evs[i].Open?
  {
    && evs[i].start <= Nul(s) && HasIface(ParseBlock(s, Nul(s), evs[i].start))
    && EndOf(evs[i + 1..], evs[i].dev, evs[i].start) == ConfigEnd(s, evs[i].start)
  }

  /** The devices from lo up to hi are opened in evs, each with its window; no other is given an end but the
    target. */
  ghost predicate Windowed(s: Text, evs: seq<Event>, target: Target, lo: nat, hi: nat) {
    && (forall i: nat | i < |evs| && evs[i].Open? :: lo <= evs[i].dev < hi && WindowAt(s, evs, i))
    && (forall i: nat | i < |evs| && evs[i].Finish? :: lo <= evs[i].dev < hi || target == Dev(evs[i].dev))
  }

  lemma {:induction false} EndSplit(a: seq<Event>, b: seq<Event>, d: nat, was: nat)
    ensures EndOf(a + b, d, was) == EndOf(b, d, EndOf(a, d, was))
    decreases |a|
  {
    if a == [] {
      assert a + b == b;
    } else {
      assert (a + b)[1..] == a[1..] + b;
      EndSplit(a[1..], b, d, if FinishOf(a[0], d) then a[0].end else was);
    }
  }

  lemma {:induction false} NoFinish(evs: seq<Event>, d: nat, was: nat)
    requires forall i: nat | i < |evs| :: !FinishOf(evs[i], d)
    ensures EndOf(evs, d, was) == was
    decreases |evs|
  {
    if evs != [] {
      assert !FinishOf(evs[0], d);
      forall i: nat | i < |evs[1..]|
        ensures !FinishOf(evs[1..][i], d)
      {
        assert evs[1..][i] == evs[i + 1];
      }
      NoFinish(evs[1..], d, was);
    }
  }

  lemma WindowedJoin(s: Text, a: seq<Event>, b: seq<Event>, target: Target, lo: nat, mid: nat, hi: nat)
    requires Windowed(s, a, target, lo, mid) && Windowed(s, b, target, mid, hi) && lo <= mid <= hi
    requires target.Dev? ==> target.dev < lo
    ensures Windowed(s, a + b, target, lo, hi)
  {
    var c := a + b;
    forall i: nat | i < |c| && c[i].Open?
      ensures lo <= c[i].dev < hi && WindowAt(s, c, i)
    {
      if i < |a| {
        assert c[i] == a[i] && WindowAt(s, a, i);
        assert c[i + 1..] == a[i + 1..] + b;
        EndSplit(a[i + 1..], b, a[i].dev, a[i].start);
        NoFinish(b, a[i].dev, EndOf(a[i + 1..], a[i].dev, a[i].start));
      } else {
        assert c[i] == b[i - |a|] && WindowAt(s, b, i - |a|);
        assert c[i + 1..] == b[i - |a| + 1..];
      }
    }
    forall i: nat | i < |c| && c[i].Finish?
      ensures lo <= c[i].dev < hi || target == Dev(c[i].dev)
    {
      assert c[i] == if i < |a| then a[i] else b[i - |a|];
    }
  }

  /** Events that open and finish nothing. */
  lemma WindowedPlain(s: Text, evs: seq<Event>, target: Target, n: nat)
    requires forall i: nat | i < |evs| :: evs[i].Iface? || evs[i].Resource? || evs[i].Fault?
    ensures Windowed(s, evs, target, n, n)
  {}

  lemma WordWindowed(s: Text, at: nat, chain: seq<seq<nat>>, flags: Flags, target: Target, iface: bool, own: Flags,
                     key: Key, n: nat)
    requires at <= Nul(s) && key.ks <= Nul(s)
    ensures Windowed(s, WordEvents(s, at, chain, flags, target, iface, own, key), NoTarget, n, n)
  {
    WindowedPlain(s, WordEvents(s, at, chain, flags, target, iface, own, key), NoTarget, n);
  }

  lemma IfaceWindowed(s: Text, at: nat, iface: bool, target: Target, n: nat)
    requires at <= Nul(s)
    ensures Windowed(s, IfaceEvents(s, at, iface, target), NoTarget, n, n)
  {
    WindowedPlain(s, IfaceEvents(s, at, iface, target), NoTarget, n);
  }

  lemma {:induction false} FinishWindowed(s: Text, end: nat, root: bool, target: Target, n: nat)
    requires end <= Nul(s)
    ensures Windowed(s, FinishEvents(s, end, root, target), if root then target else NoTarget, n, n)
    ensures root && target.Dev? ==>
              forall was :: EndOf(FinishEvents(s, end, root, target), target.dev, was) == LineEnd(s, Past(s, end, SEMI))
  {
    if root && target.Dev? {
      var fin := FinishEvents(s, end, root, target);
      assert fin[1..] == [];
    }
  }

  lemma WindowedFor(s: Text, evs: seq<Event>, target: Target, lo: nat, hi: nat)
    requires Windowed(s, evs, NoTarget, lo, hi)
    ensures Windowed(s, evs, target, lo, hi)
  {}

  /** A root block opens a device and finishes it with each of its entries. */
  lemma {:induction false} BlockWindows(s: Text, live: bool, p: nat, chain: seq<seq<nat>>, flags: Flags, target: Target,
                                        dev: nat, key: Key)
    requires p <= Nul(s) && KeyOk(s, key) && (target.Dev? ==> target.dev < dev)
    ensures Placed(s, ParseBlock(s, Nul(s), p))
    ensures var r := VisitBlock(s, live, ParseBlock(s, Nul(s), p), p, chain, flags, target, dev, key);
            dev <= r.dev && Windowed(s, r.evs, NoTarget, dev, r.dev)
    decreases Nul(s) - p, 2
  {
    hide *;
    var q := SpaceEnd(s, p);
    var es := ParseBlock(s, Nul(s), p);
    BlockIs(s, p);
    EntriesPlaced(s, Nul(s), q);
    BlockUnfolds(s, live, es, p, chain, flags, target, dev, key);
    if live && HasIface(es) {
      EntriesWindows(s, live, q, true, [], flags, Dev(dev), dev + 1, key);
      RootWindows(s, p, Path(chain), VisitEntries(s, live, es, true, [], flags, Dev(dev), dev + 1, key), dev);
    } else {
      EntriesWindows(s, live, q, false, chain, flags, target, dev, key);
    }
  }

  lemma {:induction false} BlockIs(s: Text, p: nat)
    requires p <= Nul(s)
    ensures ParseBlock(s, Nul(s), p) == ParseEntries(s, Nul(s), SpaceEnd(s, p)) && p <= SpaceEnd(s, p) <= Nul(s)
    ensures HasIface(ParseBlock(s, Nul(s), p)) ==> ParseBlock(s, Nul(s), p).Entry?
  {}

  /** The events of a root block behind the one that opens its device. */
  lemma {:induction false} RootWindows(s: Text, p: nat, path: seq<nat>, o: Out, dev: nat)
    requires p <= Nul(s) && HasIface(ParseBlock(s, Nul(s), p)) && dev < o.dev
    requires Windowed(s, o.evs, Dev(dev), dev + 1, o.dev)
    requires var es := ParseBlock(s, Nul(s), p);
             LastValues(es, 0) <= Nul(s) && EndOf(o.evs, dev, p) == LineEnd(s, Past(s, LastValues(es, 0), SEMI))
    ensures Windowed(s, [Open(dev, path, p)] + o.evs, NoTarget, dev, o.dev)
  {
    var c := [Open(dev, path, p)] + o.evs;
    assert c[1..] == o.evs;
    assert WindowAt(s, c, 0);
    forall i: nat | i < |c| && c[i].Open?
      ensures dev <= c[i].dev < o.dev && WindowAt(s, c, i)
    {
      if i > 0 {
        assert c[i] == o.evs[i - 1] && WindowAt(s, o.evs, i - 1);
        assert c[i + 1..] == o.evs[i..];
      }
    }
    forall i: nat | i < |c| && c[i].Finish?
      ensures dev <= c[i].dev < o.dev
    {
      assert c[i] == o.evs[i - 1];
    }
  }

  lemma {:induction false} EntriesWindows(s: Text, live: bool, p: nat, root: bool, chain: seq<seq<nat>>, flags: Flags,
                                          target: Target, dev: nat, key: Key)
    requires p <= Nul(s) && KeyOk(s, key) && (target.Dev? ==> target.dev < dev)
    ensures Placed(s, ParseEntries(s, Nul(s), p))
    ensures var es := ParseEntries(s, Nul(s), p);
            var r := VisitEntries(s, live, es, root, chain, flags, target, dev, key);
            && dev <= r.dev && Windowed(s, r.evs, if root then target else NoTarget, dev, r.dev)
            && (root && target.Dev? && es.Entry? ==>
                  && LastValues(es, 0) <= Nul(s)
                  && forall was :: EndOf(r.evs, target.dev, was) == LineEnd(s, Past(s, LastValues(es, 0), SEMI)))
    decreases Nul(s) - p, 1
  {
    hide *;
    EntriesPlaced(s, Nul(s), p);
    var es := ParseEntries(s, Nul(s), p);
    if es.Done? {
      DoneOrdered(s, live, es, root, chain, flags, target, dev, key);
      WindowedPlain(s, [], if root then target else NoTarget, dev);
    } else {
      WholeEntry(s, p);
      EntryUnfolds(s, live, es, root, chain, flags, target, dev, key);
      var q := SpaceEnd(s, KeyEnd(s, p));
      var next := NextEntry(s, es.values.End());
      var k := Key(es.ks, es.ke, es.key);
      var a := VisitValues(s, live, es.values, chain, flags, target, es.key == INTERFACE, FlagsOf(es.key), dev, k);
      ValuesWindows(s, live, q, chain, flags, target, es.key == INTERFACE, FlagsOf(es.key), dev, k);
      FinishWindowed(s, es.values.End(), root, target, a.dev);
      EntriesWindows(s, live, next, root, chain, flags, target, a.dev, a.key);
      var b := VisitEntries(s, live, es.next, root, chain, flags, target, a.dev, a.key);
      if es.next.Done? { DoneOrdered(s, live, es.next, root, chain, flags, target, a.dev, a.key); }
      EntryJoin(s, es, root, target, a, b, dev);
    }
  }

  lemma {:induction false} EntryJoin(s: Text, es: Entries, root: bool, target: Target, a: Out, b: Out, dev: nat)
    requires es.Entry? && es.values.End() <= Nul(s) && dev <= a.dev <= b.dev && (target.Dev? ==> target.dev < dev)
    requires var fin := FinishEvents(s, es.values.End(), root, target);
             var t := if root then target else NoTarget;
             && Windowed(s, a.evs, NoTarget, dev, a.dev) && Windowed(s, fin, t, a.dev, a.dev)
             && Windowed(s, b.evs, t, a.dev, b.dev)
    requires root && target.Dev? ==>
               forall was :: EndOf(FinishEvents(s, es.values.End(), root, target), target.dev, was)
                             == LineEnd(s, Past(s, es.values.End(), SEMI))
    requires root && target.Dev? && es.next.Entry? ==>
               && LastValues(es.next, 0) <= Nul(s)
               && forall was :: EndOf(b.evs, target.dev, was) == LineEnd(s, Past(s, LastValues(es.next, 0), SEMI))
    requires es.next.Done? ==> b.evs == []
    ensures var fin := FinishEvents(s, es.values.End(), root, target);
            && Windowed(s, a.evs + fin + b.evs, if root then target else NoTarget, dev, b.dev)
            && (root && target.Dev? ==>
                  && LastValues(es, 0) <= Nul(s)
                  && forall was :: EndOf(a.evs + fin + b.evs, target.dev, was)
                      == LineEnd(s, Past(s, LastValues(es, 0), SEMI)))
  {
    hide Windowed, EndOf, FinishEvents, LineEnd, Past;
    var fin := FinishEvents(s, es.values.End(), root, target);
    var t := if root then target else NoTarget;
    WindowedFor(s, a.evs, t, dev, a.dev);
    WindowedJoin(s, a.evs, fin, t, dev, a.dev, a.dev);
    WindowedJoin(s, a.evs + fin, b.evs, t, dev, a.dev, b.dev);
    LastValuesFrom(es.next, es.values.End(), 0);
    if root && target.Dev? {
      forall was
        ensures EndOf(a.evs + fin + b.evs, target.dev, was) == LineEnd(s, Past(s, LastValues(es, 0), SEMI))
      {
        EndSplit(a.evs + fin, b.evs, target.dev, was);
        EndSplit(a.evs, fin, target.dev, was);
        if es.next.Done? {
          assert a.evs + fin + b.evs == a.evs + fin;
        }
      }
    }
  }

  lemma {:induction false} ValuesWindows(s: Text, live: bool, p: nat, chain: seq<seq<nat>>, flags: Flags,
                                         target: Target, iface: bool, own: Flags, dev: nat, key: Key)
    requires p <= Nul(s) && KeyOk(s, key) && (target.Dev? ==> target.dev < dev)
    ensures PlacedValues(s, ParseValues(s, Nul(s), p))
    ensures var r := VisitValues(s, live, ParseValues(s, Nul(s), p), chain, flags, target, iface, own, dev, key);
            dev <= r.dev && Windowed(s, r.evs, NoTarget, dev, r.dev)
    decreases Nul(s) - p, 0
  {
    hide *;
    ValuesPlaced(s, Nul(s), p);
    var vs := ParseValues(s, Nul(s), p);
    WholeValue(s, p);
    match vs
    case Stop(_) =>
      StopOrdered(s, live, vs, chain, flags, target, iface, own, dev, key);
      WindowedPlain(s, [], NoTarget, dev);
    case Word(at, rest) =>
      WordUnfolds(s, live, vs, chain, flags, target, iface, own, dev, key);
      ValuesWindows(s, live, Next(s, p), chain, flags, target, false, own, dev, key);
      WordWindowed(s, at, chain, flags, target, iface, own, key, dev);
      var b := VisitValues(s, live, rest, chain, flags, target, false, own, dev, key);
      WindowedJoin(s, WordEvents(s, at, chain, flags, target, iface, own, key), b.evs, NoTarget, dev, dev, b.dev);
    case Quoted(at, rest) =>
      QuotedUnfolds(s, live, vs, chain, flags, target, iface, own, dev, key);
      ValuesWindows(s, live, Next(s, p), chain, flags, target, false, own, dev, key);
      IfaceWindowed(s, at, iface, target, dev);
      var b := VisitValues(s, live, rest, chain, flags, target, false, own, dev, key);
      WindowedJoin(s, IfaceEvents(s, at, iface, target), b.evs, NoTarget, dev, dev, b.dev);
    case Nested(at, body, rest) =>
      NestedUnfolds(s, live, vs, chain, flags, target, iface, own, dev, key);
      var start := LineEnd(s, at + 1);
      BlockWindows(s, live, start, [key.text] + chain, own, target, dev, key);
      var a := VisitBlock(s, live, body, start, [key.text] + chain, own, target, dev, key);
      ValuesWindows(s, live, Next(s, p), chain, flags, target, false, own, a.dev, a.key);
      var b := VisitValues(s, live, rest, chain, flags, target, false, own, a.dev, a.key);
      WindowedJoin(s, a.evs, b.evs, NoTarget, dev, a.dev, b.dev);
  }

  /** Behind the value at p and the white space after it. */
  function Next(s: Text, p: nat): nat
    requires p <= Nul(s)
  {
    if p < Nul(s) && s[p] != SEMI then AfterValue(s, Nul(s), p) else p
  }

  lemma {:induction false} WholeValue(s: Text, p: nat)
    requires p <= Nul(s)
    ensures var vs := ParseValues(s, Nul(s), p);
            && (!vs.Stop? ==>
                  && p < Next(s, p) <= Nul(s) && vs.at == p < Nul(s)
                  && vs.rest == ParseValues(s, Nul(s), Next(s, p)))
            && (vs.Nested? ==>
                  && vs.body == ParseBlock(s, Nul(s), LineEnd(s, p + 1)) && p < LineEnd(s, p + 1) <= Nul(s))
  {
    if p < Nul(s) { SpaceAfterLine(s, p + 1); }
  }

  lemma {:induction false} OpenedAt(evs: seq<Event>, n: nat, d: nat) returns (i: nat)
    requires Ordered(evs, n) && n <= d < n + Opens(evs)
    ensures i < |evs| && evs[i].Open? && evs[i].dev == d
    decreases |evs|
  {
    if evs[0].Open? && d == n {
      i := 0;
    } else {
      i := OpenedAt(evs[1..], if evs[0].Open? then n + 1 else n, d);
      i := i + 1;
    }
  }

  /** Every device that the scan finds is given the window of a block with an interface key. */
  lemma {:induction false} DeviceWindow(s: Text, st: Store, junk: seq<nat>, d: nat)
    requires Scannable(s) && Filled(st, ScanEvents(s), junk) && d < |st.devices|
    ensures st.devices[d].start <= Nul(s) && HasIface(ParseBlock(s, Nul(s), st.devices[d].start))
    ensures st.devices[d].end == ConfigEnd(s, st.devices[d].start)
  {
    hide Scannable, VisitBlock, ParseEntries, Ordered, Opens, Names, Count, Total, Overlay, OverrideOf, EndOf, HasIface,
      ConfigEnd, ResourcesOf, NamesBefore;
    var evs := ScanEvents(s);
    ScanFacts(s);
    var i := OpenedAt(evs, 0, d);
    assert Named(st, evs, i);
    BlockWindows(s, true, 0, [], NoFlags, NoTarget, 0, Key(0, 0, []));
    assert WindowAt(s, evs, i);
  }

  /** What config_string_u64 and config_string_str find for a device is what its block's tree holds. */
  lemma {:induction false} DeviceLookup(s: Text, st: Store, junk: seq<nat>, d: nat, name: seq<nat>)
    requires Scannable(s) && Filled(st, ScanEvents(s), junk) && d < |st.devices|
    ensures var start, end := st.devices[d].start, st.devices[d].end;
            && start <= Nul(s) && end <= Nul(s)
            && var es := ParseBlock(s, Nul(s), start);
               var last, pos := SearchEnd(es, name), Lookup(es, name);
               && ParseBlock(s, end, start) == es
               && (last.Entry? ==> pos < end)
               && (last.Done? ==>
                     && pos == last.at <= Nul(s)
                     && (pos >= end) == !(Enters(es, name) && s[last.at] == CLOSE))
  {
    hide *;
    DeviceWindow(s, st, junk, d);
    IfaceHasEntry(s, st.devices[d].start);
    WindowLookup(s, st.devices[d].start, name);
  }

  lemma {:induction false} IfaceHasEntry(s: Text, p: nat)
    requires p <= Nul(s) && HasIface(ParseBlock(s, Nul(s), p))
    ensures ParseBlock(s, Nul(s), p).Entry? && ConfigEnd(s, p) <= Nul(s)
  {}

  /** If the block was printed, with any white space around it, the device's window gives each name the value
    that the printed tree gives it, and a missing name is noticed exactly if the search enters no block. */
  lemma {:induction false} DeviceFinds(s: Text, st: Store, junk: seq<nat>, d: nat, b: Block, name: seq<nat>)
    requires Scannable(s) && Filled(st, ScanEvents(s), junk) && d < |st.devices|
    requires st.devices[d].start <= Nul(s) && Stands(s, Nul(s), SpaceEnd(s, st.devices[d].start), b)
    ensures var start, end := st.devices[d].start, st.devices[d].end;
            && end <= Nul(s)
            && var pos := Lookup(ParseBlock(s, end, start), name);
               if Find(b, name).Absent? then (pos >= end) == !Commits(b, name)
               else
                 && pos < end && ValueAt(s, Nul(s), pos, Find(b, name))
                 && StringBytes(s, pos) == BytesOf(Find(b, name)) + [0]
  {
    hide *;
    DeviceWindow(s, st, junk, d);
    var start := st.devices[d].start;
    IfaceHasEntry(s, start);
    PrintedWindow(s, start, b, name);
  }

  lemma {:induction false} PrintedWindow(s: Text, p: nat, b: Block, name: seq<nat>)
    requires p <= Nul(s) && ParseBlock(s, Nul(s), p).Entry? && Stands(s, Nul(s), SpaceEnd(s, p), b)
    ensures var e := ConfigEnd(s, p);
            var pos := Lookup(ParseBlock(s, e, p), name);
            if Find(b, name).Absent? then (pos >= e) == !Commits(b, name)
            else
              && pos < e && ValueAt(s, Nul(s), pos, Find(b, name))
              && StringBytes(s, pos) == BytesOf(Find(b, name)) + [0]
  {
    hide ParseEntries, SpaceEnd, SearchEnd, Lookup, Enters, FirstPlain, Find, Commits, Print, Printable, StringBytes,
      BytesOf, ConfigEnd, Placing, KeyEnd, LastValues, Holds, Quotable;
    var q := SpaceEnd(s, p);
    var es := ParseBlock(s, Nul(s), p);
    WindowParses(s, p);
    WindowLookup(s, p, name);
    LookupEnds(s, Nul(s), q, name);
    PrintParses(s, Nul(s), q, b);
    PlacingEnds(b, q);
    LookupFinds(s, Nul(s), q, b, name);
    if !Find(b, name).Absent? { TextOfValue(s, Lookup(es, name), Find(b, name)); }
  }
}
