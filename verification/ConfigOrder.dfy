/** Facts about the events of every config text: devices are opened in turn, as many as there are marked
  blocks, and used only once open; and exactly when a scan follows a null pointer.
 */
module ConfigOrder {
  import opened ConfigBuffers
  import opened ConfigNumbers
  import opened ConfigText
  import opened ConfigTrace
  import Counting

  lemma {:induction false} OrderedJoin(a: seq<Event>, b: seq<Event>, n: nat)
    requires Ordered(a, n) && Ordered(b, n + Opens(a))
    ensures Ordered(a + b, n) && Opens(a + b) == Opens(a) + Opens(b)
    decreases |a|
  {
    if a == [] {
      assert a + b == b;
    } else {
      assert (a + b)[1..] == a[1..] + b;
      OrderedJoin(a[1..], b, if a[0].Open? then n + 1 else n);
    }
  }

  lemma {:induction false} OrderedOne(ev: Event, n: nat)
    requires match ev
             case Open(d, _, _) => d == n
             case Iface(target, _) => target.Dev? ==> target.dev < n
             case Resource(d, _, _, _, _) => d < n
             case Finish(d, _) => d < n
             case Fault => true
    ensures Ordered([ev], n) && Opens([ev]) == if ev.Open? then 1 else 0
  {
    assert [ev][1..] == [];
  }

  lemma {:induction false} WordOrdered(s: Text, at: nat, chain: seq<seq<nat>>, flags: Flags, target: Target,
                                       iface: bool, own: Flags, key: Key, n: nat)
    requires at <= Nul(s) && key.ks <= Nul(s) && (target.Dev? ==> target.dev < n)
    ensures var evs := WordEvents(s, at, chain, flags, target, iface, own, key);
            Ordered(evs, n) && Opens(evs) == 0
  {
    hide Ordered, Opens, IfaceEvents, RangeEvents, SingleEvents;
    var a := IfaceEvents(s, at, iface, target);
    var b := if flags != NoFlags then RangeEvents(s, at, chain, flags, target, key) else [];
    var c := if own != NoFlags then SingleEvents(s, at, chain, own, target) else [];
    IfaceOrdered(s, at, iface, target, n);
    ResourceOrdered(s, at, chain, flags, target, key, n);
    ResourceOrdered(s, at, chain, own, target, key, n);
    NoneOrdered(n);
    OrderedJoin(a, b, n);
    OrderedJoin(a + b, c, n);
  }

  lemma {:induction false} NoneOrdered(n: nat)
    ensures Ordered([], n) && Opens([]) == 0
  {}

  lemma {:induction false} ResourceOrdered(s: Text, at: nat, chain: seq<seq<nat>>, flags: Flags, target: Target,
                                           key: Key, n: nat)
    requires at <= Nul(s) && key.ks <= Nul(s) && (target.Dev? ==> target.dev < n)
    ensures Ordered(RangeEvents(s, at, chain, flags, target, key), n)
    ensures Opens(RangeEvents(s, at, chain, flags, target, key)) == 0
    ensures Ordered(SingleEvents(s, at, chain, flags, target), n)
    ensures Opens(SingleEvents(s, at, chain, flags, target)) == 0
  {
    hide U64At, KeyEnd, Path;
    var b, c := RangeEvents(s, at, chain, flags, target, key), SingleEvents(s, at, chain, flags, target);
    if b != [] { OrderedOne(b[0], n); }
    if c != [] { OrderedOne(c[0], n); }
  }

  /** Devices are opened in turn, one for every marked block of the walk. */
  lemma {:induction false} BlockOrdered(s: Text, live: bool, es: Entries, start: nat, chain: seq<seq<nat>>,
                                        flags: Flags, target: Target, dev: nat, key: Key)
    requires Placed(s, es) && KeyOk(s, key) && (target.Dev? ==> target.dev < dev)
    ensures var r := VisitBlock(s, live, es, start, chain, flags, target, dev, key);
            && Ordered(r.evs, dev) && r.dev == dev + Opens(r.evs)
            && Opens(r.evs) == if live then Counting.Count(Marks(es)) else 0
    decreases es, 1
  {
    hide *;
    BlockUnfolds(s, live, es, start, chain, flags, target, dev, key);
    Counting.CountJoin([HasIface(es)], InnerMarks(es));
    if live && HasIface(es) {
      EntriesOrdered(s, live, es, true, [], flags, Dev(dev), dev + 1, key);
      OrderedOne(Open(dev, Path(chain), start), dev);
      OrderedJoin([Open(dev, Path(chain), start)],
                  VisitEntries(s, live, es, true, [], flags, Dev(dev), dev + 1, key).evs, dev);
    } else {
      EntriesOrdered(s, live, es, false, chain, flags, target, dev, key);
    }
  }

  lemma {:induction false} BlockUnfolds(s: Text, live: bool, es: Entries, start: nat, chain: seq<seq<nat>>,
                                        flags: Flags, target: Target, dev: nat, key: Key)
    requires Placed(s, es) && KeyOk(s, key)
    ensures Marks(es) == [HasIface(es)] + InnerMarks(es)
    ensures Counting.Count([HasIface(es)]) == if HasIface(es) then 1 else 0
    ensures VisitBlock(s, live, es, start, chain, flags, target, dev, key)
            == if live && HasIface(es) then
                 var o := VisitEntries(s, live, es, true, [], flags, Dev(dev), dev + 1, key);
                 o.(evs := [Open(dev, Path(chain), start)] + o.evs)
               else VisitEntries(s, live, es, false, chain, flags, target, dev, key)
  {
    assert [HasIface(es)][1..] == [];
  }

  lemma {:induction false} EntriesOrdered(s: Text, live: bool, es: Entries, root: bool, chain: seq<seq<nat>>,
                                          flags: Flags, target: Target, dev: nat, key: Key)
    requires Placed(s, es) && KeyOk(s, key) && (target.Dev? ==> target.dev < dev)
    ensures var r := VisitEntries(s, live, es, root, chain, flags, target, dev, key);
            && Ordered(r.evs, dev) && r.dev == dev + Opens(r.evs)
            && Opens(r.evs) == if live then Counting.Count(InnerMarks(es)) else 0
    decreases es, 0
  {
    hide *;
    if es.Done? {
      DoneOrdered(s, live, es, root, chain, flags, target, dev, key);
    } else {
      MarksOfEntry(es);
      Counting.CountJoin(ValueMarks(es.values), InnerMarks(es.next));
      EntryUnfolds(s, live, es, root, chain, flags, target, dev, key);
      var k := Key(es.ks, es.ke, es.key);
      var a := VisitValues(s, live, es.values, chain, flags, target, es.key == INTERFACE, FlagsOf(es.key), dev, k);
      ValuesOrdered(s, live, es.values, chain, flags, target, es.key == INTERFACE, FlagsOf(es.key), dev, k);
      FinishOrdered(s, es.values.End(), root, target, a.dev);
      EntriesOrdered(s, live, es.next, root, chain, flags, target, a.dev, a.key);
      var b := VisitEntries(s, live, es.next, root, chain, flags, target, a.dev, a.key);
      OrderedJoin(a.evs, FinishEvents(s, es.values.End(), root, target), dev);
      OrderedJoin(a.evs + FinishEvents(s, es.values.End(), root, target), b.evs, dev);
    }
  }

  lemma {:induction false} DoneOrdered(s: Text, live: bool, es: Entries, root: bool, chain: seq<seq<nat>>, flags: Flags,
                                       target: Target, dev: nat, key: Key)
    requires es.Done? && Placed(s, es) && KeyOk(s, key)
    ensures VisitEntries(s, live, es, root, chain, flags, target, dev, key) == Out([], dev, key)
    ensures Ordered([], dev) && Opens([]) == 0 && Counting.Count(InnerMarks(es)) == 0
  {}

  lemma {:induction false} StopOrdered(s: Text, live: bool, vs: Values, chain: seq<seq<nat>>, flags: Flags,
                                       target: Target, iface: bool, own: Flags, dev: nat, key: Key)
    requires vs.Stop? && PlacedValues(s, vs) && KeyOk(s, key)
    ensures VisitValues(s, live, vs, chain, flags, target, iface, own, dev, key) == Out([], dev, key)
    ensures Ordered([], dev) && Opens([]) == 0 && Counting.Count(ValueMarks(vs)) == 0
  {}

  lemma {:induction false} FinishOrdered(s: Text, end: nat, root: bool, target: Target, n: nat)
    requires end <= Nul(s) && (target.Dev? ==> target.dev < n)
    ensures Ordered(FinishEvents(s, end, root, target), n) && Opens(FinishEvents(s, end, root, target)) == 0
  {
    var fin := FinishEvents(s, end, root, target);
    if fin != [] { OrderedOne(fin[0], n); }
  }

  lemma {:induction false} IfaceOrdered(s: Text, at: nat, iface: bool, target: Target, n: nat)
    requires at <= Nul(s) && (target.Dev? ==> target.dev < n)
    ensures Ordered(IfaceEvents(s, at, iface, target), n) && Opens(IfaceEvents(s, at, iface, target)) == 0
  {
    var a := IfaceEvents(s, at, iface, target);
    if a != [] { OrderedOne(a[0], n); }
  }

  lemma {:induction false} ValuesOrdered(s: Text, live: bool, vs: Values, chain: seq<seq<nat>>, flags: Flags,
                                         target: Target, iface: bool, own: Flags, dev: nat, key: Key)
    requires PlacedValues(s, vs) && KeyOk(s, key) && (target.Dev? ==> target.dev < dev)
    ensures var r := VisitValues(s, live, vs, chain, flags, target, iface, own, dev, key);
            && Ordered(r.evs, dev) && r.dev == dev + Opens(r.evs)
            && Opens(r.evs) == if live then Counting.Count(ValueMarks(vs)) else 0
    decreases vs, 2
  {
    hide *;
    MarksOfValues(vs);
    match vs
    case Stop(_) => StopOrdered(s, live, vs, chain, flags, target, iface, own, dev, key);
    case Word(at, rest) =>
      WordUnfolds(s, live, vs, chain, flags, target, iface, own, dev, key);
      ValuesOrdered(s, live, rest, chain, flags, target, false, own, dev, key);
      WordOrdered(s, at, chain, flags, target, iface, own, key, dev);
      OrderedJoin(WordEvents(s, at, chain, flags, target, iface, own, key),
                  VisitValues(s, live, rest, chain, flags, target, false, own, dev, key).evs, dev);
    case Quoted(at, rest) =>
      QuotedUnfolds(s, live, vs, chain, flags, target, iface, own, dev, key);
      ValuesOrdered(s, live, rest, chain, flags, target, false, own, dev, key);
      IfaceOrdered(s, at, iface, target, dev);
      OrderedJoin(IfaceEvents(s, at, iface, target),
                  VisitValues(s, live, rest, chain, flags, target, false, own, dev, key).evs, dev);
    case Nested(at, body, rest) =>
      Counting.CountJoin(Marks(body), ValueMarks(rest));
      NestedUnfolds(s, live, vs, chain, flags, target, iface, own, dev, key);
      var start := LineEnd(s, at + 1);
      var a := VisitBlock(s, live, body, start, [key.text] + chain, own, target, dev, key);
      BlockOrdered(s, live, body, start, [key.text] + chain, own, target, dev, key);
      ValuesOrdered(s, live, rest, chain, flags, target, false, own, a.dev, a.key);
      OrderedJoin(a.evs, VisitValues(s, live, rest, chain, flags, target, false, own, a.dev, a.key).evs, dev);
  }

  // ----- null pointers -----

  /** The last key of a block, which the caller finds in its state after the block. */
  function LastKey(es: Entries, key: Key): Key
    decreases es
  {
    match es
    case Done(_) => key
    case Entry(ks, ke, text, vs, next) => LastKey(next, LastKeyOfValues(vs, Key(ks, ke, text)))
  }

  function LastKeyOfValues(vs: Values, key: Key): Key
    decreases vs
  {
    match vs
    case Stop(_) => key
    case Word(_, rest) => LastKeyOfValues(rest, key)
    case Quoted(_, rest) => LastKeyOfValues(rest, key)
    case Nested(_, body, rest) => LastKeyOfValues(rest, LastKey(body, key))
  }

  /** A resource block (flags are set) that is itself a device root, with a word that parses as a number in
    an entry whose key does: parse_range then takes the parent of no parent. */
  predicate BlockFaults(s: Text, es: Entries, flags: Flags)
    decreases es, 1
  {
    EntriesFault(s, es, flags != NoFlags && HasIface(es))
  }

  predicate EntriesFault(s: Text, es: Entries, rootedResource: bool)
    decreases es, 0
  {
    match es
    case Done(_) => false
    case Entry(ks, ke, text, vs, next) =>
      ValuesFault(s, vs, rootedResource, FlagsOf(text), Key(ks, ke, text)) || EntriesFault(s, next, rootedResource)
  }

  predicate ValuesFault(s: Text, vs: Values, rootedResource: bool, own: Flags, key: Key)
    decreases vs, 2
  {
    match vs
    case Stop(_) => false
    case Word(at, rest) =>
      (rootedResource && IsNumber(s, key.ks, key.ke) && at <= Nul(s) && IsNumber(s, at, KeyEnd(s, at)))
      || ValuesFault(s, rest, rootedResource, own, key)
    case Quoted(_, rest) => ValuesFault(s, rest, rootedResource, own, key)
    case Nested(_, body, rest) =>
      BlockFaults(s, body, own) || ValuesFault(s, rest, rootedResource, own, LastKey(body, key))
  }

  predicate IsNumber(s: Text, p: nat, end: nat) { p <= Nul(s) && U64At(s, p).1 == end }

  lemma {:induction false} BlockFaultsIff(s: Text, es: Entries, start: nat, chain: seq<seq<nat>>, flags: Flags,
                                          target: Target, dev: nat, key: Key)
    requires Placed(s, es) && KeyOk(s, key) && (target.Dev? ==> chain != [])
    ensures var r := VisitBlock(s, true, es, start, chain, flags, target, dev, key);
            (Fault in r.evs) == BlockFaults(s, es, flags) && r.key == LastKey(es, key)
    decreases es, 1
  {
    if HasIface(es) {
      EntriesFaultIff(s, es, true, [], flags, Dev(dev), dev + 1, key);
    } else {
      EntriesFaultIff(s, es, false, chain, flags, target, dev, key);
    }
  }

  lemma {:induction false} EntriesFaultIff(s: Text, es: Entries, root: bool, chain: seq<seq<nat>>, flags: Flags,
                                           target: Target, dev: nat, key: Key)
    requires Placed(s, es) && KeyOk(s, key)
    requires if root then chain == [] && target.Dev? else target.Dev? ==> chain != []
    ensures var r := VisitEntries(s, true, es, root, chain, flags, target, dev, key);
            (Fault in r.evs) == EntriesFault(s, es, flags != NoFlags && root) && r.key == LastKey(es, key)
    decreases es, 0
  {
    match es
    case Done(_) =>
    case Entry(ks, ke, text, vs, next) =>
      var k := Key(ks, ke, text);
      ValuesFaultIff(s, vs, root, chain, flags, target, text == INTERFACE, FlagsOf(text), dev, k);
      var a := VisitValues(s, true, vs, chain, flags, target, text == INTERFACE, FlagsOf(text), dev, k);
      EntriesFaultIff(s, next, root, chain, flags, target, a.dev, a.key);
  }

  lemma {:induction false} ValuesFaultIff(s: Text, vs: Values, root: bool, chain: seq<seq<nat>>, flags: Flags,
                                          target: Target, iface: bool, own: Flags, dev: nat, key: Key)
    requires PlacedValues(s, vs) && KeyOk(s, key)
    requires if root then chain == [] && target.Dev? else target.Dev? ==> chain != []
    ensures var r := VisitValues(s, true, vs, chain, flags, target, iface, own, dev, key);
            && (Fault in r.evs) == ValuesFault(s, vs, flags != NoFlags && root, own, key)
            && r.key == LastKeyOfValues(vs, key)
    decreases vs, 2
  {
    hide *;
    ValuesFaultUnfolds(s, vs, flags != NoFlags && root, own, key);
    match vs
    case Stop(_) => StopOrdered(s, true, vs, chain, flags, target, iface, own, dev, key);
    case Word(_, rest) =>
      WordFault(s, vs, root, chain, flags, target, iface, own, key);
      WordUnfolds(s, true, vs, chain, flags, target, iface, own, dev, key);
      ValuesFaultIff(s, rest, root, chain, flags, target, false, own, dev, key);
    case Quoted(at, rest) =>
      QuotedUnfolds(s, true, vs, chain, flags, target, iface, own, dev, key);
      NoFaultInIface(s, at, iface, target);
      ValuesFaultIff(s, rest, root, chain, flags, target, false, own, dev, key);
    case Nested(at, body, rest) =>
      NestedUnfolds(s, true, vs, chain, flags, target, iface, own, dev, key);
      var start := LineEnd(s, at + 1);
      BlockFaultsIff(s, body, start, [key.text] + chain, own, target, dev, key);
      var a := VisitBlock(s, true, body, start, [key.text] + chain, own, target, dev, key);
      ValuesFaultIff(s, rest, root, chain, flags, target, false, own, a.dev, a.key);
  }

  lemma NoFaultInIface(s: Text, at: nat, iface: bool, target: Target)
    requires at <= Nul(s)
    ensures Fault !in IfaceEvents(s, at, iface, target)
  {}

  lemma {:induction false} ValuesFaultUnfolds(s: Text, vs: Values, bad: bool, own: Flags, key: Key)
    ensures vs.Stop? ==> !ValuesFault(s, vs, bad, own, key) && LastKeyOfValues(vs, key) == key
    ensures vs.Quoted? ==> ValuesFault(s, vs, bad, own, key) == ValuesFault(s, vs.rest, bad, own, key)
    ensures vs.Nested? ==> ValuesFault(s, vs, bad, own, key)
                           == (BlockFaults(s, vs.body, own) || ValuesFault(s, vs.rest, bad, own, LastKey(vs.body, key)))
    ensures vs.Quoted? || vs.Word? ==> LastKeyOfValues(vs, key) == LastKeyOfValues(vs.rest, key)
    ensures vs.Nested? ==> LastKeyOfValues(vs, key) == LastKeyOfValues(vs.rest, LastKey(vs.body, key))
  {}

  lemma {:induction false} WordFault(s: Text, vs: Values, root: bool, chain: seq<seq<nat>>, flags: Flags,
                                     target: Target, iface: bool, own: Flags, key: Key)
    requires vs.Word? && PlacedValues(s, vs) && KeyOk(s, key)
    requires if root then chain == [] && target.Dev? else target.Dev? ==> chain != []
    ensures vs.at <= Nul(s) && key.ks <= Nul(s)
    ensures ValuesFault(s, vs, flags != NoFlags && root, own, key)
            == (Fault in WordEvents(s, vs.at, chain, flags, target, iface, own, key)
                || ValuesFault(s, vs.rest, flags != NoFlags && root, own, key))
    ensures LastKeyOfValues(vs, key) == LastKeyOfValues(vs.rest, key)
  {}

  /** Without roots and without a target nothing but interface strings is seen. */
  lemma {:induction false} QuietBlock(s: Text, es: Entries, start: nat, chain: seq<seq<nat>>, flags: Flags, dev: nat,
                                      key: Key)
    requires Placed(s, es) && KeyOk(s, key)
    ensures Fault !in VisitBlock(s, false, es, start, chain, flags, NoTarget, dev, key).evs
    decreases es, 1
  {
    QuietEntries(s, es, chain, flags, dev, key);
  }

  lemma {:induction false} QuietEntries(s: Text, es: Entries, chain: seq<seq<nat>>, flags: Flags, dev: nat, key: Key)
    requires Placed(s, es) && KeyOk(s, key)
    ensures Fault !in VisitEntries(s, false, es, false, chain, flags, NoTarget, dev, key).evs
    decreases es, 0
  {
    hide *;
    if es.Done? {
      DoneOrdered(s, false, es, false, chain, flags, NoTarget, dev, key);
    } else {
      EntryUnfolds(s, false, es, false, chain, flags, NoTarget, dev, key);
      var k := Key(es.ks, es.ke, es.key);
      var a := VisitValues(s, false, es.values, chain, flags, NoTarget, es.key == INTERFACE, FlagsOf(es.key), dev, k);
      QuietValues(s, es.values, chain, flags, es.key == INTERFACE, FlagsOf(es.key), dev, k);
      QuietEntries(s, es.next, chain, flags, a.dev, a.key);
      NoFinish(s, es.values.End());
    }
  }

  lemma NoFinish(s: Text, end: nat)
    requires end <= Nul(s)
    ensures FinishEvents(s, end, false, NoTarget) == []
  {}

  lemma {:induction false} QuietValues(s: Text, vs: Values, chain: seq<seq<nat>>, flags: Flags, iface: bool, own: Flags,
                                       dev: nat, key: Key)
    requires PlacedValues(s, vs) && KeyOk(s, key)
    ensures Fault !in VisitValues(s, false, vs, chain, flags, NoTarget, iface, own, dev, key).evs
    decreases vs, 2
  {
    hide *;
    match vs
    case Stop(_) => StopOrdered(s, false, vs, chain, flags, NoTarget, iface, own, dev, key);
    case Word(at, rest) =>
      WordUnfolds(s, false, vs, chain, flags, NoTarget, iface, own, dev, key);
      NoFaultInWord(s, at, chain, flags, iface, own, key);
      QuietValues(s, rest, chain, flags, false, own, dev, key);
    case Quoted(at, rest) =>
      QuotedUnfolds(s, false, vs, chain, flags, NoTarget, iface, own, dev, key);
      NoFaultInIface(s, at, iface, NoTarget);
      QuietValues(s, rest, chain, flags, false, own, dev, key);
    case Nested(at, body, rest) =>
      NestedUnfolds(s, false, vs, chain, flags, NoTarget, iface, own, dev, key);
      var start := LineEnd(s, at + 1);
      QuietBlock(s, body, start, [key.text] + chain, own, dev, key);
      var a := VisitBlock(s, false, body, start, [key.text] + chain, own, NoTarget, dev, key);
      QuietValues(s, rest, chain, flags, false, own, a.dev, a.key);
  }

  lemma NoFaultInWord(s: Text, at: nat, chain: seq<seq<nat>>, flags: Flags, iface: bool, own: Flags, key: Key)
    requires at <= Nul(s) && key.ks <= Nul(s)
    ensures Fault !in WordEvents(s, at, chain, flags, NoTarget, iface, own, key)
  {}

  /** The key left over from an earlier scan does not matter. */
  lemma {:induction false} OldKey(s: Text, live: bool, es: Entries, dev: nat, key: Key, key': Key)
    requires Placed(s, es) && KeyOk(s, key) && KeyOk(s, key')
    ensures VisitBlock(s, live, es, 0, [], NoFlags, NoTarget, dev, key).evs
            == VisitBlock(s, live, es, 0, [], NoFlags, NoTarget, dev, key').evs
  {}

  // ----- the number of blocks -----

  /** How many of the bytes in [p, q) open a block. */
  function Braces(s: Text, p: nat, q: nat): (n: nat)
    requires p <= q <= |s|
    ensures n <= q - p
    decreases q - p
  {
    if p == q then 0 else (if s[p] == OPEN then 1 else 0) + Braces(s, p + 1, q)
  }

  lemma {:induction false} BracesSplit(s: Text, p: nat, m: nat, q: nat)
    requires p <= m <= q <= |s|
    ensures Braces(s, p, q) == Braces(s, p, m) + Braces(s, m, q)
    decreases m - p
  {
    if p < m { BracesSplit(s, p + 1, m, q); }
  }

  lemma {:induction false} EntriesBraces(s: Text, e: nat, p: nat)
    requires p <= Nul(s) && e <= Nul(s)
    ensures |InnerMarks(ParseEntries(s, e, p))| <= Braces(s, p, ParseEntries(s, e, p).End())
    decreases Nul(s) - p, 1
  {
    hide *;
    ParseEntriesUnfolds(s, e, p);
    if p < e && s[p] != CLOSE {
      var q := SpaceEnd(s, KeyEnd(s, p));
      var vs := ParseValues(s, e, q);
      var n := SpaceEnd(s, Past(s, vs.End(), SEMI));
      var es := ParseEntries(s, e, n);
      ValuesBraces(s, e, q);
      EntriesBraces(s, e, n);
      BracesSplit(s, p, q, es.End());
      BracesSplit(s, q, vs.End(), es.End());
      BracesSplit(s, vs.End(), n, es.End());
    }
  }

  lemma {:induction false} ParseEntriesUnfolds(s: Text, e: nat, p: nat)
    requires p <= Nul(s) && e <= Nul(s)
    ensures SEMI > 0 && CLOSE > 0 && Nul(s) < |s| && p <= ParseEntries(s, e, p).End()
    ensures p >= e || s[p] == CLOSE ==> InnerMarks(ParseEntries(s, e, p)) == []
    ensures p < e && s[p] != CLOSE ==>
              var q := SpaceEnd(s, KeyEnd(s, p));
              var vs := ParseValues(s, e, q);
              var n := SpaceEnd(s, Past(s, vs.End(), SEMI));
              && p <= q <= vs.End() <= n <= Nul(s) && p < n
              && ParseEntries(s, e, p).End() == ParseEntries(s, e, n).End()
              && InnerMarks(ParseEntries(s, e, p)) == ValueMarks(vs) + InnerMarks(ParseEntries(s, e, n))
  {}

  lemma ParseValuesUnfolds(s: Text, e: nat, p: nat)
    requires p <= Nul(s) && e <= Nul(s)
    ensures SEMI > 0 && CLOSE > 0 && Nul(s) < |s| && p <= ParseValues(s, e, p).End()
    ensures p >= e || s[p] == SEMI ==> ValueMarks(ParseValues(s, e, p)) == []
    ensures p < e && s[p] != SEMI ==>
              var n := SpaceEnd(s, if s[p] == QUOTE then StringEnd(s, p + 1)
                                   else if s[p] == OPEN then Past(s, ParseBlock(s, e, p + 1).End(), CLOSE)
                                   else KeyEnd(s, p + 1));
              && p < n <= Nul(s) && ParseValues(s, e, p).End() == ParseValues(s, e, n).End()
              && ValueMarks(ParseValues(s, e, p))
                 == (if s[p] == OPEN then Marks(ParseBlock(s, e, p + 1)) else []) + ValueMarks(ParseValues(s, e, n))
              && (s[p] == OPEN ==> SpaceEnd(s, p + 1) <= ParseBlock(s, e, p + 1).End() <= n)
  {}

  lemma {:induction false} ValuesBraces(s: Text, e: nat, p: nat)
    requires p <= Nul(s) && e <= Nul(s)
    ensures |ValueMarks(ParseValues(s, e, p))| <= Braces(s, p, ParseValues(s, e, p).End())
    decreases Nul(s) - p, 0
  {
    hide *;
    ParseValuesUnfolds(s, e, p);
    if p < e && s[p] != SEMI {
      var n := SpaceEnd(s, if s[p] == QUOTE then StringEnd(s, p + 1)
                           else if s[p] == OPEN then Past(s, ParseBlock(s, e, p + 1).End(), CLOSE)
                           else KeyEnd(s, p + 1));
      ValuesBraces(s, e, n);
      BracesSplit(s, p, n, ParseValues(s, e, p).End());
      if s[p] == OPEN {
        BlockBraces(s, e, p, n);
      }
    }
  }

  lemma BlockBraces(s: Text, e: nat, p: nat, n: nat)
    requires p < Nul(s) && e <= Nul(s) && s[p] == OPEN
    requires SpaceEnd(s, p + 1) <= ParseBlock(s, e, p + 1).End() <= n <= Nul(s)
    ensures |Marks(ParseBlock(s, e, p + 1))| <= Braces(s, p, n)
    decreases Nul(s) - p - 1, 2
  {
    var q := SpaceEnd(s, p + 1);
    var m := ParseBlock(s, e, p + 1).End();
    assert |Marks(ParseBlock(s, e, p + 1))| == 1 + |InnerMarks(ParseEntries(s, e, q))|;
    assert Braces(s, p, p + 1) == 1 by { assert Braces(s, p + 1, p + 1) == 0; }
    hide *;
    EntriesBraces(s, e, q);
    BracesSplit(s, p, p + 1, n);
    BracesSplit(s, p + 1, q, n);
    BracesSplit(s, q, m, n);
  }

  lemma {:induction false} AllBraces(s: Text, p: nat)
    requires p <= Nul(s)
    ensures Braces(s, p, Nul(s)) == Nul(s) - p <==> forall i | p <= i < Nul(s) :: s[i] == OPEN
    decreases Nul(s) - p
  {
    if p < Nul(s) { AllBraces(s, p + 1); }
  }

  lemma {:induction false} OnlyBraces(s: Text, p: nat)
    requires p <= Nul(s) && forall i | p <= i < Nul(s) :: s[i] == OPEN
    ensures ParseEntries(s, Nul(s), p).End() == Nul(s)
    ensures |InnerMarks(ParseEntries(s, Nul(s), p))| == Nul(s) - p
    decreases Nul(s) - p
  {
    if p < Nul(s) {
      OnlyBraces(s, p + 1);
      BraceAtFront(s, p);
    }
  }

  lemma BraceAtFront(s: Text, p: nat)
    requires p < Nul(s) && s[p] == OPEN && !IsSpace(s[p + 1])
    requires ParseEntries(s, Nul(s), p + 1).End() == Nul(s)
    ensures ParseEntries(s, Nul(s), p).End() == Nul(s)
    ensures |InnerMarks(ParseEntries(s, Nul(s), p))| == 1 + |InnerMarks(ParseEntries(s, Nul(s), p + 1))|
  {
    hide *;
    var e := Nul(s);
    BracePlaces(s, p);
    ParseEntriesUnfolds(s, e, p);
    ParseValuesUnfolds(s, e, p);
    AtEnd(s);
  }

  lemma BracePlaces(s: Text, p: nat)
    requires p < Nul(s) && s[p] == OPEN && !IsSpace(s[p + 1])
    ensures KeyEnd(s, p) == p && SpaceEnd(s, p) == p && SpaceEnd(s, p + 1) == p + 1
    ensures ParseBlock(s, Nul(s), p + 1) == ParseEntries(s, Nul(s), p + 1)
    ensures |Marks(ParseBlock(s, Nul(s), p + 1))| == 1 + |InnerMarks(ParseBlock(s, Nul(s), p + 1))|
    ensures OPEN != CLOSE && OPEN != SEMI && OPEN != QUOTE
  {}

  lemma {:induction false} AtEnd(s: Text)
    ensures var e := Nul(s);
            && SpaceEnd(s, e) == e && Past(s, e, SEMI) == e && Past(s, e, CLOSE) == e
            && ParseEntries(s, e, e) == Done(e) && ParseValues(s, e, e) == Stop(e)
            && InnerMarks(Done(e)) == [] && ValueMarks(Stop(e)) == [] && Done(e).End() == e && Stop(e).End() == e
  {}

  /** strlen(config) bytes are enough for one root flag per block exactly if some byte of the text does not
    open a block. */
  lemma {:induction false} RootsFit(s: Text)
    ensures |Marks(ParseBlock(s, Nul(s), 0))| <= Nul(s) <==> exists i :: 0 <= i < Nul(s) && s[i] != OPEN
  {
    var q := SpaceEnd(s, 0);
    var es := ParseEntries(s, Nul(s), q);
    EntriesBraces(s, Nul(s), q);
    BracesSplit(s, 0, q, Nul(s));
    BracesSplit(s, q, es.End(), Nul(s));
    AllBraces(s, 0);
    assert |Marks(ParseBlock(s, Nul(s), 0))| == 1 + |InnerMarks(es)|;
    if forall i | 0 <= i < Nul(s) :: s[i] == OPEN {
      assert q == 0;
      OnlyBraces(s, 0);
    }
  }
}
