/** The state of a scan as one value, and what a block, its entries and the values of an entry make of it.

  The class Parser is proved against RunBlock and RunValues; the lemmas here give one turn of its loops.
 */
module ConfigMachine {
  import opened ConfigBuffers
  import opened ConfigChars
  import opened ConfigText
  import opened ConfigTrace

  datatype Machine = Machine(roots: seq<bool>, block: nat, dev: nat, key: Key, st: Store)

  /** What a block hands to its values: state.parent, parent_flags and target. */
  datatype Ctx = Ctx(chain: seq<seq<nat>>, flags: Flags, target: Target)

  /** pass >= HAVE_DEVICES and pass >= HAVE_NAMES */
  datatype Mode = Mode(live: bool, writes: bool)

  /** Before its visit a block's flag is clear in pass 0 and right in the later passes. */
  predicate Expected(live: bool, roots: seq<bool>, b: nat, m: seq<bool>) {
    && b + |m| <= |roots|
    && forall j | b <= j < b + |m| :: roots[j] == (live && m[j - b])
  }

  function RunValues(s: Text, mode: Mode, c: Ctx, vs: Values, iface: bool, own: Flags, m: Machine): Machine
    requires PlacedValues(s, vs) && KeyOk(s, m.key)
  {
    var o := VisitValues(s, mode.live, vs, c.chain, c.flags, c.target, iface, own, m.dev, m.key);
    Machine(Blit(m.roots, m.block, ValueMarks(vs)), m.block + |ValueMarks(vs)|, o.dev, o.key,
            ApplyAll(mode.writes, m.st, o.evs))
  }

  predicate ValuesOk(s: Text, mode: Mode, c: Ctx, vs: Values, iface: bool, own: Flags, m: Machine): (ok: bool)
    ensures ok ==> PlacedValues(s, vs) && KeyOk(s, m.key)
  {
    && PlacedValues(s, vs) && KeyOk(s, m.key)
    && Expected(mode.live, m.roots, m.block, ValueMarks(vs))
    && FitsAll(mode.writes, m.st, VisitValues(s, mode.live, vs, c.chain, c.flags, c.target, iface, own, m.dev,
                                              m.key).evs)
  }

  function RunBlock(s: Text, mode: Mode, c: Ctx, es: Entries, start: nat, m: Machine): Machine
    requires Placed(s, es) && KeyOk(s, m.key)
  {
    var o := VisitBlock(s, mode.live, es, start, c.chain, c.flags, c.target, m.dev, m.key);
    Machine(Blit(m.roots, m.block, Marks(es)), m.block + |Marks(es)|, o.dev, o.key, ApplyAll(mode.writes, m.st, o.evs))
  }

  predicate BlockOk(s: Text, mode: Mode, c: Ctx, es: Entries, start: nat, m: Machine): (ok: bool)
    ensures ok ==> Placed(s, es) && KeyOk(s, m.key)
  {
    && Placed(s, es) && KeyOk(s, m.key)
    && Expected(mode.live, m.roots, m.block, Marks(es))
    && FitsAll(mode.writes, m.st, VisitBlock(s, mode.live, es, start, c.chain, c.flags, c.target, m.dev, m.key).evs)
  }

  /** `if (iface) *am_root = 1` */
  function Flagged(roots: seq<bool>, b: nat, iface: bool): (r: seq<bool>)
    ensures |r| == |roots|
  {
    if iface && b < |roots| then roots[b := true] else roots
  }

  /** The entries that remain of a block whose flag is roots[b]. */
  function RunEntries(s: Text, mode: Mode, c: Ctx, es: Entries, root: bool, b: nat, m: Machine): Machine
    requires Placed(s, es) && KeyOk(s, m.key)
  {
    var o := VisitEntries(s, mode.live, es, root, c.chain, c.flags, c.target, m.dev, m.key);
    Machine(Blit(Flagged(m.roots, b, HasIface(es)), m.block, InnerMarks(es)), m.block + |InnerMarks(es)|, o.dev, o.key,
            ApplyAll(mode.writes, m.st, o.evs))
  }

  predicate EntriesOk(s: Text, mode: Mode, c: Ctx, es: Entries, root: bool, b: nat, m: Machine): (ok: bool)
    ensures ok ==> Placed(s, es) && KeyOk(s, m.key) && b < |m.roots|
  {
    && Placed(s, es) && KeyOk(s, m.key) && b < m.block && b < |m.roots|
    && (mode.live ==> m.roots[b] == root && (HasIface(es) ==> root))
    && (!mode.live ==> !root)
    && Expected(mode.live, m.roots, m.block, InnerMarks(es))
    && FitsAll(mode.writes, m.st, VisitEntries(s, mode.live, es, root, c.chain, c.flags, c.target, m.dev, m.key).evs)
  }

  // ----- roots -----

  lemma ExpectedSplit(live: bool, roots: seq<bool>, b: nat, x: seq<bool>, y: seq<bool>)
    requires Expected(live, roots, b, x + y)
    ensures Expected(live, roots, b, x) && b + |x| + |y| <= |roots|
    ensures Expected(live, Blit(roots, b, x), b + |x|, y)
    ensures forall i | 0 <= i < b :: Blit(roots, b, x)[i] == roots[i]
  {
    assert forall j | b <= j < b + |x| :: roots[j] == (live && (x + y)[j - b]) && (x + y)[j - b] == x[j - b];
    assert forall j | b + |x| <= j < b + |x| + |y| ::
                    (x + y)[j - b] == y[j - b - |x|] && Blit(roots, b, x)[j] == roots[j];
  }

  lemma BlitKeepsBelow(roots: seq<bool>, b: nat, x: seq<bool>, i: nat, v: bool)
    requires i < b && b + |x| <= |roots|
    ensures Blit(roots, b, x)[i := v] == Blit(roots[i := v], b, x) && Blit(roots, b, x)[i] == roots[i]
  {}

  // ----- turns of the inner loop -----

  lemma WordTurn(s: Text, mode: Mode, c: Ctx, vs: Values, iface: bool, own: Flags, m: Machine)
    requires vs.Word? && ValuesOk(s, mode, c, vs, iface, own, m)
    ensures vs.at <= Nul(s) && m.key.ks <= Nul(s)
    ensures var evs := WordEvents(s, vs.at, c.chain, c.flags, c.target, iface, own, m.key);
            var m' := m.(st := ApplyAll(mode.writes, m.st, evs));
            && FitsAll(mode.writes, m.st, evs) && ValuesOk(s, mode, c, vs.rest, false, own, m')
            && RunValues(s, mode, c, vs, iface, own, m) == RunValues(s, mode, c, vs.rest, false, own, m')
  {
    hide VisitValues, VisitBlock, VisitEntries, Placed, PlacedValues, ValueMarks, Marks, InnerMarks, KeyOk, Expected,
      Blit, ApplyAll, FitsAll, WordEvents, IfaceEvents;
    MarksOfValues(vs);
    WordUnfolds(s, mode.live, vs, c.chain, c.flags, c.target, iface, own, m.dev, m.key);
    var evs := WordEvents(s, vs.at, c.chain, c.flags, c.target, iface, own, m.key);
    ApplySplit(mode.writes, m.st, evs,
               VisitValues(s, mode.live, vs.rest, c.chain, c.flags, c.target, false, own, m.dev, m.key).evs);
  }

  lemma QuotedTurn(s: Text, mode: Mode, c: Ctx, vs: Values, iface: bool, own: Flags, m: Machine)
    requires vs.Quoted? && ValuesOk(s, mode, c, vs, iface, own, m)
    ensures vs.at <= Nul(s)
    ensures var evs := IfaceEvents(s, vs.at, iface, c.target);
            var m' := m.(st := ApplyAll(mode.writes, m.st, evs));
            && FitsAll(mode.writes, m.st, evs) && ValuesOk(s, mode, c, vs.rest, false, own, m')
            && RunValues(s, mode, c, vs, iface, own, m) == RunValues(s, mode, c, vs.rest, false, own, m')
  {
    hide VisitValues, VisitBlock, VisitEntries, Placed, PlacedValues, ValueMarks, Marks, InnerMarks, KeyOk, Expected,
      Blit, ApplyAll, FitsAll, WordEvents, IfaceEvents;
    MarksOfValues(vs);
    QuotedUnfolds(s, mode.live, vs, c.chain, c.flags, c.target, iface, own, m.dev, m.key);
    var evs := IfaceEvents(s, vs.at, iface, c.target);
    ApplySplit(mode.writes, m.st, evs,
               VisitValues(s, mode.live, vs.rest, c.chain, c.flags, c.target, false, own, m.dev, m.key).evs);
  }

  lemma {:induction false} NestedTurn(s: Text, mode: Mode, c: Ctx, vs: Values, iface: bool, own: Flags, m: Machine)
    requires vs.Nested? && ValuesOk(s, mode, c, vs, iface, own, m)
    ensures Placed(s, vs.body) && vs.at < Nul(s)
    ensures var c' := Ctx([m.key.text] + c.chain, own, c.target);
            var start := LineEnd(s, vs.at + 1);
            && BlockOk(s, mode, c', vs.body, start, m)
            && var m' := RunBlock(s, mode, c', vs.body, start, m);
               && ValuesOk(s, mode, c, vs.rest, false, own, m')
               && RunValues(s, mode, c, vs, iface, own, m) == RunValues(s, mode, c, vs.rest, false, own, m')
               && (forall i | 0 <= i < m.block && i < |m.roots| :: m'.roots[i] == m.roots[i])
  {
    hide VisitValues, VisitBlock, VisitEntries, Placed, PlacedValues, ValueMarks, Marks, InnerMarks, KeyOk, Expected,
      Blit, ApplyAll, FitsAll, WordEvents, IfaceEvents;
    MarksOfValues(vs);
    NestedUnfolds(s, mode.live, vs, c.chain, c.flags, c.target, iface, own, m.dev, m.key);
    ExpectedSplit(mode.live, m.roots, m.block, Marks(vs.body), ValueMarks(vs.rest));
    BlitTwice(m.roots, m.block, Marks(vs.body), ValueMarks(vs.rest));
    var a := VisitBlock(s, mode.live, vs.body, LineEnd(s, vs.at + 1), [m.key.text] + c.chain, own, c.target, m.dev,
                        m.key);
    var b := VisitValues(s, mode.live, vs.rest, c.chain, c.flags, c.target, false, own, a.dev, a.key);
    ApplySplit(mode.writes, m.st, a.evs, b.evs);
  }

  lemma StopTurn(s: Text, mode: Mode, c: Ctx, vs: Values, iface: bool, own: Flags, m: Machine)
    requires vs.Stop? && ValuesOk(s, mode, c, vs, iface, own, m)
    ensures RunValues(s, mode, c, vs, iface, own, m) == m
  {
    BlitNone(m.roots, m.block);
  }

  // ----- turns of the outer loop -----

  /** The state after the key of an entry has been read. */
  function AtKey(m: Machine, b: nat, es: Entries): Machine
    requires es.Entry?
  {
    m.(key := Key(es.ks, es.ke, es.key), roots := Flagged(m.roots, b, es.key == INTERFACE))
  }

  lemma FlagsTurn(live: bool, roots: seq<bool>, b: nat, block: nat, first: bool, rest: bool, x: seq<bool>, y: seq<bool>)
    requires b < block && b < |roots| && Expected(live, roots, block, x + y)
    ensures var r := Blit(Flagged(roots, b, first), block, x);
            && Expected(live, Flagged(roots, b, first), block, x)
            && Expected(live, r, block + |x|, y)
            && Blit(Flagged(roots, b, first || rest), block, x + y) == Blit(Flagged(r, b, rest), block + |x|, y)
            && r[b] == (roots[b] || first)
  {
    var f := Flagged(roots, b, first);
    assert Expected(live, f, block, x + y);
    ExpectedSplit(live, f, block, x, y);
    if rest {
      BlitKeepsBelow(f, block, x, b, true);
      assert Flagged(roots, b, true) == f[b := true];
      BlitTwice(f[b := true], block, x, y);
    } else {
      BlitTwice(f, block, x, y);
    }
  }

  lemma EntryTurn(s: Text, mode: Mode, c: Ctx, es: Entries, root: bool, b: nat, m: Machine)
    requires es.Entry? && EntriesOk(s, mode, c, es, root, b, m)
    ensures es.values.End() <= Nul(s) && es.ks <= es.ke <= Nul(s)
    ensures var m1 := AtKey(m, b, es);
            && ValuesOk(s, mode, c, es.values, es.key == INTERFACE, FlagsOf(es.key), m1)
            && var m2 := RunValues(s, mode, c, es.values, es.key == INTERFACE, FlagsOf(es.key), m1);
               var fin := FinishEvents(s, es.values.End(), root, c.target);
               var m3 := m2.(st := ApplyAll(mode.writes, m2.st, fin));
               && FitsAll(mode.writes, m2.st, fin) && EntriesOk(s, mode, c, es.next, root, b, m3)
               && RunEntries(s, mode, c, es, root, b, m) == RunEntries(s, mode, c, es.next, root, b, m3)
               && m2.roots[b] == (m.roots[b] || es.key == INTERFACE)
  {
    hide VisitValues, VisitBlock, VisitEntries, Placed, PlacedValues, ValueMarks, Marks, InnerMarks, KeyOk, Expected,
      Blit, ApplyAll, FitsAll, FinishEvents, HasIface, Flagged;
    EntryFacts(s, es);
    EntryUnfolds(s, mode.live, es, root, c.chain, c.flags, c.target, m.dev, m.key);
    FlagsTurn(mode.live, m.roots, b, m.block, es.key == INTERFACE, HasIface(es.next), ValueMarks(es.values),
              InnerMarks(es.next));
    var a := VisitValues(s, mode.live, es.values, c.chain, c.flags, c.target, es.key == INTERFACE, FlagsOf(es.key),
                         m.dev, Key(es.ks, es.ke, es.key));
    var fin := FinishEvents(s, es.values.End(), root, c.target);
    var r := VisitEntries(s, mode.live, es.next, root, c.chain, c.flags, c.target, a.dev, a.key);
    ApplySplit(mode.writes, m.st, a.evs + fin, r.evs);
    ApplySplit(mode.writes, m.st, a.evs, fin);
  }

  lemma {:induction false} EntryFacts(s: Text, es: Entries)
    requires es.Entry? && Placed(s, es)
    ensures es.ks <= es.ke <= Nul(s)
    ensures HasIface(es) == (es.key == INTERFACE || HasIface(es.next))
    ensures InnerMarks(es) == ValueMarks(es.values) + InnerMarks(es.next)
  {}

  lemma DoneTurn(s: Text, mode: Mode, c: Ctx, es: Entries, root: bool, b: nat, m: Machine)
    requires es.Done? && EntriesOk(s, mode, c, es, root, b, m)
    ensures RunEntries(s, mode, c, es, root, b, m) == m
  {
    BlitNone(m.roots, m.block);
  }

  // ----- entering a block -----

  /** Context and state after the root test. */
  function Inside(c: Ctx, root: bool, dev: nat): Ctx {
    if root then Ctx([], c.flags, Dev(dev)) else c
  }

  function Entered(mode: Mode, c: Ctx, root: bool, start: nat, m: Machine): Machine {
    if root then
      m.(block := m.block + 1, dev := m.dev + 1, st := Apply(mode.writes, m.st, Open(m.dev, Path(c.chain), start)))
    else
      m.(block := m.block + 1)
  }

  lemma {:induction false} BlockTurn(s: Text, mode: Mode, c: Ctx, es: Entries, start: nat, m: Machine)
    requires BlockOk(s, mode, c, es, start, m)
    ensures var root := mode.live && HasIface(es);
            && m.block < |m.roots| && m.roots[m.block] == root
            && (root ==> Fits(mode.writes, m.st, Open(m.dev, Path(c.chain), start)))
            && var m1 := Entered(mode, c, root, start, m);
               && EntriesOk(s, mode, Inside(c, root, m.dev), es, root, m.block, m1)
               && RunBlock(s, mode, c, es, start, m)
                   == RunEntries(s, mode, Inside(c, root, m.dev), es, root, m.block, m1)
  {
    hide VisitEntries, Placed, KeyOk, Expected, Blit, ApplyAll, FitsAll, HasIface, Apply, Fits, Flagged, Path,
      InnerMarks;
    var root := mode.live && HasIface(es);
    RootFlag(mode.live, m.roots, m.block, HasIface(es), InnerMarks(es));
    if root {
      var o := VisitEntries(s, mode.live, es, true, [], c.flags, Dev(m.dev), m.dev + 1, m.key);
      ApplySplit(mode.writes, m.st, [Open(m.dev, Path(c.chain), start)], o.evs);
      ApplyOne(mode.writes, m.st, Open(m.dev, Path(c.chain), start));
    }
  }

  lemma RootFlag(live: bool, roots: seq<bool>, b: nat, iface: bool, x: seq<bool>)
    requires Expected(live, roots, b, [iface] + x)
    ensures b < |roots| && roots[b] == (live && iface) && Expected(live, roots, b + 1, x)
    ensures Blit(roots, b, [iface] + x) == Blit(Flagged(roots, b, iface), b + 1, x)
  {
    hide Expected, Blit;
    ExpectedFirst(live, roots, b, iface, x);
    BlitTwice(roots, b, [iface], x);
    BlitFlag(roots, b, iface);
  }

  lemma ExpectedFirst(live: bool, roots: seq<bool>, b: nat, iface: bool, x: seq<bool>)
    requires Expected(live, roots, b, [iface] + x)
    ensures b + 1 + |x| <= |roots| && roots[b] == (live && iface) && Expected(live, roots, b + 1, x)
  {
    var y := [iface] + x;
    assert y[0] == iface && roots[b] == (live && y[b - b]);
    forall j | b + 1 <= j < b + 1 + |x|
      ensures roots[j] == (live && x[j - b - 1])
    {
      assert roots[j] == (live && y[j - b]);
    }
  }

  lemma BlitFlag(roots: seq<bool>, b: nat, iface: bool)
    requires b < |roots| && (roots[b] ==> iface)
    ensures Blit(roots, b, [iface]) == Flagged(roots, b, iface)
  {}
}
