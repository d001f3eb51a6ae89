/** What a scan of a config text for devices does, in order.

  The three passes of parse_config_string walk the same tree.  Their effects, block by block, form one
  list of events that does not depend on the buffers.  Pass 0 sees no device roots (live is false);
  passes 1 and 2 see exactly the roots that pass 0 marked.
 */
module ConfigTrace {
  import opened ConfigChars
  import opened ConfigNumbers
  import opened ConfigText

  const INTERFACE: seq<nat> := [105, 110, 116, 101, 114, 102, 97, 99, 101]
  const IRQ: seq<nat> := [105, 114, 113]
  const BUS: seq<nat> := [98, 117, 115]
  const MEM: seq<nat> := [109, 101, 109]

  datatype Flags = NoFlags | Irq | Bus | Mem

  function FlagsOf(key: seq<nat>): Flags {
    if key == MEM then Mem else if key == BUS then Bus else if key == IRQ then Irq else NoFlags
  }

  datatype Target = NoTarget | Dev(dev: nat)

  /** state.key_start, state.key_end and the text between them. */
  datatype Key = Key(ks: nat, ke: nat, text: seq<nat>)

  datatype Event =
    | Open(dev: nat, path: seq<nat>, start: nat)
    | Iface(target: Target, text: seq<nat>)
    | Resource(dev: nat, flags: Flags, path: seq<nat>, first: nat, last: nat)
    | Finish(dev: nat, end: nat)
    | Fault

  // ----- names -----

  /** The keys of a block's ancestors, innermost first, each followed by a dot. */
  function Dotted(chain: seq<seq<nat>>): (r: seq<nat>)
    ensures chain != [] ==> r != []
  {
    if chain == [] then [] else Dotted(chain[1..]) + chain[0] + [DOT]
  }

  /** config_path: the last dot becomes the terminator.  Without ancestors the name is a literal and takes
    no room. */
  function Path(chain: seq<seq<nat>>): seq<nat> {
    if chain == [] then [] else Dotted(chain)[..|Dotted(chain)| - 1] + [0]
  }

  // ----- the walk -----

  predicate HasIface(es: Entries) {
    es.Entry? && (es.key == INTERFACE || HasIface(es.next))
  }

  datatype Out = Out(evs: seq<Event>, dev: nat, key: Key)

  function RangeEvents(s: Text, at: nat, chain: seq<seq<nat>>, flags: Flags, target: Target, key: Key): seq<Event>
    requires at <= Nul(s) && key.ks <= Nul(s)
  {
    var k, v := U64At(s, key.ks), U64At(s, at);
    if k.1 != key.ke || v.1 != KeyEnd(s, at) || target.NoTarget? then []
    else if chain == [] then [Fault]
    else [Resource(target.dev, flags, Path(chain[1..]), k.0, v.0)]
  }

  function SingleEvents(s: Text, at: nat, chain: seq<seq<nat>>, flags: Flags, target: Target): seq<Event>
    requires at <= Nul(s)
  {
    var v := U64At(s, at);
    if v.1 != KeyEnd(s, at) || target.NoTarget? then []
    else [Resource(target.dev, flags, Path(chain), v.0, v.0)]
  }

  function IfaceEvents(s: Text, at: nat, iface: bool, target: Target): seq<Event>
    requires at <= Nul(s)
  {
    if iface then [Iface(target, StringBytes(s, at))] else []
  }

  function WordEvents(s: Text, at: nat, chain: seq<seq<nat>>, flags: Flags, target: Target, iface: bool, own: Flags,
                      key: Key)
    : seq<Event>
    requires at <= Nul(s) && key.ks <= Nul(s)
  {
    IfaceEvents(s, at, iface, target)
    + (if flags != NoFlags then RangeEvents(s, at, chain, flags, target, key) else [])
    + (if own != NoFlags then SingleEvents(s, at, chain, own, target) else [])
  }

  /** Every position in the tree is one of the text. */
  predicate Placed(s: Text, es: Entries)
    decreases es
  {
    match es
    case Done(at) => at <= Nul(s)
    case Entry(ks, ke, key, vs, next) =>
      ks <= ke <= Nul(s) && key == s[ks..ke] && PlacedValues(s, vs) && vs.End() <= Nul(s) && Placed(s, next)
  }

  predicate PlacedValues(s: Text, vs: Values)
    decreases vs
  {
    match vs
    case Stop(at) => at <= Nul(s)
    case Word(at, rest) => at <= Nul(s) && PlacedValues(s, rest)
    case Quoted(at, rest) => at <= Nul(s) && PlacedValues(s, rest)
    case Nested(at, body, rest) => at < Nul(s) && Placed(s, body) && PlacedValues(s, rest)
  }

  predicate KeyOk(s: Text, key: Key) {
    key.ks <= key.ke <= Nul(s) && key.text == s[key.ks..key.ke]
  }

  function VisitBlock(s: Text, live: bool, es: Entries, start: nat, chain: seq<seq<nat>>, flags: Flags, target: Target,
                      dev: nat, key: Key): (r: Out)
    requires Placed(s, es) && KeyOk(s, key)
    ensures KeyOk(s, r.key)
    decreases es, 1
  {
    if live && HasIface(es) then
      var o := VisitEntries(s, live, es, true, [], flags, Dev(dev), dev + 1, key);
      o.(evs := [Open(dev, Path(chain), start)] + o.evs)
    else
      VisitEntries(s, live, es, false, chain, flags, target, dev, key)
  }

  function VisitEntries(s: Text, live: bool, es: Entries, root: bool, chain: seq<seq<nat>>, flags: Flags,
                        target: Target, dev: nat, key: Key): (r: Out)
    requires Placed(s, es) && KeyOk(s, key)
    ensures KeyOk(s, r.key)
    decreases es, 0
  {
    match es
    case Done(_) => Out([], dev, key)
    case Entry(ks, ke, text, vs, next) =>
      var a := VisitValues(s, live, vs, chain, flags, target, text == INTERFACE, FlagsOf(text), dev, Key(ks, ke, text));
      var b := VisitEntries(s, live, next, root, chain, flags, target, a.dev, a.key);
      b.(evs := a.evs + FinishEvents(s, vs.End(), root, target) + b.evs)
  }

  function FinishEvents(s: Text, end: nat, root: bool, target: Target): seq<Event>
    requires end <= Nul(s)
  {
    if root && target.Dev? then [Finish(target.dev, LineEnd(s, Past(s, end, SEMI)))] else []
  }

  function VisitValues(s: Text, live: bool, vs: Values, chain: seq<seq<nat>>, flags: Flags, target: Target,
                       iface: bool, own: Flags, dev: nat, key: Key): (r: Out)
    requires PlacedValues(s, vs) && KeyOk(s, key)
    ensures KeyOk(s, r.key)
    decreases vs, 2
  {
    match vs
    case Stop(_) => Out([], dev, key)
    case Word(at, rest) =>
      var b := VisitValues(s, live, rest, chain, flags, target, false, own, dev, key);
      b.(evs := WordEvents(s, at, chain, flags, target, iface, own, key) + b.evs)
    case Quoted(at, rest) =>
      var b := VisitValues(s, live, rest, chain, flags, target, false, own, dev, key);
      b.(evs := IfaceEvents(s, at, iface, target) + b.evs)
    case Nested(at, body, rest) =>
      var a := VisitBlock(s, live, body, LineEnd(s, at + 1), [key.text] + chain, own, target, dev, key);
      var b := VisitValues(s, live, rest, chain, flags, target, false, own, a.dev, a.key);
      b.(evs := a.evs + b.evs)
  }

  // One unfolding of the walk at a time.

  lemma EntryUnfolds(s: Text, live: bool, es: Entries, root: bool, chain: seq<seq<nat>>, flags: Flags, target: Target,
                     dev: nat, key: Key)
    requires es.Entry? && Placed(s, es) && KeyOk(s, key)
    ensures PlacedValues(s, es.values) && Placed(s, es.next) && es.values.End() <= Nul(s)
    ensures KeyOk(s, Key(es.ks, es.ke, es.key))
    ensures var a := VisitValues(s, live, es.values, chain, flags, target, es.key == INTERFACE, FlagsOf(es.key), dev,
                                 Key(es.ks, es.ke, es.key));
            && KeyOk(s, a.key)
            && var b := VisitEntries(s, live, es.next, root, chain, flags, target, a.dev, a.key);
               VisitEntries(s, live, es, root, chain, flags, target, dev, key)
               == b.(evs := a.evs + FinishEvents(s, es.values.End(), root, target) + b.evs)
  {}

  lemma {:induction false} WordUnfolds(s: Text, live: bool, vs: Values, chain: seq<seq<nat>>, flags: Flags,
                                       target: Target, iface: bool, own: Flags, dev: nat, key: Key)
    requires vs.Word? && PlacedValues(s, vs) && KeyOk(s, key)
    ensures PlacedValues(s, vs.rest) && vs.at <= Nul(s) && key.ks <= Nul(s)
    ensures var b := VisitValues(s, live, vs.rest, chain, flags, target, false, own, dev, key);
            VisitValues(s, live, vs, chain, flags, target, iface, own, dev, key)
            == b.(evs := WordEvents(s, vs.at, chain, flags, target, iface, own, key) + b.evs)
  {}

  lemma {:induction false} QuotedUnfolds(s: Text, live: bool, vs: Values, chain: seq<seq<nat>>, flags: Flags,
                                         target: Target, iface: bool, own: Flags, dev: nat, key: Key)
    requires vs.Quoted? && PlacedValues(s, vs) && KeyOk(s, key)
    ensures PlacedValues(s, vs.rest) && vs.at <= Nul(s)
    ensures var b := VisitValues(s, live, vs.rest, chain, flags, target, false, own, dev, key);
            VisitValues(s, live, vs, chain, flags, target, iface, own, dev, key)
            == b.(evs := IfaceEvents(s, vs.at, iface, target) + b.evs)
  {}

  lemma NestedUnfolds(s: Text, live: bool, vs: Values, chain: seq<seq<nat>>, flags: Flags, target: Target, iface: bool,
                      own: Flags, dev: nat, key: Key)
    requires vs.Nested? && PlacedValues(s, vs) && KeyOk(s, key)
    ensures PlacedValues(s, vs.rest) && Placed(s, vs.body) && vs.at < Nul(s)
    ensures var a := VisitBlock(s, live, vs.body, LineEnd(s, vs.at + 1), [key.text] + chain, own, target, dev, key);
            && KeyOk(s, a.key)
            && var b := VisitValues(s, live, vs.rest, chain, flags, target, false, own, a.dev, a.key);
               VisitValues(s, live, vs, chain, flags, target, iface, own, dev, key) == b.(evs := a.evs + b.evs)
  {
    hide VisitBlock, VisitEntries, Placed, WordEvents, IfaceEvents, LineEnd;
  }

  /** For each block of a tree, outer before inner and in text order: is it a device root? */
  function Marks(es: Entries): (r: seq<bool>)
    decreases es, 1
  {
    [HasIface(es)] + InnerMarks(es)
  }

  function InnerMarks(es: Entries): seq<bool>
    decreases es, 0
  {
    match es
    case Done(_) => []
    case Entry(_, _, _, vs, next) => ValueMarks(vs) + InnerMarks(next)
  }

  function ValueMarks(vs: Values): seq<bool>
    decreases vs
  {
    match vs
    case Stop(_) => []
    case Word(_, rest) => ValueMarks(rest)
    case Quoted(_, rest) => ValueMarks(rest)
    case Nested(_, body, rest) => Marks(body) + ValueMarks(rest)
  }

  lemma {:induction false} MarksOfValues(vs: Values)
    ensures vs.Word? || vs.Quoted? ==> ValueMarks(vs) == ValueMarks(vs.rest)
    ensures vs.Nested? ==> ValueMarks(vs) == Marks(vs.body) + ValueMarks(vs.rest)
  {}

  lemma {:induction false} MarksOfEntry(es: Entries)
    requires es.Entry?
    ensures InnerMarks(es) == ValueMarks(es.values) + InnerMarks(es.next)
  {}

  /** The parser only produces positions of the text. */
  lemma {:induction false} EntriesPlaced(s: Text, e: nat, p: nat)
    requires p <= Nul(s) && e <= Nul(s)
    ensures Placed(s, ParseEntries(s, e, p))
    decreases Nul(s) - p, 1
  {
    if p < e && s[p] != CLOSE {
      var q := SpaceEnd(s, KeyEnd(s, p));
      ValuesPlaced(s, e, q);
      EntriesPlaced(s, e, SpaceEnd(s, Past(s, ParseValues(s, e, q).End(), SEMI)));
    }
  }

  lemma {:induction false} ValuesPlaced(s: Text, e: nat, p: nat)
    requires p <= Nul(s) && e <= Nul(s)
    ensures PlacedValues(s, ParseValues(s, e, p))
    decreases Nul(s) - p, 0
  {
    if p < e && s[p] != SEMI {
      if s[p] == QUOTE {
        ValuesPlaced(s, e, SpaceEnd(s, StringEnd(s, p + 1)));
      } else if s[p] == OPEN {
        EntriesPlaced(s, e, SpaceEnd(s, p + 1));
        ValuesPlaced(s, e, SpaceEnd(s, Past(s, ParseBlock(s, e, p + 1).End(), CLOSE)));
      } else {
        ValuesPlaced(s, e, SpaceEnd(s, KeyEnd(s, p + 1)));
      }
    }
  }
}
