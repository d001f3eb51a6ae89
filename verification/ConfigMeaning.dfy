/** What a config tree says of the devices in it, and that the scan of its printed text finds exactly that.

  Nothing here speaks of events or positions until the scan is related to it: numbers are read off words,
  and names, resources and interfaces off the tree.
 */
module ConfigMeaning {
  import opened Bits
  import opened ConfigBuffers
  import opened ConfigChars
  import opened ConfigDevices
  import opened ConfigNumbers
  import opened ConfigOrder
  import opened ConfigPrint
  import opened ConfigStrings
  import opened ConfigText
  import opened ConfigTrace
  import opened ConfigWindows

  function Ascii(t: string): (s: seq<nat>)
    ensures |s| == |t| && forall i | 0 <= i < |t| :: s[i] == t[i] as nat
  {
    seq(|t|, i requires 0 <= i < |t| => t[i] as nat)
  }

  // ----- numbers -----

  datatype Literal = NoNumber | Num(value: nat)

  predicate DigitChar(c: nat, hex: bool) {
    '0' as int <= c <= '9' as int || (hex && ('a' as int <= c <= 'f' as int || 'A' as int <= c <= 'F' as int))
  }

  function DigitValue(c: nat): (v: nat)
    requires DigitChar(c, true)
    ensures v < 16
  {
    if c <= '9' as int then c - '0' as int else if c <= 'F' as int then c - 'A' as int + 10 else c - 'a' as int + 10
  }

  predicate AllDigits(ds: seq<nat>, hex: bool) {
    forall i | 0 <= i < |ds| :: ds[i] == '_' as int || DigitChar(ds[i], hex)
  }

  /** The number that digits spell; underscores count for nothing. */
  function Spelled(ds: seq<nat>, hex: bool): nat {
    if ds == [] then 0
    else
      var init, c := Spelled(ds[..|ds| - 1], hex), ds[|ds| - 1];
      if DigitChar(c, hex) then (if hex then 16 else 10) * init + DigitValue(c) else init
  }

  /** The number a word is: 64 bits of hexadecimal digits, or a decimal number below ten. */
  function NumberOf(w: seq<nat>): Literal {
    var unsigned := if |w| > 0 && w[0] == '-' as int then w[1..] else w;
    var hex := |unsigned| >= 2 && unsigned[..2] == Ascii("0x");
    var digits := if hex then unsigned[2..] else unsigned;
    var value := Spelled(digits, hex);
    if AllDigits(digits, hex) && value < if hex then W64 else 10 then
      Num(if |w| > 0 && w[0] == '-' as int then (W64 - value) % W64 else value)
    else NoNumber
  }

  // ----- names -----

  /** Keys with dots between them. */
  function Joined(path: seq<seq<nat>>): seq<nat> {
    if path == [] then [] else if |path| == 1 then path[0] else path[0] + Ascii(".") + Joined(path[1..])
  }

  /** The name of what stands at a path, outermost key first. */
  function PathName(path: seq<seq<nat>>): seq<nat> { if path == [] then Ascii(".") else Joined(path) }

  // ----- resources -----

  datatype Wanted = Wanted(flags: Flags, first: nat, last: nat, name: seq<nat>)

  function KindOf(key: seq<nat>): Flags {
    if key == Ascii("mem") then Mem else if key == Ascii("bus") then Bus else if key == Ascii("irq") then Irq
        else NoFlags
  }

  /** A block is a device if one of its entries is its interface. */
  predicate IsDevice(b: Block) { b.Item? && (b.key == Ascii("interface") || IsDevice(b.next)) }

  /** The key read last in a block, and after some values: values behind a nested block are taken to stand
    under the last key in that block. */
  function LastRead(b: Block, key: seq<nat>): seq<nat>
    decreases b
  {
    match b
    case Nil => key
    case Item(k, _, vals, _, next) => LastRead(next, LastReadIn(vals, k))
  }

  function LastReadIn(v: Vals, key: seq<nat>): seq<nat>
    decreases v
  {
    match v
    case Last => key
    case Bare(_, _, rest) => LastReadIn(rest, key)
    case Str(_, _, rest) => LastReadIn(rest, key)
    case Sub(_, body, _, rest) => LastReadIn(rest, LastRead(body, key))
  }

  /** The resources that a block at path gives to its device, in order.  In a block of resources, of the given
    kind, an entry is a range; a value that is itself one of a kind is a single number.  Blocks that are devices
    of their own give nothing. */
  function ResourcesIn(b: Block, path: seq<seq<nat>>, kind: Flags): seq<Wanted>
    decreases b
  {
    match b
    case Nil => []
    case Item(key, _, vals, _, next) =>
      ValueResources(vals, path, kind, KindOf(key), key) + ResourcesIn(next, path, kind)
  }

  function ValueResources(v: Vals, path: seq<seq<nat>>, kind: Flags, own: Flags, key: seq<nat>): seq<Wanted>
    decreases v
  {
    match v
    case Last => []
    case Bare(text, _, rest) =>
      RangeOf(path, kind, key, text) + SingleOf(path, own, text) + ValueResources(rest, path, kind, own, key)
    case Str(_, _, rest) => ValueResources(rest, path, kind, own, key)
    case Sub(_, body, _, rest) =>
      (if IsDevice(body) then [] else ResourcesIn(body, path + [key], own))
      + ValueResources(rest, path, kind, own, LastRead(body, key))
  }

  function RangeOf(path: seq<seq<nat>>, kind: Flags, key: seq<nat>, text: seq<nat>): seq<Wanted> {
    if kind != NoFlags && path != [] && NumberOf(key).Num? && NumberOf(text).Num? then
      [Wanted(kind, NumberOf(key).value, NumberOf(text).value, PathName(path[..|path| - 1]))]
    else []
  }

  function SingleOf(path: seq<seq<nat>>, own: Flags, text: seq<nat>): seq<Wanted> {
    if own != NoFlags && NumberOf(text).Num? then
      [Wanted(own, NumberOf(text).value, NumberOf(text).value, PathName(path))]
    else []
  }

  // ----- devices -----

  /** A device: its path from the device around it, and its block. */
  datatype Root = Root(path: seq<seq<nat>>, body: Block)

  /** The devices in a block, outer before inner and in text order. */
  function DevicesIn(b: Block, path: seq<seq<nat>>): seq<Root>
    decreases b, 1
  {
    if IsDevice(b) then [Root(path, b)] + InnerDevices(b, []) else InnerDevices(b, path)
  }

  function InnerDevices(b: Block, path: seq<seq<nat>>): seq<Root>
    decreases b, 0
  {
    match b
    case Nil => []
    case Item(key, _, vals, _, next) => ValueDevices(vals, path, key) + InnerDevices(next, path)
  }

  function ValueDevices(v: Vals, path: seq<seq<nat>>, key: seq<nat>): seq<Root>
    decreases v
  {
    match v
    case Last => []
    case Bare(_, _, rest) => ValueDevices(rest, path, key)
    case Str(_, _, rest) => ValueDevices(rest, path, key)
    case Sub(_, body, _, rest) => DevicesIn(body, path + [key]) + ValueDevices(rest, path, LastRead(body, key))
  }

  /** The interfaces that a block names: the first value of each such entry, if it is no block. */
  function Interfaces(b: Block): seq<seq<nat>> {
    match b
    case Nil => []
    case Item(key, _, vals, _, next) => (if key == Ascii("interface") then FirstText(vals) else []) + Interfaces(next)
  }

  /** With the terminator that a string is stored with. */
  function FirstText(v: Vals): seq<seq<nat>> {
    match v
    case Last => []
    case Bare(text, _, _) => [text + [0]]
    case Str(text, _, _) => [Decode(text) + [0]]
    case Sub(_, _, _, _) => []
  }

  // ----- the word at a position is the number that it spells -----

  lemma SameDigit(c: nat)
    ensures DigitChar(c, false) == IsDec(c) && DigitChar(c, true) == IsHex(c)
    ensures IsHex(c) ==> DigitValue(c) == HexDigit(c)
  {}

  lemma {:induction false} NumberStep(s: Text, p: nat, q: nat, hex: bool, acc: nat)
    requires p <= q < Nul(s)
    ensures Number(s, p, q + 1, hex, acc) == Number(s, q, q + 1, hex, Number(s, p, q, hex, acc))
    decreases q - p
  {
    if p < q {
      if hex && IsHex(s[p]) { NumberStep(s, p + 1, q, hex, acc * 16 + HexDigit(s[p])); }
      else if !hex && IsDec(s[p]) { NumberStep(s, p + 1, q, hex, acc * 10 + HexDigit(s[p])); }
      else { NumberStep(s, p + 1, q, hex, acc); }
    }
  }

  lemma {:induction false} SpelledIs(s: Text, p: nat, q: nat, hex: bool)
    requires p <= q <= Nul(s)
    ensures Number(s, p, q, hex, 0) == Spelled(s[p..q], hex)
    decreases q - p
  {
    if p < q {
      SpelledIs(s, p, q - 1, hex);
      NumberStep(s, p, q - 1, hex, 0);
      assert s[p..q][..q - p - 1] == s[p..q - 1] && s[p..q][q - p - 1] == s[q - 1];
      SameDigit(s[q - 1]);
    }
  }

  /** A run of digits within a word ends with the word exactly if the rest of the word is digits. */
  lemma {:induction false} RunInWord(s: Text, p: nat, q: nat, hex: bool)
    requires p <= q <= Nul(s) && !KeyChar(s[q])
    ensures RunEnd(s, p, hex) <= q && (RunEnd(s, p, hex) == q <==> AllDigits(s[p..q], hex))
    decreases q - p
  {
    SameDigit(s[p]);
    if p < q {
      RunInWord(s, p + 1, q, hex);
      assert s[p..q] == [s[p]] + s[p + 1..q];
      FirstDigit(s[p], s[p + 1..q], hex);
    }
  }

  lemma FirstDigit(c: nat, ds: seq<nat>, hex: bool)
    ensures AllDigits([c] + ds, hex) <==> (c == '_' as int || DigitChar(c, hex)) && AllDigits(ds, hex)
  {
    var all := [c] + ds;
    assert all[0] == c && forall i | 0 <= i < |ds| :: ds[i] == all[i + 1];
  }

  lemma WordIsNumber(s: Text, p: nat, w: seq<nat>)
    requires |w| > 0 && Holds(s, p, w) && p + |w| <= Nul(s) && !KeyChar(s[p + |w|])
    ensures (U64At(s, p).1 == p + |w|) == NumberOf(w).Num?
    ensures NumberOf(w).Num? ==> U64At(s, p).0 == NumberOf(w).value
  {
    hide U64At, RunEnd, Number, Spelled, AllDigits;
    var q := p + |w|;
    var (start, hex) := Digits(s, p);
    DigitsOfWord(s, p, w);
    U64Reads(s, p);
    RunInWord(s, start, q, hex);
    SpelledIs(s, start, q, hex);
    if s[p] == MINUS && NumberOf(w).Num? { Negated(U64At(s, p).0, Spelled(s[start..q], hex)); }
  }

  lemma Negated(x: nat, n: nat)
    requires x < W64 && n < W64 && (x + n) % W64 == 0
    ensures x == (W64 - n) % W64
  {}

  lemma DigitsOfWord(s: Text, p: nat, w: seq<nat>)
    requires |w| > 0 && Holds(s, p, w) && p + |w| <= Nul(s) && !KeyChar(s[p + |w|])
    ensures var (start, hex) := Digits(s, p);
            var unsigned := if w[0] == '-' as int then w[1..] else w;
            && start <= p + |w| && s[p] == w[0]
            && hex == (|unsigned| >= 2 && unsigned[..2] == Ascii("0x"))
            && s[start..p + |w|] == if hex then unsigned[2..] else unsigned
  {
    var q := p + |w|;
    assert s[p..q] == w;
    assert forall i | 0 <= i < |w| :: s[p + i] == w[i];
    assert w[0] == s[p];
    var unsigned := if w[0] == '-' as int then w[1..] else w;
    var u := q - |unsigned|;
    assert s[u..q] == unsigned;
    assert |unsigned| >= 1 ==> s[u] == unsigned[0];
    assert |unsigned| >= 2 ==> s[u + 1] == unsigned[1];
    if |unsigned| >= 2 {
      assert unsigned[..2] == [unsigned[0], unsigned[1]] && Ascii("0x") == ['0' as int, 'x' as int];
      assert s[u + 2..q] == unsigned[2..];
    }
  }

  // ----- what events say of a device -----

  /** The text of a name: its bytes without the terminator, or a dot. */
  function NameText(path: seq<nat>): seq<nat> {
    if path == [] || path[0] == 0 then Ascii(".") else path[..|path| - 1]
  }

  function Listed(evs: seq<Event>, d: nat): (r: seq<Wanted>)
    ensures |r| == Count(evs, d)
  {
    if evs == [] then [] else ListedOne(evs[0], d) + Listed(evs[1..], d)
  }

  function ListedOne(e: Event, d: nat): seq<Wanted> {
    if e.Resource? && e.dev == d then [Wanted(e.flags, e.first, e.last, NameText(e.path))] else []
  }

  function Texts(evs: seq<Event>, d: nat): seq<seq<nat>> {
    if evs == [] then [] else TextsOne(evs[0], d) + Texts(evs[1..], d)
  }

  function TextsOne(e: Event, d: nat): seq<seq<nat>> { if IsIface(e, d) then [e.text] else [] }

  lemma {:induction false} ListedJoin(a: seq<Event>, b: seq<Event>, d: nat)
    ensures Listed(a + b, d) == Listed(a, d) + Listed(b, d) && Texts(a + b, d) == Texts(a, d) + Texts(b, d)
    decreases |a|
  {
    if a == [] {
      assert a + b == b;
    } else {
      ListedJoin(a[1..], b, d);
      hide *;
      assert (a + b)[0] == a[0] && (a + b)[1..] == a[1..] + b;
      ListedHead(a, d);
      ListedHead(a + b, d);
      JoinHead(ListedOne(a[0], d), Listed(a[1..], d), Listed(b, d));
      JoinHead(TextsOne(a[0], d), Texts(a[1..], d), Texts(b, d));
    }
  }

  lemma {:induction false} ListedHead(evs: seq<Event>, d: nat)
    requires evs != []
    ensures Listed(evs, d) == ListedOne(evs[0], d) + Listed(evs[1..], d)
    ensures Texts(evs, d) == TextsOne(evs[0], d) + Texts(evs[1..], d)
  {}

  lemma JoinHead<T>(a: seq<T>, b: seq<T>, c: seq<T>)
    ensures a + (b + c) == (a + b) + c
  {}

  /** What is said of device d, when own and texts are said of the target and the devices from dev on are roots. */
  function OwnOf(d: nat, target: Target, dev: nat, roots: seq<Root>, own: seq<Wanted>): seq<Wanted> {
    if target == Dev(d) then own
    else if dev <= d < dev + |roots| then ResourcesIn(roots[d - dev].body, [], NoFlags)
    else []
  }

  function TextsOf(d: nat, target: Target, dev: nat, roots: seq<Root>, texts: seq<seq<nat>>): seq<seq<nat>> {
    if target == Dev(d) then texts
    else if dev <= d < dev + |roots| then Interfaces(roots[d - dev].body)
    else []
  }

  /** Event i opens a device at the path of its block. */
  predicate OpensRoot(evs: seq<Event>, i: nat, dev: nat, roots: seq<Root>)
    requires i < |evs| && evs[i].Open?
  {
    && dev <= evs[i].dev < dev + |roots|
    && (evs[i].path == [] <==> roots[evs[i].dev - dev].path == [])
    && NameText(evs[i].path) == PathName(roots[evs[i].dev - dev].path)
    && (evs[i].path != [] ==> evs[i].path == PathName(roots[evs[i].dev - dev].path) + [0])
  }

  ghost predicate Gives(evs: seq<Event>, target: Target, dev: nat, roots: seq<Root>, own: seq<Wanted>,
                        texts: seq<seq<nat>>)
  {
    && (forall d: nat :: Listed(evs, d) == OwnOf(d, target, dev, roots, own))
    && (forall d: nat :: Texts(evs, d) == TextsOf(d, target, dev, roots, texts))
    && (forall i: nat | i < |evs| && evs[i].Open? :: OpensRoot(evs, i, dev, roots))
    && (forall i: nat | i < |evs| && evs[i].Resource? :: EndsInNul(evs[i].path))
  }

  predicate EndsInNul(path: seq<nat>) { path == [] || path[|path| - 1] == 0 }

  lemma GivesJoin(a: seq<Event>, b: seq<Event>, target: Target, dev: nat, ra: seq<Root>, rb: seq<Root>, oa: seq<Wanted>,
                  ob: seq<Wanted>, ta: seq<seq<nat>>, tb: seq<seq<nat>>)
    requires Gives(a, target, dev, ra, oa, ta) && Gives(b, target, dev + |ra|, rb, ob, tb)
    requires target.Dev? ==> target.dev < dev
    ensures Gives(a + b, target, dev, ra + rb, oa + ob, ta + tb)
  {
    hide Listed, Texts, ResourcesIn, Interfaces, PathName, NameText;
    forall d: nat
      ensures Listed(a + b, d) == OwnOf(d, target, dev, ra + rb, oa + ob)
      ensures Texts(a + b, d) == TextsOf(d, target, dev, ra + rb, ta + tb)
    {
      ListedJoin(a, b, d);
      assert Listed(a, d) == OwnOf(d, target, dev, ra, oa) && Listed(b, d) == OwnOf(d, target, dev + |ra|, rb, ob);
      assert Texts(a, d) == TextsOf(d, target, dev, ra, ta) && Texts(b, d) == TextsOf(d, target, dev + |ra|, rb, tb);
    }
    forall i: nat | i < |a + b| && (a + b)[i].Open?
      ensures OpensRoot(a + b, i, dev, ra + rb)
    {
      if i < |a| { assert OpensRoot(a, i, dev, ra); } else { assert OpensRoot(b, i - |a|, dev + |ra|, rb); }
    }
    forall i: nat | i < |a + b| && (a + b)[i].Resource?
      ensures EndsInNul((a + b)[i].path)
    {
      assert (a + b)[i] == if i < |a| then a[i] else b[i - |a|];
    }
  }

  lemma GivesNothing(target: Target, dev: nat)
    ensures Gives([], target, dev, [], [], [])
  {}

  /** Events without a resource, an interface or a device. */
  lemma {:induction false} GivesNone(evs: seq<Event>, target: Target, dev: nat)
    requires forall i | 0 <= i < |evs| :: evs[i].Finish? || evs[i].Fault?
    requires target.Dev? ==> target.dev < dev
    ensures Gives(evs, target, dev, [], [], [])
    decreases |evs|
  {
    hide *;
    if evs == [] {
      GivesNothing(target, dev);
    } else {
      GivesNone(evs[1..], target, dev);
      GivesNothingOne(evs[0], target, dev);
      assert evs == [evs[0]] + evs[1..];
      GivesNothingMore([evs[0]], evs[1..], target, dev);
    }
  }

  lemma GivesNothingMore(a: seq<Event>, b: seq<Event>, target: Target, dev: nat)
    requires Gives(a, target, dev, [], [], []) && Gives(b, target, dev, [], [], [])
    requires target.Dev? ==> target.dev < dev
    ensures Gives(a + b, target, dev, [], [], [])
  {
    hide *;
    var roots: seq<Root>, own: seq<Wanted>, texts: seq<seq<nat>> := [], [], [];
    assert roots + roots == roots && own + own == own && texts + texts == texts;
    GivesJoin(a, b, target, dev, roots, roots, own, own, texts, texts);
  }

  lemma GivesNothingOne(ev: Event, target: Target, dev: nat)
    requires ev.Finish? || ev.Fault?
    ensures Gives([ev], target, dev, [], [], [])
  {
    assert [ev][1..] == [];
  }

  lemma GivesResource(ev: Event, target: Target, dev: nat)
    requires ev.Resource? && target == Dev(ev.dev) && EndsInNul(ev.path)
    ensures Gives([ev], target, dev, [], [Wanted(ev.flags, ev.first, ev.last, NameText(ev.path))], [])
  {
    assert [ev][1..] == [];
  }

  lemma GivesInterface(ev: Event, target: Target, dev: nat)
    requires ev.Iface? && ev.target == target
    ensures Gives([ev], target, dev, [], [], [ev.text])
  {
    assert [ev][1..] == [];
  }

  /** Without a target nothing is said of one. */
  lemma GivesUntargeted(evs: seq<Event>, dev: nat, roots: seq<Root>, own: seq<Wanted>, texts: seq<seq<nat>>,
                        own': seq<Wanted>, texts': seq<seq<nat>>)
    requires Gives(evs, NoTarget, dev, roots, own, texts)
    ensures Gives(evs, NoTarget, dev, roots, own', texts')
  {
    hide Listed, Texts, ResourcesIn, Interfaces, OpensRoot;
    forall d: nat
      ensures Listed(evs, d) == OwnOf(d, NoTarget, dev, roots, own')
      ensures Texts(evs, d) == TextsOf(d, NoTarget, dev, roots, texts')
    {
      assert Listed(evs, d) == OwnOf(d, NoTarget, dev, roots, own);
      assert Texts(evs, d) == TextsOf(d, NoTarget, dev, roots, texts);
    }
  }

  // ----- paths -----

  function Reversed(chain: seq<seq<nat>>): (path: seq<seq<nat>>)
    ensures |path| == |chain|
  {
    if chain == [] then [] else Reversed(chain[1..]) + [chain[0]]
  }

  predicate Keys(chain: seq<seq<nat>>) { forall i | 0 <= i < |chain| :: KeyChars(chain[i]) }

  lemma {:induction false} JoinedLast(path: seq<seq<nat>>, key: seq<nat>)
    requires path != []
    ensures Joined(path + [key]) == Joined(path) + Ascii(".") + key
    decreases |path|
  {
    if |path| > 1 {
      JoinedLast(path[1..], key);
      assert (path + [key])[1..] == path[1..] + [key];
    } else {
      assert (path + [key])[1..] == [key];
    }
  }

  lemma {:induction false} DottedIsJoined(chain: seq<seq<nat>>)
    requires chain != [] && Keys(chain)
    ensures Dotted(chain) == Joined(Reversed(chain)) + [DOT]
    ensures Joined(Reversed(chain)) != [] && Joined(Reversed(chain))[0] != 0
    decreases |chain|
  {
    assert KeyChars(chain[0]) && KeyChar(chain[0][0]);
    assert Ascii(".") == [DOT];
    if |chain| > 1 {
      assert forall i | 0 <= i < |chain[1..]| :: chain[1..][i] == chain[i + 1];
      DottedIsJoined(chain[1..]);
      JoinedLast(Reversed(chain[1..]), chain[0]);
    } else {
      assert chain[1..] == [];
      assert Reversed(chain) == [chain[0]];
    }
  }

  /** The bytes of a path are its name, with a terminator. */
  lemma {:induction false} PathIsName(chain: seq<seq<nat>>)
    requires Keys(chain)
    ensures NameText(Path(chain)) == PathName(Reversed(chain))
    ensures Path(chain) == [] <==> chain == []
    ensures chain != [] ==> Path(chain) == PathName(Reversed(chain)) + [0]
  {
    if chain != [] {
      DottedIsJoined(chain);
      var j := Joined(Reversed(chain));
      assert Dotted(chain)[..|Dotted(chain)| - 1] == j;
      assert (j + [0])[..|j|] == j;
    }
  }

  // ----- the walk -----

  /** key is a word of the text. */
  predicate GoodKey(s: Text, key: Key) {
    key.ks < key.ke <= Nul(s) && key.text == s[key.ks..key.ke] && KeyChars(key.text) && KeyEnd(s, key.ks) == key.ke
  }

  lemma {:induction false} KeyStops(s: Text, p: nat)
    requires p <= Nul(s)
    ensures !KeyChar(s[KeyEnd(s, p)])
    decreases Nul(s) - p
  {
    if KeyChar(s[p]) { KeyStops(s, p + 1); }
  }

  /** What a word does as a range. */
  lemma {:induction false} RangeGives(s: Text, at: nat, text: seq<nat>, chain: seq<seq<nat>>, flags: Flags,
                                      target: Target, key: Key, dev: nat)
    requires GoodKey(s, key) && |text| > 0 && Holds(s, at, text) && KeyEnd(s, at) == at + |text| <= Nul(s)
    requires Keys(chain) && (target.Dev? ==> target.dev < dev)
    ensures var evs := if flags != NoFlags then RangeEvents(s, at, chain, flags, target, key) else [];
            Gives(evs, target, dev, [], RangeOf(Reversed(chain), flags, key.text, text), [])
  {
    hide U64At, NumberOf, Path, PathName, Gives, NameText, KeyEnd;
    KeyStops(s, at);
    KeyStops(s, key.ks);
    WordIsNumber(s, at, text);
    WordIsNumber(s, key.ks, key.text);
    var evs := if flags != NoFlags then RangeEvents(s, at, chain, flags, target, key) else [];
    var own := RangeOf(Reversed(chain), flags, key.text, text);
    if target.NoTarget? || chain == [] || own == [] {
      GivesNone(evs, target, dev);
      if target.NoTarget? { GivesUntargeted(evs, dev, [], [], [], own, []); }
    } else {
      assert forall i | 0 <= i < |chain[1..]| :: chain[1..][i] == chain[i + 1];
      PathIsName(chain[1..]);
      assert Reversed(chain)[..|chain| - 1] == Reversed(chain[1..]);
      GivesResource(evs[0], target, dev);
    }
  }

  lemma {:induction false} SingleGives(s: Text, at: nat, text: seq<nat>, chain: seq<seq<nat>>, own: Flags,
                                       target: Target, dev: nat)
    requires |text| > 0 && Holds(s, at, text) && KeyEnd(s, at) == at + |text| <= Nul(s)
    requires Keys(chain) && (target.Dev? ==> target.dev < dev)
    ensures var evs := if own != NoFlags then SingleEvents(s, at, chain, own, target) else [];
            Gives(evs, target, dev, [], SingleOf(Reversed(chain), own, text), [])
  {
    hide U64At, NumberOf, Path, PathName, Gives, NameText, KeyEnd;
    KeyStops(s, at);
    WordIsNumber(s, at, text);
    var evs := if own != NoFlags then SingleEvents(s, at, chain, own, target) else [];
    var want := SingleOf(Reversed(chain), own, text);
    if target.NoTarget? || want == [] {
      GivesNone(evs, target, dev);
      if target.NoTarget? { GivesUntargeted(evs, dev, [], [], [], want, []); }
    } else {
      PathIsName(chain);
      GivesResource(evs[0], target, dev);
    }
  }

  lemma IfaceGives(s: Text, at: nat, iface: bool, target: Target, dev: nat)
    requires at <= Nul(s) && (target.Dev? ==> target.dev < dev)
    ensures Gives(IfaceEvents(s, at, iface, target), target, dev, [], [], if iface then [StringBytes(s, at)] else [])
  {
    hide Gives, StringBytes;
    if iface { GivesInterface(Iface(target, StringBytes(s, at)), target, dev); } else { GivesNothing(target, dev); }
  }

  lemma {:induction false} WordGives(s: Text, at: nat, text: seq<nat>, chain: seq<seq<nat>>, flags: Flags,
                                     target: Target, iface: bool, own: Flags, key: Key, dev: nat)
    requires GoodKey(s, key) && |text| > 0 && Holds(s, at, text) && KeyEnd(s, at) == at + |text| <= Nul(s)
    requires KeyChar(s[at]) && Keys(chain) && (target.Dev? ==> target.dev < dev)
    ensures var path := Reversed(chain);
            Gives(WordEvents(s, at, chain, flags, target, iface, own, key), target, dev, [],
                  RangeOf(path, flags, key.text, text) + SingleOf(path, own, text), if iface then [text + [0]] else [])
  {
    hide Gives, RangeEvents, SingleEvents, IfaceEvents, RangeOf, SingleOf, StringBytes, Reversed, KeyEnd;
    WordBytes(s, at, text);
    IfaceGives(s, at, iface, target, dev);
    RangeGives(s, at, text, chain, flags, target, key, dev);
    SingleGives(s, at, text, chain, own, target, dev);
    GivesThree(IfaceEvents(s, at, iface, target),
               if flags != NoFlags then RangeEvents(s, at, chain, flags, target, key) else [],
               if own != NoFlags then SingleEvents(s, at, chain, own, target) else [],
               target, dev, RangeOf(Reversed(chain), flags, key.text, text), SingleOf(Reversed(chain), own, text),
               if iface then [text + [0]] else []);
  }

  lemma {:induction false} WordBytes(s: Text, at: nat, text: seq<nat>)
    requires at <= Nul(s) && Holds(s, at, text) && KeyEnd(s, at) == at + |text| <= Nul(s) && KeyChar(s[at])
    ensures StringBytes(s, at) == text + [0]
  {
    assert s[at..at + |text|] == text;
  }

  lemma GivesThree(a: seq<Event>, b: seq<Event>, c: seq<Event>, target: Target, dev: nat, rs: seq<Wanted>,
                   ss: seq<Wanted>, ts: seq<seq<nat>>)
    requires target.Dev? ==> target.dev < dev
    requires Gives(a, target, dev, [], [], ts) && Gives(b, target, dev, [], rs, []) && Gives(c, target, dev, [], ss, [])
    ensures Gives(a + b + c, target, dev, [], rs + ss, ts)
  {
    hide *;
    var none: seq<Root> := [];
    assert none + none == none && [] + rs == rs && ts + [] == ts;
    GivesJoin(a, b, target, dev, none, none, [], rs, ts, []);
    GivesJoin(a + b, c, target, dev, none, none, rs, ss, ts, []);
  }

  lemma {:induction false} SameDevice(s: Text, b: Block, p: nat)
    ensures HasIface(Placing(b, p)) == IsDevice(b)
    decreases b
  {
    assert Ascii("interface") == INTERFACE;
    if b.Item? {
      SameDevice(s, b.next, p + |b.key| + |b.gap| + |PrintVals(b.vals)| + 1 + |b.tail|);
    }
  }

  lemma SameKind(key: seq<nat>)
    ensures FlagsOf(key) == KindOf(key) && (key == INTERFACE <==> key == Ascii("interface"))
  {
    assert Ascii("mem") == MEM && Ascii("bus") == BUS && Ascii("irq") == IRQ && Ascii("interface") == INTERFACE;
  }

  /** The key that the walk carries on is the one read last. */
  predicate Carries(s: Text, key: Key, text: seq<nat>) { GoodKey(s, key) && key.text == text }

  lemma {:induction false} StandsPlaced(s: Text, p: nat, b: Block)
    requires Stands(s, Nul(s), p, b)
    ensures p <= Nul(s) && Placed(s, Placing(b, p))
  {
    PrintParses(s, Nul(s), p, b);
    EntriesPlaced(s, Nul(s), p);
  }

  lemma {:induction false} ValsPlaced(s: Text, p: nat, v: Vals)
    requires StandsVals(s, Nul(s), p, v)
    ensures p <= Nul(s) && PlacedValues(s, PlacingVals(v, p))
  {
    ValsParse(s, Nul(s), p, v);
    ValuesPlaced(s, Nul(s), p);
  }

  /** The events of a printed block say what its tree says.  A device says nothing of the one around it. */
  lemma {:induction false} BlockGives(s: Text, p: nat, b: Block, start: nat, chain: seq<seq<nat>>, flags: Flags,
                                      target: Target, dev: nat, key: Key)
    requires Stands(s, Nul(s), p, b) && KeyOk(s, key) && Keys(chain) && (target.Dev? ==> target.dev < dev)
    ensures Placed(s, Placing(b, p))
    ensures var r := VisitBlock(s, true, Placing(b, p), start, chain, flags, target, dev, key);
            var path := Reversed(chain);
            && r.dev == dev + |DevicesIn(b, path)|
            && Gives(r.evs, target, dev, DevicesIn(b, path), if IsDevice(b) then []
                else ResourcesIn(b, path, flags), [])
            && (GoodKey(s, key) ==> Carries(s, r.key, LastRead(b, key.text)))
    decreases b, 1
  {
    hide *;
    StandsPlaced(s, p, b);
    SameDevice(s, b, p);
    BlockUnfolds(s, true, Placing(b, p), start, chain, flags, target, dev, key);
    DevicesUnfold(b, Reversed(chain));
    if IsDevice(b) {
      NoKeys();
      EntriesGives(s, p, b, true, [], flags, Dev(dev), dev + 1, key);
      KindUnused(b, flags);
      RootGives(b, chain, start, VisitEntries(s, true, Placing(b, p), true, [], flags, Dev(dev), dev + 1, key).evs,
                target, dev);
    } else {
      EntriesGives(s, p, b, false, chain, flags, target, dev, key);
      NoInterfaces(b);
    }
  }

  lemma NoKeys()
    ensures Keys([]) && Reversed([]) == []
  {}

  lemma {:induction false} DevicesUnfold(b: Block, path: seq<seq<nat>>)
    ensures DevicesIn(b, path) == if IsDevice(b) then [Root(path, b)] + InnerDevices(b, []) else InnerDevices(b, path)
  {}

  lemma {:induction false} NoInterfaces(b: Block)
    requires !IsDevice(b)
    ensures Interfaces(b) == []
  {
    if b.Item? { NoInterfaces(b.next); }
  }

  /** Directly in a device the kind of the block plays no part. */
  lemma {:induction false} KindUnused(b: Block, kind: Flags)
    ensures ResourcesIn(b, [], kind) == ResourcesIn(b, [], NoFlags)
    decreases b
  {
    if b.Item? {
      KindUnused(b.next, kind);
      ValueKindUnused(b.vals, kind, KindOf(b.key), b.key);
    }
  }

  lemma {:induction false} ValueKindUnused(v: Vals, kind: Flags, own: Flags, key: seq<nat>)
    ensures ValueResources(v, [], kind, own, key) == ValueResources(v, [], NoFlags, own, key)
    decreases v
  {
    match v
    case Last =>
    case Bare(_, _, rest) => ValueKindUnused(rest, kind, own, key);
    case Str(_, _, rest) => ValueKindUnused(rest, kind, own, key);
    case Sub(_, body, _, rest) => ValueKindUnused(rest, kind, own, LastRead(body, key));
  }

  /** Opening a device in front of what its block says of it. */
  lemma {:induction false} RootGives(b: Block, chain: seq<seq<nat>>, start: nat, evs: seq<Event>, target: Target,
                                     dev: nat)
    requires Keys(chain) && (target.Dev? ==> target.dev < dev)
    requires Gives(evs, Dev(dev), dev + 1, InnerDevices(b, []), ResourcesIn(b, [], NoFlags), Interfaces(b))
    ensures Gives([Open(dev, Path(chain), start)] + evs, target, dev, [Root(Reversed(chain), b)] + InnerDevices(b, []),
                  [], [])
  {
    hide Listed, Texts, ResourcesIn, Interfaces, PathName, NameText, InnerDevices, Path, Reversed, Keys;
    var roots, inner := [Root(Reversed(chain), b)] + InnerDevices(b, []), InnerDevices(b, []);
    var all := [Open(dev, Path(chain), start)] + evs;
    assert all[1..] == evs;
    forall d: nat
      ensures Listed(all, d) == OwnOf(d, target, dev, roots, []) && Texts(all, d) == TextsOf(d, target, dev, roots, [])
    {
      OpenSaysNothing(all, d);
      assert Listed(evs, d) == OwnOf(d, Dev(dev), dev + 1, inner, ResourcesIn(b, [], NoFlags));
      assert Texts(evs, d) == TextsOf(d, Dev(dev), dev + 1, inner, Interfaces(b));
    }
    PathIsName(chain);
    EmptyReversed(chain);
    forall i: nat | i < |all| && all[i].Open?
      ensures OpensRoot(all, i, dev, roots)
    {
      if i > 0 { assert OpensRoot(evs, i - 1, dev + 1, inner); }
    }
    forall i: nat | i < |all| && all[i].Resource?
      ensures EndsInNul(all[i].path)
    {
      assert all[i] == evs[i - 1];
    }
  }

  lemma {:induction false} EmptyReversed(chain: seq<seq<nat>>)
    ensures Reversed(chain) == [] <==> chain == []
  {}

  lemma {:induction false} OpenSaysNothing(evs: seq<Event>, d: nat)
    requires evs != [] && evs[0].Open?
    ensures Listed(evs, d) == Listed(evs[1..], d) && Texts(evs, d) == Texts(evs[1..], d)
  {}

  lemma {:induction false} EntriesGives(s: Text, p: nat, b: Block, root: bool, chain: seq<seq<nat>>, flags: Flags,
                                        target: Target, dev: nat, key: Key)
    requires Stands(s, Nul(s), p, b) && KeyOk(s, key) && Keys(chain) && (target.Dev? ==> target.dev < dev)
    ensures Placed(s, Placing(b, p))
    ensures var r := VisitEntries(s, true, Placing(b, p), root, chain, flags, target, dev, key);
            var path := Reversed(chain);
            && r.dev == dev + |InnerDevices(b, path)|
            && Gives(r.evs, target, dev, InnerDevices(b, path), ResourcesIn(b, path, flags), Interfaces(b))
            && (GoodKey(s, key) || b.Item? ==> Carries(s, r.key, LastRead(b, key.text)))
    decreases b, 0
  {
    hide *;
    StandsPlaced(s, p, b);
    var es, path := Placing(b, p), Reversed(chain);
    if b.Nil? {
      NilGives(s, p, b, root, chain, flags, target, dev, key);
    } else {
      ItemParts(s, Nul(s), p, b);
      ItemShape(s, p, b);
      EntryUnfolds(s, true, es, root, chain, flags, target, dev, key);
      SameKind(b.key);
      var k := Key(es.ks, es.ke, es.key);
      var q := p + |b.key| + |b.gap|;
      var t := q + |PrintVals(b.vals)| + 1 + |b.tail|;
      var iface := es.key == INTERFACE;
      var a := VisitValues(s, true, es.values, chain, flags, target, iface, FlagsOf(es.key), dev, k);
      ValuesGives(s, q, b.vals, chain, flags, target, iface, FlagsOf(es.key), dev, k);
      CarriedText(s, a.key, LastReadIn(b.vals, b.key));
      EntriesGives(s, t, b.next, root, chain, flags, target, a.dev, a.key);
      FinishOnly(s, es.values.End(), root, target);
      var z := VisitEntries(s, true, es.next, root, chain, flags, target, a.dev, a.key);
      ItemGives(s, b, path, flags, target, dev, a.evs, FinishEvents(s, es.values.End(), root, target), z.evs, iface);
      ItemLastRead(b, key.text);
    }
  }

  lemma FinishOnly(s: Text, end: nat, root: bool, target: Target)
    requires end <= Nul(s)
    ensures forall i | 0 <= i < |FinishEvents(s, end, root, target)| :: FinishEvents(s, end, root, target)[i].Finish?
  {}

  lemma {:induction false} ItemLastRead(b: Block, key: seq<nat>)
    requires b.Item?
    ensures LastRead(b, key) == LastRead(b.next, LastReadIn(b.vals, b.key))
  {}

  lemma {:induction false} NilGives(s: Text, p: nat, b: Block, root: bool, chain: seq<seq<nat>>, flags: Flags,
                                    target: Target, dev: nat, key: Key)
    requires b.Nil? && Placed(s, Placing(b, p)) && KeyOk(s, key)
    ensures var path := Reversed(chain);
            && VisitEntries(s, true, Placing(b, p), root, chain, flags, target, dev, key) == Out([], dev, key)
            && InnerDevices(b, path) == [] && LastRead(b, key.text) == key.text
            && Gives([], target, dev, InnerDevices(b, path), ResourcesIn(b, path, flags), Interfaces(b))
            && (GoodKey(s, key) ==> Carries(s, key, key.text))
  {}

  lemma ItemShape(s: Text, p: nat, b: Block)
    requires b.Item? && Stands(s, Nul(s), p, b)
    requires KeyEnd(s, p) == p + |b.key| && s[p..p + |b.key|] == b.key
    ensures var es := Placing(b, p);
            var q := p + |b.key| + |b.gap|;
            && es.Entry? && es.ks == p && es.ke == p + |b.key| && es.key == b.key && es.values == PlacingVals(b.vals, q)
            && es.next == Placing(b.next, q + |PrintVals(b.vals)| + 1 + |b.tail|)
            && GoodKey(s, Key(es.ks, es.ke, es.key)) && KeyOk(s, Key(es.ks, es.ke, es.key))
  {}

  lemma {:induction false} ItemGives(s: Text, b: Block, path: seq<seq<nat>>, flags: Flags, target: Target, dev: nat,
                                     a: seq<Event>, fin: seq<Event>, z: seq<Event>, iface: bool)
    requires b.Item? && (iface <==> b.key == Ascii("interface")) && (target.Dev? ==> target.dev < dev)
    requires var roots := ValueDevices(b.vals, path, b.key);
             && Gives(a, target, dev, roots, ValueResources(b.vals, path, flags, KindOf(b.key), b.key),
                      if iface then FirstText(b.vals) else [])
             && Gives(z, target, dev + |roots|, InnerDevices(b.next, path), ResourcesIn(b.next, path, flags),
                      Interfaces(b.next))
    requires forall i | 0 <= i < |fin| :: fin[i].Finish?
    ensures Gives(a + fin + z, target, dev, InnerDevices(b, path), ResourcesIn(b, path, flags), Interfaces(b))
    ensures InnerDevices(b, path) == ValueDevices(b.vals, path, b.key) + InnerDevices(b.next, path)
  {
    hide Gives, ValueDevices, ValueResources, FirstText;
    var roots := ValueDevices(b.vals, path, b.key);
    var own := ValueResources(b.vals, path, flags, KindOf(b.key), b.key);
    var ts := if iface then FirstText(b.vals) else [];
    GivesNone(fin, target, dev + |roots|);
    assert roots + [] == roots && own + [] == own && ts + [] == ts;
    GivesJoin(a, fin, target, dev, roots, [], own, [], ts, []);
    GivesJoin(a + fin, z, target, dev, roots, InnerDevices(b.next, path), own, ResourcesIn(b.next, path, flags), ts,
              Interfaces(b.next));
  }

  lemma {:induction false} ValuesGives(s: Text, p: nat, v: Vals, chain: seq<seq<nat>>, flags: Flags, target: Target,
                                       iface: bool, own: Flags, dev: nat, key: Key)
    requires StandsVals(s, Nul(s), p, v) && GoodKey(s, key) && KeyOk(s, key)
    requires Keys(chain) && (target.Dev? ==> target.dev < dev)
    ensures PlacedValues(s, PlacingVals(v, p))
    ensures var r := VisitValues(s, true, PlacingVals(v, p), chain, flags, target, iface, own, dev, key);
            var path := Reversed(chain);
            && r.dev == dev + |ValueDevices(v, path, key.text)|
            && Gives(r.evs, target, dev, ValueDevices(v, path, key.text), ValueResources(v, path, flags, own, key.text),
                     if iface then FirstText(v) else [])
            && Carries(s, r.key, LastReadIn(v, key.text))
    decreases v, 2
  {
    hide *;
    ValsPlaced(s, p, v);
    var vs, path := PlacingVals(v, p), Reversed(chain);
    ShapeOfVals(v, p);
    match v
    case Last => LastGives(s, p, v, chain, flags, target, iface, own, dev, key);
    case Bare(text, gap, rest) =>
      BareParts(s, Nul(s), p, v);
      BareHolds(s, p, v);
      WordUnfolds(s, true, vs, chain, flags, target, iface, own, dev, key);
      ValuesGives(s, Behind(v, p), rest, chain, flags, target, false, own, dev, key);
      WordGives(s, p, text, chain, flags, target, iface, own, key, dev);
      var z := VisitValues(s, true, vs.rest, chain, flags, target, false, own, dev, key);
      BareGives(v, path, flags, target, own, dev, key.text, iface,
                WordEvents(s, p, chain, flags, target, iface, own, key), z.evs);
    case Str(text, gap, rest) =>
      StrParts(s, Nul(s), p, v);
      StrReads(s, p, v);
      QuotedUnfolds(s, true, vs, chain, flags, target, iface, own, dev, key);
      ValuesGives(s, Behind(v, p), rest, chain, flags, target, false, own, dev, key);
      IfaceGives(s, p, iface, target, dev);
      var z := VisitValues(s, true, vs.rest, chain, flags, target, false, own, dev, key);
      StrGives(v, path, flags, target, own, dev, key.text, iface, IfaceEvents(s, p, iface, target), z.evs);
    case Sub(lead, body, gap, rest) =>
      SubParts(s, Nul(s), p, v);
      NestedUnfolds(s, true, vs, chain, flags, target, iface, own, dev, key);
      LongerChain(s, key, chain);
      var start := LineEnd(s, p + 1);
      BlockGives(s, p + 1 + |lead|, body, start, [key.text] + chain, own, target, dev, key);
      var a := VisitBlock(s, true, vs.body, start, [key.text] + chain, own, target, dev, key);
      CarriedText(s, a.key, LastRead(body, key.text));
      KeyIsOk(s, a.key);
      ValuesGives(s, Behind(v, p), rest, chain, flags, target, false, own, a.dev, a.key);
      var z := VisitValues(s, true, vs.rest, chain, flags, target, false, own, a.dev, a.key);
      SubGives(v, path, flags, target, own, dev, key.text, iface, a.evs, z.evs);
  }

  lemma KeyIsOk(s: Text, key: Key)
    ensures GoodKey(s, key) ==> KeyOk(s, key)
  {}

  lemma CarriedText(s: Text, key: Key, text: seq<nat>)
    requires Carries(s, key, text)
    ensures GoodKey(s, key) && key.text == text
  {}

  lemma {:induction false} ShapeOfVals(v: Vals, p: nat)
    ensures var vs := PlacingVals(v, p);
            match v
            case Last => vs.Stop?
            case Bare(_, _, rest) => vs.Word? && vs.at == p && vs.rest == PlacingVals(rest, Behind(v, p))
            case Str(_, _, rest) => vs.Quoted? && vs.at == p && vs.rest == PlacingVals(rest, Behind(v, p))
            case Sub(lead, body, _, rest) =>
              && vs.Nested? && vs.at == p && vs.body == Placing(body, p + 1 + |lead|)
              && vs.rest == PlacingVals(rest, Behind(v, p))
  {}

  lemma {:induction false} LongerChain(s: Text, key: Key, chain: seq<seq<nat>>)
    requires GoodKey(s, key) && Keys(chain)
    ensures Keys([key.text] + chain) && Reversed([key.text] + chain) == Reversed(chain) + [key.text]
  {
    assert ([key.text] + chain)[1..] == chain;
  }

  lemma BareHolds(s: Text, p: nat, v: Vals)
    requires v.Bare? && StandsVals(s, Nul(s), p, v)
    ensures |v.text| > 0 && Holds(s, p, v.text)
  {
    ValsHold(s, p, v);
    VRest(v);
  }

  lemma StrReads(s: Text, p: nat, v: Vals)
    requires v.Str? && StandsVals(s, Nul(s), p, v) && Holds(s, p + 1, v.text)
    requires p + 1 + |v.text| + 1 <= Nul(s) && s[p] == QUOTE && s[p + 1 + |v.text|] == QUOTE
    ensures StringBytes(s, p) == Decode(v.text) + [0]
  {
    VRest(v);
    TextOfValue(s, p, AString(v.text));
  }

  lemma {:induction false} LastGives(s: Text, p: nat, v: Vals, chain: seq<seq<nat>>, flags: Flags, target: Target,
                                     iface: bool, own: Flags, dev: nat, key: Key)
    requires v.Last? && PlacedValues(s, PlacingVals(v, p)) && GoodKey(s, key) && KeyOk(s, key)
    ensures var path := Reversed(chain);
            && VisitValues(s, true, PlacingVals(v, p), chain, flags, target, iface, own, dev, key) == Out([], dev, key)
            && ValueDevices(v, path, key.text) == []
            && Gives([], target, dev, ValueDevices(v, path, key.text), ValueResources(v, path, flags, own, key.text),
                     if iface then FirstText(v) else [])
            && Carries(s, key, LastReadIn(v, key.text))
  {}

  lemma {:induction false} BareGives(v: Vals, path: seq<seq<nat>>, flags: Flags, target: Target, own: Flags, dev: nat,
                                     key: seq<nat>, iface: bool, a: seq<Event>, z: seq<Event>)
    requires v.Bare? && (target.Dev? ==> target.dev < dev)
    requires Gives(a, target, dev, [], RangeOf(path, flags, key, v.text) + SingleOf(path, own, v.text),
                   if iface then [v.text + [0]] else [])
    requires Gives(z, target, dev, ValueDevices(v.rest, path, key), ValueResources(v.rest, path, flags, own, key), [])
    ensures ValueDevices(v, path, key) == ValueDevices(v.rest, path, key)
    ensures LastReadIn(v, key) == LastReadIn(v.rest, key)
    ensures Gives(a + z, target, dev, ValueDevices(v, path, key), ValueResources(v, path, flags, own, key),
                  if iface then FirstText(v) else [])
  {
    hide Gives, RangeOf, SingleOf;
    var ts := if iface then [v.text + [0]] else [];
    var roots := ValueDevices(v.rest, path, key);
    assert [] + roots == roots && ts + [] == ts;
    GivesJoin(a, z, target, dev, [], roots, RangeOf(path, flags, key, v.text) + SingleOf(path, own, v.text),
              ValueResources(v.rest, path, flags, own, key), ts, []);
  }

  lemma {:induction false} StrGives(v: Vals, path: seq<seq<nat>>, flags: Flags, target: Target, own: Flags, dev: nat,
                                    key: seq<nat>, iface: bool, a: seq<Event>, z: seq<Event>)
    requires v.Str? && (target.Dev? ==> target.dev < dev)
    requires Gives(a, target, dev, [], [], if iface then [Decode(v.text) + [0]] else [])
    requires Gives(z, target, dev, ValueDevices(v.rest, path, key), ValueResources(v.rest, path, flags, own, key), [])
    ensures ValueDevices(v, path, key) == ValueDevices(v.rest, path, key)
    ensures LastReadIn(v, key) == LastReadIn(v.rest, key)
    ensures Gives(a + z, target, dev, ValueDevices(v, path, key), ValueResources(v, path, flags, own, key),
                  if iface then FirstText(v) else [])
  {
    hide Gives, Decode;
    var ts := if iface then [Decode(v.text) + [0]] else [];
    var roots, want := ValueDevices(v.rest, path, key), ValueResources(v.rest, path, flags, own, key);
    assert [] + roots == roots && ts + [] == ts && [] + want == want;
    GivesJoin(a, z, target, dev, [], roots, [], want, ts, []);
  }

  lemma {:induction false} SubGives(v: Vals, path: seq<seq<nat>>, flags: Flags, target: Target, own: Flags, dev: nat,
                                    key: seq<nat>, iface: bool, a: seq<Event>, z: seq<Event>)
    requires v.Sub? && (target.Dev? ==> target.dev < dev)
    requires var inner, next := DevicesIn(v.body, path + [key]), LastRead(v.body, key);
             && Gives(a, target, dev, inner, if IsDevice(v.body) then []
                 else ResourcesIn(v.body, path + [key], own), [])
             && Gives(z, target, dev + |inner|, ValueDevices(v.rest, path, next),
                      ValueResources(v.rest, path, flags, own, next), [])
    ensures var inner, next := DevicesIn(v.body, path + [key]), LastRead(v.body, key);
            && ValueDevices(v, path, key) == inner + ValueDevices(v.rest, path, next)
            && LastReadIn(v, key) == LastReadIn(v.rest, next)
    ensures Gives(a + z, target, dev, ValueDevices(v, path, key), ValueResources(v, path, flags, own, key),
                  if iface then FirstText(v) else [])
  {
    hide Gives, DevicesIn, ResourcesIn, LastRead;
    var inner, next := DevicesIn(v.body, path + [key]), LastRead(v.body, key);
    var none: seq<seq<nat>> := [];
    assert none + none == none;
    GivesJoin(a, z, target, dev, inner, ValueDevices(v.rest, path, next),
              if IsDevice(v.body) then [] else ResourcesIn(v.body, path + [key], own),
              ValueResources(v.rest, path, flags, own, next), [], []);
  }

  // ----- what the scan leaves in the buffers -----

  /** A stored name reads as text. */
  predicate NameIs(buf: seq<nat>, name: Name, text: seq<nat>) {
    match name
    case Null => false
    case Literal => text == Ascii(".")
    case Offset(at) => HasAt(buf, at, text + [0])
  }

  predicate ResourceIs(buf: seq<nat>, r: Res, w: Wanted) {
    r.flags == w.flags && r.first == w.first && r.last == w.last && NameIs(buf, r.name, w.name)
  }

  function Cut(text: seq<nat>): seq<nat> { if |text| > 65536 then text[..65536] else text }

  /** driver_override is null, or the last interface that the block names, cut at 65536 bytes. */
  predicate OverrideIs(buf: seq<nat>, override: Slot, texts: seq<seq<nat>>) {
    if texts == [] then override == Unset
    else override.Set? && HasAt(buf, override.at, Cut(texts[|texts| - 1]))
  }

  /** Device d is the one that the tree has: its name, its interface, and exactly its resources in order. */
  ghost predicate DeviceIs(st: Store, d: nat, root: Root)
    requires d < |st.devices|
  {
    var dev, want := st.devices[d], ResourcesIn(root.body, [], NoFlags);
    && NameIs(st.buf, dev.name, PathName(root.path)) && OverrideIs(st.buf, dev.override, Interfaces(root.body))
    && dev.num == |want| && dev.slice.Set? && dev.slice.at + |want| <= |st.resources|
    && forall k | 0 <= k < |want| :: ResourceIs(st.buf, st.resources[dev.slice.at + k], want[k])
  }

  /** The event of the k-th resource of a device. */
  lemma {:induction false} ResourceEvent(evs: seq<Event>, d: nat, at: nat, k: nat) returns (i: nat)
    requires k < Count(evs, d)
    ensures i < |evs| && evs[i].Resource? && evs[i].dev == d
    ensures Listed(evs, d)[k] == Wanted(evs[i].flags, evs[i].first, evs[i].last, NameText(evs[i].path))
    ensures ResourcesOf(evs, d, at)[k]
            == Res(ResName(evs[i].path, at + NamesBefore(evs, i)), evs[i].flags, evs[i].first, evs[i].last)
    decreases |evs|
  {
    hide NameText, ResName, NameBytes, Names, NamesBefore, Texts, TextsOne;
    var here := if evs[0].Resource? && evs[0].dev == d then 1 else 0;
    if k < here {
      i := 0;
      NamesAt(evs, 0);
    } else {
      i := ResourceEvent(evs[1..], d, at + |NameBytes(evs[0])|, k - here);
      i := i + 1;
      NamesAt(evs, i);
    }
  }

  lemma {:induction false} TextsLast(evs: seq<Event>, d: nat, i: nat)
    requires i <= |evs| && forall j | i <= j < |evs| :: !IsIface(evs[j], d)
    requires i > 0 ==> IsIface(evs[i - 1], d)
    ensures i == 0 ==> Texts(evs, d) == []
    ensures i > 0 ==> Texts(evs, d) != [] && Texts(evs, d)[|Texts(evs, d)| - 1] == evs[i - 1].text
    decreases |evs|
  {
    if evs != [] {
      forall j | (if i > 0 then i - 1 else 0) <= j < |evs[1..]|
        ensures !IsIface(evs[1..][j], d)
      {
        assert evs[1..][j] == evs[j + 1];
      }
      TextsLast(evs[1..], d, if i > 0 then i - 1 else 0);
      if i == 1 { assert Texts(evs[1..], d) == []; }
    }
  }

  /** The events of the scan say what the tree says. */
  lemma {:induction false} ScanGives(s: Text, lead: seq<nat>, b: Block)
    requires Prints(s, lead, b)
    ensures Gives(ScanEvents(s), NoTarget, 0, DevicesIn(b, []), [], [])
    ensures Ordered(ScanEvents(s), 0) && Opens(ScanEvents(s)) == |DevicesIn(b, [])|
  {
    hide Gives, VisitBlock, Ordered, Opens, DevicesIn, ResourcesIn, Placing;
    ParsePrinted(s, lead, b);
    NoKeys();
    BlockGives(s, |lead|, b, 0, [], NoFlags, NoTarget, 0, Key(0, 0, []));
    BlockOrdered(s, true, Placing(b, |lead|), 0, [], NoFlags, NoTarget, 0, Key(0, 0, []));
    GivesUntargeted(ScanEvents(s), 0, DevicesIn(b, []), if IsDevice(b) then []
        else ResourcesIn(b, [], NoFlags), [], [], []);
  }

  lemma NameOfEvent(buf: seq<nat>, path: seq<nat>, at: nat)
    requires EndsInNul(path) && HasAt(buf, at, path)
    ensures NameIs(buf, ResName(path, at), NameText(path))
  {
    if path != [] && path[0] != 0 { assert path[..|path| - 1] + [0] == path; }
  }

  lemma {:induction false} DeviceResources(s: Text, b: Block, st: Store, junk: seq<nat>, d: nat)
    requires Filled(st, ScanEvents(s), junk) && d < |st.devices| == |DevicesIn(b, [])|
    requires Gives(ScanEvents(s), NoTarget, 0, DevicesIn(b, []), [], [])
    ensures var dev, want := st.devices[d], ResourcesIn(DevicesIn(b, [])[d].body, [], NoFlags);
            && dev.num == |want| && dev.slice.Set? && dev.slice.at + |want| <= |st.resources|
            && forall k | 0 <= k < |want| :: ResourceIs(st.buf, st.resources[dev.slice.at + k], want[k])
  {
    hide ScanEvents, Overlay, Names, OverrideOf, ResourcesOf, Total, Named, NamesBefore, ResName, NameText, NameIs,
      HasAt, ResourcesIn, DevicesIn, Listed, Texts, Count;
    var evs, root := ScanEvents(s), DevicesIn(b, [])[d];
    var dev, want := st.devices[d], ResourcesIn(root.body, [], NoFlags);
    assert Listed(evs, d) == OwnOf(d, NoTarget, 0, DevicesIn(b, []), []) == want;
    forall k | 0 <= k < |want|
      ensures ResourceIs(st.buf, st.resources[dev.slice.at + k], want[k])
    {
      var i := ResourceEvent(evs, d, 0, k);
      assert st.resources[dev.slice.at..dev.slice.at + dev.num][k] == st.resources[dev.slice.at + k];
      OverlayAt(evs, junk, i);
      NameOfEvent(st.buf, evs[i].path, NamesBefore(evs, i));
    }
  }

  lemma {:induction false} DeviceName(s: Text, b: Block, st: Store, junk: seq<nat>, d: nat)
    requires Filled(st, ScanEvents(s), junk) && d < |st.devices| == |DevicesIn(b, [])|
    requires Gives(ScanEvents(s), NoTarget, 0, DevicesIn(b, []), [], [])
    requires Ordered(ScanEvents(s), 0) && Opens(ScanEvents(s)) == |DevicesIn(b, [])|
    ensures NameIs(st.buf, st.devices[d].name, PathName(DevicesIn(b, [])[d].path))
  {
    hide ScanEvents, Overlay, Names, OverrideOf, ResourcesOf, Total, NamesBefore, NameText, HasAt, DevicesIn, Listed,
      Texts, Count, Ordered, Opens, PathName, EndOf;
    var evs := ScanEvents(s);
    var i := OpenedAt(evs, 0, d);
    assert Named(st, evs, i) && OpensRoot(evs, i, 0, DevicesIn(b, []));
    OverlayAt(evs, junk, i);
    DotName(DevicesIn(b, [])[d].path);
  }

  lemma DotName(path: seq<seq<nat>>)
    ensures path == [] ==> PathName(path) == Ascii(".")
  {}

  lemma {:induction false} DeviceOverride(s: Text, b: Block, st: Store, junk: seq<nat>, d: nat)
    requires Filled(st, ScanEvents(s), junk) && d < |st.devices| == |DevicesIn(b, [])|
    requires Gives(ScanEvents(s), NoTarget, 0, DevicesIn(b, []), [], [])
    ensures OverrideIs(st.buf, st.devices[d].override, Interfaces(DevicesIn(b, [])[d].body))
  {
    hide ScanEvents, Overlay, Names, OverrideOf, ResourcesOf, Total, NamesBefore, HasAt, DevicesIn, Listed, Texts,
      Count, Interfaces, Named;
    var evs := ScanEvents(s);
    assert Texts(evs, d) == TextsOf(d, NoTarget, 0, DevicesIn(b, []), []) == Interfaces(DevicesIn(b, [])[d].body);
    var i := IfaceIndex(evs, d);
    TextsLast(evs, d, i);
    LastIface(evs, d, 0, Unset, i);
    if i > 0 {
      OverridesReadable(st, evs, junk, d, i - 1);
      CutIs(evs[i - 1].text);
    }
  }

  lemma CutIs(text: seq<nat>)
    ensures Cut(text) == Truncated(text)
  {
    if |text| <= 65536 { assert text[..|text|] == text; }
  }

  /** What config_find_devices leaves for a printed text are the devices of its tree, in their order, each with the
    name, the interface and the resources that the tree gives it. */
  lemma {:induction false} ScanFinds(s: Text, lead: seq<nat>, b: Block, st: Store, junk: seq<nat>)
    requires Prints(s, lead, b) && Filled(st, ScanEvents(s), junk)
    ensures |st.devices| == |DevicesIn(b, [])|
    ensures forall d | 0 <= d < |st.devices| :: DeviceIs(st, d, DevicesIn(b, [])[d])
  {
    hide *;
    ScanGives(s, lead, b);
    FilledDevices(st, ScanEvents(s), junk);
    forall d | 0 <= d < |st.devices|
      ensures DeviceIs(st, d, DevicesIn(b, [])[d])
    {
      DeviceResources(s, b, st, junk, d);
      DeviceName(s, b, st, junk, d);
      DeviceOverride(s, b, st, junk, d);
      AllOfDevice(st, d, DevicesIn(b, [])[d]);
    }
  }

  lemma AllOfDevice(st: Store, d: nat, root: Root)
    requires d < |st.devices|
    requires NameIs(st.buf, st.devices[d].name, PathName(root.path))
    requires OverrideIs(st.buf, st.devices[d].override, Interfaces(root.body))
    requires var dev, want := st.devices[d], ResourcesIn(root.body, [], NoFlags);
             && dev.num == |want| && dev.slice.Set? && dev.slice.at + |want| <= |st.resources|
             && forall k | 0 <= k < |want| :: ResourceIs(st.buf, st.resources[dev.slice.at + k], want[k])
    ensures DeviceIs(st, d, root)
  {}

  // ----- an example -----

  /** "0x1000 0x1fff;" and around it "interface x;mem{...};" */
  const RANGE: Block := Item(Ascii("0x1000"), [32], Bare(Ascii("0x1fff"), [], Last), [], Nil)
  const DEVICE: Block :=
    Item(Ascii("interface"), [32], Bare(Ascii("x"), [], Last), [],
         Item(Ascii("mem"), [], Sub([], RANGE, [], Last), [], Nil))

  lemma {:induction false} SpelledMore(ds: seq<nat>, c: nat)
    requires DigitChar(c, true)
    ensures Spelled(ds + [c], true) == 16 * Spelled(ds, true) + DigitValue(c)
  {
    assert (ds + [c])[..|ds|] == ds;
  }

  lemma FourDigits(a: nat, b: nat, c: nat, d: nat)
    requires DigitChar(a, true) && DigitChar(b, true) && DigitChar(c, true) && DigitChar(d, true)
    ensures Spelled([a, b, c, d], true)
            == 0x1000 * DigitValue(a) + 0x100 * DigitValue(b) + 0x10 * DigitValue(c) + DigitValue(d)
  {
    SpelledMore([], a);
    SpelledMore([a], b);
    SpelledMore([a, b], c);
    SpelledMore([a, b, c], d);
    assert [] + [a] == [a] && [a] + [b] == [a, b] && [a, b] + [c] == [a, b, c] && [a, b, c] + [d] == [a, b, c, d];
  }

  lemma FourIsNumber(w: seq<nat>)
    requires |w| == 6 && w[..2] == Ascii("0x")
    requires forall i | 2 <= i < 6 :: DigitChar(w[i], true)
    ensures NumberOf(w)
            == Num(0x1000 * DigitValue(w[2]) + 0x100 * DigitValue(w[3]) + 0x10 * DigitValue(w[4]) + DigitValue(w[5]))
  {
    hide Spelled, DigitValue;
    assert w[2..] == [w[2], w[3], w[4], w[5]];
    assert w[0] == w[..2][0] && w[0] == '0' as int;
    FourDigits(w[2], w[3], w[4], w[5]);
  }

  lemma ExampleRange()
    ensures ResourcesIn(RANGE, [Ascii("mem")], Mem) == [Wanted(Mem, 0x1000, 0x1fff, Ascii("."))] && !IsDevice(RANGE)
  {
    hide NumberOf;
    FourIsNumber(Ascii("0x1000"));
    FourIsNumber(Ascii("0x1fff"));
    assert KindOf(RANGE.key) == NoFlags;
    assert [Ascii("mem")][..0] == [];
    assert ValueResources(RANGE.vals, [Ascii("mem")], Mem, NoFlags, RANGE.key)
           == [Wanted(Mem, 0x1000, 0x1fff, Ascii("."))] + [] + [];
  }

  lemma ExampleKinds()
    ensures KindOf(Ascii("interface")) == NoFlags && KindOf(Ascii("mem")) == Mem && Ascii("mem") != Ascii("interface")
  {}

  /** The device of "interface x;mem{0x1000 0x1fff;};" has one resource, memory from 0x1000 to 0x1fff. */
  lemma ExampleResources()
    ensures IsDevice(DEVICE) && Interfaces(DEVICE) == [Ascii("x") + [0]]
    ensures ResourcesIn(DEVICE, [], NoFlags) == [Wanted(Mem, 0x1000, 0x1fff, Ascii("."))]
  {
    hide NumberOf, KindOf, Ascii, IsDevice;
    ExampleRange();
    ExampleKinds();
    InterfaceFirst();
    assert [] + [Ascii("mem")] == [Ascii("mem")];
    assert ValueResources(DEVICE.vals, [], NoFlags, NoFlags, DEVICE.key) == [] + [] + [];
    assert ResourcesIn(DEVICE.next, [], NoFlags)
           == ResourcesIn(RANGE, [Ascii("mem")], Mem) + [] + [];
  }

  lemma InterfaceFirst()
    ensures IsDevice(DEVICE) && DEVICE.key == Ascii("interface") && DEVICE.next.key == Ascii("mem")
    ensures DEVICE.vals == Bare(Ascii("x"), [], Last) && DEVICE.next.vals == Sub([], RANGE, [], Last)
  {}
}
