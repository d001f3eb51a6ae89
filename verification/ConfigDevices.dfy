/** config_find_devices: find the roots, size the buffers, fill them. */
module ConfigDevices {
  import opened Bits
  import opened ConfigBuffers
  import opened ConfigChars
  import opened ConfigLookup
  import opened ConfigMachine
  import opened ConfigOrder
  import opened ConfigScan
  import opened ConfigText
  import opened ConfigTrace
  import Arith
  import Counting

  /** The events of a scan of the whole text that sees the roots. */
  function ScanEvents(s: Text): seq<Event>
  {
    EntriesPlaced(s, Nul(s), SpaceEnd(s, 0));
    VisitBlock(s, true, Tree(s), 0, [], NoFlags, NoTarget, 0, Key(0, 0, [])).evs
  }

  function Tree(s: Text): Entries { ParseBlock(s, Nul(s), 0) }

  /** A text that the scan can handle: its blocks have root flags, and no device is a resource block of its
    parent with a numeric entry of its own. */
  predicate Scannable(s: Text) {
    (exists i :: 0 <= i < Nul(s) && s[i] != OPEN) && !BlockFaults(s, Tree(s), NoFlags)
  }

  /** The number of resources of the first i devices. */
  function Total(evs: seq<Event>, i: nat): nat {
    if i == 0 then 0 else Total(evs, i - 1) + Count(evs, i - 1)
  }

  lemma {:induction false} TotalGrows(evs: seq<Event>, i: nat, j: nat)
    requires i < j
    ensures Total(evs, i) + Count(evs, i) <= Total(evs, j)
  {
    if i < j - 1 { TotalGrows(evs, i, j - 1); }
  }

  /** Every device owns a slice of its own that holds exactly its resources, in order; the slices fill the
    resource array; the names fill the names buffer, which held junk; each device is named where its path
    lies, and overridden as its last interface value says. */
  ghost predicate Filled(st: Store, evs: seq<Event>, junk: seq<nat>) {
    && |st.devices| == Opens(evs)
    && |st.resources| == Total(evs, |st.devices|)
    && st.names == |st.buf| == |Names(evs)|
    && (forall d | 0 <= d < |st.devices| ::
          && st.devices[d].num == Count(evs, d)
          && st.devices[d].slice == Set(Total(evs, d))
          && Total(evs, d) + Count(evs, d) <= |st.resources|
          && st.resources[Total(evs, d)..Total(evs, d) + Count(evs, d)] == ResourcesOf(evs, d, 0))
    && (forall d | 0 <= d < |st.devices| :: st.devices[d].override == OverrideOf(evs, d, 0, Unset))
    && |junk| == |Names(evs)| && st.buf == Overlay(evs, junk)
    && (forall i | 0 <= i < |evs| && evs[i].Open? :: Named(st, evs, i))
  }

  predicate Named(st: Store, evs: seq<Event>, i: nat)
    requires i < |evs| && evs[i].Open?
  {
    && evs[i].dev < |st.devices| && st.devices[evs[i].dev].name == NameOf(evs[i].path, NamesBefore(evs, i))
    && st.devices[evs[i].dev].start == evs[i].start
    && st.devices[evs[i].dev].end == EndOf(evs[i + 1..], evs[i].dev, evs[i].start)
  }

  /** The strings that fit can be read at the places that the devices point to. */
  lemma OverridesReadable(st: Store, evs: seq<Event>, junk: seq<nat>, d: nat, i: nat)
    requires Filled(st, evs, junk) && d < |st.devices| && i < |evs| && IsIface(evs[i], d)
    requires forall j | i < j < |evs| :: !IsIface(evs[j], d)
    ensures st.devices[d].override == Set(NamesBefore(evs, i))
    ensures HasAt(st.buf, NamesBefore(evs, i), Truncated(evs[i].text))
  {
    hide Overlay, NamesBefore, Names, OverrideOf, ResourcesOf, HasAt, Count, Total;
    LastIface(evs, d, 0, Unset, i + 1);
    OverlayAt(evs, junk, i);
  }

  /** The buffers as the writing pass finds them. */
  predicate Laid(st: Store, evs: seq<Event>) {
    && |st.devices| == Opens(evs) && |st.resources| == Total(evs, |st.devices|)
    && st.names == 0 && |st.buf| == |Names(evs)|
    && forall d | 0 <= d < |st.devices| ::
         st.devices[d].slice == Set(Total(evs, d)) && st.devices[d].override == OverrideOf(evs, d, 0, Unset)
  }

  lemma LaidHasRoom(st: Store, evs: seq<Event>) returns (lim: seq<nat>)
    requires Laid(st, evs)
    ensures Room(st, evs, 0, lim)
  {
    lim := seq(|st.devices|, d requires 0 <= d => Total(evs, d) + Count(evs, d));
    forall d | 0 <= d < |lim|
      ensures lim[d] <= |st.resources|
    {
      TotalGrows(evs, d, |lim|);
    }
    forall d, d' | 0 <= d < d' < |lim|
      ensures lim[d] <= st.devices[d'].slice.at
    {
      TotalGrows(evs, d, d');
    }
  }

  /** The writing pass stays in the buffers and fills them. */
  lemma {:induction false} Writing(st: Store, evs: seq<Event>)
    requires Laid(st, evs) && Ordered(evs, 0) && Faultless(evs)
    ensures FitsAll(true, st, evs) && Filled(ApplyAll(true, st, evs), evs, st.buf)
  {
    hide ApplyAll, FitsAll, Ordered, ResourcesOf, Names, Count, Faultless, Total, NamesBefore, Overlay, OverrideOf,
      EndOf;
    var r := ApplyAll(true, st, evs);
    var lim := LaidHasRoom(st, evs);
    WritingFits(st, evs, 0, lim);
    BufKeepsSize(st, evs);
    forall d | 0 <= d < |r.devices|
      ensures r.devices[d].num == Count(evs, d) && r.devices[d].slice == Set(Total(evs, d))
      ensures Total(evs, d) + Count(evs, d) <= |r.resources|
      ensures r.resources[Total(evs, d)..Total(evs, d) + Count(evs, d)] == ResourcesOf(evs, d, 0)
    {
      SliceFilled(st, evs, lim, d);
    }
    forall i | 0 <= i < |evs| && evs[i].Open?
      ensures Named(r, evs, i)
    {
      WritingNamed(st, evs, 0, i);
    }
    forall d | 0 <= d < |r.devices|
      ensures r.devices[d].override == OverrideOf(evs, d, 0, Unset)
    {
      Overridden(true, st, evs, d);
      OverrideTwice(evs, d);
    }
    WritingNames(st, evs);
    WholeBuffer(st.buf, Overlay(evs, st.buf));
  }

  lemma WholeBuffer(was: seq<nat>, all: seq<nat>)
    requires |all| == |was|
    ensures was[0..|was|] == was && was[..0] + all + was[|was|..] == all
  {}

  lemma {:induction false} SliceFilled(st: Store, evs: seq<Event>, lim: seq<nat>, d: nat)
    requires Laid(st, evs) && Ordered(evs, 0) && Faultless(evs) && Room(st, evs, 0, lim) && d < |lim| == |st.devices|
    ensures var r := ApplyAll(true, st, evs);
            && Total(evs, d) + Count(evs, d) <= |r.resources|
            && r.resources[Total(evs, d)..Total(evs, d) + Count(evs, d)] == ResourcesOf(evs, d, 0)
  {
    hide *;
    var r := ApplyAll(true, st, evs);
    LaidSlice(st, evs, d);
    WritingFits(st, evs, 0, lim);
    forall k | 0 <= k < Count(evs, d)
      ensures r.resources[Total(evs, d) + k] == ResourcesOf(evs, d, 0)[k]
    {
      WritingFills(st, evs, 0, lim, d, k);
    }
  }

  lemma {:induction false} LaidSlice(st: Store, evs: seq<Event>, d: nat)
    requires Laid(st, evs) && d < |st.devices|
    ensures st.devices[d].slice.Set? && Next(st, 0, d) == Total(evs, d) && st.names == 0
    ensures Total(evs, d) + Count(evs, d) <= |st.resources|
  {
    TotalGrows(evs, d, |st.devices|);
  }

  lemma {:induction false} BufKeepsSize(st: Store, evs: seq<Event>)
    ensures |ApplyAll(true, st, evs).buf| == |st.buf|
    decreases |evs|
  {
    if evs != [] { BufKeepsSize(Apply(true, st, evs[0]), evs[1..]); }
  }

  /** What is known of the events of a scannable text. */
  lemma {:induction false} ScanFacts(s: Text)
    requires Scannable(s)
    ensures Placed(s, Tree(s)) && KeyOk(s, Key(0, 0, []))
    ensures Ordered(ScanEvents(s), 0) && Faultless(ScanEvents(s))
    ensures Opens(ScanEvents(s)) == Counting.Count(Marks(Tree(s)))
    ensures |Marks(Tree(s))| <= Nul(s)
  {
    EntriesPlaced(s, Nul(s), SpaceEnd(s, 0));
    var es := Tree(s);
    BlockOrdered(s, true, es, 0, [], NoFlags, NoTarget, 0, Key(0, 0, []));
    BlockFaultsIff(s, es, 0, [], NoFlags, NoTarget, 0, Key(0, 0, []));
    RootsFit(s);
  }

  const NO_DEVICE: Device := Device(Null, Unset, 0, Unset, 0, 0)

  lemma RootsFound(roots: seq<bool>, m: seq<bool>)
    requires |m| <= |roots| && forall i | 0 <= i < |roots| :: !roots[i]
    ensures Expected(false, roots, 0, m)
    ensures Expected(true, Blit(roots, 0, m), 0, m)
    ensures Blit(Blit(roots, 0, m), 0, m) == Blit(roots, 0, m)
    ensures Blit(roots, 0, m)[..|m|] == m
  {}

  const TOP: Ctx := Ctx([], NoFlags, NoTarget)

  lemma Pass0Ok(s: Text, roots: seq<bool>, st: Store, key: Key)
    requires Scannable(s) && KeyOk(s, key) && |roots| == Nul(s) && (forall i | 0 <= i < |roots| :: !roots[i])
    requires st.devices == []
    ensures BlockOk(s, Mode(false, false), TOP, Tree(s), 0, Machine(roots, 0, 0, key, st))
  {
    ScanFacts(s);
    var es := Tree(s);
    RootsFound(roots, Marks(es));
    BlockOrdered(s, false, es, 0, [], NoFlags, NoTarget, 0, key);
    QuietBlock(s, es, 0, [], NoFlags, 0, key);
    hide VisitBlock, Ordered, Opens, Names, Count, Placed, KeyOk, Marks, Expected, FitsAll, ApplyAll;
    Sizing(st, VisitBlock(s, false, es, 0, [], NoFlags, NoTarget, 0, key).evs, 0);
  }

  /** Passes 1 and 2 see the same events. */
  lemma {:induction false} PassOk(s: Text, writes: bool, roots: seq<bool>, st: Store, key: Key)
    requires Scannable(s) && KeyOk(s, key) && Placed(s, Tree(s))
    requires Expected(true, roots, 0, Marks(Tree(s))) && Blit(roots, 0, Marks(Tree(s))) == roots
    requires FitsAll(writes, st, ScanEvents(s))
    ensures var m := Machine(roots, 0, 0, key, st);
            && BlockOk(s, Mode(true, writes), TOP, Tree(s), 0, m)
            && var r := RunBlock(s, Mode(true, writes), TOP, Tree(s), 0, m);
               && r.st == ApplyAll(writes, st, ScanEvents(s)) && r.roots == roots && r.block == |Marks(Tree(s))|
               && r.dev == Opens(ScanEvents(s))
  {
    ScanFacts(s);
    OldKey(s, true, Tree(s), 0, key, Key(0, 0, []));
    BlockOrdered(s, true, Tree(s), 0, [], NoFlags, NoTarget, 0, key);
  }

  /** `num_devices += *r` over the flags that pass 0 wrote */
  method CountRoots(roots: seq<bool>, block: nat) returns (n: nat)
    requires block <= |roots|
    ensures n == Counting.Count(roots[..block])
  {
    n := 0;
    for r := 0 to block
      invariant n == Counting.Count(roots[..r])
    {
      assert roots[..r + 1] == roots[..r] + [roots[r]];
      Counting.CountJoin(roots[..r], [roots[r]]);
      if roots[r] {
        n := n + 1;
      }
    }
  }

  /** `num_resources += devices[i].num_resources` */
  method CountResources(devices: seq<Device>, ghost evs: seq<Event>) returns (n: nat)
    requires forall d | 0 <= d < |devices| :: devices[d].num == Count(evs, d)
    ensures n == Total(evs, |devices|)
  {
    n := 0;
    for i := 0 to |devices|
      invariant n == Total(evs, i)
    {
      n := n + devices[i].num;
    }
  }

  /** `devices[i].resource = resources + num_resources` */
  method LayOut(devices: seq<Device>, ghost evs: seq<Event>) returns (laid: seq<Device>)
    requires forall d | 0 <= d < |devices| :: devices[d].num == Count(evs, d)
    ensures |laid| == |devices| && forall d | 0 <= d < |laid| :: laid[d] == devices[d].(slice := Set(Total(evs, d)))
  {
    laid := devices;
    var n := 0;
    for i := 0 to |devices|
      invariant n == Total(evs, i) && |laid| == |devices|
      invariant forall d | 0 <= d < i :: laid[d] == devices[d].(slice := Set(Total(evs, d)))
      invariant forall d | i <= d < |laid| :: laid[d] == devices[d]
    {
      laid := laid[i := laid[i].(slice := Set(n))];
      n := n + laid[i].num;
    }
  }

  function DivRoundUp(a: nat, b: nat): (r: nat)
    requires b > 0
    ensures a <= r * b < a + b
  {
    (a + b - 1) / b
  }

  /** Byte offsets in the one allocation that holds the number of devices, the devices, their resources and the
    names, and its size. */
  datatype Layout = Layout(devices: nat, resources: nat, names: nat, end: nat)

  /** The layout in unbounded arithmetic: arrays at multiples of their elements' sizes, one region after the
    other, in whole pages. */
  function LayoutOf(sizeDevice: nat, sizeResource: nat, page: nat, numDevices: nat, numResources: nat, sizeNames: nat)
    : (o: Layout)
    requires sizeDevice > 0 && sizeResource > 0 && page > 0
    ensures 4 <= o.devices < 4 + sizeDevice && o.devices % sizeDevice == 0
    ensures o.devices + sizeDevice * numDevices <= o.resources < o.devices + sizeDevice * numDevices + sizeResource
    ensures o.resources % sizeResource == 0 && o.resources + sizeResource * numResources == o.names
    ensures o.names + sizeNames <= o.end < o.names + sizeNames + page && o.end % page == 0
  {
    var devices := DivRoundUp(4, sizeDevice) * sizeDevice;
    var resources := DivRoundUp(devices + sizeDevice * numDevices, sizeResource) * sizeResource;
    var names := resources + sizeResource * numResources;
    Multiple(DivRoundUp(4, sizeDevice), sizeDevice);
    Multiple(DivRoundUp(devices + sizeDevice * numDevices, sizeResource), sizeResource);
    Multiple(DivRoundUp(names + sizeNames, page), page);
    Layout(devices, resources, names, DivRoundUp(names + sizeNames, page) * page)
  }

  const INT_MAX: int := 0x7fff_ffff

  /** What an `int` variable holds after it is assigned x. */
  function ToInt(x: int): (r: int)
    ensures -INT_MAX - 1 <= r <= INT_MAX
    ensures 0 <= x <= INT_MAX ==> r == x
  {
    (x + 0x8000_0000) % W32 - 0x8000_0000
  }

  /** `DIV_ROUND_UP(x, size) * size`, assigned to an `int`: x is converted to the unsigned type of size. */
  function RoundUpInt(x: int, size: nat): int
    requires size > 0
  {
    ToInt((x % W64 + size - 1) % W64 / size * size)
  }

  lemma RoundsUp(x: nat, size: nat)
    requires size > 0 && 0 < x <= INT_MAX && DivRoundUp(x, size) * size <= INT_MAX
    ensures RoundUpInt(x, size) == DivRoundUp(x, size) * size
  {
    Arith.MulMono(1, DivRoundUp(x, size), size);
    Arith.DivUnique(x, W64, 0, x);
    Arith.DivUnique(x + size - 1, W64, 0, x + size - 1);
  }

  /** The offsets as `int` variables hold them: right exactly if the size of the allocation is one. */
  method Offsets(sizeDevice: nat, sizeResource: nat, page: nat, numDevices: nat, numResources: nat, sizeNames: nat)
    returns (offDevices: int, offResources: int, offNames: int, offEnd: int)
    requires sizeDevice > 0 && sizeResource > 0 && page > 0
    ensures var o := LayoutOf(sizeDevice, sizeResource, page, numDevices, numResources, sizeNames);
            && (offEnd == o.end <==> o.end <= INT_MAX)
            && (o.end <= INT_MAX ==> offDevices == o.devices && offResources == o.resources && offNames == o.names)
  {
    hide RoundUpInt, ToInt, DivRoundUp;
    ghost var o := LayoutOf(sizeDevice, sizeResource, page, numDevices, numResources, sizeNames);
    var sizeDevices := ToInt(sizeDevice * numDevices);
    offDevices := RoundUpInt(4, sizeDevice);
    var sizeResources := ToInt(sizeResource * numResources);
    offResources := RoundUpInt(ToInt(offDevices + sizeDevices), sizeResource);
    offNames := ToInt(offResources + sizeResources);
    offEnd := RoundUpInt(ToInt(offNames + ToInt(sizeNames)), page);
    if o.end <= INT_MAX {
      RoundsUp(4, sizeDevice);
      RoundsUp(o.devices + sizeDevice * numDevices, sizeResource);
      RoundsUp(o.names + sizeNames, page);
    }
    IntAtMost(ToInt(offNames + ToInt(sizeNames)), page);
  }

  lemma IntAtMost(x: int, size: nat)
    requires size > 0
    ensures RoundUpInt(x, size) <= INT_MAX
  {}

  lemma Multiple(k: nat, b: nat)
    requires b > 0
    ensures k * b % b == 0
  {
    Arith.DivUnique(k * b, b, k, 0);
  }

  /** The root flags are those of the text. */
  predicate Rooted(text: Text, roots: seq<bool>) {
    && Expected(true, roots, 0, Marks(Tree(text))) && Blit(roots, 0, Marks(Tree(text))) == roots
    && |Marks(Tree(text))| <= |roots| && roots[..|Marks(Tree(text))|] == Marks(Tree(text))
  }

  /** Pass 0 marks the root of every block. */
  method DetectRoots(text: Text) returns (p: Parser)
    requires Scannable(text)
    ensures fresh(p) && p.text == text && p.KeyValid() && p.pass == 0
    ensures Rooted(text, p.roots) && p.block == |Marks(Tree(text))| && p.config == Tree(text).End()
  {
    hide RunBlock, BlockOk, Marks, HasIface, ParseBlock, ParseEntries, Scannable, BlockFaults, Placed, SpaceEnd, Opens,
      Counting.Count;
    p := new Parser(text);
    p.roots := seq(Nul(text), _ => false);
    ScanFacts(text);
    RootsFound(p.roots, Marks(Tree(text)));
    Pass0Ok(text, p.roots, p.St(), p.CurKey());
    RunsTo(text, Mode(false, false), p.M());
    p.ParseConfigString([], NoFlags, NoTarget);
  }

  lemma {:induction false} RunsTo(s: Text, mode: Mode, m: Machine)
    requires Placed(s, Tree(s)) && KeyOk(s, m.key)
    ensures var r := RunBlock(s, mode, TOP, Tree(s), 0, m);
            r.roots == Blit(m.roots, m.block, Marks(Tree(s))) && r.block == m.block + |Marks(Tree(s))|
  {}

  /** Pass 1 counts each device's resources and the room for all names. */
  method SizeBuffers(p: Parser)
    requires Scannable(p.text) && Rooted(p.text, p.roots) && p.KeyValid() && p.block == |Marks(Tree(p.text))|
    modifies p
    ensures p.KeyValid() && p.pass == 1 && p.roots == old(p.roots) && p.config == Tree(p.text).End()
    ensures |p.devices| == Opens(ScanEvents(p.text)) && p.names == |Names(ScanEvents(p.text))|
    ensures forall d | 0 <= d < |p.devices| :: p.devices[d].num == Count(ScanEvents(p.text), d)
    ensures forall d | 0 <= d < |p.devices| :: p.devices[d].override == OverrideOf(ScanEvents(p.text), d, 0, Unset)
  {
    hide RunBlock, BlockOk, Marks, ParseBlock, ParseEntries, Scannable, Placed, SpaceEnd, Counting.Count, Opens,
      Ordered, Faultless, ScanEvents, ApplyAll, FitsAll, Names, Count, Expected, Blit, OverrideOf;
    ScanFacts(p.text);
    var n := CountRoots(p.roots, p.block);
    p.devices := seq(n, _ => NO_DEVICE);
    p.pass, p.block, p.config, p.device, p.names := 1, 0, 0, 0, 0;
    ghost var evs := ScanEvents(p.text);
    Sizing(p.St(), evs, 0);
    AllOverridden(p.St(), evs);
    PassOk(p.text, false, p.roots, p.St(), p.CurKey());
    p.ParseConfigString([], NoFlags, NoTarget);
  }

  lemma {:induction false} AllOverridden(st: Store, evs: seq<Event>)
    requires FitsAll(false, st, evs) && st.names == 0
    requires forall d | 0 <= d < |st.devices| :: st.devices[d].override.Unset?
    ensures var r := ApplyAll(false, st, evs);
            && |r.devices| == |st.devices|
            && forall d | 0 <= d < |st.devices| :: r.devices[d].override == OverrideOf(evs, d, 0, Unset)
  {
    hide ApplyAll, FitsAll, OverrideOf;
    var r := ApplyAll(false, st, evs);
    forall d | 0 <= d < |st.devices|
      ensures |r.devices| == |st.devices| && r.devices[d].override == OverrideOf(evs, d, 0, Unset)
    {
      Overridden(false, st, evs, d);
    }
    DevicesStay(st, evs);
  }

  lemma {:induction false} DevicesStay(st: Store, evs: seq<Event>)
    ensures |ApplyAll(false, st, evs).devices| == |st.devices|
    decreases |evs|
  {
    if evs != [] { DevicesStay(Apply(false, st, evs[0]), evs[1..]); }
  }

  /** Lay out the buffers, and fill them in pass 2.  What krealloc adds holds junk. */
  method WriteBuffers(p: Parser, junk: nat -> nat) returns (ghost was: seq<nat>)
    requires Scannable(p.text) && Rooted(p.text, p.roots) && p.KeyValid()
    requires |p.devices| == Opens(ScanEvents(p.text)) && p.names == |Names(ScanEvents(p.text))|
    requires forall d | 0 <= d < |p.devices| :: p.devices[d].num == Count(ScanEvents(p.text), d)
    requires forall d | 0 <= d < |p.devices| :: p.devices[d].override == OverrideOf(ScanEvents(p.text), d, 0, Unset)
    modifies p
    ensures Filled(p.St(), ScanEvents(p.text), was) && p.config == Tree(p.text).End()
  {
    hide RunBlock, BlockOk, Marks, ParseBlock, ParseEntries, Scannable, Placed, SpaceEnd, Counting.Count, Opens,
      Ordered, Faultless, ScanEvents, ApplyAll, FitsAll, Names, Count, Expected, Blit, Total, Filled, OverrideOf;
    ScanFacts(p.text);
    ghost var evs := ScanEvents(p.text);
    PrepareBuffers(p, junk, evs);
    was := p.buf;
    hide Laid;
    Writing(p.St(), evs);
    PassOk(p.text, true, p.roots, p.St(), p.CurKey());
    p.ParseConfigString([], NoFlags, NoTarget);
  }

  method PrepareBuffers(p: Parser, junk: nat -> nat, ghost evs: seq<Event>)
    requires p.KeyValid() && |p.devices| == Opens(evs) && p.names == |Names(evs)|
    requires forall d | 0 <= d < |p.devices| :: p.devices[d].num == Count(evs, d)
    requires forall d | 0 <= d < |p.devices| :: p.devices[d].override == OverrideOf(evs, d, 0, Unset)
    modifies p
    ensures Laid(p.St(), evs) && p.roots == old(p.roots) && p.KeyValid()
    ensures p.pass == 2 && p.block == 0 && p.config == 0 && p.device == 0
  {
    hide OverrideOf, Names, Count, Total, Opens;
    var total := CountResources(p.devices, evs);
    p.resources := seq(total, _ => Res(Null, NoFlags, 0, 0));
    p.buf := seq(p.names, i requires 0 <= i => junk(i));
    p.devices := LayOut(p.devices, evs);
    p.pass, p.block, p.config, p.device, p.names := 2, 0, 0, 0, 0;
  }

  /** config_find_devices, up to the registration of the devices.  Each pass ends where the block of the
    whole text ends. */
  method ConfigFindDevices(text: Text, junk: nat -> nat) returns (p: Parser, ghost was: seq<nat>)
    requires Scannable(text)
    ensures p.text == text && fresh(p) && p.config == Tree(text).End()
    ensures Filled(p.St(), ScanEvents(text), was) && |p.devices| == Counting.Count(Marks(Tree(text)))
  {
    hide Filled, ScanEvents, OverrideOf, Rooted, Marks, Scannable, ParseBlock, Opens, Counting.Count, Names, Count;
    p := DetectRoots(text);
    SizeBuffers(p);
    was := WriteBuffers(p, junk);
    ScanFacts(text);
    FilledDevices(p.St(), ScanEvents(text), was);
  }

  lemma {:induction false} FilledDevices(st: Store, evs: seq<Event>, was: seq<nat>)
    requires Filled(st, evs, was)
    ensures |st.devices| == Opens(evs)
  {}

  /** The two traversals that have to be kept in sync: over the contents of a block, in any pass and at any
    depth, find_key without a name stops where parse_config_string leaves state.config, though only the
    latter starts behind the line break. */
  method InSync(p: Parser, parent: seq<seq<nat>>, flags: Flags, target: Target) returns (stop: nat)
    requires p.config < Nul(p.text) && p.KeyValid()
    requires BlockOk(p.text, p.Passing(), Ctx(parent, flags, target), ParseBlock(p.text, Nul(p.text), p.config + 1),
                     LineEnd(p.text, p.config + 1), p.M())
    modifies p
    ensures stop == p.config
  {
    hide BlockOk, RunBlock, ParseEntries, SpaceEnd, LineEnd, Lookup;
    stop := FindKey(p.text, Nul(p.text), p.config + 1, [], false);
    SpaceAfterLine(p.text, p.config + 1);
    p.config := SkipNewline(p.text, p.config + 1);
    p.ParseConfigString(parent, flags, target);
  }
}
