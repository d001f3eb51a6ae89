/** The buffers that the events of a scan are applied to, and why sizing them in one pass makes the next
  pass safe.
 */
module ConfigBuffers {
  import opened ConfigChars
  import opened ConfigTrace

  const MAX_STRING: nat := 65536

  /** A name is not set yet, the literal ".", or a place in the names buffer. */
  datatype Name = Null | Literal | Offset(at: nat)

  datatype Slot = Unset | Set(at: nat)

  datatype Device = Device(name: Name, override: Slot, num: nat, slice: Slot, start: nat, end: nat)

  datatype Res = Res(name: Name, flags: Flags, first: nat, last: nat)

  /** `names` is the cursor; buf is the room behind off_names, resources the room behind off_resources. */
  datatype Store = Store(devices: seq<Device>, names: nat, buf: seq<nat>, resources: seq<Res>)

  /** Advance the cursor by len and, in the writing pass, write bytes behind it. */
  function Emit(writes: bool, st: Store, len: nat, bytes: seq<nat>): Store {
    st.(names := st.names + len, buf := if writes then Blit(st.buf, st.names, bytes) else st.buf)
  }

  function NameOf(path: seq<nat>, at: nat): Name { if path == [] then Literal else Offset(at) }

  /** `*name ? name : "."` */
  function ResName(path: seq<nat>, at: nat): Name { if path == [] || path[0] == 0 then Literal else Offset(at) }

  function Truncated(text: seq<nat>): seq<nat> { text[..Min(|text|, MAX_STRING)] }

  function PutDevice(st: Store, d: nat, v: Device): Store {
    if d < |st.devices| then st.(devices := st.devices[d := v]) else st
  }

  function PutResource(st: Store, at: nat, r: Res): Store {
    if at < |st.resources| then st.(resources := st.resources[at := r]) else st
  }

  function Apply(writes: bool, st: Store, ev: Event): Store {
    match ev
    case Open(d, path, start) =>
      if d >= |st.devices| then st
      else PutDevice(Emit(writes, st, |path|, path), d,
                     st.devices[d].(name := NameOf(path, st.names), num := 0, start := start, end := start))
    case Iface(target, text) =>
      var st' := Emit(writes, st, |text|, Truncated(text));
      if target.Dev? && target.dev < |st.devices| then
        PutDevice(st', target.dev, st.devices[target.dev].(override := Set(st.names)))
      else st'
    case Resource(d, flags, path, first, last) =>
      if d >= |st.devices| then st
      else
        var dev := st.devices[d];
        var st' := PutDevice(Emit(writes, st, |path|, path), d, dev.(num := dev.num + 1));
        if dev.slice.Set? then PutResource(st', dev.slice.at + dev.num,
                                           Res(ResName(path, st.names), flags, first, last))
        else st'
    case Finish(d, end) =>
      if d >= |st.devices| then st else PutDevice(st, d, st.devices[d].(end := end))
    case Fault => st
  }

  /** No write of the event leaves its buffer, and no null pointer is followed. */
  predicate Fits(writes: bool, st: Store, ev: Event) {
    match ev
    case Open(d, path, start) => d < |st.devices| && (writes ==> st.names + |path| <= |st.buf|)
    case Iface(target, text) =>
      && (target.Dev? ==> target.dev < |st.devices|)
      && (writes ==> st.names + |Truncated(text)| <= |st.buf|)
    case Resource(d, flags, path, first, last) =>
      && d < |st.devices| && (writes ==> st.names + |path| <= |st.buf|)
      && (st.devices[d].slice.Set? ==> writes && st.devices[d].slice.at + st.devices[d].num < |st.resources|)
    case Finish(d, end) => d < |st.devices|
    case Fault => false
  }

  function ApplyAll(writes: bool, st: Store, evs: seq<Event>): Store
    decreases |evs|
  {
    if evs == [] then st else ApplyAll(writes, Apply(writes, st, evs[0]), evs[1..])
  }

  predicate FitsAll(writes: bool, st: Store, evs: seq<Event>)
    decreases |evs|
  {
    evs == [] || (Fits(writes, st, evs[0]) && FitsAll(writes, Apply(writes, st, evs[0]), evs[1..]))
  }

  lemma {:induction false} ApplySplit(writes: bool, st: Store, a: seq<Event>, b: seq<Event>)
    ensures ApplyAll(writes, st, a + b) == ApplyAll(writes, ApplyAll(writes, st, a), b)
    ensures FitsAll(writes, st, a + b) == (FitsAll(writes, st, a) && FitsAll(writes, ApplyAll(writes, st, a), b))
    decreases |a|
  {
    if a == [] {
      assert a + b == b;
    } else {
      assert (a + b)[1..] == a[1..] + b;
      ApplySplit(writes, Apply(writes, st, a[0]), a[1..], b);
    }
  }

  lemma {:induction false} ApplyOne(writes: bool, st: Store, ev: Event)
    ensures ApplyAll(writes, st, [ev]) == Apply(writes, st, ev)
    ensures FitsAll(writes, st, [ev]) == Fits(writes, st, ev)
  {
    assert [ev][1..] == [];
    assert ApplyAll(writes, Apply(writes, st, ev), []) == Apply(writes, st, ev);
  }

  // ----- what the events need -----

  /** How far an event advances the names cursor. */
  function NameBytes(ev: Event): seq<nat> {
    match ev
    case Open(_, path, _) => path
    case Iface(_, text) => text
    case Resource(_, _, path, _, _) => path
    case Finish(_, _) => []
    case Fault => []
  }

  function Names(evs: seq<Event>): seq<nat> {
    if evs == [] then [] else NameBytes(evs[0]) + Names(evs[1..])
  }

  /** The number of resources of device d. */
  function Count(evs: seq<Event>, d: nat): nat {
    if evs == [] then 0 else (if evs[0].Resource? && evs[0].dev == d then 1 else 0) + Count(evs[1..], d)
  }

  function Opens(evs: seq<Event>): nat {
    if evs == [] then 0 else (if evs[0].Open? then 1 else 0) + Opens(evs[1..])
  }

  /** Devices are opened one after the other from n on, and used only once open. */
  predicate Ordered(evs: seq<Event>, n: nat) {
    evs == []
    || match evs[0]
       case Open(d, _, _) => d == n && Ordered(evs[1..], n + 1)
       case Iface(target, _) => (target.Dev? ==> target.dev < n) && Ordered(evs[1..], n)
       case Resource(d, _, _, _, _) => d < n && Ordered(evs[1..], n)
       case Finish(d, _) => d < n && Ordered(evs[1..], n)
       case Fault => Ordered(evs[1..], n)
  }

  predicate Faultless(evs: seq<Event>) { Fault !in evs }

  /** The sizing pass stays in the device array, leaves in each device the number of its resources, and in
    the cursor the room that all names need. */
  lemma {:induction false} Sizing(st: Store, evs: seq<Event>, n: nat)
    requires Ordered(evs, n) && Faultless(evs) && n + Opens(evs) <= |st.devices|
    requires forall d | 0 <= d < |st.devices| :: st.devices[d].slice.Unset?
    ensures FitsAll(false, st, evs)
    ensures var r := ApplyAll(false, st, evs);
            && r.names == st.names + |Names(evs)| && |r.devices| == |st.devices|
            && (forall d | 0 <= d < |st.devices| :: r.devices[d].slice.Unset?)
            && (forall d | 0 <= d < n :: r.devices[d].num == st.devices[d].num + Count(evs, d))
            && (forall d | n <= d < n + Opens(evs) :: r.devices[d].num == Count(evs, d))
    decreases |evs|
  {
    if evs != [] {
      Sizing(Apply(false, st, evs[0]), evs[1..], if evs[0].Open? then n + 1 else n);
    }
  }

  // ----- the writing pass -----

  /** Where the next resource of device d goes, when devices below n are open. */
  function Next(st: Store, n: nat, d: nat): nat
    requires d < |st.devices| && st.devices[d].slice.Set?
  {
    st.devices[d].slice.at + if d < n then st.devices[d].num else 0
  }

  /** Every device has a slice that ends at lim[d] and has room for its resources in evs; slices follow one
    another; and the names fit. */
  predicate Room(st: Store, evs: seq<Event>, n: nat, lim: seq<nat>) {
    && |lim| == |st.devices| && n + Opens(evs) <= |st.devices|
    && st.names + |Names(evs)| <= |st.buf|
    && (forall d | 0 <= d < |lim| ::
          st.devices[d].slice.Set? && Next(st, n, d) + Count(evs, d) <= lim[d] <= |st.resources|)
    && (forall d, d' | 0 <= d < d' < |lim| :: lim[d] <= st.devices[d'].slice.at)
  }

  lemma RoomStep(st: Store, evs: seq<Event>, n: nat, lim: seq<nat>)
    requires evs != [] && Ordered(evs, n) && Faultless(evs) && Room(st, evs, n, lim)
    ensures var st' := Apply(true, st, evs[0]);
            var n' := if evs[0].Open? then n + 1 else n;
            && Fits(true, st, evs[0]) && Faultless(evs[1..]) && Ordered(evs[1..], n') && Room(st', evs[1..], n', lim)
            && st'.names == st.names + |NameBytes(evs[0])|
            && |st'.devices| == |st.devices| && |st'.resources| == |st.resources| && |st'.buf| == |st.buf|
            && (forall d | 0 <= d < |lim| ::
                  Next(st', n', d) == Next(st, n, d) + if evs[0].Resource? && evs[0].dev == d then 1 else 0)
  {
    hide Apply, Ordered, Names, Opens, Count, Next, Faultless, Fits, NameBytes;
    var n' := if evs[0].Open? then n + 1 else n;
    StepSizes(st, evs, n);
    StepSlices(st, evs[0], n);
    StepFits(st, evs, n, lim);
    RoomKeeps(st, Apply(true, st, evs[0]), evs, n, n', lim);
  }

  /** The next event has room. */
  lemma {:induction false} StepFits(st: Store, evs: seq<Event>, n: nat, lim: seq<nat>)
    requires evs != [] && Ordered(evs, n) && Faultless(evs) && Room(st, evs, n, lim)
    ensures Fits(true, st, evs[0])
  {
    StepSizes(st, evs, n);
    hide Blit, ResName, NameOf, Truncated, Apply, Ordered, Names, Opens;
    match evs[0]
    case Iface(_, text) => TruncatedFits(text);
    case Resource(d, _, _, _, _) => assert Count(evs, d) > 0 && Next(st, n, d) < lim[d];
    case _ =>
  }

  /** Room for all events is room for those behind the first one, once it is applied. */
  lemma {:induction false} RoomKeeps(st: Store, st': Store, evs: seq<Event>, n: nat, n': nat, lim: seq<nat>)
    requires evs != [] && Room(st, evs, n, lim)
    requires |st'.devices| == |st.devices| && |st'.resources| == |st.resources| && |st'.buf| == |st.buf|
    requires n' + Opens(evs[1..]) <= |st.devices|
    requires st'.names == st.names + |NameBytes(evs[0])| && Names(evs) == NameBytes(evs[0]) + Names(evs[1..])
    requires forall d | 0 <= d < |st.devices| ::
               && st'.devices[d].slice == st.devices[d].slice && st.devices[d].slice.Set?
               && Next(st', n', d) == Next(st, n, d) + if evs[0].Resource? && evs[0].dev == d then 1 else 0
    ensures Room(st', evs[1..], n', lim)
  {
    hide Next, Names, Opens, NameBytes;
  }

  lemma StepSizes(st: Store, evs: seq<Event>, n: nat)
    requires evs != [] && Ordered(evs, n) && Faultless(evs) && n + Opens(evs) <= |st.devices|
    ensures var st' := Apply(true, st, evs[0]);
            var n' := if evs[0].Open? then n + 1 else n;
            && Faultless(evs[1..]) && Ordered(evs[1..], n') && n' + Opens(evs[1..]) <= |st.devices|
            && st'.names == st.names + |NameBytes(evs[0])| && Names(evs) == NameBytes(evs[0]) + Names(evs[1..])
            && |st'.devices| == |st.devices| && |st'.resources| == |st.resources| && |st'.buf| == |st.buf|
            && match evs[0]
               case Open(d, _, _) => d == n && d < |st.devices|
               case Iface(target, _) => target.Dev? ==> target.dev < n
               case Resource(d, _, _, _, _) => d < n
               case Finish(d, _) => d < n
               case Fault => false
  {
    assert evs[0] in evs;
  }

  lemma StepSlices(st: Store, ev: Event, n: nat)
    requires forall d | 0 <= d < |st.devices| :: st.devices[d].slice.Set?
    requires ev.Open? ==> ev.dev == n
    requires ev.Resource? ==> ev.dev < n
    ensures var st' := Apply(true, st, ev);
            && |st'.devices| == |st.devices|
            && (forall d | 0 <= d < |st.devices| ::
                  && st'.devices[d].slice == st.devices[d].slice
                  && Next(st', if ev.Open? then n + 1 else n, d)
                     == Next(st, n, d) + if ev.Resource? && ev.dev == d then 1 else 0)
  {}

  lemma TruncatedFits(text: seq<nat>)
    ensures |Truncated(text)| <= |text|
  {}

  /** No write of the writing pass leaves its buffer. */
  lemma {:induction false} WritingFits(st: Store, evs: seq<Event>, n: nat, lim: seq<nat>)
    requires Ordered(evs, n) && Faultless(evs) && Room(st, evs, n, lim)
    ensures FitsAll(true, st, evs)
    ensures var r := ApplyAll(true, st, evs);
            && r.names == st.names + |Names(evs)| && |r.devices| == |st.devices| && |r.resources| == |st.resources|
            && (forall d | 0 <= d < |lim| :: r.devices[d].slice == st.devices[d].slice)
            && (forall d | 0 <= d < n + Opens(evs) ::
                  r.devices[d].slice.at + r.devices[d].num == Next(st, n, d) + Count(evs, d))
    decreases |evs|
  {
    if evs != [] {
      RoomStep(st, evs, n, lim);
      WritingFits(Apply(true, st, evs[0]), evs[1..], if evs[0].Open? then n + 1 else n, lim);
    }
  }

  /** Resources outside the slices still to be filled stay as they are. */
  lemma {:induction false} WritingKeeps(st: Store, evs: seq<Event>, n: nat, lim: seq<nat>, k: nat)
    requires Ordered(evs, n) && Faultless(evs) && Room(st, evs, n, lim) && k < |st.resources|
    requires forall d | 0 <= d < |lim| :: !(Next(st, n, d) <= k < Next(st, n, d) + Count(evs, d))
    ensures k < |ApplyAll(true, st, evs).resources| && ApplyAll(true, st, evs).resources[k] == st.resources[k]
    decreases |evs|
  {
    if evs != [] {
      RoomStep(st, evs, n, lim);
      WritingKeeps(Apply(true, st, evs[0]), evs[1..], if evs[0].Open? then n + 1 else n, lim, k);
    }
  }

  /** The resources of device d, in order; `at` is the cursor before evs. */
  function ResourcesOf(evs: seq<Event>, d: nat, at: nat): (r: seq<Res>)
    ensures |r| == Count(evs, d)
  {
    if evs == [] then []
    else
      (if evs[0].Resource? && evs[0].dev == d
       then [Res(ResName(evs[0].path, at), evs[0].flags, evs[0].first, evs[0].last)] else [])
      + ResourcesOf(evs[1..], d, at + |NameBytes(evs[0])|)
  }

  lemma {:induction false} FirstFills(st: Store, evs: seq<Event>, n: nat, lim: seq<nat>, d: nat)
    requires Ordered(evs, n) && Faultless(evs) && Room(st, evs, n, lim) && d < |lim|
    requires evs != [] && evs[0].Resource? && evs[0].dev == d
    ensures var r := ApplyAll(true, st, evs);
            Next(st, n, d) < |r.resources| && r.resources[Next(st, n, d)] == ResourcesOf(evs, d, st.names)[0]
  {
    var st' := Apply(true, st, evs[0]);
    var k := Next(st, n, d);
    RoomStep(st, evs, n, lim);
    assert st'.resources[k] == ResourcesOf(evs, d, st.names)[0];
    assert ApplyAll(true, st, evs) == ApplyAll(true, st', evs[1..]);
    forall x | 0 <= x < |lim|
      ensures !(Next(st', n, x) <= k < Next(st', n, x) + Count(evs[1..], x))
    {
      assert Next(st', n, d) + Count(evs[1..], d) <= lim[d];
    }
    hide ApplyAll, Apply, ResourcesOf;
    WritingKeeps(st', evs[1..], n, lim, k);
  }

  function Here(evs: seq<Event>, d: nat): (h: nat)
    requires evs != []
    ensures h <= 1
  {
    if evs[0].Resource? && evs[0].dev == d then 1 else 0
  }

  lemma ResourcesShift(evs: seq<Event>, d: nat, at: nat, k: nat)
    requires evs != [] && Here(evs, d) <= k < Count(evs, d)
    ensures k - Here(evs, d) < Count(evs[1..], d)
    ensures ResourcesOf(evs, d, at)[k] == ResourcesOf(evs[1..], d, at + |NameBytes(evs[0])|)[k - Here(evs, d)]
  {}

  /** The k-th resource of device d ends up in the k-th element of its slice. */
  lemma {:induction false} WritingFills(st: Store, evs: seq<Event>, n: nat, lim: seq<nat>, d: nat, k: nat)
    requires Ordered(evs, n) && Faultless(evs) && Room(st, evs, n, lim) && d < |lim| && k < Count(evs, d)
    ensures var r := ApplyAll(true, st, evs);
            Next(st, n, d) + k < |r.resources| && r.resources[Next(st, n, d) + k] == ResourcesOf(evs, d, st.names)[k]
    decreases |evs|
  {
    hide *;
    FillStep(st, evs, n, lim, d);
    if k < Here(evs, d) {
      FirstFills(st, evs, n, lim, d);
    } else {
      ResourcesShift(evs, d, st.names, k);
      WritingFills(Apply(true, st, evs[0]), evs[1..], if evs[0].Open? then n + 1 else n, lim, d, k - Here(evs, d));
    }
  }

  lemma FillStep(st: Store, evs: seq<Event>, n: nat, lim: seq<nat>, d: nat)
    requires Ordered(evs, n) && Faultless(evs) && Room(st, evs, n, lim) && d < |lim| && Count(evs, d) > 0
    ensures evs != []
    ensures var st' := Apply(true, st, evs[0]);
            var n' := if evs[0].Open? then n + 1 else n;
            && Faultless(evs[1..]) && Ordered(evs[1..], n') && Room(st', evs[1..], n', lim)
            && st'.names == st.names + |NameBytes(evs[0])|
            && d < |st.devices| == |st'.devices| && st.devices[d].slice.Set? && st'.devices[d].slice.Set?
            && Next(st', n', d) == Next(st, n, d) + Here(evs, d)
            && ApplyAll(true, st, evs) == ApplyAll(true, st', evs[1..])
            && (Here(evs, d) == 1 ==> evs[0].Resource? && evs[0].dev == d)
  {
    RoomStep(st, evs, n, lim);
  }

  predicate NoLongString(evs: seq<Event>) {
    forall ev | ev in evs :: ev.Iface? ==> |ev.text| <= MAX_STRING
  }

  /** What of an event's bytes is copied: strings are cut at the limit, the cursor moves on all the same. */
  function Copied(ev: Event): (r: seq<nat>)
    ensures |r| <= |NameBytes(ev)|
  {
    if ev.Iface? then Truncated(ev.text) else NameBytes(ev)
  }

  /** The names buffer with the events' bytes written over what it held before. */
  function Overlay(evs: seq<Event>, was: seq<nat>): (r: seq<nat>)
    requires |was| == |Names(evs)|
    ensures |r| == |was|
  {
    if evs == [] then []
    else
      var n := |NameBytes(evs[0])|;
      Copied(evs[0]) + was[|Copied(evs[0])|..n] + Overlay(evs[1..], was[n..])
  }

  lemma NamesStep(st: Store, ev: Event)
    requires Fits(true, st, ev)
    ensures Apply(true, st, ev).names == st.names + |NameBytes(ev)|
    ensures Apply(true, st, ev).buf == Blit(st.buf, st.names, Copied(ev))
  {
    BlitNone(st.buf, st.names);
  }

  lemma SliceOfSlice(buf: seq<nat>, lo: nat, hi: nat, i: nat, j: nat)
    requires i <= j && lo + j <= hi <= |buf|
    ensures buf[lo..hi][i..j] == buf[lo + i..lo + j]
  {
    assert forall k | 0 <= k < j - i :: buf[lo..hi][i..j][k] == buf[lo + i..lo + j][k];
  }

  /** The two halves of a buffer whose next bytes have been written. */
  lemma BlitSplit(buf: seq<nat>, at: nat, x: seq<nat>, n: nat, rest: nat)
    requires |x| <= n && at + n + rest <= |buf|
    ensures var b := Blit(buf, at, x);
            && |b| == |buf| && b[..at + n] == buf[..at] + x + buf[at..at + n + rest][|x|..n]
            && b[at + n..at + n + rest] == buf[at..at + n + rest][n..] && b[at + n + rest..] == buf[at + n + rest..]
  {
    var b := Blit(buf, at, x);
    assert b == buf[..at] + x + buf[at + |x|..];
    SliceOfSlice(buf, at, at + n + rest, |x|, n);
    assert b[..at + n] == buf[..at] + x + buf[at + |x|..at + n];
    assert b[at + n..] == buf[at + n..];
    assert b[at + n..at + n + rest] == b[at + n..][..rest] == buf[at + n..][..rest] == buf[at..at + n + rest][n..];
    assert b[at + n + rest..] == b[at + n..][rest..] == buf[at + n..][rest..];
  }

  lemma Join4(a: seq<nat>, x: seq<nat>, y: seq<nat>, z: seq<nat>, e: seq<nat>)
    ensures (a + x + y) + z + e == a + (x + y + z) + e
  {}

  /** The names buffer ends up holding the bytes of all events, one after the other: cut strings are followed
    by what was there before. */
  lemma {:induction false} WritingNames(st: Store, evs: seq<Event>)
    requires FitsAll(true, st, evs) && st.names + |Names(evs)| <= |st.buf|
    ensures var end := st.names + |Names(evs)|;
            ApplyAll(true, st, evs).buf == st.buf[..st.names] + Overlay(evs, st.buf[st.names..end]) + st.buf[end..]
    decreases |evs|
  {
    hide *;
    if evs == [] {
      NoNames(st, evs);
    } else {
      var n, at, end := |NameBytes(evs[0])|, st.names, st.names + |Names(evs)|;
      NamesUnfold(st, evs, st.buf[at..end]);
      NamesStep(st, evs[0]);
      BlitSplit(st.buf, at, Copied(evs[0]), n, |Names(evs[1..])|);
      WritingNames(Apply(true, st, evs[0]), evs[1..]);
      Join4(st.buf[..at], Copied(evs[0]), st.buf[at..end][|Copied(evs[0])|..n], Overlay(evs[1..], st.buf[at..end][n..]),
            st.buf[end..]);
    }
  }

  lemma {:induction false} NoNames(st: Store, evs: seq<Event>)
    requires evs == [] && st.names <= |st.buf|
    ensures Names(evs) == []
    ensures ApplyAll(true, st, evs).buf == st.buf[..st.names] + Overlay(evs, st.buf[st.names..st.names])
        + st.buf[st.names..]
  {}

  lemma {:induction false} NamesUnfold(st: Store, evs: seq<Event>, was: seq<nat>)
    requires evs != [] && FitsAll(true, st, evs) && |was| == |Names(evs)|
    ensures Fits(true, st, evs[0]) && FitsAll(true, Apply(true, st, evs[0]), evs[1..])
    ensures Names(evs) == NameBytes(evs[0]) + Names(evs[1..])
    ensures ApplyAll(true, st, evs) == ApplyAll(true, Apply(true, st, evs[0]), evs[1..])
    ensures var n := |NameBytes(evs[0])|;
            Overlay(evs, was) == Copied(evs[0]) + was[|Copied(evs[0])|..n] + Overlay(evs[1..], was[n..])
  {}

  /** x stands in buf at `at`. */
  predicate HasAt(buf: seq<nat>, at: nat, x: seq<nat>) { at + |x| <= |buf| && buf[at..at + |x|] == x }

  lemma HasAtShift(buf: seq<nat>, n: nat, at: nat, x: seq<nat>)
    requires n <= |buf| && HasAt(buf[n..], at, x)
    ensures HasAt(buf, n + at, x)
  {
    assert buf[n..][at..at + |x|] == buf[n + at..n + at + |x|];
  }

  /** Each event's bytes lie at its place among all names. */
  lemma {:induction false} OverlayAt(evs: seq<Event>, was: seq<nat>, i: nat)
    requires |was| == |Names(evs)| && i < |evs|
    ensures HasAt(Overlay(evs, was), NamesBefore(evs, i), Copied(evs[i]))
    decreases i
  {
    hide *;
    OverlayUnfolds(evs, was);
    NamesAt(evs, i);
    if i > 0 {
      var n := |NameBytes(evs[0])|;
      OverlayAt(evs[1..], was[n..], i - 1);
      HasAtShift(Overlay(evs, was), n, NamesBefore(evs[1..], i - 1), Copied(evs[i]));
    }
  }

  lemma {:induction false} OverlayUnfolds(evs: seq<Event>, was: seq<nat>)
    requires evs != [] && |was| == |Names(evs)|
    ensures var n := |NameBytes(evs[0])|;
            && n + |Names(evs[1..])| == |was| && Overlay(evs, was)[n..] == Overlay(evs[1..], was[n..])
            && HasAt(Overlay(evs, was), 0, Copied(evs[0]))
  {}

  /** Without a string over the limit the buffer is all names. */
  lemma {:induction false} OverlayIsNames(evs: seq<Event>, was: seq<nat>)
    requires |was| == |Names(evs)| && NoLongString(evs)
    ensures Overlay(evs, was) == Names(evs)
    decreases |evs|
  {
    hide *;
    if evs == [] {
      NoOverlay(evs, was);
    } else {
      FirstNotLong(evs);
      OverlayUnfolds(evs, was);
      OverlayIsNames(evs[1..], was[|NameBytes(evs[0])|..]);
      Halves(Overlay(evs, was), Names(evs), |NameBytes(evs[0])|);
    }
  }

  lemma {:induction false} NoOverlay(evs: seq<Event>, was: seq<nat>)
    requires evs == [] && |was| == |Names(evs)|
    ensures Overlay(evs, was) == Names(evs)
  {}

  lemma {:induction false} FirstNotLong(evs: seq<Event>)
    requires evs != [] && NoLongString(evs)
    ensures Copied(evs[0]) == NameBytes(evs[0]) && NoLongString(evs[1..])
    ensures Names(evs) == NameBytes(evs[0]) + Names(evs[1..])
  {
    assert evs[0] in evs;
  }

  lemma Halves(a: seq<nat>, b: seq<nat>, n: nat)
    requires n <= |a| && n <= |b| && HasAt(a, 0, b[..n]) && a[n..] == b[n..]
    ensures a == b
  {
    assert a[..n] == a[0..n];
    assert a == a[..n] + a[n..] && b == b[..n] + b[n..];
  }

  // ----- names of devices -----

  /** Where the config of device d ends: as the last Finish says, if there is one. */
  function EndOf(evs: seq<Event>, d: nat, was: nat): nat
    decreases |evs|
  {
    if evs == [] then was else EndOf(evs[1..], d, if evs[0].Finish? && evs[0].dev == d then evs[0].end else was)
  }

  lemma {:induction false} LastFinish(evs: seq<Event>, d: nat, was: nat, i: nat)
    requires i <= |evs| && forall j | i <= j < |evs| :: !(evs[j].Finish? && evs[j].dev == d)
    requires i > 0 ==> evs[i - 1].Finish? && evs[i - 1].dev == d
    ensures EndOf(evs, d, was) == if i > 0 then evs[i - 1].end else was
    decreases |evs|
  {
    if evs != [] {
      LastFinish(evs[1..], d, if evs[0].Finish? && evs[0].dev == d then evs[0].end else was,
                 if i > 0 then i - 1 else 0);
    }
  }

  predicate IsIface(ev: Event, d: nat) { ev.Iface? && ev.target == Dev(d) }

  /** driver_override of device d: the string of the last interface value read for it. */
  function OverrideOf(evs: seq<Event>, d: nat, at: nat, was: Slot): Slot
    decreases |evs|
  {
    if evs == [] then was
    else OverrideOf(evs[1..], d, at + |NameBytes(evs[0])|, if IsIface(evs[0], d) then Set(at) else was)
  }

  /** The last one counts. */
  lemma {:induction false} LastIface(evs: seq<Event>, d: nat, at: nat, was: Slot, i: nat)
    requires i <= |evs| && forall j | i <= j < |evs| :: !IsIface(evs[j], d)
    requires i > 0 ==> IsIface(evs[i - 1], d)
    ensures OverrideOf(evs, d, at, was) == if i > 0 then Set(at + NamesBefore(evs, i - 1)) else was
    decreases |evs|
  {
    hide IsIface, NamesBefore, NameBytes, Names;
    if evs != [] {
      forall j | (if i > 0 then i - 1 else 0) <= j < |evs[1..]|
        ensures !IsIface(evs[1..][j], d)
      {
        assert evs[1..][j] == evs[j + 1];
      }
      LastIface(evs[1..], d, at + |NameBytes(evs[0])|, if IsIface(evs[0], d) then Set(at) else was,
                if i > 0 then i - 1 else 0);
      if i > 0 { NamesAt(evs, i - 1); }
    }
  }

  lemma IfaceIndex(evs: seq<Event>, d: nat) returns (i: nat)
    ensures i <= |evs| && forall j | i <= j < |evs| :: !IsIface(evs[j], d)
    ensures i > 0 ==> IsIface(evs[i - 1], d)
  {
    i := |evs|;
    while i > 0 && !IsIface(evs[i - 1], d)
      invariant i <= |evs| && forall j | i <= j < |evs| :: !IsIface(evs[j], d)
    {
      i := i - 1;
    }
  }

  /** A second pass over the same events leaves it as it is. */
  lemma {:induction false} OverrideTwice(evs: seq<Event>, d: nat)
    ensures OverrideOf(evs, d, 0, OverrideOf(evs, d, 0, Unset)) == OverrideOf(evs, d, 0, Unset)
  {
    var i := IfaceIndex(evs, d);
    LastIface(evs, d, 0, Unset, i);
    LastIface(evs, d, 0, OverrideOf(evs, d, 0, Unset), i);
  }

  lemma {:induction false} Overridden(writes: bool, st: Store, evs: seq<Event>, d: nat)
    requires FitsAll(writes, st, evs) && d < |st.devices|
    ensures var r := ApplyAll(writes, st, evs);
            && |r.devices| == |st.devices|
            && r.devices[d].override == OverrideOf(evs, d, st.names, st.devices[d].override)
    decreases |evs|
  {
    if evs != [] { Overridden(writes, Apply(writes, st, evs[0]), evs[1..], d); }
  }

  /** An open device keeps its name and start. */
  lemma {:induction false} NameStays(st: Store, evs: seq<Event>, n: nat, d: nat)
    requires Ordered(evs, n) && FitsAll(true, st, evs) && d < n && d < |st.devices|
    ensures var r := ApplyAll(true, st, evs);
            && d < |r.devices| && r.devices[d].name == st.devices[d].name && r.devices[d].start == st.devices[d].start
            && r.devices[d].end == EndOf(evs, d, st.devices[d].end)
    decreases |evs|
  {
    if evs != [] {
      NameStays(Apply(true, st, evs[0]), evs[1..], if evs[0].Open? then n + 1 else n, d);
    }
  }

  /** Where the bytes of event i lie among all names. */
  function NamesBefore(evs: seq<Event>, i: nat): nat
    requires i <= |evs|
  {
    |Names(evs[..i])|
  }

  lemma {:induction false} NamesAt(evs: seq<Event>, i: nat)
    requires i < |evs|
    ensures var at := NamesBefore(evs, i);
            && at + |NameBytes(evs[i])| <= |Names(evs)|
            && Names(evs)[at..at + |NameBytes(evs[i])|] == NameBytes(evs[i])
    ensures i > 0 ==> NamesBefore(evs, i) == |NameBytes(evs[0])| + NamesBefore(evs[1..], i - 1)
    ensures i == 0 ==> NamesBefore(evs, i) == 0
    decreases i
  {
    if i > 0 {
      NamesAt(evs[1..], i - 1);
      assert evs[..i][1..] == evs[1..][..i - 1];
    }
  }

  /** A device is named by the bytes of its own open event, and ends where its last Finish says. */
  lemma {:induction false} WritingNamed(st: Store, evs: seq<Event>, n: nat, i: nat)
    requires Ordered(evs, n) && FitsAll(true, st, evs) && i < |evs| && evs[i].Open?
    ensures var r := ApplyAll(true, st, evs);
            && evs[i].dev < |r.devices|
            && r.devices[evs[i].dev].name == NameOf(evs[i].path, st.names + NamesBefore(evs, i))
            && r.devices[evs[i].dev].start == evs[i].start
            && r.devices[evs[i].dev].end == EndOf(evs[i + 1..], evs[i].dev, evs[i].start)
    decreases |evs|
  {
    NamesAt(evs, i);
    var st' := Apply(true, st, evs[0]);
    if i == 0 {
      NameStays(st', evs[1..], n + 1, evs[0].dev);
    } else {
      WritingNamed(st', evs[1..], if evs[0].Open? then n + 1 else n, i - 1);
    }
  }
}
