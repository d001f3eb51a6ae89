/** The scan of a config text for devices: parse_config_string and what it calls.

  `struct parser_state` is passed and returned by value, so its fields are those of one object that every
  call updates; a caller's frame is read only through `parent`, which here is the list of the keys on
  the way up.
 */
module ConfigScan {
  import opened ConfigBuffers
  import opened ConfigChars
  import opened ConfigMachine
  import opened ConfigNumbers
  import opened ConfigText
  import opened ConfigTrace

  /** What the byte at p says about the values there, in a text parsed to its NUL. */
  lemma ValueKind(s: Text, p: nat)
    requires p <= Nul(s)
    ensures var e := Nul(s);
            var vs := ParseValues(s, e, p);
            if s[p] == 0 || s[p] == SEMI then vs == Stop(p)
            else
              && p < e
              && if s[p] == QUOTE then vs == Quoted(p, ParseValues(s, e, SpaceEnd(s, StringEnd(s, p + 1))))
                 else if s[p] == OPEN then
                   && vs.Nested? && vs.at == p && vs.body == ParseBlock(s, e, p + 1)
                   && vs.body.End() <= e && vs.rest == ParseValues(s, e, SpaceEnd(s, Past(s, vs.body.End(), CLOSE)))
                 else vs == Word(p, ParseValues(s, e, SpaceEnd(s, KeyEnd(s, p + 1))))
  {}

  lemma {:induction false} EntryKind(s: Text, p: nat)
    requires p <= Nul(s)
    ensures var e := Nul(s);
            var es := ParseEntries(s, e, p);
            if s[p] == 0 || s[p] == CLOSE then es == Done(p)
            else
              && p < e && es.Entry? && es.ks == p && es.ke == KeyEnd(s, p) && es.key == s[p..es.ke]
              && es.values == ParseValues(s, e, SpaceEnd(s, es.ke))
              && es.values.End() <= e
              && es.next == ParseEntries(s, e, SpaceEnd(s, Past(s, es.values.End(), SEMI)))
              && p < SpaceEnd(s, Past(s, es.values.End(), SEMI))
              && es.End() == es.next.End()
  {}

  /** The flag of the current block, once a key has been seen. */
  lemma RootIs(s: Text, mode: Mode, c: Ctx, es: Entries, root: bool, b: nat, m: Machine)
    requires es.Entry? && EntriesOk(s, mode, c, es, root, b, m)
    ensures root == ((m.roots[b] || es.key == INTERFACE) && mode.live)
  {}

  lemma {:induction false} DottedUnfolds(parent: seq<seq<nat>>, buf: seq<nat>, at: nat)
    requires parent != []
    ensures Dotted(parent) == Dotted(parent[1..]) + parent[0] + [DOT]
    ensures |parent| == 1 ==> Dotted(parent[1..]) == [] && Blit(buf, at, []) == buf
  {}

  class Parser {
    const text: Text
    var pass: nat
    var roots: seq<bool>
    var block: nat
    var config: nat
    var device: nat
    var keyStart: nat
    var keyEnd: nat
    var devices: seq<Device>
    var names: nat
    var buf: seq<nat>
    var resources: seq<Res>

    constructor (text: Text)
      ensures this.text == text && pass == 0 && config == 0 && block == 0 && device == 0 && keyStart == 0 && keyEnd == 0
      ensures roots == [] && devices == [] && names == 0 && buf == [] && resources == []
    {
      this.text := text;
      pass, config, block, device, keyStart, keyEnd, names := 0, 0, 0, 0, 0, 0, 0;
      roots, devices, buf, resources := [], [], [], [];
    }

    function St(): Store
      reads this
    {
      Store(devices, names, buf, resources)
    }

    predicate KeyValid()
      reads this
    {
      keyStart <= keyEnd <= Nul(text)
    }

    function CurKey(): Key
      requires KeyValid()
      reads this
    {
      Key(keyStart, keyEnd, text[keyStart..keyEnd])
    }

    function M(): Machine
      requires KeyValid()
      reads this
    {
      Machine(roots, block, device, CurKey(), St())
    }

    function Passing(): Mode
      reads this`pass
    {
      Mode(pass >= 1, pass >= 2)
    }

    // What stands at config, in the text parsed to its NUL.

    function BlockHere(): Entries
      requires config <= Nul(text)
      reads this
    {
      ParseBlock(text, Nul(text), config)
    }

    function EntriesHere(): Entries
      requires config <= Nul(text)
      reads this
    {
      ParseEntries(text, Nul(text), config)
    }

    function ValuesHere(): Values
      requires config <= Nul(text)
      reads this
    {
      ParseValues(text, Nul(text), config)
    }

    // ----- names -----

    /** config_path_helper */
    method ConfigPathHelper(parent: seq<seq<nat>>)
      requires parent != []
      requires pass >= 2 ==> names + |Dotted(parent)| <= |buf|
      modifies this`names, this`buf
      ensures names == old(names) + |Dotted(parent)|
      ensures buf == if pass >= 2 then Blit(old(buf), old(names), Dotted(parent)) else old(buf)
      decreases |parent|
    {
      hide Dotted, Blit;
      DottedUnfolds(parent, buf, names);
      var len := |parent[0]|;
      ghost var up := Dotted(parent[1..]);
      if |parent| > 1 {
        ConfigPathHelper(parent[1..]);
      }
      if pass >= 2 {
        BlitTwice(old(buf), old(names), up, parent[0]);
        buf := Blit(buf, names, parent[0]);
        BlitGrows(old(buf), old(names), up + parent[0], DOT);
        buf := buf[names + len := DOT];
      }
      names := names + len + 1;
    }

    /** config_path */
    method ConfigPath(parent: seq<seq<nat>>) returns (output: Name)
      requires pass >= 2 ==> names + |Path(parent)| <= |buf|
      modifies this`names, this`buf
      ensures St() == Emit(pass >= 2, old(St()), |Path(parent)|, Path(parent))
      ensures output == NameOf(Path(parent), old(names))
    {
      if parent == [] {
        assert Blit(buf, names, []) == buf;
        return Literal;
      }
      output := Offset(names);
      ConfigPathHelper(parent);
      if pass >= 2 {
        buf := buf[names - 1 := 0];
      }
    }

    /** parse_interface */
    method ParseInterface(target: Target)
      requires config <= Nul(text) && Fits(pass >= 2, St(), Iface(target, StringBytes(text, config)))
      modifies this`devices, this`names, this`buf
      ensures St() == Apply(pass >= 2, old(St()), Iface(target, StringBytes(text, config)))
    {
      var len := if pass >= 2 then MAX_STRING else 0;
      if target.Dev? {
        devices := devices[target.dev := devices[target.dev].(override := Set(names))];
      }
      hide Blit, StringBytes;
      var out;
      out, buf := ParseString(text, config, buf, names, len);
      names := names + out;
    }

    // ----- resources -----

    /** parse_range */
    method ParseRange(parent: seq<seq<nat>>, flags: Flags, target: Target)
      requires KeyValid() && config <= Nul(text)
      requires FitsAll(pass >= 2, St(), RangeEvents(text, config, parent, flags, target, CurKey()))
      modifies this`devices, this`names, this`buf, this`resources
      ensures St() == ApplyAll(pass >= 2, old(St()), RangeEvents(text, config, parent, flags, target, CurKey()))
    {
      var valueTail := SkipKey(text, config);
      var value, valueEnd := ParseU64(text, config);
      var key, end := ParseU64(text, keyStart);
      if end != keyEnd {
        return;
      }
      if valueEnd != valueTail {
        return;
      }
      if target.NoTarget? {
        return;
      }
      ghost var evs := RangeEvents(text, config, parent, flags, target, CurKey());
      ApplyOne(pass >= 2, St(), evs[0]);
      AddResource(parent[1..], flags, target.dev, key, value);
    }

    /** parse_single */
    method ParseSingle(parent: seq<seq<nat>>, flags: Flags, target: Target)
      requires config <= Nul(text)
      requires FitsAll(pass >= 2, St(), SingleEvents(text, config, parent, flags, target))
      modifies this`devices, this`names, this`buf, this`resources
      ensures St() == ApplyAll(pass >= 2, old(St()), SingleEvents(text, config, parent, flags, target))
    {
      var valueTail := SkipKey(text, config);
      var value, valueEnd := ParseU64(text, config);
      if valueEnd != valueTail {
        return;
      }
      if target.NoTarget? {
        return;
      }
      ghost var evs := SingleEvents(text, config, parent, flags, target);
      ApplyOne(pass >= 2, St(), evs[0]);
      AddResource(parent, flags, target.dev, value, value);
    }

    /** The common end of parse_range and parse_single. */
    method AddResource(path: seq<seq<nat>>, flags: Flags, d: nat, first: nat, last: nat)
      requires Fits(pass >= 2, St(), Resource(d, flags, Path(path), first, last))
      modifies this`devices, this`names, this`buf, this`resources
      ensures St() == Apply(pass >= 2, old(St()), Resource(d, flags, Path(path), first, last))
    {
      hide Path;
      var name := ConfigPath(path);
      if devices[d].slice.Set? {
        var at := devices[d].slice.at + devices[d].num;
        var shown := if name.Offset? && buf[name.at] == 0 then Literal else name;
        resources := resources[at := Res(shown, flags, first, last)];
      }
      devices := devices[d := devices[d].(num := devices[d].num + 1)];
    }

    // ----- the walk -----

    /** parse_config_string */
    method ParseConfigString(parent: seq<seq<nat>>, parentFlags: Flags, target: Target)
      requires config <= Nul(text) && KeyValid()
      requires BlockOk(text, Passing(), Ctx(parent, parentFlags, target), BlockHere(), config, M())
      modifies this`roots, this`block, this`config, this`device, this`keyStart, this`keyEnd,
               this`devices, this`names, this`buf, this`resources
      ensures config == old(BlockHere().End()) && KeyValid()
      ensures M() == old(RunBlock(text, Passing(), Ctx(parent, parentFlags, target), BlockHere(), config, M()))
      decreases Nul(text) - config, 4
    {
      hide RunBlock, BlockOk, RunEntries, EntriesOk, ParseEntries, ParseValues, Apply, Fits, Path, SpaceEnd, HasIface,
        KeyOk, Placed;
      ghost var c0, m0, mode, e := Ctx(parent, parentFlags, target), M(), Passing(), Nul(text);
      ghost var tree := ParseBlock(text, e, config);
      BlockTurn(text, mode, c0, tree, config, m0);
      ghost var root := mode.live && HasIface(tree);
      var amRoot, parent', target' := EnterBlock(parent, target);
      ghost var c := Inside(c0, root, m0.dev);
      config := SkipWhitespace(text, config);
      while text[config] != 0 && text[config] != CLOSE
        invariant old(config) <= config <= e && KeyValid() && mode == Passing()
        invariant EntriesOk(text, mode, c, ParseEntries(text, e, config), root, amRoot, M())
        invariant RunEntries(text, mode, c, ParseEntries(text, e, config), root, amRoot, M())
                  == RunBlock(text, mode, c0, tree, old(config), m0)
        invariant ParseEntries(text, e, config).End() == tree.End()
        decreases e - config
      {
        EntryKind(text, config);
        ParseEntry(amRoot, parent', parentFlags, target', root);
      }
      EntryKind(text, config);
      DoneTurn(text, mode, c, ParseEntries(text, e, config), root, amRoot, M());
    }

    /** One turn of the outer loop of parse_config_string. */
    method ParseEntry(amRoot: nat, parent: seq<seq<nat>>, parentFlags: Flags, target: Target, ghost root: bool)
      requires config < Nul(text) && text[config] != CLOSE && KeyValid()
      requires EntriesOk(text, Passing(), Ctx(parent, parentFlags, target), EntriesHere(), root, amRoot, M())
      modifies this`roots, this`block, this`config, this`device, this`keyStart, this`keyEnd,
               this`devices, this`names, this`buf, this`resources
      ensures old(config) < config <= Nul(text) && KeyValid()
      ensures EntriesHere() == old(EntriesHere().next)
      ensures EntriesOk(text, Passing(), Ctx(parent, parentFlags, target), EntriesHere(), root, amRoot, M())
      ensures RunEntries(text, Passing(), Ctx(parent, parentFlags, target), EntriesHere(), root, amRoot, M())
              == old(RunEntries(text, Passing(), Ctx(parent, parentFlags, target), EntriesHere(), root, amRoot, M()))
      decreases Nul(text) - config, 3
    {
      hide RunEntries, EntriesOk, RunValues, ValuesOk, ParseEntries, ParseValues, ApplyAll, FitsAll, FinishEvents,
        SpaceEnd, KeyEnd, KeyOk, Placed, PlacedValues, AtKey, FlagsOf, Past;
      ghost var c, e, mode, m := Ctx(parent, parentFlags, target), Nul(text), Passing(), M();
      ghost var es := ParseEntries(text, e, config);
      EntryKind(text, config);
      EntryTurn(text, mode, c, es, root, amRoot, m);
      RootIs(text, mode, c, es, root, amRoot, m);
      var iface, flags := ReadKey(amRoot, es);
      ParseEntryValues(parent, parentFlags, target, iface, flags);
      PastSemicolon(es.values.End());
      FinishDevice(roots[amRoot], target, root, es.values.End());
      config := SkipWhitespace(text, config);
    }

    method PastSemicolon(ghost end: nat)
      requires config == end <= Nul(text)
      modifies this`config
      ensures config == Past(text, end, SEMI)
    {
      if text[config] == SEMI {
        config := config + 1;
      }
    }

    /** The key of an entry and what it stands for. */
    method ReadKey(amRoot: nat, ghost es: Entries) returns (iface: bool, flags: Flags)
      requires config <= Nul(text) && KeyValid() && amRoot < |roots|
      requires es.Entry? && es.ks == config && es.ke == KeyEnd(text, config) && es.key == text[config..es.ke]
      modifies this`roots, this`config, this`keyStart, this`keyEnd
      ensures KeyValid() && M() == old(AtKey(M(), amRoot, es)) && config == SpaceEnd(text, es.ke)
      ensures iface == (es.key == INTERFACE) && flags == FlagsOf(es.key)
    {
      hide SpaceEnd, KeyEnd;
      keyStart := config;
      config := SkipKey(text, config);
      keyEnd := config;
      iface := ParserKeyEq(INTERFACE);
      if iface {
        roots := roots[amRoot := true];
      }
      flags := NoFlags;
      if ParserKeyEq(IRQ) { flags := Irq; }
      if ParserKeyEq(BUS) { flags := Bus; }
      if ParserKeyEq(MEM) { flags := Mem; }
      config := SkipWhitespace(text, config);
    }

    /** parser_key_eq */
    predicate ParserKeyEq(key: seq<nat>)
      requires KeyValid()
      reads this
    {
      text[keyStart..keyEnd] == key
    }

    /** The end of a device's text moves behind the entry. */
    method FinishDevice(amRoot: bool, target: Target, ghost root: bool, ghost end: nat)
      requires end <= Nul(text) && config == Past(text, end, SEMI)
      requires root == (amRoot && pass >= 1)
      requires FitsAll(pass >= 2, St(), FinishEvents(text, end, root, target))
      modifies this`devices
      ensures St() == ApplyAll(pass >= 2, old(St()), FinishEvents(text, end, root, target))
    {
      if amRoot && target.Dev? && pass >= 1 {
        ApplyOne(pass >= 2, St(), FinishEvents(text, end, root, target)[0]);
        var newline := SkipNewline(text, config);
        devices := devices[target.dev := devices[target.dev].(end := newline)];
      }
    }

    /** The root test at the start of a block. */
    method EnterBlock(parent: seq<seq<nat>>, target: Target)
      returns (amRoot: nat, parent': seq<seq<nat>>, target': Target)
      requires KeyValid() && block < |roots| && (roots[block] ==> pass >= 1)
      requires roots[block] ==> Fits(pass >= 2, St(), Open(device, Path(parent), config))
      modifies this`block, this`device, this`devices, this`names, this`buf
      ensures amRoot == old(block) && KeyValid()
      ensures parent' == if roots[amRoot] then [] else parent
      ensures target' == if roots[amRoot] then Dev(old(device)) else target
      ensures forall flags :: M() == Entered(Passing(), Ctx(parent, flags, target), roots[amRoot], config, old(M()))
    {
      hide Path, Apply, Fits;
      amRoot := block;
      block := block + 1;
      parent', target' := parent, target;
      if roots[amRoot] {
        if pass >= 1 {
          target' := Dev(device);
          OpenDevice(parent);
        }
        device := device + 1;
        parent' := [];
      }
    }

    /** The device part of entering a root. */
    method OpenDevice(parent: seq<seq<nat>>)
      requires Fits(pass >= 2, St(), Open(device, Path(parent), config))
      modifies this`devices, this`names, this`buf
      ensures St() == Apply(pass >= 2, old(St()), Open(device, Path(parent), config))
    {
      hide Path;
      var name := ConfigPath(parent);
      devices := devices[device := devices[device].(name := name, num := 0, start := config, end := config)];
    }

    /** The inner loop of parse_config_string: the values of one entry. */
    method ParseEntryValues(parent: seq<seq<nat>>, parentFlags: Flags, target: Target, isInterface: bool, flags: Flags)
      requires config <= Nul(text) && KeyValid()
      requires ValuesOk(text, Passing(), Ctx(parent, parentFlags, target), ValuesHere(), isInterface, flags, M())
      modifies this`roots, this`block, this`config, this`device, this`keyStart, this`keyEnd,
               this`devices, this`names, this`buf, this`resources
      ensures config == old(ValuesHere().End()) && KeyValid()
      ensures M() == old(RunValues(text, Passing(), Ctx(parent, parentFlags, target), ValuesHere(),
                                   isInterface, flags, M()))
      decreases Nul(text) - config, 2
    {
      hide RunBlock, BlockOk, RunValues, ValuesOk, ParseEntries, ParseValues, ParseBlock,
        ApplyAll, FitsAll, WordEvents, IfaceEvents, SpaceEnd, LineEnd, KeyEnd, StringEnd, Past, KeyOk, Placed,
        PlacedValues;
      ghost var c, mode, e := Ctx(parent, parentFlags, target), Passing(), Nul(text);
      ghost var vs, m := ParseValues(text, e, config), M();
      var iface := isInterface;
      while text[config] != 0 && text[config] != SEMI
        invariant old(config) <= config <= e && KeyValid() && mode == Passing()
        invariant ValuesOk(text, mode, c, ParseValues(text, e, config), iface, flags, M())
        invariant RunValues(text, mode, c, ParseValues(text, e, config), iface, flags, M())
                  == RunValues(text, mode, c, vs, isInterface, flags, m)
        invariant ParseValues(text, e, config).End() == vs.End()
        decreases e - config
      {
        ParseValue(parent, parentFlags, target, iface, flags);
        iface := false;
      }
      ValueKind(text, config);
      StopTurn(text, mode, c, ParseValues(text, e, config), iface, flags, M());
    }

    /** The values from config on fit into the buffers. */
    ghost predicate RestOk(parent: seq<seq<nat>>, parentFlags: Flags, target: Target, iface: bool, flags: Flags)
      requires config <= Nul(text) && KeyValid()
      reads this
    {
      ValuesOk(text, Passing(), Ctx(parent, parentFlags, target), ValuesHere(), iface, flags, M())
    }

    /** Where the values from config on lead. */
    ghost function RestRuns(parent: seq<seq<nat>>, parentFlags: Flags, target: Target, iface: bool,
                            flags: Flags): Machine
      requires config <= Nul(text) && KeyValid() && RestOk(parent, parentFlags, target, iface, flags)
      reads this
    {
      RunValues(text, Passing(), Ctx(parent, parentFlags, target), ValuesHere(), iface, flags, M())
    }

    /** One turn of the inner loop. */
    method ParseValue(parent: seq<seq<nat>>, parentFlags: Flags, target: Target, iface: bool, flags: Flags)
      requires config < Nul(text) && text[config] != SEMI && KeyValid()
      requires RestOk(parent, parentFlags, target, iface, flags)
      modifies this`roots, this`block, this`config, this`device, this`keyStart, this`keyEnd,
               this`devices, this`names, this`buf, this`resources
      ensures old(config) < config <= Nul(text) && KeyValid() && ValuesHere().End() == old(ValuesHere().End())
      ensures RestOk(parent, parentFlags, target, false, flags)
      ensures RestRuns(parent, parentFlags, target, false, flags)
          == old(RestRuns(parent, parentFlags, target, iface, flags))
      decreases Nul(text) - config, 1
    {
      hide RestOk, RestRuns, ParseValues;
      if text[config] == QUOTE {
        QuotedValue(parent, parentFlags, target, iface, flags);
      } else if text[config] == OPEN {
        NestedValue(parent, parentFlags, target, iface, flags);
      } else {
        PlainValue(parent, parentFlags, target, iface, flags);
      }
    }

    /** A quoted value and the white space behind it. */
    method QuotedValue(parent: seq<seq<nat>>, parentFlags: Flags, target: Target, iface: bool, flags: Flags)
      requires config < Nul(text) && text[config] == QUOTE && KeyValid()
      requires RestOk(parent, parentFlags, target, iface, flags)
      modifies this`roots, this`block, this`config, this`device, this`keyStart, this`keyEnd,
               this`devices, this`names, this`buf, this`resources
      ensures old(config) < config <= Nul(text) && KeyValid() && ValuesHere().End() == old(ValuesHere().End())
      ensures RestOk(parent, parentFlags, target, false, flags)
      ensures RestRuns(parent, parentFlags, target, false, flags)
          == old(RestRuns(parent, parentFlags, target, iface, flags))
      decreases Nul(text) - config, 0
    {
      hide RunBlock, BlockOk, RunValues, ValuesOk, ParseEntries, ParseValues, ParseBlock,
        ApplyAll, FitsAll, WordEvents, IfaceEvents, SpaceEnd, LineEnd, KeyEnd, StringEnd, Past, KeyOk, Placed,
        PlacedValues;
      ghost var c, mode, m := Ctx(parent, parentFlags, target), Passing(), M();
      ghost var vs := ValuesHere();
      ValueKind(text, config);
      QuotedTurn(text, mode, c, vs, iface, flags, m);
      InterfaceOf(iface, target);
      config := SkipString(text, config + 1);
      config := SkipWhitespace(text, config);
    }

    /** A nested block and the white space behind it. */
    method NestedValue(parent: seq<seq<nat>>, parentFlags: Flags, target: Target, iface: bool, flags: Flags)
      requires config < Nul(text) && text[config] == OPEN && KeyValid()
      requires RestOk(parent, parentFlags, target, iface, flags)
      modifies this`roots, this`block, this`config, this`device, this`keyStart, this`keyEnd,
               this`devices, this`names, this`buf, this`resources
      ensures old(config) < config <= Nul(text) && KeyValid() && ValuesHere().End() == old(ValuesHere().End())
      ensures RestOk(parent, parentFlags, target, false, flags)
      ensures RestRuns(parent, parentFlags, target, false, flags)
          == old(RestRuns(parent, parentFlags, target, iface, flags))
      decreases Nul(text) - config, 0
    {
      hide RunBlock, BlockOk, RunValues, ValuesOk, ParseEntries, ParseValues, ParseBlock,
        ApplyAll, FitsAll, WordEvents, IfaceEvents, SpaceEnd, LineEnd, KeyEnd, StringEnd, Past, KeyOk, Placed,
        PlacedValues;
      ghost var c, mode, m := Ctx(parent, parentFlags, target), Passing(), M();
      ghost var vs := ValuesHere();
      ValueKind(text, config);
      NestedTurn(text, mode, c, vs, iface, flags, m);
      NestedBlock(parent, flags, target, vs.body);
      config := SkipWhitespace(text, config);
    }

    /** Any other value and the white space behind it. */
    method PlainValue(parent: seq<seq<nat>>, parentFlags: Flags, target: Target, iface: bool, flags: Flags)
      requires config < Nul(text) && text[config] != QUOTE && text[config] != OPEN && text[config] != SEMI && KeyValid()
      requires RestOk(parent, parentFlags, target, iface, flags)
      modifies this`roots, this`block, this`config, this`device, this`keyStart, this`keyEnd,
               this`devices, this`names, this`buf, this`resources
      ensures old(config) < config <= Nul(text) && KeyValid() && ValuesHere().End() == old(ValuesHere().End())
      ensures RestOk(parent, parentFlags, target, false, flags)
      ensures RestRuns(parent, parentFlags, target, false, flags)
          == old(RestRuns(parent, parentFlags, target, iface, flags))
      decreases Nul(text) - config, 0
    {
      hide RunBlock, BlockOk, RunValues, ValuesOk, ParseEntries, ParseValues, ParseBlock,
        ApplyAll, FitsAll, WordEvents, IfaceEvents, SpaceEnd, LineEnd, KeyEnd, StringEnd, Past, KeyOk, Placed,
        PlacedValues;
      ghost var c, mode, m := Ctx(parent, parentFlags, target), Passing(), M();
      ghost var vs := ValuesHere();
      ValueKind(text, config);
      WordTurn(text, mode, c, vs, iface, flags, m);
      WordValue(parent, parentFlags, target, iface, flags);
      config := SkipKey(text, config + 1);
      config := SkipWhitespace(text, config);
    }

    /** `if (iface) parse_interface(&state, target)` */
    method InterfaceOf(iface: bool, target: Target)
      requires config <= Nul(text) && FitsAll(pass >= 2, St(), IfaceEvents(text, config, iface, target))
      modifies this`devices, this`names, this`buf
      ensures St() == ApplyAll(pass >= 2, old(St()), IfaceEvents(text, config, iface, target))
    {
      if iface {
        ApplyOne(pass >= 2, St(), Iface(target, StringBytes(text, config)));
        ParseInterface(target);
      }
    }

    /** What a plain word does. */
    method WordValue(parent: seq<seq<nat>>, parentFlags: Flags, target: Target, iface: bool, flags: Flags)
      requires config <= Nul(text) && KeyValid()
      requires FitsAll(pass >= 2, St(), WordEvents(text, config, parent, parentFlags, target, iface, flags, CurKey()))
      modifies this`devices, this`names, this`buf, this`resources
      ensures St() == ApplyAll(pass >= 2, old(St()),
                               WordEvents(text, config, parent, parentFlags, target, iface, flags, CurKey()))
    {
      ghost var st := St();
      ghost var a := IfaceEvents(text, config, iface, target);
      ghost var b := if parentFlags != NoFlags then RangeEvents(text, config, parent, parentFlags, target, CurKey())
          else [];
      ghost var d := if flags != NoFlags then SingleEvents(text, config, parent, flags, target) else [];
      ApplySplit(pass >= 2, st, a + b, d);
      ApplySplit(pass >= 2, st, a, b);
      hide RangeEvents, SingleEvents, IfaceEvents;
      InterfaceOf(iface, target);
      if parentFlags != NoFlags {
        ParseRange(parent, parentFlags, target);
      }
      if flags != NoFlags {
        ParseSingle(parent, flags, target);
      }
    }

    /** A nested block, from its opening brace to behind its closing one. */
    method NestedBlock(parent: seq<seq<nat>>, flags: Flags, target: Target, ghost body: Entries)
      requires config < Nul(text) && KeyValid() && body == ParseBlock(text, Nul(text), config + 1)
      requires BlockOk(text, Passing(), Ctx([CurKey().text] + parent, flags, target), body, LineEnd(text, config + 1),
                       M())
      modifies this`roots, this`block, this`config, this`device, this`keyStart, this`keyEnd,
               this`devices, this`names, this`buf, this`resources
      ensures config == Past(text, body.End(), CLOSE) && KeyValid()
      ensures M() == old(RunBlock(text, Passing(), Ctx([CurKey().text] + parent, flags, target), body,
                                  LineEnd(text, config + 1), M()))
      decreases Nul(text) - config - 1, 5
    {
      hide RunBlock, BlockOk, ParseEntries, LineEnd, SpaceEnd;
      SpaceAfterLine(text, config + 1);
      config := SkipNewline(text, config + 1);
      ParseConfigString([text[keyStart..keyEnd]] + parent, flags, target);
      if text[config] == CLOSE {
        config := config + 1;
      }
    }
  }
}
