/** Printed config trees: parsing what was printed, looking names up in it, and when a missing name is
  noticed.
 */
module ConfigPrint {
  import opened ConfigLookup
  import opened ConfigText

  /** A config tree with the white space it is printed with. */
  datatype Block =
    | Nil
    | Item(key: seq<nat>, gap: seq<nat>, vals: Vals, tail: seq<nat>, next: Block)

  datatype Vals =
    | Last
    | Bare(text: seq<nat>, gap: seq<nat>, rest: Vals)
    | Str(text: seq<nat>, gap: seq<nat>, rest: Vals)
    | Sub(lead: seq<nat>, body: Block, gap: seq<nat>, rest: Vals)

  function Print(b: Block): seq<nat>
    decreases b
  {
    match b
    case Nil => []
    case Item(key, gap, vals, tail, next) => key + (gap + (PrintVals(vals) + ([SEMI] + (tail + Print(next)))))
  }

  function PrintVals(v: Vals): seq<nat>
    decreases v
  {
    match v
    case Last => []
    case Bare(text, gap, rest) => text + (gap + PrintVals(rest))
    case Str(text, gap, rest) => [QUOTE] + (text + ([QUOTE] + (gap + PrintVals(rest))))
    case Sub(lead, body, gap, rest) => [OPEN] + (lead + (Print(body) + ([CLOSE] + (gap + PrintVals(rest)))))
  }

  predicate Spaces(x: seq<nat>) { forall i | 0 <= i < |x| :: IsSpace(x[i]) }

  predicate KeyChars(x: seq<nat>) { |x| > 0 && forall i | 0 <= i < |x| :: KeyChar(x[i]) }

  predicate Quotable(x: seq<nat>) { forall i | 0 <= i < |x| :: x[i] != QUOTE }

  /** Keys and words are made of key characters, strings hold no quote, and what stands before a word is
    kept apart from it. */
  predicate Printable(b: Block)
    decreases b
  {
    match b
    case Nil => true
    case Item(key, gap, vals, tail, next) =>
      KeyChars(key) && Spaces(gap) && (vals.Bare? ==> gap != []) && PrintableVals(vals) && Spaces(tail)
          && Printable(next)
  }

  predicate PrintableVals(v: Vals)
    decreases v
  {
    match v
    case Last => true
    case Bare(text, gap, rest) => KeyChars(text) && Spaces(gap) && (rest.Bare? ==> gap != []) && PrintableVals(rest)
    case Str(text, gap, rest) => Quotable(text) && Spaces(gap) && PrintableVals(rest)
    case Sub(lead, body, gap, rest) => Spaces(lead) && Printable(body) && Spaces(gap) && PrintableVals(rest)
  }

  /** The parse tree of a block printed at p. */
  function Placing(b: Block, p: nat): Entries
    decreases b
  {
    match b
    case Nil => Done(p)
    case Item(key, gap, vals, tail, next) =>
      var q := p + |key| + |gap|;
      Entry(p, p + |key|, key, PlacingVals(vals, q), Placing(next, q + |PrintVals(vals)| + 1 + |tail|))
  }

  function PlacingVals(v: Vals, p: nat): Values
    decreases v
  {
    match v
    case Last => Stop(p)
    case Bare(text, gap, rest) => Word(p, PlacingVals(rest, p + |text| + |gap|))
    case Str(text, gap, rest) => Quoted(p, PlacingVals(rest, p + 1 + |text| + 1 + |gap|))
    case Sub(lead, body, gap, rest) =>
      Nested(p, Placing(body, p + 1 + |lead|), PlacingVals(rest, p + 1 + |lead| + |Print(body)| + 1 + |gap|))
  }

  /** x stands in s at p. */
  predicate Holds(s: Text, p: nat, x: seq<nat>) { p + |x| <= |s| && s[p..p + |x|] == x }

  lemma HoldsSplit(s: Text, p: nat, x: seq<nat>, y: seq<nat>)
    requires Holds(s, p, x + y)
    ensures Holds(s, p, x) && Holds(s, p + |x|, y)
  {
    assert s[p..p + |x + y|] == x + y;
    assert s[p..p + |x|] == (x + y)[..|x|];
    assert s[p + |x|..p + |x| + |y|] == (x + y)[|x|..];
  }

  lemma HoldsOne(s: Text, p: nat, c: nat)
    requires Holds(s, p, [c])
    ensures p < |s| && s[p] == c
  {
    assert s[p..p + 1][0] == c;
  }

  /** White space printed at p, with something else behind it. */
  lemma {:induction false} GapEnds(s: Text, p: nat, gap: seq<nat>)
    requires Holds(s, p, gap) && Spaces(gap) && p + |gap| <= Nul(s) && !IsSpace(s[p + |gap|])
    ensures SpaceEnd(s, p) == p + |gap|
  {
    assert forall i | p <= i < p + |gap| :: s[i] == s[p..p + |gap|][i - p];
    SpaceEndIs(s, p, p + |gap|);
  }

  lemma KeyEnds(s: Text, p: nat, key: seq<nat>)
    requires Holds(s, p, key) && KeyChars(key) && p + |key| <= Nul(s) && !KeyChar(s[p + |key|])
    ensures KeyEnd(s, p) == p + |key| && KeyEnd(s, p + 1) == p + |key| && KeyChar(s[p])
  {
    assert forall i | p <= i < p + |key| :: s[i] == s[p..p + |key|][i - p];
    KeyEndIs(s, p, p + |key|);
    KeyEndIs(s, p + 1, p + |key|);
  }

  lemma {:induction false} StrEnds(s: Text, p: nat, text: seq<nat>)
    requires Holds(s, p, text) && Quotable(text) && p + |text| < Nul(s) && s[p + |text|] == QUOTE
    ensures StringEnd(s, p) == p + |text| + 1
  {
    assert forall i | p <= i < p + |text| :: s[i] == s[p..p + |text|][i - p];
    StringEndIs(s, p, p + |text|);
  }

  /** The byte at the start of printed values, with a semicolon behind them. */
  lemma {:induction false} FirstOfVals(s: Text, p: nat, v: Vals)
    requires Holds(s, p, PrintVals(v)) && PrintableVals(v) && p + |PrintVals(v)| <= Nul(s)
    requires s[p + |PrintVals(v)|] == SEMI
    ensures p <= Nul(s) && !IsSpace(s[p]) && (v.Bare? || !KeyChar(s[p]))
    ensures v.Last? ==> s[p] == SEMI
    ensures !v.Last? ==> |PrintVals(v)| > 0 && s[p] == PrintVals(v)[0] && s[p] != SEMI
    ensures v.Str? ==> s[p] == QUOTE
    ensures v.Sub? ==> s[p] == OPEN
    ensures v.Bare? ==> s[p] != QUOTE && s[p] != OPEN
  {
    if !v.Last? {
      assert s[p] == s[p..p + |PrintVals(v)|][0];
    }
  }

  lemma {:induction false} PlacingEnds(b: Block, p: nat)
    ensures Placing(b, p).End() == p + |Print(b)|
    decreases b
  {
    if b.Item? { PlacingEnds(b.next, p + |b.key| + |b.gap| + |PrintVals(b.vals)| + 1 + |b.tail|); }
  }

  lemma {:induction false} PlacingValsEnds(v: Vals, p: nat)
    ensures PlacingVals(v, p).End() == p + |PrintVals(v)|
    decreases v
  {
    match v
    case Last =>
    case Bare(text, gap, rest) => PlacingValsEnds(rest, p + |text| + |gap|);
    case Str(text, gap, rest) => PlacingValsEnds(rest, p + 1 + |text| + 1 + |gap|);
    case Sub(lead, body, gap, rest) => PlacingValsEnds(rest, p + 1 + |lead| + |Print(body)| + 1 + |gap|);
  }

  /** b stands in s at p, and what follows it ends a block. */
  predicate Stands(s: Text, e: nat, p: nat, b: Block) {
    var q := p + |Print(b)|;
    && Printable(b) && Holds(s, p, Print(b)) && e <= Nul(s) && q <= e
    && !IsSpace(s[q]) && (q == e || s[q] == CLOSE)
  }

  predicate StandsVals(s: Text, e: nat, p: nat, v: Vals) {
    var q := p + |PrintVals(v)|;
    PrintableVals(v) && Holds(s, p, PrintVals(v)) && e <= Nul(s) && q < e && s[q] == SEMI
  }

  lemma Holds2(s: Text, p: nat, x: seq<nat>, y: seq<nat>, z: seq<nat>)
    requires z == x + y && Holds(s, p, z)
    ensures Holds(s, p, x) && Holds(s, p + |x|, y)
  {
    HoldsSplit(s, p, x, y);
  }

  lemma {:induction false} ItemHolds(s: Text, p: nat, b: Block)
    requires b.Item? && Holds(s, p, Print(b))
    ensures var a := p + |b.key|;
            var q := a + |b.gap|;
            var r := q + |PrintVals(b.vals)|;
            && Holds(s, p, b.key) && Holds(s, a, b.gap) && Holds(s, q, PrintVals(b.vals)) && Holds(s, r, [SEMI])
            && Holds(s, r + 1, b.tail) && Holds(s, r + 1 + |b.tail|, Print(b.next))
            && p + |Print(b)| == r + 1 + |b.tail| + |Print(b.next)|
  {
    hide Holds, Print, PrintVals;
    var a := p + |b.key|;
    var q := a + |b.gap|;
    var r := q + |PrintVals(b.vals)|;
    var z1 := b.tail + Print(b.next);
    var z2 := [SEMI] + z1;
    var z3 := PrintVals(b.vals) + z2;
    var z4 := b.gap + z3;
    PrintOfItem(b);
    Holds2(s, p, b.key, z4, Print(b));
    Holds2(s, a, b.gap, z3, z4);
    Holds2(s, q, PrintVals(b.vals), z2, z3);
    Holds2(s, r, [SEMI], z1, z2);
    Holds2(s, r + 1, b.tail, Print(b.next), z1);
  }

  lemma {:induction false} PrintOfItem(b: Block)
    requires b.Item?
    ensures Print(b) == b.key + (b.gap + (PrintVals(b.vals) + ([SEMI] + (b.tail + Print(b.next)))))
  {}

  /** Where the parts of an item stand. */
  lemma ItemParts(s: Text, e: nat, p: nat, b: Block)
    requires b.Item? && Stands(s, e, p, b)
    ensures var a := p + |b.key|;
            var q := a + |b.gap|;
            var r := q + |PrintVals(b.vals)|;
            var t := r + 1 + |b.tail|;
            && p < e <= Nul(s) && s[p] != CLOSE && KeyEnd(s, p) == a && s[p..a] == b.key && SpaceEnd(s, a) == q
            && StandsVals(s, e, q, b.vals) && r < Nul(s) && Past(s, r, SEMI) == r + 1
            && SpaceEnd(s, r + 1) == t && Stands(s, e, t, b.next) && t + |Print(b.next)| == p + |Print(b)|
  {
    hide Holds, Print, PrintVals, Printable, PrintableVals, KeyEnd, SpaceEnd, Spaces, KeyChars;
    var a := p + |b.key|;
    var q := a + |b.gap|;
    var r := q + |PrintVals(b.vals)|;
    var t := r + 1 + |b.tail|;
    ItemHolds(s, p, b);
    ItemPrintable(b);
    HoldsOne(s, r, SEMI);
    FirstOfVals(s, q, b.vals);
    KeyGap(s, p, b);
    GapEnds(s, a, b.gap);
    if b.next.Item? { FirstOfItem(s, t, b.next); } else { NilPrint(b.next); }
    GapEnds(s, r + 1, b.tail);
  }

  lemma {:induction false} ItemPrintable(b: Block)
    requires b.Item? && Printable(b)
    ensures KeyChars(b.key) && |b.key| > 0 && Spaces(b.gap) && PrintableVals(b.vals) && Spaces(b.tail)
    ensures Printable(b.next)
  {}

  lemma {:induction false} FirstOfItem(s: Text, p: nat, b: Block)
    requires b.Item? && Printable(b) && Holds(s, p, Print(b))
    ensures p < |s| && KeyChar(s[p])
  {
    assert s[p] == s[p..p + |Print(b)|][0] == b.key[0];
  }

  lemma KeyGap(s: Text, p: nat, b: Block)
    requires b.Item? && Printable(b) && Holds(s, p, b.key) && Holds(s, p + |b.key|, b.gap)
    requires var q := p + |b.key| + |b.gap|; q <= Nul(s) && (b.vals.Bare? || !KeyChar(s[q]))
    ensures KeyEnd(s, p) == p + |b.key| && s[p..p + |b.key|] == b.key && KeyChar(s[p])
  {
    var a := p + |b.key|;
    if b.gap != [] {
      assert s[a] == s[a..a + |b.gap|][0];
    }
    KeyEnds(s, p, b.key);
  }

  /** Parsing a printed block gives its tree. */
  lemma {:induction false} PrintParses(s: Text, e: nat, p: nat, b: Block)
    requires Stands(s, e, p, b)
    ensures ParseEntries(s, e, p) == Placing(b, p)
    decreases b
  {
    hide *;
    if b.Nil? {
      NilParses(s, e, p, b);
    } else {
      ItemParts(s, e, p, b);
      var q := p + |b.key| + |b.gap|;
      var r := q + |PrintVals(b.vals)|;
      ValsParse(s, e, q, b.vals);
      PlacingValsEnds(b.vals, q);
      PrintParses(s, e, r + 1 + |b.tail|, b.next);
      ItemParses(s, e, p, b);
    }
  }

  lemma {:induction false} NilParses(s: Text, e: nat, p: nat, b: Block)
    requires b.Nil? && Stands(s, e, p, b)
    ensures ParseEntries(s, e, p) == Placing(b, p)
  {}

  lemma ItemParses(s: Text, e: nat, p: nat, b: Block)
    requires b.Item? && Stands(s, e, p, b)
    requires var a := p + |b.key|;
             var q := a + |b.gap|;
             var r := q + |PrintVals(b.vals)|;
             var t := r + 1 + |b.tail|;
             && p < e <= Nul(s) && s[p] != CLOSE && KeyEnd(s, p) == a && s[p..a] == b.key && SpaceEnd(s, a) == q
             && r < Nul(s) && Past(s, r, SEMI) == r + 1 && SpaceEnd(s, r + 1) == t <= Nul(s)
             && PlacingVals(b.vals, q).End() == r
             && ParseValues(s, e, q) == PlacingVals(b.vals, q) && ParseEntries(s, e, t) == Placing(b.next, t)
    ensures ParseEntries(s, e, p) == Placing(b, p)
  {
    hide Holds, Stands, Printable, ParseValues, PlacingVals, PrintVals, Print, Past, KeyEnd, SpaceEnd;
  }

  lemma {:induction false} ValsParse(s: Text, e: nat, p: nat, v: Vals)
    requires StandsVals(s, e, p, v)
    ensures ParseValues(s, e, p) == PlacingVals(v, p)
    decreases v
  {
    hide *;
    match v
    case Last => LastParses(s, e, p, v);
    case Bare(text, gap, rest) =>
      BareParts(s, e, p, v);
      ValsParse(s, e, p + |text| + |gap|, rest);
      ValueParses(s, e, p, v);
    case Str(text, gap, rest) =>
      StrParts(s, e, p, v);
      ValsParse(s, e, p + 1 + |text| + 1 + |gap|, rest);
      ValueParses(s, e, p, v);
    case Sub(lead, body, gap, rest) =>
      SubParts(s, e, p, v);
      PrintParses(s, e, p + 1 + |lead|, body);
      PlacingEnds(body, p + 1 + |lead|);
      ValsParse(s, e, p + 1 + |lead| + |Print(body)| + 1 + |gap|, rest);
      ValueParses(s, e, p, v);
  }

  lemma {:induction false} LastParses(s: Text, e: nat, p: nat, v: Vals)
    requires v.Last? && StandsVals(s, e, p, v)
    ensures ParseValues(s, e, p) == PlacingVals(v, p)
  {}

  /** Behind the first of some printed values and its gap. */
  function Behind(v: Vals, p: nat): nat
    requires !v.Last?
  {
    match v
    case Bare(text, gap, _) => p + |text| + |gap|
    case Str(text, gap, _) => p + 1 + |text| + 1 + |gap|
    case Sub(lead, body, gap, _) => p + 1 + |lead| + |Print(body)| + 1 + |gap|
  }

  lemma {:induction false} ValueParses(s: Text, e: nat, p: nat, v: Vals)
    requires !v.Last? && p < e <= Nul(s) && Behind(v, p) <= Nul(s)
    requires ParseValues(s, e, Behind(v, p)) == PlacingVals(v.rest, Behind(v, p))
    requires v.Bare? ==> KeyChar(s[p]) && SpaceEnd(s, KeyEnd(s, p + 1)) == Behind(v, p)
    requires v.Str? ==> s[p] == QUOTE && SpaceEnd(s, StringEnd(s, p + 1)) == Behind(v, p)
    requires v.Sub? ==>
               var b := p + 1 + |v.lead|;
               var c := b + |Print(v.body)|;
               && s[p] == OPEN && SpaceEnd(s, p + 1) == b <= Nul(s) && ParseEntries(s, e, b) == Placing(v.body, b)
               && Placing(v.body, b).End() == c < Nul(s) && s[c] == CLOSE && SpaceEnd(s, c + 1) == Behind(v, p)
    ensures ParseValues(s, e, p) == PlacingVals(v, p)
  {
    hide SpaceEnd, KeyEnd, StringEnd, ParseEntries, Print, Placing;
  }

  lemma {:induction false} ValsHold(s: Text, p: nat, v: Vals)
    requires !v.Last? && Holds(s, p, PrintVals(v))
    ensures Holds(s, Behind(v, p), PrintVals(v.rest)) && Behind(v, p) == p + |PrintVals(v)| - |PrintVals(v.rest)|
    ensures Behind(v, p) >= |v.gap| && Holds(s, Behind(v, p) - |v.gap|, v.gap)
    ensures v.Bare? ==> Holds(s, p, v.text)
    ensures v.Str? ==> Holds(s, p, [QUOTE]) && Holds(s, p + 1, v.text) && Holds(s, p + 1 + |v.text|, [QUOTE])
    ensures v.Sub? ==>
              && Holds(s, p, [OPEN]) && Holds(s, p + 1, v.lead) && Holds(s, p + 1 + |v.lead|, Print(v.body))
              && Holds(s, p + 1 + |v.lead| + |Print(v.body)|, [CLOSE])
  {
    hide Holds, Print, PrintVals;
    PrintOfVals(v);
    var w := PrintVals(v);
    var z := v.gap + PrintVals(v.rest);
    match v
    case Bare(text, gap, rest) =>
      Holds2(s, p, text, z, w);
      Holds2(s, p + |text|, gap, PrintVals(rest), z);
    case Str(text, gap, rest) =>
      StrHold(s, p, text, z);
      Holds2(s, p + 1 + |text| + 1, gap, PrintVals(rest), z);
    case Sub(lead, body, gap, rest) =>
      SubHold(s, p, lead, Print(body), z);
      Holds2(s, p + 1 + |lead| + |Print(body)| + 1, gap, PrintVals(rest), z);
  }

  lemma {:induction false} PrintOfVals(v: Vals)
    requires !v.Last?
    ensures var z := v.gap + PrintVals(v.rest);
            PrintVals(v) == match v
                            case Bare(text, _, _) => text + z
                            case Str(text, _, _) => [QUOTE] + (text + ([QUOTE] + z))
                            case Sub(lead, body, _, _) => [OPEN] + (lead + (Print(body) + ([CLOSE] + z)))
  {}

  lemma StrHold(s: Text, p: nat, text: seq<nat>, z: seq<nat>)
    requires Holds(s, p, [QUOTE] + (text + ([QUOTE] + z)))
    ensures Holds(s, p, [QUOTE]) && Holds(s, p + 1, text) && Holds(s, p + 1 + |text|, [QUOTE])
    ensures Holds(s, p + 1 + |text| + 1, z)
  {
    hide Holds;
    HoldsSplit(s, p, [QUOTE], text + ([QUOTE] + z));
    HoldsSplit(s, p + 1, text, [QUOTE] + z);
    HoldsSplit(s, p + 1 + |text|, [QUOTE], z);
  }

  lemma SubHold(s: Text, p: nat, lead: seq<nat>, body: seq<nat>, z: seq<nat>)
    requires Holds(s, p, [OPEN] + (lead + (body + ([CLOSE] + z))))
    ensures Holds(s, p, [OPEN]) && Holds(s, p + 1, lead) && Holds(s, p + 1 + |lead|, body)
    ensures Holds(s, p + 1 + |lead| + |body|, [CLOSE]) && Holds(s, p + 1 + |lead| + |body| + 1, z)
  {
    hide Holds;
    HoldsSplit(s, p, [OPEN], lead + (body + ([CLOSE] + z)));
    HoldsSplit(s, p + 1, lead, body + ([CLOSE] + z));
    HoldsSplit(s, p + 1 + |lead|, body, [CLOSE] + z);
    HoldsSplit(s, p + 1 + |lead| + |body|, [CLOSE], z);
  }

  lemma {:induction false} VRest(v: Vals)
    requires PrintableVals(v) && !v.Last?
    ensures PrintableVals(v.rest) && Spaces(v.gap)
    ensures v.Bare? ==> KeyChars(v.text) && |v.text| > 0 && (v.rest.Bare? ==> v.gap != [])
    ensures v.Str? ==> Quotable(v.text)
    ensures v.Sub? ==> Spaces(v.lead) && Printable(v.body)
  {}

  /** What follows the first value: white space, then the other values. */
  lemma {:induction false} RestStands(s: Text, e: nat, p: nat, v: Vals)
    requires !v.Last? && StandsVals(s, e, p, v)
    ensures var q := Behind(v, p);
            && |v.gap| <= q && p <= q - |v.gap| && q < e && SpaceEnd(s, q - |v.gap|) == q && StandsVals(s, e, q, v.rest)
            && (v.gap != [] ==> IsSpace(s[q - |v.gap|]))
            && !IsSpace(s[q]) && (v.rest.Bare? || !KeyChar(s[q]))
  {
    hide Holds, Print, PrintVals, Printable, PrintableVals, SpaceEnd, Spaces;
    VRest(v);
    ValsHold(s, p, v);
    var q := Behind(v, p);
    FirstOfVals(s, q, v.rest);
    GapEnds(s, q - |v.gap|, v.gap);
    FirstSpace(s, q - |v.gap|, v.gap);
  }

  lemma FirstSpace(s: Text, p: nat, gap: seq<nat>)
    requires Holds(s, p, gap) && Spaces(gap)
    ensures gap != [] ==> p < |s| && IsSpace(s[p])
  {
    if gap != [] {
      assert s[p] == s[p..p + |gap|][0];
    }
  }

  lemma BareParts(s: Text, e: nat, p: nat, v: Vals)
    requires v.Bare? && StandsVals(s, e, p, v)
    ensures var a := p + |v.text|;
            && p < e <= Nul(s) && KeyChar(s[p]) && KeyEnd(s, p + 1) == a == KeyEnd(s, p) && Behind(v, p) == a + |v.gap|
            && SpaceEnd(s, a) == Behind(v, p) && StandsVals(s, e, Behind(v, p), v.rest) && Behind(v, p) <= Nul(s)
  {
    hide Holds, Print, PrintVals, Printable, PrintableVals, SpaceEnd, KeyEnd, Spaces, KeyChars;
    VRest(v);
    ValsHold(s, p, v);
    RestStands(s, e, p, v);
    KeyEnds(s, p, v.text);
  }

  lemma StrParts(s: Text, e: nat, p: nat, v: Vals)
    requires v.Str? && StandsVals(s, e, p, v)
    ensures var a := p + 1 + |v.text| + 1;
            && p < e <= Nul(s) && s[p] == QUOTE && StringEnd(s, p + 1) == a && Behind(v, p) == a + |v.gap|
            && SpaceEnd(s, a) == Behind(v, p) && StandsVals(s, e, Behind(v, p), v.rest) && Behind(v, p) <= Nul(s)
            && Holds(s, p + 1, v.text) && s[a - 1] == QUOTE
  {
    hide Holds, Print, PrintVals, Printable, PrintableVals, SpaceEnd, StringEnd, Spaces;
    VRest(v);
    ValsHold(s, p, v);
    RestStands(s, e, p, v);
    HoldsOne(s, p, QUOTE);
    HoldsOne(s, p + 1 + |v.text|, QUOTE);
    StrEnds(s, p + 1, v.text);
  }

  lemma SubParts(s: Text, e: nat, p: nat, v: Vals)
    requires v.Sub? && StandsVals(s, e, p, v)
    ensures var b := p + 1 + |v.lead|;
            var c := b + |Print(v.body)|;
            && p < e <= Nul(s) && s[p] == OPEN && SpaceEnd(s, p + 1) == b <= Nul(s) && Stands(s, e, b, v.body)
            && c < Nul(s) && s[c] == CLOSE && Behind(v, p) == c + 1 + |v.gap|
            && SpaceEnd(s, c + 1) == Behind(v, p) && StandsVals(s, e, Behind(v, p), v.rest) && Behind(v, p) <= Nul(s)
  {
    hide Holds, Print, PrintVals, Printable, PrintableVals, SpaceEnd, Spaces;
    var b := p + 1 + |v.lead|;
    var c := b + |Print(v.body)|;
    VRest(v);
    ValsHold(s, p, v);
    RestStands(s, e, p, v);
    HoldsOne(s, p, OPEN);
    HoldsOne(s, c, CLOSE);
    if v.body.Item? { FirstOfItem(s, b, v.body); } else { NilPrint(v.body); }
    GapEnds(s, p + 1, v.lead);
  }

  lemma {:induction false} NilPrint(b: Block)
    requires b.Nil?
    ensures Print(b) == []
  {}

  // ----- lookup in a printed tree -----

  datatype Plain = Absent | AWord(text: seq<nat>) | AString(text: seq<nat>)

  function PlainOf(v: Vals): Plain {
    match v
    case Last => Absent
    case Bare(text, _, _) => AWord(text)
    case Str(text, _, _) => AString(text)
    case Sub(_, _, _, rest) => PlainOf(rest)
  }

  datatype SubBlock = NoSub | TheSub(b: Block)

  function SubOf(v: Vals): (r: SubBlock)
    ensures r.TheSub? ==> r.b < v
  {
    match v
    case Last => NoSub
    case Bare(_, _, rest) => SubOf(rest)
    case Str(_, _, rest) => SubOf(rest)
    case Sub(_, body, _, _) => TheSub(body)
  }

  /** The value a dotted name has in a tree: the first plain value of the first entry of that name, or the
    value that the rest of the name has in the first block whose key is a dotted prefix. */
  function Find(b: Block, name: seq<nat>): Plain {
    match b
    case Nil => Absent
    case Item(key, _, vals, _, next) =>
      if key == name && !PlainOf(vals).Absent? then PlainOf(vals)
      else if DottedPrefix(key, name) && SubOf(vals).TheSub? then Find(SubOf(vals).b, name[|key| + 1..])
      else Find(next, name)
  }

  /** The name of the first entry is that of its value; behind the name and a dot stand the names in its block;
    names that are neither are looked up in the entries behind it. */
  lemma {:induction false} FindLaws(b: Block, name: seq<nat>)
    requires b.Item?
    ensures !PlainOf(b.vals).Absent? ==> Find(b, b.key) == PlainOf(b.vals)
    ensures SubOf(b.vals).TheSub? ==> Find(b, b.key + ['.' as int] + name) == Find(SubOf(b.vals).b, name)
    ensures name != b.key && !(b.key + ['.' as int] <= name) ==> Find(b, name) == Find(b.next, name)
  {
    var inner := b.key + ['.' as int] + name;
    assert inner[..|b.key|] == b.key && inner[|b.key| + 1..] == name && inner[|b.key|] == '.' as int;
    if DottedPrefix(b.key, name) {
      assert name[..|b.key| + 1] == b.key + ['.' as int];
    }
  }

  /** Does the search for name enter a nested block? */
  predicate Commits(b: Block, name: seq<nat>) {
    match b
    case Nil => false
    case Item(key, _, vals, _, next) =>
      if key == name && !PlainOf(vals).Absent? then false
      else (DottedPrefix(key, name) && SubOf(vals).TheSub?) || Commits(next, name)
  }

  /** Plain value x stands in s at pos. */
  predicate ValueAt(s: Text, e: nat, pos: nat, x: Plain)
    requires e <= Nul(s)
  {
    && pos < e
    && match x
       case Absent => false
       case AWord(text) => Holds(s, pos, text) && KeyChar(s[pos]) && KeyEnd(s, pos) == pos + |text|
       case AString(text) =>
         s[pos] == QUOTE && Holds(s, pos + 1, text) && pos + 2 + |text| <= Nul(s) && s[pos + 1 + |text|] == QUOTE
         && Quotable(text)
  }

  lemma {:induction false} PlainPlaced(s: Text, e: nat, p: nat, v: Vals)
    requires StandsVals(s, e, p, v)
    ensures e <= Nul(s)
    ensures var f := FirstPlain(PlacingVals(v, p));
            && f.Nowhere? == PlainOf(v).Absent?
            && (f.At? ==> p <= f.pos < p + |PrintVals(v)| && ValueAt(s, e, f.pos, PlainOf(v)))
    decreases v
  {
    hide Holds, Print, PrintVals, Printable, PrintableVals, SpaceEnd, KeyEnd, StringEnd, Spaces, KeyChars, Quotable;
    match v
    case Last =>
    case Bare(_, _, _) =>
      BareParts(s, e, p, v);
      ValsHold(s, p, v);
      VRest(v);
    case Str(_, _, _) =>
      StrParts(s, e, p, v);
      ValsHold(s, p, v);
      VRest(v);
    case Sub(_, _, _, rest) =>
      SubParts(s, e, p, v);
      ValsHold(s, p, v);
      PlainPlaced(s, e, Behind(v, p), rest);
  }

  lemma {:induction false} SubPlaced(s: Text, e: nat, p: nat, v: Vals) returns (q: nat)
    requires StandsVals(s, e, p, v)
    ensures FirstBlock(PlacingVals(v, p)).Body? == SubOf(v).TheSub?
    ensures SubOf(v).TheSub? ==>
              && FirstBlock(PlacingVals(v, p)).es == Placing(SubOf(v).b, q) && Stands(s, e, q, SubOf(v).b)
              && p < q && q + |Print(SubOf(v).b)| < p + |PrintVals(v)|
              && q + |Print(SubOf(v).b)| < |s| && s[q + |Print(SubOf(v).b)|] == CLOSE
    decreases v
  {
    hide Holds, Print, PrintVals, Printable, PrintableVals, SpaceEnd, KeyEnd, StringEnd, Spaces, KeyChars, Quotable,
      Placing;
    match v
    case Last => q := 0;
    case Bare(text, gap, rest) =>
      BareParts(s, e, p, v);
      ValsHold(s, p, v);
      q := SubPlaced(s, e, Behind(v, p), rest);
    case Str(text, gap, rest) =>
      StrParts(s, e, p, v);
      ValsHold(s, p, v);
      q := SubPlaced(s, e, Behind(v, p), rest);
    case Sub(lead, body, _, _) =>
      SubParts(s, e, p, v);
      ValsHold(s, p, v);
      q := p + 1 + |lead|;
  }

  /** The lookup in the parse tree of a printed block finds the text of the value the name has in it.
    Without a value it stops where the block it last entered ends. */
  lemma {:induction false} LookupFinds(s: Text, e: nat, p: nat, b: Block, name: seq<nat>)
    requires Stands(s, e, p, b)
    ensures e <= Nul(s)
    ensures var pos := Lookup(Placing(b, p), name);
            var end := p + |Print(b)|;
            if !Find(b, name).Absent? then ValueAt(s, e, pos, Find(b, name))
            else if Commits(b, name) then pos < end && s[pos] == CLOSE
            else pos == end
    decreases b
  {
    hide *;
    if b.Nil? {
      NilLookup(s, e, p, b, name);
    } else {
      ItemParts(s, e, p, b);
      var q := p + |b.key| + |b.gap|;
      var t := q + |PrintVals(b.vals)| + 1 + |b.tail|;
      PlainPlaced(s, e, q, b.vals);
      var m := SubPlaced(s, e, q, b.vals);
      ItemLookup(b, p, name);
      match Branch(b, name)
      case 0 =>
      case 1 => LookupFinds(s, e, m, SubOf(b.vals).b, name[|b.key| + 1..]);
      case _ => LookupFinds(s, e, t, b.next, name);
    }
  }

  lemma {:induction false} NilLookup(s: Text, e: nat, p: nat, b: Block, name: seq<nat>)
    requires b.Nil? && Stands(s, e, p, b)
    ensures e <= Nul(s) && Lookup(Placing(b, p), name) == p + |Print(b)| && Find(b, name).Absent? && !Commits(b, name)
  {}

  /** What an item does for a name: it is its value, it is entered, or it is passed over. */
  function Branch(b: Block, name: seq<nat>): (k: nat)
    requires b.Item?
    ensures k == 1 ==> |b.key| < |name| && SubOf(b.vals).TheSub?
  {
    if b.key == name && !PlainOf(b.vals).Absent? then 0
    else if DottedPrefix(b.key, name) && SubOf(b.vals).TheSub? then 1
    else 2
  }

  lemma ItemLookup(b: Block, p: nat, name: seq<nat>)
    requires b.Item?
    requires var q := p + |b.key| + |b.gap|;
             && FirstPlain(PlacingVals(b.vals, q)).Nowhere? == PlainOf(b.vals).Absent?
             && FirstBlock(PlacingVals(b.vals, q)).Body? == SubOf(b.vals).TheSub?
    ensures var q := p + |b.key| + |b.gap|;
            var t := q + |PrintVals(b.vals)| + 1 + |b.tail|;
            var pos := Lookup(Placing(b, p), name);
            match Branch(b, name)
            case 0 =>
              && FirstPlain(PlacingVals(b.vals, q)) == At(pos)
              && Find(b, name) == PlainOf(b.vals) && !Find(b, name).Absent? && !Commits(b, name)
            case 1 =>
              && pos == Lookup(FirstBlock(PlacingVals(b.vals, q)).es, name[|b.key| + 1..])
              && Find(b, name) == Find(SubOf(b.vals).b, name[|b.key| + 1..]) && Commits(b, name)
            case _ =>
              pos == Lookup(Placing(b.next, t), name) && Find(b, name) == Find(b.next, name)
              && Commits(b, name) == Commits(b.next, name)
  {
    hide PlacingVals, PrintVals, FirstPlain, FirstBlock, PlainOf, SubOf, DottedPrefix;
  }
}
