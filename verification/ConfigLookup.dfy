/** Lookup of a dotted name in a config text: find_key as the source's loops, against a lookup in the
  parsed tree.
 */
module ConfigLookup {
  import opened ConfigText

  /** key + "." is a prefix of name */
  predicate DottedPrefix(key: seq<nat>, name: seq<nat>) {
    |key| < |name| && name[..|key|] == key && name[|key|] == DOT
  }

  datatype Place = Nowhere | At(pos: nat)

  /** The first value of an entry that is a word or a string. */
  function FirstPlain(vs: Values): Place {
    match vs
    case Stop(_) => Nowhere
    case Word(at, _) => At(at)
    case Quoted(at, _) => At(at)
    case Nested(_, _, rest) => FirstPlain(rest)
  }

  datatype Body = NoBody | Body(es: Entries)

  /** The first value of an entry that is a block. */
  function FirstBlock(vs: Values): (r: Body)
    ensures r.Body? ==> r.es < vs
  {
    match vs
    case Stop(_) => NoBody
    case Word(_, rest) => FirstBlock(rest)
    case Quoted(_, rest) => FirstBlock(rest)
    case Nested(_, body, _) => Body(body)
  }

  /** First match: the first entry called name that has a plain value gives that value; the first entry
    whose key is a dotted prefix of name and that has a block commits the lookup to that block.  With
    no match in the block it is committed to, the result is where that block stops. */
  function Lookup(es: Entries, name: seq<nat>): nat {
    match es
    case Done(at) => at
    case Entry(_, _, key, vs, next) =>
      if key == name && FirstPlain(vs).At? then
        FirstPlain(vs).pos
      else if DottedPrefix(key, name) && FirstBlock(vs).Body? then
        Lookup(FirstBlock(vs).es, name[|key| + 1..])
      else
        Lookup(next, name)
  }

  /** What a lookup ends at: the entry that has the value, or the end of the block it was in last. */
  function SearchEnd(es: Entries, name: seq<nat>): Entries {
    match es
    case Done(_) => es
    case Entry(_, _, key, vs, next) =>
      if key == name && FirstPlain(vs).At? then es
      else if DottedPrefix(key, name) && FirstBlock(vs).Body? then SearchEnd(FirstBlock(vs).es, name[|key| + 1..])
      else SearchEnd(next, name)
  }

  /** Does the lookup enter a nested block? */
  predicate Enters(es: Entries, name: seq<nat>) {
    match es
    case Done(_) => false
    case Entry(_, _, key, vs, next) =>
      if key == name && FirstPlain(vs).At? then false
      else (DottedPrefix(key, name) && FirstBlock(vs).Body?) || Enters(next, name)
  }

  /** Where the values of the last entry end. */
  function LastValues(es: Entries, otherwise: nat): nat {
    match es
    case Done(_) => otherwise
    case Entry(_, _, _, vs, next) => LastValues(next, vs.End())
  }

  lemma {:induction false} ValuesParsed(s: Text, e: nat, p: nat) returns (q: nat)
    requires p <= Nul(s) && e <= Nul(s)
    ensures var vs := ParseValues(s, e, p);
            && (FirstPlain(vs).At? ==> p <= FirstPlain(vs).pos < e)
            && (FirstBlock(vs).Body? ==>
                  p < q <= Nul(s) && FirstBlock(vs).es == ParseEntries(s, e, q) && FirstBlock(vs).es.End() <= vs.End())
    decreases Nul(s) - p
  {
    q := 0;
    if p < e && s[p] != SEMI {
      hide ParseEntries, SpaceEnd, StringEnd, KeyEnd;
      if s[p] == OPEN {
        q := SpaceEnd(s, p + 1);
        var _ := ValuesParsed(s, e, SpaceEnd(s, Past(s, ParseBlock(s, e, p + 1).End(), CLOSE)));
      } else {
        q := ValuesParsed(s, e, SpaceEnd(s, if s[p] == QUOTE then StringEnd(s, p + 1) else KeyEnd(s, p + 1)));
      }
    }
  }

  /** Where the lookup of name in es ends: at a value before e, or where a block does, and then before e only
    at a closing brace. */
  predicate Ends(s: Text, e: nat, es: Entries, name: seq<nat>) {
    var last, pos := SearchEnd(es, name), Lookup(es, name);
    && es.End() <= Nul(s)
    && (last.Entry? ==> pos < e && FirstPlain(last.values) == At(pos))
    && (last.Done? ==> pos == last.at <= es.End() && (pos < e ==> s[pos] == CLOSE))
    && (last.Done? ==> if Enters(es, name) then pos <= LastValues(es, 0) else pos == es.End())
    && (es.Entry? ==> LastValues(es, 0) <= es.End())
  }

  lemma {:induction false} LookupEnds(s: Text, e: nat, p: nat, name: seq<nat>)
    requires p <= Nul(s) && e <= Nul(s)
    ensures Ends(s, e, ParseEntries(s, e, p), name)
    decreases Nul(s) - p
  {
    hide ParseEntries, ParseValues, SpaceEnd, KeyEnd, Past, FirstPlain, FirstBlock, Ends, DottedPrefix, LastValues;
    if p >= e || s[p] == CLOSE {
      NoEntryEnds(s, e, p, name);
    } else {
      EntryParses(s, e, p);
      var ke := KeyEnd(s, p);
      var q := ValuesParsed(s, e, SpaceEnd(s, ke));
      var vs := ParseValues(s, e, SpaceEnd(s, ke));
      var next := SpaceEnd(s, Past(s, vs.End(), SEMI));
      LookupEnds(s, e, next, name);
      LastValuesAbove(s, e, next);
      if DottedPrefix(s[p..ke], name) && FirstBlock(vs).Body? {
        PrefixShorter(s[p..ke], name);
        LookupEnds(s, e, q, name[|s[p..ke]| + 1..]);
      }
      EntryEnds(s, e, ParseEntries(s, e, p), name);
    }
  }

  lemma PrefixShorter(key: seq<nat>, name: seq<nat>)
    requires DottedPrefix(key, name)
    ensures |key| < |name|
  {}

  lemma {:induction false} NoEntryEnds(s: Text, e: nat, p: nat, name: seq<nat>)
    requires p <= Nul(s) && e <= Nul(s) && (p >= e || s[p] == CLOSE)
    ensures Ends(s, e, ParseEntries(s, e, p), name)
  {}

  lemma EntryEnds(s: Text, e: nat, es: Entries, name: seq<nat>)
    requires es.Entry? && Ends(s, e, es.next, name) && es.values.End() <= es.next.End()
    requires es.next.Entry? ==> es.values.End() <= LastValues(es.next, 0)
    requires FirstPlain(es.values).At? ==> FirstPlain(es.values).pos < e
    requires DottedPrefix(es.key, name) && FirstBlock(es.values).Body? ==>
               && FirstBlock(es.values).es.End() <= es.values.End()
               && |es.key| < |name| && Ends(s, e, FirstBlock(es.values).es, name[|es.key| + 1..])
    ensures Ends(s, e, es, name)
  {
    LastValuesFrom(es.next, es.values.End(), 0);
  }

  lemma {:induction false} LastValuesAbove(s: Text, e: nat, p: nat)
    requires p <= Nul(s) && e <= Nul(s)
    ensures ParseEntries(s, e, p).Entry? ==> p <= LastValues(ParseEntries(s, e, p), 0)
    decreases Nul(s) - p
  {
    if p < e && s[p] != CLOSE {
      hide ParseEntries, ParseValues, SpaceEnd, KeyEnd;
      EntryParses(s, e, p);
      var vs := ParseValues(s, e, SpaceEnd(s, KeyEnd(s, p)));
      var next := SpaceEnd(s, Past(s, vs.End(), SEMI));
      LastValuesAbove(s, e, next);
      LastValuesFrom(ParseEntries(s, e, next), vs.End(), 0);
    }
  }

  lemma {:induction false} LastValuesFrom(es: Entries, x: nat, y: nat)
    ensures LastValues(es, x) == if es.Entry? then LastValues(es, y) else x
  {}

  lemma {:induction false} EntryParses(s: Text, e: nat, p: nat)
    requires p < e <= Nul(s) && s[p] != CLOSE
    ensures var vs := ParseValues(s, e, SpaceEnd(s, KeyEnd(s, p)));
            && p < SpaceEnd(s, Past(s, vs.End(), SEMI)) && vs.End() <= SpaceEnd(s, Past(s, vs.End(), SEMI))
            && ParseEntries(s, e, p)
               == Entry(p, KeyEnd(s, p), s[p..KeyEnd(s, p)], vs,
                        ParseEntries(s, e, SpaceEnd(s, Past(s, vs.End(), SEMI))))
  {}

  function Answer(es: Entries, name: seq<nat>, take: bool): nat {
    if take then Lookup(es, name) else es.End()
  }

  /** Comparing the common length and then the lengths decides equality and the dotted prefix. */
  lemma MatchFlags(s: seq<nat>, ks: nat, ke: nat, name: seq<nat>)
    requires ks <= ke <= |s|
    ensures var minLen := if ke - ks < |name| then ke - ks else |name|;
            var same := name[..minLen] == s[ks..ks + minLen];
            && (same && ke - ks == |name|) == (s[ks..ke] == name)
            && (same && ke - ks < |name| && name[ke - ks] == DOT) == DottedPrefix(s[ks..ke], name)
  {}

  /** What the values of one entry decide: the position to return, or the block to go on in. */
  datatype Hit = Miss | Here(pos: nat) | In(body: Entries)

  function HitOf(vs: Values, full: bool, prefix: bool): (hit: Hit)
    ensures hit.In? ==> prefix
  {
    match vs
    case Stop(_) => Miss
    case Word(at, rest) => if full then Here(at) else HitOf(rest, full, prefix)
    case Quoted(at, rest) => if full then Here(at) else HitOf(rest, full, prefix)
    case Nested(_, body, rest) => if prefix then In(body) else HitOf(rest, full, prefix)
  }

  lemma {:induction false} HitIsFirst(vs: Values, full: bool, prefix: bool)
    ensures full && !prefix ==> HitOf(vs, full, prefix) == if FirstPlain(vs).At? then Here(FirstPlain(vs).pos) else Miss
    ensures !full && prefix ==> HitOf(vs, full, prefix) == if FirstBlock(vs).Body? then In(FirstBlock(vs).es) else Miss
    ensures !full && !prefix ==> HitOf(vs, full, prefix) == Miss
  {
    match vs
    case Stop(_) =>
    case Word(_, rest) => HitIsFirst(rest, full, prefix);
    case Quoted(_, rest) => HitIsFirst(rest, full, prefix);
    case Nested(_, _, rest) => HitIsFirst(rest, full, prefix);
  }

  /** Where a lookup goes on or ends after the values of one entry. */
  function Resolve(hit: Hit, name: seq<nat>, keyLen: nat, otherwise: nat): nat {
    match hit
    case Here(pos) => pos
    case In(body) => if keyLen < |name| then Lookup(body, name[keyLen + 1..]) else otherwise
    case Miss => otherwise
  }

  /** One turn of the outer loop, on the tree. */
  lemma {:induction false} EntryStep(s: Text, e: nat, p: nat, name: seq<nat>, take: bool)
    requires p < e <= Nul(s) && s[p] != CLOSE
    ensures var key := s[p..KeyEnd(s, p)];
            var vs := ParseValues(s, e, SpaceEnd(s, KeyEnd(s, p)));
            var hit := HitOf(vs, take && key == name, take && DottedPrefix(key, name));
            var next := SpaceEnd(s, Past(s, vs.End(), SEMI));
            && p < next
            && Answer(ParseEntries(s, e, p), name, take)
               == Resolve(hit, name, |key|, Answer(ParseEntries(s, e, next), name, take))
  {
    var key := s[p..KeyEnd(s, p)];
    var vs := ParseValues(s, e, SpaceEnd(s, KeyEnd(s, p)));
    HitIsFirst(vs, take && key == name, take && DottedPrefix(key, name));
  }

  /** Behind the value at p and the white space after it. */
  function AfterValue(s: Text, e: nat, p: nat): (q: nat)
    requires p < e <= Nul(s) && s[p] != SEMI
    ensures p < q <= Nul(s)
  {
    SpaceEnd(s, if s[p] == QUOTE then StringEnd(s, p + 1)
                else if s[p] == OPEN then Past(s, ParseBlock(s, e, p + 1).End(), CLOSE)
                else KeyEnd(s, p + 1))
  }

  /** One turn of the inner loop, on the tree. */
  lemma {:induction false} ValueStep(s: Text, e: nat, p: nat, full: bool, prefix: bool)
    requires p < e <= Nul(s) && s[p] != SEMI
    ensures var next := AfterValue(s, e, p);
            && ParseValues(s, e, p).End() == ParseValues(s, e, next).End()
            && HitOf(ParseValues(s, e, p), full, prefix)
               == if s[p] == OPEN then
                    if prefix then In(ParseBlock(s, e, p + 1)) else HitOf(ParseValues(s, e, next), full, prefix)
                  else if full then Here(p) else HitOf(ParseValues(s, e, next), full, prefix)
  {}

  lemma {:induction false} ValuesStop(s: Text, e: nat, p: nat, full: bool, prefix: bool)
    requires p <= Nul(s) && e <= Nul(s) && (p >= e || s[p] == SEMI)
    ensures ParseValues(s, e, p).End() == p && HitOf(ParseValues(s, e, p), full, prefix).Miss?
  {}

  lemma {:induction false} EntriesStop(s: Text, e: nat, p: nat, name: seq<nat>, take: bool)
    requires p <= Nul(s) && e <= Nul(s) && (p >= e || s[p] == CLOSE)
    ensures Answer(ParseEntries(s, e, p), name, take) == p
  {}

  /** find_key: with take, the first-match lookup; without, where the block stops. */
  method FindKey(s: Text, e: nat, from: nat, name: seq<nat>, take: bool) returns (start: nat)
    requires from <= Nul(s) && e <= Nul(s)
    ensures start == Answer(ParseBlock(s, e, from), name, take)
    decreases Nul(s) - from, 1
  {
    hide ParseEntries, ParseValues, Lookup, HitOf, Answer, SpaceEnd, KeyEnd, DottedPrefix;
    var len := |name|;
    start := SkipWhitespace(s, from);
    while start < e && s[start] != CLOSE
      invariant from <= start <= Nul(s)
      invariant Answer(ParseBlock(s, e, from), name, take) == Answer(ParseEntries(s, e, start), name, take)
      decreases Nul(s) - start
    {
      var keyStart := start;
      start := SkipKey(s, start);
      var keyEnd := start;
      var keyLen := keyEnd - keyStart;
      var minLen := if keyLen < len then keyLen else len;
      var substrMatch := name[..minLen] == s[keyStart..keyStart + minLen];
      var fullMatch := substrMatch && keyLen == len;
      var prefixMatch := substrMatch && keyLen < len && name[keyLen] == DOT;
      MatchFlags(s, keyStart, keyEnd, name);
      EntryStep(s, e, keyStart, name, take);
      start := SkipWhitespace(s, start);
      var found: bool;
      found, start := FindValue(s, e, start, name, keyLen, take && fullMatch, take && prefixMatch);
      if found {
        return;
      }
      if s[start] == SEMI {
        start := start + 1;
      }
      start := SkipWhitespace(s, start);
    }
    EntriesStop(s, e, start, name, take);
  }

  /** The inner loop of find_key. */
  method FindValue(s: Text, e: nat, from: nat, name: seq<nat>, keyLen: nat, full: bool, prefix: bool)
    returns (found: bool, start: nat)
    requires from <= Nul(s) && e <= Nul(s) && (prefix ==> keyLen < |name|)
    ensures found == !HitOf(ParseValues(s, e, from), full, prefix).Miss?
    ensures start == Resolve(HitOf(ParseValues(s, e, from), full, prefix), name, keyLen, ParseValues(s, e, from).End())
    decreases Nul(s) - from, 0
  {
    hide ParseEntries, ParseValues, ParseBlock, Lookup, HitOf, SpaceEnd, StringEnd, KeyEnd;
    start := from;
    while start < e && s[start] != SEMI
      invariant from <= start <= Nul(s)
      invariant ParseValues(s, e, start).End() == ParseValues(s, e, from).End()
      invariant HitOf(ParseValues(s, e, start), full, prefix) == HitOf(ParseValues(s, e, from), full, prefix)
      decreases Nul(s) - start
    {
      ValueStep(s, e, start, full, prefix);
      if s[start] == QUOTE {
        if full {
          return true, start;
        }
        start := SkipString(s, start + 1);
      } else if s[start] == OPEN {
        if prefix {
          start := FindKey(s, e, start + 1, name[keyLen + 1..], true);
          return true, start;
        } else {
          start := FindKey(s, e, start + 1, [], false);
        }
        if s[start] == CLOSE {
          start := start + 1;
        }
      } else {
        if full {
          return true, start;
        }
        start := SkipKey(s, start + 1);
      }
      start := SkipWhitespace(s, start);
    }
    ValuesStop(s, e, start, full, prefix);
    return false, start;
  }
}
