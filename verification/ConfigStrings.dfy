/** config_string_u64 and config_string_str, on any text and on the text of a printed tree. */
module ConfigStrings {
  import opened ConfigChars
  import opened ConfigLookup
  import opened ConfigNumbers
  import opened ConfigPrint
  import opened ConfigText

  /** archdata.config_start and archdata.config_end, unless one of them is null. */
  datatype Window = NoConfig | Window(start: nat, end: nat) {
    predicate Within(s: Text) { Window? ==> start <= Nul(s) && end <= Nul(s) }
  }

  /** What stands at `at`, before e, is the closing brace of a block. */
  predicate Closed(s: Text, e: nat, at: nat)
    requires e <= Nul(s)
  {
    at < e && s[at] == CLOSE
  }

  /** A name that is found is never reported as missing.  One that is missing is reported (its position is
    not before the end) exactly if no brace before the end closes the block that the search ends in;
    otherwise that brace reads as the number 0 without an error, and as an empty string. */
  lemma {:induction false} MissingNoticed(s: Text, e: nat, p: nat, name: seq<nat>)
    requires p <= Nul(s) && e <= Nul(s)
    ensures var last, pos := SearchEnd(ParseBlock(s, e, p), name), Lookup(ParseBlock(s, e, p), name);
            && (last.Entry? ==> pos < e)
            && (last.Done? ==> pos == last.at <= Nul(s) && (pos < e) == Closed(s, e, last.at))
            && (last.Done? && pos < e ==>
                  U64At(s, pos) == (0, pos) && KeyEnd(s, pos) == pos && StringBytes(s, pos) == [0])
  {
    var last, pos := SearchEnd(ParseBlock(s, e, p), name), Lookup(ParseBlock(s, e, p), name);
    LookupEnds(s, e, SpaceEnd(s, p), name);
    assert Ends(s, e, ParseBlock(s, e, p), name);
    hide SearchEnd, Lookup, ParseEntries;
    if last.Done? && pos < e {
      assert s[pos..pos] + [0] == [0];
    }
  }

  /** config_string_u64; error stands for the two messages. */
  method ConfigStringU64(s: Text, w: Window, key: seq<nat>) returns (result: nat, error: bool)
    requires w.Within(s)
    ensures w.NoConfig? ==> result == 0 && !error
    ensures w.Window? ==>
              var value := Lookup(ParseBlock(s, w.end, w.start), key);
              && error == !(value < w.end && U64At(s, value).1 == KeyEnd(s, value))
              && result == if error then 0 else U64At(s, value).0
    ensures w.Window? ==>
              var last := SearchEnd(ParseBlock(s, w.end, w.start), key);
              last.Done? ==> result == 0 && error == !Closed(s, w.end, last.at)
  {
    hide ParseBlock, Lookup, SearchEnd, U64At, KeyEnd, StringBytes;
    if w.NoConfig? {
      return 0, false;
    }
    MissingNoticed(s, w.end, w.start, key);
    var value := FindKey(s, w.end, w.start, key, true);
    if value >= w.end {
      return 0, true;
    }
    var tail := SkipKey(s, value);
    var rest;
    result, rest := ParseU64(s, value);
    if tail != rest {
      return 0, true;
    }
    return result, false;
  }

  /** config_string_str; dest has room for maxlen bytes.  A missing name gives an empty string; the length
    returned is 0 if it is noticed, and 1 if it is not. */
  method ConfigStringStr(s: Text, w: Window, key: seq<nat>, dest: seq<nat>, maxlen: nat)
    returns (out: nat, dest': seq<nat>)
    requires w.Within(s) && maxlen <= |dest|
    ensures w.Window? ==>
              var value := Lookup(ParseBlock(s, w.end, w.start), key);
              value < w.end ==>
                && value <= Nul(s) && out == |StringBytes(s, value)|
                && dest' == StringBytes(s, value)[..Min(out, maxlen)] + dest[Min(out, maxlen)..]
    ensures w.Window? ==>
              var last := SearchEnd(ParseBlock(s, w.end, w.start), key);
              last.Done? ==>
                && out == (if Closed(s, w.end, last.at) then 1 else 0)
                && dest' == (if maxlen > 0 then [0] + dest[1..] else dest)
    ensures w.NoConfig? ==> out == 0 && dest' == if maxlen > 0 then [0] + dest[1..] else dest
  {
    hide ParseBlock, Lookup, SearchEnd, StringBytes, U64At;
    if w.NoConfig? {
      return 0, if maxlen > 0 then dest[0 := 0] else dest;
    }
    MissingNoticed(s, w.end, w.start, key);
    var value := FindKey(s, w.end, w.start, key, true);
    if value >= w.end {
      return 0, if maxlen > 0 then dest[0 := 0] else dest;
    }
    out, dest' := ParseString(s, value, dest, 0, maxlen);
  }

  /** s is the printed tree b behind some white space. */
  predicate Prints(s: Text, lead: seq<nat>, b: Block) {
    Spaces(lead) && Printable(b) && s == lead + Print(b) + [0]
  }

  /** Parsing undoes printing. */
  lemma {:induction false} ParsePrinted(s: Text, lead: seq<nat>, b: Block)
    requires Prints(s, lead, b)
    ensures Stands(s, Nul(s), |lead|, b) && |lead| + |Print(b)| == Nul(s)
    ensures ParseBlock(s, Nul(s), 0) == Placing(b, |lead|)
  {
    assert s[0..|lead|] == lead && s[|lead|..|lead| + |Print(b)|] == Print(b);
    if b.Item? {
      FirstOfItem(s, |lead|, b);
    }
    GapEnds(s, 0, lead);
    PrintParses(s, Nul(s), |lead|, b);
  }

  /** The bytes of a value: those of a string are written between its quotes. */
  function BytesOf(v: Plain): seq<nat>
    requires !v.Absent?
  {
    if v.AString? then Decode(v.text) else v.text
  }

  /** find_key on a printed tree stands on the value that the name has in the tree, and config_string_str
    then yields the bytes of that value. */
  lemma {:induction false} FoundIsPrinted(s: Text, lead: seq<nat>, b: Block, name: seq<nat>)
    requires Prints(s, lead, b) && !Find(b, name).Absent?
    ensures var pos := Answer(ParseBlock(s, Nul(s), 0), name, true);
            ValueAt(s, Nul(s), pos, Find(b, name)) && StringBytes(s, pos) == BytesOf(Find(b, name)) + [0]
  {
    hide Lookup, Find, Print, Printable, Stands, ParseBlock, StringBytes, ValueAt, Decode;
    ParsePrinted(s, lead, b);
    LookupFinds(s, Nul(s), |lead|, b, name);
    TextOfValue(s, Lookup(Placing(b, |lead|), name), Find(b, name));
  }

  lemma TextOfValue(s: Text, pos: nat, v: Plain)
    requires ValueAt(s, Nul(s), pos, v)
    ensures !v.Absent? && StringBytes(s, pos) == BytesOf(v) + [0]
  {
    if v.AString? {
      hide KeyEnd, QuotedBytes, Decode;
      assert QUOTE !in v.text;
      assert forall i | 0 <= i < |v.text| :: s[pos + 1 + i] == s[pos + 1..pos + 1 + |v.text|][i] == v.text[i];
      QuotedIsDecoded(s, pos + 1, v.text);
    }
  }

  /** In a whole printed tree every nested block is closed, and the outermost is not: a missing name is noticed
    exactly if the search enters no nested block. */
  lemma {:induction false} PrintedMissing(s: Text, lead: seq<nat>, b: Block, name: seq<nat>)
    requires Prints(s, lead, b) && Find(b, name).Absent?
    ensures var pos := Lookup(ParseBlock(s, Nul(s), 0), name);
            && (pos >= Nul(s)) == !Commits(b, name)
            && (Commits(b, name) ==> U64At(s, pos) == (0, pos) && KeyEnd(s, pos) == pos)
  {
    ParsePrinted(s, lead, b);
    LookupFinds(s, Nul(s), |lead|, b, name);
  }

  const AC: seq<nat> := [97, DOT, 99]

  /** "a{b 5;};" as a tree. */
  const AB: Block := Item([97], [], Sub([], Item([98], [32], Bare([53], [], Last), [], Nil), [], Last), [], Nil)

  const AB_TEXT: seq<nat> := [97, OPEN, 98, 32, 53, SEMI, CLOSE, SEMI]

  lemma PrintAb()
    ensures Print(AB) == AB_TEXT && Printable(AB) && Spaces([])
  {
    PrintInner();
    assert PrintVals(AB.vals) == [OPEN, 98, 32, 53, SEMI, CLOSE];
  }

  lemma PrintInner()
    ensures Print(AB.vals.body) == [98, 32, 53, SEMI] && Printable(AB.vals.body)
  {
    assert PrintVals(AB.vals.body.vals) == [53];
  }

  lemma FindAc()
    ensures Find(AB, AC).Absent? && Commits(AB, AC)
  {
    assert AC[..1] == [97] && AC[2..] == [99];
    assert Find(AB.vals.body, [99]).Absent?;
  }

  /** "a{b 5;};" has no a.c, yet the value of a.c reads as 0 without an error. */
  lemma MissingUnnoticed() returns (s: Text)
    ensures s == AB_TEXT + [0] && Prints(s, [], AB) && Find(AB, AC).Absent?
    ensures var pos := Lookup(ParseBlock(s, Nul(s), 0), AC);
            pos < Nul(s) && U64At(s, pos).1 == KeyEnd(s, pos) && U64At(s, pos).0 == 0
  {
    assert forall i | 0 <= i < |AB_TEXT| :: 0 < AB_TEXT[i] < 256;
    s := AB_TEXT + [0];
    PrintAb();
    assert s == [] + Print(AB) + [0];
    FindAc();
    hide *;
    assert Prints(s, [], AB) by { IsPrinted(s); }
    PrintedMissing(s, [], AB, AC);
  }

  lemma IsPrinted(s: Text)
    requires s == [] + Print(AB) + [0] && Printable(AB) && Spaces([])
    ensures Prints(s, [], AB)
  {}
}
