/** The text of a config string, its scanners, and the tree that both of its parsers walk.

  A text is a sequence of bytes ending at its only NUL; positions stand for the source's pointers.
  `char` is unsigned.  Parse is the one definition of the grammar: the lookup (find_key) and the
  device scan (parse_config_string) are separate loops, each proved against it.
 */
module ConfigText {

  const QUOTE: nat := 34
  const NEWLINE: nat := 10
  const DOT: nat := 46
  const SEMI: nat := 59
  const OPEN: nat := 123
  const CLOSE: nat := 125

  predicate Terminated(s: seq<nat>) {
    |s| > 0 && s[|s| - 1] == 0 && forall i | 0 <= i < |s| - 1 :: 0 < s[i] < 256
  }

  type Text = s: seq<nat> | Terminated(s) witness [0]

  /** strlen */
  function Nul(s: Text): nat { |s| - 1 }

  predicate IsSpace(c: nat) { 0 < c <= 32 }

  predicate KeyChar(c: nat) { 35 <= c <= 122 && c != SEMI }

  /** White space is every control character and the blank; keys and words are made of the visible ASCII
    characters but seven. */
  lemma CharacterClasses(c: nat)
    ensures IsSpace(c) <==> c != 0 && (c < 32 || c == ' ' as int)
    ensures KeyChar(c) <==>
            && '!' as int <= c <= '~' as int
            && c !in {'!' as int, '\"' as int, ';' as int, '{' as int, '|' as int, '}' as int, '~' as int}
  {}

  // ----- scanners -----

  function SpaceEnd(s: Text, p: nat): (q: nat)
    requires p <= Nul(s)
    ensures p <= q <= Nul(s)
    decreases Nul(s) - p
  {
    if IsSpace(s[p]) then SpaceEnd(s, p + 1) else p
  }

  function LineEnd(s: Text, p: nat): (q: nat)
    requires p <= Nul(s)
    ensures p <= q <= Nul(s)
    decreases Nul(s) - p
  {
    if !IsSpace(s[p]) then p else if s[p] == NEWLINE then p + 1 else LineEnd(s, p + 1)
  }

  function StringEnd(s: Text, p: nat): (q: nat)
    requires p <= Nul(s)
    ensures p <= q <= Nul(s)
    decreases Nul(s) - p
  {
    if s[p] == 0 then p else if s[p] == QUOTE then p + 1 else StringEnd(s, p + 1)
  }

  function KeyEnd(s: Text, p: nat): (q: nat)
    requires p <= Nul(s)
    ensures p <= q <= Nul(s)
    ensures forall i | p <= i < q :: KeyChar(s[i])
    decreases Nul(s) - p
  {
    if KeyChar(s[p]) then KeyEnd(s, p + 1) else p
  }

  /** skip_newline passes the white space up to the first line break, and that line break; without one, all. */
  lemma {:induction false} LineEndIs(s: Text, p: nat)
    requires p <= Nul(s)
    ensures var q := LineEnd(s, p);
            && (forall i | p <= i < q :: IsSpace(s[i])) && (forall i | p <= i < q - 1 :: s[i] != '\n' as int)
            && ((q > p && s[q - 1] == '\n' as int) || !IsSpace(s[q]))
    decreases Nul(s) - p
  {
    if IsSpace(s[p]) && s[p] != NEWLINE { LineEndIs(s, p + 1); }
  }

  /** skip_string without a closing quote goes to the end of the text. */
  lemma {:induction false} StringEndStops(s: Text, p: nat)
    requires p <= Nul(s)
    ensures var q := StringEnd(s, p);
            (q > p && s[q - 1] == '\"' as int) || (q == Nul(s) && forall i | p <= i < q :: s[i] != '\"' as int)
    ensures forall i | p <= i < StringEnd(s, p) - 1 :: s[i] != '\"' as int
    decreases Nul(s) - p
  {
    if s[p] != 0 && s[p] != QUOTE { StringEndStops(s, p + 1); }
  }

  /** skip_whitespace stops at the first byte that is not white space. */
  lemma {:induction false} SpaceEndIs(s: Text, p: nat, q: nat)
    requires p <= q <= Nul(s) && (forall i | p <= i < q :: IsSpace(s[i])) && !IsSpace(s[q])
    ensures SpaceEnd(s, p) == q
    decreases q - p
  {
    if p < q { SpaceEndIs(s, p + 1, q); }
  }

  lemma {:induction false} SpaceEndStops(s: Text, p: nat)
    requires p <= Nul(s)
    ensures !IsSpace(s[SpaceEnd(s, p)])
    ensures forall i | p <= i < SpaceEnd(s, p) :: IsSpace(s[i])
    decreases Nul(s) - p
  {
    if IsSpace(s[p]) { SpaceEndStops(s, p + 1); }
  }

  lemma {:induction false} KeyEndIs(s: Text, p: nat, q: nat)
    requires p <= q <= Nul(s) && (forall i | p <= i < q :: KeyChar(s[i])) && !KeyChar(s[q])
    ensures KeyEnd(s, p) == q
    decreases q - p
  {
    if p < q { KeyEndIs(s, p + 1, q); }
  }

  lemma {:induction false} StringEndIs(s: Text, p: nat, q: nat)
    requires p <= q < Nul(s) && (forall i | p <= i < q :: s[i] != QUOTE) && s[q] == QUOTE
    ensures StringEnd(s, p) == q + 1
    decreases q - p
  {
    if p < q { StringEndIs(s, p + 1, q); }
  }

  /** What skip_newline leaves is white space: the block scan may start with either. */
  lemma {:induction false} SpaceAfterLine(s: Text, p: nat)
    requires p <= Nul(s)
    ensures SpaceEnd(s, LineEnd(s, p)) == SpaceEnd(s, p)
    decreases Nul(s) - p
  {
    if IsSpace(s[p]) && s[p] != NEWLINE { SpaceAfterLine(s, p + 1); }
  }

  method SkipWhitespace(s: Text, p: nat) returns (q: nat)
    requires p <= Nul(s)
    ensures q == SpaceEnd(s, p)
  {
    q := p;
    while s[q] != 0 && s[q] <= 32
      invariant p <= q <= Nul(s) && SpaceEnd(s, p) == SpaceEnd(s, q)
      decreases Nul(s) - q
    {
      q := q + 1;
    }
  }

  method SkipNewline(s: Text, p: nat) returns (q: nat)
    requires p <= Nul(s)
    ensures q == LineEnd(s, p)
  {
    q := p;
    while s[q] != 0 && s[q] <= 32
      invariant p <= q <= Nul(s) && LineEnd(s, p) == LineEnd(s, q)
      decreases Nul(s) - q
    {
      q := q + 1;
      if s[q - 1] == NEWLINE {
        return;
      }
    }
  }

  method SkipString(s: Text, p: nat) returns (q: nat)
    requires p <= Nul(s)
    ensures q == StringEnd(s, p)
  {
    q := p;
    while s[q] != 0
      invariant p <= q <= Nul(s) && StringEnd(s, p) == StringEnd(s, q)
      decreases Nul(s) - q
    {
      q := q + 1;
      if s[q - 1] == QUOTE {
        return;
      }
    }
  }

  method SkipKey(s: Text, p: nat) returns (q: nat)
    requires p <= Nul(s)
    ensures q == KeyEnd(s, p)
  {
    q := p;
    while s[q] >= 35 && s[q] <= 122 && s[q] != SEMI
      invariant p <= q <= Nul(s) && KeyEnd(s, p) == KeyEnd(s, q)
      decreases Nul(s) - q
    {
      q := q + 1;
    }
  }

  // ----- the tree -----

  /** The entries of a block, and at the end the position where the block stops: its closing brace,
    or the end of the text. */
  datatype Entries =
    | Done(at: nat)
    | Entry(ks: nat, ke: nat, key: seq<nat>, values: Values, next: Entries)
  {
    function End(): nat {
      match this
      case Done(at) => at
      case Entry(_, _, _, _, next) => next.End()
    }
  }

  /** The values of an entry, and at the end the position of its semicolon, or of the end. */
  datatype Values =
    | Stop(at: nat)
    | Word(at: nat, rest: Values)
    | Quoted(at: nat, rest: Values)
    | Nested(at: nat, body: Entries, rest: Values)
  {
    function End(): nat {
      match this
      case Stop(at) => at
      case Word(_, rest) => rest.End()
      case Quoted(_, rest) => rest.End()
      case Nested(_, _, rest) => rest.End()
    }
  }

  function Past(s: Text, q: nat, c: nat): (r: nat)
    requires q <= Nul(s) && c > 0
    ensures q <= r <= Nul(s)
  {
    if s[q] == c then q + 1 else q
  }

  function ParseEntries(s: Text, e: nat, p: nat): (es: Entries)
    requires p <= Nul(s) && e <= Nul(s)
    ensures p <= es.End() <= Nul(s)
    ensures !(es.End() < e) || s[es.End()] == CLOSE
    decreases Nul(s) - p, 1
  {
    if p >= e || s[p] == CLOSE then
      Done(p)
    else
      var ke := KeyEnd(s, p);
      var vs := ParseValues(s, e, SpaceEnd(s, ke));
      Entry(p, ke, s[p..ke], vs, ParseEntries(s, e, SpaceEnd(s, Past(s, vs.End(), SEMI))))
  }

  function ParseValues(s: Text, e: nat, p: nat): (vs: Values)
    requires p <= Nul(s) && e <= Nul(s)
    ensures p <= vs.End() <= Nul(s)
    ensures !(vs.End() < e) || s[vs.End()] == SEMI
    ensures p < e && s[p] != SEMI ==> p < vs.End()
    decreases Nul(s) - p, 0
  {
    if p >= e || s[p] == SEMI then
      Stop(p)
    else if s[p] == QUOTE then
      Quoted(p, ParseValues(s, e, SpaceEnd(s, StringEnd(s, p + 1))))
    else if s[p] == OPEN then
      var body := ParseBlock(s, e, p + 1);
      Nested(p, body, ParseValues(s, e, SpaceEnd(s, Past(s, body.End(), CLOSE))))
    else
      Word(p, ParseValues(s, e, SpaceEnd(s, KeyEnd(s, p + 1))))
  }

  /** The block whose contents start at p, in a text taken to end at e. */
  function ParseBlock(s: Text, e: nat, p: nat): (es: Entries)
    requires p <= Nul(s) && e <= Nul(s)
    ensures p <= es.End() <= Nul(s)
    ensures !(es.End() < e) || s[es.End()] == CLOSE
    decreases Nul(s) - p, 2
  {
    ParseEntries(s, e, SpaceEnd(s, p))
  }
}
