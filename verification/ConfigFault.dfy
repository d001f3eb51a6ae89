/** A device root that is a resource block of its parent. */
module ConfigFault {
  import opened ConfigNumbers
  import opened ConfigOrder
  import opened ConfigPrint
  import opened ConfigStrings
  import opened ConfigText
  import opened ConfigTrace

  const INNER: Block := Item([49], [32], Bare([50], [], Last), [],
                             Item(INTERFACE, [32], Bare([120], [], Last), [], Nil))
  const ROOTED: Block := Item(MEM, [], Sub([], INNER, [], Last), [], Nil)

  /** In "mem{1 2;interface x;};" the inner block is a root, and its entry "1 2" follows a null pointer. */
  lemma RootedResourceFaults() returns (s: Text)
    ensures Prints(s, [], ROOTED) && BlockFaults(s, ParseBlock(s, Nul(s), 0), NoFlags)
  {
    hide *;
    s := RootedText();
    RootedBytes(s);
    ParsePrinted(s, [], ROOTED);
    RootedShape();
    TheNumbers(s);
    FaultHere(s, Placing(INNER, 4));
    OuterFault(s, Placing(ROOTED, 0));
  }

  lemma RootedText() returns (s: Text)
    ensures Prints(s, [], ROOTED)
  {
    var inner := [49, 32, 50, SEMI] + (INTERFACE + [32, 120, SEMI]);
    var t := MEM + ([OPEN] + (inner + [CLOSE])) + [SEMI] + [0];
    assert forall i | 0 <= i < |t| - 1 :: 0 < t[i] < 256;
    s := t;
    InnerPrint();
    OuterPrint();
    assert s == [] + Print(ROOTED) + [0];
    hide *;
    InnerPrintable();
  }

  lemma InnerPrint()
    ensures Print(INNER) == [49, 32, 50, SEMI] + (INTERFACE + [32, 120, SEMI])
  {
    assert Print(INNER.next) == INTERFACE + [32, 120, SEMI];
  }

  lemma OuterPrint()
    ensures Print(ROOTED) == MEM + ([OPEN] + (Print(INNER) + [CLOSE])) + [SEMI]
  {
    hide Print, PrintVals;
    var v := ROOTED.vals;
    assert PrintVals(v) == [OPEN] + (Print(INNER) + [CLOSE]) by { SubPrint(v); }
    ItemPrint(ROOTED);
  }

  lemma {:induction false} SubPrint(v: Vals)
    requires v.Sub? && v.lead == [] && v.gap == [] && v.rest.Last?
    ensures PrintVals(v) == [OPEN] + (Print(v.body) + [CLOSE])
  {}

  lemma {:induction false} ItemPrint(b: Block)
    requires b.Item? && b.gap == [] && b.tail == [] && b.next.Nil?
    ensures Print(b) == b.key + PrintVals(b.vals) + [SEMI]
  {}

  lemma InnerPrintable()
    ensures Printable(ROOTED) && Spaces([])
  {
    assert Printable(INNER.next) && Printable(INNER);
  }

  lemma RootedBytes(s: Text)
    requires Prints(s, [], ROOTED)
    ensures Nul(s) >= 8 && s[4] == 49 && s[5] == 32 && s[6] == 50 && s[7] == SEMI
  {
    assert Print(INNER)[..4] == [49, 32, 50, SEMI];
    assert Print(ROOTED) == MEM + ([] + (PrintVals(ROOTED.vals) + [SEMI] + [] + []));
    assert PrintVals(ROOTED.vals) == [OPEN] + Print(INNER) + [CLOSE];
    assert s[4..8] == Print(INNER)[..4];
    assert s[4..8][0] == 49 && s[4..8][1] == 32 && s[4..8][2] == 50 && s[4..8][3] == SEMI;
  }

  lemma RootedShape()
    ensures var es := Placing(ROOTED, 0);
            && es.Entry? && es.key == MEM && es.values.Nested? && es.values.body == Placing(INNER, 4)
    ensures var es := Placing(INNER, 4);
            && es.Entry? && es.ks == 4 && es.ke == 5 && es.values.Word? && es.values.at == 6 && HasIface(es)
  {
    assert HasIface(Placing(INNER.next, 8));
  }

  lemma {:induction false} TheNumbers(s: Text)
    requires Nul(s) >= 8 && s[4] == 49 && s[5] == 32 && s[6] == 50 && s[7] == SEMI
    ensures IsNumber(s, 4, 5) && KeyEnd(s, 6) == 7 && IsNumber(s, 6, 7)
  {
    assert DecStop(s, 5, 1) == (1, 5) && DecStop(s, 7, 2) == (2, 7);
    assert KeyEnd(s, 7) == 7;
  }

  lemma {:induction false} FaultHere(s: Text, es: Entries)
    requires Nul(s) >= 8 && es.Entry? && es.ks == 4 && es.ke == 5 && es.values.Word? && es.values.at == 6
    requires HasIface(es)
    requires IsNumber(s, 4, 5) && KeyEnd(s, 6) == 7 && IsNumber(s, 6, 7)
    ensures BlockFaults(s, es, Mem)
  {
    hide IsNumber, KeyEnd;
    assert ValuesFault(s, es.values, true, FlagsOf(es.key), Key(es.ks, es.ke, es.key));
  }

  lemma {:induction false} OuterFault(s: Text, es: Entries)
    requires es.Entry? && es.key == MEM && es.values.Nested? && BlockFaults(s, es.values.body, Mem)
    ensures BlockFaults(s, es, NoFlags)
  {
    assert ValuesFault(s, es.values, false, Mem, Key(es.ks, es.ke, es.key));
  }
}
