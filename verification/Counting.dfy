/** Counting the true entries of a list of flags. */
module Counting {
  function Count(flags: seq<bool>): nat {
    if flags == [] then 0 else (if flags[0] then 1 else 0) + Count(flags[1..])
  }

  lemma {:induction false} CountJoin(a: seq<bool>, b: seq<bool>)
    ensures Count(a + b) == Count(a) + Count(b)
  {
    if a == [] {
      assert a + b == b;
    } else {
      assert (a + b)[1..] == a[1..] + b;
      CountJoin(a[1..], b);
    }
  }

  lemma {:induction false} CountUpdate(flags: seq<bool>, i: nat, b: bool)
    requires i < |flags|
    ensures Count(flags[i := b]) == Count(flags) - (if flags[i] then 1 else 0) + (if b then 1 else 0)
  {
    if i == 0 {
      assert flags[0 := b][1..] == flags[1..];
    } else {
      assert flags[i := b][1..] == flags[1..][i - 1 := b];
      CountUpdate(flags[1..], i - 1, b);
    }
  }

  lemma {:induction false} CountBounds(flags: seq<bool>)
    ensures Count(flags) <= |flags|
    ensures Count(flags) == 0 <==> forall i | 0 <= i < |flags| :: !flags[i]
    ensures Count(flags) == |flags| ==> forall i | 0 <= i < |flags| :: flags[i]
  {
    if flags != [] {
      CountBounds(flags[1..]);
      assert forall i | 1 <= i < |flags| :: flags[i] == flags[1..][i - 1];
    }
  }

  lemma {:induction false} CountTwo(flags: seq<bool>, i: nat, j: nat)
    requires i < |flags| && j < |flags| && i != j && flags[i] && flags[j]
    ensures Count(flags) >= 2
  {
    CountUpdate(flags, i, false);
    CountBounds(flags[i := false]);
    assert flags[i := false][j];
  }
}
