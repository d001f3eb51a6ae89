/** memset: byte peel, value broadcast, computed jump into an unrolled loop, byte tail. */
module MemSet {
  import opened Arith
  import opened Bits
  import opened WordAtATime
  import opened Xlen

  // ----- the broadcast value -----

  lemma {:induction false} ByteOfRepeat(c: byte, n: nat, i: nat)
    requires i < n
    ensures Byte(RepeatByte(c, n), i) == c
  {
    assert RepeatByte(c, n) % 256 == c && RepeatByte(c, n) / 256 == RepeatByte(c, n - 1);
    if i > 0 { ByteOfRepeat(c, n - 1, i - 1); }
  }

  /** Two copies side by side do not overlap: `(x << 8*k) | x`. */
  lemma {:induction false} ShiftedApart(x: nat, y: nat, k: nat)
    requires x < Pow2(k)
    ensures And(y * Pow2(k), x) == 0 && Or(y * Pow2(k), x) == y * Pow2(k) + x
  {
    if k > 0 {
      ShiftedApart(x / 2, y, k - 1);
      DoubleProduct(y, Pow2(k - 1));
      AndStep(y * Pow2(k), x);
      assert y * Pow2(k) / 2 == y * Pow2(k - 1) && y * Pow2(k) % 2 == 0;
    }
    OrDisjoint(y * Pow2(k), x);
  }

  lemma {:induction false} RepeatTwice(c: byte, k: nat, n: nat)
    ensures RepeatByte(c, n) < Pow256(n)
    ensures RepeatByte(c, k + n) == RepeatByte(c, k) * Pow256(n) + RepeatByte(c, n)
  {
    if n > 0 {
      RepeatTwice(c, k, n - 1);
      MulAssoc(RepeatByte(c, k), 256, Pow256(n - 1));
    } else {
      MulAssoc(1, RepeatByte(c, k), 1);
    }
  }

  /** Doubling n copies of a byte with a shift and an or. */
  lemma {:induction false} DoubleCopies(c: byte, n: nat)
    ensures Or(RepeatByte(c, n) * Pow256(n), RepeatByte(c, n)) == RepeatByte(c, 2 * n)
  {
    RepeatTwice(c, n, n);
    Pow256IsPow2(n);
    ShiftedApart(RepeatByte(c, n), RepeatByte(c, n), 8 * n);
  }

  method Broadcast(a1: nat, xl: Width) returns (v: nat)
    ensures v == RepeatByte(a1 % 256, xl.SZREG())
  {
    v := a1 % 256;
    assert v == RepeatByte(a1 % 256, 1);
    DoubleCopies(a1 % 256, 1);
    v := Or(v * 0x100, v);
    DoubleCopies(a1 % 256, 2);
    v := Or(v * 0x1_0000, v);
    if xl.RV64? {
      DoubleCopies(a1 % 256, 4);
      v := Or(v * 0x1_0000_0000, v);
    }
  }

  // ----- the loops -----

  /** The byte loops at labels 1 and 5: store, advance, repeat while below the end.  An end that has wrapped to
    0 stops them after one byte. */
  method FillBytes(mem: array<byte>, t0: nat, end: nat, a1: nat, xl: Width) returns (t0': nat)
    requires t0 < end <= mem.Length && end <= xl.M()
    modifies mem
    ensures t0' == (if end < xl.M() then end else t0 + 1) && Filled(mem[..], old(mem[..]), t0, t0', a1 % 256)
  {
    t0' := t0;
    var a3 := xl.Reg(end);
    var again := true;
    while again
      invariant t0 <= t0' <= end && again == (t0' == t0 || t0' < a3)
      invariant again || t0' == if end < xl.M() then end else t0 + 1
      invariant Filled(mem[..], old(mem[..]), t0, t0', a1 % 256)
      decreases end - t0'
    {
      mem[t0'] := a1 % 256;
      t0' := t0' + 1;
      again := xl.Reg(t0') < a3;
    }
  }

  /** A register pointing k slots before cur, wrapping around below address 0. */
  ghost predicate BackDated(t0: nat, k: nat, cur: nat, xl: Width) {
    t0 < xl.M() && t0 == (cur - k * xl.SZREG()) % xl.M()
  }

  /** The address of slot j, seen from a back-dated register. */
  lemma SlotAddress(t0: nat, k: nat, cur: nat, j: nat, xl: Width)
    requires BackDated(t0, k, cur, xl) && k <= j <= 32
    requires cur % xl.SZREG() == 0 && cur + (j - k) * xl.SZREG() <= xl.M()
    ensures (t0 + j * xl.SZREG()) % xl.M() == xl.Reg(cur + (j - k) * xl.SZREG())
    ensures (cur + (j - k) * xl.SZREG()) % xl.SZREG() == 0
  {
    if xl.RV32? {
      SlotAt(t0, k, cur, j, 4, 0x1_0000_0000);
    } else {
      SlotAt(t0, k, cur, j, 8, 0x1_0000_0000_0000_0000);
    }
  }

  lemma SlotAt(t0: nat, k: nat, cur: nat, j: nat, size: nat, m: nat)
    requires 0 < size && 0 < m && t0 < m && t0 == (cur - k * size) % m && k <= j
    requires cur % size == 0 && cur + (j - k) * size <= m
    ensures (t0 + j * size) % m == if cur + (j - k) * size < m then cur + (j - k) * size else 0
    ensures (cur + (j - k) * size) % size == 0
  {
    DivMod(cur - k * size, m);
    var q := (cur - k * size) / m;
    Distrib(j, k, size);
    assert t0 + j * size == -q * m + (cur + (j - k) * size);
    if cur + (j - k) * size < m {
      DivUnique(t0 + j * size, m, -q, cur + (j - k) * size);
    } else {
      Distrib(1, q, m);
      DivUnique(t0 + j * size, m, 1 - q, 0);
    }
    DivMod(cur, size);
    Distrib(cur / size, j - k, size);
    DivUnique(cur + (j - k) * size, size, cur / size + (j - k), 0);
  }

  method StoreCopies(mem: array<byte>, addr: nat, v: nat, ghost c: byte, xl: Width)
    requires v == RepeatByte(c, xl.SZREG())
    requires addr % xl.SZREG() == 0 && addr + xl.SZREG() <= mem.Length
    modifies mem
    ensures Filled(mem[..], old(mem[..]), addr, addr + xl.SZREG(), c)
  {
    forall i: nat | i < xl.SZREG() ensures Byte(v, i) == c { ByteOfRepeat(c, xl.SZREG(), i); }
    StoreReg(mem, addr, v, xl.SZREG());
  }

  /** `REG_S a1, j*SZREG(t0)` extends the filled region by one word. */
  method StoreSlot(mem: array<byte>, t0: nat, j: nat, v: nat, ghost c: byte, ghost k: nat, ghost cur: nat,
                   ghost was: seq<byte>, xl: Width)
    requires v == RepeatByte(c, xl.SZREG()) && k <= j < 32
    requires cur % xl.SZREG() == 0 && BackDated(t0, k, cur, xl)
    requires cur + (j - k + 1) * xl.SZREG() <= mem.Length
    requires cur + (j - k + 1) * xl.SZREG() <= xl.M()
    requires Filled(mem[..], was, cur, cur + (j - k) * xl.SZREG(), c)
    modifies mem
    ensures Filled(mem[..], was, cur, cur + (j - k + 1) * xl.SZREG(), c)
  {
    Distrib(j - k, -1, xl.SZREG());
    SlotAddress(t0, k, cur, j, xl);
    MulMono(0, j - k, xl.SZREG());
    StoreCopies(mem, (t0 + j * xl.SZREG()) % xl.M(), v, c, xl);
  }

  /** One pass over the unrolled body, entered at store number k.  The pointer t0 may lie below the
    region, even below address 0 (it then holds a wrapped value): only t0 + k*SZREG is the next
    address to fill. */
  method StoreRound(mem: array<byte>, t0: nat, k: nat, v: nat, ghost c: byte, ghost cur: nat, xl: Width)
    returns (t0': nat)
    requires v == RepeatByte(c, xl.SZREG()) && k < 32
    requires cur % xl.SZREG() == 0 && BackDated(t0, k, cur, xl)
    requires cur + (32 - k) * xl.SZREG() <= mem.Length
    requires cur + (32 - k) * xl.SZREG() <= xl.M()
    modifies mem
    ensures t0' == xl.Reg(cur + (32 - k) * xl.SZREG())
    ensures Filled(mem[..], old(mem[..]), cur, cur + (32 - k) * xl.SZREG(), c)
  {
    for j := k to 32
      invariant Filled(mem[..], old(mem[..]), cur, cur + (j - k) * xl.SZREG(), c)
    {
      MulMono(j - k + 1, 32 - k, xl.SZREG());
      StoreSlot(mem, t0, j, v, c, k, cur, old(mem[..]), xl);
    }
    SlotAddress(t0, k, cur, 32, xl);
    t0' := (t0 + 32 * xl.SZREG()) % xl.M();
  }

  /** The computed jump: with `words` left to store, the first pass starts at slot k so that it
    stores words % 32 of them (or 32), and the pointer is moved back by the k slots skipped. */
  method EnterLoop(s: nat, a4: nat, ghost words: nat, xl: Width) returns (t0: nat, k: nat, ghost rounds: nat)
    requires a4 == words * xl.SZREG() && 0 < words && s + a4 <= xl.M()
    ensures k < 32 && BackDated(t0, k, s, xl)
    ensures words == 32 - k + 32 * rounds
  {
    t0 := s;
    k := 0;
    WholeWords(a4, words, xl);
    xl.RoundRemainder(a4);
    var rem := And(a4, 31 * xl.SZREG());
    rounds := if words % 32 == 0 then words / 32 - 1 else words / 32;
    if rem != 0 {
      JumpTarget(s, words % 32, rem, xl);
      var offset := (xl.M() - rem + 32 * xl.SZREG()) % xl.M();
      t0 := (t0 + xl.M() - offset) % xl.M();
      var jump := if xl.RV64? then offset / 2 else offset;
      k := jump / 4;
    }
  }

  /** Instruction j of the loop body stores slot j: 4 bytes of code for SZREG bytes of data. */
  lemma JumpTarget(s: nat, left: nat, rem: nat, xl: Width)
    requires 0 < left < 32 && rem == left * xl.SZREG() && s < xl.M()
    ensures var offset := (xl.M() - rem + 32 * xl.SZREG()) % xl.M();
            && offset == (32 - left) * xl.SZREG() <= xl.M()
            && (if xl.RV64? then offset / 2 else offset) / 4 == 32 - left
            && (s + xl.M() - offset) % xl.M() == (s - offset) % xl.M()
  {
    AddMultiple(s - (32 - left) * xl.SZREG(), 1, xl.M());
    if xl.RV32? {
      DivUnique(0x1_0000_0000 - rem + 128, 0x1_0000_0000, 1, 128 - rem);
    } else {
      DivUnique(0x1_0000_0000_0000_0000 - rem + 256, 0x1_0000_0000_0000_0000, 1, 256 - rem);
    }
  }

  lemma WholeWords(a4: nat, words: nat, xl: Width)
    requires a4 == words * xl.SZREG()
    ensures a4 % xl.SZREG() == 0
    ensures a4 % (32 * xl.SZREG()) == words % 32 * xl.SZREG()
  {
    if xl.RV32? {
      Words4(a4, words);
    } else {
      Words8(a4, words);
    }
  }

  lemma Words4(a4: nat, words: nat)
    requires a4 == words * 4
    ensures a4 % 4 == 0 && a4 % 128 == words % 32 * 4
  {
    DivUnique(a4, 128, words / 32, words % 32 * 4);
  }

  lemma Words8(a4: nat, words: nat)
    requires a4 == words * 8
    ensures a4 % 8 == 0 && a4 % 256 == words % 32 * 8
  {
    DivUnique(a4, 256, words / 32, words % 32 * 8);
  }

  /** The words stored in the first pass. */
  function FirstPass(words: nat): (n: nat)
    requires words > 0
    ensures 0 < n <= words && n <= 32
  {
    (words - 1) % 32 + 1
  }

  /** Duff's device, labels 2 and 3: fills the non-empty run of whole words [s, s + a4).  An end that has
    wrapped to 0 stops it after the first pass. */
  method FillWords(mem: array<byte>, s: nat, a4: nat, v: nat, ghost c: byte, ghost words: nat, xl: Width)
    returns (t0: nat)
    requires v == RepeatByte(c, xl.SZREG())
    requires s % xl.SZREG() == 0 && a4 == words * xl.SZREG() && 0 < words
    requires s + a4 <= mem.Length && s + a4 <= xl.M()
    modifies mem
    ensures s + a4 < xl.M() ==> t0 == s + a4 && Filled(mem[..], old(mem[..]), s, s + a4, c)
    ensures s + a4 == xl.M() ==> Filled(mem[..], old(mem[..]), s, s + FirstPass(words) * xl.SZREG(), c)
  {
    ghost var end := s + a4;
    var a3 := xl.Reg(s + a4);
    var k: nat;
    ghost var rounds: nat;
    t0, k, rounds := EnterLoop(s, a4, words, xl);
    ghost var cur: nat := s;
    var again := true;
    while again
      invariant s <= cur <= end && cur % xl.SZREG() == 0 && k < 32
      invariant again ==> BackDated(t0, k, cur, xl) && end - cur == (32 - k + 32 * rounds) * xl.SZREG()
      invariant again && cur > s ==> end < xl.M()
      invariant again && cur == s ==> 32 - k == FirstPass(words)
      invariant !again && end < xl.M() ==> t0 == cur == end
      invariant !again && end == xl.M() ==> cur == s + FirstPass(words) * xl.SZREG()
      invariant Filled(mem[..], old(mem[..]), s, cur, c)
      decreases end - cur
    {
      ghost var next := NextRound(cur, end, k, rounds, xl);
      t0 := StoreRound(mem, t0, k, v, c, cur, xl);
      cur, k := next, 0;
      again := t0 < a3;
      rounds := if again then rounds - 1 else 0;
    }
  }

  lemma NextRound(cur: nat, a3: nat, k: nat, rounds: nat, xl: Width) returns (next: nat)
    requires cur % xl.SZREG() == 0 && k < 32 && a3 <= xl.M()
    requires a3 - cur == (32 - k + 32 * rounds) * xl.SZREG()
    ensures next == cur + (32 - k) * xl.SZREG() && cur < next <= a3 && next % xl.SZREG() == 0
    ensures next < a3 <==> rounds > 0
    ensures next < a3 ==> a3 - next == 32 * rounds * xl.SZREG()
    ensures next < xl.M() ==> BackDated(next, 0, next, xl)
  {
    next := cur + (32 - k) * xl.SZREG();
    if xl.RV32? {
      assert xl.SZREG() == 4;
      assert next % 4 == 0;
    } else {
      assert xl.SZREG() == 8;
      assert next % 8 == 0;
    }
  }

  lemma WordCount(n: nat, xl: Width) returns (words: nat)
    requires n < xl.M()
    ensures xl.AlignDown(n) == words * xl.SZREG() && And(n, xl.SZREG() - 1) == n - words * xl.SZREG()
    ensures 0 <= n - words * xl.SZREG() < xl.SZREG()
  {
    xl.Aligned(n);
    words := n / xl.SZREG();
    DivMod(n, xl.SZREG());
  }

  lemma BoundaryIs(p: nat, xl: Width)
    requires p + xl.SZREG() - 1 < xl.M()
    ensures xl.AlignDown(p + xl.SZREG() - 1) == Boundary(p, xl)
  {
    xl.Aligned(p + xl.SZREG() - 1);
  }

  /** From a register boundary whole words lead to the end of the address space. */
  lemma WordsToTop(up: nat, xl: Width)
    requires up % xl.SZREG() == 0 && up < xl.M()
    ensures (xl.M() - up) % xl.SZREG() == 0 && (xl.M() - up) / xl.SZREG() * xl.SZREG() == xl.M() - up
    ensures (xl.M() - up) / xl.SZREG() > 0
  {
    if xl.RV32? {
      assert xl.SZREG() == 4;
    } else {
      assert xl.SZREG() == 8;
    }
  }

  /** Where memset stops: behind the region, unless the region ends with the address space. */
  function FillEnd(p: nat, n: nat, xl: Width): nat
    requires p < xl.M() && p + n <= xl.M()
  {
    if p + n < xl.M() then p + n
    else if n < 16 then p + 1
    else
      var up := Boundary(p, xl);
      WordsToTop(up, xl);
      up + FirstPass((xl.M() - up) / xl.SZREG()) * xl.SZREG()
  }

  /** So the whole region is filled unless it ends with the address space and takes more than one byte, if
    it is below 16 bytes, or more than one pass of 32 registers, if it is not. */
  lemma FillsAll(p: nat, n: nat, xl: Width)
    requires p < xl.M() && p + n <= xl.M()
    ensures FillEnd(p, n, xl) == p + n <==>
            p + n < xl.M() || n == 1 || (n >= 16 && xl.M() - Boundary(p, xl) <= 32 * xl.SZREG())
    ensures FillEnd(p, n, xl) <= p + n
  {
    if p + n == xl.M() && n >= 16 {
      var up := Boundary(p, xl);
      WordsToTop(up, xl);
      FirstPassIsAll((xl.M() - up) / xl.SZREG());
      var words := (xl.M() - up) / xl.SZREG();
      if FirstPass(words) < words { MulMono(FirstPass(words) + 1, words, xl.SZREG()); }
      if words <= 32 { MulMono(words, 32, xl.SZREG()); } else { MulMono(33, words, xl.SZREG()); }
      Distrib(FirstPass(words), 1, xl.SZREG());
    }
  }

  lemma FirstPassIsAll(words: nat)
    requires words > 0
    ensures FirstPass(words) == words <==> words <= 32
  {}

  /** Label 1: bytes up to the first register boundary. */
  method PeelFront(mem: array<byte>, p: nat, a1: nat, n: nat, xl: Width) returns (t0: nat, a2: nat)
    requires p < xl.M() && 16 <= n < xl.M() && p + n <= mem.Length && mem.Length <= xl.M()
    modifies mem
    ensures t0 == Boundary(p, xl) && t0 + a2 == p + n && xl.SZREG() <= a2 < xl.M()
    ensures Filled(mem[..], old(mem[..]), p, t0, a1 % 256)
  {
    t0, a2 := p, n;
    BoundaryIs(p, xl);
    var a3 := xl.AlignDown(t0 + xl.SZREG() - 1);
    if a3 != t0 {
      var a4 := a3 - t0;
      t0 := FillBytes(mem, t0, a3, a1, xl);
      a2 := a2 - a4;
    }
  }

  /** Where the words of a region of a2 bytes at a boundary s leave off. */
  function WordsEnd(s: nat, a2: nat, words: nat, xl: Width): nat
    requires words > 0
  {
    if s + a2 < xl.M() then s + words * xl.SZREG() else s + FirstPass(words) * xl.SZREG()
  }

  /** The path of large regions up to the tail: the peel and the words. */
  method FillFront(mem: array<byte>, p: nat, value: nat, n: nat, xl: Width) returns (t0: nat, a1: nat, a2: nat)
    requires p < xl.M() && 16 <= n < xl.M() && p + n <= mem.Length && mem.Length <= xl.M()
    modifies mem
    ensures a1 % 256 == value % 256
    ensures p + n < xl.M() ==> a2 <= n && t0 == p + n - a2 && Filled(mem[..], old(mem[..]), p, t0, value % 256)
    ensures p + n == xl.M() ==> a2 == 0 && Filled(mem[..], old(mem[..]), p, FillEnd(p, n, xl), value % 256)
  {
    hide Filled, FillEnd, Boundary;
    ghost var c: byte := value % 256;
    ghost var was := mem[..];
    t0, a2 := PeelFront(mem, p, value, n, xl);
    a1 := Broadcast(value, xl);
    ByteOfRepeat(c, xl.SZREG(), 0);
    ghost var words := WordCount(a2, xl);
    ghost var s, peeled := t0, mem[..];
    WordsFit(p, n, s, a2, words, xl);
    t0 := FillWords(mem, t0, xl.AlignDown(a2), a1, c, words, xl);
    FilledJoin(was, peeled, mem[..], p, s, WordsEnd(s, a2, words, xl), c);
    a2 := And(a2, xl.SZREG() - 1);
  }

  lemma WordsFit(p: nat, n: nat, s: nat, a2: nat, words: nat, xl: Width)
    requires p < xl.M() && 16 <= n && p + n <= xl.M() && s == Boundary(p, xl) && s + a2 == p + n && xl.SZREG() <= a2
    requires 0 <= a2 - words * xl.SZREG() < xl.SZREG()
    ensures words > 0 && s <= WordsEnd(s, a2, words, xl) && s % xl.SZREG() == 0
    ensures p + n == xl.M() ==>
              && words * xl.SZREG() == a2 && s + words * xl.SZREG() == xl.M()
              && WordsEnd(s, a2, words, xl) == FillEnd(p, n, xl)
    ensures p + n < xl.M() ==> s + words * xl.SZREG() < xl.M()
  {
    hide Width.SZREG, Width.M, Boundary, FirstPass;
    if words == 0 { MulMono(words, 0, xl.SZREG()); } else { MulMono(0, words, xl.SZREG()); }
    if p + n == xl.M() {
      WordsAre(s, a2, words, xl);
      TopEnds(p, n, s, a2, words, xl);
    }
    MulMono(0, FirstPass(words), xl.SZREG());
  }

  lemma TopEnds(p: nat, n: nat, s: nat, a2: nat, words: nat, xl: Width)
    requires p < xl.M() && 16 <= n && p + n == xl.M() && s == Boundary(p, xl) && s + a2 == p + n
    requires words > 0 && words == (xl.M() - s) / xl.SZREG()
    ensures WordsEnd(s, a2, words, xl) == FillEnd(p, n, xl)
  {
    hide Width.SZREG, Width.M, Boundary, FirstPass;
  }

  lemma WordsAre(s: nat, a2: nat, words: nat, xl: Width)
    requires s % xl.SZREG() == 0 && s < xl.M() && s + a2 == xl.M()
    requires 0 <= a2 - words * xl.SZREG() < xl.SZREG()
    ensures words * xl.SZREG() == a2 && words == (xl.M() - s) / xl.SZREG() && words > 0
  {
    WordsToTop(s, xl);
    DivUnique(a2, xl.SZREG(), words, a2 - words * xl.SZREG());
  }

  /** `memset(p, value, n)`: exactly [p, p+n) is set to the low byte of value, or what FillEnd leaves of it. */
  method Memset(mem: array<byte>, p: nat, value: nat, n: nat, xl: Width) returns (ret: nat)
    requires p < xl.M() && n < xl.M() && p + n <= mem.Length && mem.Length <= xl.M()
    modifies mem
    ensures ret == p
    ensures Filled(mem[..], old(mem[..]), p, FillEnd(p, n, xl), value % 256)
  {
    ghost var was := mem[..];
    var t0, a1, a2 := p, value, n;
    if a2 >= 16 {
      t0, a1, a2 := FillFront(mem, p, value, n, xl);
    }
    if a2 != 0 {
      ghost var filled := mem[..];
      ghost var mid := t0;
      t0 := FillBytes(mem, t0, t0 + a2, a1, xl);
      FilledJoin(was, filled, mem[..], p, mid, t0, value % 256);
    }
    ret := p;
  }
}
