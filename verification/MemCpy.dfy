/** memcpy: byte peel to a register boundary, blocks of 16 registers, byte tail. */
module MemCpy {
  import opened Arith
  import opened Bits
  import opened WordAtATime
  import opened Xlen

  /** The byte loops at labels 1 and 5, up to source address end.  An end that has wrapped to 0 stops them
    after one byte. */
  method CopyBytes(mem: array<byte>, t6: nat, a1: nat, end: nat, xl: Width) returns (t6': nat, a1': nat)
    requires a1 < end <= mem.Length && end <= xl.M() && t6 + (end - a1) <= mem.Length
    requires t6 <= a1 || end <= t6
    modifies mem
    ensures a1' == (if end < xl.M() then end else a1 + 1) && t6' == t6 + (a1' - a1)
    ensures Copied(mem[..], old(mem[..]), t6, a1, a1' - a1)
  {
    t6', a1' := t6, a1;
    var a3 := xl.Reg(end);
    var again := true;
    while again
      invariant a1 <= a1' <= end && t6' - t6 == a1' - a1 && again == (a1' == a1 || a1' < a3)
      invariant again || a1' == if end < xl.M() then end else a1 + 1
      invariant Copied(mem[..], old(mem[..]), t6, a1, a1' - a1)
      decreases end - a1'
    {
      var a5 := mem[a1'];
      a1' := a1' + 1;
      mem[t6'] := a5;
      t6' := t6' + 1;
      again := xl.Reg(a1') < a3;
    }
  }

  /** Loads `count` consecutive registers. */
  method LoadRegisters(mem: array<byte>, a1: nat, count: nat, sz: nat) returns (regs: seq<nat>)
    requires sz > 0 && a1 % sz == 0 && a1 + count * sz <= mem.Length
    ensures |regs| == count && Loaded(regs, mem[..], a1, sz)
  {
    regs := [];
    for j := 0 to count
      invariant |regs| == j && Loaded(regs, mem[..], a1, sz)
    {
      MulMono(j + 1, count, sz);
      MulMono(0, j, sz);
      Distrib(j, -1, sz);
      regs := regs + [FromBytes(mem[a1 + j * sz..a1 + j * sz + sz])];
    }
  }

  ghost predicate Loaded(regs: seq<nat>, m: seq<byte>, a1: nat, sz: nat) {
    forall i: nat | i < |regs| :: IsWord(regs[i], m, a1 + i * sz, sz)
  }

  ghost predicate IsWord(v: nat, m: seq<byte>, at: int, sz: nat) {
    0 <= at && at + sz <= |m| && v == FromBytes(m[at..at + sz])
  }

  /** Stores a loaded register at pos, extending the copied region [to, pos) by one word. */
  method StoreLoaded(mem: array<byte>, pos: nat, v: nat, ghost was: seq<byte>, ghost to: nat, ghost from: nat, sz: nat)
    requires sz > 0 && pos % sz == 0 && to <= pos && pos + sz <= mem.Length
    requires Copied(mem[..], was, to, from, pos - to) && IsWord(v, was, from + (pos - to), sz)
    modifies mem
    ensures Copied(mem[..], was, to, from, pos + sz - to)
  {
    ghost var at := from + (pos - to);
    ghost var word := was[at..at + sz];
    forall i: nat | i < sz ensures Byte(v, i) == was[from + (pos + i - to)] { ByteOfBytes(word, i); }
    StoreReg(mem, pos, v, sz);
    forall i | pos <= i < pos + sz
      ensures mem[i] == was[from + (i - to)]
    {
      assert mem[i] == Byte(v, i - pos);
    }
  }

  /** Loads `count` consecutive registers, then stores them: the loads all precede the stores. */
  method CopyRegisters(mem: array<byte>, t6: nat, a1: nat, count: nat, sz: nat)
    requires sz > 0 && a1 % sz == 0 && t6 % sz == 0
    requires a1 + count * sz <= mem.Length && t6 + count * sz <= mem.Length
    modifies mem
    ensures Copied(mem[..], old(mem[..]), t6, a1, count * sz)
  {
    var regs := LoadRegisters(mem, a1, count, sz);
    for j := 0 to count
      invariant Copied(mem[..], old(mem[..]), t6, a1, j * sz)
    {
      MulMono(j + 1, count, sz);
      MulMono(0, j, sz);
      Distrib(j, -1, sz);
      AddMultiple(t6, j, sz);
      StoreLoaded(mem, t6 + j * sz, regs[j], old(mem[..]), t6, a1, sz);
    }
  }

  /** One pass over the block loop: ten registers, then six. */
  method CopyBlock(mem: array<byte>, t6: nat, a1: nat, xl: Width)
    requires a1 % xl.SZREG() == 0 && t6 % xl.SZREG() == 0
    requires a1 + 16 * xl.SZREG() <= mem.Length && t6 + 16 * xl.SZREG() <= mem.Length
    requires t6 <= a1 || a1 + 16 * xl.SZREG() <= t6
    modifies mem
    ensures Copied(mem[..], old(mem[..]), t6, a1, 16 * xl.SZREG())
  {
    hide Copied, Width.SZREG;
    var sz := xl.SZREG();
    CopyRegisters(mem, t6, a1, 10, sz);
    ghost var mid := mem[..];
    AddMultiple(t6, 10, sz);
    AddMultiple(a1, 10, sz);
    CopyRegisters(mem, t6 + 10 * sz, a1 + 10 * sz, 6, sz);
    CopiedJoin(old(mem[..]), mid, mem[..], t6, a1, 10 * sz, 6 * sz);
  }

  lemma NextBlock(left: int, pos: int, end: int, t6: int, xl: Width)
    requires end - pos == left * (16 * xl.SZREG()) && pos < end
    requires pos % xl.SZREG() == 0 && t6 % xl.SZREG() == 0
    ensures 0 < left && pos + 16 * xl.SZREG() <= end
    ensures end - (pos + 16 * xl.SZREG()) == (left - 1) * (16 * xl.SZREG())
    ensures (pos + 16 * xl.SZREG()) % xl.SZREG() == 0 && (t6 + 16 * xl.SZREG()) % xl.SZREG() == 0
  {
    if left <= 0 { MulMono(left, 0, 16 * xl.SZREG()); } else { MulMono(1, left, 16 * xl.SZREG()); }
    Distrib(left, 1, 16 * xl.SZREG());
    AddMultiple(t6, 16, xl.SZREG());
    AddMultiple(pos, 16, xl.SZREG());
  }

  /** Label 3.  An end that has wrapped to 0 stops it after one block. */
  method CopyBlocks(mem: array<byte>, t6: nat, a1: nat, ghost blocks: nat, end: nat, xl: Width)
    returns (t6': nat, a1': nat)
    requires a1 % xl.SZREG() == 0 && t6 % xl.SZREG() == 0
    requires end == a1 + blocks * (16 * xl.SZREG()) && 0 < blocks
    requires end <= mem.Length && end <= xl.M() && t6 + (end - a1) <= mem.Length
    requires t6 <= a1 || end <= t6
    modifies mem
    ensures a1' == (if end < xl.M() then end else a1 + 16 * xl.SZREG()) <= end && t6' == t6 + (a1' - a1)
    ensures Copied(mem[..], old(mem[..]), t6, a1, a1' - a1)
  {
    hide Copied;
    t6', a1' := t6, a1;
    var a3 := xl.Reg(end);
    ghost var left := blocks;
    NothingCopied(mem[..], t6, a1);
    var again := true;
    while again
      invariant a1 <= a1' <= end && t6' - t6 == a1' - a1 && again == (a1' == a1 || a1' < a3)
      invariant again || a1' == if end < xl.M() then end else a1 + 16 * xl.SZREG()
      invariant again && a1' > a1 ==> end < xl.M()
      invariant end - a1' == left * (16 * xl.SZREG())
      invariant a1' % xl.SZREG() == 0 && t6' % xl.SZREG() == 0
      invariant Copied(mem[..], old(mem[..]), t6, a1, a1' - a1)
      decreases end - a1'
    {
      ghost var mid := mem[..];
      NextBlock(left, a1', end, t6', xl);
      CopyBlock(mem, t6', a1', xl);
      CopiedJoin(old(mem[..]), mid, mem[..], t6, a1, a1' - a1, 16 * xl.SZREG());
      a1' := a1' + 16 * xl.SZREG();
      t6' := t6' + 16 * xl.SZREG();
      left := left - 1;
      again := xl.Reg(a1') < a3;
    }
  }

  /** Registers t6 and a1 after the first `done` bytes have been copied. */
  ghost predicate Progress(mem: seq<byte>, was: seq<byte>, to: nat, from: nat, done: nat, t6: nat, a1: nat) {
    t6 == to + done && a1 == from + done && Copied(mem, was, to, from, done)
  }

  /** Label 1: copies up to the next register boundary, unless the pointers are on one. */
  method PeelToBoundary(mem: array<byte>, to: nat, from: nat, n: nat, xl: Width)
    returns (t6: nat, a1: nat, a2: nat)
    requires to + n <= mem.Length && from + n <= mem.Length && mem.Length <= xl.M()
    requires to <= from || from + n <= to
    requires 9 <= n && to % xl.SZREG() == from % xl.SZREG()
    modifies mem
    ensures a2 <= n && Progress(mem[..], old(mem[..]), to, from, n - a2, t6, a1)
    ensures t6 % xl.SZREG() == 0 && a1 == Boundary(from, xl) && a1 % xl.SZREG() == 0
  {
    t6, a1, a2 := to, from, n;
    xl.Aligned(from);
    SamePhase(to, from, xl);
    NextBoundary(from, xl);
    if And(a1, xl.SZREG() - 1) != 0 {
      var a3 := xl.AlignDown(a1) + xl.SZREG();
      var a4 := a3 - a1;
      t6, a1 := CopyBytes(mem, t6, a1, a3, xl);
      a2 := a2 - a4;
    }
  }

  lemma NextBoundary(p: nat, xl: Width)
    ensures Boundary(p, xl) == if p % xl.SZREG() == 0 then p else p - p % xl.SZREG() + xl.SZREG()
  {
    hide Width.SZREG;
    var rest := p % xl.SZREG();
    DivMod(p, xl.SZREG());
    DivMod(Boundary(p, xl), xl.SZREG());
    OneBoundary(p, Boundary(p, xl), p / xl.SZREG(), Boundary(p, xl) / xl.SZREG(), rest, xl.SZREG());
  }

  /** Two multiples of a size that are less than it apart are the same. */
  lemma OneBoundary(p: int, up: int, q: int, k: int, rest: int, size: int)
    requires size > 0 && p == q * size + rest && 0 <= rest < size && up == k * size && p <= up < p + size
    ensures up == if rest == 0 then p else p - rest + size
  {
    Distrib(k, q, size);
    Distrib(k, q + 1, size);
    if k < q { MulMono(k - q, -1, size); }
    if k > q + 1 { MulMono(2, k - q, size); }
  }

  /** Labels 2 and 3: copies as many whole blocks as there are, but one if they end with the address space. */
  method CopyWholeBlocks(mem: array<byte>, t6: nat, a1: nat, a2: nat, ghost was: seq<byte>,
                         ghost to: nat, ghost from: nat, ghost n: nat, xl: Width)
    returns (t6': nat, a1': nat, a2': nat, ghost done: nat)
    requires to + n <= mem.Length && from + n <= mem.Length && mem.Length <= xl.M() && a2 < xl.M()
    requires to <= from || from + n <= to
    requires t6 % xl.SZREG() == 0 && a1 % xl.SZREG() == 0
    requires a2 <= n && Progress(mem[..], was, to, from, n - a2, t6, a1)
    modifies mem
    ensures a2' == a2 - a2 / (16 * xl.SZREG()) * (16 * xl.SZREG())
    ensures done == if from + n == xl.M() && a2' == 0 < a2 then n - a2 + 16 * xl.SZREG() else n - a2'
    ensures done <= n && Progress(mem[..], was, to, from, done, t6', a1')
  {
    hide Copied, And, Width.SZREG, Width.M;
    t6', a1', a2', done := t6, a1, a2, n - a2;
    ghost var mid := mem[..];
    ghost var blocks := xl.BlockSplit(a2);
    if blocks <= 0 { MulMono(blocks, 0, 16 * xl.SZREG()); }
    var a4 := And(a2, xl.M() - 16 * xl.SZREG());
    if a4 != 0 {
      t6', a1' := CopyBlocks(mem, t6, a1, blocks, a1 + a4, xl);
      CopiedJoin(was, mid, mem[..], to, from, n - a2, a1' - a1);
      a2' := And(a2, 16 * xl.SZREG() - 1);
      done := a1' - from;
    }
  }

  /** Labels 4 to 6: the remaining bytes, but one if they end with the address space. */
  method CopyTail(mem: array<byte>, t6: nat, a1: nat, a2: nat, ghost was: seq<byte>,
                  ghost to: nat, ghost from: nat, ghost done: nat, xl: Width)
    requires to + done + a2 <= mem.Length && from + done + a2 <= mem.Length && mem.Length <= xl.M()
    requires to <= from || from + done + a2 <= to
    requires Progress(mem[..], was, to, from, done, t6, a1)
    modifies mem
    ensures Copied(mem[..], was, to, from, done + TailLength(from + done, a2, xl))
  {
    hide Copied, TailLength;
    NoTail(from + done, xl);
    if a2 != 0 {
      ghost var mid := mem[..];
      var _, last := CopyBytes(mem, t6, a1, a1 + a2, xl);
      TailIs(a1, a2, last, xl);
      CopiedJoin(was, mid, mem[..], to, from, done, last - a1);
    }
  }

  /** How many of the last a2 bytes from a1 on are copied. */
  function TailLength(a1: nat, a2: nat, xl: Width): (n: nat)
    ensures n <= a2
  {
    if a2 == 0 || a1 + a2 < xl.M() then a2 else 1
  }

  lemma NoTail(a1: nat, xl: Width)
    ensures TailLength(a1, 0, xl) == 0
  {}

  lemma TailIs(a1: nat, a2: nat, last: nat, xl: Width)
    requires a2 > 0 && last == if a1 + a2 < xl.M() then a1 + a2 else a1 + 1
    ensures last - a1 == TailLength(a1, a2, xl)
  {}

  /** How many bytes memcpy copies: all of them, unless the source ends with the address space. */
  function CopyLength(to: nat, from: nat, n: nat, xl: Width): nat
    requires from < xl.M() && from + n <= xl.M()
  {
    var block := 16 * xl.SZREG();
    var left := xl.M() - Boundary(from, xl);
    if from + n < xl.M() then n
    else if n < 128 || to % xl.SZREG() != from % xl.SZREG() then 1
    else if left % block == 0 then n - left + block
    else n - left % block + 1
  }

  /** So all is copied unless the source ends with the address space and is neither one byte nor, from its
    first register boundary on, one block. */
  lemma CopiesAll(to: nat, from: nat, n: nat, xl: Width)
    requires from < xl.M() && from + n <= xl.M()
    ensures CopyLength(to, from, n, xl) == n <==>
            || from + n < xl.M() || n == 1
            || (n >= 128 && to % xl.SZREG() == from % xl.SZREG() && xl.M() - Boundary(from, xl) == 16 * xl.SZREG())
    ensures CopyLength(to, from, n, xl) <= n
  {
    var left := xl.M() - Boundary(from, xl);
    if from + n == xl.M() && n >= 128 {
      BlocksToTop(Boundary(from, xl), xl);
      if left < 16 * xl.SZREG() { DivUnique(left, 16 * xl.SZREG(), 0, left); }
    }
  }

  /** What lies between a register boundary and the end of the address space is no block and one byte. */
  lemma BlocksToTop(up: nat, xl: Width)
    requires up % xl.SZREG() == 0 && up < xl.M()
    ensures (xl.M() - up) % (16 * xl.SZREG()) != 1 && xl.M() - up >= xl.SZREG()
  {
    if xl.RV32? {
      assert xl.SZREG() == 4;
      if (xl.M() - up) % 64 == 1 { DivMod(xl.M() - up, 64); }
    } else {
      assert xl.SZREG() == 8;
      if (xl.M() - up) % 128 == 1 { DivMod(xl.M() - up, 128); }
    }
  }

  /** `memcpy(to, from, n)`: copies [from, from+n), or what CopyLength leaves of it, to `to`, changes nothing
    else and returns `to`.  The regions may even overlap when the destination starts below the source. */
  method Memcpy(mem: array<byte>, to: nat, from: nat, n: nat, xl: Width) returns (ret: nat)
    requires to + n <= mem.Length && from + n <= mem.Length && mem.Length <= xl.M()
    requires to < xl.M() && from < xl.M() && n < xl.M()
    requires to <= from || from + n <= to
    modifies mem
    ensures ret == to
    ensures Copied(mem[..], old(mem[..]), to, from, CopyLength(to, from, n, xl))
  {
    hide Copied, Boundary, Width.AlignDown, Width.SZREG, Width.M, CopyLength, TailLength;
    ghost var was := mem[..];
    ghost var done := 0;
    var t6, a1, a2 := to, from, n;
    NothingCopied(was, to, from);
    xl.Aligned(from);
    xl.Aligned(to);
    if a2 >= 128 && And(t6, xl.SZREG() - 1) == And(a1, xl.SZREG() - 1) {
      t6, a1, a2 := PeelToBoundary(mem, to, from, n, xl);
      ghost var left := a2;
      t6, a1, a2, done := CopyWholeBlocks(mem, t6, a1, a2, was, to, from, n, xl);
      WordLength(to, from, n, left, a2, done, xl);
    } else {
      ByteLength(to, from, n, xl);
    }
    CopyTail(mem, t6, a1, a2, was, to, from, done, xl);
    ret := to;
  }

  lemma ByteLength(to: nat, from: nat, n: nat, xl: Width)
    requires from < xl.M() && from + n <= xl.M() && (n < 128 || to % xl.SZREG() != from % xl.SZREG())
    ensures TailLength(from, n, xl) == CopyLength(to, from, n, xl)
  {}

  lemma WordLength(to: nat, from: nat, n: nat, left: nat, a2: nat, done: nat, xl: Width)
    requires from < xl.M() && from + n <= xl.M() && n >= 128 && to % xl.SZREG() == from % xl.SZREG()
    requires left <= n && from + n - left == Boundary(from, xl)
    requires a2 == left - left / (16 * xl.SZREG()) * (16 * xl.SZREG()) <= n
    requires done == if from + n == xl.M() && a2 == 0 < left then n - left + 16 * xl.SZREG() else n - a2
    ensures done + TailLength(from + done, a2, xl) == CopyLength(to, from, n, xl)
    ensures done + a2 <= n
  {
    hide Boundary, Width.SZREG;
    DivMod(left, 16 * xl.SZREG());
    LeftEnough(from, n, left, xl);
  }

  lemma LeftEnough(from: nat, n: nat, left: nat, xl: Width)
    requires n >= 128 && left <= n && from + n - left == Boundary(from, xl)
    ensures 0 < left && (left % (16 * xl.SZREG()) == 0 ==> 16 * xl.SZREG() <= left)
  {
    if left < 16 * xl.SZREG() { DivUnique(left, 16 * xl.SZREG(), 0, left); }
  }

  lemma NothingCopied(was: seq<byte>, to: nat, from: nat)
    requires from <= |was|
    ensures Copied(was, was, to, from, 0)
  {}

  /** Peeling the source to a boundary brings an equally misaligned destination to one. */
  lemma SamePhase(to: nat, from: nat, xl: Width)
    requires to % xl.SZREG() == from % xl.SZREG()
    ensures var peel := xl.SZREG() - from % xl.SZREG();
            (to + peel) % xl.SZREG() == 0 && (from + peel) % xl.SZREG() == 0
  {
    DivMod(to, xl.SZREG());
    DivMod(from, xl.SZREG());
    Distrib(to / xl.SZREG(), -1, xl.SZREG());
    Distrib(from / xl.SZREG(), -1, xl.SZREG());
    DivExact(to / xl.SZREG() + 1, xl.SZREG());
    DivExact(from / xl.SZREG() + 1, xl.SZREG());
  }
}
