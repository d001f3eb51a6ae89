/** The two register widths of the architecture, the address masks of its assembly, and memory. */
module Xlen {
  import opened Arith
  import opened Bits
  import opened WordAtATime

  type byte = x: int | 0 <= x < 256

  datatype Width = RV32 | RV64 {
    /** Bytes in a register. */
    function SZREG(): (r: nat)
      ensures r == 4 || r == 8
    {
      if RV32? then 4 else 8
    }

    /** One more than the largest address: registers count modulo this. */
    function M(): nat { if RV32? then 0x1_0000_0000 else 0x1_0000_0000_0000_0000 }

    /** The register that holds the address `end`: behind the last byte of the address space it wraps to 0. */
    function Reg(end: nat): (r: nat)
      requires end <= M()
      ensures r == if end < M() then end else 0
    {
      if end == M() then 0 else end
    }

    function XLEN(): nat { if RV32? then 32 else 64 }

    function LGREG(): nat { if RV32? then 2 else 3 }

    lemma Powers()
      ensures Pow2(LGREG()) == SZREG() && Pow2(XLEN()) == M()
    {
      Pow2Values();
      assert Pow2(2) == 4;
    }

    /** `x & ~(SZREG-1)` */
    function AlignDown(x: nat): (r: nat)
      requires x < M()
      ensures r <= x
    {
      And(x, M() - SZREG())
    }

    lemma {:induction false} Aligned(x: nat)
      requires x < M()
      ensures AlignDown(x) == x - x % SZREG() && And(x, SZREG() - 1) == x % SZREG()
    {
      Powers();
      AlignedTo(x, LGREG(), XLEN());
    }

    /** `x & ~(16*SZREG-1)` and `x & (16*SZREG-1)` split x at a multiple of a 16-register block. */
    lemma BlockSplit(x: nat) returns (blocks: nat)
      requires x < M()
      ensures And(x, M() - 16 * SZREG()) == blocks * (16 * SZREG())
      ensures And(x, 16 * SZREG() - 1) == x - blocks * (16 * SZREG())
      ensures 0 <= x - blocks * (16 * SZREG()) < 16 * SZREG() && blocks == x / (16 * SZREG())
    {
      Powers();
      assert Pow2(6) == 64 && Pow2(7) == 128;
      AlignedTo(x, if RV32? then 6 else 7, XLEN());
      blocks := x / (16 * SZREG());
      DivMod(x, 16 * SZREG());
    }

    /** Rounding up to a register boundary: the least aligned address not below t0. */
    lemma RoundUp(t0: nat)
      requires t0 + SZREG() - 1 < M()
      ensures var up := AlignDown(t0 + SZREG() - 1);
              t0 <= up < t0 + SZREG() && up % SZREG() == 0 && (up == t0 <==> t0 % SZREG() == 0)
    {
      Aligned(t0 + SZREG() - 1);
      if RV32? {
        assert SZREG() == 4;
        RoundUp4(t0);
      } else {
        assert SZREG() == 8;
        RoundUp8(t0);
      }
    }

    /** `x & 31*SZREG`, for x a multiple of SZREG. */
    lemma {:induction false} RoundRemainder(x: nat)
      requires x % SZREG() == 0
      ensures And(x, 31 * SZREG()) == x % (32 * SZREG())
    {
      if RV32? {
        assert SZREG() == 4;
        Remainder4(x);
      } else {
        assert SZREG() == 8;
        Remainder8(x);
      }
    }
  }

  lemma {:induction false} Remainder4(x: nat)
    requires x % 4 == 0
    ensures And(x, 124) == x % 128
  {
    hide And;
    RemainderOf32(x / 4);
    FourTimes(x / 4, 31, x, 124);
  }

  lemma {:induction false} Remainder8(x: nat)
    requires x % 8 == 0
    ensures And(x, 248) == x % 256
  {
    hide And;
    HalfRemainder(x);
    Remainder4(x / 2);
    TwoTimes(x / 2, 124, x, 248);
  }

  lemma HalfRemainder(x: nat)
    requires x % 8 == 0
    ensures x == 2 * (x / 2) && x / 2 % 4 == 0 && x % 256 == 2 * (x / 2 % 128)
  {}

  lemma {:induction false} TwoTimes(x: nat, y: nat, x': nat, y': nat)
    requires x' == 2 * x && y' == 2 * y
    ensures And(x', y') == 2 * And(x, y)
  {
    AndStep(x', y');
  }

  lemma {:induction false} FourTimes(x: nat, y: nat, x': nat, y': nat)
    requires x' == 4 * x && y' == 4 * y
    ensures And(x', y') == 4 * And(x, y)
  {
    TwoTimes(x, y, 2 * x, 2 * y);
    TwoTimes(2 * x, 2 * y, x', y');
  }

  lemma RoundUp4(t0: nat)
    ensures var up := t0 + 3 - (t0 + 3) % 4; t0 <= up < t0 + 4 && up % 4 == 0 && (up == t0 <==> t0 % 4 == 0)
  {}

  lemma RoundUp8(t0: nat)
    ensures var up := t0 + 7 - (t0 + 7) % 8; t0 <= up < t0 + 8 && up % 8 == 0 && (up == t0 <==> t0 % 8 == 0)
  {}

  /** The least register boundary not below p. */
  function Boundary(p: nat, xl: Width): (up: nat)
    ensures p <= up < p + xl.SZREG() && up % xl.SZREG() == 0
  {
    if xl.RV32? then
      RoundUp4(p);
      p + 3 - (p + 3) % 4
    else
      RoundUp8(p);
      p + 7 - (p + 7) % 8
  }

  lemma AlignedTo(x: nat, k: nat, w: nat)
    requires x < Pow2(w) && k <= w
    ensures Pow2(k) <= Pow2(w)
    ensures And(x, Pow2(w) - Pow2(k)) == x - x % Pow2(k) && And(x, Pow2(k) - 1) == x % Pow2(k)
  {
    AndHighMask(x, k, w);
    AndLowMask(x, k);
    ShiftIsDivision(x, k);
  }

  lemma {:induction false} RemainderOf32(q: nat)
    ensures And(q, 31) == q % 32
  {
    var k := 5;
    assert Pow2(k) == 32;
    AndLowMask(q, k);
    ShiftIsDivision(q, k);
  }

  // ----- memory as an array of bytes -----

  /** `now` differs from `was` in [lo, hi) only, where every byte is c. */
  ghost predicate Filled(now: seq<byte>, was: seq<byte>, lo: int, hi: int, c: byte) {
    |now| == |was| && forall i | 0 <= i < |now| :: now[i] == if lo <= i < hi then c else was[i]
  }

  lemma FilledJoin(a: seq<byte>, b: seq<byte>, d: seq<byte>, lo: int, mid: int, hi: int, c: byte)
    requires Filled(b, a, lo, mid, c) && Filled(d, b, mid, hi, c) && lo <= mid <= hi
    ensures Filled(d, a, lo, hi, c)
  {}

  /** `now` differs from `was` in [to, to+n) only, which holds what was at [from, from+n). */
  ghost predicate Copied(now: seq<byte>, was: seq<byte>, to: int, from: int, n: int) {
    && |now| == |was| && 0 <= from && 0 <= n && from + n <= |was|
    && (forall i {:trigger now[i]} | 0 <= i < |now| && !(to <= i < to + n) :: now[i] == was[i])
    && (forall i {:trigger now[i]} | 0 <= i < |now| && to <= i < to + n :: now[i] == was[from + (i - to)])
  }

  /** REG_S: stores the bytes of v, least significant first, at a naturally aligned address. */
  method StoreReg(mem: array<byte>, addr: nat, v: nat, sz: nat)
    requires sz > 0 && addr % sz == 0 && addr + sz <= mem.Length
    modifies mem
    ensures forall i | 0 <= i < mem.Length ::
              mem[i] == if addr <= i < addr + sz then Byte(v, i - addr) else old(mem[i])
  {
    forall i | 0 <= i < sz {
      mem[addr + i] := Byte(v, i);
    }
  }

  /** The register value whose bytes are bs, least significant first. */
  function FromBytes(bs: seq<byte>): nat {
    if bs == [] then 0 else bs[0] + 256 * FromBytes(bs[1..])
  }

  lemma {:induction false} ByteOfBytes(bs: seq<byte>, i: nat)
    requires i < |bs|
    ensures Byte(FromBytes(bs), i) == bs[i]
  {
    assert FromBytes(bs) % 256 == bs[0] && FromBytes(bs) / 256 == FromBytes(bs[1..]);
    if i > 0 { ByteOfBytes(bs[1..], i - 1); }
  }

  /** Copies compose, as long as the first has not overwritten what the second reads. */
  lemma CopiedJoin(a: seq<byte>, b: seq<byte>, d: seq<byte>, to: int, from: int, k: int, l: int)
    requires Copied(b, a, to, from, k) && Copied(d, b, to + k, from + k, l)
    requires to <= from || from + k + l <= to
    ensures Copied(d, a, to, from, k + l)
  {}
}
