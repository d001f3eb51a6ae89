/** Kernel page tables (64-bit, three levels): every address space keeps its own copy of the
  top-level kernel entries of init_mm, filled in lazily by faults on vmalloc addresses. */
module PageTables {
  import Arith

  const PTRS: nat := 512
  const USER_PTRS: nat := 256
  const VMALLOC_START: nat := 0xffff_ffff_7800_0000
  const VMALLOC_END: nat := 0xffff_ffff_7fff_ffff

  function PgdIndex(addr: nat): (i: nat)
    ensures i < PTRS
  {
    addr / 0x4000_0000 % 512
  }

  function PmdIndex(addr: nat): (i: nat)
    ensures i < PTRS
  {
    addr / 0x20_0000 % 512
  }

  function PteIndex(addr: nat): (i: nat)
    ensures i < PTRS
  {
    addr / 0x1000 % 512
  }

  predicate Present(entry: nat) { entry % 2 == 1 }

  /** The page a table entry points to. */
  function Pfn(entry: nat): nat { entry / 1024 }

  /** `(pfn << _PAGE_PFN_SHIFT) | _PAGE_TABLE` */
  function TableEntry(pfn: nat): (e: nat)
    ensures Present(e) && Pfn(e) == pfn
  {
    Arith.DivUnique(pfn * 1024 + 1, 1024, pfn, 1);
    Arith.DivUnique(pfn * 1024 + 1, 2, 512 * pfn, 1);
    pfn * 1024 + 1
  }

  /** A table entry has the page frame number above ten bits, the lowest of which says that it is present. */
  lemma EntryFormat(pfn: nat, low: nat)
    requires low < 0x400
    ensures Pfn(pfn * 0x400 + low) == pfn && Present(pfn * 0x400 + low) == (low % 2 == 1)
    ensures TableEntry(pfn) == pfn * 0x400 + 1
  {
    Arith.DivUnique(pfn * 0x400 + low, 0x400, pfn, low);
    Arith.DivUnique(pfn * 0x400 + low, 2, pfn * 0x200 + low / 2, low % 2);
  }

  /** Physical memory holding page tables, by page frame number. */
  type Pages = map<nat, seq<nat>>

  function Put(table: seq<nat>, i: nat, entry: nat): (t: seq<nat>)
    requires i < |table|
    ensures |t| == |table| && t[i] == entry && forall j | 0 <= j < |t| && j != i :: t[j] == table[j]
  {
    table[..i] + [entry] + table[i + 1..]
  }

  predicate Table(pages: Pages, pfn: nat) { pfn in pages && |pages[pfn]| == PTRS }

  datatype Option<T> = None | Some(value: T)

  function Lookup(pages: Pages, pfn: nat, i: nat): Option<nat>
    requires i < PTRS
  {
    if Table(pages, pfn) && Present(pages[pfn][i]) then Some(pages[pfn][i]) else None
  }

  /** The hardware walk below a top-level entry: the page-table entry, if every level is present. */
  function WalkFrom(pages: Pages, top: nat, addr: nat): Option<nat> {
    if !Present(top) then None
    else match Lookup(pages, Pfn(top), PmdIndex(addr))
         case None => None
         case Some(pmd) => Lookup(pages, Pfn(pmd), PteIndex(addr))
  }

  function Walk(pages: Pages, root: nat, addr: nat): Option<nat> {
    if Table(pages, root) then WalkFrom(pages, pages[root][PgdIndex(addr)], addr) else None
  }

  /** The three indices are nine bits each, above the twelve of the page. */
  lemma AddressParts(i: nat, j: nat, k: nat, offset: nat)
    requires i < PTRS && j < PTRS && k < PTRS && offset < 0x1000
    ensures var addr := i * 0x4000_0000 + j * 0x20_0000 + k * 0x1000 + offset;
            PgdIndex(addr) == i && PmdIndex(addr) == j && PteIndex(addr) == k
  {
    var addr := i * 0x4000_0000 + j * 0x20_0000 + k * 0x1000 + offset;
    Arith.DivUnique(addr, 0x4000_0000, i, j * 0x20_0000 + k * 0x1000 + offset);
    Arith.DivUnique(addr, 0x20_0000, i * 512 + j, k * 0x1000 + offset);
    Arith.DivUnique(addr, 0x1000, (i * 512 + j) * 512 + k, offset);
    Arith.DivUnique(i, 512, 0, i);
    Arith.DivUnique(i * 512 + j, 512, i, j);
    Arith.DivUnique((i * 512 + j) * 512 + k, 512, i * 512 + j, k);
  }

  /** A page whose entry stands at k in the table that stands at j in the table that stands at i in the root
    is found through the root at the address made of i, j and k. */
  lemma WalkFinds(pages: Pages, root: nat, i: nat, j: nat, k: nat, offset: nat, middle: nat, last: nat)
    requires i < PTRS && j < PTRS && k < PTRS && offset < 0x1000
    requires Table(pages, root) && Table(pages, middle) && Table(pages, last) && Present(pages[last][k])
    requires pages[root][i] == TableEntry(middle) && pages[middle][j] == TableEntry(last)
    ensures Walk(pages, root, i * 0x4000_0000 + j * 0x20_0000 + k * 0x1000 + offset) == Some(pages[last][k])
  {
    AddressParts(i, j, k, offset);
  }

  lemma VmallocIsKernelHalf(addr: nat)
    requires VMALLOC_START <= addr <= VMALLOC_END
    ensures PgdIndex(addr) == 509
  {
    assert addr / 0x4000_0000 == 0x3_ffff_fffd;
  }

  // ----- the fault handler -----

  datatype Outcome = BadArea | NoContext | Handled

  class Memory {
    var pages: Pages

    /** set_pgd / set_pmd: one entry of one table. */
    method SetEntry(pfn: nat, i: nat, entry: nat)
      requires Table(pages, pfn) && i < PTRS
      modifies this
      ensures pages == old(pages)[pfn := Put(old(pages)[pfn], i, entry)]
    {
      pages := pages[pfn := Put(pages[pfn], i, entry)];
    }

    /** pgd_alloc on the free page p: clear the user half, copy init_mm's kernel half. */
    method PgdAlloc(p: nat, init: nat)
      requires Table(pages, p) && Table(pages, init) && p != init
      modifies this
      ensures pages == old(pages)[p := NewPgd(old(pages)[p], old(pages)[init])]
      ensures forall addr :: Walk(pages, p, addr) 
                                == if PgdIndex(addr) < USER_PTRS then None else Walk(pages, init, addr)
    {
      pages := pages[p := Zeros(USER_PTRS) + pages[p][USER_PTRS..]];
      pages := pages[p := pages[p][..USER_PTRS] + pages[init][USER_PTRS..]];
      forall addr
        ensures Walk(pages, p, addr) == if PgdIndex(addr) < USER_PTRS then None else Walk(pages, init, addr)
      {
        NewSpaceSees(old(pages), p, old(pages)[p], init, addr);
      }
    }

    /** The vmalloc_fault path of do_page_fault.  `sptbr` is the page of the running address space,
      `init` that of init_mm.  Two table levels above the entries are folded into one, so the
      top-level entry itself is what pud_present tests. */
    method VmallocFault(sptbr: nat, init: nat, addr: nat, userMode: bool) returns (outcome: Outcome)
      requires VMALLOC_START <= addr <= VMALLOC_END
      requires Table(pages, sptbr) && Table(pages, init)
      requires Reachable(pages, init, addr)
      requires LowerTables(pages, {sptbr, init}, pages[init][PgdIndex(addr)], addr)
      modifies this
      ensures userMode ==> outcome == BadArea && pages == old(pages)
      ensures !userMode ==> pages == Synchronised(old(pages), sptbr, init, addr)
      ensures !userMode ==> outcome == if Walk(old(pages), init, addr).Some? then Handled else NoContext
    {
      if userMode {
        return BadArea;
      }
      var index := PgdIndex(addr);
      var pudK := pages[init][index];
      SetEntry(sptbr, index, pudK);
      if !Present(pudK) {
        return NoContext;
      }
      var pud := pages[sptbr][index];
      var pmdK := pages[Pfn(pudK)][PmdIndex(addr)];
      if !Present(pmdK) {
        return NoContext;
      }
      assert Put(pages[Pfn(pud)], PmdIndex(addr), pmdK) == pages[Pfn(pud)];
      SetEntry(Pfn(pud), PmdIndex(addr), pmdK);
      assert pages == Synchronised(old(pages), sptbr, init, addr);
      var pteK := pages[Pfn(pmdK)][PteIndex(addr)];
      if !Present(pteK) {
        return NoContext;
      }
      return Handled;
    }
  }

  /** The tables the reference walk of addr goes through exist. */
  ghost predicate Reachable(pages: Pages, init: nat, addr: nat) {
    Table(pages, init) &&
    var top := pages[init][PgdIndex(addr)];
    Present(top) ==>
      && Table(pages, Pfn(top))
      && var pmd := pages[Pfn(top)][PmdIndex(addr)];
         Present(pmd) ==> Table(pages, Pfn(pmd))
  }

  /** The lower-level tables below a top-level entry are not top-level tables. */
  ghost predicate LowerTables(pages: Pages, roots: set<nat>, top: nat, addr: nat) {
    Present(top) ==>
      && Pfn(top) !in roots
      && (Table(pages, Pfn(top)) ==>
            var pmd := pages[Pfn(top)][PmdIndex(addr)];
            Present(pmd) ==> Pfn(pmd) !in roots)
  }

  /** What the handler does to memory: one top-level entry of the address space is copied. */
  function Synchronised(pages: Pages, sptbr: nat, init: nat, addr: nat): Pages
    requires Table(pages, sptbr) && Table(pages, init)
  {
    pages[sptbr := Put(pages[sptbr], PgdIndex(addr), pages[init][PgdIndex(addr)])]
  }

  /** After the copy both walks of addr agree, and no other entry of any table has changed. */
  lemma SynchronisedWalk(pages: Pages, sptbr: nat, init: nat, addr: nat)
    requires Table(pages, sptbr) && Table(pages, init)
    requires LowerTables(pages, {sptbr, init}, pages[init][PgdIndex(addr)], addr)
    ensures var pages' := Synchronised(pages, sptbr, init, addr);
            && Walk(pages', sptbr, addr) == Walk(pages', init, addr) == Walk(pages, init, addr)
            && pages'.Keys == pages.Keys
            && forall p | p in pages ::
                 |pages'[p]| == |pages[p]|
                 && forall i | 0 <= i < |pages[p]| && !(p == sptbr && i == PgdIndex(addr)) ::
                      pages'[p][i] == pages[p][i]
  {}

  // ----- any run of address-space operations -----

  /** `init` is init_mm's table, `mms` the top-level tables of the address spaces. */
  datatype State = State(pages: Pages, init: nat, mms: set<nat>)

  datatype Step =
    /** pgd_alloc on a free page with arbitrary old contents. */
    | PgdAlloc(p: nat, garbage: seq<nat>)
    /** A new top-level kernel entry in the reference table, with a fresh zeroed table below it. */
    | AddReference(i: nat, page: nat)
    /** Any update of a table that is not a top-level one (vmalloc mappings, user tables). */
    | SetLower(p: nat, i: nat, entry: nat)
    /** An update of a user entry of an address space. */
    | SetUser(p: nat, i: nat, entry: nat)
    /** A kernel-mode fault on a vmalloc address while p is the running address space. */
    | Fault(p: nat, addr: nat)
    /** pgd_free */
    | PgdFree(p: nat)

  predicate Enabled(st: State, step: Step) {
    Table(st.pages, st.init) &&
    match step
    case PgdAlloc(p, garbage) => p !in st.pages && |garbage| == PTRS
    case AddReference(i, page) =>
      USER_PTRS <= i < PTRS && !Present(st.pages[st.init][i]) && page !in st.pages
    case SetLower(p, i, _) => Table(st.pages, p) && p !in st.mms && p != st.init && i < PTRS
    case SetUser(p, i, _) => p in st.mms && Table(st.pages, p) && i < USER_PTRS
    case Fault(p, addr) => (p in st.mms || p == st.init) && Table(st.pages, p) && VMALLOC_START <= addr <= VMALLOC_END
    case PgdFree(p) => p in st.mms
  }

  function Zeros(n: nat): (s: seq<nat>)
    ensures |s| == n && forall i | 0 <= i < n :: s[i] == 0
  {
    seq(n, _ => 0)
  }

  /** pgd_alloc: memset of the user half, memcpy of the kernel half. */
  function NewPgd(garbage: seq<nat>, reference: seq<nat>): (s: seq<nat>)
    requires |garbage| == PTRS == |reference|
    ensures |s| == PTRS && (forall i | 0 <= i < USER_PTRS :: s[i] == 0)
    ensures forall i | USER_PTRS <= i < PTRS :: s[i] == reference[i]
  {
    var cleared := Zeros(USER_PTRS) + garbage[USER_PTRS..];
    cleared[..USER_PTRS] + reference[USER_PTRS..]
  }

  /** Whatever the page held before, a new address space sees no user page, and at every kernel address what
    init_mm sees. */
  lemma NewSpaceSees(pages: Pages, p: nat, garbage: seq<nat>, init: nat, addr: nat)
    requires Table(pages, init) && |garbage| == PTRS && p != init
    ensures var pages' := pages[p := NewPgd(garbage, pages[init])];
            Walk(pages', p, addr) == if PgdIndex(addr) < USER_PTRS then None else Walk(pages', init, addr)
  {}

  function Apply(st: State, step: Step): State
    requires Enabled(st, step)
  {
    match step
    case PgdAlloc(p, garbage) =>
      State(st.pages[p := NewPgd(garbage, st.pages[st.init])], st.init, st.mms + {p})
    case AddReference(i, page) =>
      var pages := st.pages[page := Zeros(PTRS)];
      st.(pages := pages[st.init := Put(st.pages[st.init], i, TableEntry(page))])
    case SetLower(p, i, entry) => st.(pages := st.pages[p := Put(st.pages[p], i, entry)])
    case SetUser(p, i, entry) => st.(pages := st.pages[p := Put(st.pages[p], i, entry)])
    case Fault(p, addr) => st.(pages := Synchronised(st.pages, p, st.init, addr))
    case PgdFree(p) => State(st.pages - {p}, st.init, st.mms - {p})
  }

  ghost predicate Runs(st: State, steps: seq<Step>, st': State)
    decreases |steps|
  {
    if steps == [] then st == st'
    else Enabled(st, steps[0]) && Runs(Apply(st, steps[0]), steps[1..], st')
  }

  /** The kernel half of table p is a sub-map of the reference. */
  ghost predicate SubMap(pages: Pages, p: nat, init: nat)
    requires Table(pages, p) && Table(pages, init)
  {
    forall i | USER_PTRS <= i < PTRS && Present(pages[p][i]) :: pages[p][i] == pages[init][i]
  }

  ghost predicate Inv(st: State) {
    && Table(st.pages, st.init) && st.init !in st.mms
    && forall p | p in st.mms :: Table(st.pages, p) && SubMap(st.pages, p, st.init)
  }

  lemma StepInv(st: State, step: Step)
    requires Inv(st) && Enabled(st, step)
    ensures Inv(Apply(st, step))
  {
    var st' := Apply(st, step);
    forall p | p in st'.mms
      ensures Table(st'.pages, p) && SubMap(st'.pages, p, st'.init)
    {
      if p in st.mms { assert SubMap(st.pages, p, st.init); }
    }
  }

  lemma {:induction false} RunInv(st: State, steps: seq<Step>, st': State)
    requires Inv(st) && Runs(st, steps, st')
    ensures Inv(st') && st'.init == st.init
    decreases |steps|
  {
    if steps != [] {
      StepInv(st, steps[0]);
      RunInv(Apply(st, steps[0]), steps[1..], st');
    }
  }

  /** Over every run from a state without address spaces, an address space sees at a kernel address
    either nothing (its top-level entry is missing) or exactly what init_mm sees. */
  lemma {:induction false} KernelHalvesAgree(st0: State, steps: seq<Step>, st: State, p: nat, addr: nat)
    requires Table(st0.pages, st0.init) && st0.mms == {} && Runs(st0, steps, st)
    requires p in st.mms && PgdIndex(addr) >= USER_PTRS
    ensures Table(st.pages, p) && Table(st.pages, st.init)
    ensures if Present(st.pages[p][PgdIndex(addr)])
            then Walk(st.pages, p, addr) == Walk(st.pages, st.init, addr)
            else Walk(st.pages, p, addr) == None
  {
    RunInv(st0, steps, st);
    assert SubMap(st.pages, p, st.init);
  }

  /** A fault changes no user entry, and no entry at all of any other address space. */
  lemma FaultIsLocal(st: State, p: nat, addr: nat, q: nat, i: nat)
    requires Inv(st) && Enabled(st, Fault(p, addr)) && q in st.pages && i < |st.pages[q]|
    requires q != p || i < USER_PTRS
    ensures var st' := Apply(st, Fault(p, addr));
            q in st'.pages && i < |st'.pages[q]| && st'.pages[q][i] == st.pages[q][i]
  {
    VmallocIsKernelHalf(addr);
  }

  /** Once handled, the same access does not fault for a missing top-level entry again: in every later
    state of the run, until the address space is freed, its walk of a vmalloc address is init_mm's. */
  lemma {:induction false} StaysSynchronised(st: State, steps: seq<Step>, st': State, p: nat, addr: nat)
    requires Inv(st) && p in st.mms && VMALLOC_START <= addr <= VMALLOC_END
    requires Present(st.pages[p][PgdIndex(addr)])
    requires Runs(st, steps, st') && PgdFree(p) !in steps
    ensures p in st'.mms && Walk(st'.pages, p, addr) == Walk(st'.pages, st'.init, addr)
    decreases |steps|
  {
    VmallocIsKernelHalf(addr);
    assert SubMap(st.pages, p, st.init);
    if steps != [] {
      var st1 := Apply(st, steps[0]);
      StepInv(st, steps[0]);
      assert SubMap(st1.pages, p, st1.init);
      StaysSynchronised(st1, steps[1..], st', p, addr);
    }
  }
}
