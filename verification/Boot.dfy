/** The tables the boot code builds and what `vmm_init` adds to them: the state
    from which every run starts. */
module Boot {
  import opened Bytes
  import opened PmmSpec
  import opened PageTables
  import opened Forests
  import opened Vmm

  /** The six statically allocated tables, by page number. */
  datatype Layout = Layout(pml4: nat, pdpt: nat, pd: nat, bootPd: nat, bootPt: nat, highPdpt: nat) {
    function Pages(): set<nat> { {pml4, pdpt, pd, bootPd, bootPt, highPdpt} }

    /** Page numbers of a machine with 32-bit page counts. */
    predicate Fits() {
      && pml4 < 0x1_0000_0000 && pdpt < 0x1_0000_0000 && pd < 0x1_0000_0000
      && bootPd < 0x1_0000_0000 && bootPt < 0x1_0000_0000 && highPdpt < 0x1_0000_0000
    }

    predicate Distinct() {
      && pml4 != pdpt && pml4 != pd && pml4 != bootPd && pml4 != bootPt && pml4 != highPdpt
      && pdpt != pd && pdpt != bootPd && pdpt != bootPt && pdpt != highPdpt
      && pd != bootPd && pd != bootPt && pd != highPdpt
      && bootPd != bootPt && bootPd != highPdpt && bootPt != highPdpt
    }
  }

  /** Present and writable, as the boot code's 0x3 and `vmm_init` write links. */
  const KERNEL_LINK: Flags := Flags(true, false, false)

  function Only(i: nat, p: nat, j: nat): Entry { if j == i then Link(p, KERNEL_LINK) else NOT_PRESENT }

  /** What the boot code leaves in its three tables. */
  ghost predicate BootTables(m: Machine, b: Layout) {
    && IsTable(m, b.pml4) && IsTable(m, b.pdpt) && IsTable(m, b.pd)
    && (forall j: nat | j < ENTRIES :: Ent(m, b.pml4, j) == Only(0, b.pdpt, j))
    && (forall j: nat | j < ENTRIES :: Ent(m, b.pdpt, j) == Only(0, b.pd, j))
    && (forall j: nat | j < ENTRIES :: Ent(m, b.pd, j) == Entry(true, true, false, true, false, 0x200 * j))
  }

  /** The tables lie in the kernel image, which the allocator has reserved. */
  ghost predicate BootState(m: Machine, b: Layout) {
    && PmmSpec.Valid(m.pmm) && 0 in m.pmm.reserved
    && b.Distinct() && 0 !in b.Pages() && b.Pages() <= m.pmm.reserved
    && BootTables(m, b)
  }

  function Cleared(m: Machine, b: Layout): Machine {
    m.(mem := m.mem[b.bootPd := ZeroTable()][b.bootPt := ZeroTable()][b.highPdpt := ZeroTable()])
  }

  function VmmInit(m: Machine, b: Layout): Machine {
    var m1 := SetEnt(Cleared(m, b), b.bootPd, 0, Link(b.bootPt, KERNEL_LINK));
    var m2 := SetEnt(m1, b.highPdpt, 0, Link(b.bootPd, KERNEL_LINK));
    var m3 := SetEnt(m2, b.pml4, 1, Link(b.highPdpt, KERNEL_LINK));
    if Ent(m3, b.pdpt, 0x100).present then m3
    else SetEnt(m3, b.pdpt, 0x100, Link(b.bootPd, KERNEL_LINK))
  }

  lemma ClearedReads(m: Machine, b: Layout)
    requires BootState(m, b)
    ensures var n := Cleared(m, b);
      && (forall p | p in b.Pages() :: IsTable(n, p))
      && (forall j: nat :: Ent(n, b.bootPd, j) == Ent(n, b.bootPt, j) == Ent(n, b.highPdpt, j) == NOT_PRESENT)
      && (forall j: nat :: Ent(n, b.pml4, j) == Ent(m, b.pml4, j) && Ent(n, b.pdpt, j) == Ent(m, b.pdpt, j)
                           && Ent(n, b.pd, j) == Ent(m, b.pd, j))
  {}

  lemma WriteReads(m: Machine, t: nat, i: nat, e: Entry, q: nat, j: nat)
    requires IsTable(m, t) && i < ENTRIES
    ensures Ent(SetEnt(m, t, i, e), q, j) == if q == t && j == i then e else Ent(m, q, j)
    ensures IsTable(SetEnt(m, t, i, e), q) == IsTable(m, q)
  {}

  lemma TablesKept(m: Machine, t: nat, i: nat, e: Entry)
    ensures forall q: nat :: IsTable(SetEnt(m, t, i, e), q) == IsTable(m, q)
  {}

  /** Entry `j` of table `q` after `vmm_init`. */
  lemma InitRead(m: Machine, b: Layout, q: nat, j: nat)
    requires BootState(m, b) && q in b.Pages() && j < ENTRIES
    ensures IsTable(VmmInit(m, b), q)
    ensures Ent(VmmInit(m, b), q, j) ==
      if q == b.bootPd && j == 0 then Link(b.bootPt, KERNEL_LINK)
      else if q == b.highPdpt && j == 0 then Link(b.bootPd, KERNEL_LINK)
      else if q == b.pml4 && j == 1 then Link(b.highPdpt, KERNEL_LINK)
      else if q == b.pdpt && j == 0x100 then Link(b.bootPd, KERNEL_LINK)
      else Ent(Cleared(m, b), q, j)
  {
    hide Ent, SetEnt, IsTable, Cleared;
    ClearedReads(m, b);
    var c := Cleared(m, b);
    var m1 := SetEnt(c, b.bootPd, 0, Link(b.bootPt, KERNEL_LINK));
    var m2 := SetEnt(m1, b.highPdpt, 0, Link(b.bootPd, KERNEL_LINK));
    var m3 := SetEnt(m2, b.pml4, 1, Link(b.highPdpt, KERNEL_LINK));
    TablesKept(c, b.bootPd, 0, Link(b.bootPt, KERNEL_LINK));
    TablesKept(m1, b.highPdpt, 0, Link(b.bootPd, KERNEL_LINK));
    TablesKept(m2, b.pml4, 1, Link(b.highPdpt, KERNEL_LINK));
    WriteReads(c, b.bootPd, 0, Link(b.bootPt, KERNEL_LINK), q, j);
    WriteReads(m1, b.highPdpt, 0, Link(b.bootPd, KERNEL_LINK), q, j);
    WriteReads(m2, b.pml4, 1, Link(b.highPdpt, KERNEL_LINK), q, j);
    WriteReads(m3, b.pdpt, 0x100, Link(b.bootPd, KERNEL_LINK), q, j);
    WriteReads(c, b.bootPd, 0, Link(b.bootPt, KERNEL_LINK), b.pdpt, 0x100);
    WriteReads(m1, b.highPdpt, 0, Link(b.bootPd, KERNEL_LINK), b.pdpt, 0x100);
    WriteReads(m2, b.pml4, 1, Link(b.highPdpt, KERNEL_LINK), b.pdpt, 0x100);
  }

  /** The tables after `vmm_init`, entry by entry. */
  ghost predicate InitTables(n: Machine, b: Layout) {
    && (forall p | p in b.Pages() :: IsTable(n, p))
    && (forall j: nat | j < ENTRIES ::
          Ent(n, b.pml4, j) == if j == 1 then Link(b.highPdpt, KERNEL_LINK) else Only(0, b.pdpt, j))
    && (forall j: nat | j < ENTRIES ::
          Ent(n, b.pdpt, j) == if j == 0x100 then Link(b.bootPd, KERNEL_LINK) else Only(0, b.pd, j))
    && (forall j: nat | j < ENTRIES :: IdentityEntry(Ent(n, b.pd, j), j))
    && (forall j: nat | j < ENTRIES :: Ent(n, b.highPdpt, j) == Only(0, b.bootPd, j))
    && (forall j: nat | j < ENTRIES :: Ent(n, b.bootPd, j) == Only(0, b.bootPt, j))
    && (forall j: nat | j < ENTRIES :: Ent(n, b.bootPt, j) == NOT_PRESENT)
  }

  lemma InitEntries(m: Machine, b: Layout)
    requires BootState(m, b)
    ensures VmmInit(m, b).pmm == m.pmm && InitTables(VmmInit(m, b), b)
  {
    hide Ent, SetEnt, IsTable, Cleared, VmmInit;
    ClearedReads(m, b);
    forall q: nat, j: nat | q in b.Pages() && j < ENTRIES
      ensures IsTable(VmmInit(m, b), q)
      ensures Ent(VmmInit(m, b), q, j) ==
        if q == b.bootPd && j == 0 then Link(b.bootPt, KERNEL_LINK)
        else if q == b.highPdpt && j == 0 then Link(b.bootPd, KERNEL_LINK)
        else if q == b.pml4 && j == 1 then Link(b.highPdpt, KERNEL_LINK)
        else if q == b.pdpt && j == 0x100 then Link(b.bootPd, KERNEL_LINK)
        else Ent(Cleared(m, b), q, j)
    {
      InitRead(m, b, q, j);
    }
    forall p | p in b.Pages() ensures IsTable(VmmInit(m, b), p) { InitRead(m, b, p, 0); }
    InitPmm(m, b);
  }

  lemma InitPmm(m: Machine, b: Layout)
    ensures VmmInit(m, b).pmm == m.pmm
  {}

  /** Where each table of the kernel tree is after `vmm_init`. */
  function InitNode(b: Layout, s: Slot): Option<nat> {
    if s.level == 4 then Some(b.pml4)
    else if s.level == 3 then (if s.prefix == 0 then Some(b.pdpt) else if s.prefix == 1 then Some(b.highPdpt) else None)
    else if s.level == 2 then (if s.prefix == 0 then Some(b.pd) else if s.prefix == 0x100 then Some(b.bootPd) else None)
    else if s.prefix == 0x2_0000 then Some(b.bootPt) else None
  }

  lemma {:induction false} InitNodes(n: Machine, b: Layout, s: Slot)
    requires InitTables(n, b) && InTree(Forest(b.pml4, {}), s)
    ensures Node(n, s) == InitNode(b, s)
    decreases if s.level < 4 then 4 - s.level else 0
  {
    if s.level < 4 {
      ParentInTree(Forest(b.pml4, {}), s);
      InitNodes(n, b, Parent(s));
      hide Ent, Node, IsTable;
      NodeStep(n, s);
    }
  }

  lemma InitSeparated(n: Machine, b: Layout)
    requires InitTables(n, b) && b.Distinct() && 0 !in b.Pages() && b.Pages() <= n.pmm.unavailable
    ensures Separated(Forest(b.pml4, {}), n)
  {
    hide Ent, Node, IsTable, Link;
    forall s | InTree(Forest(b.pml4, {}), s) ensures Node(n, s) == InitNode(b, s) { InitNodes(n, b, s); }
  }

  lemma InitKernelOk(n: Machine, b: Layout)
    requires InitTables(n, b)
    ensures KernelOk(Forest(b.pml4, {}), n)
  {
    hide Ent, Node, IsTable;
    var f := Forest(b.pml4, {});
    forall s | InTree(f, s) ensures Node(n, s) == InitNode(b, s) { InitNodes(n, b, s); }
    forall s | InTree(f, s) && s.root == f.kernel && LinkEntry(n, s).present
      ensures LinkEntry(n, s).large <==> LowSlot(s)
    {
      ParentInTree(f, s);
    }
    assert Node(n, Slot(b.pml4, 2, 0)) == Some(b.pd);
    assert Node(n, Slot(b.pml4, 3, 1)) == Some(b.highPdpt);
    assert Node(n, Slot(b.pml4, 2, 0x100)) == Some(b.bootPd);
  }

  /** After `vmm_init` the kernel tree is well formed and no user space exists. */
  lemma InitIsGood(m: Machine, b: Layout)
    requires BootState(m, b)
    ensures var f := Forest(b.pml4, {}); Wf(f, VmmInit(m, b)) && KernelOk(f, VmmInit(m, b))
  {
    hide VmmInit, InitTables, Separated, KernelOk;
    InitEntries(m, b);
    InitSeparated(VmmInit(m, b), b);
    InitKernelOk(VmmInit(m, b), b);
  }

  function TableOf(entry: nat -> Entry): Page { Table(seq<Entry>(ENTRIES, entry)) }

  /** The state the boot code leaves on a machine with `pages` pages, the tables on
      pages 1 to 6 and the rest free. */
  lemma SomeBootState(pages: nat)
    requires pages > 6
    ensures exists m: Machine, b: Layout :: m.pmm.pages == pages && BootState(m, b)
  {
    var b := Layout(1, 2, 3, 4, 5, 6);
    var image := AllPages(7);
    var m := Machine(State(pages, image, image, {}, |AllPages(pages) - image|),
                     map[1 := TableOf((j: nat) => Only(0, 2, j)), 2 := TableOf((j: nat) => Only(0, 3, j)),
                         3 := TableOf((j: nat) => Entry(true, true, false, true, false, 0x200 * j))]);
    assert BootState(m, b);
  }
}
