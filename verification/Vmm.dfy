/** The kernel's own tree: map, unmap and translate, and the windows that share a
    table. */
module Vmm {
  import opened Bytes
  import opened PmmSpec
  import opened PageTables
  import opened Forests
  import opened Walks

  const PAGES: nat := 0x10_0000_0000

  function LeafFor(pa: nat, flags: Flags): Entry {
    Entry(true, flags.writable, flags.user, false, flags.nx, pa / PAGE_SIZE % FRAME_LIMIT)
  }

  function MapPage(m: Machine, root: nat, va: nat, pa: nat, flags: Flags): (Machine, int) {
    if va % PAGE_SIZE != 0 || pa % PAGE_SIZE != 0 then (m, -1)
    else
      var v := va / PAGE_SIZE;
      var (n, pt) := ReachTable(m, root, v, flags);
      if pt == 0 then (n, -1)
      else if Ent(n, pt, PtIndex(v)).present then (n, -2)
      else (SetEnt(n, pt, PtIndex(v), LeafFor(pa, flags)), 0)
  }

  /** The page table an unmap reaches, if every link is a present non-large one. */
  function FindTable(m: Machine, root: nat, v: nat): Option<nat> {
    var e4 := Ent(m, root, Pml4Index(v));
    if !e4.present || e4.large then None
    else
      var e3 := Ent(m, e4.frame, PdptIndex(v));
      if !e3.present || e3.large then None
      else
        var e2 := Ent(m, e3.frame, PdIndex(v));
        if !e2.present || e2.large then None else Some(e2.frame)
  }

  /** The third component is the physical address reported to the caller. */
  function UnmapPage(m: Machine, root: nat, va: nat): (Machine, int, nat) {
    var v := va / PAGE_SIZE;
    if va % PAGE_SIZE != 0 then (m, -1, 0)
    else
      match FindTable(m, root, v)
      case None => (m, -1, 0)
      case Some(pt) =>
        var e := Ent(m, pt, PtIndex(v));
        if !e.present then (m, -1, 0)
        else (SetEnt(m, pt, PtIndex(v), NOT_PRESENT), 0, e.frame * PAGE_SIZE)
  }

  /** 0 stands both for "not mapped" and for physical address 0. */
  function Translate(m: Machine, root: nat, va: nat): nat {
    var v := va / PAGE_SIZE;
    var e4 := Ent(m, root, Pml4Index(v));
    if !e4.present then 0
    else
      var e3 := Ent(m, e4.frame, PdptIndex(v));
      if !e3.present then 0
      else if e3.large then e3.frame / 0x4_0000 * 0x4_0000 * PAGE_SIZE + va % 0x4000_0000
      else
        var e2 := Ent(m, e3.frame, PdIndex(v));
        if !e2.present then 0
        else if e2.large then e2.frame / 0x200 * 0x200 * PAGE_SIZE + va % 0x20_0000
        else
          var e1 := Ent(m, e2.frame, PtIndex(v));
          if !e1.present then 0 else e1.frame * PAGE_SIZE + va % PAGE_SIZE
  }

  // ---- The kernel's invariant ----------------------------------------------------------

  /** The 1 GiB window at 2^39 shares its page directory with the one at 2^38. */
  function Canon(v: nat): nat { if 0x800_0000 <= v < 0x804_0000 then v - 0x400_0000 else v }

  /** Virtual pages above the first GiB, one for each pair of twins. */
  predicate KernelPage(c: nat) { 0x4_0000 <= c < PAGES && Canon(c) == c }

  predicate LowSlot(s: Slot) { s.level == 1 && s.prefix < 0x200 }

  /** Large pages map exactly the first GiB, each 2 MiB to itself and for the
      supervisor only, and both windows reach the same page directory. */
  ghost predicate KernelOk(f: Forest, m: Machine) {
    var k := f.kernel;
    && (forall s | InTree(f, s) && s.root == k && LinkEntry(m, s).present :: LinkEntry(m, s).large <==> LowSlot(s))
    && Node(m, Slot(k, 2, 0)).Some?
    && (forall j: nat | j < ENTRIES :: IdentityEntry(Ent(m, Node(m, Slot(k, 2, 0)).value, j), j))
    && Node(m, Slot(k, 3, 1)).Some? && Node(m, Slot(k, 2, 0x100)).Some?
    && (var e := Ent(m, Node(m, Slot(k, 3, 1)).value, 0);
        e.present && !e.large && Some(e.frame) == Node(m, Slot(k, 2, 0x100)))
  }

  predicate IdentityEntry(e: Entry, j: nat) { e.present && e.large && !e.user && e.frame == 0x200 * j }

  lemma GrowsKernelOk(f: Forest, root: nat, m: Machine, n: Machine, added: set<nat>)
    requires Grows(f, root, m, n, added) && KernelOk(f, m)
    ensures KernelOk(f, n)
  {
    var k := f.kernel;
    forall s | InTree(f, s) && s.root == k && LinkEntry(n, s).present ensures LinkEntry(n, s).large <==> LowSlot(s) {
      GrowsKernelLink(f, root, m, n, added, s);
    }
    hide LinkEntry, Ent, Node;
    assert GrowsAt(root, m, n, added, Slot(k, 2, 0));
    assert GrowsAt(root, m, n, added, Slot(k, 3, 1));
    assert GrowsAt(root, m, n, added, Slot(k, 2, 0x100));
    var pd, high := Node(m, Slot(k, 2, 0)).value, Node(m, Slot(k, 3, 1)).value;
    forall j: nat | j < ENTRIES ensures IdentityEntry(Ent(n, pd, j), j) {
      assert GrowsEntry(2, Ent(m, pd, j), Ent(n, pd, j));
      assert IdentityEntry(Ent(m, pd, j), j);
    }
    assert GrowsEntry(3, Ent(m, high, 0), Ent(n, high, 0));
  }

  lemma GrowsKernelLink(f: Forest, root: nat, m: Machine, n: Machine, added: set<nat>, s: Slot)
    requires Grows(f, root, m, n, added) && KernelOk(f, m)
    requires InTree(f, s) && s.root == f.kernel && LinkEntry(n, s).present
    ensures LinkEntry(n, s).large <==> LowSlot(s)
  {
    if LinkEntry(m, s).present {
      GrowsLink(f, root, m, n, added, s);
    } else {
      if LowSlot(s) { LowLink(f, m, s); } else { GrowsNotLarge(f, root, m, n, added, s); }
    }
  }

  lemma LowLink(f: Forest, m: Machine, s: Slot)
    requires KernelOk(f, m) && s.root == f.kernel && LowSlot(s)
    ensures IdentityEntry(LinkEntry(m, s), s.prefix)
  {
    assert Parent(s) == Slot(f.kernel, 2, 0) && Index(s) == s.prefix;
  }

  // ---- Walking the kernel tree ------------------------------------------------------------

  lemma DropHigh(q: nat, r: nat)
    ensures (q * PAGES + r) / 0x800_0000 == q * 0x200 + r / 0x800_0000
    ensures (q * PAGES + r) / 0x4_0000 == q * 0x4_0000 + r / 0x4_0000
    ensures (q * PAGES + r) / 0x200 == q * 0x800_0000 + r / 0x200
  {}

  lemma DropMultiple(q: nat, r: nat)
    ensures (q * 0x200 + r) % 0x200 == r % 0x200
  {}

  /** Only the low 48 bits of a virtual address matter. */
  lemma LowBits(v: nat)
    ensures Pml4Index(v % PAGES) == Pml4Index(v) && PdptIndex(v % PAGES) == PdptIndex(v)
    ensures PdIndex(v % PAGES) == PdIndex(v) && PtIndex(v % PAGES) == PtIndex(v)
  {
    var q, r := v / PAGES, v % PAGES;
    hide Pml4Index, PdptIndex, PdIndex, PtIndex;
    DropHigh(q, r);
    LowBitsOf(v, q, r);
  }

  lemma LowBitsOf(v: nat, q: nat, r: nat)
    requires v == q * PAGES + r
    requires (q * PAGES + r) / 0x800_0000 == q * 0x200 + r / 0x800_0000
    requires (q * PAGES + r) / 0x4_0000 == (q * 0x200) * 0x200 + r / 0x4_0000
    requires (q * PAGES + r) / 0x200 == (q * 0x4_0000) * 0x200 + r / 0x200
    ensures Pml4Index(r) == Pml4Index(v) && PdptIndex(r) == PdptIndex(v)
    ensures PdIndex(r) == PdIndex(v) && PtIndex(r) == PtIndex(v)
  {
    DropMultiple(q, r / 0x800_0000);
    DropMultiple(q * 0x200, r / 0x4_0000);
    DropMultiple(q * 0x4_0000, r / 0x200);
    DropMultiple(q * 0x800_0000, r);
  }

  lemma KernelTree(f: Forest, c: nat)
    ensures c < PAGES && Canon(c) == c ==> InTree(f, Level1(f.kernel, c))
  {}

  lemma WindowIndices(v: nat)
    requires 0x800_0000 <= v < 0x804_0000
    ensures Pml4Index(v) == 1 && PdptIndex(v) == 0
    ensures PdIndex(v) == PdIndex(Canon(v)) && PtIndex(v) == PtIndex(Canon(v))
    ensures Level2(0, Canon(v)).prefix == 0x100 && KernelPage(Canon(v))
  {}

  /** No present link on the way to `v` is a large page. */
  predicate Smooth(m: Machine, root: nat, v: nat) {
    var e4 := Ent(m, root, Pml4Index(v));
    e4.present ==>
      && !e4.large
      && var e3 := Ent(m, e4.frame, PdptIndex(v));
         e3.present ==>
           && !e3.large
           && var e2 := Ent(m, e3.frame, PdIndex(v)); e2.present ==> !e2.large
  }

  lemma SmoothTranslate(m: Machine, root: nat, va: nat)
    requires Smooth(m, root, va / PAGE_SIZE)
    ensures Translate(m, root, va) ==
      match FindTable(m, root, va / PAGE_SIZE)
      case None => 0
      case Some(p) =>
        var e := Ent(m, p, PtIndex(va / PAGE_SIZE));
        if e.present then e.frame * PAGE_SIZE + va % PAGE_SIZE else 0
  {}

  /** Away from the windows' second name, each link of the walk is a child step. */
  lemma CanonWalk(f: Forest, m: Machine, c: nat)
    requires Wf(f, m) && KernelOk(f, m) && KernelPage(c)
    ensures FindTable(m, f.kernel, c) == Node(m, Level1(f.kernel, c)) && Smooth(m, f.kernel, c)
    ensures NotLarge(m, Level3(f.kernel, c)) && NotLarge(m, Level2(f.kernel, c)) && NotLarge(m, Level1(f.kernel, c))
  {
    var k := f.kernel;
    KernelTree(f, c);
    Positions(f, k, c);
    NodeTop(m, Top(k));
    ChildParent(Top(k), Pml4Index(c));
    ChildParent(Level3(k, c), PdptIndex(c));
    ChildParent(Level2(k, c), PdIndex(c));
    NodeStep(m, Level3(k, c));
    NodeStep(m, Level2(k, c));
    NodeStep(m, Level1(k, c));
    assert !LowSlot(Level3(k, c)) && !LowSlot(Level2(k, c)) && !LowSlot(Level1(k, c));
  }

  lemma TwinWalk(f: Forest, m: Machine, v: nat)
    requires Wf(f, m) && KernelOk(f, m) && 0x800_0000 <= v < 0x804_0000
    ensures FindTable(m, f.kernel, v) == Node(m, Level1(f.kernel, Canon(v))) && Smooth(m, f.kernel, v)
  {
    var k := f.kernel;
    var c := Canon(v);
    WindowIndices(v);
    CanonWalk(f, m, c);
    NodeTop(m, Top(k));
    NodeStep(m, Slot(k, 3, 1));
    assert Parent(Slot(k, 3, 1)) == Top(k);
    KernelTree(f, c);
    Positions(f, k, c);
    ChildParent(Level2(k, c), PdIndex(c));
    NodeStep(m, Level1(k, c));
    assert Level2(k, c) == Slot(k, 2, 0x100);
  }

  lemma LowWalk(f: Forest, m: Machine, v: nat)
    requires Wf(f, m) && KernelOk(f, m) && v < 0x4_0000
    ensures var e4 := Ent(m, f.kernel, 0); var e3 := Ent(m, e4.frame, 0);
      && e4.present && !e4.large && e3.present && !e3.large
      && Some(e4.frame) == Node(m, Slot(f.kernel, 3, 0)) && Some(e3.frame) == Node(m, Slot(f.kernel, 2, 0))
      && IdentityEntry(Ent(m, e3.frame, v / 0x200), v / 0x200)
    ensures Pml4Index(v) == 0 && PdptIndex(v) == 0 && PdIndex(v) == v / 0x200
  {
    var k := f.kernel;
    NodeTop(m, Top(k));
    NodeStep(m, Slot(k, 3, 0));
    NodeStep(m, Slot(k, 2, 0));
    assert Parent(Slot(k, 3, 0)) == Top(k) && Parent(Slot(k, 2, 0)) == Slot(k, 3, 0);
  }

  /** What the kernel sees at a virtual address: itself below 1 GiB, and the page
      mapped at its canonical name above. */
  function Seen(m: Machine, root: nat, va: nat): nat {
    var v := va / PAGE_SIZE % PAGES;
    if v < 0x4_0000 then va % 0x1_0000_0000_0000
    else
      match Lookup(m, root, Canon(v))
      case None => 0
      case Some(x) => x.frame * PAGE_SIZE + va % PAGE_SIZE
  }

  lemma SplitAddress(q: nat, x: nat)
    requires x < 0x1_0000_0000_0000
    ensures (q * 0x1_0000_0000_0000 + x) / PAGE_SIZE == q * PAGES + x / PAGE_SIZE
    ensures (q * 0x1_0000_0000_0000 + x) % 0x20_0000 == x % 0x20_0000
    ensures x / PAGE_SIZE < PAGES
  {}

  lemma LowAddress(va: nat)
    requires va / PAGE_SIZE % PAGES < 0x4_0000
    ensures var j := va / PAGE_SIZE % PAGES / 0x200;
      0x200 * j / 0x200 * 0x200 * PAGE_SIZE + va % 0x20_0000 == va % 0x1_0000_0000_0000
  {
    var q, x := va / 0x1_0000_0000_0000, va % 0x1_0000_0000_0000;
    SplitAddress(q, x);
    ModPages(q, x / PAGE_SIZE);
    LowOffset(x);
  }

  lemma ModPages(q: nat, y: nat)
    requires y < PAGES
    ensures (q * PAGES + y) % PAGES == y
  {}

  lemma LowOffset(x: nat)
    ensures x / PAGE_SIZE / 0x200 * 0x200 * PAGE_SIZE + x % 0x20_0000 == x
  {
    assert x / PAGE_SIZE / 0x200 == x / 0x20_0000;
  }

  lemma TranslateSees(f: Forest, m: Machine, va: nat)
    requires Wf(f, m) && KernelOk(f, m)
    ensures Translate(m, f.kernel, va) == Seen(m, f.kernel, va)
  {
    var v := va / PAGE_SIZE;
    var w := v % PAGES;
    LowBits(v);
    if w < 0x4_0000 {
      LowWalk(f, m, w);
      LowAddress(va);
    } else {
      hide Ent, Node, Wf, KernelOk, Smooth, FindTable;
      HighWalk(f, m, w);
      SameWalkMod(m, f.kernel, v);
      SmoothTranslate(m, f.kernel, va);
    }
  }

  lemma HighWalk(f: Forest, m: Machine, w: nat)
    requires Wf(f, m) && KernelOk(f, m) && 0x4_0000 <= w < PAGES
    ensures FindTable(m, f.kernel, w) == Node(m, Level1(f.kernel, Canon(w))) && Smooth(m, f.kernel, w)
    ensures PtIndex(Canon(w)) == PtIndex(w) && KernelPage(Canon(w))
  {
    if 0x800_0000 <= w < 0x804_0000 {
      TwinWalk(f, m, w);
      WindowIndices(w);
    } else {
      CanonWalk(f, m, w);
    }
  }

  lemma SameWalkMod(m: Machine, root: nat, v: nat)
    ensures FindTable(m, root, v % PAGES) == FindTable(m, root, v)
    ensures Smooth(m, root, v % PAGES) == Smooth(m, root, v)
  {
    LowBits(v);
  }

  // ---- Reaching a page table -------------------------------------------------------------

  /** Mapping inside the first GiB stops at a large page. */
  lemma LowReach(f: Forest, m: Machine, v: nat, flags: Flags)
    requires Wf(f, m) && KernelOk(f, m) && v < 0x4_0000
    ensures ReachTable(m, f.kernel, v, flags).1 == 0
  {
    hide Node, Ent, Wf, KernelOk, EnsureTable, Grows, AddedTable, IdentityEntry, LinkEntry;
    var k := f.kernel;
    KernelTree(f, v);
    Positions(f, k, v);
    NodeTop(m, Top(k));
    EnsureWf(f, m, Top(k), Pml4Index(v), flags);
    var (m1, pdpt) := EnsureTable(m, k, Pml4Index(v), flags);
    GrowsKernelOk(f, k, m, m1, AddedTable(m, k, Pml4Index(v)));
    if pdpt != 0 {
      EnsureWf(f, m1, Level3(k, v), PdptIndex(v), flags);
      var (m2, pd) := EnsureTable(m1, pdpt, PdptIndex(v), flags);
      GrowsKernelOk(f, k, m1, m2, AddedTable(m1, pdpt, PdptIndex(v)));
      if pd != 0 {
        LowWalk(f, m2, v);
        EnsureOnLarge(m2, pd, PdIndex(v), flags);
      }
    }
  }

  lemma EnsureOnLarge(m: Machine, t: nat, i: nat, flags: Flags)
    requires IdentityEntry(Ent(m, t, i), i)
    ensures EnsureTable(m, t, i, flags) == (m, 0)
  {}

  lemma CanonReach(f: Forest, m: Machine, c: nat, flags: Flags) returns (added: set<nat>)
    requires Wf(f, m) && KernelOk(f, m) && KernelPage(c)
    ensures var (n, p) := ReachTable(m, f.kernel, c, flags);
      && Wf(f, n) && Grows(f, f.kernel, m, n, added)
      && (p != 0 ==> Node(n, Level1(f.kernel, c)) == Some(p) && Costs(f, f.kernel, c, m, n))
      && (p == 0 <==> Missing(m, f.kernel, c) > |FreePages(m.pmm)|)
  {
    hide Node, Ent, Wf, KernelOk, ReachTable, Grows, Added, Missing, FreePages, Costs;
    KernelTree(f, c);
    CanonWalk(f, m, c);
    ReachGrows(f, m, f.kernel, c, flags);
    ReachFails(f, m, f.kernel, c, flags);
    added := Added(m, f.kernel, c, flags);
  }

  /** The links that name the second window are present, so only the last step
      can add a table. */
  lemma TwinReach(f: Forest, m: Machine, v: nat, flags: Flags) returns (added: set<nat>)
    requires Wf(f, m) && KernelOk(f, m) && 0x800_0000 <= v < 0x804_0000
    ensures var (n, p) := ReachTable(m, f.kernel, v, flags);
      && Wf(f, n) && Grows(f, f.kernel, m, n, added)
      && (p != 0 ==> Node(n, Level1(f.kernel, Canon(v))) == Some(p) && Costs(f, f.kernel, Canon(v), m, n))
      && (p == 0 <==> Missing(m, f.kernel, Canon(v)) > |FreePages(m.pmm)|)
  {
    var k := f.kernel;
    var c := Canon(v);
    var high := Slot(k, 3, 1);
    WindowIndices(v);
    var m1, m2 := TwinPrefix(f, m, v, flags);
    var dir := Slot(k, 2, 0x100);
    KernelTree(f, c);
    Positions(f, k, c);
    CanonWalk(f, m2, c);
    var pd := Node(m2, dir).value;
    hide Node, Ent, Wf, KernelOk, EnsureTable, Grows, AddedTable, LinkEntry, NotLarge, FreePages, Smooth;
    EnsureWf(f, m2, dir, PdIndex(c), flags);
    EnsureMissing(f, m2, dir, PdIndex(c), flags);
    added := {} + AddedTable(m2, pd, PdIndex(c));
    WfSeparated(f, m);
    GrowsTrans(f, k, m, m2, EnsureTable(m2, pd, PdIndex(c), flags).0, {}, AddedTable(m2, pd, PdIndex(c)));
    TwinMissing(f, m, m2, c);
  }

  lemma TwinMissing(f: Forest, m: Machine, n: Machine, c: nat)
    requires KernelOk(f, m) && InTree(f, Level1(f.kernel, c)) && Level2(f.kernel, c) == Slot(f.kernel, 2, 0x100)
    requires Grows(f, f.kernel, m, n, {}) && n.pmm == m.pmm
    ensures Missing(m, f.kernel, c) == if Node(n, Level1(f.kernel, c)).None? then 1 else 0
    ensures forall u | InTree(f, u) :: Node(n, u) == Node(m, u)
  {
    hide Node, Ent, InTree;
    forall u | InTree(f, u) ensures Node(n, u) == Node(m, u) { assert GrowsAt(f.kernel, m, n, {}, u); }
  }

  lemma TwinPrefix(f: Forest, m: Machine, v: nat, flags: Flags) returns (m1: Machine, m2: Machine)
    requires Wf(f, m) && KernelOk(f, m) && 0x800_0000 <= v < 0x804_0000
    ensures Wf(f, m2) && KernelOk(f, m2) && Grows(f, f.kernel, m, m2, {}) && m2.pmm == m.pmm
    ensures Node(m2, Slot(f.kernel, 2, 0x100)).Some?
    ensures ReachTable(m, f.kernel, v, flags)
         == EnsureTable(m2, Node(m2, Slot(f.kernel, 2, 0x100)).value, PdIndex(v), flags)
  {
    var k := f.kernel;
    var high := Slot(k, 3, 1);
    WindowIndices(v);
    NodeTop(m, Top(k));
    NodeStep(m, high);
    assert high == Child(Top(k), 1);
    EnsureOpens(f, m, Top(k), 1, flags);
    var e := Ent(m, k, 1);
    m1 := SetEnt(m, k, 1, Opened(e, flags));
    assert EnsureTable(m, k, 1, flags) == (m1, e.frame);
    GrowsKernelOk(f, k, m, m1, {});
    EnsureOpens(f, m1, high, 0, flags);
    var e' := Ent(m1, e.frame, 0);
    m2 := SetEnt(m1, e.frame, 0, Opened(e', flags));
    assert EnsureTable(m1, e.frame, 0, flags) == (m2, e'.frame);
    GrowsKernelOk(f, k, m1, m2, {});
    WfSeparated(f, m);
    var none: set<nat> := {};
    GrowsTrans(f, k, m, m1, m2, none, none);
    assert none + none == none;
    assert GrowsAt(k, m1, m2, {}, Slot(k, 2, 0x100));
    assert e'.frame != 0;
  }

  // ---- What map and unmap do -----------------------------------------------------------

  lemma LeafKernelOk(f: Forest, m: Machine, leaf: Slot, i: nat, e: Entry)
    requires Wf(f, m) && KernelOk(f, m)
    requires InTree(f, leaf) && leaf.level == 1 && Node(m, leaf).Some? && i < ENTRIES
    ensures KernelOk(f, SetEnt(m, Node(m, leaf).value, i, e))
  {
    hide Node, Ent, SetEnt, LinkEntry, UserRights, IsTable;
    var p := Node(m, leaf).value;
    var n := SetEnt(m, p, i, e);
    var k := f.kernel;
    WriteLeaf(f, m, leaf, i, e);
    SetEntReads(m, p, i, e);
    forall s | InTree(f, s) ensures LinkEntry(n, s) == LinkEntry(m, s) { LeafLinks(f, m, leaf, i, e, s); }
    assert InTree(f, Slot(k, 2, 0)) && InTree(f, Slot(k, 3, 1)) && InTree(f, Slot(k, 2, 0x100));
    assert Node(m, Slot(k, 2, 0)) != Some(p) && Node(m, Slot(k, 3, 1)) != Some(p);
  }

  /** Every mapping of the kernel and of the users is the same, except that the
      kernel page `c` (and with it its twin) now has mapping `x`. */
  ghost predicate OnlyChanges(f: Forest, m: Machine, n: Machine, c: nat, x: Option<Mapping>) {
    && (forall d | KernelPage(d) :: Lookup(n, f.kernel, d) == if d == c then x else Lookup(m, f.kernel, d))
    && SameUserMappings(f, m, n)
  }

  ghost predicate SameUserMappings(f: Forest, m: Machine, n: Machine) {
    forall r, w | r in f.users && InTree(f, Level1(r, w)) :: Lookup(n, r, w) == Lookup(m, r, w)
  }

  lemma GrowsOnly(f: Forest, m: Machine, n: Machine, root: nat, added: set<nat>, c: nat)
    requires Grows(f, root, m, n, added)
    ensures OnlyChanges(f, m, n, c, Lookup(m, f.kernel, c))
  {
    hide Lookup, Grows;
    forall d | KernelPage(d) ensures Lookup(n, f.kernel, d) == Lookup(m, f.kernel, d) {
      KernelTree(f, d);
      GrowsLookup(f, root, m, n, added, f.kernel, d);
    }
    forall r, w | r in f.users && InTree(f, Level1(r, w)) ensures Lookup(n, r, w) == Lookup(m, r, w) {
      GrowsLookup(f, root, m, n, added, r, w);
    }
  }

  lemma LeafOnly(f: Forest, m: Machine, c: nat, e: Entry)
    requires Wf(f, m) && KernelOk(f, m) && KernelPage(c) && Node(m, Level1(f.kernel, c)).Some?
    ensures var n := SetEnt(m, Node(m, Level1(f.kernel, c)).value, PtIndex(c), e);
      Wf(f, n) && KernelOk(f, n) && OnlyChanges(f, m, n, c, MappingOf(e))
  {
    hide Lookup, Node, KernelOk, SetEnt, UserRights, InTree;
    var k := f.kernel;
    var n := SetEnt(m, Node(m, Level1(k, c)).value, PtIndex(c), e);
    KernelTree(f, c);
    LeafWf(f, m, Level1(k, c), PtIndex(c), e);
    LeafKernelOk(f, m, Level1(k, c), PtIndex(c), e);
    WfSeparated(f, m);
    forall d | KernelPage(d) ensures Lookup(n, k, d) == if d == c then MappingOf(e) else Lookup(m, k, d) {
      KernelTree(f, d);
      LeafLookup(f, m, k, c, e, k, d);
    }
    forall r, w | r in f.users && InTree(f, Level1(r, w)) ensures Lookup(n, r, w) == Lookup(m, r, w) {
      LeafLookup(f, m, k, c, e, r, w);
    }
  }

  lemma SameReachMod(m: Machine, root: nat, v: nat, flags: Flags)
    ensures ReachTable(m, root, v % PAGES, flags) == ReachTable(m, root, v, flags)
  {
    LowBits(v);
  }

  /** The walk of `vmm_map_page`, for every virtual page. */
  lemma KernelReach(f: Forest, m: Machine, v: nat, flags: Flags) returns (added: set<nat>)
    requires Wf(f, m) && KernelOk(f, m) && v < PAGES
    ensures var (n, p) := ReachTable(m, f.kernel, v, flags);
      && Wf(f, n) && KernelOk(f, n) && Grows(f, f.kernel, m, n, added)
      && (v < 0x4_0000 ==> p == 0)
      && (v >= 0x4_0000 ==>
            && KernelPage(Canon(v)) && PtIndex(Canon(v)) == PtIndex(v)
            && (p != 0 ==> Node(n, Level1(f.kernel, Canon(v))) == Some(p) && Costs(f, f.kernel, Canon(v), m, n))
            && (p == 0 <==> Missing(m, f.kernel, Canon(v)) > |FreePages(m.pmm)|))
  {
    hide Node, Ent, Wf, KernelOk, ReachTable, Grows, Missing, FreePages, Added, Costs;
    if v < 0x4_0000 {
      LowReach(f, m, v, flags);
      KernelTree(f, v);
      ReachGrows(f, m, f.kernel, v, flags);
      added := Added(m, f.kernel, v, flags);
    } else if 0x800_0000 <= v < 0x804_0000 {
      WindowIndices(v);
      added := TwinReach(f, m, v, flags);
    } else {
      added := CanonReach(f, m, v, flags);
    }
    GrowsKernelOk(f, f.kernel, m, ReachTable(m, f.kernel, v, flags).0, added);
  }

  /** Mapping a kernel page: success adds exactly that page (and its twin); the
      first GiB cannot be remapped; failures change no translation. */
  lemma MapPageEffect(f: Forest, m: Machine, va: nat, pa: nat, flags: Flags)
    requires Wf(f, m) && KernelOk(f, m)
    ensures var v := va / PAGE_SIZE % PAGES; var c := Canon(v); var (n, code) := MapPage(m, f.kernel, va, pa, flags);
      var good := va % PAGE_SIZE == 0 && pa % PAGE_SIZE == 0 && v >= 0x4_0000;
      && Wf(f, n) && KernelOk(f, n)
      && (code == 0 || code == -1 || code == -2)
      && (code == 0 <==> good && Lookup(m, f.kernel, c).None? && Missing(m, f.kernel, c) <= |FreePages(m.pmm)|)
      && (code == -2 <==> good && Lookup(m, f.kernel, c).Some?)
      && OnlyChanges(f, m, n, c, if code == 0 then MappingOf(LeafFor(pa, flags)) else Lookup(m, f.kernel, c))
  {
    hide Node, Ent, Wf, KernelOk, ReachTable, Grows, Missing, FreePages, OnlyChanges;
    var w := va / PAGE_SIZE;
    var v := w % PAGES;
    var k := f.kernel;
    if va % PAGE_SIZE == 0 && pa % PAGE_SIZE == 0 {
      SameReachMod(m, k, w, flags);
      LowBits(w);
      var added := KernelReach(f, m, v, flags);
      var (mid, pt) := ReachTable(m, k, v, flags);
      GrowsOnly(f, m, mid, k, added, Canon(v));
      if v >= 0x4_0000 {
        KernelTree(f, Canon(v));
        GrowsLookup(f, k, m, mid, added, k, Canon(v));
        MappedIsReached(m, k, Canon(v));
        if pt != 0 && !Ent(mid, pt, PtIndex(v)).present {
          LeafOnly(f, mid, Canon(v), LeafFor(pa, flags));
          OnlyTrans(f, m, mid, MapPage(m, k, va, pa, flags).0, Canon(v), MappingOf(LeafFor(pa, flags)));
        }
      }
    } else {
      GrowsRefl(f, k, m);
      GrowsOnly(f, m, m, k, {}, Canon(v));
    }
  }

  /** A successful mapping takes one free page for each table that was missing on the
      way to the page, and leaves every other table where it was. */
  lemma MapPageCost(f: Forest, m: Machine, va: nat, pa: nat, flags: Flags)
    requires Wf(f, m) && KernelOk(f, m)
    ensures var c := Canon(va / PAGE_SIZE % PAGES); var (n, code) := MapPage(m, f.kernel, va, pa, flags);
      code == 0 ==> Costs(f, f.kernel, c, m, n) && Node(n, Level1(f.kernel, c)).Some?
  {
    hide Node, Ent, Wf, KernelOk, ReachTable, Grows, Missing, FreePages, SetEnt, InTree, Path;
    var w, k := va / PAGE_SIZE, f.kernel;
    var v := w % PAGES;
    SameReachMod(m, k, w, flags);
    LowBits(w);
    var added := KernelReach(f, m, v, flags);
    var (n, code) := MapPage(m, k, va, pa, flags);
    if code == 0 {
      var (mid, pt) := ReachTable(m, k, v, flags);
      KernelTree(f, Canon(v));
      WfSeparated(f, mid);
      WriteLeaf(f, mid, Level1(k, Canon(v)), PtIndex(v), LeafFor(pa, flags));
      SetEntPmm(mid, pt, PtIndex(v), LeafFor(pa, flags));
    }
  }

  lemma OnlyTrans(f: Forest, m: Machine, mid: Machine, n: Machine, c: nat, x: Option<Mapping>)
    requires OnlyChanges(f, m, mid, c, Lookup(m, f.kernel, c)) && OnlyChanges(f, mid, n, c, x)
    ensures OnlyChanges(f, m, n, c, x)
  {
    hide Lookup;
  }

  /** Unmapping succeeds exactly on a mapped page above the first GiB, reports
      its frame, and removes exactly that page (and its twin). */
  lemma UnmapPageEffect(f: Forest, m: Machine, va: nat)
    requires Wf(f, m) && KernelOk(f, m)
    ensures var v := va / PAGE_SIZE % PAGES; var c := Canon(v); var (n, code, physical) := UnmapPage(m, f.kernel, va);
      && Wf(f, n) && KernelOk(f, n)
      && (code == 0 || code == -1)
      && (code == 0 <==> va % PAGE_SIZE == 0 && v >= 0x4_0000 && Lookup(m, f.kernel, c).Some?)
      && (code == 0 ==> physical == Lookup(m, f.kernel, c).value.frame * PAGE_SIZE)
      && (code != 0 ==> n == m)
      && OnlyChanges(f, m, n, c, if code == 0 then None else Lookup(m, f.kernel, c))
  {
    hide Node, Ent, Wf, KernelOk, FindTable, OnlyChanges, Grows, SetEnt;
    var w := va / PAGE_SIZE;
    var v := w % PAGES;
    var k := f.kernel;
    LowBits(w);
    SameWalkMod(m, k, w);
    GrowsRefl(f, k, m);
    GrowsOnly(f, m, m, k, {}, Canon(v));
    if v < 0x4_0000 {
      LowFind(f, m, v);
    } else {
      HighWalk(f, m, v);
      if Lookup(m, k, Canon(v)).Some? {
        LeafOnly(f, m, Canon(v), NOT_PRESENT);
      }
    }
  }

  lemma LowFind(f: Forest, m: Machine, v: nat)
    requires Wf(f, m) && KernelOk(f, m) && v < 0x4_0000
    ensures FindTable(m, f.kernel, v) == None
  {
    LowWalk(f, m, v);
  }

  lemma CanonIsKernelPage(v: nat)
    requires 0x4_0000 <= v < PAGES
    ensures KernelPage(Canon(v))
  {}

  /** Mapping only takes pages; the reserved ones stay as they are. */
  lemma MapPageTakes(f: Forest, m: Machine, va: nat, pa: nat, flags: Flags)
    requires Wf(f, m) && KernelOk(f, m)
    ensures var n := MapPage(m, f.kernel, va, pa, flags).0;
      m.pmm.held <= n.pmm.held && n.pmm.reserved == m.pmm.reserved
  {
    hide Node, Ent, Wf, KernelOk, ReachTable, Missing, FreePages, SetEnt;
    var w := va / PAGE_SIZE;
    SameReachMod(m, f.kernel, w, flags);
    var added := KernelReach(f, m, w % PAGES, flags);
    var (mid, pt) := ReachTable(m, f.kernel, w, flags);
    SetEntPmm(mid, pt, PtIndex(w), LeafFor(pa, flags));
  }

  lemma UnmapPagePmm(m: Machine, root: nat, va: nat)
    ensures UnmapPage(m, root, va).0.pmm == m.pmm
  {}
}
