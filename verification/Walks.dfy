/** The three `ensure_table` steps on the way to a page mapping, which
    `address_space_map_user` and `vmm_map_page` share. */
module Walks {
  import opened Bytes
  import opened PmmSpec
  import opened PageTables
  import opened Forests

  function Pml4Index(v: nat): nat { v / 0x800_0000 % ENTRIES }
  function PdptIndex(v: nat): nat { v / 0x4_0000 % ENTRIES }
  function PdIndex(v: nat): nat { v / 0x200 % ENTRIES }
  function PtIndex(v: nat): nat { v % ENTRIES }

  /** The level-1 table for virtual page `v`, creating what is missing; page
      number 0 if a step fails. */
  function ReachTable(m: Machine, root: nat, v: nat, flags: Flags): (Machine, nat) {
    var (m1, pdpt) := EnsureTable(m, root, Pml4Index(v), flags);
    if pdpt == 0 then (m1, 0)
    else
      var (m2, pd) := EnsureTable(m1, pdpt, PdptIndex(v), flags);
      if pd == 0 then (m2, 0)
      else EnsureTable(m2, pd, PdIndex(v), flags)
  }

  function Top(root: nat): Slot { Slot(root, 4, 0) }
  function Level3(root: nat, v: nat): Slot { Slot(root, 3, v / 0x800_0000) }
  function Level2(root: nat, v: nat): Slot { Slot(root, 2, v / 0x4_0000) }
  function Level1(root: nat, v: nat): Slot { Slot(root, 1, v / 0x200) }

  lemma Positions(f: Forest, root: nat, v: nat)
    requires InTree(f, Level1(root, v))
    ensures InTree(f, Level2(root, v)) && InTree(f, Level3(root, v)) && InTree(f, Top(root))
    ensures Level3(root, v) == Child(Top(root), Pml4Index(v))
    ensures Level2(root, v) == Child(Level3(root, v), PdptIndex(v))
    ensures Level1(root, v) == Child(Level2(root, v), PdIndex(v))
  {
    assert v / 0x200 / 0x200 == v / 0x4_0000;
    assert v / 0x4_0000 / 0x200 == v / 0x800_0000;
    assert v / 0x800_0000 < 0x200;
  }

  /** The positions of the tables below the root on the way to `v`. */
  function Path(root: nat, v: nat): set<Slot> { {Level3(root, v), Level2(root, v), Level1(root, v)} }

  /** How many tables the walk to `v` still lacks. */
  function Missing(m: Machine, root: nat, v: nat): nat {
    if Node(m, Level1(root, v)).Some? then 0
    else if Node(m, Level2(root, v)).Some? then 1
    else if Node(m, Level3(root, v)).Some? then 2
    else 3
  }

  /** The pages the walk takes from the allocator. */
  function Added(m: Machine, root: nat, v: nat, flags: Flags): set<nat> {
    var a1 := AddedTable(m, root, Pml4Index(v));
    var (m1, pdpt) := EnsureTable(m, root, Pml4Index(v), flags);
    if pdpt == 0 then a1
    else
      var a2 := AddedTable(m1, pdpt, PdptIndex(v));
      var (m2, pd) := EnsureTable(m1, pdpt, PdptIndex(v), flags);
      if pd == 0 then a1 + a2
      else a1 + a2 + AddedTable(m2, pd, PdIndex(v))
  }

  /** Whatever the outcome of the walk, all it did was to grow the tree; on
      success it returns the table at `v`'s position. */
  lemma ReachGrows(f: Forest, m: Machine, root: nat, v: nat, flags: Flags)
    requires Wf(f, m) && InTree(f, Level1(root, v))
    requires root != f.kernel ==> flags.user
    ensures var (n, p) := ReachTable(m, root, v, flags);
      && Wf(f, n)
      && Grows(f, root, m, n, Added(m, root, v, flags))
      && (p != 0 ==> Node(n, Level1(root, v)) == Some(p))
      && (p != 0 && flags.writable ==> PathWritable(n, Level1(root, v)))
  {
    hide Node, Wf, Grows, PathWritable, Ent, InTree, LinkEntry, EnsureTable, AddedTable, Separated;
    Positions(f, root, v);
    var s4, s3, s2 := Top(root), Level3(root, v), Level2(root, v);
    NodeTop(m, s4);
    PathTop(m, s4);
    EnsureStep(f, m, s4, Pml4Index(v), flags);
    var (m1, pdpt) := EnsureTable(m, root, Pml4Index(v), flags);
    if pdpt != 0 {
      EnsureStep(f, m1, s3, PdptIndex(v), flags);
      var (m2, pd) := EnsureTable(m1, pdpt, PdptIndex(v), flags);
      var a1, a2 := AddedTable(m, root, Pml4Index(v)), AddedTable(m1, pdpt, PdptIndex(v));
      WfSeparated(f, m);
      GrowsTrans(f, root, m, m1, m2, a1, a2);
      if pd != 0 {
        EnsureStep(f, m2, s2, PdIndex(v), flags);
        var (m3, pt) := EnsureTable(m2, pd, PdIndex(v), flags);
        GrowsTrans(f, root, m, m2, m3, a1 + a2, AddedTable(m2, pd, PdIndex(v)));
      }
    }
  }

  lemma WfSeparated(f: Forest, m: Machine)
    requires Wf(f, m)
    ensures Separated(f, m)
  {}

  lemma NodeTop(m: Machine, s: Slot)
    requires s.level == 4
    ensures Node(m, s) == Some(s.root)
  {}

  lemma PathTop(m: Machine, s: Slot)
    requires s.level == 4
    ensures PathWritable(m, s)
  {}

  lemma EnsureStep(f: Forest, m: Machine, s: Slot, i: nat, flags: Flags)
    requires Wf(f, m) && InTree(f, s) && s.level > 1 && i < ENTRIES && Node(m, s).Some? && InTree(f, Child(s, i))
    requires s.root != f.kernel ==> flags.user
    requires flags.writable ==> PathWritable(m, s)
    ensures var t := Node(m, s).value; var (n, p) := EnsureTable(m, t, i, flags);
      && Wf(f, n) && Grows(f, s.root, m, n, AddedTable(m, t, i))
      && (p != 0 ==> Node(n, Child(s, i)) == Some(p))
      && (p != 0 && flags.writable ==> PathWritable(n, Child(s, i)))
  {
    hide Node, Grows, Ent, LinkEntry, EnsureTable, AddedTable, Separated, UserRights;
    var t := Node(m, s).value;
    var (n, p) := EnsureTable(m, t, i, flags);
    EnsureGrows(f, m, s, i, flags);
    if p != 0 && flags.writable {
      GrowsPathWritable(f, s.root, m, n, AddedTable(m, t, i), s);
      ChildParent(s, i);
    }
  }

  // ---- When the walk fails ---------------------------------------------------------

  predicate NotLarge(m: Machine, s: Slot) { LinkEntry(m, s).present ==> !LinkEntry(m, s).large }

  lemma GrowsNotLarge(f: Forest, root: nat, m: Machine, n: Machine, added: set<nat>, s: Slot)
    requires Grows(f, root, m, n, added) && InTree(f, s) && NotLarge(m, s)
    ensures NotLarge(n, s)
  {
    if s.level < 4 {
      ParentInTree(f, s);
      var w := Parent(s);
      assert GrowsAt(root, m, n, added, w);
      if Node(n, w).Some? {
        var p := Node(n, w).value;
        var e := if Node(m, w).Some? then Ent(m, p, Index(s)) else NOT_PRESENT;
        assert GrowsEntry(w.level, e, Ent(n, p, Index(s)));
      }
    }
  }

  /** One step, where no large page is in the way, fails exactly when the table is
      missing and no page is free; otherwise it takes one page if the table was
      missing, and no other position changes. */
  lemma EnsureMissing(f: Forest, m: Machine, s: Slot, i: nat, flags: Flags)
    requires Wf(f, m) && InTree(f, s) && s.level > 1 && i < ENTRIES && Node(m, s).Some? && InTree(f, Child(s, i))
    requires NotLarge(m, Child(s, i))
    requires s.root != f.kernel ==> flags.user
    ensures var c := Child(s, i); var (n, p) := EnsureTable(m, Node(m, s).value, i, flags);
      && (p == 0 <==> Node(m, c).None? && FreePages(m.pmm) == {})
      && (p == 0 ==> n == m)
      && (p != 0 ==>
            && |FreePages(n.pmm)| == |FreePages(m.pmm)| - (if Node(m, c).None? then 1 else 0)
            && (forall u | InTree(f, u) && u != c :: Node(n, u) == Node(m, u)))
  {
    hide Node, Ent, Separated, UserRights;
    var t, c := Node(m, s).value, Child(s, i);
    var (n, p) := EnsureTable(m, t, i, flags);
    EnsureGrows(f, m, s, i, flags);
    ChildParent(s, i);
    NodeStep(m, c);
    if p != 0 {
      if Node(m, c).None? {
        AllocValid(m.pmm);
        EnsurePmm(m, t, i, flags);
      }
      forall u | InTree(f, u) && u != c ensures Node(n, u) == Node(m, u) {
        OnlyChildGrows(f, s.root, m, n, p, AddedTable(m, t, i), c, u);
      }
    }
  }

  lemma EnsurePmm(m: Machine, t: nat, i: nat, flags: Flags)
    ensures EnsureTable(m, t, i, flags).0.pmm == if Ent(m, t, i).present then m.pmm else Alloc(m.pmm).0
  {}

  lemma OnlyChildGrows(f: Forest, root: nat, m: Machine, n: Machine, p: nat, added: set<nat>, c: Slot, u: Slot)
    requires Grows(f, root, m, n, added) && Separated(f, n)
    requires InTree(f, c) && Node(n, c) == Some(p) && added <= {p}
    requires InTree(f, u) && u != c
    ensures Node(n, u) == Node(m, u)
  {
    hide Node, Ent;
    assert GrowsAt(root, m, n, added, u);
  }

  /** The walk took one free page for each table it lacked, and hung tables nowhere
      but on the way to `v`. */
  ghost predicate Costs(f: Forest, root: nat, v: nat, m: Machine, n: Machine) {
    && |FreePages(n.pmm)| == |FreePages(m.pmm)| - Missing(m, root, v)
    && (forall u | InTree(f, u) && u !in Path(root, v) :: Node(n, u) == Node(m, u))
  }

  /** A walk with no large page in its way fails exactly when more tables are
      missing than pages are free, and then it has used up the free pages. */
  lemma ReachFails(f: Forest, m: Machine, root: nat, v: nat, flags: Flags)
    requires Wf(f, m) && InTree(f, Level1(root, v))
    requires root != f.kernel ==> flags.user
    requires NotLarge(m, Level3(root, v)) && NotLarge(m, Level2(root, v)) && NotLarge(m, Level1(root, v))
    ensures ReachTable(m, root, v, flags).1 == 0 <==> Missing(m, root, v) > |FreePages(m.pmm)|
    ensures ReachTable(m, root, v, flags).1 == 0 ==> FreePages(ReachTable(m, root, v, flags).0.pmm) == {}
    ensures ReachTable(m, root, v, flags).1 != 0 ==> Costs(f, root, v, m, ReachTable(m, root, v, flags).0)
  {
    hide Node, Wf, Ent, InTree, EnsureTable, FreePages, Grows, AddedTable, LinkEntry, NotLarge;
    Positions(f, root, v);
    var s4, s3, s2, s1 := Top(root), Level3(root, v), Level2(root, v), Level1(root, v);
    NodeTop(m, s4);
    ChildParent(s4, Pml4Index(v)); ChildParent(s3, PdptIndex(v)); ChildParent(s2, PdIndex(v));
    NoOrphan(m, s3); NoOrphan(m, s2); NoOrphan(m, s1);
    EnsureMissing(f, m, s4, Pml4Index(v), flags);
    EnsureWf(f, m, s4, Pml4Index(v), flags);
    var (m1, pdpt) := EnsureTable(m, root, Pml4Index(v), flags);
    if pdpt != 0 {
      GrowsNotLarge(f, root, m, m1, AddedTable(m, root, Pml4Index(v)), s2);
      GrowsNotLarge(f, root, m, m1, AddedTable(m, root, Pml4Index(v)), s1);
      EnsureMissing(f, m1, s3, PdptIndex(v), flags);
      EnsureWf(f, m1, s3, PdptIndex(v), flags);
      var (m2, pd) := EnsureTable(m1, pdpt, PdptIndex(v), flags);
      if pd != 0 {
        GrowsNotLarge(f, root, m1, m2, AddedTable(m1, pdpt, PdptIndex(v)), s1);
        EnsureMissing(f, m2, s2, PdIndex(v), flags);
      }
    }
  }

  lemma NoOrphan(m: Machine, s: Slot)
    requires s.level < 4
    ensures Node(m, s).Some? ==> Node(m, Parent(s)).Some?
  {}

  lemma EnsureWf(f: Forest, m: Machine, s: Slot, i: nat, flags: Flags)
    requires Wf(f, m) && InTree(f, s) && s.level > 1 && i < ENTRIES && Node(m, s).Some? && InTree(f, Child(s, i))
    requires s.root != f.kernel ==> flags.user
    ensures var t := Node(m, s).value; var (n, p) := EnsureTable(m, t, i, flags);
      && Wf(f, n) && Grows(f, s.root, m, n, AddedTable(m, t, i))
      && (p != 0 ==> Node(n, Child(s, i)) == Some(p))
  {
    EnsureGrows(f, m, s, i, flags);
  }

  // ---- Mappings ------------------------------------------------------------------------

  /** A mapped page's frame and the rights its own entry grants. */
  datatype Mapping = Mapping(frame: nat, writable: bool, user: bool, nx: bool)

  function MappingOf(e: Entry): Option<Mapping> {
    if e.present then Some(Mapping(e.frame, e.writable, e.user, e.nx)) else None
  }

  function Lookup(m: Machine, root: nat, v: nat): Option<Mapping> {
    match Node(m, Level1(root, v))
    case None => None
    case Some(p) => MappingOf(Ent(m, p, PtIndex(v)))
  }

  lemma MappedIsReached(m: Machine, root: nat, v: nat)
    ensures Lookup(m, root, v).Some? ==> Missing(m, root, v) == 0
  {}

  /** Growing a tree changes no mapping of any tree. */
  lemma GrowsLookup(f: Forest, root: nat, m: Machine, n: Machine, added: set<nat>, r: nat, v: nat)
    requires Grows(f, root, m, n, added) && InTree(f, Level1(r, v))
    ensures Lookup(n, r, v) == Lookup(m, r, v)
  {
    var s := Level1(r, v);
    assert GrowsAt(root, m, n, added, s);
    if Node(n, s).Some? {
      var p := Node(n, s).value;
      var e := if Node(m, s).Some? then Ent(m, p, PtIndex(v)) else NOT_PRESENT;
      assert GrowsEntry(1, e, Ent(n, p, PtIndex(v)));
    }
  }

  /** Writing the entry of one page changes the mapping of that page alone. */
  lemma LeafLookup(f: Forest, m: Machine, root: nat, w: nat, e: Entry, r: nat, v: nat)
    requires Separated(f, m) && InTree(f, Level1(root, w)) && Node(m, Level1(root, w)).Some?
    requires InTree(f, Level1(r, v))
    ensures var n := SetEnt(m, Node(m, Level1(root, w)).value, PtIndex(w), e);
      Lookup(n, r, v) == if r == root && v == w then MappingOf(e) else Lookup(m, r, v)
  {
    var leaf := Level1(root, w);
    WriteLeaf(f, m, leaf, PtIndex(w), e);
    SetEntReads(m, Node(m, leaf).value, PtIndex(w), e);
    if Node(m, Level1(r, v)) == Node(m, leaf) {
      assert Level1(r, v) == leaf;
    }
  }
}
