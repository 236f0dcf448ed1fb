/** The virtual window that the framebuffer is mapped into, page by page, and when
    mapping it succeeds, said of the state before the first page. */
module Window {
  import opened Bytes
  import opened PmmSpec
  import opened PageTables
  import opened Walks
  import V = Vmm

  const VIRTUAL_BASE: nat := 0x50_0000_0000

  /** The kernel page that virtual page `i` of the framebuffer names. */
  function PageAt(i: nat): nat { V.Canon((VIRTUAL_BASE / PAGE_SIZE + i) % V.PAGES) }

  function FrameFor(first: nat, i: nat): Mapping { Mapping((first + i) % FRAME_LIMIT, true, false, false) }

  /** Pages from..to-1 of the framebuffer are mapped in order from frame `first`,
      they were unmapped in `m0`, and every other mapping is as in `m0`. */
  ghost predicate MappedBetween(f: Forest, m0: Machine, m: Machine, first: nat, from: nat, to: nat) {
    && (forall i: nat | from <= i < to ::
          V.KernelPage(PageAt(i)) && Lookup(m, f.kernel, PageAt(i)) == Some(FrameFor(first, i)))
    && (forall i: nat | i < to :: V.KernelPage(PageAt(i)) && Lookup(m0, f.kernel, PageAt(i)) == None)
    && (forall i: nat, j: nat | i < j < to :: PageAt(i) != PageAt(j))
    && (forall c | V.KernelPage(c) && (forall i: nat | from <= i < to :: PageAt(i) != c) ::
          Lookup(m, f.kernel, c) == Lookup(m0, f.kernel, c))
    && V.SameUserMappings(f, m0, m)
  }

  lemma NothingMapped(f: Forest, m: Machine, first: nat)
    ensures MappedBetween(f, m, m, first, 0, 0) && Spent(f, m, m, 0) && Room(m, f.kernel, 0)
  {
    hide Node, Lookup, FreePages;
    assert Lacking(m, f.kernel, 0) == {};
  }

  lemma MapOneMore(f: Forest, m0: Machine, m: Machine, n: Machine, first: nat, i: nat)
    requires MappedBetween(f, m0, m, first, 0, i)
    requires V.KernelPage(PageAt(i)) && Lookup(m, f.kernel, PageAt(i)) == None
    requires V.OnlyChanges(f, m, n, PageAt(i), Some(FrameFor(first, i)))
    ensures MappedBetween(f, m0, n, first, 0, i + 1)
  {
    hide Lookup, PageAt, V.KernelPage, InTree;
    assert forall j: nat | j < i :: PageAt(j) != PageAt(i);
  }

  lemma PageIsMapped(f: Forest, m0: Machine, m: Machine, first: nat, from: nat, j: nat, count: nat)
    requires MappedBetween(f, m0, m, first, from, count) && from <= j < count
    ensures var v := (VIRTUAL_BASE / PAGE_SIZE + j) % V.PAGES;
      && PageAt(j) == V.Canon(v) && v >= 0x4_0000 && V.KernelPage(PageAt(j))
      && Lookup(m, f.kernel, PageAt(j)) == Some(FrameFor(first, j))
  {
    assert V.KernelPage(PageAt(j));
  }

  lemma PageName(i: nat)
    ensures var v := (VIRTUAL_BASE / PAGE_SIZE + i) % V.PAGES;
      PageAt(i) == V.Canon(v) && (v >= 0x4_0000 ==> V.KernelPage(PageAt(i)))
  {}

  lemma VirtualPage(i: nat)
    ensures (VIRTUAL_BASE + i * PAGE_SIZE) / PAGE_SIZE == VIRTUAL_BASE / PAGE_SIZE + i
    ensures (VIRTUAL_BASE + i * PAGE_SIZE) % PAGE_SIZE == 0
  {}

  lemma PhysicalPage(first: nat, i: nat)
    ensures (first * PAGE_SIZE + i * PAGE_SIZE) / PAGE_SIZE == first + i
    ensures (first * PAGE_SIZE + i * PAGE_SIZE) % PAGE_SIZE == 0
  {}

  const WINDOW_FLAGS: Flags := Flags(true, false, false)

  // ---- The condition on the state before --------------------------------------------------

  /** The tables that the first `count` pages lack. */
  function Lacking(m: Machine, root: nat, count: nat): set<Slot> {
    set i: nat, s | i < count && s in Path(root, PageAt(i)) && Node(m, s).None? :: s
  }

  /** The window is long enough, none of its pages is mapped, and there is a free page
      for every table that any of them lacks, tables they share counted once. */
  ghost predicate Room(m: Machine, root: nat, count: nat) {
    && VIRTUAL_BASE / PAGE_SIZE + count <= V.PAGES
    && (forall i: nat | i < count :: Lookup(m, root, PageAt(i)).None?)
    && |Lacking(m, root, count)| <= |FreePages(m.pmm)|
  }

  /** What holds once pages 0..i-1 are mapped: their tables are there, no others are
      new, and each new one has taken a free page. */
  ghost predicate Spent(f: Forest, m0: Machine, m: Machine, i: nat) {
    && (forall s | InTree(f, s) && s.root == f.kernel ::
          Node(m, s).Some? <==> Node(m0, s).Some? || s in Lacking(m0, f.kernel, i))
    && |FreePages(m.pmm)| + |Lacking(m0, f.kernel, i)| == |FreePages(m0.pmm)|
  }

  /** The tables on the way to page `i` that are neither there nor lacked before. */
  function Fresh(m0: Machine, root: nat, i: nat): set<Slot> {
    set s | s in Path(root, PageAt(i)) && Node(m0, s).None? && s !in Lacking(m0, root, i)
  }

  lemma LackingNext(m0: Machine, root: nat, i: nat)
    ensures Lacking(m0, root, i + 1) == Lacking(m0, root, i) + Fresh(m0, root, i)
    ensures |Lacking(m0, root, i + 1)| == |Lacking(m0, root, i)| + |Fresh(m0, root, i)|
  {
    hide Node, PageAt, Path;
    assert Lacking(m0, root, i + 1) == Lacking(m0, root, i) + Fresh(m0, root, i);
  }

  /** A walk lacks exactly the absent tables of its path. */
  lemma MissingCounts(m: Machine, root: nat, v: nat, absent: set<Slot>)
    requires absent == set s | s in Path(root, v) && Node(m, s).None?
    requires InTree(Forest(root, {}), Level1(root, v))
    ensures Missing(m, root, v) == |absent|
  {
    hide Node;
    Positions(Forest(root, {}), root, v);
    var s3, s2, s1 := Level3(root, v), Level2(root, v), Level1(root, v);
    ChildParent(s3, PdptIndex(v));
    ChildParent(s2, PdIndex(v));
    NoOrphan(m, s2);
    NoOrphan(m, s1);
    assert absent == if Missing(m, root, v) == 0 then {} else if Missing(m, root, v) == 1 then {s1}
                     else if Missing(m, root, v) == 2 then {s1, s2} else {s1, s2, s3};
  }

  /** Page numbers in the window are distinct, up to the end of the address space. */
  lemma WindowPages(i: nat)
    requires VIRTUAL_BASE / PAGE_SIZE + i <= V.PAGES
    ensures var v := (VIRTUAL_BASE / PAGE_SIZE + i) % V.PAGES;
      && (v >= 0x4_0000 <==> VIRTUAL_BASE / PAGE_SIZE + i < V.PAGES)
      && (v >= 0x4_0000 ==> V.KernelPage(PageAt(i)) && forall j: nat | j < i :: PageAt(j) != PageAt(i))
  {}

  lemma RoomShrinks(m: Machine, root: nat, i: nat, count: nat)
    requires i <= count && Room(m, root, count)
    ensures Room(m, root, i)
  {
    hide Node, Lookup, PageAt, Path, FreePages;
    var extra := Lacking(m, root, count) - Lacking(m, root, i);
    assert Lacking(m, root, count) == Lacking(m, root, i) + extra;
  }

  /** Page `i` can be mapped after those before it exactly if there was room for all
      of them to begin with. */
  lemma StepRoom(f: Forest, m0: Machine, m: Machine, first: nat, i: nat)
    requires MappedBetween(f, m0, m, first, 0, i) && Spent(f, m0, m, i) && Room(m0, f.kernel, i)
    ensures Room(m0, f.kernel, i + 1) <==>
      && (VIRTUAL_BASE / PAGE_SIZE + i) % V.PAGES >= 0x4_0000
      && Lookup(m, f.kernel, PageAt(i)).None?
      && Missing(m, f.kernel, PageAt(i)) <= |FreePages(m.pmm)|
  {
    hide Lookup, Missing, FreePages, V.KernelPage, Lacking, Spent, PageAt;
    WindowPages(i);
    if VIRTUAL_BASE / PAGE_SIZE + i < V.PAGES {
      assert Lookup(m, f.kernel, PageAt(i)) == Lookup(m0, f.kernel, PageAt(i));
      MissingIsFresh(f, m0, m, i);
      LackingNext(m0, f.kernel, i);
    }
  }

  lemma MissingIsFresh(f: Forest, m0: Machine, m: Machine, i: nat)
    requires Spent(f, m0, m, i) && V.KernelPage(PageAt(i))
    ensures Missing(m, f.kernel, PageAt(i)) == |Fresh(m0, f.kernel, i)|
    ensures |FreePages(m.pmm)| + |Lacking(m0, f.kernel, i)| == |FreePages(m0.pmm)|
  {
    hide Node, PageAt, Missing, FreePages, Lacking;
    var k, c := f.kernel, PageAt(i);
    V.KernelTree(f, c);
    V.KernelTree(Forest(k, {}), c);
    Positions(f, k, c);
    MissingCounts(m, k, c, Fresh(m0, k, i));
  }

  lemma SpentNext(f: Forest, m0: Machine, m: Machine, n: Machine, i: nat)
    requires Spent(f, m0, m, i) && V.KernelPage(PageAt(i))
    requires Costs(f, f.kernel, PageAt(i), m, n) && Node(n, Level1(f.kernel, PageAt(i))).Some?
    ensures Spent(f, m0, n, i + 1)
  {
    hide Node, PageAt, Missing, FreePages, Lacking, Path, InTree;
    var k, c := f.kernel, PageAt(i);
    MissingIsFresh(f, m0, m, i);
    LackingNext(m0, k, i);
    forall s | InTree(f, s) && s.root == k
      ensures Node(n, s).Some? <==> Node(m0, s).Some? || s in Lacking(m0, k, i + 1)
    {
      if s in Path(k, c) { PathPresent(f, n, c, s); }
    }
  }

  lemma PathPresent(f: Forest, n: Machine, c: nat, s: Slot)
    requires V.KernelPage(c) && Node(n, Level1(f.kernel, c)).Some? && s in Path(f.kernel, c)
    ensures Node(n, s).Some?
  {
    hide Node;
    var k := f.kernel;
    V.KernelTree(f, c);
    Positions(f, k, c);
    ChildParent(Level3(k, c), PdptIndex(c));
    ChildParent(Level2(k, c), PdIndex(c));
    NoOrphan(n, Level1(k, c));
    NoOrphan(n, Level2(k, c));
  }
}
