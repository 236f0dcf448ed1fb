/** Four-level page tables in physical memory, shared by the kernel tree and the
    user address spaces: the walk, the invariant that keeps the trees apart, and
    the two ways tables change on the way to a mapping. */
module PageTables {
  import opened Bytes
  import opened PmmSpec

  const ENTRIES: nat := 512

  /** Frame numbers have 40 bits. */
  const FRAME_LIMIT: nat := 0x100_0000_0000

  /** The bits of a page-table entry that the kernel or the processor reads;
      `frame` is the page number held in bits 12 to 51. */
  datatype Entry = Entry(present: bool, writable: bool, user: bool, large: bool, nx: bool, frame: nat)

  const NOT_PRESENT: Entry := Entry(false, false, false, false, false, 0)

  /** The flag bits a caller may ask for. */
  datatype Flags = Flags(writable: bool, user: bool, nx: bool)

  /** A physical page, seen the way it was last initialised. */
  datatype Page = Table(entries: seq<Entry>) | Data(bytes: seq<byte>)

  datatype Machine = Machine(pmm: State, mem: map<nat, Page>)

  function ZeroTable(): Page { Table(seq(ENTRIES, (i: nat) => NOT_PRESENT)) }

  predicate IsTable(m: Machine, p: nat) {
    p in m.mem && m.mem[p].Table? && |m.mem[p].entries| == ENTRIES
  }

  function Ent(m: Machine, p: nat, i: nat): Entry {
    if IsTable(m, p) && i < ENTRIES then m.mem[p].entries[i] else NOT_PRESENT
  }

  function SetEnt(m: Machine, p: nat, i: nat, e: Entry): Machine {
    if IsTable(m, p) && i < ENTRIES then m.(mem := m.mem[p := Table(m.mem[p].entries[i := e])]) else m
  }

  function Opened(e: Entry, flags: Flags): Entry {
    e.(writable := e.writable || flags.writable, user := e.user || flags.user)
  }

  function Link(p: nat, flags: Flags): Entry { Entry(true, flags.writable, flags.user, false, false, p) }

  /** The table behind entry `i` of table `t`, allocated and zeroed if absent;
      page number 0 stands for the null pointer. */
  function EnsureTable(m: Machine, t: nat, i: nat, flags: Flags): (Machine, nat) {
    var e := Ent(m, t, i);
    if e.present then
      if e.large then (m, 0) else (SetEnt(m, t, i, Opened(e, flags)), e.frame)
    else
      var (pmm, page) := Alloc(m.pmm);
      if page.None? || page.value == 0 then (m.(pmm := pmm), 0)
      else (SetEnt(Machine(pmm, m.mem[page.value := ZeroTable()]), t, i, Link(page.value, flags)), page.value)
  }

  // ---- Positions in a tree -----------------------------------------------------

  /** A table's position: level 4 is the root, level 1 holds the page mappings;
      `prefix` is the virtual page number without its lowest `9 * level` bits. */
  datatype Slot = Slot(root: nat, level: nat, prefix: nat)

  function Parent(s: Slot): Slot { Slot(s.root, s.level + 1, s.prefix / ENTRIES) }

  function Index(s: Slot): nat { s.prefix % ENTRIES }

  function Child(s: Slot, i: nat): Slot
    requires s.level > 0
  {
    Slot(s.root, s.level - 1, s.prefix * ENTRIES + i)
  }

  /** The table page at a position, found by walking down from the root. */
  function Node(m: Machine, s: Slot): Option<nat>
    decreases if s.level < 4 then 4 - s.level else 0
  {
    if s.level >= 4 then Some(s.root)
    else
      match Node(m, Parent(s))
      case None => None
      case Some(p) =>
        var e := Ent(m, p, Index(s));
        if e.present && !e.large then Some(e.frame) else None
  }

  /** The kernel tree and the live user trees. */
  datatype Forest = Forest(kernel: nat, users: set<nat>)

  /** User mappings live below entry 1 of their root; entry 0 is the kernel's. */
  predicate UserSlot(s: Slot) {
    || (s.level == 4 && s.prefix == 0)
    || (s.level == 3 && s.prefix == 1)
    || (s.level == 2 && 0x200 <= s.prefix < 0x400)
    || (s.level == 1 && 0x4_0000 <= s.prefix < 0x8_0000)
  }

  /** The whole kernel tree, except that the second of the two 1 GiB windows
      sharing one page directory (level 2, prefix 512) is left to its twin. */
  predicate KernelSlot(s: Slot) {
    || (s.level == 4 && s.prefix == 0)
    || (s.level == 3 && s.prefix < 0x200)
    || (s.level == 2 && s.prefix < 0x4_0000 && s.prefix != 0x200)
    || (s.level == 1 && s.prefix < 0x800_0000 && s.prefix / 0x200 != 0x200)
  }

  predicate InTree(f: Forest, s: Slot) {
    if s.root == f.kernel then KernelSlot(s) else s.root in f.users && UserSlot(s)
  }

  /** Every table of every tree is a non-null page the allocator will not hand
      out, and sits at exactly one position of one tree. */
  ghost predicate Separated(f: Forest, m: Machine) {
    && (forall s | InTree(f, s) && Node(m, s).Some? ::
          var p := Node(m, s).value; p != 0 && p in m.pmm.unavailable && IsTable(m, p))
    && (forall s, t | InTree(f, s) && InTree(f, t) && Node(m, s).Some? && Node(m, s) == Node(m, t) :: s == t)
  }

  lemma ParentInTree(f: Forest, s: Slot)
    requires InTree(f, s) && s.level < 4
    ensures InTree(f, Parent(s)) && s == Child(Parent(s), Index(s))
  {}

  lemma NodeStep(m: Machine, s: Slot)
    requires s.level < 4
    ensures Node(m, s) == match Node(m, Parent(s))
                          case None => None
                          case Some(p) => var e := Ent(m, p, Index(s));
                                          if e.present && !e.large then Some(e.frame) else None
  {}

  // ---- Changes that keep the shape -----------------------------------------------

  /** The part of an entry the walk depends on. */
  predicate SameLink(a: Entry, b: Entry) {
    a.present == b.present && a.large == b.large && a.frame == b.frame
  }

  lemma {:induction false} SameWalk(f: Forest, m: Machine, n: Machine, s: Slot)
    requires InTree(f, s)
    requires forall u | InTree(f, u) && u.level > 1 && Node(m, u).Some? ::
      forall i: nat | i < ENTRIES :: SameLink(Ent(m, Node(m, u).value, i), Ent(n, Node(m, u).value, i))
    ensures Node(n, s) == Node(m, s)
    decreases if s.level < 4 then 4 - s.level else 0
  {
    if s.level < 4 {
      ParentInTree(f, s);
      SameWalk(f, m, n, Parent(s));
    }
  }

  lemma ChildParent(s: Slot, i: nat)
    requires s.level > 0 && i < ENTRIES
    ensures Parent(Child(s, i)) == s && Index(Child(s, i)) == i
  {}

  lemma SetEntReads(m: Machine, t: nat, i: nat, e: Entry)
    requires IsTable(m, t) && i < ENTRIES
    ensures forall q: nat, j: nat :: Ent(SetEnt(m, t, i, e), q, j) == if q == t && j == i then e else Ent(m, q, j)
    ensures forall q: nat :: IsTable(SetEnt(m, t, i, e), q) == IsTable(m, q)
    ensures forall q: nat | q != t && q in m.mem ::
      q in SetEnt(m, t, i, e).mem && SetEnt(m, t, i, e).mem[q] == m.mem[q]
  {}

  /** Two memories with the same walks and the same tables. */
  lemma SeparatedTransfer(f: Forest, m: Machine, n: Machine)
    requires Separated(f, m)
    requires forall s | InTree(f, s) :: Node(n, s) == Node(m, s)
    requires m.pmm.unavailable <= n.pmm.unavailable
    requires forall q: nat | IsTable(m, q) :: IsTable(n, q)
    ensures Separated(f, n)
  {
    hide Node;
  }

  /** Widening the rights of a present link moves no table. */
  lemma OpenLink(f: Forest, m: Machine, t: nat, i: nat, flags: Flags)
    requires Separated(f, m) && IsTable(m, t) && i < ENTRIES
    ensures var n := SetEnt(m, t, i, Opened(Ent(m, t, i), flags));
      Separated(f, n) && forall s | InTree(f, s) :: Node(n, s) == Node(m, s)
  {
    var n := SetEnt(m, t, i, Opened(Ent(m, t, i), flags));
    SetEntReads(m, t, i, Opened(Ent(m, t, i), flags));
    forall s | InTree(f, s) ensures Node(n, s) == Node(m, s) { SameWalk(f, m, n, s); }
    SeparatedTransfer(f, m, n);
  }

  /** Writing a page mapping moves no table: a level-1 table is nothing else. */
  lemma WriteLeaf(f: Forest, m: Machine, leaf: Slot, i: nat, e: Entry)
    requires Separated(f, m) && InTree(f, leaf) && leaf.level == 1 && Node(m, leaf).Some? && i < ENTRIES
    ensures var n := SetEnt(m, Node(m, leaf).value, i, e);
      Separated(f, n) && forall s | InTree(f, s) :: Node(n, s) == Node(m, s)
  {
    var t := Node(m, leaf).value;
    var n := SetEnt(m, t, i, e);
    SetEntReads(m, t, i, e);
    forall u | InTree(f, u) && u.level > 1 && Node(m, u).Some? ensures Node(m, u).value != t {
      assert Node(m, u) != Node(m, leaf);
    }
    forall s | InTree(f, s) ensures Node(n, s) == Node(m, s) { SameWalk(f, m, n, s); }
    SeparatedTransfer(f, m, n);
  }

  // ---- Hanging a fresh table into a tree -----------------------------------------

  /** Memory after zeroing the fresh page `p` and linking it from entry `i` of `t`. */
  function Attached(m: Machine, pmm: State, t: nat, i: nat, p: nat, flags: Flags): Machine {
    SetEnt(Machine(pmm, m.mem[p := ZeroTable()]), t, i, Link(p, flags))
  }

  lemma AttachedReads(m: Machine, pmm: State, t: nat, i: nat, p: nat, flags: Flags)
    requires IsTable(m, t) && i < ENTRIES && p != t
    ensures var n := Attached(m, pmm, t, i, p, flags);
      && (forall q: nat, j: nat :: Ent(n, q, j) == if q == t && j == i then Link(p, flags)
                                                    else if q == p then NOT_PRESENT else Ent(m, q, j))
      && (forall q: nat :: IsTable(n, q) <==> IsTable(m, q) || q == p)
      && (forall q: nat | q != t && q != p :: q in m.mem ==> q in n.mem && n.mem[q] == m.mem[q])
  {
    SetEntReads(Machine(pmm, m.mem[p := ZeroTable()]), t, i, Link(p, flags));
  }

  ghost predicate CanAttach(f: Forest, m: Machine, s: Slot, i: nat, p: nat) {
    && Separated(f, m) && InTree(f, s) && s.level > 1 && i < ENTRIES && InTree(f, Child(s, i))
    && Node(m, s).Some? && !Ent(m, Node(m, s).value, i).present
    && p != 0 && p !in m.pmm.unavailable
  }

  lemma {:induction false} AttachWalk(f: Forest, m: Machine, s: Slot, i: nat, p: nat, pmm: State, flags: Flags, u: Slot)
    requires CanAttach(f, m, s, i, p) && InTree(f, u)
    ensures var n := Attached(m, pmm, Node(m, s).value, i, p, flags);
      Node(n, u) == if u == Child(s, i) then Some(p) else Node(m, u)
    decreases if u.level < 4 then 4 - u.level else 0
  {
    var t := Node(m, s).value;
    var n := Attached(m, pmm, t, i, p, flags);
    AttachedReads(m, pmm, t, i, p, flags);
    ChildParent(s, i);
    if u.level < 4 {
      ParentInTree(f, u);
      var w := Parent(u);
      AttachWalk(f, m, s, i, p, pmm, flags, w);
      NodeStep(n, u);
      NodeStep(m, u);
      if w == Child(s, i) {
        NodeStep(m, w);
      } else if Node(m, w) == Some(t) {
        assert w == s;
      }
    }
  }

  lemma AttachSeparated(f: Forest, m: Machine, s: Slot, i: nat, p: nat, pmm: State, flags: Flags)
    requires CanAttach(f, m, s, i, p)
    requires pmm.unavailable == m.pmm.unavailable + {p}
    ensures Separated(f, Attached(m, pmm, Node(m, s).value, i, p, flags))
  {
    var n := Attached(m, pmm, Node(m, s).value, i, p, flags);
    AttachedReads(m, pmm, Node(m, s).value, i, p, flags);
    forall u | InTree(f, u) ensures Node(n, u) == if u == Child(s, i) then Some(p) else Node(m, u) {
      AttachWalk(f, m, s, i, p, pmm, flags, u);
    }
    hide Node;
  }
}
