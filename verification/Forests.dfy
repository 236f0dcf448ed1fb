/** The invariant of all page-table trees together, and what `ensure_table`
    does to it: trees only grow, and growing changes no mapping. */
module Forests {
  import opened Bytes
  import opened PmmSpec
  import opened PageTables

  /** The entry that links a table into its parent. */
  function LinkEntry(m: Machine, s: Slot): Entry {
    if s.level >= 4 then NOT_PRESENT
    else
      match Node(m, Parent(s))
      case None => NOT_PRESENT
      case Some(p) => Ent(m, p, Index(s))
  }

  /** Every link from the root down to a table permits writing. */
  predicate PathWritable(m: Machine, s: Slot)
    decreases if s.level < 4 then 4 - s.level else 0
  {
    s.level >= 4 || (LinkEntry(m, s).writable && PathWritable(m, Parent(s)))
  }

  /** Links of user trees admit user accesses, never forbid execution, and never
      stand for a large page. */
  predicate UserLink(e: Entry) { e.present ==> e.user && !e.nx && !e.large }

  /** A writable mapping is writable all the way down from the root. */
  predicate UserLeaf(m: Machine, s: Slot, e: Entry) {
    e.present ==> e.user && (e.writable ==> PathWritable(m, s))
  }

  ghost predicate UserTable(m: Machine, s: Slot) {
    && UserLink(LinkEntry(m, s))
    && (s.level == 1 && Node(m, s).Some? ==>
          forall i: nat | i < ENTRIES :: UserLeaf(m, s, Ent(m, Node(m, s).value, i)))
  }

  ghost predicate UserRights(f: Forest, m: Machine) {
    forall s | InTree(f, s) && s.root != f.kernel :: UserTable(m, s)
  }

  ghost predicate Wf(f: Forest, m: Machine) {
    && PmmSpec.Valid(m.pmm) && 0 in m.pmm.reserved
    && f.kernel !in f.users
    && Separated(f, m)
    && UserRights(f, m)
  }

  /** From `m` to `n` the tables `added` were taken from the allocator and hung
      into the tree of `root`; every other table, every mapping and every page
      that is not a table stayed as it was. */
  ghost predicate Grows(f: Forest, root: nat, m: Machine, n: Machine, added: set<nat>) {
    && n.pmm.pages == m.pmm.pages && n.pmm.reserved == m.pmm.reserved
    && n.pmm.unavailable == m.pmm.unavailable + added
    && n.pmm.held == m.pmm.held + added
    && added !! m.pmm.unavailable
    && (forall s | InTree(f, s) :: GrowsAt(root, m, n, added, s))
    && (forall p: nat | p in added :: exists s :: InTree(f, s) && s.root == root && Node(n, s) == Some(p))
    && (forall q: nat | q in m.pmm.unavailable && q in m.mem && !TableAt(f, m, q) ::
          q in n.mem && n.mem[q] == m.mem[q])
  }

  ghost predicate TableAt(f: Forest, m: Machine, q: nat) {
    exists s :: InTree(f, s) && Node(m, s) == Some(q)
  }

  predicate GrowsAt(root: nat, m: Machine, n: Machine, added: set<nat>, s: Slot) {
    match Node(m, s)
    case Some(p) =>
      && Node(n, s) == Some(p)
      && (forall i: nat | i < ENTRIES :: GrowsEntry(s.level, Ent(m, p, i), Ent(n, p, i)))
    case None =>
      Node(n, s).Some? ==>
        && s.root == root && Node(n, s).value in added
        && (forall i: nat | i < ENTRIES :: GrowsEntry(s.level, NOT_PRESENT, Ent(n, Node(n, s).value, i)))
  }

  /** Mappings and large pages keep their entry; links keep their target and may gain
      rights; an absent link may become present. */
  predicate GrowsEntry(level: nat, e: Entry, e': Entry) {
    if level <= 1 then e' == e
    else if e.present then
      && SameLink(e, e') && e'.nx == e.nx
      && (e.writable ==> e'.writable) && (e.user ==> e'.user)
      && (e.large ==> e' == e)
    else e'.present ==> !e'.large && !e'.nx
  }

  lemma GrowsRefl(f: Forest, root: nat, m: Machine)
    ensures Grows(f, root, m, m, {})
  {}

  lemma GrowsTrans(f: Forest, root: nat, m: Machine, n: Machine, o: Machine, a: set<nat>, b: set<nat>)
    requires Grows(f, root, m, n, a) && Grows(f, root, n, o, b)
    requires Separated(f, m)
    ensures Grows(f, root, m, o, a + b)
  {
    hide Node, Ent, InTree;
    forall s | InTree(f, s) ensures GrowsAt(root, m, o, a + b, s) {
      GrowsAtTrans(root, m, n, o, a, b, s);
    }
    forall p: nat | p in a + b ensures exists s :: InTree(f, s) && s.root == root && Node(o, s) == Some(p) {
      if p in a {
        var s :| InTree(f, s) && s.root == root && Node(n, s) == Some(p);
        assert GrowsAt(root, n, o, b, s);
      }
    }
    forall q: nat | q in m.pmm.unavailable && q in m.mem && !TableAt(f, m, q) ensures !TableAt(f, n, q) {}
  }

  lemma GrowsAtTrans(root: nat, m: Machine, n: Machine, o: Machine, a: set<nat>, b: set<nat>, s: Slot)
    requires GrowsAt(root, m, n, a, s) && GrowsAt(root, n, o, b, s)
    ensures GrowsAt(root, m, o, a + b, s)
  {
    hide Node, Ent;
    if Node(m, s).Some? {
      var p := Node(m, s).value;
      forall i: nat | i < ENTRIES ensures GrowsEntry(s.level, Ent(m, p, i), Ent(o, p, i)) {
        assert GrowsEntry(s.level, Ent(m, p, i), Ent(n, p, i));
        assert GrowsEntry(s.level, Ent(n, p, i), Ent(o, p, i));
      }
    } else if Node(n, s).Some? {
      var p := Node(n, s).value;
      forall i: nat | i < ENTRIES ensures GrowsEntry(s.level, NOT_PRESENT, Ent(o, p, i)) {
        assert GrowsEntry(s.level, NOT_PRESENT, Ent(n, p, i));
        assert GrowsEntry(s.level, Ent(n, p, i), Ent(o, p, i));
      }
    }
  }

  // ---- Rights under growth ---------------------------------------------------------

  lemma GrowsLink(f: Forest, root: nat, m: Machine, n: Machine, added: set<nat>, s: Slot)
    requires Grows(f, root, m, n, added) && InTree(f, s) && s.level < 4 && LinkEntry(m, s).present
    ensures GrowsEntry(s.level + 1, LinkEntry(m, s), LinkEntry(n, s))
  {
    ParentInTree(f, s);
    assert GrowsAt(root, m, n, added, Parent(s));
  }

  lemma {:induction false} GrowsPathWritable(f: Forest, root: nat, m: Machine, n: Machine, added: set<nat>, s: Slot)
    requires Grows(f, root, m, n, added) && InTree(f, s) && PathWritable(m, s) && Node(m, s).Some?
    ensures PathWritable(n, s)
    decreases if s.level < 4 then 4 - s.level else 0
  {
    if s.level < 4 {
      ParentInTree(f, s);
      NodeStep(m, s);
      GrowsLink(f, root, m, n, added, s);
      GrowsPathWritable(f, root, m, n, added, Parent(s));
    }
  }

  /** Growing keeps the rights invariant as long as new links are user links. */
  lemma GrowsUserRights(f: Forest, root: nat, m: Machine, n: Machine, added: set<nat>)
    requires Grows(f, root, m, n, added) && UserRights(f, m)
    requires root != f.kernel ==> forall s | InTree(f, s) && s.root == root :: UserLink(LinkEntry(n, s))
    ensures UserRights(f, n)
  {
    forall s | InTree(f, s) && s.root != f.kernel ensures UserTable(n, s) {
      GrowsUserTable(f, root, m, n, added, s);
    }
  }

  lemma GrowsUserTable(f: Forest, root: nat, m: Machine, n: Machine, added: set<nat>, s: Slot)
    requires Grows(f, root, m, n, added) && UserRights(f, m)
    requires root != f.kernel ==> forall u | InTree(f, u) && u.root == root :: UserLink(LinkEntry(n, u))
    requires InTree(f, s) && s.root != f.kernel
    ensures UserTable(n, s)
  {
    hide PathWritable;
    assert UserTable(m, s);
    assert GrowsAt(root, m, n, added, s);
    if s.root != root && s.level < 4 {
      ParentInTree(f, s);
      assert GrowsAt(root, m, n, added, Parent(s));
    }
    if s.level == 1 && Node(m, s).Some? {
      var p := Node(m, s).value;
      if PathWritable(m, s) { GrowsPathWritable(f, root, m, n, added, s); }
      forall i: nat | i < ENTRIES ensures UserLeaf(n, s, Ent(n, p, i)) {
        assert UserLeaf(m, s, Ent(m, p, i));
        assert GrowsEntry(1, Ent(m, p, i), Ent(n, p, i));
      }
    }
  }

  // ---- ensure_table -------------------------------------------------------------------

  /** The tables `ensure_table` adds: at most one. */
  function AddedTable(m: Machine, t: nat, i: nat): set<nat> {
    if Ent(m, t, i).present then {}
    else
      match Alloc(m.pmm).1
      case None => {}
      case Some(p) => {p}
  }

  ghost predicate CanEnsure(f: Forest, m: Machine, s: Slot, i: nat) {
    && Wf(f, m) && InTree(f, s) && s.level > 1 && i < ENTRIES && Node(m, s).Some?
    && (Ent(m, Node(m, s).value, i).present || InTree(f, Child(s, i)))
  }

  lemma OpenGrows(f: Forest, m: Machine, s: Slot, i: nat, flags: Flags)
    requires CanEnsure(f, m, s, i) && !Ent(m, Node(m, s).value, i).large
    ensures var t := Node(m, s).value;
      Grows(f, s.root, m, SetEnt(m, t, i, Opened(Ent(m, t, i), flags)), {})
  {
    hide Node, Ent, SetEnt, IsTable, InTree, Opened;
    var t := Node(m, s).value;
    var e := Opened(Ent(m, t, i), flags);
    var n := SetEnt(m, t, i, e);
    assert IsTable(m, t);
    OpenLink(f, m, t, i, flags);
    SetEntReads(m, t, i, e);
    SetEntPmm(m, t, i, e);
    OpenedEntry(Ent(m, t, i), flags, s.level);
    forall u | InTree(f, u) ensures GrowsAt(s.root, m, n, {}, u) {
      if Node(m, u).Some? {
        var p := Node(m, u).value;
        forall j: nat | j < ENTRIES ensures GrowsEntry(u.level, Ent(m, p, j), Ent(n, p, j)) {
          if p == t { assert u == s; }
        }
      }
    }
    assert TableAt(f, m, t);
  }

  lemma OpenedEntry(e: Entry, flags: Flags, level: nat)
    requires level > 1 && !e.large
    ensures GrowsEntry(level, e, Opened(e, flags))
  {}

  lemma AttachGrowsAt(f: Forest, m: Machine, s: Slot, i: nat, flags: Flags, p: nat, pmm: State, u: Slot)
    requires CanAttach(f, m, s, i, p) && InTree(f, u)
    ensures GrowsAt(s.root, m, Attached(m, pmm, Node(m, s).value, i, p, flags), {p}, u)
  {
    hide Node, Ent, Attached, IsTable;
    var t := Node(m, s).value;
    var n := Attached(m, pmm, t, i, p, flags);
    AttachedReads(m, pmm, t, i, p, flags);
    AttachWalk(f, m, s, i, p, pmm, flags, u);
    ChildParent(s, i);
    NodeStep(m, Child(s, i));
    if Node(m, u).Some? {
      var q := Node(m, u).value;
      forall j: nat | j < ENTRIES ensures GrowsEntry(u.level, Ent(m, q, j), Ent(n, q, j)) {
        if q == t { assert u == s; }
      }
    }
  }

  lemma AttachGrows(f: Forest, m: Machine, s: Slot, i: nat, flags: Flags, p: nat)
    requires CanEnsure(f, m, s, i) && !Ent(m, Node(m, s).value, i).present
    requires Alloc(m.pmm).1 == Some(p) && p != 0
    ensures var t := Node(m, s).value; var n := Attached(m, Alloc(m.pmm).0, t, i, p, flags);
      && Grows(f, s.root, m, n, {p})
      && Separated(f, n)
      && Node(n, Child(s, i)) == Some(p)
  {
    hide Node, Ent, Attached, InTree, GrowsAt, IsTable, FreePages;
    var t := Node(m, s).value;
    var pmm := Alloc(m.pmm).0;
    var n := Attached(m, pmm, t, i, p, flags);
    AllocTakes(m.pmm, p);
    AttachedReads(m, pmm, t, i, p, flags);
    AttachSeparated(f, m, s, i, p, pmm, flags);
    AttachWalk(f, m, s, i, p, pmm, flags, Child(s, i));
    forall u | InTree(f, u) ensures GrowsAt(s.root, m, n, {p}, u) {
      AttachGrowsAt(f, m, s, i, flags, p, pmm, u);
    }
    AttachedPmm(m, pmm, t, i, p, flags);
  }

  lemma AttachedPmm(m: Machine, pmm: State, t: nat, i: nat, p: nat, flags: Flags)
    ensures Attached(m, pmm, t, i, p, flags).pmm == pmm
  {}

  lemma AllocTakes(s: State, p: nat)
    requires PmmSpec.Valid(s) && Alloc(s).1 == Some(p)
    ensures p !in s.unavailable && Alloc(s).0 == Take(s, p)
    ensures PmmSpec.Valid(Alloc(s).0)
  {
    AllocValid(s);
  }

  lemma OpenUserLinks(f: Forest, m: Machine, s: Slot, i: nat, flags: Flags, u: Slot)
    requires CanEnsure(f, m, s, i) && InTree(f, u) && u.root == s.root != f.kernel
    ensures var t := Node(m, s).value;
      UserLink(LinkEntry(SetEnt(m, t, i, Opened(Ent(m, t, i), flags)), u))
  {
    var t := Node(m, s).value;
    var e := Opened(Ent(m, t, i), flags);
    assert UserTable(m, u);
    OpenLink(f, m, t, i, flags);
    SetEntReads(m, t, i, e);
    if u.level < 4 { ParentInTree(f, u); }
    hide Node, Ent, SetEnt, InTree;
  }

  lemma AttachUserLinks(f: Forest, m: Machine, s: Slot, i: nat, flags: Flags, p: nat, pmm: State, u: Slot)
    requires CanAttach(f, m, s, i, p) && UserRights(f, m) && flags.user
    requires InTree(f, u) && u.root == s.root != f.kernel
    ensures UserLink(LinkEntry(Attached(m, pmm, Node(m, s).value, i, p, flags), u))
  {
    var t := Node(m, s).value;
    assert UserTable(m, u);
    AttachedReads(m, pmm, t, i, p, flags);
    if u.level < 4 {
      ParentInTree(f, u);
      AttachWalk(f, m, s, i, p, pmm, flags, Parent(u));
    }
    hide Node, Ent, Attached, InTree;
  }

  /** `ensure_table` in a well-formed forest: it fails, changing nothing, exactly
      when it meets a large page or finds no free page for a missing table;
      otherwise it returns the table at the child position, and all it did was
      to grow that tree. */
  lemma EnsureGrows(f: Forest, m: Machine, s: Slot, i: nat, flags: Flags)
    requires CanEnsure(f, m, s, i) && InTree(f, Child(s, i))
    requires s.root != f.kernel ==> flags.user
    ensures var t := Node(m, s).value; var (n, p) := EnsureTable(m, t, i, flags); var e := Ent(m, t, i);
      && Wf(f, n)
      && Grows(f, s.root, m, n, AddedTable(m, t, i))
      && (p == 0 <==> if e.present then e.large else FreePages(m.pmm) == {})
      && (p == 0 ==> n == m)
      && (p != 0 ==> Node(n, Child(s, i)) == Some(p) && LinkEntry(n, Child(s, i)) == Ent(n, t, i))
      && (p != 0 && flags.writable ==> Ent(n, t, i).writable)
  {
    var t := Node(m, s).value;
    var e := Ent(m, t, i);
    var (n, p) := EnsureTable(m, t, i, flags);
    ChildParent(s, i);
    if e.present {
      if !e.large { EnsureOpens(f, m, s, i, flags); } else { GrowsRefl(f, s.root, m); }
    } else {
      AllocValid(m.pmm);
      match Alloc(m.pmm).1
      case None => GrowsRefl(f, s.root, m);
      case Some(q) => EnsureAttaches(f, m, s, i, flags, q);
    }
  }

  lemma EnsureOpens(f: Forest, m: Machine, s: Slot, i: nat, flags: Flags)
    requires CanEnsure(f, m, s, i)
    requires var e := Ent(m, Node(m, s).value, i); e.present && !e.large
    ensures var t := Node(m, s).value; var e := Ent(m, t, i); var n := SetEnt(m, t, i, Opened(e, flags));
      && Wf(f, n) && Grows(f, s.root, m, n, {})
      && Ent(n, t, i) == Opened(e, flags)
      && Node(n, s) == Some(t)
      && (InTree(f, Child(s, i)) ==> e.frame != 0 && Node(n, Child(s, i)) == Some(e.frame))
  {
    var t := Node(m, s).value;
    var e := Ent(m, t, i);
    var n := SetEnt(m, t, i, Opened(e, flags));
    ChildParent(s, i);
    NodeStep(m, Child(s, i));
    OpenLink(f, m, t, i, flags);
    OpenGrows(f, m, s, i, flags);
    SetEntReads(m, t, i, Opened(e, flags));
    forall u | InTree(f, u) && u.root == s.root && s.root != f.kernel ensures UserLink(LinkEntry(n, u)) {
      OpenUserLinks(f, m, s, i, flags, u);
    }
    hide Node, Ent, InTree, LinkEntry, Separated;
    GrowsUserRights(f, s.root, m, n, {});
  }

  lemma EnsureAttaches(f: Forest, m: Machine, s: Slot, i: nat, flags: Flags, p: nat)
    requires CanEnsure(f, m, s, i) && !Ent(m, Node(m, s).value, i).present
    requires Alloc(m.pmm).1 == Some(p)
    requires s.root != f.kernel ==> flags.user
    ensures p != 0
    ensures var t := Node(m, s).value; var n := Attached(m, Alloc(m.pmm).0, t, i, p, flags);
      && Wf(f, n) && Grows(f, s.root, m, n, {p})
      && Ent(n, t, i) == Link(p, flags)
      && Node(n, s) == Some(t)
      && Node(n, Child(s, i)) == Some(p)
  {
    var t := Node(m, s).value;
    var pmm := Alloc(m.pmm).0;
    var n := Attached(m, pmm, t, i, p, flags);
    AllocTakes(m.pmm, p);
    AttachedPmm(m, pmm, t, i, p, flags);
    AttachGrows(f, m, s, i, flags, p);
    AttachedReads(m, pmm, t, i, p, flags);
    assert GrowsAt(s.root, m, n, {p}, s);
    forall u | InTree(f, u) && u.root == s.root && s.root != f.kernel ensures UserLink(LinkEntry(n, u)) {
      AttachUserLinks(f, m, s, i, flags, p, pmm, u);
    }
    hide Node, Ent, InTree, LinkEntry, Separated, Attached;
    GrowsUserRights(f, s.root, m, n, {p});
  }

  // ---- Writing a mapping ---------------------------------------------------------------

  lemma LeafLinks(f: Forest, m: Machine, leaf: Slot, i: nat, e: Entry, s: Slot)
    requires Separated(f, m) && InTree(f, leaf) && leaf.level == 1 && Node(m, leaf).Some? && i < ENTRIES
    requires InTree(f, s)
    ensures LinkEntry(SetEnt(m, Node(m, leaf).value, i, e), s) == LinkEntry(m, s)
  {
    WriteLeaf(f, m, leaf, i, e);
    SetEntReads(m, Node(m, leaf).value, i, e);
    if s.level < 4 {
      ParentInTree(f, s);
      assert Parent(s) != leaf;
    }
  }

  lemma {:induction false} LeafPath(f: Forest, m: Machine, leaf: Slot, i: nat, e: Entry, s: Slot)
    requires Separated(f, m) && InTree(f, leaf) && leaf.level == 1 && Node(m, leaf).Some? && i < ENTRIES
    requires InTree(f, s)
    ensures PathWritable(SetEnt(m, Node(m, leaf).value, i, e), s) == PathWritable(m, s)
    decreases if s.level < 4 then 4 - s.level else 0
  {
    LeafLinks(f, m, leaf, i, e, s);
    if s.level < 4 {
      ParentInTree(f, s);
      LeafPath(f, m, leaf, i, e, Parent(s));
    }
  }

  lemma LeafWf(f: Forest, m: Machine, leaf: Slot, i: nat, e: Entry)
    requires Wf(f, m) && InTree(f, leaf) && leaf.level == 1 && Node(m, leaf).Some? && i < ENTRIES
    requires leaf.root != f.kernel ==> UserLeaf(m, leaf, e)
    ensures Wf(f, SetEnt(m, Node(m, leaf).value, i, e))
  {
    var p := Node(m, leaf).value;
    var n := SetEnt(m, p, i, e);
    WriteLeaf(f, m, leaf, i, e);
    SetEntReads(m, p, i, e);
    forall s | InTree(f, s) && s.root != f.kernel ensures UserTable(n, s) {
      LeafUserTable(f, m, leaf, i, e, s);
    }
  }

  lemma LeafUserTable(f: Forest, m: Machine, leaf: Slot, i: nat, e: Entry, s: Slot)
    requires Wf(f, m) && InTree(f, leaf) && leaf.level == 1 && Node(m, leaf).Some? && i < ENTRIES
    requires leaf.root != f.kernel ==> UserLeaf(m, leaf, e)
    requires InTree(f, s) && s.root != f.kernel
    ensures UserTable(SetEnt(m, Node(m, leaf).value, i, e), s)
  {
    var p := Node(m, leaf).value;
    var n := SetEnt(m, p, i, e);
    assert UserTable(m, s);
    WriteLeaf(f, m, leaf, i, e);
    SetEntReads(m, p, i, e);
    LeafLinks(f, m, leaf, i, e, s);
    LeafPath(f, m, leaf, i, e, s);
    if s.level == 1 && Node(m, s).Some? {
      hide Node, Ent, SetEnt, InTree, PathWritable, LinkEntry;
      var q := Node(m, s).value;
      forall j: nat | j < ENTRIES ensures UserLeaf(n, s, Ent(n, q, j)) {
        assert UserLeaf(m, s, Ent(m, q, j));
        if q == p { assert s == leaf; }
      }
    }
  }

  // ---- What a mapping operation takes ---------------------------------------------------

  /** The tables `added`, and nothing else, moved from the allocator into the tree
      of `root`; no page that is not a table changed its contents. */
  ghost predicate Extends(f: Forest, root: nat, m: Machine, n: Machine, added: set<nat>) {
    && n.pmm.pages == m.pmm.pages && n.pmm.reserved == m.pmm.reserved
    && n.pmm.unavailable == m.pmm.unavailable + added
    && n.pmm.held == m.pmm.held + added
    && added !! m.pmm.unavailable
    && (forall s | InTree(f, s) :: ExtendsAt(root, m, n, added, s))
    && (forall p: nat | p in added :: exists s :: InTree(f, s) && s.root == root && Node(n, s) == Some(p))
    && (forall q: nat | q in m.pmm.unavailable && q in m.mem && !TableAt(f, m, q) ::
          q in n.mem && n.mem[q] == m.mem[q])
  }

  predicate ExtendsAt(root: nat, m: Machine, n: Machine, added: set<nat>, s: Slot) {
    match Node(m, s)
    case Some(p) => Node(n, s) == Some(p) && (s.level > 1 ==> KeepsLinks(m, n, p))
    case None => Node(n, s).Some? ==> s.root == root && Node(n, s).value in added
  }

  /** The links present in a table still lead to the same places. */
  predicate KeepsLinks(m: Machine, n: Machine, p: nat) {
    forall i: nat | i < ENTRIES && Ent(m, p, i).present :: SameLink(Ent(m, p, i), Ent(n, p, i))
  }

  lemma GrowsExtends(f: Forest, root: nat, m: Machine, n: Machine, added: set<nat>)
    requires Grows(f, root, m, n, added)
    ensures Extends(f, root, m, n, added)
  {
    hide Node, Ent, InTree, TableAt;
    forall s | InTree(f, s) ensures ExtendsAt(root, m, n, added, s) {
      assert GrowsAt(root, m, n, added, s);
    }
  }

  lemma LeafExtends(f: Forest, root: nat, m: Machine, n: Machine, added: set<nat>, leaf: Slot, i: nat, e: Entry)
    requires Extends(f, root, m, n, added) && Separated(f, n)
    requires InTree(f, leaf) && leaf.level == 1 && leaf.root == root && Node(n, leaf).Some? && i < ENTRIES
    ensures Extends(f, root, m, SetEnt(n, Node(n, leaf).value, i, e), added)
  {
    hide Node, Ent, InTree, SetEnt, IsTable;
    var t := Node(n, leaf).value;
    var o := SetEnt(n, t, i, e);
    WriteLeaf(f, n, leaf, i, e);
    SetEntReads(n, t, i, e);
    SetEntPmm(n, t, i, e);
    forall s | InTree(f, s) ensures ExtendsAt(root, m, o, added, s) {
      assert ExtendsAt(root, m, n, added, s);
    }
    forall p: nat | p in added ensures exists s :: InTree(f, s) && s.root == root && Node(o, s) == Some(p) {
      var s :| InTree(f, s) && s.root == root && Node(n, s) == Some(p);
      assert Node(o, s) == Some(p);
    }
    assert ExtendsAt(root, m, n, added, leaf);
    forall q: nat | q in m.pmm.unavailable && q in m.mem && !TableAt(f, m, q)
      ensures q in o.mem && o.mem[q] == m.mem[q]
    {
      assert q != t;
    }
  }

  lemma SetEntPmm(m: Machine, t: nat, i: nat, e: Entry)
    ensures SetEnt(m, t, i, e).pmm == m.pmm
  {}
}
