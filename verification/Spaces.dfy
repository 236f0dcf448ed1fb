/** Creating, filling and destroying user address spaces: what each operation does
    to its own tree, to the other trees, to the kernel and to the allocator. */
module Spaces {
  import opened Bytes
  import opened PmmSpec
  import opened PageTables
  import opened Forests
  import opened Walks
  import opened AddressSpace
  import Vmm

  // ---- Creating and destroying a space ------------------------------------------------

  function WithUser(f: Forest, p: nat): Forest { f.(users := f.users + {p}) }
  function WithoutUser(f: Forest, p: nat): Forest { f.(users := f.users - {p}) }

  /** Fewer live trees is a weaker condition. */
  lemma WfWithout(f: Forest, m: Machine, p: nat)
    requires Wf(f, m)
    ensures Wf(WithoutUser(f, p), m)
    ensures Vmm.KernelOk(f, m) ==> Vmm.KernelOk(WithoutUser(f, p), m)
  {
    hide Node, Ent, LinkEntry, UserTable, KernelSlot, UserSlot;
  }

  lemma CreateReads(m: Machine, cr3: nat, p: nat)
    requires Create(m, cr3).1 == p != 0
    ensures var n := Create(m, cr3).0;
      && IsTable(n, p)
      && (forall i: nat | 0 < i < ENTRIES :: Ent(n, p, i) == NOT_PRESENT)
      && (forall q: nat, i: nat | q != p :: Ent(n, q, i) == Ent(m, q, i))
      && (forall q: nat | q != p :: IsTable(n, q) == IsTable(m, q))
      && (forall q: nat | q != p && q in m.mem :: q in n.mem && n.mem[q] == m.mem[q])
      && n.pmm == Alloc(m.pmm).0 && Alloc(m.pmm).1 == Some(p)
  {
    var zeroed := Machine(Alloc(m.pmm).0, m.mem[p := ZeroTable()]);
    SetEntReads(zeroed, p, 0, Ent(zeroed, cr3, 0));
  }

  lemma CreateWalk(f: Forest, m: Machine, cr3: nat, p: nat, s: Slot)
    requires Wf(f, m) && Create(m, cr3).1 == p != 0
    requires InTree(WithUser(f, p), s)
    ensures p !in m.pmm.unavailable && p !in f.users && p != f.kernel
    ensures var n := Create(m, cr3).0;
      Node(n, s) == if s.root == p then (if s.level == 4 then Some(p) else None) else Node(m, s)
    decreases if s.level < 4 then 4 - s.level else 0
  {
    hide Ent, IsTable, Create, Node, UserRights;
    var n := Create(m, cr3).0;
    CreateReads(m, cr3, p);
    AllocTakes(m.pmm, p);
    RootsUnavailable(f, m);
    if s.level == 4 {
      NodeTop(n, s);
      NodeTop(m, s);
    } else {
      ParentInTree(WithUser(f, p), s);
      CreateWalk(f, m, cr3, p, Parent(s));
      NodeStep(n, s);
      NodeStep(m, s);
      if s.root != p { assert InTree(f, Parent(s)); }
    }
  }

  lemma RootsUnavailable(f: Forest, m: Machine)
    requires Wf(f, m)
    ensures f.kernel in m.pmm.unavailable && f.users <= m.pmm.unavailable
  {
    forall r | r == f.kernel || r in f.users ensures r in m.pmm.unavailable {
      assert InTree(f, Top(r));
      NodeTop(m, Top(r));
    }
  }

  /** A new space is empty and leaves every existing tree as it was. */
  lemma CreateEffect(f: Forest, m: Machine, cr3: nat)
    requires Wf(f, m)
    ensures var (n, p) := Create(m, cr3);
      && (p == 0 <==> FreePages(m.pmm) == {})
      && (p == 0 ==> n == m)
      && (p != 0 ==>
            && p !in m.pmm.unavailable && p !in f.users && p != f.kernel
            && n.pmm == Take(m.pmm, p)
            && Wf(WithUser(f, p), n)
            && (Vmm.KernelOk(f, m) ==> Vmm.KernelOk(WithUser(f, p), n))
            && (forall v | UserPage(v) :: Lookup(n, p, v) == None)
            && (forall r, v | InTree(f, Level1(r, v)) :: Lookup(n, r, v) == Lookup(m, r, v)))
  {
    AllocValid(m.pmm);
    var (n, p) := Create(m, cr3);
    if p != 0 {
      hide Ent, Node, IsTable, Create, UserTable, LinkEntry;
      AllocTakes(m.pmm, p);
      CreateReads(m, cr3, p);
      var g := WithUser(f, p);
      assert InTree(g, Top(p));
      CreateWalk(f, m, cr3, p, Top(p));
      CreateSeparated(f, m, cr3, p);
      forall s | InTree(g, s) && s.root != g.kernel ensures UserTable(n, s) { CreateUserTable(f, m, cr3, p, s); }
      if Vmm.KernelOk(f, m) { CreateKernelOk(f, m, cr3, p); }
      forall v | UserPage(v) ensures Lookup(n, p, v) == None {
        UserPages(g, p, v);
        CreateWalk(f, m, cr3, p, Level1(p, v));
      }
      forall r, v | InTree(f, Level1(r, v)) ensures Lookup(n, r, v) == Lookup(m, r, v) {
        CreateLookup(f, m, cr3, p, r, v);
      }
    }
  }

  lemma CreateSeparated(f: Forest, m: Machine, cr3: nat, p: nat)
    requires Wf(f, m) && Create(m, cr3).1 == p != 0
    ensures Separated(WithUser(f, p), Create(m, cr3).0)
  {
    hide Ent, Node, IsTable, Create, KernelSlot, UserSlot, UserRights;
    var n, g := Create(m, cr3).0, WithUser(f, p);
    CreateReads(m, cr3, p);
    AllocTakes(m.pmm, p);
    forall s | InTree(g, s)
      ensures p !in f.users && p != f.kernel
      ensures Node(n, s) == if s.root == p then (if s.level == 4 then Some(p) else None) else Node(m, s)
    {
      CreateWalk(f, m, cr3, p, s);
    }
    forall s | InTree(g, s) && s.root != p ensures InTree(f, s) {}
    forall s | InTree(g, s) && s.root == p && s.level == 4 ensures s == Top(p) { TopOnly(g, s); }
  }

  lemma TopOnly(f: Forest, s: Slot)
    requires InTree(f, s) && s.level == 4
    ensures s == Top(s.root)
  {}

  lemma CreateUserTable(f: Forest, m: Machine, cr3: nat, p: nat, s: Slot)
    requires Wf(f, m) && Create(m, cr3).1 == p != 0
    requires InTree(WithUser(f, p), s) && s.root != f.kernel
    ensures UserTable(Create(m, cr3).0, s)
  {
    var n, g := Create(m, cr3).0, WithUser(f, p);
    CreateReads(m, cr3, p);
    CreateWalk(f, m, cr3, p, s);
    if s.root == p {
      if s.level < 4 {
        ParentInTree(g, s);
        CreateWalk(f, m, cr3, p, Parent(s));
      }
    } else {
      assert InTree(f, s) && UserTable(m, s);
      SameTables(f, m, n, p, s);
    }
  }

  /** Links and rights only depend on tables of the tree. */
  lemma {:induction false} SameTables(f: Forest, m: Machine, n: Machine, p: nat, s: Slot)
    requires Separated(f, m) && InTree(f, s) && p !in m.pmm.unavailable
    requires forall q: nat, i: nat | q != p :: Ent(n, q, i) == Ent(m, q, i)
    ensures LinkEntry(n, s) == LinkEntry(m, s) && Node(n, s) == Node(m, s) && PathWritable(n, s) == PathWritable(m, s)
    decreases if s.level < 4 then 4 - s.level else 0
  {
    hide Ent;
    SameWalk(f, m, n, s);
    if s.level < 4 {
      ParentInTree(f, s);
      SameTables(f, m, n, p, Parent(s));
    }
  }

  lemma CreateKernelOk(f: Forest, m: Machine, cr3: nat, p: nat)
    requires Wf(f, m) && Vmm.KernelOk(f, m) && Create(m, cr3).1 == p != 0
    ensures Vmm.KernelOk(WithUser(f, p), Create(m, cr3).0)
  {
    hide Ent, Node, Create, LinkEntry, IsTable;
    var n, g, k := Create(m, cr3).0, WithUser(f, p), f.kernel;
    CreateReads(m, cr3, p);
    AllocTakes(m.pmm, p);
    RootsUnavailable(f, m);
    forall s | InTree(g, s) && s.root == k
      ensures InTree(f, s) && LinkEntry(n, s) == LinkEntry(m, s) && Node(n, s) == Node(m, s)
    {
      SameTables(f, m, n, p, s);
    }
    assert InTree(g, Slot(k, 2, 0)) && InTree(g, Slot(k, 3, 1)) && InTree(g, Slot(k, 2, 0x100));
  }

  lemma CreateLookup(f: Forest, m: Machine, cr3: nat, p: nat, r: nat, v: nat)
    requires Wf(f, m) && Create(m, cr3).1 == p != 0 && InTree(f, Level1(r, v))
    ensures Lookup(Create(m, cr3).0, r, v) == Lookup(m, r, v)
  {
    CreateReads(m, cr3, p);
    AllocTakes(m.pmm, p);
    SameTables(f, m, Create(m, cr3).0, p, Level1(r, v));
  }

  /** Destroying a space frees its root alone; the other trees stay whole. */
  lemma DestroyEffect(f: Forest, m: Machine, root: nat)
    requires Wf(f, m) && root in f.users && root in m.pmm.held && root !in m.pmm.reserved
    ensures var n := Destroy(m, root);
      && n.mem == m.mem
      && n.pmm.reserved == m.pmm.reserved && n.pmm.held == m.pmm.held - {root}
      && Wf(WithoutUser(f, root), n)
      && (Vmm.KernelOk(f, m) ==> Vmm.KernelOk(WithoutUser(f, root), n))
      && (forall r, v :: Lookup(n, r, v) == Lookup(m, r, v))
  {
    hide Node, Ent, LinkEntry, UserTable, IsTable, Lookup;
    var n, g := Destroy(m, root), WithoutUser(f, root);
    assert InTree(f, Top(root));
    NodeTop(m, Top(root));
    FreeValid(m.pmm, root * PAGE_SIZE);
    FreeReturns(m.pmm, root);
    WfWithout(f, m, root);
    SameMemory(m, n);
    forall s | InTree(g, s) && Node(m, s).Some? ensures Node(m, s).value != root {
      assert InTree(f, s) && s != Top(root);
    }
  }

  lemma FreeReturns(s: State, p: nat)
    requires PmmSpec.Valid(s) && p in s.held && p !in s.reserved
    ensures var t := Free(s, p * PAGE_SIZE);
      && t.reserved == s.reserved && t.pages == s.pages
      && t.unavailable == s.unavailable - {p} && t.held == s.held - {p}
  {}

  lemma SameMemory(m: Machine, n: Machine)
    requires n.mem == m.mem
    ensures forall s ::
      Node(n, s) == Node(m, s) && LinkEntry(n, s) == LinkEntry(m, s) && UserTable(n, s) == UserTable(m, s)
    ensures forall p, i :: Ent(n, p, i) == Ent(m, p, i)
    ensures forall p :: IsTable(n, p) == IsTable(m, p)
    ensures forall r, v :: Lookup(n, r, v) == Lookup(m, r, v)
  {
    forall s ensures Node(n, s) == Node(m, s) && LinkEntry(n, s) == LinkEntry(m, s)
                     && PathWritable(n, s) == PathWritable(m, s)
    {
      SameMemoryAt(m, n, s);
    }
    forall p, i ensures Ent(n, p, i) == Ent(m, p, i) {}
    forall s, e ensures UserLeaf(n, s, e) == UserLeaf(m, s, e) {
      SameMemoryAt(m, n, s);
    }
  }

  lemma {:induction false} SameMemoryAt(m: Machine, n: Machine, s: Slot)
    requires n.mem == m.mem
    ensures Node(n, s) == Node(m, s) && LinkEntry(n, s) == LinkEntry(m, s) && PathWritable(n, s) == PathWritable(m, s)
    decreases if s.level < 4 then 4 - s.level else 0
  {
    if s.level < 4 { SameMemoryAt(m, n, Parent(s)); }
  }

  // ---- Mapping a user page, seen from everywhere else -------------------------------------

  /** Mapping takes from the allocator exactly the tables it hangs into this
      space's tree, leaves every page that is not a table alone, and changes no
      kernel mapping. */
  lemma MapUserFrame(f: Forest, m: Machine, root: nat, va: nat, pa: nat, flags: Flags) returns (added: set<nat>)
    requires Wf(f, m) && root in f.users
    ensures var n := MapUser(m, root, va, pa, flags).0;
      && Extends(f, root, m, n, added)
      && (Vmm.KernelOk(f, m) ==>
            && Vmm.KernelOk(f, n)
            && forall c | Vmm.KernelPage(c) :: Lookup(n, f.kernel, c) == Lookup(m, f.kernel, c))
  {
    hide Node, Ent, Grows, Extends, ReachTable, Added, SetEnt, UserRights, Lookup, Vmm.KernelOk;
    var (n, code) := MapUser(m, root, va, pa, flags);
    GrowsRefl(f, root, m);
    if !GoodArguments(va, pa) {
      added := {};
      GrowsExtends(f, root, m, m, {});
      return;
    }
    var v := va / PAGE_SIZE;
    UserAddresses(va);
    UserPages(f, root, v);
    var uf := flags.(user := true);
    ReachGrows(f, m, root, v, uf);
    var (mid, pt) := ReachTable(m, root, v, uf);
    added := Added(m, root, v, uf);
    GrowsExtends(f, root, m, mid, added);
    if code == 0 {
      LeafExtends(f, root, m, mid, added, Level1(root, v), PtIndex(v), LeafFor(pa, flags));
    }
    if Vmm.KernelOk(f, m) {
      Vmm.GrowsKernelOk(f, root, m, mid, added);
      if code == 0 {
        Vmm.LeafKernelOk(f, mid, Level1(root, v), PtIndex(v), LeafFor(pa, flags));
      }
      forall c | Vmm.KernelPage(c) ensures Lookup(n, f.kernel, c) == Lookup(m, f.kernel, c) {
        Vmm.KernelTree(f, c);
        GrowsLookup(f, root, m, mid, added, f.kernel, c);
        if code == 0 {
          LeafLookup(f, mid, root, v, LeafFor(pa, flags), f.kernel, c);
        }
      }
    }
  }
}
