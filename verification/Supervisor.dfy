/** The kernel's half of a user address space: entry 0 of every live root leads to the
    kernel's own tables, and no user access reaches the identity-mapped first GiB. */
module Supervisor {
  import opened Bytes
  import opened PmmSpec
  import opened PageTables
  import opened Forests
  import opened Walks
  import opened AddressSpace
  import opened Spaces
  import opened Runs
  import R = Runs
  import Boot
  import V = Vmm

  /** Entry 0 of every live root links the table that entry 0 of the kernel's links. */
  ghost predicate Guarded(f: Forest, m: Machine) {
    && Node(m, Slot(f.kernel, 3, 0)).Some?
    && forall r | r in f.users :: LeadsTo(Ent(m, r, 0), Node(m, Slot(f.kernel, 3, 0)).value)
  }

  predicate LeadsTo(e: Entry, p: nat) { e.present && !e.large && e.frame == p }

  // ---- Every operation keeps it -------------------------------------------------------------

  lemma ExtendsGuarded(f: Forest, root: nat, m: Machine, n: Machine, added: set<nat>)
    requires forall s | InTree(f, s) :: ExtendsAt(root, m, n, added, s)
    requires Guarded(f, m) && f.kernel !in f.users
    ensures Guarded(f, n)
  {
    hide Node, Ent;
    assert ExtendsAt(root, m, n, added, Slot(f.kernel, 3, 0));
    forall r | r in f.users ensures LeadsTo(Ent(n, r, 0), Node(m, Slot(f.kernel, 3, 0)).value) {
      NodeTop(m, Top(r));
      assert ExtendsAt(root, m, n, added, Top(r));
      assert LeadsTo(Ent(m, r, 0), Node(m, Slot(f.kernel, 3, 0)).value);
    }
  }

  /** Mapping a kernel page only hangs tables into the kernel's tree. */
  lemma KernelMapExtends(f: Forest, m: Machine, va: nat, pa: nat, flags: Flags) returns (added: set<nat>)
    requires Wf(f, m) && V.KernelOk(f, m)
    ensures Extends(f, f.kernel, m, V.MapPage(m, f.kernel, va, pa, flags).0, added)
  {
    hide Node, Ent, Wf, V.KernelOk, ReachTable, Grows, Missing, FreePages, Extends, SetEnt, InTree;
    GrowsRefl(f, f.kernel, m);
    GrowsExtends(f, f.kernel, m, m, {});
    added := {};
    if va % PAGE_SIZE == 0 && pa % PAGE_SIZE == 0 {
      var w := va / PAGE_SIZE;
      var v := w % V.PAGES;
      V.SameReachMod(m, f.kernel, w, flags);
      V.LowBits(w);
      added := V.KernelReach(f, m, v, flags);
      var (mid, pt) := ReachTable(m, f.kernel, v, flags);
      GrowsExtends(f, f.kernel, m, mid, added);
      WfParts(f, mid);
      if pt != 0 && !Ent(mid, pt, PtIndex(w)).present {
        V.KernelTree(f, V.Canon(v));
        LeafExtends(f, f.kernel, m, mid, added, Level1(f.kernel, V.Canon(v)), PtIndex(v), V.LeafFor(pa, flags));
      }
    }
  }

  lemma WfParts(f: Forest, m: Machine)
    requires Wf(f, m)
    ensures Separated(f, m) && f.kernel !in f.users
  {}

  lemma KernelUnmapExtends(f: Forest, m: Machine, va: nat)
    requires Wf(f, m) && V.KernelOk(f, m)
    ensures Extends(f, f.kernel, m, V.UnmapPage(m, f.kernel, va).0, {})
  {
    hide Node, Ent, Wf, V.KernelOk, V.FindTable, Extends, Grows, SetEnt, InTree;
    GrowsRefl(f, f.kernel, m);
    GrowsExtends(f, f.kernel, m, m, {});
    WfParts(f, m);
    var w := va / PAGE_SIZE;
    var v := w % V.PAGES;
    V.LowBits(w);
    V.SameWalkMod(m, f.kernel, w);
    if v < 0x4_0000 {
      V.LowFind(f, m, v);
    } else {
      V.HighWalk(f, m, v);
      V.KernelTree(f, V.Canon(v));
      if Lookup(m, f.kernel, V.Canon(v)).Some? {
        LeafExtends(f, f.kernel, m, m, {}, Level1(f.kernel, V.Canon(v)), PtIndex(v), NOT_PRESENT);
      }
    }
  }

  /** Entry 0 of the loaded root leads to the kernel's lower half, and the root's page
      is not the one the allocator hands out next. */
  ghost predicate SafeRoot(kernel: nat, m: Machine, cr3: nat) {
    && Node(m, Slot(kernel, 3, 0)).Some? && LeadsTo(Ent(m, cr3, 0), Node(m, Slot(kernel, 3, 0)).value)
    && Alloc(m.pmm).1 != Some(cr3)
  }

  /** Whatever root is loaded, live or not: the new space shares the kernel's lower half
      exactly if that root is safe. */
  lemma CreateGuardedIff(f: Forest, m: Machine, cr3: nat)
    requires Wf(f, m) && Guarded(f, m)
    ensures var (n, p) := Create(m, cr3); p != 0 ==> (Guarded(WithUser(f, p), n) <==> SafeRoot(f.kernel, m, cr3))
  {
    hide Ent, Create, IsTable, UserRights, Alloc;
    var (n, p) := Create(m, cr3);
    if p != 0 {
      var lower := Slot(f.kernel, 3, 0);
      CreateReads(m, cr3, p);
      RootsUnavailable(f, m);
      AllocTakes(m.pmm, p);
      CreateWalk(f, m, cr3, p, lower);
      CreateEntry(m, cr3, p);
      assert p in WithUser(f, p).users;
    }
  }

  /** The kernel's own root and every live one are safe. */
  lemma LiveRootIsSafe(f: Forest, m: Machine, cr3: nat)
    requires Wf(f, m) && Guarded(f, m) && (cr3 == f.kernel || cr3 in f.users)
    ensures SafeRoot(f.kernel, m, cr3)
  {
    hide Ent, UserRights, Alloc;
    var lower := Slot(f.kernel, 3, 0);
    NodeStep(m, lower);
    NodeTop(m, Top(f.kernel));
    assert Parent(lower) == Top(f.kernel) && Index(lower) == 0;
    RootsUnavailable(f, m);
    if Alloc(m.pmm).1 == Some(cr3) { AllocTakes(m.pmm, cr3); }
  }

  lemma CreateEntry(m: Machine, cr3: nat, p: nat)
    requires Create(m, cr3).1 == p != 0
    ensures Ent(Create(m, cr3).0, p, 0) == if cr3 == p then NOT_PRESENT else Ent(m, cr3, 0)
  {}

  lemma FewerGuarded(f: Forest, g: Forest, m: Machine)
    requires Guarded(f, m) && g.kernel == f.kernel && g.users <= f.users
    ensures Guarded(g, m)
  {}

  // ---- What a user access meets --------------------------------------------------------------

  /** The user right along the walk to a page mapped by a 2 MiB entry. */
  function UserReaches(m: Machine, root: nat, v: nat): bool {
    var e4 := Ent(m, root, Pml4Index(v));
    var e3 := Ent(m, e4.frame, PdptIndex(v));
    var e2 := Ent(m, e3.frame, PdIndex(v));
    e4.user && e3.user && e2.user
  }

  /** Through any live root the first GiB translates to itself, for the supervisor only. */
  lemma SupervisorOnly(f: Forest, m: Machine, root: nat, va: nat)
    requires Wf(f, m) && V.KernelOk(f, m) && Guarded(f, m) && root in f.users && va < 0x4000_0000
    ensures V.Translate(m, root, va) == va
    ensures !UserReaches(m, root, va / PAGE_SIZE)
  {
    hide Wf, Ent;
    var v := va / PAGE_SIZE;
    var k := f.kernel;
    V.LowAddress(va);
    LowIndices(va);
    NodeStep(m, Slot(k, 2, 0));
    var pd := Node(m, Slot(k, 2, 0)).value;
    assert V.IdentityEntry(Ent(m, pd, PdIndex(v)), PdIndex(v));
    assert LeadsTo(Ent(m, root, 0), Node(m, Slot(k, 3, 0)).value);
  }

  lemma LowIndices(va: nat)
    requires va < 0x4000_0000
    ensures var v := va / PAGE_SIZE;
      && Pml4Index(v) == 0 && PdptIndex(v) == 0 && PdIndex(v) == va / 0x20_0000
      && Parent(Slot(0, 2, 0)) == Slot(0, 3, 0) && Index(Slot(0, 2, 0)) == 0
  {}

  // ---- Runs ------------------------------------------------------------------------------------

  /** A creation that succeeds finds a safe root loaded. */
  ghost predicate Safe(s: System, op: R.Op) {
    op.OpCreate? && Create(s.machine, op.cr3).1 != 0 ==> SafeRoot(s.kernel, s.machine, op.cr3)
  }

  /** Exactly the safe operations keep the guard. */
  lemma StepGuardedIff(s: System, op: R.Op)
    requires Good(s) && Enabled(s, op) && Guarded(ForestOf(s), s.machine)
    ensures var t := R.Step(s, op).0; Guarded(ForestOf(t), t.machine) <==> Safe(s, op)
  {
    hide Guarded, Wf, V.KernelOk, Create, MapUser, Destroy, V.MapPage, V.UnmapPage, SafeRoot;
    var f, m := ForestOf(s), s.machine;
    var t := R.Step(s, op).0;
    match op
    case OpCreate(k, cr3) =>
      CreateGuardedIff(f, m, cr3);
      CreateEffect(f, m, cr3);
      RootsUpdate(s.spaces, k, Create(m, cr3).1);
      if Create(m, cr3).1 != 0 { OneMoreGuarded(f, m, cr3, ForestOf(t)); }
    case OpMapUser(k, va, pa, flags) =>
      RootsMember(s.spaces, k);
      var added := MapUserFrame(f, m, s.spaces[k], va, pa, flags);
      WfParts(f, m);
      ExtendsGuarded(f, s.spaces[k], m, t.machine, added);
    case OpDestroy(k) =>
      DestroyMem(m, s.spaces[k]);
      SameGuarded(f, m, t.machine);
      RootsUpdate(s.spaces, k, 0);
      FewerGuarded(f, ForestOf(t), t.machine);
    case OpKernelMap(va, pa, flags) =>
      var added := KernelMapExtends(f, m, va, pa, flags);
      WfParts(f, m);
      ExtendsGuarded(f, f.kernel, m, t.machine, added);
    case OpKernelUnmap(va) =>
      KernelUnmapExtends(f, m, va);
      WfParts(f, m);
      ExtendsGuarded(f, f.kernel, m, t.machine, {});
  }

  /** Forgetting old spaces does not change whether the new one is guarded. */
  lemma OneMoreGuarded(f: Forest, m: Machine, cr3: nat, g: Forest)
    requires Wf(f, m) && Guarded(f, m) && Create(m, cr3).1 != 0
    requires g.kernel == f.kernel && Create(m, cr3).1 in g.users && g.users <= f.users + {Create(m, cr3).1}
    ensures Guarded(g, Create(m, cr3).0) <==> Guarded(WithUser(f, Create(m, cr3).1), Create(m, cr3).0)
  {
    hide Ent, Create, UserRights;
    var (n, p) := Create(m, cr3);
    var lower := Slot(f.kernel, 3, 0);
    CreateReads(m, cr3, p);
    RootsUnavailable(f, m);
    AllocTakes(m.pmm, p);
    CreateWalk(f, m, cr3, p, lower);
  }

  lemma DestroyMem(m: Machine, root: nat)
    ensures Destroy(m, root).mem == m.mem
  {}

  lemma SameGuarded(f: Forest, m: Machine, n: Machine)
    requires Guarded(f, m) && n.mem == m.mem
    ensures Guarded(f, n)
  {
    SameMemory(m, n);
  }

  ghost predicate SafeRun(s: System, ops: seq<R.Op>)
    requires RunEnabled(s, ops)
    decreases |ops|
  {
    ops == [] || (Safe(s, ops[0]) && SafeRun(R.Step(s, ops[0]).0, ops[1..]))
  }

  /** Every state of the run is guarded. */
  ghost predicate GuardedThroughout(s: System, ops: seq<R.Op>)
    requires RunEnabled(s, ops)
    decreases |ops|
  {
    Guarded(ForestOf(s), s.machine) && (ops == [] || GuardedThroughout(R.Step(s, ops[0]).0, ops[1..]))
  }

  /** A run is guarded throughout exactly if each of its creations is safe. */
  lemma {:induction false} RunGuardedIff(s: System, ops: seq<R.Op>)
    requires Good(s) && RunEnabled(s, ops) && Guarded(ForestOf(s), s.machine)
    ensures GuardedThroughout(s, ops) <==> SafeRun(s, ops)
    ensures SafeRun(s, ops) ==> var t := R.Run(s, ops); Good(t) && Guarded(ForestOf(t), t.machine)
    decreases |ops|
  {
    hide Good, Guarded, R.Step, Safe;
    if ops != [] {
      StepGuardedIff(s, ops[0]);
      StepRefines(s, ops[0]);
      var t := R.Step(s, ops[0]).0;
      if Guarded(ForestOf(t), t.machine) { RunGuardedIff(t, ops[1..]); } else { NotGuarded(t, ops[1..]); }
    }
  }

  lemma NotGuarded(s: System, ops: seq<R.Op>)
    requires RunEnabled(s, ops) && !Guarded(ForestOf(s), s.machine)
    ensures !GuardedThroughout(s, ops)
  {}

  lemma BootedIsGuarded(m: Machine, b: Boot.Layout, count: nat)
    requires Boot.BootState(m, b)
    ensures var s := Booted(m, b, count); Guarded(ForestOf(s), s.machine)
  {
    hide Boot.VmmInit, Wf, V.KernelOk;
    var s := Booted(m, b, count);
    BootedIsGood(m, b, count);
    assert Roots(s.spaces) == {};
    V.LowWalk(ForestOf(s), s.machine, 0);
  }

  /** Over every run from boot, whatever the kernel maps and with whatever rights: a
      live space reaches the first GiB as itself and for the supervisor only. */
  lemma KernelHalfIsSupervisorOnly(m: Machine, b: Boot.Layout, count: nat, ops: seq<R.Op>, k: nat, va: nat)
    requires Boot.BootState(m, b) && RunEnabled(Booted(m, b, count), ops) && SafeRun(Booted(m, b, count), ops)
    requires va < 0x4000_0000
    ensures var t := R.Run(Booted(m, b, count), ops);
      k < |t.spaces| && t.spaces[k] != 0 ==>
        V.Translate(t.machine, t.spaces[k], va) == va && !UserReaches(t.machine, t.spaces[k], va / PAGE_SIZE)
  {
    hide Guarded, Booted, Wf, V.KernelOk, V.Translate, UserReaches, R.Step;
    BootedIsGood(m, b, count);
    BootedIsGuarded(m, b, count);
    RunGuardedIff(Booted(m, b, count), ops);
    var t := R.Run(Booted(m, b, count), ops);
    if k < |t.spaces| && t.spaces[k] != 0 {
      RootsMember(t.spaces, k);
      SupervisorOnly(ForestOf(t), t.machine, t.spaces[k], va);
    }
  }
}
