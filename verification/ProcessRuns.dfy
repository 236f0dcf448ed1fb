/** Whole runs of processes: created, prepared and destroyed in any order, together
    with the kernel's own mappings, they never share a frame, and no frame a process
    can write is a page table. */
module ProcessRuns {
  import opened Bytes
  import opened PmmSpec
  import opened PageTables
  import opened Forests
  import opened Walks
  import opened AddressSpace
  import opened Spaces
  import opened Loading
  import opened Runs
  import R = Runs
  import S = Supervisor
  import Boot
  import V = Vmm

  predicate Maps(f: Forest, m: Machine, r: nat, v: nat) { r in f.users && UserPage(v) && Lookup(m, r, v).Some? }

  function FrameAt(m: Machine, r: nat, v: nat): nat
    requires Lookup(m, r, v).Some?
  {
    Lookup(m, r, v).value.frame
  }

  /** A frame that a process owns: held, and not a table of any tree. */
  ghost predicate Owned(f: Forest, m: Machine, p: nat) { p in m.pmm.held && !TableAt(f, m, p) }

  /** Every mapped frame is owned, by one page of one live space. */
  ghost predicate Apart(f: Forest, m: Machine) {
    && (forall r, v | Maps(f, m, r, v) :: Owned(f, m, FrameAt(m, r, v)))
    && (forall r, v, r', v' | Maps(f, m, r, v) && Maps(f, m, r', v') && FrameAt(m, r, v) == FrameAt(m, r', v') ::
          r == r' && v == v')
  }

  // ---- Every operation keeps it --------------------------------------------------------------

  lemma HeldUnavailable(f: Forest, m: Machine)
    requires Wf(f, m)
    ensures m.pmm.held <= m.pmm.unavailable
  {}

  /** Taking pages for tables of one tree leaves owned frames owned. */
  lemma ExtendsOwned(f: Forest, root: nat, m: Machine, n: Machine, added: set<nat>, p: nat)
    requires forall s | InTree(f, s) :: ExtendsAt(root, m, n, added, s)
    requires Wf(f, m) && m.pmm.held <= n.pmm.held && added !! m.pmm.unavailable && Owned(f, m, p)
    ensures Owned(f, n, p)
  {
    hide Node, Wf, InTree, KeepsLinks;
    HeldUnavailable(f, m);
    forall s | InTree(f, s) ensures Node(n, s) != Some(p) {
      assert ExtendsAt(root, m, n, added, s);
      assert Node(m, s) != Some(p);
    }
  }

  lemma ExtendsApart(f: Forest, root: nat, m: Machine, n: Machine, added: set<nat>)
    requires Wf(f, m) && Apart(f, m) && Extends(f, root, m, n, added)
    requires forall r, v | r in f.users && UserPage(v) :: Lookup(n, r, v) == Lookup(m, r, v)
    ensures Apart(f, n)
  {
    hide Node, Wf, InTree, Lookup, Owned, ExtendsAt;
    forall r, v | Maps(f, n, r, v) ensures Owned(f, n, FrameAt(n, r, v)) {
      assert Maps(f, m, r, v);
      ExtendsOwned(f, root, m, n, added, FrameAt(m, r, v));
    }
    forall r, v, r', v' | Maps(f, n, r, v) && Maps(f, n, r', v') && FrameAt(n, r, v) == FrameAt(n, r', v')
      ensures r == r' && v == v'
    {
      assert Maps(f, m, r, v) && Maps(f, m, r', v');
    }
  }

  lemma CreateApart(f: Forest, m: Machine, cr3: nat)
    requires Wf(f, m) && Apart(f, m)
    ensures var (n, p) := Create(m, cr3); p != 0 ==> Apart(WithUser(f, p), n)
  {
    hide Node, Wf, Lookup, Create, FreePages, V.KernelOk;
    var (n, p) := Create(m, cr3);
    CreateEffect(f, m, cr3);
    if p != 0 {
      var g := WithUser(f, p);
      HeldUnavailable(f, m);
      forall r, v | Maps(g, n, r, v) ensures Maps(f, m, r, v) && Lookup(n, r, v) == Lookup(m, r, v) {
        KernelNoUser(f, m);
        UserPages(f, r, v);
      }
      forall r, v | Maps(g, n, r, v) ensures Owned(g, n, FrameAt(n, r, v)) {
        var q := FrameAt(m, r, v);
        assert Owned(f, m, q);
        forall s | InTree(g, s) ensures Node(n, s) != Some(q) {
          CreateWalk(f, m, cr3, p, s);
          if s.root != p { assert InTree(f, s); }
        }
      }
    }
  }

  lemma KernelNoUser(f: Forest, m: Machine)
    requires Wf(f, m)
    ensures f.kernel !in f.users
  {}

  lemma DestroyApart(f: Forest, m: Machine, root: nat)
    requires Wf(f, m) && Apart(f, m) && root in f.users && root in m.pmm.held && root !in m.pmm.reserved
    ensures Apart(WithoutUser(f, root), Destroy(m, root))
  {
    hide Node, Wf, Lookup, Destroy, V.KernelOk, TableAt;
    var n, g := Destroy(m, root), WithoutUser(f, root);
    DestroyEffect(f, m, root);
    SameMemory(m, n);
    RootIsTable(f, m, root);
    forall r, v | Maps(g, n, r, v) ensures Owned(g, n, FrameAt(n, r, v)) {
      assert Maps(f, m, r, v);
      assert Owned(f, m, FrameAt(m, r, v));
      FewerTables(f, g, m, n, FrameAt(m, r, v));
    }
    forall r, v, r', v' | Maps(g, n, r, v) && Maps(g, n, r', v') && FrameAt(n, r, v) == FrameAt(n, r', v')
      ensures r == r' && v == v'
    {
      assert Maps(f, m, r, v) && Maps(f, m, r', v');
    }
  }

  lemma RootIsTable(f: Forest, m: Machine, root: nat)
    requires Wf(f, m) && root in f.users
    ensures TableAt(f, m, root)
  {
    assert InTree(f, Top(root));
    NodeTop(m, Top(root));
  }

  lemma FewerTables(f: Forest, g: Forest, m: Machine, n: Machine, p: nat)
    requires g.kernel == f.kernel && g.users <= f.users && !TableAt(f, m, p)
    requires forall s :: Node(n, s) == Node(m, s)
    ensures !TableAt(g, n, p)
  {
    hide Node;
    forall s | InTree(g, s) ensures Node(n, s) != Some(p) { assert InTree(f, s); }
  }

  /** Filling a space page by page: old frames stay with their owners, and the new
      ones come from the allocator, each for one page. */
  lemma PrepareApart(f: Forest, root: nat, m0: Machine, m: Machine, pages: Placement, tables: set<nat>)
    requires Progressed(f, root, m0, m, pages, tables) && root in f.users && Apart(f, m0)
    ensures Apart(f, m)
  {
    hide Node, Wf, Lookup, InTree, ExtendsAt, Owned, V.KernelOk, TableAt;
    forall r, v | Maps(f, m, r, v)
      ensures Owned(f, m, FrameAt(m, r, v))
      ensures r == root && v in pages ==> FrameAt(m, r, v) == pages[v].frame && pages[v].frame !in m0.pmm.unavailable
      ensures !(r == root && v in pages) ==>
        Maps(f, m0, r, v) && FrameAt(m0, r, v) == FrameAt(m, r, v) && FrameAt(m, r, v) in m0.pmm.unavailable
    {
      HeldUnavailable(f, m0);
      if r == root && v in pages {
        assert Holds(m, root, v, pages[v]);
        NewFrameOwned(f, root, m0, m, pages, tables, v);
      } else {
        assert Maps(f, m0, r, v);
        assert Owned(f, m0, FrameAt(m0, r, v));
        OldFrameOwned(f, root, m0, m, pages, tables, FrameAt(m0, r, v));
      }
    }
  }

  lemma NewFrameOwned(f: Forest, root: nat, m0: Machine, m: Machine, pages: Placement, tables: set<nat>, v: nat)
    requires Progressed(f, root, m0, m, pages, tables) && v in pages
    ensures var p := pages[v].frame; Owned(f, m, p) && p !in m0.pmm.unavailable
  {
    hide Node, Wf, Lookup, V.KernelOk;
    var p := pages[v].frame;
    assert p in Frames(pages);
    forall s | InTree(f, s) ensures Node(m, s) != Some(p) {
      assert ExtendsAt(root, m0, m, tables, s);
      TableUnavailable(f, m0, s);
    }
  }

  lemma OldFrameOwned(f: Forest, root: nat, m0: Machine, m: Machine, pages: Placement, tables: set<nat>, p: nat)
    requires Progressed(f, root, m0, m, pages, tables) && Owned(f, m0, p)
    ensures Owned(f, m, p) && p in m0.pmm.unavailable
  {
    hide Node, Wf, Lookup, V.KernelOk, ExtendsAt, TableAt;
    HeldUnavailable(f, m0);
    ExtendsOwned(f, root, m0, m, tables, p);
  }

  lemma FewerApart(f: Forest, g: Forest, m: Machine)
    requires Apart(f, m) && g.kernel == f.kernel && g.users <= f.users
    ensures Apart(g, m)
  {
    hide Node, Lookup, TableAt;
    forall r, v | Maps(g, m, r, v) ensures Owned(g, m, FrameAt(m, r, v)) {
      assert Maps(f, m, r, v);
      FewerTables(f, g, m, m, FrameAt(m, r, v));
    }
    forall r, v, r', v' | Maps(g, m, r, v) && Maps(g, m, r', v') && FrameAt(m, r, v) == FrameAt(m, r', v')
      ensures r == r' && v == v'
    {
      assert Maps(f, m, r, v) && Maps(f, m, r', v');
    }
  }

  // ---- Runs ------------------------------------------------------------------------------------

  /** The run invariant: separated trees and frames apart. */
  ghost predicate Sound(s: System) { Good(s) && Apart(ForestOf(s), s.machine) }

  /** Process `k` is prepared, successfully or not, as `ProcessExec.PrepareElf` says. */
  ghost predicate Prepares(s: System, k: nat, t: System) {
    && k < |s.spaces| && s.spaces[k] != 0
    && t.kernel == s.kernel && t.spaces == s.spaces
    && exists pages, tables :: Progressed(ForestOf(s), s.spaces[k], s.machine, t.machine, pages, tables)
  }

  /** One operation of the kernel: a process is created, prepared or destroyed, or a
      kernel page is mapped or unmapped. */
  ghost predicate Next(s: System, t: System) {
    || (exists op: R.Op :: Enabled(s, op) && !op.OpMapUser? && t == R.Step(s, op).0)
    || (exists k: nat :: Prepares(s, k, t))
  }

  lemma StepApart(s: System, op: R.Op)
    requires Good(s) && Apart(ForestOf(s), s.machine) && Enabled(s, op) && !op.OpMapUser?
    ensures var t := R.Step(s, op).0; Apart(ForestOf(t), t.machine)
  {
    hide Apart, Wf, V.KernelOk, Create, Destroy, V.MapPage, V.UnmapPage, Extends, Lookup;
    var f, m := ForestOf(s), s.machine;
    var t := R.Step(s, op).0;
    match op
    case OpCreate(k, cr3) =>
      CreateApart(f, m, cr3);
      CreateEffect(f, m, cr3);
      RootsUpdate(s.spaces, k, Create(m, cr3).1);
      if Create(m, cr3).1 != 0 { FewerApart(WithUser(f, Create(m, cr3).1), ForestOf(t), t.machine); }
    case OpDestroy(k) =>
      RootsUpdate(s.spaces, k, 0);
      if s.spaces[k] != 0 {
        RootsMember(s.spaces, k);
        DestroyApart(f, m, s.spaces[k]);
      } else {
        NothingDestroyed(m);
        FewerApart(f, ForestOf(t), m);
      }
    case OpKernelMap(va, pa, flags) =>
      var added := S.KernelMapExtends(f, m, va, pa, flags);
      V.MapPageEffect(f, m, va, pa, flags);
      UserLookups(f, m, t.machine);
      ExtendsApart(f, f.kernel, m, t.machine, added);
    case OpKernelUnmap(va) =>
      S.KernelUnmapExtends(f, m, va);
      V.UnmapPageEffect(f, m, va);
      UserLookups(f, m, t.machine);
      ExtendsApart(f, f.kernel, m, t.machine, {});
  }

  lemma NothingDestroyed(m: Machine)
    ensures Destroy(m, 0) == m
  {}

  lemma UserLookups(f: Forest, m: Machine, n: Machine)
    requires V.SameUserMappings(f, m, n) && Wf(f, m)
    ensures forall r, v | r in f.users && UserPage(v) :: Lookup(n, r, v) == Lookup(m, r, v)
  {
    hide Lookup, Wf, InTree;
    KernelNoUser(f, m);
    forall r, v | r in f.users && UserPage(v) ensures Lookup(n, r, v) == Lookup(m, r, v) { UserPages(f, r, v); }
  }

  lemma PreparesGood(s: System, k: nat, t: System)
    requires Good(s) && Prepares(s, k, t)
    ensures Good(t) && ForestOf(t) == ForestOf(s)
  {
    hide Wf, V.KernelOk, ExtendsAt, Lookup, Node, Roots;
    var pages, tables :| Progressed(ForestOf(s), s.spaces[k], s.machine, t.machine, pages, tables);
  }

  lemma NextSound(s: System, t: System)
    requires Sound(s) && Next(s, t)
    ensures Sound(t)
  {
    hide Good, Apart, R.Step, Prepares;
    if op: R.Op :| Enabled(s, op) && !op.OpMapUser? && t == R.Step(s, op).0 {
      StepRefines(s, op);
      StepApart(s, op);
    } else {
      var k: nat :| Prepares(s, k, t);
      PreparesGood(s, k, t);
      PreparesSound(s, k, t);
    }
  }

  lemma PreparesSound(s: System, k: nat, t: System)
    requires Sound(s) && Prepares(s, k, t) && ForestOf(t) == ForestOf(s)
    ensures Apart(ForestOf(t), t.machine)
  {
    hide Wf, V.KernelOk, Lookup, Node, Apart, ExtendsAt;
    var f := ForestOf(s);
    var pages, tables :| Progressed(f, s.spaces[k], s.machine, t.machine, pages, tables);
    RootsMember(s.spaces, k);
    PrepareApart(f, s.spaces[k], s.machine, t.machine, pages, tables);
  }

  /** Every state of every run satisfies the invariant. */
  lemma {:induction false} RunSound(states: seq<System>, i: nat)
    requires i < |states| && Sound(states[0])
    requires forall j: nat, k: nat | j + 1 == k < |states| :: Next(states[j], states[k])
    ensures Sound(states[i])
  {
    hide Sound, Next;
    if i > 0 {
      RunSound(states, i - 1);
      assert Next(states[i - 1], states[i]);
      NextSound(states[i - 1], states[i]);
    }
  }

  lemma BootedIsSound(m: Machine, b: Boot.Layout, count: nat)
    requires Boot.BootState(m, b)
    ensures Sound(Booted(m, b, count))
  {
    hide Good, Boot.VmmInit, Lookup;
    BootedIsGood(m, b, count);
    assert Roots(Booted(m, b, count).spaces) == {};
  }

  /** Preparing a process keeps the kernel half guarded too. */
  lemma PreparesGuarded(s: System, k: nat, t: System)
    requires Good(s) && S.Guarded(ForestOf(s), s.machine) && Prepares(s, k, t)
    ensures S.Guarded(ForestOf(t), t.machine)
  {
    hide Wf, V.KernelOk, Lookup, Node, S.Guarded, ExtendsAt;
    var f := ForestOf(s);
    var pages, tables :| Progressed(f, s.spaces[k], s.machine, t.machine, pages, tables);
    PreparesGood(s, k, t);
    S.WfParts(f, s.machine);
    S.ExtendsGuarded(f, s.spaces[k], s.machine, t.machine, tables);
  }

  /** Over every run from boot, however many processes come and go: frames mapped by
      two live processes, or at two pages of one, are different pages, and none of
      them is a page table of the kernel or of any process. */
  lemma ProcessesApart(m: Machine, b: Boot.Layout, states: seq<System>, i: nat, j: nat, k: nat, v: nat, w: nat)
    requires Boot.BootState(m, b) && i < |states| && states[0] == Booted(m, b, |states[0].spaces|)
    requires forall j: nat, k: nat | j + 1 == k < |states| :: Next(states[j], states[k])
    requires j < |states[i].spaces| && k < |states[i].spaces| && states[i].spaces[j] != 0 && states[i].spaces[k] != 0
    requires UserPage(v) && Lookup(states[i].machine, states[i].spaces[j], v).Some?
    requires UserPage(w) && Lookup(states[i].machine, states[i].spaces[k], w).Some?
    ensures var n := states[i].machine;
      var p, q := FrameAt(n, states[i].spaces[j], v), FrameAt(n, states[i].spaces[k], w);
      && (p == q ==> j == k && v == w)
      && p in n.pmm.held && !TableAt(ForestOf(states[i]), n, p)
  {
    hide Next, Booted, Lookup, TableAt, Wf, V.KernelOk;
    BootedIsSound(m, b, |states[0].spaces|);
    RunSound(states, i);
    var s := states[i];
    RootsMember(s.spaces, j);
    RootsMember(s.spaces, k);
    assert Maps(ForestOf(s), s.machine, s.spaces[j], v) && Maps(ForestOf(s), s.machine, s.spaces[k], w);
    assert Owned(ForestOf(s), s.machine, FrameAt(s.machine, s.spaces[j], v));
  }
}
