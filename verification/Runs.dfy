/** Whole runs: any number of user address spaces and the kernel's own mappings
    on one memory and one page allocator, refined to plain partial maps. */
module Runs {
  import opened Bytes
  import opened PmmSpec
  import opened PageTables
  import opened Forests
  import opened Walks
  import opened AddressSpace
  import opened Spaces
  import Boot
  import Vmm

  /** `spaces[k]` is the root page recorded in the k-th address-space structure,
      0 if that structure is not in use. */
  datatype System = System(machine: Machine, kernel: nat, spaces: seq<nat>)

  ghost function Roots(spaces: seq<nat>): set<nat> { set k | 0 <= k < |spaces| && spaces[k] != 0 :: spaces[k] }

  ghost function ForestOf(s: System): Forest { Forest(s.kernel, Roots(s.spaces)) }

  ghost predicate Good(s: System) {
    && Wf(ForestOf(s), s.machine)
    && Vmm.KernelOk(ForestOf(s), s.machine)
    && (forall k | 0 <= k < |s.spaces| && s.spaces[k] != 0 ::
          s.spaces[k] in s.machine.pmm.held && s.spaces[k] !in s.machine.pmm.reserved)
    && (forall j, k | 0 <= j < k < |s.spaces| && s.spaces[j] != 0 :: s.spaces[j] != s.spaces[k])
  }

  datatype Op =
    | OpCreate(space: nat, cr3: nat)
    | OpMapUser(space: nat, va: nat, pa: nat, flags: Flags)
    | OpDestroy(space: nat)
    | OpKernelMap(va: nat, pa: nat, flags: Flags)
    | OpKernelUnmap(va: nat)

  /** Operations name an existing structure; mapping needs a live space. */
  predicate Enabled(s: System, op: Op) {
    match op
    case OpCreate(k, _) => k < |s.spaces|
    case OpMapUser(k, _, _, _) => k < |s.spaces| && s.spaces[k] != 0
    case OpDestroy(k) => k < |s.spaces|
    case _ => true
  }

  /** One operation and the result code it returns. */
  function Step(s: System, op: Op): (System, int)
    requires Enabled(s, op)
  {
    match op
    case OpCreate(k, cr3) =>
      var (m, p) := Create(s.machine, cr3);
      if p == 0 then (s.(machine := m), -1) else (s.(machine := m, spaces := s.spaces[k := p]), 0)
    case OpMapUser(k, va, pa, flags) =>
      var (m, code) := MapUser(s.machine, s.spaces[k], va, pa, flags);
      (s.(machine := m), code)
    case OpDestroy(k) =>
      (s.(machine := Destroy(s.machine, s.spaces[k]), spaces := s.spaces[k := 0]), 0)
    case OpKernelMap(va, pa, flags) =>
      var (m, code) := Vmm.MapPage(s.machine, s.kernel, va, pa, flags);
      (s.(machine := m), code)
    case OpKernelUnmap(va) =>
      var (m, code, _) := Vmm.UnmapPage(s.machine, s.kernel, va);
      (s.(machine := m), code)
  }

  // ---- The abstract machine ---------------------------------------------------------------

  /** A partial map from virtual pages to mappings. */
  type PageMap = map<nat, Mapping>

  /** The kernel's pages (one name for each pair of twins) and each space's. */
  datatype View = View(kernel: PageMap, spaces: seq<Option<PageMap>>)

  ghost function UserMap(m: Machine, root: nat): PageMap {
    map v: nat | 0x800_0000 <= v < 0x1000_0000 && Lookup(m, root, v).Some? :: Lookup(m, root, v).value
  }

  ghost function KernelMap(m: Machine, root: nat): PageMap {
    map c: nat | c < Vmm.PAGES && Vmm.KernelPage(c) && Lookup(m, root, c).Some? :: Lookup(m, root, c).value
  }

  ghost function SpaceMap(m: Machine, root: nat): Option<PageMap> {
    if root == 0 then None else Some(UserMap(m, root))
  }

  ghost function ViewOf(s: System): View {
    View(KernelMap(s.machine, s.kernel),
         seq(|s.spaces|, k requires 0 <= k < |s.spaces| => SpaceMap(s.machine, s.spaces[k])))
  }

  function Requested(pa: nat, flags: Flags): Mapping {
    Mapping(pa / PAGE_SIZE % FRAME_LIMIT, flags.writable, flags.user, flags.nx)
  }

  predicate AbstractEnabled(a: View, op: Op) {
    match op
    case OpCreate(k, _) => k < |a.spaces|
    case OpMapUser(k, _, _, _) => k < |a.spaces| && a.spaces[k].Some?
    case OpDestroy(k) => k < |a.spaces|
    case _ => true
  }

  /** What an operation that returned `code` does to the maps: a failure nothing,
      a success one binding of one map. */
  function AbstractStep(a: View, op: Op, code: int): View
    requires AbstractEnabled(a, op)
  {
    if code != 0 then a
    else
      match op
      case OpCreate(k, _) => a.(spaces := a.spaces[k := Some(map[])])
      case OpMapUser(k, va, pa, flags) =>
        a.(spaces := a.spaces[k := Some(a.spaces[k].value[va / PAGE_SIZE := Requested(pa, flags.(user := true))])])
      case OpDestroy(k) => a.(spaces := a.spaces[k := None])
      case OpKernelMap(va, pa, flags) =>
        a.(kernel := a.kernel[Vmm.Canon(va / PAGE_SIZE % Vmm.PAGES) := Requested(pa, flags)])
      case OpKernelUnmap(va) =>
        a.(kernel := a.kernel - {Vmm.Canon(va / PAGE_SIZE % Vmm.PAGES)})
  }

  /** The step leads to a good state and does to the maps what its code says. */
  ghost predicate Refined(s: System, op: Op) {
    && Enabled(s, op) && AbstractEnabled(ViewOf(s), op)
    && var (t, code) := Step(s, op); Good(t) && ViewOf(t) == AbstractStep(ViewOf(s), op, code)
  }

  // ---- One step -----------------------------------------------------------------------------

  lemma RootsMember(spaces: seq<nat>, k: nat)
    requires k < |spaces| && spaces[k] != 0
    ensures spaces[k] in Roots(spaces)
  {}

  lemma RootsUpdate(spaces: seq<nat>, k: nat, p: nat)
    requires k < |spaces|
    requires forall j, i | 0 <= j < i < |spaces| && spaces[j] != 0 :: spaces[j] != spaces[i]
    ensures p != 0 ==> Roots(spaces[k := p]) == (Roots(spaces) - {spaces[k]}) + {p}
    ensures p == 0 ==> Roots(spaces[k := p]) == Roots(spaces) - {spaces[k]}
  {
    var after := spaces[k := p];
    forall r ensures r in Roots(after) <==> (r in Roots(spaces) && r != spaces[k]) || (p != 0 && r == p) {
      if r in Roots(spaces) && r != spaces[k] {
        var i :| 0 <= i < |spaces| && spaces[i] != 0 && spaces[i] == r;
        assert after[i] == r;
      }
      if p != 0 && r == p { assert after[k] == p; }
      if r in Roots(after) {
        var i :| 0 <= i < |after| && after[i] != 0 && after[i] == r;
        assert i != k ==> spaces[i] == r;
      }
    }
  }

  lemma SameUserMap(m: Machine, n: Machine, r: nat)
    requires forall v | UserPage(v) :: Lookup(n, r, v) == Lookup(m, r, v)
    ensures UserMap(n, r) == UserMap(m, r)
  {
    hide Lookup;
    forall v | 0x800_0000 <= v < 0x1000_0000 ensures Lookup(n, r, v) == Lookup(m, r, v) { assert UserPage(v); }
  }

  lemma SameKernelMap(m: Machine, n: Machine, k: nat)
    requires forall c | Vmm.KernelPage(c) :: Lookup(n, k, c) == Lookup(m, k, c)
    ensures KernelMap(n, k) == KernelMap(m, k)
  {
    hide Lookup;
  }

  lemma MapUserRefines(s: System, k: nat, va: nat, pa: nat, flags: Flags)
    requires Good(s) && k < |s.spaces| && s.spaces[k] != 0
    ensures Refined(s, OpMapUser(k, va, pa, flags))
  {
    hide Node, Lookup, Vmm.KernelOk, Wf, MapUser, Missing, FreePages;
    var f, m, root := ForestOf(s), s.machine, s.spaces[k];
    RootsMember(s.spaces, k);
    var (n, code) := MapUser(m, root, va, pa, flags);
    MapUserEffect(f, m, root, va, pa, flags);
    var added := MapUserFrame(f, m, root, va, pa, flags);
    SameKernelMap(m, n, s.kernel);
    forall j: nat | j < |s.spaces| && s.spaces[j] != 0 && (code != 0 || j != k)
      ensures UserMap(n, s.spaces[j]) == UserMap(m, s.spaces[j])
    {
      RootsMember(s.spaces, j);
      SameUserMap(m, n, s.spaces[j]);
    }
    if code == 0 {
      UserAddresses(va);
      MappedOne(m, n, root, va / PAGE_SIZE, Requested(pa, flags.(user := true)));
    }
    var op := OpMapUser(k, va, pa, flags);
    assert ViewOf(Step(s, op).0).spaces == AbstractStep(ViewOf(s), op, code).spaces;
  }

  lemma MappedOne(m: Machine, n: Machine, root: nat, v: nat, x: Mapping)
    requires UserPage(v)
    requires forall w | UserPage(w) :: Lookup(n, root, w) == if w == v then Some(x) else Lookup(m, root, w)
    ensures UserMap(n, root) == UserMap(m, root)[v := x]
  {
    hide Lookup;
    forall w | 0x800_0000 <= w < 0x1000_0000
      ensures Lookup(n, root, w) == if w == v then Some(x) else Lookup(m, root, w)
    {
      assert UserPage(w);
    }
  }

  lemma CreateRefines(s: System, k: nat, cr3: nat)
    requires Good(s) && k < |s.spaces|
    ensures Refined(s, OpCreate(k, cr3))
  {
    hide Node, Lookup, Vmm.KernelOk, Wf, Create, FreePages;
    var f, m := ForestOf(s), s.machine;
    var (n, p) := Create(m, cr3);
    var op := OpCreate(k, cr3);
    var t := Step(s, op).0;
    CreateEffect(f, m, cr3);
    if p != 0 {
      WfWithout(WithUser(f, p), n, s.spaces[k]);
      RootsUpdate(s.spaces, k, p);
      HeldRoots(s);
      assert s.spaces[k] != p;
      assert ForestOf(t) == WithoutUser(WithUser(f, p), s.spaces[k]);
      forall c | Vmm.KernelPage(c) ensures Lookup(n, s.kernel, c) == Lookup(m, s.kernel, c) { Vmm.KernelTree(f, c); }
      SameKernelMap(m, n, s.kernel);
      forall j: nat | j < |s.spaces| && s.spaces[j] != 0 && j != k
        ensures UserMap(n, s.spaces[j]) == UserMap(m, s.spaces[j])
      {
        RootsMember(s.spaces, j);
        forall v | UserPage(v) ensures Lookup(n, s.spaces[j], v) == Lookup(m, s.spaces[j], v) {
          UserTrees(s, j, v);
        }
        SameUserMap(m, n, s.spaces[j]);
      }
      EmptyUserMap(n, p);
      assert ViewOf(t).spaces == AbstractStep(ViewOf(s), op, 0).spaces;
    }
  }

  lemma HeldRoots(s: System)
    requires Good(s)
    ensures forall k | 0 <= k < |s.spaces| && s.spaces[k] != 0 :: s.spaces[k] in s.machine.pmm.unavailable
    ensures 0 in s.machine.pmm.unavailable && s.machine.pmm.reserved <= s.machine.pmm.unavailable
  {}

  lemma UserTrees(s: System, j: nat, v: nat)
    requires Good(s) && j < |s.spaces| && s.spaces[j] != 0 && UserPage(v)
    ensures InTree(ForestOf(s), Level1(s.spaces[j], v))
  {
    RootsMember(s.spaces, j);
    UserPages(ForestOf(s), s.spaces[j], v);
  }

  lemma EmptyUserMap(m: Machine, p: nat)
    requires forall v | UserPage(v) :: Lookup(m, p, v) == None
    ensures UserMap(m, p) == map[]
  {
    hide Lookup;
    forall v | 0x800_0000 <= v < 0x1000_0000 ensures Lookup(m, p, v) == None { assert UserPage(v); }
  }

  lemma DestroyRefines(s: System, k: nat)
    requires Good(s) && k < |s.spaces|
    ensures Refined(s, OpDestroy(k))
  {
    hide Node, Lookup, Vmm.KernelOk, Wf, FreePages;
    var f, m, root := ForestOf(s), s.machine, s.spaces[k];
    var op := OpDestroy(k);
    var t := Step(s, op).0;
    RootsUpdate(s.spaces, k, 0);
    if root != 0 {
      RootsMember(s.spaces, k);
      DestroyEffect(f, m, root);
      var n := Destroy(m, root);
      SameKernelMap(m, n, s.kernel);
      forall j: nat | j < |s.spaces| ensures UserMap(n, s.spaces[j]) == UserMap(m, s.spaces[j]) {
        SameUserMap(m, n, s.spaces[j]);
      }
    }
    assert ForestOf(t) == WithoutUser(f, root);
    assert root == 0 ==> WithoutUser(f, root) == f && t == s;
    assert ViewOf(t).spaces == AbstractStep(ViewOf(s), op, 0).spaces;
  }

  /** A kernel operation that changes kernel page `c` alone. */
  lemma KernelOnly(s: System, n: Machine, c: nat, x: Option<Mapping>)
    requires Good(s) && Wf(ForestOf(s), n) && Vmm.KernelOk(ForestOf(s), n)
    requires Vmm.OnlyChanges(ForestOf(s), s.machine, n, c, x)
    requires s.machine.pmm.held <= n.pmm.held && n.pmm.reserved == s.machine.pmm.reserved
    ensures var t := s.(machine := n);
      && Good(t) && ViewOf(t).spaces == ViewOf(s).spaces
      && (Vmm.KernelPage(c) ==>
            KernelMap(n, s.kernel) == (if x.Some? then KernelMap(s.machine, s.kernel)[c := x.value]
                                       else KernelMap(s.machine, s.kernel) - {c}))
      && (x == Lookup(s.machine, s.kernel, c) ==> KernelMap(n, s.kernel) == KernelMap(s.machine, s.kernel))
  {
    hide Node, Lookup, Vmm.KernelOk, Wf;
    var m := s.machine;
    forall j: nat | j < |s.spaces| && s.spaces[j] != 0 ensures UserMap(n, s.spaces[j]) == UserMap(m, s.spaces[j]) {
      RootsMember(s.spaces, j);
      forall v | UserPage(v) ensures Lookup(n, s.spaces[j], v) == Lookup(m, s.spaces[j], v) {
        UserTrees(s, j, v);
      }
      SameUserMap(m, n, s.spaces[j]);
    }
    assert ViewOf(s.(machine := n)).spaces == ViewOf(s).spaces;
  }

  lemma KernelMapRefines(s: System, va: nat, pa: nat, flags: Flags)
    requires Good(s)
    ensures Refined(s, OpKernelMap(va, pa, flags))
  {
    hide Node, Lookup, Vmm.KernelOk, Wf, Vmm.MapPage, Missing, FreePages, Vmm.OnlyChanges, ViewOf, KernelMap,
         Vmm.Canon;
    var f, m := ForestOf(s), s.machine;
    var (n, code) := Vmm.MapPage(m, s.kernel, va, pa, flags);
    var v := va / PAGE_SIZE % Vmm.PAGES;
    Vmm.MapPageEffect(f, m, va, pa, flags);
    Vmm.MapPageTakes(f, m, va, pa, flags);
    if v >= 0x4_0000 { Vmm.CanonIsKernelPage(v); }
    KernelOnly(s, n, Vmm.Canon(v),
               if code == 0 then MappingOf(Vmm.LeafFor(pa, flags)) else Lookup(m, s.kernel, Vmm.Canon(v)));
    ViewParts(s);
    ViewParts(s.(machine := n));
  }

  lemma KernelUnmapRefines(s: System, va: nat)
    requires Good(s)
    ensures Refined(s, OpKernelUnmap(va))
  {
    hide Node, Lookup, Vmm.KernelOk, Wf, Vmm.UnmapPage, Vmm.OnlyChanges, ViewOf, KernelMap, Vmm.Canon;
    var f, m := ForestOf(s), s.machine;
    var (n, code, _) := Vmm.UnmapPage(m, s.kernel, va);
    var v := va / PAGE_SIZE % Vmm.PAGES;
    Vmm.UnmapPageEffect(f, m, va);
    Vmm.UnmapPagePmm(m, s.kernel, va);
    if v >= 0x4_0000 { Vmm.CanonIsKernelPage(v); }
    KernelOnly(s, n, Vmm.Canon(v), if code == 0 then None else Lookup(m, s.kernel, Vmm.Canon(v)));
    ViewParts(s);
    ViewParts(s.(machine := n));
  }

  lemma ViewParts(s: System)
    ensures ViewOf(s).kernel == KernelMap(s.machine, s.kernel) && |ViewOf(s).spaces| == |s.spaces|
  {}

  // ---- Runs -------------------------------------------------------------------------------------

  predicate RunEnabled(s: System, ops: seq<Op>)
    decreases |ops|
  {
    ops == [] || (Enabled(s, ops[0]) && RunEnabled(Step(s, ops[0]).0, ops[1..]))
  }

  function Run(s: System, ops: seq<Op>): System
    requires RunEnabled(s, ops)
    decreases |ops|
  {
    if ops == [] then s else Run(Step(s, ops[0]).0, ops[1..])
  }

  function Codes(s: System, ops: seq<Op>): (codes: seq<int>)
    requires RunEnabled(s, ops)
    ensures |codes| == |ops|
    decreases |ops|
  {
    if ops == [] then []
    else
      var (t, code) := Step(s, ops[0]);
      [code] + Codes(t, ops[1..])
  }

  /** The abstract states a sequence of operations with given results leads to. */
  ghost predicate AbstractRun(a: View, ops: seq<Op>, codes: seq<int>, b: View)
    requires |ops| == |codes|
    decreases |ops|
  {
    if ops == [] then b == a
    else AbstractEnabled(a, ops[0]) && AbstractRun(AbstractStep(a, ops[0], codes[0]), ops[1..], codes[1..], b)
  }

  lemma StepRefines(s: System, op: Op)
    requires Good(s) && Enabled(s, op)
    ensures AbstractEnabled(ViewOf(s), op)
    ensures var (t, code) := Step(s, op); Good(t) && ViewOf(t) == AbstractStep(ViewOf(s), op, code)
  {
    hide Good, Step, AbstractStep, KernelMap;
    match op
    case OpCreate(k, cr3) => CreateRefines(s, k, cr3);
    case OpMapUser(k, va, pa, flags) => MapUserRefines(s, k, va, pa, flags);
    case OpDestroy(k) => DestroyRefines(s, k);
    case OpKernelMap(va, pa, flags) => KernelMapRefines(s, va, pa, flags);
    case OpKernelUnmap(va) => KernelUnmapRefines(s, va);
  }

  /** Refinement over every run: the page tables in memory always represent the
      partial maps that the abstract operations compute. */
  lemma {:induction false} RunRefines(s: System, ops: seq<Op>)
    requires Good(s) && RunEnabled(s, ops)
    ensures Good(Run(s, ops))
    ensures AbstractRun(ViewOf(s), ops, Codes(s, ops), ViewOf(Run(s, ops)))
    decreases |ops|
  {
    hide Good, Step, AbstractStep, ViewOf;
    if ops != [] {
      StepRefines(s, ops[0]);
      var (t, code) := Step(s, ops[0]);
      RunRefines(t, ops[1..]);
      assert Codes(s, ops)[1..] == Codes(t, ops[1..]);
    }
  }

  // ---- What the refinement says about translation ------------------------------------------------

  /** A live space translates exactly the pages of its map, keeping the offset,
      and the processor grants exactly the rights recorded there. */
  lemma UserTranslation(s: System, k: nat, va: nat)
    requires Good(s) && k < |s.spaces| && s.spaces[k] != 0
    ensures var v := va / PAGE_SIZE; var pages := ViewOf(s).spaces[k].value; var root := s.spaces[k];
      && (v in pages ==>
            && TranslateUser(s.machine, root, va) == Some(pages[v].frame * PAGE_SIZE + va % PAGE_SIZE)
            && Effective(s.machine, root, v) == Flags(pages[v].writable, true, pages[v].nx))
      && (v !in pages ==> TranslateUser(s.machine, root, va) == None)
  {
    hide Lookup, Wf, Vmm.KernelOk, Effective, TranslateUser;
    RootsMember(s.spaces, k);
    TranslateIsLookup(ForestOf(s), s.machine, s.spaces[k], va);
    assert UserPage(va / PAGE_SIZE) <==> 0x800_0000 <= va / PAGE_SIZE < 0x1000_0000;
  }

  /** The kernel sees the first GiB as itself and otherwise exactly its map. */
  lemma KernelTranslation(s: System, va: nat)
    requires Good(s)
    ensures var v := va / PAGE_SIZE % Vmm.PAGES; var pages := ViewOf(s).kernel; var c := Vmm.Canon(v);
      Vmm.Translate(s.machine, s.kernel, va) ==
        if v < 0x4_0000 then va % 0x1_0000_0000_0000
        else if c in pages then pages[c].frame * PAGE_SIZE + va % PAGE_SIZE
        else 0
  {
    hide Lookup, Wf, Vmm.KernelOk, Vmm.Translate;
    Vmm.TranslateSees(ForestOf(s), s.machine, va);
    var v := va / PAGE_SIZE % Vmm.PAGES;
    if v >= 0x4_0000 { Vmm.CanonIsKernelPage(v); }
  }

  predicate Names(op: Op, k: nat) { !op.OpKernelMap? && !op.OpKernelUnmap? && op.space == k }

  /** The operations after which a space may lose mappings. */
  predicate Replaces(op: Op, k: nat) { (op.OpCreate? || op.OpDestroy?) && op.space == k }

  lemma StepShape(s: System, op: Op)
    requires Enabled(s, op)
    ensures |Step(s, op).0.spaces| == |s.spaces|
    ensures forall j: nat | j < |s.spaces| && !Replaces(op, j) :: Step(s, op).0.spaces[j] == s.spaces[j]
  {}

  /** Isolation: a run that never names space `j` leaves all its translations and
      rights as they were, whatever it does to other spaces and to the kernel. */
  lemma {:induction false} Isolation(s: System, ops: seq<Op>, j: nat)
    requires Good(s) && RunEnabled(s, ops) && j < |s.spaces|
    requires forall i: nat | i < |ops| :: !Names(ops[i], j)
    ensures var t := Run(s, ops);
      |t.spaces| == |s.spaces| && t.spaces[j] == s.spaces[j] && ViewOf(t).spaces[j] == ViewOf(s).spaces[j]
    decreases |ops|
  {
    hide Good, Step, SpaceMap;
    if ops != [] {
      var (t, code) := Step(s, ops[0]);
      StepRefines(s, ops[0]);
      StepShape(s, ops[0]);
      forall i: nat | i < |ops[1..]| ensures !Names(ops[1..][i], j) { assert ops[1..][i] == ops[i + 1]; }
      Isolation(t, ops[1..], j);
    }
  }

  /** A mapping, with the rights it was requested with, outlives every later
      operation except the end of its own space. */
  lemma {:induction false} MappingPersists(s: System, ops: seq<Op>, k: nat, v: nat)
    requires Good(s) && RunEnabled(s, ops) && k < |s.spaces| && s.spaces[k] != 0
    requires v in ViewOf(s).spaces[k].value
    requires forall i: nat | i < |ops| :: !Replaces(ops[i], k)
    ensures var t := Run(s, ops);
      && |t.spaces| == |s.spaces| && t.spaces[k] == s.spaces[k]
      && v in ViewOf(t).spaces[k].value
      && ViewOf(t).spaces[k].value[v] == ViewOf(s).spaces[k].value[v]
    decreases |ops|
  {
    if ops != [] {
      StepKeepsMapping(s, ops[0], k, v);
      StepRefines(s, ops[0]);
      StepShape(s, ops[0]);
      hide Good, Step, ViewOf;
      forall i: nat | i < |ops[1..]| ensures !Replaces(ops[1..][i], k) { assert ops[1..][i] == ops[i + 1]; }
      MappingPersists(Step(s, ops[0]).0, ops[1..], k, v);
    }
  }

  lemma StepKeepsMapping(s: System, op: Op, k: nat, v: nat)
    requires Good(s) && Enabled(s, op) && k < |s.spaces| && s.spaces[k] != 0 && !Replaces(op, k)
    requires v in ViewOf(s).spaces[k].value
    ensures var t := Step(s, op).0;
      && |t.spaces| == |s.spaces| && t.spaces[k] == s.spaces[k]
      && v in ViewOf(t).spaces[k].value && ViewOf(t).spaces[k].value[v] == ViewOf(s).spaces[k].value[v]
  {
    hide Good, Step, UserMap, KernelMap;
    StepRefines(s, op);
    StepShape(s, op);
    if op.OpMapUser? && op.space == k && op.va / PAGE_SIZE == v { NotRemapped(s, op, v); }
  }

  /** A page already mapped is never mapped again. */
  lemma NotRemapped(s: System, op: Op, v: nat)
    requires Good(s) && op.OpMapUser? && Enabled(s, op)
    requires v in ViewOf(s).spaces[op.space].value && op.va / PAGE_SIZE == v
    ensures Step(s, op).1 != 0
  {
    hide Lookup, Wf, Vmm.KernelOk, MapUser, Missing, FreePages;
    RootsMember(s.spaces, op.space);
    MapUserEffect(ForestOf(s), s.machine, s.spaces[op.space], op.va, op.pa, op.flags);
  }

  /** The state right after `vmm_init`, with `count` unused structures. */
  function Booted(m: Machine, b: Boot.Layout, count: nat): System {
    System(Boot.VmmInit(m, b), b.pml4, seq(count, (k: nat) => 0))
  }

  lemma BootedIsGood(m: Machine, b: Boot.Layout, count: nat)
    requires Boot.BootState(m, b)
    ensures Good(Booted(m, b, count))
  {
    Boot.InitIsGood(m, b);
    assert Roots(Booted(m, b, count).spaces) == {};
  }

  /** Over every run from boot: the first GiB stays identity mapped and the
      windows at 2^38 and 2^39 translate alike. */
  lemma KernelWindows(m: Machine, b: Boot.Layout, count: nat, ops: seq<Op>, x: nat)
    requires Boot.BootState(m, b) && RunEnabled(Booted(m, b, count), ops) && x < 0x4000_0000
    ensures var t := Run(Booted(m, b, count), ops);
      && Good(t)
      && Vmm.Translate(t.machine, t.kernel, x) == x
      && Vmm.Translate(t.machine, t.kernel, 0x40_0000_0000 + x)
         == Vmm.Translate(t.machine, t.kernel, 0x80_0000_0000 + x)
  {
    hide Good, Booted, Vmm.Translate, ViewOf;
    BootedIsGood(m, b, count);
    RunRefines(Booted(m, b, count), ops);
    var t := Run(Booted(m, b, count), ops);
    KernelTranslation(t, x);
    KernelTranslation(t, 0x40_0000_0000 + x);
    KernelTranslation(t, 0x80_0000_0000 + x);
    WindowAddresses(x);
  }

  lemma WindowAddresses(x: nat)
    requires x < 0x4000_0000
    ensures x / PAGE_SIZE % Vmm.PAGES < 0x4_0000 && x % 0x1_0000_0000_0000 == x
    ensures (0x40_0000_0000 + x) / PAGE_SIZE % Vmm.PAGES == 0x400_0000 + x / PAGE_SIZE
    ensures (0x80_0000_0000 + x) / PAGE_SIZE % Vmm.PAGES == 0x800_0000 + x / PAGE_SIZE
    ensures (0x40_0000_0000 + x) % PAGE_SIZE == (0x80_0000_0000 + x) % PAGE_SIZE
  {}
}
