/** The root that the processor has loaded, as part of the run: activating a space loads
    its root, and creating one copies entry 0 of whatever root is loaded. */
module LoadedRoot {
  import opened PmmSpec
  import opened PageTables
  import opened Forests
  import opened AddressSpace
  import opened Spaces
  import opened Runs
  import opened Supervisor
  import opened ProcessRuns
  import Boot
  import R = Runs
  import V = Vmm

  datatype Cpu = Cpu(system: System, cr3: nat)

  datatype CpuOp = Activate(space: nat) | New(space: nat) | Other(op: R.Op)

  predicate CpuEnabled(c: Cpu, op: CpuOp) {
    match op
    case Activate(k) => k < |c.system.spaces|
    case New(k) => k < |c.system.spaces|
    case Other(o) => !o.OpCreate? && Enabled(c.system, o)
  }

  /** Activating an unused structure is refused. */
  function CpuStep(c: Cpu, op: CpuOp): Cpu
    requires CpuEnabled(c, op)
  {
    match op
    case Activate(k) => if c.system.spaces[k] == 0 then c else c.(cr3 := c.system.spaces[k])
    case New(k) => c.(system := R.Step(c.system, OpCreate(k, c.cr3)).0)
    case Other(o) => c.(system := R.Step(c.system, o).0)
  }

  predicate CpuRunEnabled(c: Cpu, ops: seq<CpuOp>)
    decreases |ops|
  {
    ops == [] || (CpuEnabled(c, ops[0]) && CpuRunEnabled(CpuStep(c, ops[0]), ops[1..]))
  }

  function CpuRun(c: Cpu, ops: seq<CpuOp>): Cpu
    requires CpuRunEnabled(c, ops)
    decreases |ops|
  {
    if ops == [] then c else CpuRun(CpuStep(c, ops[0]), ops[1..])
  }

  lemma RunFirst(c: Cpu, op: CpuOp, rest: seq<CpuOp>)
    requires CpuEnabled(c, op) && CpuRunEnabled(CpuStep(c, op), rest)
    ensures CpuRunEnabled(c, [op] + rest) && CpuRun(c, [op] + rest) == CpuRun(CpuStep(c, op), rest)
  {
    hide CpuStep, CpuEnabled;
    assert ([op] + rest)[1..] == rest;
  }

  /** The operation destroys the loaded space, or overwrites its structure. */
  predicate LosesLoaded(c: Cpu, op: CpuOp) {
    match op
    case Activate(_) => false
    case New(k) => k < |c.system.spaces| && c.system.spaces[k] == c.cr3
    case Other(o) => o.OpDestroy? && o.space < |c.system.spaces| && c.system.spaces[o.space] == c.cr3
  }

  /** One step that keeps the loaded space: an operation of the kernel, or a process
      prepared. */
  ghost predicate CpuNext(c: Cpu, d: Cpu) {
    || (exists op :: CpuEnabled(c, op) && !LosesLoaded(c, op) && d == CpuStep(c, op))
    || (d.cr3 == c.cr3 && exists k: nat :: Prepares(c.system, k, d.system))
  }

  /** The loaded root is the kernel's or a live space's, and the kernel half is guarded. */
  ghost predicate Sane(c: Cpu) {
    && Good(c.system) && Guarded(ForestOf(c.system), c.system.machine)
    && (c.cr3 == c.system.kernel || c.cr3 in Roots(c.system.spaces))
  }

  lemma RootsKept(spaces: seq<nat>, k: nat, p: nat, r: nat)
    requires k < |spaces| && r in Roots(spaces) && spaces[k] != r
    ensures r in Roots(spaces[k := p])
  {
    var i :| 0 <= i < |spaces| && spaces[i] != 0 && spaces[i] == r;
    assert spaces[k := p][i] == r;
  }

  lemma StepSane(c: Cpu, op: CpuOp)
    requires Sane(c) && CpuEnabled(c, op) && !LosesLoaded(c, op)
    ensures Sane(CpuStep(c, op))
  {
    hide Good, Guarded, Safe, SafeRoot, Create, MapUser, Destroy, V.MapPage, V.UnmapPage;
    match op
    case Activate(k) => if c.system.spaces[k] != 0 { RootsMember(c.system.spaces, k); }
    case New(k) => SafeStep(c, OpCreate(k, c.cr3));
    case Other(o) => SafeStep(c, o);
  }

  lemma SafeStep(c: Cpu, op: R.Op)
    requires Sane(c) && Enabled(c.system, op) && (op.OpCreate? ==> op.cr3 == c.cr3)
    requires op.OpCreate? || op.OpDestroy? ==> c.system.spaces[op.space] != c.cr3
    ensures Sane(c.(system := R.Step(c.system, op).0))
  {
    hide Guarded, Wf, V.KernelOk, SafeRoot, Create, MapUser, Destroy, V.MapPage, V.UnmapPage, Roots;
    var s := c.system;
    if op.OpCreate? { LiveRootIsSafe(ForestOf(s), s.machine, c.cr3); }
    StepGuardedIff(s, op);
    StepRefines(s, op);
    if c.cr3 in Roots(s.spaces) {
      if op.OpCreate? { RootsKept(s.spaces, op.space, Create(s.machine, op.cr3).1, c.cr3); }
      if op.OpDestroy? { RootsKept(s.spaces, op.space, 0, c.cr3); }
    }
  }

  lemma NextSane(c: Cpu, d: Cpu)
    requires Sane(c) && CpuNext(c, d)
    ensures Sane(d)
  {
    hide Good, Guarded, CpuStep, Prepares;
    if op :| CpuEnabled(c, op) && !LosesLoaded(c, op) && d == CpuStep(c, op) {
      StepSane(c, op);
    } else {
      var k: nat :| Prepares(c.system, k, d.system);
      PreparesGood(c.system, k, d.system);
      PreparesGuarded(c.system, k, d.system);
      PreparesSpaces(c.system, k, d.system);
    }
  }

  lemma PreparesSpaces(s: System, k: nat, t: System)
    requires Prepares(s, k, t)
    ensures t.kernel == s.kernel && t.spaces == s.spaces
  {}

  lemma {:induction false} RunSane(states: seq<Cpu>, i: nat)
    requires i < |states| && Sane(states[0])
    requires forall j: nat, k: nat | j + 1 == k < |states| :: CpuNext(states[j], states[k])
    ensures Sane(states[i])
  {
    hide Sane, CpuNext;
    if i > 0 {
      RunSane(states, i - 1);
      assert CpuNext(states[i - 1], states[i]);
      NextSane(states[i - 1], states[i]);
    }
  }

  lemma BootedIsSane(m: Machine, b: Boot.Layout, count: nat)
    requires Boot.BootState(m, b)
    ensures Sane(Cpu(Booted(m, b, count), b.pml4))
  {
    hide Good, Guarded, Boot.VmmInit;
    BootedIsGood(m, b, count);
    BootedIsGuarded(m, b, count);
  }

  /** Over every run from boot that never destroys the space it runs in, processes
      prepared included: the loaded root stays live, and every live space reaches the
      first GiB as itself and for the supervisor only. */
  lemma LoadedRunIsGuarded(m: Machine, b: Boot.Layout, states: seq<Cpu>, i: nat, k: nat, va: nat)
    requires Boot.BootState(m, b) && i < |states| && va < 0x4000_0000
    requires states[0] == Cpu(Booted(m, b, |states[0].system.spaces|), b.pml4)
    requires forall j: nat, k: nat | j + 1 == k < |states| :: CpuNext(states[j], states[k])
    ensures var s := states[i].system;
      && (states[i].cr3 == s.kernel || states[i].cr3 in Roots(s.spaces))
      && (k < |s.spaces| && s.spaces[k] != 0 ==>
            V.Translate(s.machine, s.spaces[k], va) == va && !UserReaches(s.machine, s.spaces[k], va / PAGE_SIZE))
  {
    hide CpuNext, Booted, Guarded, Wf, V.KernelOk, V.Translate, UserReaches;
    BootedIsSane(m, b, |states[0].system.spaces|);
    RunSane(states, i);
    var s := states[i].system;
    if k < |s.spaces| && s.spaces[k] != 0 {
      RootsMember(s.spaces, k);
      SupervisorOnly(ForestOf(s), s.machine, s.spaces[k], va);
    }
  }

  /** Destroying the loaded space and creating one at once always goes wrong: the page
      just freed is handed out again and zeroed before its entry 0 is read, so the new
      space reaches nothing of the first GiB. */
  lemma DestroyedWhileLoaded(s: System, k: nat)
    requires Good(s) && k < |s.spaces| && s.spaces[k] == 0 && FreePages(s.machine.pmm) != {}
    ensures var ops := [New(k), Activate(k), Other(OpDestroy(k)), New(k)]; var c := Cpu(s, s.kernel);
      && CpuRunEnabled(c, ops)
      && var t := CpuRun(c, ops);
         && k < |t.system.spaces| && t.system.spaces[k] == t.cr3 != 0
         && (forall va: nat | va < 0x4000_0000 :: V.Translate(t.system.machine, t.cr3, va) == 0)
         && !Guarded(ForestOf(t.system), t.system.machine)
  {
    hide Good, Ent, SetEnt, Alloc, Free, Node, Create, FreePages, V.Translate;
    var m := s.machine;
    var (n, p) := Create(m, s.kernel);
    CreateTwice(s, k);
    var c0 := Cpu(s, s.kernel);
    var c1 := CpuStep(c0, New(k));
    var c2 := CpuStep(c1, Activate(k));
    var c3 := CpuStep(c2, Other(OpDestroy(k)));
    var c4 := CpuStep(c3, New(k));
    RunFirst(c3, New(k), []);
    RunFirst(c2, Other(OpDestroy(k)), [New(k)]);
    RunFirst(c1, Activate(k), [Other(OpDestroy(k)), New(k)]);
    RunFirst(c0, New(k), [Activate(k), Other(OpDestroy(k)), New(k)]);
    assert [New(k)] + [Activate(k), Other(OpDestroy(k)), New(k)] == [New(k), Activate(k), Other(OpDestroy(k)), New(k)];
    assert [Activate(k)] + [Other(OpDestroy(k)), New(k)] == [Activate(k), Other(OpDestroy(k)), New(k)];
    assert [Other(OpDestroy(k))] + [New(k)] == [Other(OpDestroy(k)), New(k)];
    assert [New(k)] + [] == [New(k)];
    RootsMember(c4.system.spaces, k);
    forall va: nat | va < 0x4000_0000 ensures V.Translate(c4.system.machine, p, va) == 0 {
      NothingBelow(c4.system.machine, p, va);
    }
  }

  lemma NothingBelow(m: Machine, root: nat, va: nat)
    requires Ent(m, root, 0) == NOT_PRESENT && va < 0x4000_0000
    ensures V.Translate(m, root, va) == 0
  {
    LowIndices(va);
  }

  /** The second creation takes the same page, whose entry 0 is then its own. */
  lemma CreateTwice(s: System, k: nat)
    requires Good(s) && FreePages(s.machine.pmm) != {}
    ensures var (n, p) := Create(s.machine, s.kernel);
      && p != 0
      && var (o, q) := Create(Destroy(n, p), p); q == p && Ent(o, p, 0) == NOT_PRESENT
  {
    hide Wf, V.KernelOk, Ent, SetEnt, Alloc, Free, FreePages, Create;
    var f, m := ForestOf(s), s.machine;
    var (n, p) := Create(m, s.kernel);
    CreateEffect(f, m, s.kernel);
    CreateReads(m, s.kernel, p);
    WfPmm(f, m);
    AllocFreeRoundTrip(m.pmm);
    SamePage(m, s.kernel, Destroy(n, p), p, p);
    CreateEntry(Destroy(n, p), p, p);
  }

  lemma WfPmm(f: Forest, m: Machine)
    requires Wf(f, m)
    ensures PmmSpec.Valid(m.pmm)
  {}

  lemma SamePage(m: Machine, cr3: nat, n: Machine, cr3': nat, p: nat)
    requires n.pmm == m.pmm && Create(m, cr3).1 == p
    ensures Create(n, cr3').1 == p
  {
    hide Ent, SetEnt, Alloc;
  }
}
