/** Where a boot module lies while processes are loaded from it: the import reserves its
    pages, and no run ever hands out or writes a reserved page.  When the import falls
    back, modules are not reserved. */
module BootModules {
  import opened Bytes
  import opened PmmSpec
  import opened PageTables
  import opened Forests
  import opened Walks
  import opened AddressSpace
  import opened Spaces
  import opened Loading
  import opened Multiboot
  import opened TagOrder
  import opened Runs
  import R = Runs
  import PR = ProcessRuns
  import S = Supervisor
  import Boot
  import V = Vmm

  /** The information block lists a module at these addresses. */
  predicate Lists(info: seq<byte>, from: u32, to: u32)
    requires |info| >= MAX_INFO_SIZE
  {
    BlockList(info).Some? && Module(from, to) in BlockList(info).value.items
  }

  /** A successful import reserves every managed page that a listed module touches. */
  lemma ModuleIsReserved(s: State, address: nat, info: seq<byte>, kernelStart: nat, kernelEnd: nat,
                         from: u32, to: u32, p: nat)
    requires |info| >= MAX_INFO_SIZE && Imported(s, address, info, kernelStart, kernelEnd)
    requires Parse(address, info).Some? && Lists(info, from, to)
    requires p < BOOTSTRAP_PAGES && Touches(p, from, to)
    ensures p in s.reserved
  {
    hide Parse, BlockList, Touches, Le32;
    ParseIsList(address, info);
    var items := BlockList(info).value.items;
    assert Blocked(from, to) in ItemRegions(Module(from, to));
    RegionsMember(items, Blocked(from, to));
    var regions := Parse(address, info).value;
    var i :| 0 <= i < |regions| && regions[i] == Blocked(from, to);
    var all := regions + [Blocked(kernelStart, kernelEnd)] + [Blocked(address, address + Le32(info, 0))];
    assert all[i] == Blocked(from, to);
    assert IsBlocked(all, p);
  }

  /** After a fallback a page is handed out by some number of allocations exactly if it
      lies between 16 MiB and 64 MiB and outside the kernel image, module or not. */
  lemma FallbackHandsOutIff(s: State, address: nat, info: seq<byte>, kernelStart: nat, kernelEnd: nat, p: nat)
    requires |info| >= MAX_INFO_SIZE && Imported(s, address, info, kernelStart, kernelEnd)
    requires Parse(address, info).None? && p < BOOTSTRAP_PAGES
    ensures (exists n: nat :: NthAllocated(s, n) == Some(p)) <==>
      0x1000 <= p < 0x4000 && !Within(p, kernelStart, kernelEnd)
  {
    hide Parse, FallbackState, NthAllocated, Within;
    FallbackIsPages(kernelStart, kernelEnd);
    FallbackValid(kernelStart, kernelEnd);
    if p !in s.unavailable {
      assert p in FreePages(s);
      FreePageIsReached(s, p);
    } else {
      forall n: nat ensures NthAllocated(s, n) != Some(p) { UnavailableIsNotReached(s, p, n); }
    }
  }

  lemma FallbackValid(kernelStart: nat, kernelEnd: nat)
    ensures PmmSpec.Valid(FallbackState(kernelStart, kernelEnd))
  {
    hide Reserve, AddUsable, PmmSpec.Valid;
    var s := State(BOOTSTRAP_PAGES, {}, {}, {}, 0);
    ResetValid(s);
    AddUsableValid(PmmSpec.Reset(s), 0x100_0000, 0x400_0000);
    ReserveValid(PmmSpec.Init(s, 0x100_0000, 0x400_0000), kernelStart, kernelEnd);
    ReserveValid(Reserve(PmmSpec.Init(s, 0x100_0000, 0x400_0000), kernelStart, kernelEnd), 0, PAGE_SIZE);
  }

  lemma {:induction false} UnavailableIsNotReached(s: State, p: nat, n: nat)
    requires PmmSpec.Valid(s) && p in s.unavailable
    ensures NthAllocated(s, n) != Some(p)
    decreases n
  {
    hide Alloc, NthAllocated;
    AllocValid(s);
    NthAfterOne(s, if n == 0 then 0 else n - 1);
    if n > 0 {
      StaysUnavailable(s, p);
      UnavailableIsNotReached(Alloc(s).0, p, n - 1);
    }
  }

  lemma StaysUnavailable(s: State, p: nat)
    requires p in s.unavailable
    ensures p in Alloc(s).0.unavailable
  {}

  // ---- Runs ------------------------------------------------------------------------------------

  /** Page `p` is out of the allocator's reach, is no page table, and holds `page`. */
  ghost predicate Kept(s: System, p: nat, page: Page) {
    && p !in s.machine.pmm.held && !TableAt(ForestOf(s), s.machine, p)
    && p in s.machine.pmm.reserved && p in s.machine.mem && s.machine.mem[p] == page
  }

  /** Taking free pages as tables does not touch it. */
  lemma ExtendsKept(s: System, root: nat, t: System, added: set<nat>, p: nat, page: Page)
    requires Good(s) && ForestOf(t) == ForestOf(s) && Kept(s, p, page)
    requires Extends(ForestOf(s), root, s.machine, t.machine, added)
    ensures Kept(t, p, page)
  {
    hide Node, InTree, Roots;
    var f := ForestOf(s);
    forall x | InTree(f, x) ensures Node(t.machine, x) != Some(p) {
      assert ExtendsAt(root, s.machine, t.machine, added, x);
    }
  }

  /** The same for a space that is filled: no frame or table taken is page `p`. */
  lemma PreparesKept(s: System, k: nat, t: System, p: nat, page: Page)
    requires Good(s) && PR.Prepares(s, k, t) && Kept(s, p, page)
    ensures Kept(t, p, page)
  {
    hide Node, Lookup, Wf, V.KernelOk;
    var f := ForestOf(s);
    var pages, tables :| Progressed(f, s.spaces[k], s.machine, t.machine, pages, tables);
    ReservedUnavailable(f, s.machine);
    forall x | InTree(f, x) ensures Node(t.machine, x) != Some(p) {
      assert ExtendsAt(s.spaces[k], s.machine, t.machine, tables, x);
    }
  }

  lemma ReservedUnavailable(f: Forest, m: Machine)
    requires Wf(f, m)
    ensures m.pmm.reserved <= m.pmm.unavailable
  {}

  lemma CreateKept(s: System, k: nat, cr3: nat, p: nat, page: Page)
    requires Good(s) && k < |s.spaces| && Kept(s, p, page)
    ensures Kept(R.Step(s, OpCreate(k, cr3)).0, p, page)
  {
    hide Node, Wf, Create, FreePages, V.KernelOk, Lookup, Ent, IsTable, Roots;
    var f, m := ForestOf(s), s.machine;
    var (n, q) := Create(m, cr3);
    var t := R.Step(s, OpCreate(k, cr3)).0;
    CreateEffect(f, m, cr3);
    ReservedUnavailable(f, m);
    if q != 0 {
      CreateReads(m, cr3, q);
      RootsUpdate(s.spaces, k, q);
      forall x | InTree(ForestOf(t), x) ensures Node(n, x) != Some(p) {
        CreateWalk(f, m, cr3, q, x);
        if x.root != q { assert InTree(f, x); }
      }
    }
  }

  lemma DestroyKept(s: System, k: nat, p: nat, page: Page)
    requires Good(s) && k < |s.spaces| && Kept(s, p, page)
    ensures Kept(R.Step(s, OpDestroy(k)).0, p, page)
  {
    hide Node, Wf, V.KernelOk, Destroy, Roots, TableAt;
    var f, t := ForestOf(s), R.Step(s, OpDestroy(k)).0;
    RootsUpdate(s.spaces, k, 0);
    if s.spaces[k] != 0 {
      RootsMember(s.spaces, k);
      DestroyEffect(f, s.machine, s.spaces[k]);
    } else {
      PR.NothingDestroyed(s.machine);
    }
    SameMemory(s.machine, t.machine);
    PR.FewerTables(f, ForestOf(t), s.machine, t.machine, p);
  }

  lemma NextKept(s: System, t: System, p: nat, page: Page)
    requires Good(s) && PR.Next(s, t) && Kept(s, p, page)
    ensures Kept(t, p, page)
  {
    hide Good, Kept, PR.Prepares, R.Step;
    if op: R.Op :| Enabled(s, op) && !op.OpMapUser? && t == R.Step(s, op).0 {
      StepKept(s, op, p, page);
    } else {
      var k: nat :| PR.Prepares(s, k, t);
      PreparesKept(s, k, t, p, page);
    }
  }

  lemma StepKept(s: System, op: R.Op, p: nat, page: Page)
    requires Good(s) && Enabled(s, op) && Kept(s, p, page)
    ensures Kept(R.Step(s, op).0, p, page)
  {
    hide Kept, Wf, V.KernelOk, Create, Destroy, MapUser, V.MapPage, V.UnmapPage, Extends;
    var f, m, t := ForestOf(s), s.machine, R.Step(s, op).0;
    match op
    case OpCreate(k, cr3) => CreateKept(s, k, cr3, p, page);
    case OpDestroy(k) => DestroyKept(s, k, p, page);
    case OpMapUser(k, va, pa, flags) =>
      RootsMember(s.spaces, k);
      var added := MapUserFrame(f, m, s.spaces[k], va, pa, flags);
      ExtendsKept(s, s.spaces[k], t, added, p, page);
    case OpKernelMap(va, pa, flags) =>
      var added := S.KernelMapExtends(f, m, va, pa, flags);
      ExtendsKept(s, f.kernel, t, added, p, page);
    case OpKernelUnmap(va) =>
      S.KernelUnmapExtends(f, m, va);
      ExtendsKept(s, f.kernel, t, {}, p, page);
  }

  lemma {:induction false} RunKept(states: seq<System>, i: nat, p: nat, page: Page)
    requires i < |states| && PR.Sound(states[0]) && Kept(states[0], p, page)
    requires forall j: nat, k: nat | j + 1 == k < |states| :: PR.Next(states[j], states[k])
    ensures PR.Sound(states[i]) && Kept(states[i], p, page)
  {
    hide Good, PR.Apart, PR.Next, Kept;
    PR.RunSound(states, i);
    if i > 0 {
      RunKept(states, i - 1, p, page);
      assert PR.Next(states[i - 1], states[i]);
      NextKept(states[i - 1], states[i], p, page);
    }
  }

  lemma BootedKeeps(m: Machine, b: Boot.Layout, count: nat, p: nat)
    requires Boot.BootState(m, b) && p in m.pmm.reserved && m.pmm.held == {} && p !in b.Pages() && p in m.mem
    ensures Kept(Booted(m, b, count), p, m.mem[p])
  {
    hide Node, Ent, Boot.InitTables, Boot.BootTables;
    Boot.InitEntries(m, b);
    var n := Boot.VmmInit(m, b);
    assert Roots(Booted(m, b, count).spaces) == {};
    forall x | InTree(Forest(b.pml4, {}), x) ensures Node(n, x) != Some(p) { Boot.InitNodes(n, b, x); }
  }

  /** After an import that did not fall back, and over every run of processes from boot:
      a module page outside the boot tables holds what the boot loader put there, and
      neither a page of a live process nor a page table is that page. */
  lemma BootModuleIsKept(m: Machine, b: Boot.Layout, address: nat, info: seq<byte>, kernelStart: nat, kernelEnd: nat,
                         from: u32, to: u32, states: seq<System>, i: nat, p: nat)
    requires Boot.BootState(m, b) && i < |states| && states[0] == Booted(m, b, |states[0].spaces|)
    requires forall j: nat, k: nat | j + 1 == k < |states| :: PR.Next(states[j], states[k])
    requires |info| >= MAX_INFO_SIZE && Imported(m.pmm, address, info, kernelStart, kernelEnd)
    requires Parse(address, info).Some? && Lists(info, from, to)
    requires p < BOOTSTRAP_PAGES && Touches(p, from, to) && p !in b.Pages() && p in m.mem
    ensures var s := states[i]; var f, n := ForestOf(s), s.machine;
      && p in n.mem && n.mem[p] == m.mem[p] && !TableAt(f, n, p)
      && forall r, v | PR.Maps(f, n, r, v) :: PR.FrameAt(n, r, v) != p
  {
    hide PR.Next, Booted, Parse, Lists, Touches, Good, Boot.BootState, Lookup, TableAt;
    ModuleIsReserved(m.pmm, address, info, kernelStart, kernelEnd, from, to, p);
    BootedKeeps(m, b, |states[0].spaces|, p);
    PR.BootedIsSound(m, b, |states[0].spaces|);
    RunKept(states, i, p, m.mem[p]);
    forall r, v | PR.Maps(ForestOf(states[i]), states[i].machine, r, v)
      ensures PR.FrameAt(states[i].machine, r, v) != p
    {
      assert PR.Owned(ForestOf(states[i]), states[i].machine, PR.FrameAt(states[i].machine, r, v));
    }
  }
}
