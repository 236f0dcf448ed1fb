/** The process table: a fixed number of slots, each with an address space of its own. */
module ProcessTable {
  import opened Bytes
  import opened PmmSpec
  import opened ProcessExec
  import A = AddressSpace
  import M = Memory
  import opened Forests
  import opened Loading
  import R = Runs
  import PR = ProcessRuns
  import PageWords
  import S = Spaces

  const MAX_PROCESSES: nat := 32

  datatype ProcessSlot = ProcessSlot(pid: u64, state: ProcessState, threadCount: nat, root: nat,
                                     entryPoint: nat, userStackTop: nat)

  predicate NoneUnused(slots: seq<ProcessSlot>) { forall i | 0 <= i < |slots| :: slots[i].state != Unused }

  function InUse(slots: seq<ProcessSlot>): set<nat> { set i: nat | i < |slots| && slots[i].state != Unused }

  lemma Without(a: set<nat>, i: nat)
    ensures |a - {i}| == |a| - if i in a then 1 else 0
  {}

  lemma InUseUpdate(slots: seq<ProcessSlot>, i: nat, slot: ProcessSlot)
    requires i < |slots|
    ensures |InUse(slots[i := slot])| ==
      |InUse(slots)| - (if slots[i].state != Unused then 1 else 0) + (if slot.state != Unused then 1 else 0)
  {
    var before, after := InUse(slots), InUse(slots[i := slot]);
    assert after - {i} == before - {i};
    Without(before, i);
    Without(after, i);
  }

  lemma {:induction false} InUseBound(slots: seq<ProcessSlot>)
    ensures |InUse(slots)| <= |slots|
    ensures |InUse(slots)| == |slots| <==> NoneUnused(slots)
  {
    if slots != [] {
      var last := |slots| - 1;
      var rest := slots[..last];
      InUseBound(rest);
      assert slots == rest + [slots[last]];
      assert InUse(slots) == InUse(rest) + if slots[last].state != Unused then {last} else {};
    }
  }

  /** The system after one operation; an operation on a missing structure is none. */
  function After(s: R.System, op: R.Op): R.System {
    if R.Enabled(s, op) then R.Step(s, op).0 else s
  }

  lemma CreateStep(s: R.System, i: nat, cr3: nat)
    requires R.Good(s) && i < |s.spaces|
    ensures var (m, p) := A.Create(s.machine, cr3);
      && (p == 0 <==> FreePages(s.machine.pmm) == {})
      && (p == 0 ==> m == s.machine)
      && (p != 0 ==> After(s, R.OpCreate(i, cr3)) == R.System(m, s.kernel, s.spaces[i := p])
                     && R.Good(R.System(m, s.kernel, s.spaces[i := p])))
  {
    hide A.Create, FreePages;
    R.StepRefines(s, R.OpCreate(i, cr3));
    S.CreateEffect(R.ForestOf(s), s.machine, cr3);
  }

  /** The system with a space in structure `i`, created if there is none. */
  function Spaced(s: R.System, i: nat, cr3: nat): R.System {
    if i < |s.spaces| && s.spaces[i] == 0 then After(s, R.OpCreate(i, cr3)) else s
  }

  lemma SpacedFacts(s: R.System, i: nat, cr3: nat)
    requires R.Good(s) && i < |s.spaces|
    ensures Wf(R.ForestOf(s), s.machine)
    ensures s.spaces[i] != 0 ==> Spaced(s, i, cr3) == s && s.spaces[i] in R.ForestOf(s).users
    ensures var (m, p) := A.Create(s.machine, cr3); var t := Spaced(s, i, cr3);
      s.spaces[i] == 0 ==>
        && (p == 0 <==> FreePages(s.machine.pmm) == {})
        && (p != 0 ==> t == R.System(m, s.kernel, s.spaces[i := p]) && R.Good(t)
                       && R.ForestOf(t) == S.WithUser(R.ForestOf(s), p))
  {
    hide A.Create, FreePages, After, Wf;
    if s.spaces[i] != 0 {
      R.RootsMember(s.spaces, i);
    } else {
      CreateStep(s, i, cr3);
      R.RootsUpdate(s.spaces, i, A.Create(s.machine, cr3).1);
    }
  }

  lemma DestroyStep(s: R.System, i: nat)
    requires R.Good(s) && i < |s.spaces|
    ensures var t := R.System(A.Destroy(s.machine, s.spaces[i]), s.kernel, s.spaces[i := 0]);
      After(s, R.OpDestroy(i)) == t && R.Good(t)
    ensures s.spaces[i] * PAGE_SIZE <= s.machine.pmm.pages * PAGE_SIZE
  {
    hide A.Destroy, FreePages;
    R.StepRefines(s, R.OpDestroy(i));
    assert s.spaces[i] != 0 ==> s.spaces[i] in AllPages(s.machine.pmm.pages);
  }

  /** The counter counts the slots in use, and exactly those have a space. */
  ghost predicate Consistent(slots: seq<ProcessSlot>, count: nat) {
    && |slots| == 32
    && count == |InUse(slots)|
    && (forall i | 0 <= i < |slots| ::
          && (slots[i].state == Unused <==> slots[i].root == 0)
          && (slots[i].state == Unused ==> slots[i] == Cleared(slots[i])))
  }

  const EMPTY := ProcessSlot(0, Unused, 0, 0, 0, 0)

  /** What destroying leaves in a slot. */
  function Cleared(slot: ProcessSlot): ProcessSlot { slot.(pid := 0, state := Unused, threadCount := 0, root := 0) }

  ghost function RootsOf(slots: seq<ProcessSlot>): seq<nat> {
    seq(|slots|, i requires 0 <= i < |slots| => slots[i].root)
  }

  lemma RootsOfUpdate(slots: seq<ProcessSlot>, i: nat, slot: ProcessSlot)
    requires i < |slots|
    ensures RootsOf(slots[i := slot]) == RootsOf(slots)[i := slot.root]
  {}

  class Table {
    const memory: M.Memory
    var slots: seq<ProcessSlot>
    var count: nat

    constructor (memory: M.Memory)
      ensures this.memory == memory && count == 0 && Consistent(slots, count)
    {
      this.memory := memory;
      slots := [];
      new;
      Init();
    }

    method Init()
      modifies this
      ensures count == 0 && Consistent(slots, count) && forall i | 0 <= i < |slots| :: slots[i] == EMPTY
    {
      slots := [];
      for i := 0 to MAX_PROCESSES
        invariant |slots| == i && forall j | 0 <= j < i :: slots[j] == EMPTY
      {
        slots := slots + [EMPTY];
      }
      count := 0;
      assert InUse(slots) == {};
    }

    /** The table as a system of address spaces. */
    ghost function System(kernel: nat): R.System
      requires memory.Valid()
      reads this, memory, memory.pmm, memory.pmm.bitmap, memory.pmm.reservedBitmap, memory.pmm.heldBitmap
    {
      R.System(memory.Value(), kernel, RootsOf(slots))
    }

    /** Takes the lowest unused slot and gives it a space; anything else is left alone. */
    method Create(pid: u64, cr3: nat, ghost kernel: nat) returns (index: Option<nat>)
      requires Consistent(slots, count) && memory.Valid() && R.Good(System(kernel))
      modifies this, memory`mem, memory.pmm`freeCount, memory.pmm.bitmap, memory.pmm.heldBitmap
      ensures memory.Valid()
      ensures index == None <==> pid == 0 || NoneUnused(old(slots)) || FreePages(old(memory.Value()).pmm) == {}
      ensures index == None ==> slots == old(slots) && System(kernel) == old(System(kernel))
      ensures index.Some? ==>
        var i := index.value;
        && i < |old(slots)| == |slots| && old(slots)[i].state == Unused && NoneUnused(old(slots)[..i])
        && slots == old(slots)[i := old(slots)[i].(pid := pid, state := Created, root := slots[i].root)]
        && System(kernel) == After(old(System(kernel)), R.OpCreate(i, cr3))
        && count == old(count) + 1
      ensures Consistent(slots, count) && R.Good(System(kernel))
    {
      hide R.Good, After, A.Create, FreePages, InUse, PmmSpec.Valid, RootsOf;
      index := None;
      ghost var before := slots;
      InUseBound(before);
      if pid == 0 || count >= MAX_PROCESSES { return; }
      var i := 0;
      while i < MAX_PROCESSES && slots[i].state != Unused
        invariant i <= MAX_PROCESSES
        invariant forall j | 0 <= j < i :: slots[j].state != Unused
      {
        i := i + 1;
      }
      if i == MAX_PROCESSES { return; }
      ghost var s := System(kernel);
      RootAt(before, i);
      CreateStep(s, i, cr3);
      var space := new M.AddressSpace();
      slots := slots[i := slots[i].(pid := pid, state := Created, threadCount := 0)];
      var code := space.Create(memory, cr3);
      if code != 0 {
        slots := slots[i := slots[i].(pid := 0, state := Unused)];
        assert slots == before;
        return;
      }
      slots := slots[i := slots[i].(root := space.pml4)];
      count := count + 1;
      index := Some(i);
      assert slots == before[i := before[i].(pid := pid, state := Created, root := space.pml4)];
      InUseUpdate(before, i, slots[i]);
      RootsOfUpdate(before, i, slots[i]);
    }

    /** Gives the slot's root page back and frees the slot; an unused slot is left alone. */
    method Destroy(i: nat, ghost kernel: nat)
      requires Consistent(slots, count) && memory.Valid() && R.Good(System(kernel)) && i < MAX_PROCESSES
      modifies this, memory.pmm`freeCount, memory.pmm.bitmap, memory.pmm.heldBitmap
      ensures memory.Valid()
      ensures slots == old(slots)[i := Cleared(old(slots)[i])]
      ensures old(slots)[i].state == Unused ==> System(kernel) == old(System(kernel)) && count == old(count)
      ensures old(slots)[i].state != Unused ==>
        System(kernel) == After(old(System(kernel)), R.OpDestroy(i)) && count == old(count) - 1
      ensures Consistent(slots, count) && R.Good(System(kernel))
    {
      hide R.Good, After, A.Destroy, FreePages, InUse, PmmSpec.Valid, RootsOf;
      if slots[i].state == Unused { return; }
      ghost var before, s := slots, System(kernel);
      RootAt(before, i);
      DestroyStep(s, i);
      RootsOfUpdate(before, i, Cleared(before[i]));
      var space := new M.AddressSpace();
      space.pml4 := slots[i].root;
      space.Destroy(memory);
      slots := slots[i := slots[i].(pid := 0, state := Unused, threadCount := 0, root := space.pml4)];
      InUseUpdate(before, i, Cleared(before[i]));
      if count > 0 { count := count - 1; }
    }

    /** Loads an image and a stack into the slot's space, as `PrepareElf` does, after
        creating that space if there is none. A slot that was not in use is not counted
        by this, so the table stays consistent exactly if no space was created. */
    method Prepare(i: nat, image: seq<byte>, cr3: nat, ghost kernel: nat)
      returns (ok: bool, info: Option<ImageInfo>, ghost imagePages: Placement, ghost pages: Placement,
               ghost tables: set<nat>)
      requires Consistent(slots, count) && memory.Valid() && R.Good(System(kernel))
      requires i < MAX_PROCESSES && |image| <= U64_MAX
      modifies this, memory`mem, memory.pmm`freeCount, memory.pmm.bitmap, memory.pmm.heldBitmap
      ensures memory.Valid() && count == old(count) && |slots| == |old(slots)|
      ensures slots == old(slots)[i := slots[i]] && slots[i].pid == old(slots)[i].pid
      ensures !ok ==> slots[i] == old(slots)[i].(root := slots[i].root)
      ensures old(slots)[i].root != 0 || image == [] ==> slots[i].root == old(slots)[i].root
      ensures old(slots)[i].root == 0 && image != [] ==>
        (slots[i].root == 0 <==> FreePages(old(memory.Value()).pmm) == {})
      ensures slots[i].root == 0 ==> !ok && System(kernel) == old(System(kernel))
      ensures slots[i].root != 0 ==>
        var s := Spaced(old(System(kernel)), i, cr3);
        && Progressed(R.ForestOf(s), slots[i].root, s.machine, memory.Value(), pages, tables)
        && PR.Prepares(s, i, System(kernel))
        && (ok ==> image != [] && Preparable(image, s.machine, slots[i].root))
        && (!ok ==> image == [] || !Preparable(image, s.machine, slots[i].root) || Starved(memory.Value()))
      ensures ok ==> slots[i].state == Created && Prepared(image, slots[i].entryPoint, imagePages, pages)
      ensures R.Good(System(kernel))
      ensures Consistent(slots, count) <==> old(slots)[i].state != Unused || slots[i].root == 0
    {
      hide R.Good, FreePages, InUse, PmmSpec.Valid, RootsOf, Progressed, Prepared, Preparable, Starved, R.Roots,
           PageWords.DecodeMemory, A.Create, Wf, PR.Prepares, R.ForestOf, After;
      ghost var before, s := slots, System(kernel);
      RootAt(before, i);
      SpacedFacts(s, i, cr3);
      var process := new Process();
      process.space.pml4 := slots[i].root;
      process.pid, process.state, process.threadCount := slots[i].pid, slots[i].state, slots[i].threadCount;
      process.entryPoint, process.userStackTop := slots[i].entryPoint, slots[i].userStackTop;
      ghost var g, m1;
      ok, info, g, m1, imagePages, pages, tables := PrepareElf(process, memory, image, cr3, R.ForestOf(s));
      if |image| == 0 { pages, tables := map[], {}; }
      slots := slots[i := slots[i].(state := process.state, root := process.space.pml4,
                                    entryPoint := process.entryPoint, userStackTop := process.userStackTop)];
      RootsOfUpdate(before, i, slots[i]);
      InUseUpdate(before, i, slots[i]);
      if slots[i].root == 0 || image == [] {
        assert slots == before;
        assert memory.Value() == s.machine;
      }
      if slots[i].root != 0 {
        ghost var t := Spaced(s, i, cr3);
        if image == [] { ProgressedRefl(R.ForestOf(t), slots[i].root, t.machine); }
        assert Progressed(R.ForestOf(t), slots[i].root, t.machine, memory.Value(), pages, tables);
        Preparation(t, i, System(kernel), pages, tables);
      }
    }

    /** The lowest slot in use with that pid. */
    method Get(pid: u64) returns (index: Option<nat>)
      ensures index == None <==>
        (pid == 0 || forall i | 0 <= i < |slots| :: !(slots[i].state != Unused && slots[i].pid == pid))
      ensures index.Some? ==>
        && index.value < |slots| && slots[index.value].state != Unused && slots[index.value].pid == pid
        && forall i | 0 <= i < index.value :: !(slots[i].state != Unused && slots[i].pid == pid)
    {
      if pid == 0 { return None; }
      for i := 0 to |slots|
        invariant forall j | 0 <= j < i :: !(slots[j].state != Unused && slots[j].pid == pid)
      {
        if slots[i].state != Unused && slots[i].pid == pid { return Some(i); }
      }
      return None;
    }
  }

  lemma Preparation(s: R.System, i: nat, t: R.System, pages: Placement, tables: set<nat>)
    requires R.Good(s) && i < |s.spaces| && s.spaces[i] != 0 && t.kernel == s.kernel && t.spaces == s.spaces
    requires Progressed(R.ForestOf(s), s.spaces[i], s.machine, t.machine, pages, tables)
    ensures PR.Prepares(s, i, t) && R.Good(t)
  {
    hide Progressed, R.Good;
    PR.PreparesGood(s, i, t);
  }

  lemma RootAt(slots: seq<ProcessSlot>, i: nat)
    requires i < |slots|
    ensures |RootsOf(slots)| == |slots| && RootsOf(slots)[i] == slots[i].root
  {}

  /** Creating and then destroying a process gives the allocator back as it was. */
  lemma CreateDestroyRoundTrip(s: R.System, k: nat, cr3: nat)
    requires R.Good(s) && k < |s.spaces| && s.spaces[k] == 0
    ensures var (t, code) := R.Step(s, R.OpCreate(k, cr3));
      code == 0 ==>
        var u := R.Step(t, R.OpDestroy(k)).0; u.machine.pmm == s.machine.pmm && u.spaces == s.spaces
  {
    AllocFreeRoundTrip(s.machine.pmm);
  }
}
