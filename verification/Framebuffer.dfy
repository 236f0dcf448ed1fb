/** The framebuffer's description, and mapping it into kernel space with rollback. */
module Framebuffer {
  import opened Bytes
  import opened PmmSpec
  import opened PageTables
  import opened Forests
  import opened Walks
  import M = Memory
  import opened Window
  import V = Vmm
  import PageWords

  const IDENTITY_LIMIT: nat := 0x4000_0000
  const DIRECT: nat := 1

  datatype Component = Component(position: byte, size: byte)

  datatype Info = Info(address: u64, pitch: u32, width: u32, height: u32, bitsPerPixel: byte, kind: byte,
                       red: Component, green: Component, blue: Component, mappedAddress: u64, mappedSize: u64)

  function BytesPerPixel(c: Info): nat { (c.bitsPerPixel + 7) / 8 }

  function Span(c: Info): nat { c.pitch * c.height }

  predicate ComponentOk(x: Component, bits: byte) { x.position < 32 && x.size <= 32 && x.position + x.size <= bits }

  predicate GeometryOk(available: bool, c: Info) {
    && available && c.kind == DIRECT && 0 < BytesPerPixel(c) <= 4 && c.bitsPerPixel <= 32
    && c.address != 0 && Span(c) != 0 && Span(c) <= U64_MAX - c.address
    && ComponentOk(c.red, c.bitsPerPixel) && ComponentOk(c.green, c.bitsPerPixel) && ComponentOk(c.blue, c.bitsPerPixel)
  }

  // ---- Mapping --------------------------------------------------------------------------

  lemma UnmapOne(f: Forest, m0: Machine, m: Machine, n: Machine, first: nat, from: nat, to: nat)
    requires MappedBetween(f, m0, m, first, from, to) && from < to
    requires V.OnlyChanges(f, m, n, PageAt(from), None)
    ensures MappedBetween(f, m0, n, first, from + 1, to)
  {
    hide Lookup, PageAt, V.KernelPage, InTree;
    forall c | V.KernelPage(c) && (forall i: nat | from + 1 <= i < to :: PageAt(i) != c)
      ensures Lookup(n, f.kernel, c) == Lookup(m0, f.kernel, c)
    {
      if c != PageAt(from) {
        assert forall i: nat | from <= i < to :: PageAt(i) != c;
      }
    }
  }

  lemma KeepMapped(f: Forest, m0: Machine, m: Machine, n: Machine, first: nat, from: nat, to: nat, c: nat)
    requires MappedBetween(f, m0, m, first, from, to)
    requires V.OnlyChanges(f, m, n, c, Lookup(m, f.kernel, c))
    ensures MappedBetween(f, m0, n, first, from, to)
  {
    hide Lookup, PageAt, V.KernelPage, InTree;
  }

  /** Every kernel and user mapping is as it was. */
  ghost predicate SameMappings(f: Forest, m0: Machine, m: Machine) {
    && (forall c | V.KernelPage(c) :: Lookup(m, f.kernel, c) == Lookup(m0, f.kernel, c))
    && V.SameUserMappings(f, m0, m)
  }

  class Framebuffer {
    var current: Info
    var available: bool

    constructor (current: Info, available: bool)
      ensures this.current == current && this.available == available
    {
      this.current, this.available := current, available;
    }

    /** Whether the description can be drawn to. */
    method CheckGeometry() returns (ok: bool)
      ensures ok <==> GeometryOk(available, current)
    {
      var c := current;
      var bytesPerPixel, span := (c.bitsPerPixel + 7) / 8, c.pitch * c.height;
      if !available || c.kind != DIRECT || bytesPerPixel == 0 || bytesPerPixel > 4 || c.bitsPerPixel > 32
         || c.address == 0 || span == 0 || span > U64_MAX - c.address { return false; }
      if c.red.position >= 32 || c.green.position >= 32 || c.blue.position >= 32
         || c.red.size > 32 || c.green.size > 32 || c.blue.size > 32
         || c.red.position + c.red.size > c.bitsPerPixel || c.green.position + c.green.size > c.bitsPerPixel
         || c.blue.position + c.blue.size > c.bitsPerPixel { return false; }
      return true;
    }

    /** Unmaps the pages mapped so far. */
    method Rollback(memory: M.Memory, root: nat, count: nat, ghost first: nat, ghost f: Forest, ghost m0: Machine)
      requires root == f.kernel
      requires memory.Valid() && Wf(f, memory.Value()) && V.KernelOk(f, memory.Value())
      requires MappedBetween(f, m0, memory.Value(), first, 0, count)
      requires VIRTUAL_BASE + count * PAGE_SIZE <= U64_MAX
      modifies memory`mem
      ensures memory.Valid() && Wf(f, memory.Value()) && V.KernelOk(f, memory.Value())
      ensures SameMappings(f, m0, memory.Value())
    {
      hide PageWords.DecodeMemory, Wf, V.KernelOk, MappedBetween, V.UnmapPage, V.OnlyChanges, PmmSpec.Valid, PageAt,
           V.KernelPage;
      for j := 0 to count
        invariant memory.Valid() && Wf(f, memory.Value()) && V.KernelOk(f, memory.Value())
        invariant MappedBetween(f, m0, memory.Value(), first, j, count)
      {
        ghost var m := memory.Value();
        VirtualPage(j);
        V.UnmapPageEffect(f, m, VIRTUAL_BASE + j * PAGE_SIZE);
        PageIsMapped(f, m0, m, first, j, j, count);
        var code, physical := memory.VmmUnmapPage(root, VIRTUAL_BASE + j * PAGE_SIZE);
        UnmapOne(f, m0, m, memory.Value(), first, j, count);
      }
      AllUnmapped(f, m0, memory.Value(), first, count);
    }

    /** All or nothing: either every page of the framebuffer is mapped in order and
        no other mapping changed, or every mapping is as before the call. */
    method Map(memory: M.Memory, root: nat, ghost f: Forest) returns (ok: bool)
      requires root == f.kernel
      requires memory.Valid() && Wf(f, memory.Value()) && V.KernelOk(f, memory.Value())
      modifies this, memory`mem, memory.pmm`freeCount, memory.pmm.bitmap, memory.pmm.heldBitmap
      ensures memory.Valid() && Wf(f, memory.Value()) && V.KernelOk(f, memory.Value())
      ensures available == old(available)
      ensures old(current).mappedAddress != 0 ==> ok && current == old(current) && memory.Value() == old(memory.Value())
      ensures !ok ==> current == old(current) && SameMappings(f, old(memory.Value()), memory.Value())
      ensures ok <==>
        (old(current).mappedAddress != 0
         || (Fits(available, old(current)) && Room(old(memory.Value()), root, PageCount(old(current)))))
      ensures ok && old(current).mappedAddress == 0 ==>
        && Fits(available, old(current))
        && current == old(current).(mappedAddress := current.mappedAddress, mappedSize := current.mappedSize)
        && current.mappedAddress == VIRTUAL_BASE + current.address % PAGE_SIZE
        && current.mappedSize == PageCount(current) * PAGE_SIZE
        && MappedBetween(f, old(memory.Value()), memory.Value(), current.address / PAGE_SIZE, 0, PageCount(current))
    {
      hide PageWords.DecodeMemory, Wf, V.KernelOk, MappedBetween, V.MapPage, V.OnlyChanges, PmmSpec.Valid, PageAt,
           V.KernelPage, Missing, FreePages, SameMappings, Span, Room, Spent, Costs, Lookup, Node;
      ghost var m0 := memory.Value();
      Unchanged(f, m0);
      if current.mappedAddress != 0 { return true; }
      var usable := CheckGeometry();
      if !usable { return false; }
      var first := current.address / PAGE_SIZE;
      var physicalEnd := current.address + Span(current);
      if physicalEnd > U64_MAX - (PAGE_SIZE - 1) { return false; }
      var roundedEnd := (physicalEnd + PAGE_SIZE - 1) / PAGE_SIZE * PAGE_SIZE;
      if roundedEnd <= first * PAGE_SIZE { return false; }
      var count := (roundedEnd - first * PAGE_SIZE) / PAGE_SIZE;
      assert count == PageCount(current);
      if count > (U64_MAX - VIRTUAL_BASE) / PAGE_SIZE { return false; }
      assert Fits(available, current);
      NothingMapped(f, m0, first);
      for i := 0 to count
        invariant memory.Valid() && Wf(f, memory.Value()) && V.KernelOk(f, memory.Value())
        invariant MappedBetween(f, m0, memory.Value(), first, 0, i)
        invariant Spent(f, m0, memory.Value(), i) && Room(m0, root, i)
        invariant current == old(current) && available == old(available)
      {
        ghost var m := memory.Value();
        StepRoom(f, m0, m, first, i);
        VirtualPage(i);
        PhysicalPage(first, i);
        FrameInRange(first, i, count, roundedEnd);
        V.MapPageEffect(f, m, VIRTUAL_BASE + i * PAGE_SIZE, first * PAGE_SIZE + i * PAGE_SIZE, WINDOW_FLAGS);
        V.MapPageCost(f, m, VIRTUAL_BASE + i * PAGE_SIZE, first * PAGE_SIZE + i * PAGE_SIZE, WINDOW_FLAGS);
        PageName(i);
        var code := memory.VmmMapPage(root, VIRTUAL_BASE + i * PAGE_SIZE, first * PAGE_SIZE + i * PAGE_SIZE,
                                      WINDOW_FLAGS);
        if code != 0 {
          if Room(m0, root, count) { RoomShrinks(m0, root, i + 1, count); }
          KeepMapped(f, m0, m, memory.Value(), first, 0, i, PageAt(i));
          Rollback(memory, root, i, first, f, m0);
          return false;
        }
        MapOneMore(f, m0, m, memory.Value(), first, i);
        SpentNext(f, m0, m, memory.Value(), i);
      }
      current := current.(mappedAddress := VIRTUAL_BASE + (current.address - first * PAGE_SIZE),
                          mappedSize := roundedEnd - first * PAGE_SIZE);
      SameExtent(old(current), current);
      ok := true;
    }
  }

  /** The number of pages the framebuffer touches. */
  function PageCount(c: Info): nat {
    (c.address + Span(c) + PAGE_SIZE - 1) / PAGE_SIZE - c.address / PAGE_SIZE
  }

  /** The geometry is usable and neither the physical nor the virtual range wraps. */
  predicate Fits(available: bool, c: Info) {
    && GeometryOk(available, c)
    && c.address + Span(c) <= U64_MAX - (PAGE_SIZE - 1)
    && PageCount(c) <= (U64_MAX - VIRTUAL_BASE) / PAGE_SIZE
  }

  lemma SameExtent(c: Info, d: Info)
    requires d == c.(mappedAddress := d.mappedAddress, mappedSize := d.mappedSize)
    ensures PageCount(d) == PageCount(c)
  {}

  lemma Unchanged(f: Forest, m: Machine)
    ensures SameMappings(f, m, m)
  {}

  lemma FrameInRange(first: nat, i: nat, count: nat, end: nat)
    requires i < count && end == (first + count) * PAGE_SIZE && end <= U64_MAX
    ensures first * PAGE_SIZE + i * PAGE_SIZE <= U64_MAX
  {}

  /** After mapping, the k-th byte of the framebuffer is reached at the k-th byte
      from its mapped address. */
  lemma MappedTranslates(f: Forest, m0: Machine, m: Machine, c: Info, k: nat)
    requires Wf(f, m) && V.KernelOk(f, m)
    requires MappedBetween(f, m0, m, c.address / PAGE_SIZE, 0, PageCount(c))
    requires c.mappedAddress == VIRTUAL_BASE + c.address % PAGE_SIZE
    requires k < Span(c) && c.address + Span(c) <= 0x10_0000_0000_0000
    ensures V.Translate(m, f.kernel, c.mappedAddress + k) == c.address + k
  {
    hide Wf, V.KernelOk, V.Translate, Lookup, Span, PageAt;
    var first := c.address / PAGE_SIZE;
    var x := c.address % PAGE_SIZE + k;
    var i := x / PAGE_SIZE;
    assert i < PageCount(c);
    V.TranslateSees(f, m, c.mappedAddress + k);
    assert (VIRTUAL_BASE + x) / PAGE_SIZE == VIRTUAL_BASE / PAGE_SIZE + i;
    PageIsMapped(f, m0, m, first, 0, i, PageCount(c));
    assert (first + i) * PAGE_SIZE + x % PAGE_SIZE == c.address + k;
    assert first + i < FRAME_LIMIT;
  }

  /** Virtual page numbers repeat after 2^36 pages, so no more than that can be
      mapped, and a mapped framebuffer spans at most 2^48 bytes. */
  lemma MappedSpan(f: Forest, m0: Machine, m: Machine, c: Info)
    requires MappedBetween(f, m0, m, c.address / PAGE_SIZE, 0, PageCount(c))
    ensures PageCount(c) <= V.PAGES && Span(c) <= V.PAGES * PAGE_SIZE
  {
    hide Span, Lookup, V.KernelPage;
    assert PageAt(0) == PageAt(V.PAGES);
  }

  lemma AllUnmapped(f: Forest, m0: Machine, m: Machine, first: nat, count: nat)
    requires MappedBetween(f, m0, m, first, count, count)
    ensures SameMappings(f, m0, m)
  {}
}
