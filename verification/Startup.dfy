/** The start of the kernel: from a Multiboot information block to the state in
    which every run begins. */
module Startup {
  import opened Bytes
  import opened PmmSpec
  import opened PageTables
  import B = Boot
  import M = Memory
  import MB = Multiboot
  import P = Pmm
  import R = Runs
  import PR = ProcessRuns
  import L = LoadedRoot

  /** The six static tables lie in the kernel image. */
  predicate InImage(b: B.Layout, kernelStart: nat, kernelEnd: nat) {
    && b.Distinct()
    && forall p | p in b.Pages() :: p != 0 && p < MB.BOOTSTRAP_PAGES && MB.Touches(p, kernelStart, kernelEnd)
  }

  lemma ImageFits(b: B.Layout, kernelStart: nat, kernelEnd: nat)
    requires InImage(b, kernelStart, kernelEnd)
    ensures b.Fits()
  {
    assert {b.pml4, b.pdpt, b.pd, b.bootPd, b.bootPt, b.highPdpt} == b.Pages();
  }

  lemma NothingHeld(kernelStart: nat, kernelEnd: nat)
    ensures MB.FallbackState(kernelStart, kernelEnd).held == {}
  {}

  lemma SameTables(m: Machine, n: Machine, b: B.Layout)
    requires n.mem == m.mem && B.BootTables(m, b)
    ensures B.BootTables(n, b)
  {}

  lemma ProbeFacts(s: State)
    requires PmmSpec.Valid(s) && 0 in s.reserved && s.pages < 0x1_0000_0000
    ensures var (t, p) := Alloc(s);
      && (Address(p) == 0 <==> FreePages(s) == {})
      && (Address(p) == 0 ==> t == s)
      && Address(p) <= U64_MAX
      && (Address(p) != 0 ==> Free(t, Address(p)) == s)
  {
    AllocValid(s);
    AllocFreeRoundTrip(s);
    hide Free;
  }

  /** The kernel's first allocation, given back at once, leaves no trace. */
  method ProbeAllocator(pmm: P.Pmm) returns (ok: bool)
    requires pmm.Valid() && 0 in pmm.Value().reserved
    modifies pmm`freeCount, pmm.bitmap, pmm.heldBitmap
    ensures pmm.Valid() && pmm.Value() == old(pmm.Value())
    ensures ok <==> FreePages(pmm.Value()) != {}
  {
    hide Alloc, Free, Address, FreePages, PmmSpec.Valid, P.PageSet;
    ProbeFacts(pmm.Value());
    var page := pmm.AllocPage();
    if page != 0 { pmm.FreePage(page); }
    return page != 0;
  }

  method InitPages(pmm: P.Pmm, address: u64, info: seq<byte>, kernelStart: u64, kernelEnd: u64)
    requires pmm.Shape() && pmm.pages == MB.BOOTSTRAP_PAGES
    requires |info| >= MB.MAX_INFO_SIZE
    requires kernelStart % PAGE_SIZE == 0 && kernelEnd % PAGE_SIZE == 0
    modifies pmm, pmm.bitmap, pmm.reservedBitmap, pmm.heldBitmap
    ensures pmm.Valid() && pmm.Value().held == {}
    ensures 0 in pmm.Value().reserved
    ensures forall p: nat | p < MB.BOOTSTRAP_PAGES && MB.Touches(p, kernelStart, kernelEnd) :: p in pmm.Value().reserved
  {
    hide MB.FallbackState, MB.Parse, MB.IsBlocked, MB.IsUsable, PmmSpec.Valid, P.PageSet;
    MB.InitFromMultiboot(pmm, address, info, kernelStart, kernelEnd);
    NothingHeld(kernelStart, kernelEnd);
    assert MB.KernelPage(0, kernelStart, kernelEnd);
  }

  /** Whatever the information block holds, the kernel comes up in a state from
      which every run refines partial maps, with no page held. */
  method Start(memory: M.Memory, b: B.Layout, address: u64, info: seq<byte>, kernelStart: u64, kernelEnd: u64)
    returns (ghost m: Machine)
    requires memory.pmm.Shape() && memory.pmm.pages == MB.BOOTSTRAP_PAGES && !memory.vmmReady
    requires |info| >= MB.MAX_INFO_SIZE
    requires kernelStart % PAGE_SIZE == 0 && kernelEnd % PAGE_SIZE == 0
    requires InImage(b, kernelStart, kernelEnd) && B.BootTables(memory.Value(), b)
    modifies memory, memory.pmm, memory.pmm.bitmap, memory.pmm.reservedBitmap, memory.pmm.heldBitmap
    ensures memory.Valid() && memory.Value().pmm.held == {}
    ensures B.BootState(m, b) && memory.Value() == B.VmmInit(m, b)
    ensures forall count: nat :: PR.Sound(R.Booted(m, b, count)) && L.Sane(L.Cpu(R.Booted(m, b, count), b.pml4))
  {
    hide B.VmmInit, PR.Sound, L.Sane, B.BootTables, MB.Touches, PmmSpec.Valid, P.PageSet;
    ghost var before := memory.Value();
    InitPages(memory.pmm, address, info, kernelStart, kernelEnd);
    m := memory.Value();
    SameTables(before, m, b);
    var ok := ProbeAllocator(memory.pmm);
    ImageFits(b, kernelStart, kernelEnd);
    memory.VmmInit(b);
    B.InitPmm(m, b);
    forall count: nat ensures PR.Sound(R.Booted(m, b, count)) && L.Sane(L.Cpu(R.Booted(m, b, count), b.pml4)) {
      PR.BootedIsSound(m, b, count);
      L.BootedIsSane(m, b, count);
    }
  }
}
