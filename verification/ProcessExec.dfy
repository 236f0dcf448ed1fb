/** Preparing a process: an address space, the image, and the user stack. */
module ProcessExec {
  import opened Bytes
  import opened PmmSpec
  import opened PageTables
  import opened Forests
  import opened Walks
  import A = AddressSpace
  import opened Elf
  import opened ElfLoader
  import opened Loading
  import M = Memory
  import S = Spaces

  const STACK_TOP: nat := 0x80_0010_0000
  const STACK_PAGES: nat := 4

  // ---- Conservation ----------------------------------------------------------------------

  /** `p` is a table of the space that was not there before. */
  ghost predicate NewTable(f: Forest, root: nat, m0: Machine, m: Machine, p: nat) {
    exists s :: InTree(f, s) && s.root == root && Node(m, s) == Some(p) && Node(m0, s) == None
  }

  /** `p` is the frame of a user page that was not mapped before. */
  ghost predicate NewFrame(root: nat, m0: Machine, m: Machine, p: nat) {
    exists v :: MapsNow(root, m0, m, v, p)
  }

  predicate MapsNow(root: nat, m0: Machine, m: Machine, v: nat, p: nat) {
    && A.UserPage(v) && Lookup(m0, root, v) == None
    && Lookup(m, root, v).Some? && Lookup(m, root, v).value.frame == p
  }

  /** The allocator lost exactly the pages that became reachable from the space's
      root: nothing is lost and nothing is shared. */
  lemma Conservation(f: Forest, root: nat, m0: Machine, m: Machine, pages: Placement, tables: set<nat>, p: nat)
    requires Progressed(f, root, m0, m, pages, tables) && root in f.users
    ensures p in m.pmm.held && p !in m0.pmm.held <==>
      NewTable(f, root, m0, m, p) || NewFrame(root, m0, m, p)
    ensures p in m0.pmm.held ==> p in m.pmm.held
    ensures !(NewTable(f, root, m0, m, p) && NewFrame(root, m0, m, p))
  {
    hide Lookup, Node, Wf, InTree;
    TablesAreNew(f, root, m0, m, pages, tables, p);
    FramesAreNew(f, root, m0, m, pages, tables, p);
    HeldBefore(f, m0);
  }

  lemma HeldBefore(f: Forest, m: Machine)
    requires Wf(f, m)
    ensures m.pmm.held <= m.pmm.unavailable
  {}

  lemma TablesAreNew(f: Forest, root: nat, m0: Machine, m: Machine, pages: Placement, tables: set<nat>, p: nat)
    requires Progressed(f, root, m0, m, pages, tables)
    ensures p in tables <==> NewTable(f, root, m0, m, p)
  {
    hide Lookup, Node, Wf, InTree;
    if p in tables {
      var s :| InTree(f, s) && s.root == root && Node(m, s) == Some(p);
      assert ExtendsAt(root, m0, m, tables, s);
      TableUnavailable(f, m0, s);
    }
    if NewTable(f, root, m0, m, p) {
      var s :| InTree(f, s) && s.root == root && Node(m, s) == Some(p) && Node(m0, s) == None;
      assert ExtendsAt(root, m0, m, tables, s);
    }
  }

  lemma FramesAreNew(f: Forest, root: nat, m0: Machine, m: Machine, pages: Placement, tables: set<nat>, p: nat)
    requires Progressed(f, root, m0, m, pages, tables) && root in f.users
    ensures p in Frames(pages) <==> NewFrame(root, m0, m, p)
  {
    hide Lookup, Node, Wf, InTree, Accounts;
    if p in Frames(pages) {
      var v :| v in pages && pages[v].frame == p;
      assert Holds(m, root, v, pages[v]);
      assert MapsNow(root, m0, m, v, p);
    }
    if NewFrame(root, m0, m, p) {
      var v :| MapsNow(root, m0, m, v, p);
      assert v in pages;
      assert Holds(m, root, v, pages[v]);
    }
  }

  /** Each new page is reached by one path only. */
  lemma OnePath(f: Forest, root: nat, m0: Machine, m: Machine, pages: Placement, tables: set<nat>, p: nat)
    requires Progressed(f, root, m0, m, pages, tables) && root in f.users
    ensures forall s, t | InTree(f, s) && InTree(f, t) && Node(m, s) == Some(p) && Node(m, t) == Some(p) :: s == t
    ensures forall v, w | MapsNow(root, m0, m, v, p) && MapsNow(root, m0, m, w, p) :: v == w
  {
    hide Lookup, Node, InTree, Accounts;
    forall v | MapsNow(root, m0, m, v, p) ensures v in pages && pages[v].frame == p {
      assert v in pages;
      assert Holds(m, root, v, pages[v]);
    }
  }

  // ---- The user stack ----------------------------------------------------------------------

  const STACK_FLAGS: Flags := Flags(true, false, true)

  /** `pages` is `base` with zeroed, writable, non-executable pages added at the
      page-aligned addresses bottom, bottom + 4096, ... below `limit`. */
  ghost predicate StackPlaced(bottom: nat, limit: nat, base: Placement, pages: Placement) {
    && (forall v | v in base :: v in pages && pages[v] == base[v])
    && (forall v | v in pages && v !in base :: bottom <= v * PAGE_SIZE < limit)
    && (forall v: nat | bottom <= v * PAGE_SIZE < limit ::
          v !in base && v in pages && pages[v] == Placed(pages[v].frame, M.ZeroData().bytes, true, true))
  }

  /** A stack range that can be filled, memory permitting. */
  ghost predicate StackRoom(m0: Machine, root: nat, bottom: nat, top: nat, base: Placement) {
    && bottom < top && bottom % PAGE_SIZE == 0 && top % PAGE_SIZE == 0
    && (forall v: nat | bottom <= v * PAGE_SIZE < top :: Room(m0, root, base, v))
  }

  method StackPage(memory: M.Memory, space: M.AddressSpace, va: nat,
                   ghost f: Forest, ghost m0: Machine, ghost pages: Placement, ghost tables: set<nat>)
    returns (ok: bool, ghost frame: nat, ghost tables': set<nat>)
    requires memory.Valid() && space.pml4 in f.users && va <= U64_MAX
    requires Progressed(f, space.pml4, m0, memory.Value(), pages, tables)
    modifies memory`mem, memory.pmm`freeCount, memory.pmm.bitmap, memory.pmm.heldBitmap
    ensures memory.Valid()
    ensures ok ==>
      && va % PAGE_SIZE == 0 && va / PAGE_SIZE !in pages
      && Progressed(f, space.pml4, m0, memory.Value(),
                    pages[va / PAGE_SIZE := Placed(frame, M.ZeroData().bytes, true, true)], tables')
    ensures !ok ==> Progressed(f, space.pml4, m0, memory.Value(), pages, tables')
    ensures !ok && va % PAGE_SIZE == 0 && Room(m0, space.pml4, pages, va / PAGE_SIZE) ==> Starved(memory.Value())
  {
    hide Progressed, Room, Starved, Alloc, A.MapUser, Free, PmmSpec.Valid, M.ZeroData, FreePages;
    ghost var m := memory.Value();
    tables' := tables;
    AllocFacts(f, space.pml4, m0, m, pages, tables);
    var page := memory.AllocZeroed();
    frame := page;
    assert Alloc(m.pmm).1.Some? ==> page != 0;
    if page == 0 {
      assert memory.Value() == m.(pmm := Alloc(m.pmm).0);
      return false, frame, tables';
    }
    ZeroDataSize();
    assert memory.Value() == WithFrame(m, page, Data(M.ZeroData().bytes));
    FrameAddress(memory.pmm.pages, page);
    tables' := PlaceStep(f, space.pml4, m0, m, pages, tables, page, M.ZeroData().bytes, va, STACK_FLAGS);
    var code := space.MapUser(memory, va, page * PAGE_SIZE, STACK_FLAGS);
    if code != 0 {
      memory.pmm.FreePage(page * PAGE_SIZE);
      return false, frame, tables';
    }
    return true, frame, tables';
  }

  lemma StackNext(bottom: nat, va: nat, base: Placement, pages: Placement, frame: nat)
    requires bottom <= va && va % PAGE_SIZE == 0 && va / PAGE_SIZE !in pages
    requires StackPlaced(bottom, va, base, pages)
    ensures StackPlaced(bottom, va + PAGE_SIZE, base,
                        pages[va / PAGE_SIZE := Placed(frame, M.ZeroData().bytes, true, true)])
  {
    hide M.ZeroData;
    var w := va / PAGE_SIZE;
    forall v: nat ensures bottom <= v * PAGE_SIZE < va + PAGE_SIZE <==> bottom <= v * PAGE_SIZE < va || v == w {}
  }

  method MapUserStack(memory: M.Memory, space: M.AddressSpace, bottom: u64, top: u64,
                      ghost f: Forest, ghost m0: Machine, ghost base: Placement, ghost tables: set<nat>)
    returns (ok: bool, ghost pages: Placement, ghost tables': set<nat>)
    requires memory.Valid() && space.pml4 in f.users
    requires Progressed(f, space.pml4, m0, memory.Value(), base, tables)
    modifies memory`mem, memory.pmm`freeCount, memory.pmm.bitmap, memory.pmm.heldBitmap
    ensures memory.Valid() && Progressed(f, space.pml4, m0, memory.Value(), pages, tables')
    ensures ok ==> bottom < top && StackPlaced(bottom, top, base, pages)
    ensures ok ==> StackRoom(m0, space.pml4, bottom, top, base)
    ensures !ok ==> !StackRoom(m0, space.pml4, bottom, top, base) || Starved(memory.Value())
  {
    hide Progressed, PmmSpec.Valid, StackPlaced, Room, Starved;
    pages, tables' := base, tables;
    if top <= bottom || (top - bottom) % PAGE_SIZE != 0 { return false, pages, tables'; }
    var va := bottom as nat;
    NoStackYet(bottom, base);
    while va < top
      invariant bottom <= va <= top && (top - va) % PAGE_SIZE == 0
      invariant va > bottom ==> va % PAGE_SIZE == 0
      invariant memory.Valid() && Progressed(f, space.pml4, m0, memory.Value(), pages, tables')
      invariant StackPlaced(bottom, va, base, pages)
      decreases top - va
    {
      var placed;
      ghost var frame, more;
      placed, frame, more := StackPage(memory, space, va, f, m0, pages, tables');
      tables' := more;
      if !placed {
        StuckStack(m0, space.pml4, bottom, top, va, base, pages);
        return false, pages, tables';
      }
      StackNext(bottom, va, base, pages, frame);
      pages := pages[va / PAGE_SIZE := Placed(frame, M.ZeroData().bytes, true, true)];
      va := va + PAGE_SIZE;
    }
    StackHadRoom(f, space.pml4, m0, memory.Value(), bottom, top, base, pages, tables');
    ok := true;
  }

  lemma StuckStack(m0: Machine, root: nat, bottom: nat, top: nat, va: nat, base: Placement, pages: Placement)
    requires StackPlaced(bottom, va, base, pages) && bottom <= va < top
    ensures StackRoom(m0, root, bottom, top, base) && va % PAGE_SIZE == 0 ==> Room(m0, root, pages, va / PAGE_SIZE)
  {
    hide M.ZeroData, Lookup;
    if StackRoom(m0, root, bottom, top, base) { assert va % PAGE_SIZE == 0 ==> Room(m0, root, base, va / PAGE_SIZE); }
  }

  lemma StackHadRoom(f: Forest, root: nat, m0: Machine, m: Machine, bottom: nat, top: nat,
                     base: Placement, pages: Placement, tables: set<nat>)
    requires Progressed(f, root, m0, m, pages, tables) && StackPlaced(bottom, top, base, pages)
    requires bottom < top && bottom % PAGE_SIZE == 0 && top % PAGE_SIZE == 0
    ensures StackRoom(m0, root, bottom, top, base)
  {
    hide Lookup, Wf, Accounts, Holds, ExtendsAt, Node, M.ZeroData;
  }

  lemma NoStackYet(bottom: nat, base: Placement)
    ensures StackPlaced(bottom, bottom, base, base)
  {}

  // ---- Preparing a process -----------------------------------------------------------------

  datatype ProcessState = Unused | Created | Running | Sleeping | Exited

  class Process {
    const space: M.AddressSpace
    var pid: nat
    var state: ProcessState
    var threadCount: nat
    var entryPoint: nat
    var userStackTop: nat

    constructor ()
      ensures fresh(space) && space.pml4 == 0 && state == Unused && pid == 0
    {
      space := new M.AddressSpace();
      pid, state, threadCount, entryPoint, userStackTop := 0, Unused, 0, 0, 0;
    }
  }

  datatype ImageInfo = ImageInfo(entryPoint: nat, stackTop: nat, stackBottom: nat)

  /** What a prepared process finds in memory: its segments as the image says, a
      zeroed stack, and an entry point on a mapped page. */
  ghost predicate Prepared(image: seq<byte>, entry: nat, imagePages: Placement, pages: Placement) {
    && ValidImage(image)
    && ImagePlaced(image, HeaderOf(image), HeaderOf(image).phnum, imagePages)
    && StackPlaced(STACK_TOP - STACK_PAGES * PAGE_SIZE, STACK_TOP, imagePages, pages)
    && entry == EntryAddress(HeaderOf(image)) && entry / PAGE_SIZE in imagePages
  }

  /** No stack page is mapped already or covered by a segment. */
  ghost predicate StackFree(image: seq<byte>, m1: Machine, root: nat)
    requires ValidImage(image)
  {
    forall v: nat | STACK_TOP - STACK_PAGES * PAGE_SIZE <= v * PAGE_SIZE < STACK_TOP ::
      Lookup(m1, root, v) == None && !Covered(image, HeaderOf(image), HeaderOf(image).phnum, v)
  }

  /** An image a process can be prepared with, memory permitting. */
  ghost predicate Preparable(image: seq<byte>, m1: Machine, root: nat) {
    Loadable(image, m1, root) && StackFree(image, m1, root)
  }

  lemma PlacedIffCovered(image: seq<byte>, pages: Placement, v: nat)
    requires ValidImage(image) && ImagePlaced(image, HeaderOf(image), HeaderOf(image).phnum, pages)
    ensures v in pages <==> Covered(image, HeaderOf(image), HeaderOf(image).phnum, v)
  {
    hide SegmentInPlace, DisjointPages, HeaderOf, SegmentOf, Covered;
    var h := HeaderOf(image);
    if Covered(image, h, h.phnum, v) { CoveredPlaced(image, h, h.phnum, pages, v); }
  }

  lemma StackPageIsUser(v: nat)
    requires STACK_TOP - STACK_PAGES * PAGE_SIZE <= v * PAGE_SIZE < STACK_TOP
    ensures A.UserPage(v)
  {}

  lemma StackBeside(image: seq<byte>, m1: Machine, root: nat, pages: Placement)
    requires ValidImage(image) && ImagePlaced(image, HeaderOf(image), HeaderOf(image).phnum, pages)
    ensures StackFree(image, m1, root) <==> StackRoom(m1, root, STACK_TOP - STACK_PAGES * PAGE_SIZE, STACK_TOP, pages)
  {
    hide ImagePlaced, HeaderOf, Covered, Lookup, A.UserPage;
    var bottom := STACK_TOP - STACK_PAGES * PAGE_SIZE;
    forall v: nat | bottom <= v * PAGE_SIZE < STACK_TOP
      ensures Room(m1, root, pages, v) <==>
        Lookup(m1, root, v) == None && !Covered(image, HeaderOf(image), HeaderOf(image).phnum, v)
    {
      PlacedIffCovered(image, pages, v);
      StackPageIsUser(v);
    }
  }

  lemma NewSpace(f: Forest, m: Machine, cr3: nat)
    requires Wf(f, m)
    ensures var (n, p) := A.Create(m, cr3);
      if p == 0 then n == m && Starved(m) && FreePages(m.pmm) == {} else Wf(S.WithUser(f, p), n)
  {
    hide A.Create, Wf, Lookup;
    S.CreateEffect(f, m, cr3);
  }

  /** Success or failure, the allocator loses exactly the tables and frames that
      become reachable from the space's root, besides a root of its own if the
      process had none; on success the process sees its image and its stack. */
  method PrepareElf(process: Process, memory: M.Memory, image: seq<byte>, cr3: nat, ghost f: Forest)
    returns (ok: bool, info: Option<ImageInfo>, ghost g: Forest, ghost m1: Machine,
             ghost imagePages: Placement, ghost pages: Placement, ghost tables: set<nat>)
    requires |image| <= U64_MAX
    requires memory.Valid() && Wf(f, memory.Value())
    requires process.space.pml4 == 0 || process.space.pml4 in f.users
    modifies process, process.space, memory`mem, memory.pmm`freeCount, memory.pmm.bitmap, memory.pmm.heldBitmap
    ensures memory.Valid()
    ensures var root := process.space.pml4;
      if old(process.space.pml4) != 0 && image != []
      then root == old(process.space.pml4) && g == f && m1 == old(memory.Value())
      else if root == old(process.space.pml4) then !ok && memory.Value() == old(memory.Value())
      else root != 0 && g == S.WithUser(f, root) && (m1, root) == A.Create(old(memory.Value()), cr3) && Wf(g, m1)
    ensures process.space.pml4 != 0 && image != [] ==>
      Progressed(g, process.space.pml4, m1, memory.Value(), pages, tables)
    ensures ok ==>
      && process.space.pml4 != 0 && image != []
      && Prepared(image, process.entryPoint, imagePages, pages)
      && process.state == Created && process.userStackTop == STACK_TOP
      && info == Some(ImageInfo(process.entryPoint, STACK_TOP, STACK_TOP - STACK_PAGES * PAGE_SIZE))
    ensures !ok ==>
      && info == None && process.state == old(process.state)
      && process.entryPoint == old(process.entryPoint) && process.userStackTop == old(process.userStackTop)
    ensures process.pid == old(process.pid) && process.threadCount == old(process.threadCount)
    ensures ok ==> Preparable(image, m1, process.space.pml4)
    ensures !ok ==> image == [] || !Preparable(image, m1, process.space.pml4) || Starved(memory.Value())
    ensures image == [] ==>
      !ok && process.space.pml4 == old(process.space.pml4) && memory.Value() == old(memory.Value())
    ensures image != [] && process.space.pml4 == 0 ==> !ok && FreePages(memory.Value().pmm) == {}
  {
    hide Loadable, StackRoom, Starved, StackFree, Progressed, Wf, PmmSpec.Valid, ImagePlaced, StackPlaced,
         ValidImage, HeaderOf, EntryAddress, A.Create, FreePages;
    g, m1, imagePages, pages, tables := f, memory.Value(), map[], map[], {};
    ok, info := false, None;
    if |image| == 0 { return; }
    if process.space.pml4 == 0 {
      NewSpace(f, m1, cr3);
      var code := process.space.Create(memory, cr3);
      if code != 0 { return; }
      g, m1 := S.WithUser(f, process.space.pml4), memory.Value();
    }
    var loaded, entry;
    loaded, entry, imagePages, tables := LoadImage(memory, process.space, image, g);
    pages := imagePages;
    if !loaded { return; }
    StackBeside(image, m1, process.space.pml4, imagePages);
    var stacked;
    stacked, pages, tables := MapUserStack(memory, process.space, STACK_TOP - STACK_PAGES * PAGE_SIZE, STACK_TOP,
                                           g, m1, imagePages, tables);
    if !stacked { return; }
    process.state, process.entryPoint, process.userStackTop := Created, entry, STACK_TOP;
    ok, info := true, Some(ImageInfo(entry, STACK_TOP, STACK_TOP - STACK_PAGES * PAGE_SIZE));
  }

  lemma StackKeeps(bottom: nat, top: nat, base: Placement, pages: Placement, v: nat)
    requires StackPlaced(bottom, top, base, pages) && v in base
    ensures v in pages
  {}

  /** What a prepared process sees: each loadable segment byte for byte with its
      rights, zeros on the stack, and a mapped entry point. */
  lemma PreparedSees(g: Forest, root: nat, m1: Machine, m: Machine, image: seq<byte>, entry: nat,
                     imagePages: Placement, pages: Placement, tables: set<nat>, k: nat, va: nat)
    requires Progressed(g, root, m1, m, pages, tables) && root in g.users
    requires Prepared(image, entry, imagePages, pages)
    ensures A.TranslateUser(m, root, entry).Some?
    ensures STACK_TOP - STACK_PAGES * PAGE_SIZE <= va < STACK_TOP ==>
      ByteAt(m, root, va) == Some(0) && A.Effective(m, root, va / PAGE_SIZE) == Flags(true, true, true)
    ensures var h := HeaderOf(image); k < h.phnum && Covers(h, SegmentOf(image, h, k), va / PAGE_SIZE) ==>
      var s := SegmentOf(image, h, k);
      && SegmentFits(image, s) && s.kind == PT_LOAD
      && ByteAt(m, root, va) == Some(ByteFor(image, h, s, va))
      && A.Effective(m, root, va / PAGE_SIZE) == FlagsFor(s)
  {
    hide Progressed, Covers, ByteAt, A.Effective, A.TranslateUser, SegmentOf, HeaderOf, GoodHeader, EntryAddress,
         PlacedAs, M.ZeroData;
    StackKeeps(STACK_TOP - STACK_PAGES * PAGE_SIZE, STACK_TOP, imagePages, pages, entry / PAGE_SIZE);
    PlacedTranslates(g, root, m1, m, pages, tables, entry);
    if STACK_TOP - STACK_PAGES * PAGE_SIZE <= va < STACK_TOP {
      assert STACK_TOP - STACK_PAGES * PAGE_SIZE <= va / PAGE_SIZE * PAGE_SIZE < STACK_TOP;
      ZeroByte(va % PAGE_SIZE);
      PlacedByte(g, root, m1, m, pages, tables, va);
    }
    var h := HeaderOf(image);
    if k < h.phnum && Covers(h, SegmentOf(image, h, k), va / PAGE_SIZE) {
      var s := SegmentOf(image, h, k);
      assert SegmentInPlace(image, h, s, imagePages);
      StillInPlace(image, h, s, STACK_TOP - STACK_PAGES * PAGE_SIZE, STACK_TOP, imagePages, pages);
      CoversLoads(h, s, va / PAGE_SIZE);
      LoadedByte(g, root, m1, m, pages, tables, image, h, s, va);
    }
  }

  lemma ZeroByte(j: nat)
    requires j < PAGE_SIZE
    ensures |M.ZeroData().bytes| == PAGE_SIZE && M.ZeroData().bytes[j] == 0
  {}

  lemma CoversLoads(h: Header, s: Segment, v: nat)
    requires Covers(h, s, v)
    ensures s.kind == PT_LOAD
  {}

  lemma StillInPlace(image: seq<byte>, h: Header, s: Segment, bottom: nat, top: nat, base: Placement, pages: Placement)
    requires SegmentInPlace(image, h, s, base) && StackPlaced(bottom, top, base, pages)
    ensures SegmentInPlace(image, h, s, pages)
  {
    hide Covers, PlacedAs, M.ZeroData;
    forall v: nat | Covers(h, s, v) ensures v in pages && pages[v] == base[v] {}
  }

  lemma PlacedTranslates(f: Forest, root: nat, m0: Machine, m: Machine, pages: Placement, tables: set<nat>, va: nat)
    requires Progressed(f, root, m0, m, pages, tables) && root in f.users && va / PAGE_SIZE in pages
    ensures var x := pages[va / PAGE_SIZE];
      && A.TranslateUser(m, root, va) == Some(x.frame * PAGE_SIZE + va % PAGE_SIZE)
      && A.Effective(m, root, va / PAGE_SIZE) == Flags(x.writable, true, x.nx)
      && x.frame in m.mem && m.mem[x.frame] == Data(x.bytes)
  {
    hide Node, Lookup, Wf, A.Effective, A.TranslateUser, TableAt, Accounts, InTree;
    assert Holds(m, root, va / PAGE_SIZE, pages[va / PAGE_SIZE]);
    A.TranslateIsLookup(f, m, root, va);
  }

  lemma PlacedByte(f: Forest, root: nat, m0: Machine, m: Machine, pages: Placement, tables: set<nat>, va: nat)
    requires Progressed(f, root, m0, m, pages, tables) && root in f.users && va / PAGE_SIZE in pages
    requires |pages[va / PAGE_SIZE].bytes| == PAGE_SIZE
    ensures var x := pages[va / PAGE_SIZE];
      && ByteAt(m, root, va) == Some(x.bytes[va % PAGE_SIZE])
      && A.Effective(m, root, va / PAGE_SIZE) == Flags(x.writable, true, x.nx)
  {
    hide Progressed, A.Effective, A.TranslateUser;
    PlacedTranslates(f, root, m0, m, pages, tables, va);
    OffsetSplit(pages[va / PAGE_SIZE].frame, va % PAGE_SIZE);
  }
}
