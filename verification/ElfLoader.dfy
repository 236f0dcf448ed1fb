/** Loading an ELF image into an address space, page by page (System V gABI,
    chapter 5: program loading). */
module ElfLoader {
  import opened Bytes
  import opened Arithmetic
  import opened PmmSpec
  import opened PageTables
  import opened Forests
  import opened Walks
  import A = AddressSpace
  import opened Elf
  import opened Loading
  import M = Memory
  import PageWords

  /** A position-independent image is moved so that its entry page becomes the
      first user page; the subtraction wraps as 64-bit arithmetic does. */
  function Bias(h: Header): u64 {
    if h.kind == TYPE_DYN then (A.USER_BASE - h.entry / PAGE_SIZE * PAGE_SIZE) % WRAP64 else 0
  }

  function EntryAddress(h: Header): u64 { (Bias(h) + h.entry) % WRAP64 }

  predicate Loads(s: Segment) { s.kind == PT_LOAD && s.memSize != 0 }

  function Start(h: Header, s: Segment): nat { Bias(h) + s.vaddr }

  function FlagsFor(s: Segment): Flags { Flags(s.flags / 2 % 2 == 1, true, s.flags % 2 == 0) }

  /** Page `v` holds at least one byte of the loaded segment. */
  predicate Covers(h: Header, s: Segment, v: nat) {
    Loads(s) && Start(h, s) / PAGE_SIZE <= v && v * PAGE_SIZE < Start(h, s) + s.memSize
  }

  /** The byte the segment puts at virtual address `a`. */
  function ByteFor(image: seq<byte>, h: Header, s: Segment, a: nat): byte
    requires SegmentFits(image, s) && s.kind == PT_LOAD
  {
    if Start(h, s) <= a < Start(h, s) + s.fileSize then image[s.offset + (a - Start(h, s))] else 0
  }

  function PageContent(image: seq<byte>, h: Header, s: Segment, v: nat): seq<byte>
    requires SegmentFits(image, s) && s.kind == PT_LOAD
  {
    seq<byte>(PAGE_SIZE, (j: nat) => ByteFor(image, h, s, v * PAGE_SIZE + j))
  }

  predicate PlacedAs(image: seq<byte>, h: Header, s: Segment, v: nat, x: Placed)
    requires SegmentFits(image, s) && s.kind == PT_LOAD
  {
    x.bytes == PageContent(image, h, s, v) && x.writable == FlagsFor(s).writable && x.nx == FlagsFor(s).nx
  }

  // ---- One page ----------------------------------------------------------------------------

  /** The bounds checks before the copy cannot fail for a validated segment, so a
      frame is never lost between allocation and mapping. */
  lemma CopyInBounds(image: seq<byte>, s: Segment, start: nat, va: nat)
    requires SegmentFits(image, s) && s.kind == PT_LOAD
    ensures var from, to := Max(va, start), Min(va + PAGE_SIZE, start + s.fileSize);
      from < to ==>
        && s.offset <= s.offset + (from - start)
        && s.offset + (to - start) <= s.offset + s.fileSize <= |image|
        && from - va + (to - from) <= PAGE_SIZE && va <= from
  {}

  /** Copying the overlap of the page with the segment's file bytes over zeros
      gives exactly the page's contents. */
  lemma CopyIsContent(image: seq<byte>, h: Header, s: Segment, v: nat)
    requires SegmentFits(image, s) && s.kind == PT_LOAD
    ensures var start, va := Start(h, s), v * PAGE_SIZE;
      var from, to := Max(va, start), Min(va + PAGE_SIZE, start + s.fileSize);
      && (from < to ==>
            M.Spliced(M.ZeroData().bytes, from - va, image, s.offset + (from - start), to - from)
            == PageContent(image, h, s, v))
      && (from >= to ==> M.ZeroData().bytes == PageContent(image, h, s, v))
  {
    hide M.Spliced, Bias;
    var start, va := Start(h, s), v * PAGE_SIZE;
    var from, to := Max(va, start), Min(va + PAGE_SIZE, start + s.fileSize);
    var zeros, content := M.ZeroData().bytes, PageContent(image, h, s, v);
    if from < to {
      CopyInBounds(image, s, start, va);
      var r := M.Spliced(zeros, from - va, image, s.offset + (from - start), to - from);
      forall j: nat | j < PAGE_SIZE ensures r[j] == content[j] {
        SplicedAt(zeros, from - va, image, s.offset + (from - start), to - from, j);
        ContentAt(image, h, s, v, j);
      }
      assert r == content;
    } else {
      forall j: nat | j < PAGE_SIZE ensures zeros[j] == content[j] { ContentAt(image, h, s, v, j); }
      assert zeros == content;
    }
  }

  lemma ContentAt(image: seq<byte>, h: Header, s: Segment, v: nat, j: nat)
    requires SegmentFits(image, s) && s.kind == PT_LOAD && j < PAGE_SIZE
    ensures PageContent(image, h, s, v)[j] == ByteFor(image, h, s, v * PAGE_SIZE + j)
  {}

  lemma SplicedAt(b: seq<byte>, at: nat, source: seq<byte>, from: nat, count: nat, j: nat)
    requires at + count <= |b| && from + count <= |source| && j < |b|
    ensures M.Spliced(b, at, source, from, count)[j] == if at <= j < at + count then source[from + (j - at)] else b[j]
  {}

  /** Allocates, fills and maps one page of a segment. */
  method LoadPage(memory: M.Memory, space: M.AddressSpace, image: seq<byte>, h: Header, s: Segment, va: nat,
                  ghost f: Forest, ghost m0: Machine, ghost pages: Placement, ghost tables: set<nat>)
    returns (ok: bool, ghost frame: nat, ghost tables': set<nat>)
    requires memory.Valid() && space.pml4 in f.users
    requires Progressed(f, space.pml4, m0, memory.Value(), pages, tables)
    requires SegmentFits(image, s) && s.kind == PT_LOAD && va % PAGE_SIZE == 0 && va + PAGE_SIZE <= U64_MAX
    modifies memory`mem, memory.pmm`freeCount, memory.pmm.bitmap, memory.pmm.heldBitmap
    ensures memory.Valid()
    ensures ok ==>
      var x := Placed(frame, PageContent(image, h, s, va / PAGE_SIZE), FlagsFor(s).writable, FlagsFor(s).nx);
      && va / PAGE_SIZE !in pages
      && Progressed(f, space.pml4, m0, memory.Value(), pages[va / PAGE_SIZE := x], tables')
    ensures !ok ==> Progressed(f, space.pml4, m0, memory.Value(), pages, tables')
    ensures !ok && Room(m0, space.pml4, pages, va / PAGE_SIZE) ==> Starved(memory.Value())
  {
    hide PageWords.DecodeMemory, Progressed, Room, Starved, Alloc, A.MapUser, Free, PmmSpec.Valid, M.Spliced,
         M.ZeroData, PageContent, FreePages;
    ghost var m := memory.Value();
    tables' := tables;
    AllocFacts(f, space.pml4, m0, m, pages, tables);
    var page := memory.AllocZeroed();
    frame := page;
    assert Alloc(m.pmm).1.Some? ==> page != 0;
    if page == 0 {
      assert memory.Value() == m.(pmm := Alloc(m.pmm).0);
      return false, frame, tables';
    }
    assert memory.Value() == WithFrame(m, page, M.ZeroData());
    FrameAddress(memory.pmm.pages, page);
    var start := Start(h, s);
    var from, to := Max(va, start), Min(va + PAGE_SIZE, start + s.fileSize);
    CopyInBounds(image, s, start, va);
    CopyIsContent(image, h, s, va / PAGE_SIZE);
    ZeroDataSize();
    if from < to {
      memory.CopyIn(page, from - va, image, s.offset + (from - start), to - from);
    }
    ghost var content := PageContent(image, h, s, va / PAGE_SIZE);
    assert memory.Value().mem == m.mem[page := Data(content)];
    assert memory.Value() == WithFrame(m, page, Data(content));
    var flags := Flags(s.flags / 2 % 2 == 1, true, s.flags % 2 == 0);
    tables' := PlaceStep(f, space.pml4, m0, m, pages, tables, page, content, va, flags);
    var code := space.MapUser(memory, va, page * PAGE_SIZE, flags);
    if code != 0 {
      memory.pmm.FreePage(page * PAGE_SIZE);
      return false, frame, tables';
    }
    return true, frame, tables';
  }

  lemma ZeroDataSize()
    ensures M.ZeroData().Data? && |M.ZeroData().bytes| == PAGE_SIZE
  {}

  lemma FrameAddress(pages: nat, p: nat)
    requires p < pages < 0x1_0000_0000
    ensures p * PAGE_SIZE <= U64_MAX
  {}

  /** With page 0 reserved, allocation fails only by exhaustion and then changes
      nothing. */
  lemma AllocFacts(f: Forest, root: nat, m0: Machine, m: Machine, pages: Placement, tables: set<nat>)
    requires Progressed(f, root, m0, m, pages, tables)
    ensures var (s, p) := Alloc(m.pmm);
      && (p.None? ==> s == m.pmm && FreePages(m.pmm) == {} && Starved(m))
      && (p.Some? ==> p.value != 0 && p.value in FreePages(m.pmm) && s == Take(m.pmm, p.value) && p.value < m.pmm.pages)
  {
    hide Progressed;
    ProgressedPmm(f, root, m0, m, pages, tables);
    AllocValid(m.pmm);
  }

  lemma ProgressedPmm(f: Forest, root: nat, m0: Machine, m: Machine, pages: Placement, tables: set<nat>)
    requires Progressed(f, root, m0, m, pages, tables)
    ensures PmmSpec.Valid(m.pmm) && 0 in m.pmm.reserved && m.pmm.pages == m0.pmm.pages
  {}

  // ---- One segment ---------------------------------------------------------------------------

  /** `pages` is `base` with the pages of segment `s` below address `limit` added,
      none of which was in `base`. */
  ghost predicate SegmentPlaced(image: seq<byte>, h: Header, s: Segment, limit: nat, base: Placement, pages: Placement)
    requires SegmentFits(image, s) && s.kind == PT_LOAD
  {
    && (forall v | v in base :: v in pages && pages[v] == base[v])
    && (forall v | v in pages && v !in base :: Covers(h, s, v) && v * PAGE_SIZE < limit)
    && (forall v: nat | Covers(h, s, v) && v * PAGE_SIZE < limit ::
          v !in base && v in pages && PlacedAs(image, h, s, v, pages[v]))
  }

  lemma PlaceNext(image: seq<byte>, h: Header, s: Segment, va: nat, base: Placement, pages: Placement, x: Placed)
    requires SegmentFits(image, s) && s.kind == PT_LOAD && va % PAGE_SIZE == 0
    requires SegmentPlaced(image, h, s, va, base, pages) && Covers(h, s, va / PAGE_SIZE)
    requires va / PAGE_SIZE !in pages && PlacedAs(image, h, s, va / PAGE_SIZE, x)
    ensures SegmentPlaced(image, h, s, va + PAGE_SIZE, base, pages[va / PAGE_SIZE := x])
  {
    hide PlacedAs, Covers;
    var w := va / PAGE_SIZE;
    forall v: nat ensures v * PAGE_SIZE < va + PAGE_SIZE <==> v * PAGE_SIZE < va || v == w {}
  }

  /** Every page of the segment can take a frame. */
  ghost predicate HasRoom(m0: Machine, root: nat, h: Header, s: Segment, base: Placement) {
    forall v: nat | Covers(h, s, v) :: Room(m0, root, base, v)
  }

  lemma StuckPage(image: seq<byte>, h: Header, s: Segment, va: nat, m0: Machine, root: nat,
                  base: Placement, pages: Placement)
    requires SegmentFits(image, s) && s.kind == PT_LOAD && va % PAGE_SIZE == 0
    requires SegmentPlaced(image, h, s, va, base, pages) && Covers(h, s, va / PAGE_SIZE)
    ensures HasRoom(m0, root, h, s, base) ==> Room(m0, root, pages, va / PAGE_SIZE)
  {
    hide PlacedAs, Covers, Lookup;
  }

  lemma PlacedHadRoom(f: Forest, root: nat, m0: Machine, m: Machine, tables: set<nat>,
                      image: seq<byte>, h: Header, s: Segment, base: Placement, pages: Placement)
    requires SegmentFits(image, s) && s.kind == PT_LOAD
    requires Progressed(f, root, m0, m, pages, tables)
    requires SegmentPlaced(image, h, s, Start(h, s) + s.memSize, base, pages)
    ensures HasRoom(m0, root, h, s, base)
  {
    hide PlacedAs, Lookup, Wf, Accounts, Holds, ExtendsAt, Node;
    CoversBelow(h, s);
  }

  method LoadSegment(memory: M.Memory, space: M.AddressSpace, image: seq<byte>, h: Header, s: Segment,
                     ghost f: Forest, ghost m0: Machine, ghost base: Placement, ghost tables: set<nat>)
    returns (ok: bool, entryMapped: bool, ghost pages: Placement, ghost tables': set<nat>)
    requires memory.Valid() && space.pml4 in f.users
    requires Progressed(f, space.pml4, m0, memory.Value(), base, tables)
    requires SegmentFits(image, s) && Loads(s) && Start(h, s) + s.memSize <= A.USER_LIMIT
    modifies memory`mem, memory.pmm`freeCount, memory.pmm.bitmap, memory.pmm.heldBitmap
    ensures memory.Valid()
    ensures Progressed(f, space.pml4, m0, memory.Value(), pages, tables')
    ensures ok ==> SegmentPlaced(image, h, s, Start(h, s) + s.memSize, base, pages)
    ensures ok ==> (entryMapped <==> Covers(h, s, EntryAddress(h) / PAGE_SIZE))
    ensures ok ==> HasRoom(m0, space.pml4, h, s, base)
    ensures !ok ==> !HasRoom(m0, space.pml4, h, s, base) || Starved(memory.Value())
  {
    hide HasRoom, Room, Starved, Progressed, PmmSpec.Valid, PageContent, Bias, EntryAddress, SegmentPlaced, FlagsFor;
    pages, tables' := base, tables;
    entryMapped := false;
    var end := Start(h, s) + s.memSize;
    var va := Start(h, s) / PAGE_SIZE * PAGE_SIZE;
    var mapEnd := (end + PAGE_SIZE - 1) / PAGE_SIZE * PAGE_SIZE;
    NothingPlaced(image, h, s, va, base);
    while va < mapEnd
      invariant va % PAGE_SIZE == 0 && Start(h, s) / PAGE_SIZE * PAGE_SIZE <= va <= mapEnd
      invariant memory.Valid() && Progressed(f, space.pml4, m0, memory.Value(), pages, tables')
      invariant SegmentPlaced(image, h, s, va, base, pages)
      invariant entryMapped <==>
        Start(h, s) / PAGE_SIZE <= EntryAddress(h) / PAGE_SIZE && EntryAddress(h) / PAGE_SIZE * PAGE_SIZE < va
      decreases mapEnd - va
    {
      var placed;
      ghost var frame, more;
      placed, frame, more := LoadPage(memory, space, image, h, s, va, f, m0, pages, tables');
      tables' := more;
      if !placed {
        StuckPage(image, h, s, va, m0, space.pml4, base, pages);
        return false, entryMapped, pages, tables';
      }
      ghost var x := Placed(frame, PageContent(image, h, s, va / PAGE_SIZE), FlagsFor(s).writable, FlagsFor(s).nx);
      PlaceNext(image, h, s, va, base, pages, x);
      pages := pages[va / PAGE_SIZE := x];
      if va <= EntryAddress(h) < va + PAGE_SIZE { entryMapped := true; }
      va := va + PAGE_SIZE;
    }
    AllPlaced(image, h, s, va, base, pages);
    PlacedHadRoom(f, space.pml4, m0, memory.Value(), tables', image, h, s, base, pages);
    ok := true;
  }

  lemma NothingPlaced(image: seq<byte>, h: Header, s: Segment, va: nat, base: Placement)
    requires SegmentFits(image, s) && s.kind == PT_LOAD && va == Start(h, s) / PAGE_SIZE * PAGE_SIZE
    ensures SegmentPlaced(image, h, s, va, base, base)
  {}

  lemma AllPlaced(image: seq<byte>, h: Header, s: Segment, va: nat, base: Placement, pages: Placement)
    requires SegmentFits(image, s) && s.kind == PT_LOAD && va >= Start(h, s) + s.memSize
    requires SegmentPlaced(image, h, s, va, base, pages)
    ensures SegmentPlaced(image, h, s, Start(h, s) + s.memSize, base, pages)
  {
    hide PlacedAs;
  }

  // ---- The whole image ---------------------------------------------------------------------------

  ghost predicate SegmentInPlace(image: seq<byte>, h: Header, s: Segment, pages: Placement) {
    && SegmentFits(image, s)
    && (Loads(s) ==> A.USER_BASE <= Start(h, s) && Start(h, s) + s.memSize <= A.USER_LIMIT)
    && (forall v: nat | Covers(h, s, v) :: v in pages && PlacedAs(image, h, s, v, pages[v]))
  }

  ghost predicate Covered(image: seq<byte>, h: Header, n: nat, v: nat)
    requires TableFits(image, h) && n <= h.phnum
  {
    exists k: nat :: k < n && Covers(h, SegmentOf(image, h, k), v)
  }

  /** The first `n` segments are in place, on disjoint pages, and nothing else is. */
  ghost predicate ImagePlaced(image: seq<byte>, h: Header, n: nat, pages: Placement)
    requires TableFits(image, h) && n <= h.phnum
  {
    && (forall k: nat | k < n :: SegmentInPlace(image, h, SegmentOf(image, h, k), pages))
    && (forall v | v in pages :: Covered(image, h, n, v))
    && (forall j: nat, k: nat | j < k < n :: DisjointPages(h, SegmentOf(image, h, j), SegmentOf(image, h, k)))
  }

  ghost predicate DisjointPages(h: Header, s: Segment, t: Segment) {
    forall v: nat :: !(Covers(h, s, v) && Covers(h, t, v))
  }

  lemma ImageNext(image: seq<byte>, h: Header, n: nat, base: Placement, pages: Placement)
    requires TableFits(image, h) && n < h.phnum && ImagePlaced(image, h, n, base)
    requires var s := SegmentOf(image, h, n);
      && SegmentFits(image, s) && Loads(s)
      && A.USER_BASE <= Start(h, s) && Start(h, s) + s.memSize <= A.USER_LIMIT
      && SegmentPlaced(image, h, s, Start(h, s) + s.memSize, base, pages)
    ensures ImagePlaced(image, h, n + 1, pages)
  {
    hide SegmentOf, PlacedAs, SegmentFits, Loads, Start;
    var s := SegmentOf(image, h, n);
    CoversBelow(h, s);
    forall k: nat | k < n + 1 ensures SegmentInPlace(image, h, SegmentOf(image, h, k), pages) {
      if k < n { assert SegmentInPlace(image, h, SegmentOf(image, h, k), base); }
    }
    forall v | v in pages ensures Covered(image, h, n + 1, v) {
      if v in base {
        assert Covered(image, h, n, v);
        var k: nat :| k < n && Covers(h, SegmentOf(image, h, k), v);
      } else {
        assert Covers(h, SegmentOf(image, h, n), v);
      }
    }
    forall j: nat, k: nat | j < k < n + 1 ensures DisjointPages(h, SegmentOf(image, h, j), SegmentOf(image, h, k)) {
      if k == n { assert SegmentInPlace(image, h, SegmentOf(image, h, j), base); }
    }
  }

  lemma CoversBelow(h: Header, s: Segment)
    ensures forall v: nat | Covers(h, s, v) :: v * PAGE_SIZE < Start(h, s) + s.memSize
  {}

  lemma ImageSkip(image: seq<byte>, h: Header, n: nat, pages: Placement)
    requires TableFits(image, h) && n < h.phnum && ImagePlaced(image, h, n, pages)
    requires SegmentFits(image, SegmentOf(image, h, n)) && !Loads(SegmentOf(image, h, n))
    ensures ImagePlaced(image, h, n + 1, pages)
    ensures forall v: nat :: !Covers(h, SegmentOf(image, h, n), v)
  {
    hide SegmentOf, PlacedAs, SegmentFits, Loads;
    var s := SegmentOf(image, h, n);
    forall v: nat ensures !Covers(h, s, v) {}
    forall v | v in pages ensures Covered(image, h, n + 1, v) {
      assert Covered(image, h, n, v);
      var k: nat :| k < n && Covers(h, SegmentOf(image, h, k), v);
    }
  }

  /** The segment lies in user space, on pages the space does not map yet. */
  ghost predicate SegmentLoadable(m0: Machine, root: nat, h: Header, s: Segment) {
    && (Loads(s) ==> A.USER_BASE <= Start(h, s) && Start(h, s) + s.memSize <= 0x8000_0000_0000)
    && HasRoom(m0, root, h, s, map[])
  }

  /** An image that loads, memory permitting. */
  ghost predicate Loadable(image: seq<byte>, m0: Machine, root: nat) {
    && ValidImage(image)
    && var h := HeaderOf(image);
    && (forall k: nat | k < h.phnum :: SegmentLoadable(m0, root, h, SegmentOf(image, h, k)))
    && (forall j: nat, k: nat | j < k < h.phnum :: DisjointPages(h, SegmentOf(image, h, j), SegmentOf(image, h, k)))
    && Covered(image, h, h.phnum, EntryAddress(h) / PAGE_SIZE)
  }

  /** A segment of a loadable image finds room beside the earlier ones. */
  lemma RoomBeside(image: seq<byte>, h: Header, n: nat, m0: Machine, root: nat, base: Placement)
    requires TableFits(image, h) && n < h.phnum && ImagePlaced(image, h, n, base)
    requires SegmentLoadable(m0, root, h, SegmentOf(image, h, n))
    requires forall j: nat | j < n :: DisjointPages(h, SegmentOf(image, h, j), SegmentOf(image, h, n))
    ensures HasRoom(m0, root, h, SegmentOf(image, h, n), base)
  {
    hide SegmentOf, Covers, PlacedAs, Lookup, Start, Loads;
    var s := SegmentOf(image, h, n);
    forall v: nat | Covers(h, s, v) ensures Room(m0, root, base, v) {
      assert Room(m0, root, map[], v);
      assert v in base ==> Covered(image, h, n, v);
    }
  }

  /** Loads every segment.  On success each loadable segment is in place on pages
      of its own, nothing else is placed, and the entry page is among them; in
      every case all pages taken are tables or placed frames of this space. */
  method LoadImage(memory: M.Memory, space: M.AddressSpace, image: seq<byte>, ghost f: Forest)
    returns (ok: bool, entryPoint: nat, ghost pages: Placement, ghost tables: set<nat>)
    requires |image| <= U64_MAX
    requires memory.Valid() && Wf(f, memory.Value()) && space.pml4 in f.users
    modifies memory`mem, memory.pmm`freeCount, memory.pmm.bitmap, memory.pmm.heldBitmap
    ensures memory.Valid()
    ensures Progressed(f, space.pml4, old(memory.Value()), memory.Value(), pages, tables)
    ensures ok ==>
      && ValidImage(image)
      && ImagePlaced(image, HeaderOf(image), HeaderOf(image).phnum, pages)
      && entryPoint == EntryAddress(HeaderOf(image)) && entryPoint / PAGE_SIZE in pages
    ensures ok ==> Loadable(image, old(memory.Value()), space.pml4)
    ensures !ok ==> !Loadable(image, old(memory.Value()), space.pml4) || Starved(memory.Value())
  {
    hide SegmentLoadable, DisjointPages, Starved, Progressed, Wf, PmmSpec.Valid, ImagePlaced, SegmentPlaced,
         EntryAddress, SegmentOf, GoodHeader, HeaderOf;
    ghost var m0 := memory.Value();
    pages, tables, entryPoint := map[], {}, 0;
    ProgressedRefl(f, space.pml4, m0);
    var valid := Validate(image);
    if !valid { return false, 0, pages, tables; }
    var h := HeaderOf(image);
    var bias: u64 := 0;
    if h.kind == TYPE_DYN { bias := (A.USER_BASE - h.entry / PAGE_SIZE * PAGE_SIZE) % WRAP64; }
    var entryMapped := false;
    NoneCovered(image, h);
    for i := 0 to h.phnum
      invariant memory.Valid() && Progressed(f, space.pml4, m0, memory.Value(), pages, tables)
      invariant ImagePlaced(image, h, i, pages)
      invariant entryMapped <==> Covered(image, h, i, EntryAddress(h) / PAGE_SIZE)
    {
      var s := SegmentOf(image, h, i);
      assert SegmentFits(image, s);
      CoveredStep(image, h, i, EntryAddress(h) / PAGE_SIZE);
      if s.kind != PT_LOAD || s.memSize == 0 {
        ImageSkip(image, h, i, pages);
      } else {
        var start := CheckedAdd(bias, s.vaddr);
        if start.None? {
          assert !SegmentLoadable(m0, space.pml4, h, s) by { OutsideUser(m0, space.pml4, h, s); }
          return false, 0, pages, tables;
        }
        var end := CheckedAdd(start.value, s.memSize);
        if end.None? || start.value < A.USER_BASE || end.value > A.USER_LIMIT {
          assert !SegmentLoadable(m0, space.pml4, h, s) by { OutsideUser(m0, space.pml4, h, s); }
          return false, 0, pages, tables;
        }
        ghost var base := pages;
        var loaded, entryHere;
        loaded, entryHere, pages, tables := LoadSegment(memory, space, image, h, s, f, m0, pages, tables);
        if !loaded {
          if Loadable(image, m0, space.pml4) { RoomBeside(image, h, i, m0, space.pml4, base); }
          return false, 0, pages, tables;
        }
        ImageNext(image, h, i, base, pages);
        entryMapped := entryMapped || entryHere;
      }
    }
    if !entryMapped { return false, 0, pages, tables; }
    CoveredPlaced(image, h, h.phnum, pages, EntryAddress(h) / PAGE_SIZE);
    PlacedLoadable(f, space.pml4, m0, memory.Value(), tables, image, pages);
    EntryIs(h, bias);
    return true, (bias + h.entry) % WRAP64, pages, tables;
  }

  lemma EntryIs(h: Header, bias: u64)
    requires bias == Bias(h)
    ensures EntryAddress(h) == (bias + h.entry) % WRAP64
  {}

  lemma OutsideUser(m0: Machine, root: nat, h: Header, s: Segment)
    requires Loads(s) && !(A.USER_BASE <= Start(h, s) && Start(h, s) + s.memSize <= A.USER_LIMIT)
    ensures !SegmentLoadable(m0, root, h, s)
  {}

  lemma PlacedLoadable(f: Forest, root: nat, m0: Machine, m: Machine, tables: set<nat>,
                       image: seq<byte>, pages: Placement)
    requires ValidImage(image) && Progressed(f, root, m0, m, pages, tables)
    requires ImagePlaced(image, HeaderOf(image), HeaderOf(image).phnum, pages)
    requires Covered(image, HeaderOf(image), HeaderOf(image).phnum, EntryAddress(HeaderOf(image)) / PAGE_SIZE)
    ensures Loadable(image, m0, root)
  {
    hide SegmentOf, HeaderOf, GoodHeader, PlacedAs, Lookup, Wf, Accounts, Holds, ExtendsAt, Node, Covers, Start,
         Loads, Bias;
    var h := HeaderOf(image);
    forall k: nat | k < h.phnum ensures SegmentLoadable(m0, root, h, SegmentOf(image, h, k)) {
      assert SegmentInPlace(image, h, SegmentOf(image, h, k), pages);
    }
  }

  lemma NoneCovered(image: seq<byte>, h: Header)
    requires TableFits(image, h)
    ensures ImagePlaced(image, h, 0, map[])
    ensures forall v: nat :: !Covered(image, h, 0, v)
  {}

  lemma CoveredStep(image: seq<byte>, h: Header, n: nat, v: nat)
    requires TableFits(image, h) && n < h.phnum
    ensures Covered(image, h, n + 1, v) <==> Covered(image, h, n, v) || Covers(h, SegmentOf(image, h, n), v)
  {}

  lemma CoveredPlaced(image: seq<byte>, h: Header, n: nat, pages: Placement, v: nat)
    requires TableFits(image, h) && n <= h.phnum && ImagePlaced(image, h, n, pages) && Covered(image, h, n, v)
    ensures v in pages
  {
    hide SegmentOf, Covers;
    var k: nat :| k < n && Covers(h, SegmentOf(image, h, k), v);
    assert SegmentInPlace(image, h, SegmentOf(image, h, k), pages);
  }

  // ---- What a program will see ---------------------------------------------------------------------

  /** The byte a user access to `va` reaches. */
  function ByteAt(m: Machine, root: nat, va: nat): Option<byte> {
    match A.TranslateUser(m, root, va)
    case None => None
    case Some(pa) =>
      var p := pa / PAGE_SIZE;
      if p in m.mem && m.mem[p].Data? && |m.mem[p].bytes| == PAGE_SIZE then Some(m.mem[p].bytes[pa % PAGE_SIZE])
      else None
  }

  /** Every address on a page of a loaded segment reaches the file's byte inside
      the file part of the segment and zero elsewhere, with the segment's rights. */
  lemma LoadedByte(f: Forest, root: nat, m0: Machine, m: Machine, pages: Placement, tables: set<nat>,
                   image: seq<byte>, h: Header, s: Segment, va: nat)
    requires Progressed(f, root, m0, m, pages, tables) && root in f.users
    requires SegmentInPlace(image, h, s, pages) && Covers(h, s, va / PAGE_SIZE)
    ensures ByteAt(m, root, va) == Some(ByteFor(image, h, s, va))
    ensures A.Effective(m, root, va / PAGE_SIZE) == FlagsFor(s)
  {
    hide Node, Lookup, Wf, A.Effective, A.TranslateUser, TableAt, Accounts, InTree;
    var v := va / PAGE_SIZE;
    assert Holds(m, root, v, pages[v]);
    A.TranslateIsLookup(f, m, root, va);
    assert PlacedAs(image, h, s, v, pages[v]);
    ContentAt(image, h, s, v, va % PAGE_SIZE);
    assert v * PAGE_SIZE + va % PAGE_SIZE == va;
    OffsetSplit(pages[v].frame, va % PAGE_SIZE);
  }

  lemma OffsetSplit(p: nat, j: nat)
    requires j < PAGE_SIZE
    ensures (p * PAGE_SIZE + j) / PAGE_SIZE == p && (p * PAGE_SIZE + j) % PAGE_SIZE == j
  {}

  /** In particular byte `x` of segment memory. */
  lemma SegmentByte(f: Forest, root: nat, m0: Machine, m: Machine, pages: Placement, tables: set<nat>,
                    image: seq<byte>, h: Header, s: Segment, x: nat)
    requires Progressed(f, root, m0, m, pages, tables) && root in f.users
    requires SegmentInPlace(image, h, s, pages) && Loads(s) && x < s.memSize
    ensures ByteAt(m, root, Start(h, s) + x) == Some(if x < s.fileSize then image[s.offset + x] else 0)
  {
    hide Progressed, ByteAt;
    LoadedByte(f, root, m0, m, pages, tables, image, h, s, Start(h, s) + x);
  }
}
