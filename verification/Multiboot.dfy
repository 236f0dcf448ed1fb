/** Import of the Multiboot2 memory map: a bounds-checked walk over tags and
    entries (sections 3.6.2, 3.6.6 and 3.6.8 of the Multiboot2 specification). */
module Multiboot {
  import opened Bytes
  import opened PmmSpec
  import P = Pmm

  const MAX_INFO_SIZE: nat := 0x1_0000
  const MAX_TAGS: nat := 128
  const MAX_MMAP_ENTRIES: nat := 128
  const MAX_MODULES: nat := 32
  const BOOTSTRAP_LIMIT: nat := 0x1000_0000
  const BOOTSTRAP_PAGES: nat := 0x1_0000

  const TAG_END: nat := 0
  const TAG_MODULE: nat := 3
  const TAG_MMAP: nat := 6
  const MMAP_AVAILABLE: nat := 1

  // ---- What an information block says ---------------------------------------

  /** A byte range the map declares usable, or one that must not be handed out. */
  datatype Region = Usable(start: nat, end: nat) | Blocked(start: nat, end: nat)

  datatype Parsed = Parsed(regions: seq<Region>, sawMap: bool)

  /** The region of the memory-map entry at `at`; a zero-length or overflowing
      entry declares nothing. */
  function EntryRegion(info: seq<byte>, at: nat): seq<Region>
    requires at + 24 <= |info|
  {
    var start, length, kind := Le64(info, at), Le64(info, at + 8), Le32(info, at + 16);
    if length == 0 || length > U64_MAX - start then []
    else if kind == MMAP_AVAILABLE then [Usable(start, start + length)]
    else [Blocked(start, start + length)]
  }

  /** The entries of the map tag at `tag` from `at` on (relative to the tag), and
      the number of entries seen so far; none if there are too many. */
  function Entries(info: seq<byte>, tag: nat, size: nat, entrySize: nat, at: nat, seen: nat)
    : (r: Option<(seq<Region>, nat)>)
    requires 24 <= entrySize <= size && tag + size <= |info|
    decreases size - at
  {
    if at > size - entrySize then Some(([], seen))
    else if seen >= MAX_MMAP_ENTRIES then None
    else JoinEntries(EntryRegion(info, tag + at), Entries(info, tag, size, entrySize, at + entrySize, seen + 1))
  }

  function JoinEntries(done: seq<Region>, rest: Option<(seq<Region>, nat)>): Option<(seq<Region>, nat)> {
    match rest
    case None => None
    case Some(r) => Some((done + r.0, r.1))
  }

  lemma JoinJoin(a: seq<Region>, b: seq<Region>, rest: Option<(seq<Region>, nat)>)
    ensures JoinEntries(a, JoinEntries(b, rest)) == JoinEntries(a + b, rest)
    ensures JoinEntries([], rest) == rest
  {
    if rest.Some? {
      assert a + (b + rest.value.0) == a + b + rest.value.0;
      assert [] + rest.value.0 == rest.value.0;
    }
  }

  function Align8(size: nat): nat { (size + 7) / 8 * 8 }

  function Prepend(regions: seq<Region>, sawMap: bool, rest: Option<Parsed>): Option<Parsed> {
    match rest
    case None => None
    case Some(p) => Some(Parsed(regions + p.regions, sawMap || p.sawMap))
  }

  lemma PrependPrepend(a: seq<Region>, x: bool, b: seq<Region>, y: bool, rest: Option<Parsed>)
    ensures Prepend(a, x, Prepend(b, y, rest)) == Prepend(a + b, x || y, rest)
    ensures Prepend([], false, rest) == rest
  {
    if rest.Some? {
      assert a + (b + rest.value.regions) == a + b + rest.value.regions;
      assert [] + rest.value.regions == rest.value.regions;
    }
  }

  /** The tags from `offset` on, up to a well-formed end tag; none if the chain
      leaves the block, a tag is malformed, or a limit is exceeded. */
  function Tags(info: seq<byte>, total: nat, offset: nat, tagsLeft: nat, entries: nat, modules: nat)
    : Option<Parsed>
    requires 16 <= total <= |info|
    decreases tagsLeft
  {
    if offset > total - 8 || tagsLeft == 0 then None
    else
      var kind, size := Le32(info, offset), Le32(info, offset + 4);
      if size < 8 || size > total - offset then None
      else if kind == TAG_END then (if size == 8 then Some(Parsed([], false)) else None)
      else
        match TagRegions(info, offset, kind, size, entries, modules)
        case None => None
        case Some((regions, entries')) =>
          if Align8(size) > total - offset then None
          else Prepend(regions, kind == TAG_MMAP,
                       Tags(info, total, offset + Align8(size), tagsLeft - 1, entries',
                            if kind == TAG_MODULE then modules + 1 else modules))
  }

  /** What a single tag contributes, and the number of map entries seen. */
  function TagRegions(info: seq<byte>, offset: nat, kind: nat, size: nat, entries: nat, modules: nat)
    : Option<(seq<Region>, nat)>
    requires 8 <= size && offset + size <= |info|
  {
    if kind == TAG_MODULE then
      if size < 16 || modules >= MAX_MODULES then None
      else Some(([Blocked(Le32(info, offset + 8), Le32(info, offset + 12))], entries))
    else if kind == TAG_MMAP then
      if size < 16 then None
      else
        var entrySize := Le32(info, offset + 8);
        if entrySize < 24 || entrySize > size - 16 then None
        else Entries(info, offset, size, entrySize, 16, entries)
    else Some(([], entries))
  }

  /** The regions of a usable information block. */
  function Parse(address: nat, info: seq<byte>): Option<seq<Region>>
    requires |info| >= MAX_INFO_SIZE
  {
    if address == 0 || address >= 0x4000_0000 then None
    else
      var total := Le32(info, 0);
      if total < 16 || total > MAX_INFO_SIZE || total % 8 != 0 then None
      else
        match Tags(info, total, 8, MAX_TAGS, 0, 0)
        case None => None
        case Some(p) => if p.sawMap then Some(p.regions) else None
  }

  // ---- What the allocator must then hold -------------------------------------

  predicate Touches(p: nat, start: nat, end: nat) {
    start < end && p * PAGE_SIZE < end && start < (p + 1) * PAGE_SIZE
  }

  predicate IsBlocked(regions: seq<Region>, p: nat) {
    exists i: nat :: i < |regions| && regions[i].Blocked? && Touches(p, regions[i].start, regions[i].end)
  }

  predicate IsUsable(regions: seq<Region>, p: nat) {
    exists i: nat :: i < |regions| && regions[i].Usable? && Within(p, regions[i].start, regions[i].end)
  }

  /** A page is reserved exactly if it is page 0 or a blocked region touches it,
      and free exactly if it is not reserved and a usable region contains it. */
  ghost predicate Reflects(s: State, regions: seq<Region>) {
    && PmmSpec.Valid(s) && s.pages == BOOTSTRAP_PAGES && s.held == {}
    && (forall p: nat | p < s.pages :: p in s.reserved <==> p == 0 || IsBlocked(regions, p))
    && (forall p: nat | p < s.pages ::
          p !in s.unavailable <==> p != 0 && !IsBlocked(regions, p) && IsUsable(regions, p))
  }

  /** The allocator state is determined by which regions there are: neither the
      order of tags nor that of entries, nor repetition, matters. */
  lemma OrderDoesNotMatter(s: State, t: State, regions: seq<Region>, others: seq<Region>)
    requires Reflects(s, regions) && Reflects(t, others)
    requires forall r :: r in regions <==> r in others
    ensures s == t
  {
    forall p: nat ensures IsBlocked(regions, p) == IsBlocked(others, p) && IsUsable(regions, p) == IsUsable(others, p) {
      SameMembers(regions, others, p);
      SameMembers(others, regions, p);
    }
    assert s.reserved == t.reserved;
    assert s.unavailable == t.unavailable;
  }

  lemma SameMembers(regions: seq<Region>, others: seq<Region>, p: nat)
    requires forall r | r in regions :: r in others
    ensures IsBlocked(regions, p) ==> IsBlocked(others, p)
    ensures IsUsable(regions, p) ==> IsUsable(others, p)
  {
    if i: nat :| i < |regions| && regions[i].Blocked? && Touches(p, regions[i].start, regions[i].end) {
      assert regions[i] in others;
      var j: nat :| j < |others| && others[j] == regions[i];
    }
    if i: nat :| i < |regions| && regions[i].Usable? && Within(p, regions[i].start, regions[i].end) {
      assert regions[i] in others;
      var j: nat :| j < |others| && others[j] == regions[i];
    }
  }

  lemma AppendRegion(regions: seq<Region>, r: Region, p: nat)
    ensures IsBlocked(regions + [r], p) <==> IsBlocked(regions, p) || (r.Blocked? && Touches(p, r.start, r.end))
    ensures IsUsable(regions + [r], p) <==> IsUsable(regions, p) || (r.Usable? && Within(p, r.start, r.end))
  {
    var all := regions + [r];
    assert all[|regions|] == r;
    if IsBlocked(regions, p) {
      var i: nat :| i < |regions| && regions[i].Blocked? && Touches(p, regions[i].start, regions[i].end);
      assert all[i] == regions[i];
    }
    if IsUsable(regions, p) {
      var i: nat :| i < |regions| && regions[i].Usable? && Within(p, regions[i].start, regions[i].end);
      assert all[i] == regions[i];
    }
  }

  /** Adding a usable region, or only the part of it below the limit. */
  lemma ReflectsUsable(s: State, regions: seq<Region>, start: nat, end: nat, from: nat, to: nat)
    requires Reflects(s, regions)
    requires forall p: nat | p < s.pages :: Within(p, from, to) <==> Within(p, start, end)
    ensures Reflects(AddUsable(s, from, to), regions + [Usable(start, end)])
  {
    hide IsBlocked, IsUsable, Within, Touches;
    var t := AddUsable(s, from, to);
    AddUsableValid(s, from, to);
    forall p: nat | p < s.pages
      ensures p in t.reserved <==> p == 0 || IsBlocked(regions + [Usable(start, end)], p)
      ensures p !in t.unavailable <==> p != 0 && !IsBlocked(regions + [Usable(start, end)], p)
                                       && IsUsable(regions + [Usable(start, end)], p)
    {
      AppendRegion(regions, Usable(start, end), p);
    }
  }

  lemma ReflectsBlocked(s: State, regions: seq<Region>, start: nat, end: nat, from: nat, to: nat)
    requires Reflects(s, regions)
    requires forall p: nat | p < s.pages :: Within(p, from, to) <==> Touches(p, start, end)
    ensures Reflects(Reserve(s, from, to), regions + [Blocked(start, end)])
  {
    hide IsBlocked, IsUsable, Within, Touches;
    var t := Reserve(s, from, to);
    ReserveValid(s, from, to);
    forall p: nat | p < s.pages
      ensures p in t.reserved <==> p == 0 || IsBlocked(regions + [Blocked(start, end)], p)
      ensures p !in t.unavailable <==> p != 0 && !IsBlocked(regions + [Blocked(start, end)], p)
                                       && IsUsable(regions + [Blocked(start, end)], p)
    {
      AppendRegion(regions, Blocked(start, end), p);
    }
  }

  /** A region that holds no managed page changes nothing. */
  lemma ReflectsNothing(s: State, regions: seq<Region>, r: Region)
    requires Reflects(s, regions)
    requires forall p: nat | p < s.pages ::
      if r.Usable? then !Within(p, r.start, r.end) else !Touches(p, r.start, r.end)
    ensures Reflects(s, regions + [r])
  {
    hide IsBlocked, IsUsable, Within, Touches;
    forall p: nat | p < s.pages
      ensures IsBlocked(regions + [r], p) == IsBlocked(regions, p)
      ensures IsUsable(regions + [r], p) == IsUsable(regions, p)
    {
      AppendRegion(regions, r, p);
    }
  }

  // ---- The walk ------------------------------------------------------------------

  function AlignDown(value: nat): nat { value / PAGE_SIZE * PAGE_SIZE }

  function AlignUp(value: u64): u64 {
    if value > U64_MAX - (PAGE_SIZE - 1) then U64_MAX else (value + PAGE_SIZE - 1) / PAGE_SIZE * PAGE_SIZE
  }

  /** Reserves every page the byte range touches. */
  method ReserveTouched(pmm: P.Pmm, start: u64, end: u64, ghost regions: seq<Region>)
    requires pmm.Valid() && Reflects(pmm.Value(), regions)
    modifies pmm`freeCount, pmm.bitmap, pmm.reservedBitmap
    ensures pmm.Valid() && Reflects(pmm.Value(), regions + [Blocked(start, end)])
  {
    ghost var s := pmm.Value();
    if end <= start || start >= BOOTSTRAP_LIMIT {
      ReflectsNothing(s, regions, Blocked(start, end));
      return;
    }
    var stop := if end > BOOTSTRAP_LIMIT then BOOTSTRAP_LIMIT else end;
    var from, to := AlignDown(start), AlignUp(stop);
    if to > from {
      forall p: nat | p < BOOTSTRAP_PAGES ensures Within(p, from, to) <==> Touches(p, start, end) {
        OutwardRange(start, end, p);
      }
      ReflectsBlocked(s, regions, start, end, from, to);
      pmm.ReserveRange(from, to);
    }
  }

  lemma OutwardRange(start: nat, end: nat, p: nat)
    requires p < BOOTSTRAP_PAGES && start < end <= U64_MAX && start < BOOTSTRAP_LIMIT
    ensures var stop := if end > BOOTSTRAP_LIMIT then BOOTSTRAP_LIMIT else end;
      Within(p, AlignDown(start), AlignUp(stop)) <==> Touches(p, start, end)
  {}

  lemma InwardRange(start: nat, end: nat, p: nat)
    requires p < BOOTSTRAP_PAGES && start < end <= U64_MAX && start < BOOTSTRAP_LIMIT
    ensures var stop := AlignDown(if end > BOOTSTRAP_LIMIT then BOOTSTRAP_LIMIT else end);
      Within(p, start, end) <==> stop > start && Within(p, AlignUp(start), stop)
  {}

  method ImportEntry(pmm: P.Pmm, info: seq<byte>, at: nat, ghost regions: seq<Region>)
    requires at + 24 <= |info|
    requires pmm.Valid() && Reflects(pmm.Value(), regions)
    modifies pmm`freeCount, pmm.bitmap, pmm.reservedBitmap
    ensures pmm.Valid() && Reflects(pmm.Value(), regions + EntryRegion(info, at))
  {
    hide Reflects, Le64, Le32, PmmSpec.Valid, P.PageSet;
    var start, length := Le64(info, at), Le64(info, at + 8);
    if length == 0 || length > U64_MAX - start {
      assert regions + EntryRegion(info, at) == regions;
      return;
    }
    var end := start + length;
    if Le32(info, at + 16) == MMAP_AVAILABLE {
      ImportUsable(pmm, start, end, regions);
    } else {
      ReserveTouched(pmm, start, end, regions);
    }
  }

  /** Releases the pages wholly inside the range, below the limit. */
  method ImportUsable(pmm: P.Pmm, start: u64, end: u64, ghost regions: seq<Region>)
    requires start < end
    requires pmm.Valid() && Reflects(pmm.Value(), regions)
    modifies pmm`freeCount, pmm.bitmap, pmm.reservedBitmap
    ensures pmm.Valid() && Reflects(pmm.Value(), regions + [Usable(start, end)])
  {
    ghost var s := pmm.Value();
    if start < BOOTSTRAP_LIMIT {
      var stop := AlignDown(if end > BOOTSTRAP_LIMIT then BOOTSTRAP_LIMIT else end);
      forall p: nat | p < BOOTSTRAP_PAGES
        ensures Within(p, start, end) <==> stop > start && Within(p, AlignUp(start), stop)
      {
        InwardRange(start, end, p);
      }
      if stop > start {
        ReflectsUsable(s, regions, start, end, AlignUp(start), stop);
        pmm.AddUsableRange(AlignUp(start), stop);
      } else {
        ReflectsNothing(s, regions, Usable(start, end));
      }
    } else {
      ReflectsNothing(s, regions, Usable(start, end));
    }
  }

  method ImportEntries(pmm: P.Pmm, info: seq<byte>, tag: nat, size: nat, entrySize: nat, seen: nat,
                       ghost regions: seq<Region>)
    returns (ok: bool, seen': nat)
    requires 24 <= entrySize <= size - 16 && tag + size <= |info|
    requires pmm.Valid() && Reflects(pmm.Value(), regions)
    modifies pmm`freeCount, pmm.bitmap, pmm.reservedBitmap
    ensures pmm.Valid()
    ensures match Entries(info, tag, size, entrySize, 16, seen)
            case None => !ok
            case Some(r) => ok && seen' == r.1 && Reflects(pmm.Value(), regions + r.0)
  {
    hide Reflects, Entries, JoinEntries, EntryRegion, PmmSpec.Valid, P.PageSet;
    ok, seen' := true, seen;
    var at := 16;
    ghost var done: seq<Region> := [];
    ghost var all := Entries(info, tag, size, entrySize, 16, seen);
    JoinJoin([], [], all);
    assert regions + done == regions;
    while at <= size - entrySize
      invariant 16 <= at
      invariant pmm.Valid() && Reflects(pmm.Value(), regions + done)
      invariant all == JoinEntries(done, Entries(info, tag, size, entrySize, at, seen'))
      decreases size - at
    {
      EntriesStep(info, tag, size, entrySize, at, seen');
      JoinNone(done);
      if seen' >= MAX_MMAP_ENTRIES { return false, seen'; }
      ImportEntry(pmm, info, tag + at, regions + done);
      ghost var here := EntryRegion(info, tag + at);
      assert regions + done + here == regions + (done + here);
      JoinJoin(done, here, Entries(info, tag, size, entrySize, at + entrySize, seen' + 1));
      done := done + here;
      at, seen' := at + entrySize, seen' + 1;
    }
    EntriesStep(info, tag, size, entrySize, at, seen');
    JoinEnd(done, seen');
  }

  lemma EntriesStep(info: seq<byte>, tag: nat, size: nat, entrySize: nat, at: nat, seen: nat)
    requires 24 <= entrySize <= size && tag + size <= |info|
    ensures at > size - entrySize ==> Entries(info, tag, size, entrySize, at, seen) == Some(([], seen))
    ensures at <= size - entrySize && seen >= MAX_MMAP_ENTRIES ==>
      Entries(info, tag, size, entrySize, at, seen) == None
    ensures at <= size - entrySize && seen < MAX_MMAP_ENTRIES ==>
      Entries(info, tag, size, entrySize, at, seen)
      == JoinEntries(EntryRegion(info, tag + at), Entries(info, tag, size, entrySize, at + entrySize, seen + 1))
  {}

  lemma JoinNone(done: seq<Region>)
    ensures JoinEntries(done, None) == None
  {}

  lemma JoinEnd(done: seq<Region>, seen: nat)
    ensures JoinEntries(done, Some(([], seen))) == Some((done, seen))
  {
    assert done + [] == done;
  }

  /** The state left when the information block cannot be used: 16 to 64 MiB
      are usable, except the kernel image and page 0. */
  function FallbackState(kernelStart: nat, kernelEnd: nat): State {
    var usable := PmmSpec.Init(State(BOOTSTRAP_PAGES, {}, {}, {}, 0), 0x100_0000, 0x400_0000);
    Reserve(Reserve(usable, kernelStart, kernelEnd), 0, PAGE_SIZE)
  }

  /** Page by page: free inside 16 to 64 MiB and outside the kernel image, reserved
      in the kernel image and at 0, and nothing held. */
  ghost predicate FallbackPages(s: State, kernelStart: nat, kernelEnd: nat) {
    && s.pages == BOOTSTRAP_PAGES && s.held == {}
    && (forall p: nat | p < s.pages :: p in s.reserved <==> p == 0 || Within(p, kernelStart, kernelEnd))
    && (forall p: nat | p < s.pages ::
          p !in s.unavailable <==> 0x1000 <= p < 0x4000 && !Within(p, kernelStart, kernelEnd))
  }

  lemma FallbackIsPages(kernelStart: nat, kernelEnd: nat)
    ensures FallbackPages(FallbackState(kernelStart, kernelEnd), kernelStart, kernelEnd)
  {
    hide Within, FreePages;
    var s := FallbackState(kernelStart, kernelEnd);
    forall p: nat | p < s.pages
      ensures p in s.reserved <==> p == 0 || Within(p, kernelStart, kernelEnd)
      ensures p !in s.unavailable <==> 0x1000 <= p < 0x4000 && !Within(p, kernelStart, kernelEnd)
    {
      NullPage(p);
      FallbackRange(p);
    }
  }

  lemma FallbackRange(p: nat)
    ensures Within(p, 0x100_0000, 0x400_0000) <==> 0x1000 <= p < 0x4000
  {}

  method FallbackToBootstrap(pmm: P.Pmm, kernelStart: u64, kernelEnd: u64)
    requires pmm.Shape() && pmm.pages == BOOTSTRAP_PAGES
    modifies pmm, pmm.bitmap, pmm.reservedBitmap, pmm.heldBitmap
    ensures pmm.Valid() && pmm.Value() == FallbackState(kernelStart, kernelEnd)
    ensures FallbackPages(pmm.Value(), kernelStart, kernelEnd)
  {
    hide Reserve, AddUsable, PmmSpec.Valid, FreePages, P.PageSet, FallbackPages;
    FallbackIsPages(kernelStart, kernelEnd);
    pmm.Init(0x100_0000, 0x400_0000);
    pmm.ReserveRange(kernelStart, kernelEnd);
    pmm.ReserveRange(0, PAGE_SIZE);
  }

  /** Walks the tags of a block whose header is sound.  The walk succeeds exactly
      when the tags parse, and has then imported exactly their regions. */
  method WalkTags(pmm: P.Pmm, info: seq<byte>, total: nat) returns (ok: bool, ghost regions: seq<Region>)
    requires 16 <= total <= MAX_INFO_SIZE <= |info|
    requires pmm.Valid() && Reflects(pmm.Value(), [])
    modifies pmm`freeCount, pmm.bitmap, pmm.reservedBitmap
    ensures pmm.Valid()
    ensures match Tags(info, total, 8, MAX_TAGS, 0, 0)
            case None => !ok
            case Some(p) => ok == p.sawMap && regions == p.regions && Reflects(pmm.Value(), regions)
  {
    hide Reflects, Tags, Prepend, TagRegions, Align8, Le32, PmmSpec.Valid, P.PageSet;
    var offset: nat, tagsSeen: nat, entriesSeen: nat, modulesSeen: nat, seenMap := 8, 0, 0, 0, false;
    regions := [];
    ghost var all := Tags(info, total, 8, MAX_TAGS, 0, 0);
    PrependPrepend([], false, [], false, all);
    while offset <= total - 8 && tagsSeen < MAX_TAGS
      invariant tagsSeen <= MAX_TAGS
      invariant pmm.Valid() && Reflects(pmm.Value(), regions)
      invariant all == Prepend(regions, seenMap,
                               Tags(info, total, offset, MAX_TAGS - tagsSeen, entriesSeen, modulesSeen))
      decreases MAX_TAGS - tagsSeen
    {
      TagsStep(info, total, offset, MAX_TAGS - tagsSeen, entriesSeen, modulesSeen);
      PrependEnd(regions, seenMap);
      var kind: nat, size: nat := Le32(info, offset), Le32(info, offset + 4);
      if size < 8 || size > total - offset { return false, regions; }
      if kind == TAG_END { return size == 8 && seenMap, regions; }
      ghost var here := TagRegions(info, offset, kind, size, entriesSeen, modulesSeen);
      var sound, entries := ImportTag(pmm, info, offset, kind, size, entriesSeen, modulesSeen, regions);
      if !sound || Align8(size) > total - offset { return false, regions; }
      var modules := if kind == TAG_MODULE then modulesSeen + 1 else modulesSeen;
      PrependPrepend(regions, seenMap, here.value.0, kind == TAG_MMAP,
                     Tags(info, total, offset + Align8(size), MAX_TAGS - tagsSeen - 1, entries, modules));
      regions := regions + here.value.0;
      seenMap := seenMap || kind == TAG_MMAP;
      offset, tagsSeen, entriesSeen, modulesSeen := offset + Align8(size), tagsSeen + 1, entries, modules;
    }
    TagsStep(info, total, offset, MAX_TAGS - tagsSeen, entriesSeen, modulesSeen);
    PrependEnd(regions, seenMap);
    ok := false;
  }

  lemma TagsStep(info: seq<byte>, total: nat, offset: nat, tagsLeft: nat, entries: nat, modules: nat)
    requires 16 <= total <= |info|
    ensures var r := Tags(info, total, offset, tagsLeft, entries, modules);
      if offset > total - 8 || tagsLeft == 0 then r == None
      else
        var kind, size := Le32(info, offset), Le32(info, offset + 4);
        if size < 8 || size > total - offset then r == None
        else if kind == TAG_END then r == if size == 8 then Some(Parsed([], false)) else None
        else
          var here := TagRegions(info, offset, kind, size, entries, modules);
          if here.None? || Align8(size) > total - offset then r == None
          else r == Prepend(here.value.0, kind == TAG_MMAP,
                            Tags(info, total, offset + Align8(size), tagsLeft - 1, here.value.1,
                                 if kind == TAG_MODULE then modules + 1 else modules))
  {}

  lemma PrependEnd(regions: seq<Region>, sawMap: bool)
    ensures Prepend(regions, sawMap, None) == None
    ensures Prepend(regions, sawMap, Some(Parsed([], false))) == Some(Parsed(regions, sawMap))
  {
    assert regions + [] == regions;
  }

  method ImportTag(pmm: P.Pmm, info: seq<byte>, offset: nat, kind: nat, size: nat, entries: nat, modules: nat,
                   ghost regions: seq<Region>)
    returns (ok: bool, entries': nat)
    requires 8 <= size && offset + size <= |info|
    requires pmm.Valid() && Reflects(pmm.Value(), regions)
    modifies pmm`freeCount, pmm.bitmap, pmm.reservedBitmap
    ensures pmm.Valid()
    ensures match TagRegions(info, offset, kind, size, entries, modules)
            case None => !ok
            case Some(r) => ok && entries' == r.1 && Reflects(pmm.Value(), regions + r.0)
  {
    hide Reflects, Entries, Le32;
    ok, entries' := true, entries;
    if kind == TAG_MODULE {
      if size < 16 || modules >= MAX_MODULES { return false, entries; }
      ReserveTouched(pmm, Le32(info, offset + 8), Le32(info, offset + 12), regions);
    } else if kind == TAG_MMAP {
      if size < 16 { return false, entries; }
      var entrySize := Le32(info, offset + 8);
      if entrySize < 24 || entrySize > size - 16 { return false, entries; }
      ok, entries' := ImportEntries(pmm, info, offset, size, entrySize, entries, regions);
    } else {
      assert regions + [] == regions;
    }
  }

  /** Page 0 and every page the kernel image touches. */
  predicate KernelPage(p: nat, kernelStart: nat, kernelEnd: nat) {
    p == 0 || Touches(p, kernelStart, kernelEnd)
  }

  lemma NullPage(p: nat)
    ensures Within(p, 0, PAGE_SIZE) <==> p == 0
  {}

  lemma InitialReflects(s: State)
    requires s.pages == BOOTSTRAP_PAGES
    ensures Reflects(Reserve(PmmSpec.Reset(s), 0, PAGE_SIZE), [])
  {
    hide Within;
    ResetValid(s);
    ReserveValid(PmmSpec.Reset(s), 0, PAGE_SIZE);
    forall p: nat ensures Within(p, 0, PAGE_SIZE) <==> p == 0 { NullPage(p); }
  }

  lemma ReserveNullAgain(s: State, regions: seq<Region>)
    requires Reflects(s, regions)
    ensures Reserve(s, 0, PAGE_SIZE) == s
  {
    hide Within, IsBlocked, IsUsable;
    forall p: nat ensures Within(p, 0, PAGE_SIZE) <==> p == 0 { NullPage(p); }
    assert 0 in s.reserved;
    assert PagesWithin(0, PAGE_SIZE, s.pages) == {0};
    assert s.unavailable + {0} == s.unavailable && s.reserved + {0} == s.reserved;
  }

  lemma ReflectsReserves(s: State, regions: seq<Region>, i: nat)
    requires Reflects(s, regions) && i < |regions| && regions[i].Blocked?
    ensures forall p: nat | p < BOOTSTRAP_PAGES && KernelPage(p, regions[i].start, regions[i].end) :: p in s.reserved
  {
    forall p: nat | p < BOOTSTRAP_PAGES && KernelPage(p, regions[i].start, regions[i].end) ensures p in s.reserved {
      if p != 0 { assert IsBlocked(regions, p); }
    }
  }

  lemma FallbackReserves(kernelStart: nat, kernelEnd: nat)
    requires kernelStart % PAGE_SIZE == 0 && kernelEnd % PAGE_SIZE == 0
    ensures forall p: nat | p < BOOTSTRAP_PAGES && KernelPage(p, kernelStart, kernelEnd) ::
      p in FallbackState(kernelStart, kernelEnd).reserved
  {
    hide Within, Touches, FreePages;
    forall p: nat | p < BOOTSTRAP_PAGES && KernelPage(p, kernelStart, kernelEnd)
      ensures p in FallbackState(kernelStart, kernelEnd).reserved
    {
      NullPage(p);
      AlignedTouch(p, kernelStart, kernelEnd);
    }
  }

  lemma AlignedTouch(p: nat, start: nat, end: nat)
    requires start % PAGE_SIZE == 0 && end % PAGE_SIZE == 0
    ensures Touches(p, start, end) ==> Within(p, start, end)
  {}

  /** The state that the import of an information block must leave. */
  ghost predicate Imported(s: State, address: nat, info: seq<byte>, kernelStart: nat, kernelEnd: nat)
    requires |info| >= MAX_INFO_SIZE
  {
    match Parse(address, info)
    case None => s == FallbackState(kernelStart, kernelEnd)
    case Some(regions) =>
      Reflects(s, regions + [Blocked(kernelStart, kernelEnd)] + [Blocked(address, address + Le32(info, 0))])
  }

  /** The import.  Without fallback a page is free exactly if a usable entry
      contains it and no module, unavailable entry, kernel image, information
      block or page 0 touches it; on every path page 0 and the kernel image are
      reserved. */
  method InitFromMultiboot(pmm: P.Pmm, address: u64, info: seq<byte>, kernelStart: u64, kernelEnd: u64)
    requires pmm.Shape() && pmm.pages == BOOTSTRAP_PAGES
    requires |info| >= MAX_INFO_SIZE
    requires kernelStart % PAGE_SIZE == 0 && kernelEnd % PAGE_SIZE == 0
    modifies pmm, pmm.bitmap, pmm.reservedBitmap, pmm.heldBitmap
    ensures pmm.Valid() && Imported(pmm.Value(), address, info, kernelStart, kernelEnd)
    ensures forall p: nat | p < BOOTSTRAP_PAGES && KernelPage(p, kernelStart, kernelEnd) :: p in pmm.Value().reserved
  {
    hide Reflects, Tags, Le32, KernelPage, FallbackState, Reserve, AddUsable, PmmSpec.Init, FreePages, P.PageSet;
    pmm.Reset();
    ResetValid(old(pmm.Value()));
    pmm.ReserveRange(0, PAGE_SIZE);
    InitialReflects(old(pmm.Value()));
    FallbackReserves(kernelStart, kernelEnd);
    if address == 0 || address >= 0x4000_0000 {
      FallbackToBootstrap(pmm, kernelStart, kernelEnd);
      return;
    }
    var total := Le32(info, 0);
    if total < 16 || total > MAX_INFO_SIZE || total % 8 != 0 {
      FallbackToBootstrap(pmm, kernelStart, kernelEnd);
      return;
    }
    ghost var regions;
    var ok;
    ok, regions := WalkTags(pmm, info, total);
    if !ok {
      FallbackToBootstrap(pmm, kernelStart, kernelEnd);
      return;
    }
    ReserveTouched(pmm, kernelStart, kernelEnd, regions);
    regions := regions + [Blocked(kernelStart, kernelEnd)];
    ReserveTouched(pmm, address, address + total, regions);
    regions := regions + [Blocked(address, address + total)];
    ghost var s := pmm.Value();
    pmm.ReserveRange(0, PAGE_SIZE);
    ReserveNullAgain(s, regions);
    ReflectsReserves(pmm.Value(), regions, |regions| - 2);
  }
}
