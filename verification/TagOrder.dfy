/** The memory map does not depend on the order in which the information block lists
    its tags and entries: the allocator's state is a function of the collection of
    entries and modules. */
module TagOrder {
  import opened Bytes
  import opened PmmSpec
  import opened Multiboot

  /** What one memory-map entry or one module tag says. */
  datatype Item = MapEntry(start: u64, length: u64, kind: u32) | Module(from: u32, to: u32)

  function ItemRegions(x: Item): seq<Region> {
    match x
    case Module(from, to) => [Blocked(from, to)]
    case MapEntry(start, length, kind) =>
      if length == 0 || length > U64_MAX - start then []
      else if kind == MMAP_AVAILABLE then [Usable(start, start + length)]
      else [Blocked(start, start + length)]
  }

  function RegionsOf(items: seq<Item>): seq<Region> {
    if items == [] then [] else ItemRegions(items[0]) + RegionsOf(items[1..])
  }

  function CountEntries(items: seq<Item>): nat {
    if items == [] then 0 else (if items[0].MapEntry? then 1 else 0) + CountEntries(items[1..])
  }

  function CountModules(items: seq<Item>): nat {
    if items == [] then 0 else (if items[0].Module? then 1 else 0) + CountModules(items[1..])
  }

  lemma {:induction false} ItemsJoin(a: seq<Item>, b: seq<Item>)
    ensures RegionsOf(a + b) == RegionsOf(a) + RegionsOf(b)
    ensures CountEntries(a + b) == CountEntries(a) + CountEntries(b)
    ensures CountModules(a + b) == CountModules(a) + CountModules(b)
    decreases |a|
  {
    hide ItemRegions;
    if a == [] {
      assert a + b == b;
    } else {
      var rest := a[1..];
      ItemsJoin(rest, b);
      assert (a + b)[0] == a[0] && (a + b)[1..] == rest + b;
      assert RegionsOf(a + b) == ItemRegions(a[0]) + RegionsOf(rest + b);
      assert RegionsOf(a) == ItemRegions(a[0]) + RegionsOf(rest);
      assert CountEntries(a + b) == (if a[0].MapEntry? then 1 else 0) + CountEntries(rest + b);
      assert CountModules(a + b) == (if a[0].Module? then 1 else 0) + CountModules(rest + b);
    }
  }

  // ---- One tag ----------------------------------------------------------------------------------

  /** The entries of the map tag at `tag`, from `at` on. */
  function EntryItems(info: seq<byte>, tag: nat, size: nat, entrySize: nat, at: nat): seq<Item>
    requires 24 <= entrySize <= size && tag + size <= |info|
    decreases size - at
  {
    if at > size - entrySize then []
    else
      [MapEntry(Le64(info, tag + at), Le64(info, tag + at + 8), Le32(info, tag + at + 16))]
      + EntryItems(info, tag, size, entrySize, at + entrySize)
  }

  lemma {:induction false} EntryItemsCount(info: seq<byte>, tag: nat, size: nat, entrySize: nat, at: nat)
    requires 24 <= entrySize <= size && tag + size <= |info|
    ensures var items := EntryItems(info, tag, size, entrySize, at);
      CountEntries(items) == |items| && CountModules(items) == 0
    decreases size - at
  {
    if at <= size - entrySize {
      EntryItemsCount(info, tag, size, entrySize, at + entrySize);
      var items := EntryItems(info, tag, size, entrySize, at);
      assert items[1..] == EntryItems(info, tag, size, entrySize, at + entrySize);
    }
  }

  /** Scanning a map tag gives the regions of its entries, unless there are too many. */
  lemma {:induction false} EntriesAreItems(info: seq<byte>, tag: nat, size: nat, entrySize: nat, at: nat, seen: nat)
    requires 24 <= entrySize <= size && tag + size <= |info| && seen <= MAX_MMAP_ENTRIES
    ensures var items := EntryItems(info, tag, size, entrySize, at);
      Entries(info, tag, size, entrySize, at, seen) ==
        if seen + |items| <= MAX_MMAP_ENTRIES then Some((RegionsOf(items), seen + |items|)) else None
    decreases size - at
  {
    hide Le64, Le32;
    if at <= size - entrySize && seen < MAX_MMAP_ENTRIES {
      EntriesAreItems(info, tag, size, entrySize, at + entrySize, seen + 1);
      var items := EntryItems(info, tag, size, entrySize, at);
      assert items[1..] == EntryItems(info, tag, size, entrySize, at + entrySize);
      assert EntryRegion(info, tag + at) == ItemRegions(items[0]);
    }
  }

  /** The tag is well formed by itself. */
  predicate TagOk(info: seq<byte>, offset: nat, kind: nat, size: nat)
    requires 8 <= size && offset + size <= |info|
  {
    && (kind == TAG_MODULE || kind == TAG_MMAP ==> size >= 16)
    && (kind == TAG_MMAP ==> var entrySize := Le32(info, offset + 8); 24 <= entrySize <= size - 16)
  }

  function TagItems(info: seq<byte>, offset: nat, kind: nat, size: nat): seq<Item>
    requires 8 <= size && offset + size <= |info| && TagOk(info, offset, kind, size)
  {
    if kind == TAG_MODULE then [Module(Le32(info, offset + 8), Le32(info, offset + 12))]
    else if kind == TAG_MMAP then EntryItems(info, offset, size, Le32(info, offset + 8), 16)
    else []
  }

  lemma TagIsItems(info: seq<byte>, offset: nat, kind: nat, size: nat, entries: nat, modules: nat)
    requires 8 <= size && offset + size <= |info| && entries <= MAX_MMAP_ENTRIES && modules <= MAX_MODULES
    ensures TagRegions(info, offset, kind, size, entries, modules) ==
      if !TagOk(info, offset, kind, size) then None
      else
        var items := TagItems(info, offset, kind, size);
        if entries + CountEntries(items) <= MAX_MMAP_ENTRIES && modules + CountModules(items) <= MAX_MODULES
        then Some((RegionsOf(items), entries + CountEntries(items))) else None
    ensures TagOk(info, offset, kind, size) ==>
      CountModules(TagItems(info, offset, kind, size)) == if kind == TAG_MODULE then 1 else 0
  {
    hide Le32, Entries;
    if TagOk(info, offset, kind, size) {
      if kind == TAG_MMAP {
        var entrySize := Le32(info, offset + 8);
        EntriesAreItems(info, offset, size, entrySize, 16, entries);
        EntryItemsCount(info, offset, size, entrySize, 16);
      } else if kind == TAG_MODULE {
        var items := TagItems(info, offset, kind, size);
        assert items[1..] == [];
        assert CountEntries(items) == 0 && CountModules(items) == 1;
        assert RegionsOf(items) == [Blocked(Le32(info, offset + 8), Le32(info, offset + 12))];
      }
    }
  }

  // ---- The chain of tags ------------------------------------------------------------------------

  /** What a block lists: its items in order, and whether a map was among its tags. */
  datatype Listing = Listing(items: seq<Item>, sawMap: bool)

  /** The listing of a chain of well-formed tags that ends in a well-formed end tag. */
  function List(info: seq<byte>, total: nat, offset: nat, tagsLeft: nat): Option<Listing>
    requires 16 <= total <= |info|
    decreases tagsLeft
  {
    if offset > total - 8 || tagsLeft == 0 then None
    else
      var kind, size := Le32(info, offset), Le32(info, offset + 4);
      if size < 8 || size > total - offset then None
      else if kind == TAG_END then (if size == 8 then Some(Listing([], false)) else None)
      else if !TagOk(info, offset, kind, size) || Align8(size) > total - offset then None
      else
        match List(info, total, offset + Align8(size), tagsLeft - 1)
        case None => None
        case Some(l) => Some(Listing(TagItems(info, offset, kind, size) + l.items, kind == TAG_MMAP || l.sawMap))
  }

  predicate WithinLimits(items: seq<Item>, entries: nat, modules: nat) {
    entries + CountEntries(items) <= MAX_MMAP_ENTRIES && modules + CountModules(items) <= MAX_MODULES
  }

  lemma EmptyItems()
    ensures RegionsOf([]) == [] && CountEntries([]) == 0 && CountModules([]) == 0
  {}

  /** The walk over the tags finds the regions of the listed items, if there is a
      listing and it is within the limits, and nothing otherwise. */
  lemma {:induction false} TagsAreItems(info: seq<byte>, total: nat, offset: nat, tagsLeft: nat,
                                        entries: nat, modules: nat)
    requires 16 <= total <= |info| && entries <= MAX_MMAP_ENTRIES && modules <= MAX_MODULES
    ensures Tags(info, total, offset, tagsLeft, entries, modules) ==
      match List(info, total, offset, tagsLeft)
      case None => None
      case Some(l) =>
        if WithinLimits(l.items, entries, modules) then Some(Parsed(RegionsOf(l.items), l.sawMap)) else None
    decreases tagsLeft
  {
    hide Le32, TagRegions, TagItems, TagOk, Align8, CountEntries, CountModules, RegionsOf;
    EmptyItems();
    if offset <= total - 8 && tagsLeft > 0 {
      var kind, size := Le32(info, offset), Le32(info, offset + 4);
      if 8 <= size <= total - offset && kind != TAG_END {
        TagIsItems(info, offset, kind, size, entries, modules);
        if TagOk(info, offset, kind, size) && Align8(size) <= total - offset {
          var first := TagItems(info, offset, kind, size);
          var next := offset + Align8(size);
          if WithinLimits(first, entries, modules) {
            TagsAreItems(info, total, next, tagsLeft - 1, entries + CountEntries(first), modules + CountModules(first));
          }
          match List(info, total, next, tagsLeft - 1)
          case None =>
          case Some(l) => ItemsJoin(first, l.items);
        }
      }
    }
  }

  // ---- Order --------------------------------------------------------------------------------------

  lemma {:induction false} RegionsMember(items: seq<Item>, r: Region)
    ensures r in RegionsOf(items) <==> exists x :: x in items && r in ItemRegions(x)
  {
    if items != [] {
      hide ItemRegions;
      RegionsMember(items[1..], r);
      assert forall x :: x in items <==> x == items[0] || x in items[1..];
    }
  }

  lemma Take1(b: seq<Item>, i: nat)
    requires i < |b|
    ensures var rest := b[..i] + b[i + 1..];
      && multiset(b) == multiset(rest) + multiset{b[i]}
      && CountEntries(b) == CountEntries(rest) + (if b[i].MapEntry? then 1 else 0)
      && CountModules(b) == CountModules(rest) + (if b[i].Module? then 1 else 0)
  {
    hide RegionsOf;
    var tail := [b[i]] + b[i + 1..];
    assert b == b[..i] + tail;
    assert tail[1..] == b[i + 1..];
    ItemsJoin(b[..i], tail);
    ItemsJoin(b[..i], b[i + 1..]);
  }

  lemma WithoutFirst(a: seq<Item>)
    requires a != []
    ensures multiset(a) == multiset(a[1..]) + multiset{a[0]}
  {
    assert a == [a[0]] + a[1..];
  }

  lemma CancelOne(x: multiset<Item>, y: multiset<Item>, e: Item)
    requires x + multiset{e} == y + multiset{e}
    ensures x == y
  {
    assert x == (x + multiset{e}) - multiset{e};
    assert y == (y + multiset{e}) - multiset{e};
  }

  lemma IndexOfItem(b: seq<Item>, x: Item) returns (i: nat)
    requires x in multiset(b)
    ensures i < |b| && b[i] == x
  {
    i :| i < |b| && b[i] == x;
  }

  lemma {:induction false} SameCounts(a: seq<Item>, b: seq<Item>)
    requires multiset(a) == multiset(b)
    ensures CountEntries(a) == CountEntries(b) && CountModules(a) == CountModules(b)
    decreases |a|
  {
    assert |a| == |multiset(a)| == |b|;
    if a != [] {
      assert a[0] in multiset(b) by { assert a[0] in multiset(a); }
      var i := IndexOfItem(b, a[0]);
      var rest := b[..i] + b[i + 1..];
      Take1(b, i);
      WithoutFirst(a);
      CancelOne(multiset(a[1..]), multiset(rest), a[0]);
      SameCounts(a[1..], rest);
    }
  }

  lemma SameRegions(a: seq<Item>, b: seq<Item>)
    requires multiset(a) == multiset(b)
    ensures forall r :: r in RegionsOf(a) <==> r in RegionsOf(b)
  {
    assert forall x :: x in a <==> x in multiset(a);
    assert forall x :: x in b <==> x in multiset(b);
    forall r ensures r in RegionsOf(a) <==> r in RegionsOf(b) {
      RegionsMember(a, r);
      RegionsMember(b, r);
    }
  }

  /** The listing of a whole block. */
  function BlockList(info: seq<byte>): Option<Listing>
    requires |info| >= MAX_INFO_SIZE
  {
    var total := Le32(info, 0);
    if total < 16 || total > MAX_INFO_SIZE || total % 8 != 0 then None else List(info, total, 8, MAX_TAGS)
  }

  lemma ParseIsList(address: nat, info: seq<byte>)
    requires |info| >= MAX_INFO_SIZE
    ensures Parse(address, info) ==
      if address == 0 || address >= 0x4000_0000 then None
      else
        match BlockList(info)
        case None => None
        case Some(l) => if l.sawMap && WithinLimits(l.items, 0, 0) then Some(RegionsOf(l.items)) else None
  {
    hide Le32, Tags, List;
    var total := Le32(info, 0);
    if 16 <= total <= MAX_INFO_SIZE { TagsAreItems(info, total, 8, MAX_TAGS, 0, 0); }
  }

  /** Two blocks of one size that list the same entries and modules, in whatever order
      and spread over whatever tags, leave the allocator in the same state. */
  lemma TagOrderDoesNotMatter(s: State, t: State, address: nat, a: seq<byte>, b: seq<byte>,
                              kernelStart: nat, kernelEnd: nat)
    requires |a| >= MAX_INFO_SIZE && |b| >= MAX_INFO_SIZE && Le32(a, 0) == Le32(b, 0)
    requires BlockList(a).Some? && BlockList(b).Some? && BlockList(a).value.sawMap == BlockList(b).value.sawMap
    requires multiset(BlockList(a).value.items) == multiset(BlockList(b).value.items)
    requires Imported(s, address, a, kernelStart, kernelEnd) && Imported(t, address, b, kernelStart, kernelEnd)
    ensures s == t
  {
    hide Le32, BlockList, Reflects, FallbackState, Parse;
    ParseIsList(address, a);
    ParseIsList(address, b);
    var x, y := BlockList(a).value.items, BlockList(b).value.items;
    SameCounts(x, y);
    SameRegions(x, y);
    if Parse(address, a).Some? {
      var kernel, block := Blocked(kernelStart, kernelEnd), Blocked(address, address + Le32(a, 0));
      OrderDoesNotMatter(s, t, RegionsOf(x) + [kernel] + [block], RegionsOf(y) + [kernel] + [block]);
    }
  }
}
