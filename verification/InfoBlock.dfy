/** Multiboot2 information blocks written out byte by byte (sections 3.6.2, 3.6.6 and
    3.6.8 of the Multiboot2 specification), and what the import makes of each. */
module InfoBlock {
  import opened Bytes
  import opened PmmSpec
  import opened Multiboot
  import T = TagOrder

  /** A memory-map entry; `extra` is what follows the type. */
  datatype MapEntry = MapEntry(start: u64, length: u64, kind: u32, extra: seq<byte>)

  datatype Tag =
    | ModuleTag(from: u32, to: u32, name: seq<byte>)
    | MapTag(entrySize: u32, version: u32, entries: seq<MapEntry>)
    | OtherTag(kind: u32, body: seq<byte>)

  function EntryBytes(e: MapEntry): (r: seq<byte>)
    ensures |r| == 20 + |e.extra|
  {
    Put64(e.start) + Put64(e.length) + Put32(e.kind) + e.extra
  }

  function EntriesBytes(entries: seq<MapEntry>): seq<byte> {
    if entries == [] then [] else EntryBytes(entries[0]) + EntriesBytes(entries[1..])
  }

  /** What follows a tag's type and size. */
  function Body(t: Tag): seq<byte> {
    match t
    case ModuleTag(from, to, name) => Put32(from) + Put32(to) + name
    case MapTag(entrySize, version, entries) => Put32(entrySize) + Put32(version) + EntriesBytes(entries)
    case OtherTag(_, body) => body
  }

  function Kind(t: Tag): u32 {
    match t
    case ModuleTag(_, _, _) => 3
    case MapTag(_, _, _) => 6
    case OtherTag(kind, _) => kind
  }

  function Size(t: Tag): nat { 8 + |Body(t)| }

  /** A map tag has at least one entry, each of at least 24 bytes; other tags do not use
      the types of the end, module and map tags. */
  predicate WellFormed(t: Tag) {
    && Size(t) < WRAP32
    && (t.MapTag? ==>
          24 <= t.entrySize && t.entries != [] && forall e | e in t.entries :: |e.extra| == t.entrySize - 20)
    && (t.OtherTag? ==> t.kind != 0 && t.kind != 3 && t.kind != 6)
  }

  /** Zero bytes up to the next multiple of eight. */
  function Padding(n: nat): (r: seq<byte>)
    ensures (n + |r|) % 8 == 0 && |r| < 8
  {
    seq<byte>((8 - n % 8) % 8, (i: nat) => 0)
  }

  function TagBytes(t: Tag): seq<byte>
    requires WellFormed(t)
  {
    Put32(Kind(t)) + Put32(Size(t)) + Body(t) + Padding(Size(t))
  }

  function TagsBytes(tags: seq<Tag>): seq<byte>
    requires forall t | t in tags :: WellFormed(t)
  {
    if tags == [] then [] else TagBytes(tags[0]) + TagsBytes(tags[1..])
  }

  /** Total size, a reserved word, the tags, and the end tag. */
  function Total(tags: seq<Tag>): nat
    requires forall t | t in tags :: WellFormed(t)
  {
    16 + |TagsBytes(tags)|
  }

  function Block(tags: seq<Tag>, reserved: u32): seq<byte>
    requires forall t | t in tags :: WellFormed(t)
    requires Total(tags) < WRAP32
  {
    Put32(Total(tags)) + Put32(reserved) + TagsBytes(tags) + (Put32(0) + Put32(8))
  }

  // ---- What a list of tags says -----------------------------------------------------------------

  function EntryRegions(e: MapEntry): seq<Region> {
    if e.length == 0 || e.start + e.length >= WRAP64 then []
    else if e.kind == 1 then [Usable(e.start, e.start + e.length)]
    else [Blocked(e.start, e.start + e.length)]
  }

  function EntriesRegions(entries: seq<MapEntry>): seq<Region> {
    if entries == [] then [] else EntryRegions(entries[0]) + EntriesRegions(entries[1..])
  }

  function TagsRegions(tags: seq<Tag>): seq<Region> {
    if tags == [] then []
    else
      (match tags[0]
       case ModuleTag(from, to, _) => [Blocked(from, to)]
       case MapTag(_, _, entries) => EntriesRegions(entries)
       case OtherTag(_, _) => [])
      + TagsRegions(tags[1..])
  }

  function Modules(tags: seq<Tag>): nat {
    if tags == [] then 0 else (if tags[0].ModuleTag? then 1 else 0) + Modules(tags[1..])
  }

  function MapEntries(tags: seq<Tag>): nat {
    if tags == [] then 0 else (if tags[0].MapTag? then |tags[0].entries| else 0) + MapEntries(tags[1..])
  }

  predicate HasMap(tags: seq<Tag>) { exists t :: t in tags && t.MapTag? }

  // ---- Where the walk goes ----------------------------------------------------------------------

  /** The next tag starts at the next multiple of eight. */
  lemma AlignRoundsUp(size: nat)
    ensures Align8(size) % 8 == 0 && size <= Align8(size) < size + 8
  {}

  lemma PaddedLength(t: Tag)
    requires WellFormed(t)
    ensures |TagBytes(t)| == Align8(Size(t)) && |TagBytes(t)| % 8 == 0
  {
    hide Body, Align8, Padding, Put32;
    AlignRoundsUp(Size(t));
    SameMultiple(Size(t), Align8(Size(t)), Size(t) + |Padding(Size(t))|);
  }

  lemma SameMultiple(n: nat, a: nat, b: nat)
    requires a % 8 == 0 && b % 8 == 0 && n <= a < n + 8 && n <= b < n + 8
    ensures a == b
  {}

  /** Bytes at..at+|part|-1 of the block. */
  predicate At(info: seq<byte>, at: nat, part: seq<byte>) { at + |part| <= |info| && info[at..at + |part|] == part }

  lemma AtParts(info: seq<byte>, at: nat, a: seq<byte>, b: seq<byte>)
    requires At(info, at, a + b)
    ensures At(info, at, a) && At(info, at + |a|, b)
  {
    var s := info[at..at + |a + b|];
    assert s[..|a|] == a && s[|a|..] == b;
    assert info[at..at + |a|] == s[..|a|];
    assert info[at + |a|..at + |a| + |b|] == s[|a|..];
  }

  lemma AtWord(info: seq<byte>, at: nat, x: u32)
    requires At(info, at, Put32(x))
    ensures Le32(info, at) == x
  {
    LoadStored32(info, at, x);
  }

  lemma AtLong(info: seq<byte>, at: nat, x: u64)
    requires At(info, at, Put64(x))
    ensures Le64(info, at) == x
  {
    LoadStored64(info, at, x);
  }

  function ItemOf(e: MapEntry): T.Item { T.MapEntry(e.start, e.length, e.kind) }

  function EntryItems(entries: seq<MapEntry>): seq<T.Item> {
    if entries == [] then [] else [ItemOf(entries[0])] + EntryItems(entries[1..])
  }

  function TagItems(t: Tag): seq<T.Item> {
    match t
    case ModuleTag(from, to, _) => [T.Module(from, to)]
    case MapTag(_, _, entries) => EntryItems(entries)
    case OtherTag(_, _) => []
  }

  function TagsItems(tags: seq<Tag>): seq<T.Item> {
    if tags == [] then [] else TagItems(tags[0]) + TagsItems(tags[1..])
  }

  lemma EntryRead(info: seq<byte>, at: nat, e: MapEntry)
    requires At(info, at, EntryBytes(e))
    ensures at + 20 <= |info|
    ensures Le64(info, at) == e.start && Le64(info, at + 8) == e.length && Le32(info, at + 16) == e.kind
  {
    hide At, Le64, Le32, Put64, Put32;
    var a, b, c := Put64(e.start), Put64(e.length), Put32(e.kind);
    AtParts(info, at, a + b + c, e.extra);
    AtParts(info, at, a + b, c);
    AtParts(info, at, a, b);
    AtLong(info, at, e.start);
    AtLong(info, at + 8, e.length);
    AtWord(info, at + 16, e.kind);
  }

  lemma {:induction false} EntriesLength(entries: seq<MapEntry>, n: nat)
    requires n >= 20 && forall e | e in entries :: |e.extra| == n - 20
    ensures |EntriesBytes(entries)| == n * |entries|
  {
    hide EntryBytes;
    if entries != [] {
      assert entries[0] in entries;
      EntriesLength(entries[1..], n);
      OneMore(n, |entries|);
    }
  }

  lemma OneMore(n: nat, k: nat)
    requires k > 0
    ensures n * k == n + n * (k - 1)
  {}

  /** The entries of a map tag are read one after the other. */
  lemma {:induction false} EntriesRead(info: seq<byte>, tag: nat, size: nat, n: nat, at: nat, entries: seq<MapEntry>)
    requires 24 <= n <= size && tag + size <= |info|
    requires forall e | e in entries :: |e.extra| == n - 20
    requires at + |EntriesBytes(entries)| == size && At(info, tag + at, EntriesBytes(entries))
    ensures T.EntryItems(info, tag, size, n, at) == EntryItems(entries)
    decreases |entries|
  {
    hide At, EntryBytes, Le64, Le32;
    EntriesLength(entries, n);
    if entries != [] {
      assert entries[0] in entries;
      EntriesLength(entries[1..], n);
      AtParts(info, tag + at, EntryBytes(entries[0]), EntriesBytes(entries[1..]));
      EntryRead(info, tag + at, entries[0]);
      EntriesRead(info, tag, size, n, at + n, entries[1..]);
    }
  }

  /** The type, the size and the body of the tag at `offset`. */
  lemma TagRead(info: seq<byte>, offset: nat, t: Tag)
    requires WellFormed(t) && At(info, offset, TagBytes(t))
    ensures offset + Size(t) <= |info|
    ensures Le32(info, offset) == Kind(t) && Le32(info, offset + 4) == Size(t)
    ensures At(info, offset + 8, Body(t))
  {
    hide At, Le32, Body, Kind, Padding;
    var a, b := Put32(Kind(t)), Put32(Size(t));
    AtParts(info, offset, a + b + Body(t), Padding(Size(t)));
    AtParts(info, offset, a + b, Body(t));
    AtParts(info, offset, a, b);
    AtWord(info, offset, Kind(t));
    AtWord(info, offset + 4, Size(t));
    AtBound(info, offset, a + b + Body(t));
  }

  lemma AtBound(info: seq<byte>, at: nat, part: seq<byte>)
    requires At(info, at, part)
    ensures at + |part| <= |info|
  {}

  lemma TagListed(info: seq<byte>, offset: nat, t: Tag)
    requires WellFormed(t) && offset + Size(t) <= |info| && At(info, offset + 8, Body(t))
    ensures T.TagOk(info, offset, Kind(t), Size(t))
    ensures T.TagItems(info, offset, Kind(t), Size(t)) == TagItems(t)
  {
    hide At, Le32, Put32, T.EntryItems, EntryItems, EntriesBytes;
    match t
    case ModuleTag(from, to, name) =>
      AtParts(info, offset + 8, Put32(from) + Put32(to), name);
      AtParts(info, offset + 8, Put32(from), Put32(to));
      AtWord(info, offset + 8, from);
      AtWord(info, offset + 12, to);
    case MapTag(n, version, entries) =>
      AtParts(info, offset + 8, Put32(n) + Put32(version), EntriesBytes(entries));
      AtParts(info, offset + 8, Put32(n), Put32(version));
      AtWord(info, offset + 8, n);
      EntriesLength(entries, n);
      AtLeastOne(n, |entries|);
      EntriesRead(info, offset, Size(t), n, 16, entries);
    case OtherTag(kind, body) =>
  }

  lemma AtLeastOne(n: nat, k: nat)
    requires k > 0
    ensures n * k >= n
  {}

  lemma MapFirst(tags: seq<Tag>)
    requires tags != []
    ensures HasMap(tags) <==> tags[0].MapTag? || HasMap(tags[1..])
  {
    if HasMap(tags) {
      var t :| t in tags && t.MapTag?;
      assert t == tags[0] || t in tags[1..];
    }
  }

  /** The chain of tags is listed up to the end tag, if the tag limit allows. */
  lemma {:induction false} TagsListed(info: seq<byte>, total: nat, offset: nat, tags: seq<Tag>, left: nat)
    requires forall t | t in tags :: WellFormed(t)
    requires 16 <= total <= |info| && offset + |TagsBytes(tags)| + 8 == total
    requires At(info, offset, TagsBytes(tags) + (Put32(0) + Put32(8)))
    ensures T.List(info, total, offset, left) ==
      if |tags| < left then Some(T.Listing(TagsItems(tags), HasMap(tags))) else None
    decreases |tags|
  {
    hide At, Le32, Put32, TagBytes, TagItems, Kind, WellFormed, HasMap, T.TagOk, T.TagItems, Align8, Size;
    var end := Put32(0) + Put32(8);
    if tags == [] {
      assert TagsBytes(tags) + end == end;
      AtParts(info, offset, Put32(0), Put32(8));
      AtWord(info, offset, 0);
      AtWord(info, offset + 4, 8);
      assert !HasMap(tags) by { NoMap(); }
    } else {
      var t, rest := tags[0], tags[1..];
      assert TagsBytes(tags) + end == TagBytes(t) + (TagsBytes(rest) + end);
      AtParts(info, offset, TagBytes(t), TagsBytes(rest) + end);
      TagFacts(t);
      TagRead(info, offset, t);
      TagListed(info, offset, t);
      MapFirst(tags);
      TagsListed(info, total, offset + |TagBytes(t)|, rest, if left == 0 then 0 else left - 1);
    }
  }

  lemma NoMap()
    ensures !HasMap([])
  {}

  lemma TagFacts(t: Tag)
    requires WellFormed(t)
    ensures |TagBytes(t)| == Align8(Size(t)) >= Size(t) >= 8
    ensures Kind(t) != TAG_END && (Kind(t) == TAG_MMAP <==> t.MapTag?)
  {
    PaddedLength(t);
    AlignRoundsUp(Size(t));
  }

  // ---- The listing as regions and counts --------------------------------------------------------

  lemma {:induction false} EntriesMean(entries: seq<MapEntry>)
    ensures T.RegionsOf(EntryItems(entries)) == EntriesRegions(entries)
    ensures T.CountEntries(EntryItems(entries)) == |entries| && T.CountModules(EntryItems(entries)) == 0
  {
    if entries != [] {
      EntriesMean(entries[1..]);
      var items := EntryItems(entries);
      assert items[1..] == EntryItems(entries[1..]);
      assert T.ItemRegions(items[0]) == EntryRegions(entries[0]);
    }
  }

  lemma TagMeans(t: Tag)
    ensures T.RegionsOf(TagItems(t)) ==
      match t
      case ModuleTag(from, to, _) => [Blocked(from, to)]
      case MapTag(_, _, entries) => EntriesRegions(entries)
      case OtherTag(_, _) => []
    ensures T.CountEntries(TagItems(t)) == if t.MapTag? then |t.entries| else 0
    ensures T.CountModules(TagItems(t)) == if t.ModuleTag? then 1 else 0
  {
    match t
    case ModuleTag(from, to, _) =>
      var items := TagItems(t);
      assert items[1..] == [];
      assert T.ItemRegions(items[0]) == [Blocked(from, to)];
    case MapTag(_, _, entries) => EntriesMean(entries);
    case OtherTag(_, _) =>
  }

  lemma {:induction false} TagsMean(tags: seq<Tag>)
    ensures T.RegionsOf(TagsItems(tags)) == TagsRegions(tags)
    ensures T.CountEntries(TagsItems(tags)) == MapEntries(tags) && T.CountModules(TagsItems(tags)) == Modules(tags)
  {
    hide TagItems, EntriesRegions;
    if tags != [] {
      TagsMean(tags[1..]);
      TagMeans(tags[0]);
      T.ItemsJoin(TagItems(tags[0]), TagsItems(tags[1..]));
    }
  }

  // ---- The import of a written block ------------------------------------------------------------

  /** A block written from any list of tags is imported as the regions of that list
      exactly if it lies below 1 GiB, is at most 64 KiB long, has fewer than 128 tags
      before the end tag, at most 128 map entries and 32 modules, and a map. */
  lemma BlockParses(address: nat, tags: seq<Tag>, reserved: u32, info: seq<byte>)
    requires forall t | t in tags :: WellFormed(t)
    requires |info| >= 0x1_0000 && Total(tags) < WRAP32 && Block(tags, reserved) <= info
    ensures Parse(address, info) ==
      if && 0 < address < 0x4000_0000 && Total(tags) <= 0x1_0000 && |tags| < 128
         && MapEntries(tags) <= 128 && Modules(tags) <= 32 && HasMap(tags)
      then Some(TagsRegions(tags)) else None
  {
    hide At, Le32, Block, Put32, TagsBytes, HasMap, T.List, WellFormed, Parse, TagsRegions, TagsItems, T.RegionsOf,
         T.CountEntries, T.CountModules;
    BlockParts(tags, reserved, info);
    TotalAligned(tags);
    T.ParseIsList(address, info);
    if Total(tags) <= 0x1_0000 {
      TagsListed(info, Total(tags), 8, tags, 128);
      TagsMean(tags);
    }
  }

  /** The import then leaves exactly the pages of the 256 MiB free that a usable entry
      contains and no other region, the kernel image or the block touches. */
  lemma BlockImports(s: State, address: nat, tags: seq<Tag>, reserved: u32, info: seq<byte>,
                     kernelStart: nat, kernelEnd: nat)
    requires forall t | t in tags :: WellFormed(t)
    requires |info| >= 0x1_0000 && Total(tags) <= 0x1_0000 && Block(tags, reserved) <= info
    requires 0 < address < 0x4000_0000 && |tags| < 128
    requires MapEntries(tags) <= 128 && Modules(tags) <= 32 && HasMap(tags)
    requires Imported(s, address, info, kernelStart, kernelEnd)
    ensures s.pages == 0x1_0000
    ensures Reflects(s, TagsRegions(tags) + [Blocked(kernelStart, kernelEnd)]
                        + [Blocked(address, address + Total(tags))])
  {
    hide Block, Parse, TagsRegions, HasMap, MapEntries, Modules, WellFormed, TagsBytes, Le32, At, Reflects;
    BlockParses(address, tags, reserved, info);
    BlockParts(tags, reserved, info);
    ReflectedPages(s, TagsRegions(tags) + [Blocked(kernelStart, kernelEnd)]
                      + [Blocked(address, address + Total(tags))]);
  }

  lemma ReflectedPages(s: State, regions: seq<Region>)
    requires Reflects(s, regions)
    ensures s.pages == 0x1_0000
  {}

  lemma BlockParts(tags: seq<Tag>, reserved: u32, info: seq<byte>)
    requires forall t | t in tags :: WellFormed(t)
    requires Total(tags) < WRAP32 && Block(tags, reserved) <= info
    ensures |info| >= Total(tags) && Le32(info, 0) == Total(tags)
    ensures At(info, 8, TagsBytes(tags) + (Put32(0) + Put32(8)))
  {
    hide At, Le32, Put32, TagsBytes, WellFormed;
    var head, rest := Put32(Total(tags)) + Put32(reserved), TagsBytes(tags) + (Put32(0) + Put32(8));
    assert Block(tags, reserved) == head + rest;
    PrefixIsAt(info, head + rest);
    AtParts(info, 0, head, rest);
    AtParts(info, 0, Put32(Total(tags)), Put32(reserved));
    AtWord(info, 0, Total(tags));
  }

  lemma PrefixIsAt(info: seq<byte>, part: seq<byte>)
    requires part <= info
    ensures At(info, 0, part)
  {}

  lemma {:induction false} TotalAligned(tags: seq<Tag>)
    requires forall t | t in tags :: WellFormed(t)
    ensures |TagsBytes(tags)| % 8 == 0
  {
    hide TagBytes, WellFormed, Align8, Size;
    if tags != [] {
      var a, b := TagBytes(tags[0]), TagsBytes(tags[1..]);
      PaddedLength(tags[0]);
      TotalAligned(tags[1..]);
      AlignedSum(|a|, |b|);
      assert TagsBytes(tags) == a + b;
    }
  }

  lemma AlignedSum(a: nat, b: nat)
    requires a % 8 == 0 && b % 8 == 0
    ensures (a + b) % 8 == 0
  {}
}
