/** The kernel's operations as they run: words of page tables and of the allocator's
    bitmaps are updated in place.  Each method is proved against the function on
    entries and page sets that the properties are stated about. */
module Memory {
  import opened Bytes
  import opened PmmSpec
  import opened PageTables
  import opened Walks
  import A = AddressSpace
  import B = Boot
  import P = Pmm
  import V = Vmm
  import E = PageEntry
  import W = Words
  import opened PageWords
  import EntryWords

  type Word = W.Word
  const ZERO: Word := W.ZERO

  class Memory {
    const pmm: P.Pmm
    /** Physical memory by page. */
    var mem: map<nat, WordPage>
    /** Whether the bootstrap tables have been built. */
    var vmmReady: bool

    constructor (pmm: P.Pmm)
      ensures this.pmm == pmm && mem == map[] && !vmmReady
    {
      this.pmm := pmm;
      mem, vmmReady := map[], false;
    }

    ghost predicate Valid()
      reads pmm, pmm.bitmap, pmm.reservedBitmap, pmm.heldBitmap
    {
      pmm.Valid()
    }

    /** The machine that the words in memory encode. */
    ghost function Value(): Machine
      requires pmm.Shape()
      reads this`mem, pmm, pmm.bitmap, pmm.reservedBitmap, pmm.heldBitmap
    {
      Machine(pmm.Value(), DecodeMemory(mem))
    }

    method LoadEntry(table: nat, index: nat) returns (e: Word)
      requires Valid() && index < ENTRIES
      ensures E.Decode(e) == Ent(Value(), table, index)
    {
      hide E.Decode, PmmSpec.Valid, P.PageSet;
      LoadDecodes(pmm.Value(), mem, table, index);
      e := Load(mem, table, index);
    }

    method StoreEntry(table: nat, index: nat, w: Word)
      requires Valid() && index < ENTRIES
      modifies this`mem
      ensures Valid() && Value() == SetEnt(old(Value()), table, index, E.Decode(w))
      ensures mem == Store(old(mem), table, index, w)
    {
      hide E.Decode, PmmSpec.Valid, P.PageSet, SetEnt;
      StoreDecodes(pmm.Value(), mem, table, index, w);
      mem := Store(mem, table, index, w);
    }

    method ZeroPage(page: nat)
      requires Valid()
      modifies this`mem
      ensures Valid() && Value() == Machine(old(Value()).pmm, old(Value()).mem[page := ZeroTable()])
    {
      hide PmmSpec.Valid, P.PageSet, DecodePage, DecodeMemory, ZeroTable;
      var words: seq<Word> := [];
      for i := 0 to ENTRIES
        invariant |words| == i && forall j | 0 <= j < i :: words[j] == ZERO
      {
        words := words + [ZERO];
      }
      ZeroTableDecodes(words);
      DecodeUpdate(mem, page, WordTable(words));
      mem := mem[page := WordTable(words)];
    }

    /** The table below an entry, added if it is missing; 0 if that fails. */
    method EnsureTable(table: nat, index: nat, flags: Word) returns (next: nat)
      requires Valid() && index < ENTRIES
      modifies this`mem, pmm`freeCount, pmm.bitmap, pmm.heldBitmap
      ensures Valid()
      ensures (Value(), next) == PageTables.EnsureTable(old(Value()), table, index, E.FlagsOf(flags))
    {
      hide SetEnt, Ent, P.PageSet, Alloc, PmmSpec.Valid, DecodeMemory, E.Has, E.Field, E.Value, E.FlagsOf,
           E.OpenedWord, E.LinkWord, TableFrom, WordOf;
      var e := LoadEntry(table, index);
      if E.Has(e, E.PRESENT) {
        if E.Has(e, E.LARGE) { return 0; }
        E.DecodeOpened(e, flags);
        StoreEntry(table, index, E.OpenedWord(e, flags));
        TableFromFrame(E.OpenedWord(e, flags));
        return TableFrom(E.OpenedWord(e, flags));
      }
      AllocatedPage(pmm.Value());
      var address := pmm.AllocPage();
      if address == 0 { return 0; }
      next := address / PAGE_SIZE;
      ZeroPage(next);
      LinkDecodes(address, flags);
      StoreEntry(table, index, E.LinkWord(WordOf(address), flags));
    }

    method ReachTable(root: nat, va: Word, flags: Word) returns (table: nat)
      requires Valid()
      modifies this`mem, pmm`freeCount, pmm.bitmap, pmm.heldBitmap
      ensures Valid()
      ensures (Value(), table) == Walks.ReachTable(old(Value()), root, AddressOf(va) / PAGE_SIZE, E.FlagsOf(flags))
    {
      hide PageTables.EnsureTable, P.PageSet, PmmSpec.Valid, DecodeMemory, IndexOf, AddressOf, E.FlagsOf;
      WordIndices(va);
      table := EnsureTable(root, IndexOf(E.Down39(va)), flags);
      if table == 0 { return; }
      table := EnsureTable(table, IndexOf(E.Down30(va)), flags);
      if table == 0 { return; }
      table := EnsureTable(table, IndexOf(E.Down21(va)), flags);
    }

    // ---- The kernel's mappings -----------------------------------------------------------

    /** Builds the bootstrap tables, once. */
    method VmmInit(b: B.Layout)
      requires Valid() && b.Fits()
      modifies this
      ensures Valid() && vmmReady
      ensures Value() == if old(vmmReady) then old(Value()) else B.VmmInit(old(Value()), b)
    {
      hide Ent, SetEnt, P.PageSet, PmmSpec.Valid, DecodeMemory, E.Has, E.Field, E.Value, E.LinkWord, WordOf,
           ZeroTable;
      if vmmReady { return; }
      KernelLink(b.bootPt);
      KernelLink(b.bootPd);
      KernelLink(b.highPdpt);
      ZeroPage(b.bootPd);
      ZeroPage(b.bootPt);
      ZeroPage(b.highPdpt);
      StoreEntry(b.bootPd, 0, E.LinkWord(WordOf(b.bootPt * PAGE_SIZE), E.WRITABLE));
      StoreEntry(b.highPdpt, 0, E.LinkWord(WordOf(b.bootPd * PAGE_SIZE), E.WRITABLE));
      StoreEntry(b.pml4, 1, E.LinkWord(WordOf(b.highPdpt * PAGE_SIZE), E.WRITABLE));
      var e := LoadEntry(b.pdpt, 0x100);
      if !E.Has(e, E.PRESENT) { StoreEntry(b.pdpt, 0x100, E.LinkWord(WordOf(b.bootPd * PAGE_SIZE), E.WRITABLE)); }
      vmmReady := true;
    }

    method VmmMapPage(root: nat, va: u64, pa: u64, flags: Flags) returns (code: int)
      requires Valid()
      modifies this`mem, pmm`freeCount, pmm.bitmap, pmm.heldBitmap
      ensures Valid() && (Value(), code) == V.MapPage(old(Value()), root, va, pa, flags)
      ensures code == 0 ==>
        var t := Walks.ReachTable(old(Value()), root, va / PAGE_SIZE, flags).1;
        IsWordTable(mem, t) ==>
          AddressOf(Load(mem, t, va / PAGE_SIZE % 512)) ==
            pa % 0x10_0000_0000_0000 + EntryWords.Bits(flags.writable, flags.user, flags.nx)
    {
      hide Walks.ReachTable, Ent, SetEnt, P.PageSet, PmmSpec.Valid, DecodeMemory, E.Has, E.Field, E.Value,
           E.FlagsOf, E.KernelLeafWord, IndexOf, AddressOf, WordOf, FlagWord, W.And;
      var va', pa', flags' := WordOf(va), WordOf(pa), FlagWord(flags);
      Arguments(va, pa, flags);
      if W.And(va', 0xFFF) != ZERO || W.And(pa', 0xFFF) != ZERO { return -1; }
      var table := ReachTable(root, va', flags');
      if table == 0 { return -1; }
      var e := LoadEntry(table, IndexOf(E.Down12(va')));
      if E.Has(e, E.PRESENT) { return -2; }
      KernelLeafDecodes(pa, flags');
      EntryWords.KernelLeafNumber(pa, flags);
      StoreEntry(table, IndexOf(E.Down12(va')), E.KernelLeafWord(pa', flags'));
      code := 0;
    }

    method VmmUnmapPage(root: nat, va: u64) returns (code: int, physical: nat)
      requires Valid()
      modifies this`mem
      ensures Valid() && (Value(), code, physical) == V.UnmapPage(old(Value()), root, va)
    {
      hide Ent, SetEnt, P.PageSet, PmmSpec.Valid, DecodeMemory, E.Has, E.Field, E.Value, IndexOf, AddressOf, WordOf,
           W.And, TableFrom, FrameAddress;
      var va' := WordOf(va);
      Arguments(va, 0, Flags(false, false, false));
      if W.And(va', 0xFFF) != ZERO { return -1, 0; }
      var e4 := LoadEntry(root, IndexOf(E.Down39(va')));
      if !E.Has(e4, E.PRESENT) || E.Has(e4, E.LARGE) { return -1, 0; }
      TableFromFrame(e4);
      var e3 := LoadEntry(TableFrom(e4), IndexOf(E.Down30(va')));
      if !E.Has(e3, E.PRESENT) || E.Has(e3, E.LARGE) { return -1, 0; }
      TableFromFrame(e3);
      var e2 := LoadEntry(TableFrom(e3), IndexOf(E.Down21(va')));
      if !E.Has(e2, E.PRESENT) || E.Has(e2, E.LARGE) { return -1, 0; }
      TableFromFrame(e2);
      var e := LoadEntry(TableFrom(e2), IndexOf(E.Down12(va')));
      if !E.Has(e, E.PRESENT) { return -1, 0; }
      FrameAddressNumber(e);
      ZeroDecodes();
      StoreEntry(TableFrom(e2), IndexOf(E.Down12(va')), ZERO);
      return 0, AddressOf(FrameAddress(e));
    }

    method VmmTranslate(root: nat, va: u64) returns (physical: nat)
      requires Valid()
      ensures physical == V.Translate(Value(), root, va)
    {
      hide Ent, P.PageSet, PmmSpec.Valid, DecodeMemory, E.Has, E.Field, E.Value, IndexOf, AddressOf, WordOf, W.And,
           TableFrom, PageAddress, LargeAddress, HugeAddress;
      var va' := WordOf(va);
      Arguments(va, 0, Flags(false, false, false));
      var e4 := LoadEntry(root, IndexOf(E.Down39(va')));
      if !E.Has(e4, E.PRESENT) { return 0; }
      TableFromFrame(e4);
      var e3 := LoadEntry(TableFrom(e4), IndexOf(E.Down30(va')));
      if !E.Has(e3, E.PRESENT) { return 0; }
      HugeAddressNumber(e3, va');
      if E.Has(e3, E.LARGE) { return AddressOf(HugeAddress(e3, va')); }
      TableFromFrame(e3);
      var e2 := LoadEntry(TableFrom(e3), IndexOf(E.Down21(va')));
      if !E.Has(e2, E.PRESENT) { return 0; }
      LargeAddressNumber(e2, va');
      if E.Has(e2, E.LARGE) { return AddressOf(LargeAddress(e2, va')); }
      TableFromFrame(e2);
      var e1 := LoadEntry(TableFrom(e2), IndexOf(E.Down12(va')));
      if !E.Has(e1, E.PRESENT) { return 0; }
      PageAddressNumber(e1, va');
      return AddressOf(PageAddress(e1, va'));
    }

    // ---- Plain pages -----------------------------------------------------------------------

    /** Takes a page and fills it with zero bytes; 0 if none is left. */
    method AllocZeroed() returns (page: nat)
      requires Valid()
      modifies this`mem, pmm`freeCount, pmm.bitmap, pmm.heldBitmap
      ensures Valid()
      ensures var (s, p) := Alloc(old(Value()).pmm);
        if p.None? || p.value == 0 then page == 0 && Value() == old(Value()).(pmm := s)
        else page == p.value && Value() == Machine(s, old(Value()).mem[page := ZeroData()])
    {
      hide Alloc, P.PageSet, PmmSpec.Valid, DecodeMemory, ZeroData;
      var address := pmm.AllocPage();
      if address == 0 { return 0; }
      page := address / PAGE_SIZE;
      var bytes: seq<byte> := [];
      for j := 0 to PAGE_SIZE
        invariant |bytes| == j && forall i | 0 <= i < j :: bytes[i] == 0
      {
        bytes := bytes + [0];
      }
      ZeroDataIs(bytes);
      DecodeUpdate(mem, page, BytePage(bytes));
      mem := mem[page := BytePage(bytes)];
    }

    /** Copies source[from..from+count] into a data page at `at`. */
    method CopyIn(page: nat, at: nat, source: seq<byte>, from: nat, count: nat)
      requires Valid() && from + count <= |source|
      requires page in Value().mem && Value().mem[page].Data? && at + count <= |Value().mem[page].bytes|
      modifies this`mem
      ensures Valid()
      ensures var bytes := old(Value()).mem[page].bytes;
        Value() == Machine(old(Value()).pmm, old(Value()).mem[page := Data(Spliced(bytes, at, source, from, count))])
    {
      hide PmmSpec.Valid, P.PageSet, E.Decode;
      ghost var b, before := mem[page].bytes, mem;
      SplicedStep(b, at, source, from, 0);
      for j := 0 to count
        invariant page in mem && mem == before[page := BytePage(Spliced(b, at, source, from, j))]
      {
        SplicedStep(b, at, source, from, j);
        hide Spliced;
        var bytes := mem[page].bytes;
        mem := mem[page := BytePage(bytes[at + j := source[from + j]])];
      }
      DecodeUpdate(before, page, BytePage(Spliced(b, at, source, from, count)));
    }
  }

  /** `b` with source[from..from+count] written over it at `at`. */
  function Spliced(b: seq<byte>, at: nat, source: seq<byte>, from: nat, count: nat): (r: seq<byte>)
    requires at + count <= |b| && from + count <= |source|
    ensures |r| == |b|
  {
    b[..at] + source[from..from + count] + b[at + count..]
  }

  lemma SplicedStep(b: seq<byte>, at: nat, source: seq<byte>, from: nat, j: nat)
    requires at + j <= |b| && from + j <= |source|
    ensures j == 0 ==> Spliced(b, at, source, from, j) == b
    ensures at + j < |b| && from + j < |source| ==>
      Spliced(b, at, source, from, j)[at + j := source[from + j]] == Spliced(b, at, source, from, j + 1)
  {}

  function ZeroData(): Page { Data(seq(PAGE_SIZE, (i: nat) => 0)) }

  lemma ZeroDataIs(bytes: seq<byte>)
    requires |bytes| == PAGE_SIZE && forall i | 0 <= i < PAGE_SIZE :: bytes[i] == 0
    ensures DecodePage(BytePage(bytes)) == ZeroData()
  {}

  lemma AllocatedPage(s: State)
    requires PmmSpec.Valid(s) && s.pages < 0x1_0000_0000
    ensures Address(Alloc(s).1) <= U64_MAX && Address(Alloc(s).1) / PAGE_SIZE < FRAME_LIMIT
    ensures Alloc(s).1.Some? ==> Address(Alloc(s).1) / PAGE_SIZE == Alloc(s).1.value
  {
    AllocValid(s);
  }

  lemma KernelLink(p: nat)
    requires p < 0x1_0000_0000
    ensures E.Decode(E.LinkWord(WordOf(p * PAGE_SIZE), E.WRITABLE)) == Link(p, B.KERNEL_LINK)
  {
    hide E.Decode, E.LinkWord, WordOf;
    LinkDecodes(p * PAGE_SIZE, E.WRITABLE);
    assert E.FlagsOf(E.WRITABLE) == B.KERNEL_LINK;
  }

  /** What the words of the arguments mean. */
  lemma Arguments(va: u64, pa: u64, flags: Flags)
    ensures AddressOf(WordOf(va)) == va && AddressOf(WordOf(pa)) == pa && E.FlagsOf(FlagWord(flags)) == flags
    ensures W.And(WordOf(va), 0xFFF) == ZERO <==> va % PAGE_SIZE == 0
    ensures W.And(WordOf(pa), 0xFFF) == ZERO <==> pa % PAGE_SIZE == 0
    ensures var v := va / PAGE_SIZE; var w := WordOf(va);
      && IndexOf(E.Down39(w)) == Pml4Index(v) && IndexOf(E.Down30(w)) == PdptIndex(v)
      && IndexOf(E.Down21(w)) == PdIndex(v) && IndexOf(E.Down12(w)) == PtIndex(v)
  {
    hide AddressOf, WordOf, FlagWord, E.FlagsOf, W.And, IndexOf;
    WordOfAddress(va);
    WordOfAddress(pa);
    FlagWordMeans(flags);
    AlignedIff(WordOf(va));
    AlignedIff(WordOf(pa));
    WordIndices(WordOf(va));
  }

  /** An address-space structure; root 0 means it is not in use. */
  class AddressSpace {
    var pml4: nat

    constructor ()
      ensures pml4 == 0
    {
      pml4 := 0;
    }

    method Create(memory: Memory, cr3: nat) returns (code: int)
      requires memory.Valid()
      modifies this, memory`mem, memory.pmm`freeCount, memory.pmm.bitmap, memory.pmm.heldBitmap
      ensures memory.Valid()
      ensures var (m, p) := A.Create(old(memory.Value()), cr3);
        memory.Value() == m && code == (if p == 0 then -1 else 0) && pml4 == if p == 0 then old(pml4) else p
    {
      hide Alloc, Ent, SetEnt, P.PageSet, PmmSpec.Valid, DecodeMemory, E.Decode;
      AllocatedPage(memory.pmm.Value());
      var address := memory.pmm.AllocPage();
      if address == 0 { return -1; }
      var page := address / PAGE_SIZE;
      memory.ZeroPage(page);
      var e := memory.LoadEntry(cr3, 0);
      memory.StoreEntry(page, 0, e);
      pml4 := page;
      code := 0;
    }

    method MapUser(memory: Memory, va: u64, pa: u64, flags: Flags) returns (code: int)
      requires memory.Valid()
      modifies memory`mem, memory.pmm`freeCount, memory.pmm.bitmap, memory.pmm.heldBitmap
      ensures memory.Valid()
      ensures (memory.Value(), code) == A.MapUser(old(memory.Value()), pml4, va, pa, flags)
      ensures code == 0 ==>
        var t := Walks.ReachTable(old(memory.Value()), pml4, va / PAGE_SIZE, flags.(user := true)).1;
        IsWordTable(memory.mem, t) ==>
          AddressOf(Load(memory.mem, t, va / PAGE_SIZE % 512)) ==
            pa % 0x10_0000_0000_0000 + EntryWords.Bits(flags.writable, true, flags.nx)
    {
      hide Walks.ReachTable, Ent, SetEnt, P.PageSet, PmmSpec.Valid, DecodeMemory, E.Has, E.Field, E.Value,
           E.FlagsOf, E.UserLeafWord, IndexOf, AddressOf, WordOf, FlagWord, W.And, W.Or;
      var va', pa', flags' := WordOf(va), WordOf(pa), FlagWord(flags);
      var userFlags := W.Or(flags', E.USER);
      Arguments(va, pa, flags);
      UserAdded(flags');
      if W.And(va', 0xFFF) != ZERO || W.And(pa', 0xFFF) != ZERO
         || IndexOf(E.Down39(va')) != A.USER_PML4_INDEX || va >= A.USER_LIMIT { return -1; }
      var table := memory.ReachTable(pml4, va', userFlags);
      if table == 0 { return -1; }
      var e := memory.LoadEntry(table, IndexOf(E.Down12(va')));
      if E.Has(e, E.PRESENT) { return -2; }
      UserLeafDecodes(pa, flags');
      EntryWords.UserLeafNumber(pa, flags);
      memory.StoreEntry(table, IndexOf(E.Down12(va')), E.UserLeafWord(pa', flags'));
      code := 0;
    }

    method TranslateUser(memory: Memory, va: u64) returns (physical: Option<nat>)
      requires memory.Valid()
      ensures physical == A.TranslateUser(memory.Value(), pml4, va)
    {
      hide Ent, P.PageSet, PmmSpec.Valid, DecodeMemory, E.Has, E.Field, E.Value, IndexOf, AddressOf, WordOf, W.And,
           TableFrom, PageAddress, UserPresent;
      var va' := WordOf(va);
      Arguments(va, 0, Flags(false, false, false));
      if IndexOf(E.Down39(va')) != A.USER_PML4_INDEX || va >= A.USER_LIMIT { return None; }
      var e4 := memory.LoadEntry(pml4, IndexOf(E.Down39(va')));
      UserPresentMeans(e4);
      if !UserPresent(e4) { return None; }
      TableFromFrame(e4);
      var e3 := memory.LoadEntry(TableFrom(e4), IndexOf(E.Down30(va')));
      UserPresentMeans(e3);
      if !UserPresent(e3) { return None; }
      TableFromFrame(e3);
      var e2 := memory.LoadEntry(TableFrom(e3), IndexOf(E.Down21(va')));
      UserPresentMeans(e2);
      if !UserPresent(e2) { return None; }
      TableFromFrame(e2);
      var e1 := memory.LoadEntry(TableFrom(e2), IndexOf(E.Down12(va')));
      UserPresentMeans(e1);
      if !UserPresent(e1) { return None; }
      PageAddressNumber(e1, va');
      return Some(AddressOf(PageAddress(e1, va')));
    }

    method Destroy(memory: Memory)
      requires memory.Valid() && pml4 * PAGE_SIZE <= U64_MAX
      modifies this, memory.pmm`freeCount, memory.pmm.bitmap, memory.pmm.heldBitmap
      ensures memory.Valid() && pml4 == 0
      ensures memory.Value() == A.Destroy(old(memory.Value()), old(pml4))
    {
      if pml4 == 0 { return; }
      memory.pmm.FreePage(pml4 * PAGE_SIZE);
      pml4 := 0;
    }
  }
}
