/** Physical memory as the kernel sees it: tables of 512 words, addresses that are
    masked, shifted and joined.  Every word-level step is tied to the entry record,
    page number or index that the properties are stated about. */
module PageWords {
  import opened Bytes
  import opened Arithmetic
  import opened Words
  import opened PmmSpec
  import opened PageTables
  import opened Walks
  import opened PageEntry
  import A = AddressSpace
  import V = Vmm

  // ---- Numbers and words ---------------------------------------------------------------------

  function AddressOf(w: Word): nat { Value(w, 64) }

  function WordFrom(n: nat, k: nat): Word
    decreases k
  {
    if k == 0 then ZERO else Or(Double(WordFrom(n / 2, k - 1)), if n % 2 == 1 then ONE else ZERO)
  }

  /** The word that holds a 64-bit number. */
  function WordOf(n: u64): Word { WordFrom(n, 64) }

  lemma KeepLowBits(x: Word, b: Word, k: nat)
    requires k < 64 && Half(b) == ZERO
    ensures Value(Half(Or(Double(x), b)), k) == Value(x, k)
  {
    hide *;
    OrHalf(Double(x), b);
    HalfDouble(x);
    var y := And(x, Half(ALL_ONES));
    forall i: nat | i < k ensures Bit(Or(y, ZERO), i) == Bit(x, i) {
      BitOr(y, ZERO, i);
      BitZero(i);
      BitAnd(x, Half(ALL_ONES), i);
      BitAllOnes(i + 1);
      BitStep(ALL_ONES, i);
    }
    SameBits(Or(y, ZERO), x, k);
  }

  lemma BitStep(w: Word, i: nat)
    ensures Bit(w, i + 1) == Bit(Half(w), i)
  {}

  lemma OddJoin(x: Word, b: Word)
    ensures Odd(Or(Double(x), b)) == Odd(b)
  {
    OrHalf(Double(x), b);
    HalfDouble(x);
  }

  lemma {:induction false} WordFromValue(n: nat, k: nat)
    requires k <= 64 && n < Pow2(k)
    ensures Value(WordFrom(n, k), k) == n
    decreases k
  {
    if k > 0 {
      hide Or, Double, Half, Odd;
      WordFromValue(n / 2, k - 1);
      ConstantHalves();
      var x, b := WordFrom(n / 2, k - 1), if n % 2 == 1 then ONE else ZERO;
      KeepLowBits(x, b, k - 1);
      OddJoin(x, b);
    }
  }

  lemma {:induction false} PowerSum(a: nat, b: nat)
    ensures Pow2(a + b) == Pow2(a) * Pow2(b)
    decreases a
  {
    if a > 0 { PowerSum(a - 1, b); }
  }

  lemma Powers()
    ensures Pow2(9) == 0x200 && Pow2(12) == 0x1000 && Pow2(18) == 0x4_0000 && Pow2(21) == 0x20_0000
    ensures Pow2(30) == 0x4000_0000 && Pow2(39) == 0x80_0000_0000 && Pow2(40) == FRAME_LIMIT && Pow2(64) == WRAP64
  {
    assert Pow2(1) == 2;
    assert Pow2(3) == 8;
    hide Pow2;
    PowerSum(3, 3); PowerSum(6, 3); PowerSum(9, 3); PowerSum(9, 9); PowerSum(12, 9); PowerSum(12, 18);
    PowerSum(30, 9); PowerSum(39, 1); PowerSum(12, 12); PowerSum(40, 24);
  }

  lemma WordOfAddress(n: u64)
    ensures AddressOf(WordOf(n)) == n
  {
    Powers();
    WordFromValue(n, 64);
  }

  // ---- Low and high parts --------------------------------------------------------------------

  lemma {:induction false} ZeroNumber(n: nat)
    ensures Value(ZERO, n) == 0
  {
    ConstantHalves();
    if n > 0 { ZeroNumber(n - 1); }
  }

  lemma {:induction false} NumberZero(w: Word, n: nat)
    requires Value(w, n) == 0
    ensures forall i: nat | i < n :: !Bit(w, i)
    decreases n
  {
    hide Odd, Half;
    if n > 0 {
      NumberZero(Half(w), n - 1);
      forall i: nat | i < n ensures !Bit(w, i) {
        if i > 0 { assert !Bit(Half(w), i - 1); }
      }
    }
  }

  lemma LowMasks()
    ensures LowBitsMask(12) == 0xFFF && LowBitsMask(21) == 0x1F_FFFF && LowBitsMask(30) == 0x3FFF_FFFF
  {
    ShlUp4(ONE, 0); ShlUp4(ONE, 4); ShlUp4(ONE, 8); ShlUp4(ONE, 12); ShlUp4(ONE, 16); ShlUp4(ONE, 20); ShlUp4(ONE, 24);
    assert Shl(ONE, 12) == 0x1000 && Shl(ONE, 20) == 0x10_0000 && Shl(ONE, 28) == 0x1000_0000;
    assert Shl(ONE, 21) == Double(Shl(ONE, 20));
    assert Shl(ONE, 30) == Double(Double(Shl(ONE, 28)));
  }

  /** The low k bits of a word are the remainder of its number. */
  lemma LowPart(w: Word, k: nat)
    requires k <= 64
    ensures Value(And(w, LowBitsMask(k)), k) == Value(w, k) == AddressOf(w) % Pow2(k)
  {
    hide *;
    MaskKeepsLow(w, k);
    ValueSplit(w, k, 64);
    ValueBound(w, k);
    DivMod(Value(w, k), Pow2(k), Value(Shr(w, k), 64 - k));
    assert AddressOf(w) == Value(w, 64) by { AddressIsValue(w); }
  }

  lemma AddressIsValue(w: Word)
    ensures AddressOf(w) == Value(w, 64)
  {}

  lemma OffsetHasNoHigh(w: Word)
    ensures Down12(And(w, 0xFFF)) == ZERO
  {}

  /** `(address & 0xFFF) == 0` tests alignment. */
  lemma AlignedIff(w: Word)
    ensures And(w, 0xFFF) == ZERO <==> AddressOf(w) % PAGE_SIZE == 0
  {
    hide And, LowBitsMask, Value, Pow2, AddressOf, Shr, Down12;
    LowMasks();
    Powers();
    LowPart(w, 12);
    ZeroNumber(12);
    if AddressOf(w) % PAGE_SIZE == 0 {
      var x := And(w, 0xFFF);
      NumberZero(x, 12);
      Shr12(x);
      OffsetHasNoHigh(w);
      NoBitsUpTo(x, 12);
    }
  }

  lemma FieldShift(w: Word)
    ensures Half(Down39(Field(w))) == ZERO
  {}

  lemma FieldIsShort(w: Word)
    ensures Shr(Field(w), 40) == ZERO
  {
    hide Field, Down39, Half, Shr;
    IndexShifts(Field(w));
    BitShr(Field(w), 39);
    FieldShift(w);
  }

  lemma FieldValue(w: Word, n: nat)
    requires 40 <= n
    ensures Value(Field(w), n) == Decode(w).frame
  {
    hide Value, Shr, Field, Pow2;
    FieldIsShort(w);
    ValueSplit(Field(w), 40, n);
    ZeroNumber(n - 40);
  }

  /** A word with the low k bits of one address and the rest from elsewhere. */
  lemma Joined(r: Word, va: Word, k: nat)
    requires k <= 64 && And(r, LowBitsMask(k)) == And(va, LowBitsMask(k))
    ensures AddressOf(r) == AddressOf(va) % Pow2(k) + Pow2(k) * Value(Shr(r, k), 64 - k)
  {
    hide *;
    LowPart(r, k);
    LowPart(va, k);
    ValueSplit(r, k, 64);
    AddressIsValue(r);
  }

  /** The frame number shifted down by j bits. */
  lemma FrameShift(e: Word, j: nat)
    requires j <= 40
    ensures Value(Shr(Field(e), j), 52 - j) == Decode(e).frame / Pow2(j)
  {
    hide *;
    FieldValue(e, 52);
    ValueSplit(Field(e), j, 52);
    ValueBound(Field(e), j);
    DivMod(Value(Field(e), j), Pow2(j), Value(Shr(Field(e), j), 52 - j));
  }

  // ---- The addresses that translation joins ------------------------------------------------------

  function PageAddress(e: Word, va: Word): Word { Or(And(e, ENTRY_ADDR_MASK), And(va, 0xFFF)) }
  function LargeAddress(e: Word, va: Word): Word { Or(And(e, 0x000F_FFFF_FFE0_0000), And(va, 0x1F_FFFF)) }
  function HugeAddress(e: Word, va: Word): Word { Or(And(e, 0x000F_FFFF_C000_0000), And(va, 0x3FFF_FFFF)) }

  lemma PageParts(e: Word, va: Word)
    ensures And(PageAddress(e, va), 0xFFF) == And(va, 0xFFF) && Down12(PageAddress(e, va)) == Field(e)
  {}

  lemma LargeLow(e: Word, va: Word)
    ensures And(LargeAddress(e, va), 0x1F_FFFF) == And(va, 0x1F_FFFF)
  {}

  lemma Drop4Parts(a: Word, b: Word)
    ensures Drop4(Or(a, b)) == Or(Drop4(a), Drop4(b)) && Drop4(And(a, b)) == And(Drop4(a), Drop4(b))
  {
    hide And, Or, Half;
    OrHalf(a, b); AndHalf(a, b);
    OrHalf(Half(a), Half(b)); AndHalf(Half(a), Half(b));
    OrHalf(Half(Half(a)), Half(Half(b))); AndHalf(Half(Half(a)), Half(Half(b)));
    OrHalf(Half(Half(Half(a))), Half(Half(Half(b)))); AndHalf(Half(Half(Half(a))), Half(Half(Half(b))));
  }

  lemma Drop8Parts(a: Word, b: Word)
    ensures Drop4(Drop4(Or(a, b))) == Or(Drop4(Drop4(a)), Drop4(Drop4(b)))
    ensures Drop4(Drop4(And(a, b))) == And(Drop4(Drop4(a)), Drop4(Drop4(b)))
  {
    hide *;
    Drop4Parts(a, b);
    Drop4Parts(Drop4(a), Drop4(b));
  }

  lemma Shift12(a: Word, b: Word)
    ensures Down12(Or(a, b)) == Or(Down12(a), Down12(b)) && Down12(And(a, b)) == And(Down12(a), Down12(b))
  {
    hide *;
    TwelveHalves(a); TwelveHalves(b); TwelveHalves(Or(a, b)); TwelveHalves(And(a, b));
    Drop8Parts(a, b);
    Drop4Parts(Drop4(Drop4(a)), Drop4(Drop4(b)));
  }

  lemma Shift9(a: Word, b: Word)
    ensures Down9(Or(a, b)) == Or(Down9(a), Down9(b)) && Down9(And(a, b)) == And(Down9(a), Down9(b))
  {
    hide *;
    NineHalves(a); NineHalves(b); NineHalves(Or(a, b)); NineHalves(And(a, b));
    Drop8Parts(a, b);
    OrHalf(Drop4(Drop4(a)), Drop4(Drop4(b)));
    AndHalf(Drop4(Drop4(a)), Drop4(Drop4(b)));
  }

  lemma OrNothing(a: Word, b: Word)
    ensures Or(a, And(b, ZERO)) == a
  {}

  lemma LargeMasks()
    ensures Down9(Down12(0x000F_FFFF_FFE0_0000)) == Down9(0xFF_FFFF_FFFF) && Down9(Down12(0x1F_FFFF)) == ZERO
  {}

  lemma HugeMasks()
    ensures Down9(Down9(Down12(0x000F_FFFF_C000_0000))) == Down9(Down9(0xFF_FFFF_FFFF))
    ensures Down9(Down9(Down12(0x3FFF_FFFF))) == ZERO
  {}

  /** Shifting a masked join by 21 is shifting its parts and masks. */
  lemma JoinShift(e: Word, m: Word, va: Word, low: Word)
    ensures Down9(Down12(Or(And(e, m), And(va, low)))) ==
      Or(And(Down9(Down12(e)), Down9(Down12(m))), And(Down9(Down12(va)), Down9(Down12(low))))
  {
    hide *;
    Shift12(And(e, m), And(va, low));
    Shift12(e, m);
    Shift12(va, low);
    Shift9(And(Down12(e), Down12(m)), And(Down12(va), Down12(low)));
    Shift9(Down12(e), Down12(m));
    Shift9(Down12(va), Down12(low));
  }

  lemma LargeHigh(e: Word, va: Word)
    ensures Down21(LargeAddress(e, va)) == Down9(Field(e))
  {
    hide And, Or, Down9, Down12, Down21, Field;
    JoinShift(e, 0x000F_FFFF_FFE0_0000, va, 0x1F_FFFF);
    LargeMasks();
    OrNothing(And(Down9(Down12(e)), Down9(0xFF_FFFF_FFFF)), Down9(Down12(va)));
    FieldIsMask(e);
    Shift9(Down12(e), 0xFF_FFFF_FFFF);
    Shift21(LargeAddress(e, va));
  }

  lemma HugeLow(e: Word, va: Word)
    ensures And(HugeAddress(e, va), 0x3FFF_FFFF) == And(va, 0x3FFF_FFFF)
  {}

  lemma HugeHigh(e: Word, va: Word)
    ensures Down30(HugeAddress(e, va)) == Down9(Down9(Field(e)))
  {
    hide And, Or, Down9, Down12, Down21, Down30, Field;
    var m, low := 0x000F_FFFF_C000_0000, 0x3FFF_FFFF;
    var x, y := Down9(Down12(e)), Down9(Down12(va));
    JoinShift(e, m, va, low);
    Shift9(And(x, Down9(Down12(m))), And(y, Down9(Down12(low))));
    Shift9(x, Down9(Down12(m)));
    Shift9(y, Down9(Down12(low)));
    HugeMasks();
    OrNothing(And(Down9(x), Down9(Down9(0xFF_FFFF_FFFF))), Down9(y));
    FieldIsMask(e);
    Shift9(Down12(e), 0xFF_FFFF_FFFF);
    Shift9(x, Down9(0xFF_FFFF_FFFF));
    Shift21(HugeAddress(e, va));
    Shift30(HugeAddress(e, va));
  }

  /** A 4 KiB page: the frame's address with the page offset. */
  lemma PageAddressNumber(e: Word, va: Word)
    ensures AddressOf(PageAddress(e, va)) == Decode(e).frame * PAGE_SIZE + AddressOf(va) % PAGE_SIZE
  {
    hide And, LowBitsMask, Value, Pow2, AddressOf, Shr, Field, PageAddress, Down12, Decode;
    LowMasks();
    Powers();
    PageParts(e, va);
    Joined(PageAddress(e, va), va, 12);
    Shr12(PageAddress(e, va));
    FieldValue(e, 52);
  }

  lemma Shr18(w: Word)
    ensures Shr(w, 18) == Down9(Down9(w))
  {
    hide Shr, Down9;
    Shr9(w);
    Shr9(Down9(w));
    ShrShr(w, 9, 9);
  }

  /** A 2 MiB page. */
  lemma LargeAddressNumber(e: Word, va: Word)
    ensures AddressOf(LargeAddress(e, va)) == Decode(e).frame / 0x200 * 0x200 * PAGE_SIZE + AddressOf(va) % 0x20_0000
  {
    hide And, LowBitsMask, Value, Pow2, AddressOf, Shr, Field, LargeAddress, Down21, Down9, Decode;
    LowMasks();
    Powers();
    LargeLow(e, va);
    LargeHigh(e, va);
    Joined(LargeAddress(e, va), va, 21);
    IndexShifts(LargeAddress(e, va));
    Shr9(Field(e));
    FrameShift(e, 9);
  }

  /** A 1 GiB page. */
  lemma HugeAddressNumber(e: Word, va: Word)
    ensures AddressOf(HugeAddress(e, va)) ==
      Decode(e).frame / 0x4_0000 * 0x4_0000 * PAGE_SIZE + AddressOf(va) % 0x4000_0000
  {
    hide And, LowBitsMask, Value, Pow2, AddressOf, Shr, Field, HugeAddress, Down30, Down9, Decode;
    LowMasks();
    Powers();
    HugeLow(e, va);
    HugeHigh(e, va);
    Joined(HugeAddress(e, va), va, 30);
    IndexShifts(HugeAddress(e, va));
    Shr18(Field(e));
    FrameShift(e, 18);
  }

  /** The physical address an entry holds, `entry & ENTRY_ADDR_MASK`. */
  function FrameAddress(e: Word): Word { e & ENTRY_ADDR_MASK }

  lemma NoOffset(e: Word)
    ensures FrameAddress(e) == PageAddress(e, ZERO)
  {}

  lemma FrameAddressNumber(e: Word)
    ensures AddressOf(FrameAddress(e)) == Decode(e).frame * PAGE_SIZE
  {
    hide Value, FrameAddress, PageAddress, Decode;
    NoOffset(e);
    PageAddressNumber(e, ZERO);
    ZeroNumber(64);
  }

  /** The page of the table an entry points to. */
  function TableFrom(e: Word): nat { AddressOf(FrameAddress(e)) / PAGE_SIZE }

  lemma TableFromFrame(e: Word)
    ensures TableFrom(e) == Decode(e).frame
  {
    hide AddressOf, FrameAddress, Decode;
    FrameAddressNumber(e);
  }

  // ---- Indices ----------------------------------------------------------------------------------

  function IndexOf(w: Word): nat { Value(Low9(w), 9) }

  lemma TwoDivisions(x: nat)
    ensures x / PAGE_SIZE / 0x200 == x / 0x20_0000
    ensures x / PAGE_SIZE / 0x4_0000 == x / 0x4000_0000
    ensures x / PAGE_SIZE / 0x800_0000 == x / 0x80_0000_0000
  {}

  /** The four index functions of the source are those of the model. */
  lemma WordIndices(va: Word)
    ensures var v := AddressOf(va) / PAGE_SIZE;
      && IndexOf(Down39(va)) == Pml4Index(v) && IndexOf(Down30(va)) == PdptIndex(v)
      && IndexOf(Down21(va)) == PdIndex(v) && IndexOf(Down12(va)) == PtIndex(v)
  {
    hide Value, Pow2, Low9, Down12, Down21, Down30, Down39;
    Indices(va);
    Powers();
    TwoDivisions(AddressOf(va));
  }

  // ---- The words the kernel writes --------------------------------------------------------------

  lemma FrameOfAddress(n: u64)
    ensures Decode(WordOf(n)).frame == n / PAGE_SIZE % FRAME_LIMIT
  {
    hide Value, Pow2, WordOf, Field;
    FieldNumber(WordOf(n));
    WordOfAddress(n);
    Powers();
  }

  lemma LinkDecodes(address: u64, flags: Word)
    requires address / PAGE_SIZE < FRAME_LIMIT
    ensures Decode(LinkWord(WordOf(address), flags)) == Link(address / PAGE_SIZE, FlagsOf(flags))
  {
    hide LinkWord, Has, Field, WordOf, Value;
    DecodeLink(WordOf(address), flags);
    FrameOfAddress(address);
  }

  lemma UserLeafDecodes(pa: u64, flags: Word)
    ensures Decode(UserLeafWord(WordOf(pa), flags)) == A.LeafFor(pa, FlagsOf(flags))
  {
    hide UserLeafWord, Has, Field, WordOf, Value;
    DecodeUserLeaf(WordOf(pa), flags);
    FrameOfAddress(pa);
  }

  lemma KernelLeafDecodes(pa: u64, flags: Word)
    ensures Decode(KernelLeafWord(WordOf(pa), flags)) == V.LeafFor(pa, FlagsOf(flags))
  {
    hide KernelLeafWord, Has, Field, WordOf, Value;
    DecodeKernelLeaf(WordOf(pa), flags);
    FrameOfAddress(pa);
  }

  lemma ZeroDecodes()
    ensures Decode(ZERO) == NOT_PRESENT
  {
    assert Field(ZERO) == ZERO;
    ZeroNumber(40);
    hide Value;
  }

  /** The flag bits a caller passes. */
  function FlagWord(flags: Flags): Word {
    Or(if flags.writable then WRITABLE else ZERO,
       Or(if flags.user then USER else ZERO, if flags.nx then NX else ZERO))
  }

  lemma FlagWordMeans(flags: Flags)
    ensures FlagsOf(FlagWord(flags)) == flags
  {}

  lemma UserAdded(flags: Word)
    ensures FlagsOf(Or(flags, USER)) == FlagsOf(flags).(user := true)
  {}

  /** `(entry & (PRESENT | USER)) == (PRESENT | USER)`. */
  predicate UserPresent(e: Word) { And(e, Or(PRESENT, USER)) == Or(PRESENT, USER) }

  lemma UserPresentMeans(e: Word)
    ensures UserPresent(e) <==> Decode(e).present && Decode(e).user
  {
    hide Value, Field;
  }

  // ---- Memory ---------------------------------------------------------------------------------

  datatype WordPage = WordTable(words: seq<Word>) | BytePage(bytes: seq<byte>)

  function DecodePage(p: WordPage): Page {
    match p
    case WordTable(words) => Table(seq(|words|, i requires 0 <= i < |words| => Decode(words[i])))
    case BytePage(bytes) => Data(bytes)
  }

  function DecodeMemory(mem: map<nat, WordPage>): map<nat, Page> { map p | p in mem :: DecodePage(mem[p]) }

  lemma DecodeUpdate(mem: map<nat, WordPage>, p: nat, page: WordPage)
    ensures DecodeMemory(mem[p := page]) == DecodeMemory(mem)[p := DecodePage(page)]
  {
    hide DecodePage;
  }

  lemma DecodeWord(words: seq<Word>, i: nat, w: Word)
    requires i < |words|
    ensures DecodePage(WordTable(words)).entries[i] == Decode(words[i])
    ensures DecodePage(WordTable(words[i := w])) == Table(DecodePage(WordTable(words)).entries[i := Decode(w)])
  {
    hide Decode;
  }

  predicate IsWordTable(mem: map<nat, WordPage>, p: nat) {
    p in mem && mem[p].WordTable? && |mem[p].words| == ENTRIES
  }

  function Load(mem: map<nat, WordPage>, p: nat, i: nat): Word {
    if IsWordTable(mem, p) && i < ENTRIES then mem[p].words[i] else ZERO
  }

  function Store(mem: map<nat, WordPage>, p: nat, i: nat, w: Word): map<nat, WordPage> {
    if IsWordTable(mem, p) && i < ENTRIES then mem[p := WordTable(mem[p].words[i := w])] else mem
  }

  lemma LoadDecodes(pmm: State, mem: map<nat, WordPage>, p: nat, i: nat)
    ensures Decode(Load(mem, p, i)) == Ent(Machine(pmm, DecodeMemory(mem)), p, i)
  {
    hide Decode;
    ZeroDecodes();
    if IsWordTable(mem, p) && i < ENTRIES { DecodeWord(mem[p].words, i, ZERO); }
  }

  lemma StoreDecodes(pmm: State, mem: map<nat, WordPage>, p: nat, i: nat, w: Word)
    ensures Machine(pmm, DecodeMemory(Store(mem, p, i, w))) == SetEnt(Machine(pmm, DecodeMemory(mem)), p, i, Decode(w))
  {
    hide Decode;
    if IsWordTable(mem, p) && i < ENTRIES {
      DecodeWord(mem[p].words, i, w);
      DecodeUpdate(mem, p, WordTable(mem[p].words[i := w]));
    }
  }

  lemma ZeroTableDecodes(words: seq<Word>)
    requires |words| == ENTRIES && forall i | 0 <= i < ENTRIES :: words[i] == ZERO
    ensures DecodePage(WordTable(words)) == ZeroTable()
  {
    hide Decode;
    ZeroDecodes();
  }
}
