/** Page-table words as numbers, in the bit places of the architecture (Intel SDM volume
    3A, section 4.5: 4-level paging): bit 0 present, 1 writable, 2 user, 7 large page,
    63 no-execute, and the frame number in bits 12 to 51. */
module EntryWords {
  import opened Bytes
  import opened Arithmetic
  import opened Words
  import opened PageTables
  import opened PageEntry
  import opened PageWords

  lemma MorePowers()
    ensures Pow2(0) == 1 && Pow2(1) == 2 && Pow2(2) == 4 && Pow2(7) == 0x80
    ensures Pow2(52) == 0x10_0000_0000_0000 && Pow2(63) == 0x8000_0000_0000_0000
  {
    Powers();
    assert Pow2(1) == 2 && Pow2(2) == 4 && Pow2(7) == 0x80;
    hide Pow2;
    PowerSum(12, 40);
    PowerSum(63, 1);
  }

  /** Bit `i` of a word is the i-th binary digit of its number. */
  lemma BitNumber(w: Word, i: nat)
    requires i < 64
    ensures Bit(w, i) <==> AddressOf(w) / Pow2(i) % 2 == 1
  {
    hide And, LowBitsMask, Shr, Odd;
    BitShr(w, i);
    MaskedShift(w, i, 1);
    MaskKeepsLow(Shr(w, i), 1);
    assert Pow2(1) == 2;
    assert Value(Half(Shr(w, i)), 0) == 0;
    hide Pow2;
  }

  function Top12(w: Word): Word { Drop4(Drop16(Drop16(Drop16(w)))) }

  lemma FlagBits(w: Word)
    ensures Has(w, PRESENT) == Bit(w, 0) && Has(w, WRITABLE) == Bit(w, 1) && Has(w, USER) == Bit(w, 2)
  {
    assert Bit(w, 2) == Odd(Half(Half(w)));
  }

  lemma LargeBit(w: Word)
    ensures Has(w, LARGE) == Bit(w, 7)
  {
    BitDrop4(w, 3);
    LargeOdd(w);
    hide Has, Drop4;
    assert Bit(Drop4(w), 3) == Bit(Half(Drop4(w)), 2);
  }

  lemma LargeOdd(w: Word)
    ensures Has(w, LARGE) == Odd(Half(Half(Half(Drop4(w)))))
  {}

  lemma NxOdd(w: Word)
    ensures Has(w, NX) == Odd(Half(Half(Half(Drop4(Drop4(Top12(w)))))))
  {}

  lemma TopShift(w: Word)
    ensures Shr(w, 52) == Top12(w)
  {
    hide Drop16, Drop4;
    ShrDrop16(w, 36);
    ShrDrop16(Drop16(w), 20);
    ShrDrop16(Drop16(Drop16(w)), 4);
    ShrDrop4(Drop16(Drop16(Drop16(w))), 0);
  }

  lemma NxBit(w: Word)
    ensures Has(w, NX) == Bit(w, 63)
  {
    hide Has, Top12, Drop4, Odd;
    BitShr(w, 63);
    ShrShr(w, 52, 11);
    TopShift(w);
    ShrDrop4(Top12(w), 7);
    ShrDrop4(Drop4(Top12(w)), 3);
    var x := Drop4(Drop4(Top12(w)));
    assert Shr(x, 3) == Half(Half(Half(x)));
    NxOdd(w);
  }

  /** What a word means to the processor. */
  lemma DecodeNumber(w: Word)
    ensures var n := AddressOf(w);
      Decode(w) == Entry(n % 2 == 1, n / 2 % 2 == 1, n / 4 % 2 == 1, n / 0x80 % 2 == 1,
                         n / 0x8000_0000_0000_0000 % 2 == 1, n / 0x1000 % 0x100_0000_0000)
  {
    hide Has, Bit, AddressOf, Field, Pow2, Value;
    MorePowers();
    Powers();
    FlagBits(w);
    LargeBit(w);
    NxBit(w);
    BitNumber(w, 0); BitNumber(w, 1); BitNumber(w, 2); BitNumber(w, 7); BitNumber(w, 63);
    FieldNumber(w);
    AddressIsValue(w);
  }

  // ---- The words that mapping stores ------------------------------------------------------------

  /** A word is its low 12 bits, its frame number and its high 12 bits. */
  lemma WordNumber(w: Word)
    ensures AddressOf(w) ==
      Value(And(w, 0xFFF), 12) + 0x1000 * Decode(w).frame + 0x10_0000_0000_0000 * Value(Top12(w), 12)
  {
    hide And, LowBitsMask, Value, Shr, Pow2, AddressOf, Decode, Top12;
    LowMasks();
    Powers();
    MorePowers();
    AddressIsValue(w);
    MaskKeepsLow(w, 12);
    ValueSplit(w, 12, 64);
    ValueSplit(Shr(w, 12), 40, 52);
    ShrShr(w, 12, 40);
    TopShift(w);
    FrameIsMiddle(w);
  }

  lemma FrameIsMiddle(w: Word)
    ensures Decode(w).frame == Value(Shr(w, 12), 40)
  {
    hide Has, Value, Shr, Pow2, And, LowBitsMask;
    FortyBits();
    Shr12(w);
    FieldIsMask(w);
    MaskKeepsLow(Shr(w, 12), 40);
  }

  lemma SmallValues()
    ensures Value(1, 12) == 1 && Value(3, 12) == 3 && Value(5, 12) == 5 && Value(7, 12) == 7
    ensures Value(0, 12) == 0 && Value(0x800, 12) == 0x800
  {
    ZeroNumber(12); ZeroNumber(11); ZeroNumber(10); ZeroNumber(9);
    assert Value(0x80, 8) == 0x80 && Value(0x8, 4) == 8;
  }

  function Bits(writable: bool, user: bool, nx: bool): nat {
    1 + (if writable then 2 else 0) + (if user then 4 else 0) + (if nx then 0x8000_0000_0000_0000 else 0)
  }

  lemma UserLeafParts(physical: Word, flags: Flags)
    ensures var w := UserLeafWord(physical, FlagWord(flags));
      && And(w, 0xFFF) == (if flags.writable then 7 else 5)
      && Top12(w) == (if flags.nx then 0x800 else 0)
  {}

  lemma KernelLeafParts(physical: Word, flags: Flags)
    ensures var w := KernelLeafWord(physical, FlagWord(flags));
      && And(w, 0xFFF) == (if flags.writable then (if flags.user then 7 else 3) else if flags.user then 5 else 1)
      && Top12(w) == (if flags.nx then 0x800 else 0)
  {}

  lemma LinkParts(page: Word, flags: Flags)
    ensures var w := LinkWord(page, FlagWord(flags));
      && And(w, 0xFFF) == (if flags.writable then (if flags.user then 7 else 3) else if flags.user then 5 else 1)
      && Top12(w) == 0
  {}

  lemma FrameNumber(pa: u64)
    requires pa % 0x1000 == 0
    ensures 0x1000 * (pa / 0x1000 % 0x100_0000_0000) == pa % 0x10_0000_0000_0000
  {}

  /** The word of a user page: the address below 2^52, present, user, and the rights. */
  lemma UserLeafNumber(pa: u64, flags: Flags)
    requires pa % 0x1000 == 0
    ensures AddressOf(UserLeafWord(WordOf(pa), FlagWord(flags))) ==
      pa % 0x10_0000_0000_0000 + Bits(flags.writable, true, flags.nx)
  {
    hide UserLeafWord, FlagWord, WordOf, Value, AddressOf, And, Top12, Decode;
    var w := UserLeafWord(WordOf(pa), FlagWord(flags));
    WordNumber(w);
    UserLeafParts(WordOf(pa), flags);
    UserLeafDecodes(pa, FlagWord(flags));
    SmallValues();
    FrameNumber(pa);
  }

  /** The word of a kernel page. */
  lemma KernelLeafNumber(pa: u64, flags: Flags)
    requires pa % 0x1000 == 0
    ensures AddressOf(KernelLeafWord(WordOf(pa), FlagWord(flags))) ==
      pa % 0x10_0000_0000_0000 + Bits(flags.writable, flags.user, flags.nx)
  {
    hide KernelLeafWord, FlagWord, WordOf, Value, AddressOf, And, Top12, Decode;
    var w := KernelLeafWord(WordOf(pa), FlagWord(flags));
    WordNumber(w);
    KernelLeafParts(WordOf(pa), flags);
    KernelLeafDecodes(pa, FlagWord(flags));
    SmallValues();
    FrameNumber(pa);
  }

  /** The word that links a table: never no-execute. */
  lemma LinkNumber(page: u64, flags: Flags)
    requires page % 0x1000 == 0 && page < 0x10_0000_0000_0000
    ensures AddressOf(LinkWord(WordOf(page), FlagWord(flags))) == page + Bits(flags.writable, flags.user, false)
  {
    hide LinkWord, FlagWord, WordOf, Value, AddressOf, And, Top12, Decode;
    var w := LinkWord(WordOf(page), FlagWord(flags));
    WordNumber(w);
    LinkParts(WordOf(page), flags);
    LinkDecodes(page, FlagWord(flags));
    SmallValues();
    FrameNumber(page);
  }
}
