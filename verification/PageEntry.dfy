/** How 64-bit page-table words encode entries: every mask and shift the kernel
    applies to a word or an address, read as the fields and numbers the rest of
    the model works with. */
module PageEntry {
  import opened Words
  import opened PageTables
  import opened Arithmetic

  const PRESENT: Word := 0x1
  const WRITABLE: Word := 0x2
  const USER: Word := 0x4
  const LARGE: Word := 0x80
  const NX: Word := 0x8000_0000_0000_0000
  const ENTRY_ADDR_MASK: Word := 0x000F_FFFF_FFFF_F000

  // ---- Words as numbers --------------------------------------------------------------

  /** The number the lowest `n` bits denote. */
  function Value(w: Word, n: nat): nat
    decreases n
  {
    if n == 0 then 0 else (if Odd(w) then 1 else 0) + 2 * Value(Half(w), n - 1)
  }

  lemma {:induction false} ValueBound(w: Word, n: nat)
    ensures Value(w, n) < Pow2(n)
    decreases n
  {
    if n > 0 { ValueBound(Half(w), n - 1); }
  }

  lemma {:induction false} ValueSplit(w: Word, k: nat, n: nat)
    requires k <= n
    ensures Value(w, n) == Value(w, k) + Pow2(k) * Value(Shr(w, k), n - k)
    decreases k
  {
    if k > 0 {
      ValueSplit(Half(w), k - 1, n - 1);
      Doubled(Pow2(k - 1), Value(Shr(w, k), n - k));
    }
  }

  lemma Doubled(p: nat, v: nat)
    ensures (2 * p) * v == 2 * (p * v)
  {}

  lemma {:induction false} SameBits(u: Word, w: Word, n: nat)
    requires forall i: nat | i < n :: Bit(u, i) == Bit(w, i)
    ensures Value(u, n) == Value(w, n)
    decreases n
  {
    if n > 0 {
      assert Bit(u, 0) == Bit(w, 0);
      forall i: nat | i < n - 1 ensures Bit(Half(u), i) == Bit(Half(w), i) { assert Bit(u, i + 1) == Bit(w, i + 1); }
      SameBits(Half(u), Half(w), n - 1);
    }
  }

  lemma DivMod(low: nat, p: nat, high: nat)
    requires low < p
    ensures (low + p * high) / p == high && (low + p * high) % p == low
  {
    Unique(low + p * high, p, high, low);
  }

  /** `(w >> k) & ((1 << n) - 1)` is the number's digits k to k+n-1: a quotient
      and a remainder by powers of two. */
  lemma MaskedShift(w: Word, k: nat, n: nat)
    requires k + n <= 64
    ensures Value(And(Shr(w, k), LowBitsMask(n)), n) == Value(w, 64) / Pow2(k) % Pow2(n)
  {
    hide *;
    var x := Shr(w, k);
    MaskKeepsLow(x, n);
    ValueSplit(w, k, 64);
    ValueBound(w, k);
    DivMod(Value(w, k), Pow2(k), Value(x, 64 - k));
    ValueSplit(x, n, 64 - k);
    ValueBound(x, n);
    DivMod(Value(x, n), Pow2(n), Value(Shr(x, n), 64 - k - n));
  }

  lemma MaskKeepsLow(x: Word, n: nat)
    requires n <= 64
    ensures Value(And(x, LowBitsMask(n)), n) == Value(x, n)
  {
    hide *;
    forall i: nat | i < n ensures Bit(And(x, LowBitsMask(n)), i) == Bit(x, i) {
      BitAnd(x, LowBitsMask(n), i);
      BitLowMask(n, i);
    }
    SameBits(And(x, LowBitsMask(n)), x, n);
  }

  // ---- Constants of the source ------------------------------------------------------------

  function Up4(x: Word): Word { x << 4 }
  function Down9(x: Word): Word { x >> 9 }
  function Down12(x: Word): Word { x >> 12 }
  function Down21(x: Word): Word { x >> 21 }
  function Down30(x: Word): Word { x >> 30 }
  function Down39(x: Word): Word { x >> 39 }

  lemma FourDoubles(x: Word)
    ensures Double(Double(Double(Double(x)))) == Up4(x)
  {}

  lemma ShlUp4(w: Word, n: nat)
    ensures Shl(w, n + 4) == Up4(Shl(w, n))
  {
    hide Double, Up4;
    assert Shl(w, n + 2) == Double(Double(Shl(w, n)));
    assert Shl(w, n + 4) == Double(Double(Shl(w, n + 2)));
    FourDoubles(Shl(w, n));
  }

  lemma NineBits()
    ensures LowBitsMask(9) == 0x1FF
  {
    ShlUp4(ONE, 0);
    ShlUp4(ONE, 4);
    assert Shl(ONE, 8) == 0x100;
    assert Shl(ONE, 9) == Double(Shl(ONE, 8));
  }

  lemma FortyBits()
    ensures LowBitsMask(40) == 0xFF_FFFF_FFFF
  {
    ShlUp4(ONE, 0); ShlUp4(ONE, 4); ShlUp4(ONE, 8); ShlUp4(ONE, 12); ShlUp4(ONE, 16);
    ShlUp4(ONE, 20); ShlUp4(ONE, 24); ShlUp4(ONE, 28); ShlUp4(ONE, 32); ShlUp4(ONE, 36);
    assert Shl(ONE, 40) == 0x100_0000_0000;
  }

  lemma TwelveHalves(w: Word)
    ensures Drop4(Drop4(Drop4(w))) == Down12(w)
  {}

  lemma NineHalves(w: Word)
    ensures Half(Drop4(Drop4(w))) == Down9(w)
  {}

  lemma Shift21(va: Word)
    ensures Down9(Down12(va)) == Down21(va)
  {}

  lemma Shift30(va: Word)
    ensures Down9(Down21(va)) == Down30(va)
  {}

  lemma Shift39(va: Word)
    ensures Down9(Down30(va)) == Down39(va)
  {}

  lemma Shr12(w: Word)
    ensures Shr(w, 12) == Down12(w)
  {
    hide Drop4, Down12;
    ShrDrop4(w, 8);
    ShrDrop4(Drop4(w), 4);
    ShrDrop4(Drop4(Drop4(w)), 0);
    TwelveHalves(w);
  }

  lemma Shr9(w: Word)
    ensures Shr(w, 9) == Down9(w)
  {
    hide Drop4, Down9, Half;
    ShrDrop4(w, 5);
    ShrDrop4(Drop4(w), 1);
    assert Shr(Drop4(Drop4(w)), 1) == Half(Drop4(Drop4(w)));
    NineHalves(w);
  }

  lemma {:induction false} ShrShr(w: Word, k: nat, n: nat)
    ensures Shr(Shr(w, k), n) == Shr(w, k + n)
    decreases k
  {
    hide Half;
    if k > 0 { ShrShr(Half(w), k - 1, n); }
  }

  /** The shifts by 12, 21, 30 and 39 of the index functions. */
  lemma IndexShifts(va: Word)
    ensures Shr(va, 12) == Down12(va) && Shr(va, 21) == Down21(va)
    ensures Shr(va, 30) == Down30(va) && Shr(va, 39) == Down39(va)
  {
    hide *;
    Shr12(va);
    Shr9(Down12(va));
    Shr9(Down21(va));
    Shr9(Down30(va));
    ShrShr(va, 12, 9);
    ShrShr(va, 21, 9);
    ShrShr(va, 30, 9);
    Shift21(va);
    Shift30(va);
    Shift39(va);
  }

  /** The low nine bits, `x & 0x1FF`. */
  function Low9(x: Word): Word { x & 0x1FF }

  lemma Low9IsMask(x: Word)
    ensures Low9(x) == And(x, 0x1FF)
  {}

  /** The index functions: `(address >> s) & 0x1FF` is the quotient by 2^s modulo
      512. */
  lemma Indices(va: Word)
    ensures Value(Low9(Down12(va)), 9) == Value(va, 64) / Pow2(12) % Pow2(9)
    ensures Value(Low9(Down21(va)), 9) == Value(va, 64) / Pow2(21) % Pow2(9)
    ensures Value(Low9(Down30(va)), 9) == Value(va, 64) / Pow2(30) % Pow2(9)
    ensures Value(Low9(Down39(va)), 9) == Value(va, 64) / Pow2(39) % Pow2(9)
  {
    hide *;
    IndexShifts(va);
    NineBits();
    Low9IsMask(Down12(va));
    Low9IsMask(Down21(va));
    Low9IsMask(Down30(va));
    Low9IsMask(Down39(va));
    MaskedShift(va, 12, 9);
    MaskedShift(va, 21, 9);
    MaskedShift(va, 30, 9);
    MaskedShift(va, 39, 9);
  }

  // ---- Entries -------------------------------------------------------------------------------

  predicate Has(w: Word, flag: Word) { w & flag != 0 }

  /** Bits 12 to 51 of a word, moved down. */
  function Field(w: Word): Word { (w >> 12) & 0xFF_FFFF_FFFF }

  function Decode(w: Word): Entry {
    Entry(Has(w, PRESENT), Has(w, WRITABLE), Has(w, USER), Has(w, LARGE), Has(w, NX), Value(Field(w), 40))
  }

  function FlagsOf(w: Word): Flags { Flags(Has(w, WRITABLE), Has(w, USER), Has(w, NX)) }

  /** `entry | (flags & (WRITABLE | USER))`. */
  function OpenedWord(entry: Word, flags: Word): Word { entry | (flags & (WRITABLE | USER)) }

  /** `(page & ENTRY_ADDR_MASK) | PRESENT | (flags & (WRITABLE | USER))`. */
  function LinkWord(page: Word, flags: Word): Word {
    (page & ENTRY_ADDR_MASK) | PRESENT | (flags & (WRITABLE | USER))
  }

  /** `(physical & ENTRY_ADDR_MASK) | PRESENT | USER | (flags & (WRITABLE | NX))`. */
  function UserLeafWord(physical: Word, flags: Word): Word {
    (physical & ENTRY_ADDR_MASK) | PRESENT | USER | (flags & (WRITABLE | NX))
  }

  /** `(physical & ENTRY_ADDR_MASK) | PRESENT | (flags & (WRITABLE | USER | NX))`. */
  function KernelLeafWord(physical: Word, flags: Word): Word {
    (physical & ENTRY_ADDR_MASK) | PRESENT | (flags & (WRITABLE | USER | NX))
  }

  lemma OpenedField(entry: Word, flags: Word)
    ensures Field(OpenedWord(entry, flags)) == Field(entry)
  {}

  lemma OpenedPresent(entry: Word, flags: Word)
    ensures Has(OpenedWord(entry, flags), PRESENT) == Has(entry, PRESENT)
  {}

  lemma OpenedLarge(entry: Word, flags: Word)
    ensures Has(OpenedWord(entry, flags), LARGE) == Has(entry, LARGE)
  {}

  /** Opening touches bits 1 and 2 only. */
  lemma OpenedMask(entry: Word, flags: Word)
    ensures OpenedWord(entry, flags) & NX == entry & NX
  {}

  lemma OpenedNx(entry: Word, flags: Word)
    ensures Has(OpenedWord(entry, flags), NX) == Has(entry, NX)
  {
    hide OpenedWord;
    OpenedMask(entry, flags);
  }

  lemma OpenedRights(entry: Word, flags: Word)
    ensures var w := OpenedWord(entry, flags);
      && Has(w, WRITABLE) == (Has(entry, WRITABLE) || Has(flags, WRITABLE))
      && Has(w, USER) == (Has(entry, USER) || Has(flags, USER))
  {}

  /** The word stored for a widened link decodes to the widened entry. */
  lemma DecodeOpened(entry: Word, flags: Word)
    ensures Decode(OpenedWord(entry, flags)) == Opened(Decode(entry), FlagsOf(flags))
  {
    hide OpenedWord, Has, Field;
    OpenedField(entry, flags);
    OpenedPresent(entry, flags);
    OpenedLarge(entry, flags);
    OpenedNx(entry, flags);
    OpenedRights(entry, flags);
  }

  lemma LinkBits(page: Word, flags: Word)
    ensures var w := LinkWord(page, flags);
      && Field(w) == Field(page) && Has(w, PRESENT) && !Has(w, LARGE) && !Has(w, NX)
      && Has(w, WRITABLE) == Has(flags, WRITABLE) && Has(w, USER) == Has(flags, USER)
  {}

  lemma DecodeLink(page: Word, flags: Word)
    ensures Decode(LinkWord(page, flags)) == Link(Value(Field(page), 40), FlagsOf(flags))
  {
    hide LinkWord, Has, Field;
    LinkBits(page, flags);
  }

  lemma UserLeafBits(physical: Word, flags: Word)
    ensures var w := UserLeafWord(physical, flags);
      && Field(w) == Field(physical) && Has(w, PRESENT) && Has(w, USER) && !Has(w, LARGE)
      && Has(w, WRITABLE) == Has(flags, WRITABLE) && Has(w, NX) == Has(flags, NX)
  {}

  lemma DecodeUserLeaf(physical: Word, flags: Word)
    ensures Decode(UserLeafWord(physical, flags)) ==
      Entry(true, Has(flags, WRITABLE), true, false, Has(flags, NX), Value(Field(physical), 40))
  {
    hide UserLeafWord, Has, Field;
    UserLeafBits(physical, flags);
  }

  lemma KernelLeafBits(physical: Word, flags: Word)
    ensures var w := KernelLeafWord(physical, flags);
      && Field(w) == Field(physical) && Has(w, PRESENT) && !Has(w, LARGE)
      && Has(w, WRITABLE) == Has(flags, WRITABLE) && Has(w, USER) == Has(flags, USER) && Has(w, NX) == Has(flags, NX)
  {}

  lemma DecodeKernelLeaf(physical: Word, flags: Word)
    ensures Decode(KernelLeafWord(physical, flags)) ==
      Entry(true, Has(flags, WRITABLE), Has(flags, USER), false, Has(flags, NX), Value(Field(physical), 40))
  {
    hide KernelLeafWord, Has, Field;
    KernelLeafBits(physical, flags);
  }

  lemma FieldIsMask(w: Word)
    ensures Field(w) == And(Down12(w), 0xFF_FFFF_FFFF)
  {}

  /** The frame an entry holds for an address: its page number modulo 2^40. */
  lemma FieldNumber(w: Word)
    ensures Value(Field(w), 40) == Value(w, 64) / Pow2(12) % Pow2(40)
  {
    hide *;
    Shr12(w);
    FortyBits();
    FieldIsMask(w);
    MaskedShift(w, 12, 40);
  }
}
