/** The bitmap page allocator (the kernel's 256 MiB instance and the host test's
    64 MiB instance are the same code with another page count). */
module Pmm {
  import opened Bytes
  import opened Words
  import opened PmmSpec

  function WordCount(pages: nat): nat { (pages + 63) / 64 }

  ghost predicate PageBit(words: seq<Word>, p: nat)
    requires p / 64 < |words|
  {
    Bit(words[p / 64], p % 64)
  }

  /** The pages whose bit is set in a bitmap. */
  ghost function PageSet(words: seq<Word>, pages: nat): set<nat>
    requires |words| == WordCount(pages)
  {
    set p: nat | p < pages && PageBit(words, p)
  }

  /** What a bitmap update of the pages lo..hi-1 means, word by word and bit by
      bit: freeing makes a page unavailable exactly if it is reserved or held,
      reserving makes it unavailable and reserved, other pages keep their bits. */
  ghost predicate Updated(lo: nat, hi: nat, makeFree: bool,
                          u0: seq<Word>, r0: seq<Word>, h: seq<Word>,
                          u: seq<Word>, r: seq<Word>)
  {
    && |u0| == |r0| == |h| == |u| == |r|
    && (forall k: nat, i: nat | k < |u| && i < 64 ::
          Bit(u[k], i) == if lo <= 64 * k + i < hi
                          then (makeFree ==> Bit(r0[k], i) || Bit(h[k], i))
                          else Bit(u0[k], i))
    && (forall k: nat, i: nat | k < |r| && i < 64 ::
          Bit(r[k], i) == (Bit(r0[k], i) || (!makeFree && lo <= 64 * k + i < hi)))
  }

  /** One word of `Updated`: the mask selects the pages from..to-1. */
  lemma MaskedWord(mask: Word, k: nat, from: nat, to: nat, makeFree: bool, u: Word, r: Word, h: Word, i: nat)
    requires i < 64 && 64 * k <= from && to <= 64 * k + 64
    requires Bit(mask, i) <==> from <= 64 * k + i < to
    ensures makeFree ==>
      Bit(Or(And(u, Not(mask)), And(Or(r, h), mask)), i) ==
      if from <= 64 * k + i < to then Bit(r, i) || Bit(h, i) else Bit(u, i)
    ensures !makeFree ==>
      && Bit(Or(u, mask), i) == (Bit(u, i) || from <= 64 * k + i < to)
      && Bit(Or(r, mask), i) == (Bit(r, i) || from <= 64 * k + i < to)
  {
    hide *;
    if makeFree {
      BitOr(And(u, Not(mask)), And(Or(r, h), mask), i);
      BitAnd(u, Not(mask), i);
      BitNot(mask, i);
      BitAnd(Or(r, h), mask, i);
      BitOr(r, h, i);
    } else {
      BitOr(u, mask, i);
      BitOr(r, mask, i);
    }
  }

  lemma NothingUpdated(lo: nat, makeFree: bool, u: seq<Word>, r: seq<Word>, h: seq<Word>)
    requires |u| == |r| == |h|
    ensures Updated(lo, lo, makeFree, u, r, h, u, r)
  {}

  /** `Updated`, read page by page, is the set-of-pages specification. */
  lemma UpdatedPages(lo: nat, hi: nat, makeFree: bool, pages: nat,
                     u0: seq<Word>, r0: seq<Word>, h: seq<Word>, u: seq<Word>, r: seq<Word>)
    requires |u0| == WordCount(pages)
    requires Updated(lo, hi, makeFree, u0, r0, h, u, r)
    ensures forall p: nat | p < pages ::
      && (p in PageSet(u, pages) <==>
            if lo <= p < hi then (makeFree ==> p in PageSet(r0, pages) || p in PageSet(h, pages))
            else p in PageSet(u0, pages))
      && (p in PageSet(r, pages) <==> p in PageSet(r0, pages) || (!makeFree && lo <= p < hi))
  {
    hide Bit;
    forall p: nat | p < pages
      ensures p in PageSet(u, pages) <==>
            if lo <= p < hi then (makeFree ==> p in PageSet(r0, pages) || p in PageSet(h, pages))
            else p in PageSet(u0, pages)
      ensures p in PageSet(r, pages) <==> p in PageSet(r0, pages) || (!makeFree && lo <= p < hi)
    {
      var k, i := p / 64, p % 64;
      assert p == 64 * k + i && k < |u|;
    }
  }

  /** The pages the source computes from a clipped byte range are the pages
      wholly inside it. */
  lemma ClippedRange(start: nat, end: nat, pages: nat, p: nat)
    requires p < pages && start < end && start < pages * PAGE_SIZE
    ensures var stop := if end > pages * PAGE_SIZE then pages * PAGE_SIZE else end;
      (start + PAGE_SIZE - 1) / PAGE_SIZE <= p < stop / PAGE_SIZE <==> Within(p, start, end)
  {}

  lemma FirstWordMasks(first: nat, last: nat, i: nat)
    requires first < last && i < 64
    ensures first / 64 == (last - 1) / 64 ==>
      (Bit(Shl(LowBitsMask(last - first), first % 64), i) <==> first <= 64 * (first / 64) + i < last)
    ensures Bit(Shl(ALL_ONES, first % 64), i) <==> first <= 64 * (first / 64) + i
  {
    hide *;
    var k := first % 64;
    assert first == 64 * (first / 64) + k;
    BitShl(LowBitsMask(last - first), k, i);
    BitShl(ALL_ONES, k, i);
    if i >= k {
      BitLowMask(last - first, i - k);
      BitAllOnes(i - k);
    }
  }

  function LastWordMask(last: nat): Word {
    if last % 64 == 0 then ALL_ONES else LowBitsMask(last % 64)
  }

  lemma LastWordMaskBits(last: nat, i: nat)
    requires 0 < last && i < 64
    ensures Bit(LastWordMask(last), i) <==> 64 * ((last - 1) / 64) + i < last
  {
    hide Bit, LowBitsMask;
    BitLowMask(last % 64, i);
    BitAllOnes(i);
  }

  // ---- Counting free pages ---------------------------------------------------

  /** The bits of a word that stand for available pages. */
  function Available(word: Word, index: nat, pages: nat): Word {
    if index + 1 == WordCount(pages) && pages % 64 != 0
    then And(Not(word), LowBitsMask(pages % 64))
    else Not(word)
  }

  lemma AvailableBits(word: Word, index: nat, pages: nat, i: nat)
    requires index < WordCount(pages) && i < 64
    ensures Bit(Available(word, index, pages), i) <==> !Bit(word, i) && 64 * index + i < pages
  {
    hide Bit, And, Not, LowBitsMask;
    BitNot(word, i);
    BitAnd(Not(word), LowBitsMask(pages % 64), i);
    BitLowMask(pages % 64, i);
  }

  ghost predicate FreeBelow(words: seq<Word>, pages: nat, limit: nat, p: nat)
    requires |words| == WordCount(pages)
  {
    p < pages && p < limit && !PageBit(words, p)
  }

  ghost function FreeSet(words: seq<Word>, pages: nat, limit: nat): set<nat>
    requires |words| == WordCount(pages)
  {
    set p: nat | p < pages && FreeBelow(words, pages, limit, p)
  }

  ghost function Shifted(bits: set<nat>, base: nat): set<nat> { set i | i in bits :: base + i }

  lemma {:induction false} ShiftedSize(bits: set<nat>, base: nat)
    ensures |Shifted(bits, base)| == |bits|
  {
    if i :| i in bits {
      var rest := bits - {i};
      ShiftedSize(rest, base);
      forall p ensures p in Shifted(bits, base) <==> p in Shifted(rest, base) || p == base + i {
        if p in Shifted(bits, base) {
          var j :| j in bits && p == base + j;
          assert j == i || j in rest;
        }
      }
      assert Shifted(bits, base) == Shifted(rest, base) + {base + i};
    }
  }

  lemma FreeInWord(words: seq<Word>, pages: nat, k: nat, i: nat)
    requires |words| == WordCount(pages) && k < |words| && i < 64
    ensures 64 * k + i < pages && !PageBit(words, 64 * k + i) <==> Bit(Available(words[k], k, pages), i)
  {
    hide Bit, Available;
    AvailableBits(words[k], k, pages, i);
    assert (64 * k + i) / 64 == k && (64 * k + i) % 64 == i;
  }

  lemma CountWord(words: seq<Word>, pages: nat, k: nat)
    requires |words| == WordCount(pages) && k < |words|
    ensures |FreeSet(words, pages, 64 * k + 64)|
         == |FreeSet(words, pages, 64 * k)| + |BitsOf(Available(words[k], k, pages))|
  {
    hide Bit, Available, PageBit;
    var low, high := FreeSet(words, pages, 64 * k), FreeSet(words, pages, 64 * k + 64);
    var bits := BitsOf(Available(words[k], k, pages));
    ShiftedSize(bits, 64 * k);
    var here := Shifted(bits, 64 * k);
    forall p: nat ensures p in here <==> 64 * k <= p && p in high {
      if 64 * k <= p < 64 * k + 64 {
        var i := p - 64 * k;
        FreeInWord(words, pages, k, i);
        assert i in bits ==> 64 * k + i in here;
      }
    }
    assert high == low + here;
    assert low !! here;
  }

  // ---- Single pages ------------------------------------------------------------

  lemma SetBitInSet(words: seq<Word>, pages: nat, k: nat, i: nat)
    requires |words| == WordCount(pages) && k < |words| && i < 64 && 64 * k + i < pages
    ensures PageSet(words[k := Or(words[k], Shl(ONE, i))], pages) == PageSet(words, pages) + {64 * k + i}
  {
    hide Bit, Or, Shl;
    var changed := words[k := Or(words[k], Shl(ONE, i))];
    forall p: nat | p < pages ensures PageBit(changed, p) <==> PageBit(words, p) || p == 64 * k + i {
      BitOr(words[k], Shl(ONE, i), p % 64);
      BitHot(i, p % 64);
    }
  }

  lemma ClearBitInSet(words: seq<Word>, pages: nat, k: nat, i: nat)
    requires |words| == WordCount(pages) && k < |words| && i < 64
    ensures PageSet(words[k := And(words[k], Not(Shl(ONE, i)))], pages) == PageSet(words, pages) - {64 * k + i}
  {
    hide Bit, And, Not, Shl;
    var changed := words[k := And(words[k], Not(Shl(ONE, i)))];
    forall p: nat | p < pages ensures PageBit(changed, p) <==> PageBit(words, p) && p != 64 * k + i {
      BitAnd(words[k], Not(Shl(ONE, i)), p % 64);
      BitNot(Shl(ONE, i), p % 64);
      BitHot(i, p % 64);
    }
  }

  /** Testing a word against `1 << i` tests bit `i`. */
  lemma TestBit(w: Word, i: nat)
    requires i < 64
    ensures And(w, Shl(ONE, i)) != ZERO <==> Bit(w, i)
  {
    hide Bit, And, Shl;
    var masked := And(w, Shl(ONE, i));
    forall j: nat | j < 64 ensures Bit(masked, j) <==> j == i && Bit(w, i) {
      BitAnd(w, Shl(ONE, i), j);
      BitHot(i, j);
    }
    if !Bit(w, i) {
      NoBits(masked);
    } else {
      BitZero(i);
    }
  }

  lemma TestPage(words: seq<Word>, pages: nat, p: nat)
    requires |words| == WordCount(pages) && p < pages
    ensures And(words[p / 64], Shl(ONE, p % 64)) != ZERO <==> p in PageSet(words, pages)
  {
    hide Bit, And, Shl;
    TestBit(words[p / 64], p % 64);
    assert PageBit(words, p) <==> Bit(words[p / 64], p % 64);
  }

  /** A word without available bits has only unavailable pages. */
  lemma NothingInWord(words: seq<Word>, pages: nat, k: nat)
    requires |words| == WordCount(pages) && k < |words|
    requires Available(words[k], k, pages) == ZERO
    ensures forall p: nat | 64 * k <= p < 64 * k + 64 && p < pages :: p in PageSet(words, pages)
  {
    hide Bit, Available;
    forall p: nat | 64 * k <= p < 64 * k + 64 && p < pages ensures PageBit(words, p) {
      FreeInWord(words, pages, k, p - 64 * k);
      BitZero(p - 64 * k);
    }
  }

  /** The lowest available bit of the first word that has one is the lowest
      free page. */
  lemma LowestInWord(s: State, words: seq<Word>, k: nat, i: nat)
    requires |words| == WordCount(s.pages) && k < |words| && i < 64
    requires s.unavailable == PageSet(words, s.pages)
    requires forall p: nat | p < s.pages && p < 64 * k :: p in s.unavailable
    requires Bit(Available(words[k], k, s.pages), i)
    requires forall j: nat | j < i :: !Bit(Available(words[k], k, s.pages), j)
    ensures LowestFree(s, 0) == Some(64 * k + i)
  {
    hide Bit, Available;
    FreeInWord(words, s.pages, k, i);
    forall p: nat | p < 64 * k + i ensures p in s.unavailable {
      if p >= 64 * k {
        FreeInWord(words, s.pages, k, p - 64 * k);
        assert !Bit(Available(words[k], k, s.pages), p - 64 * k);
      }
    }
    var r := LowestFree(s, 0);
    assert 64 * k + i !in s.unavailable;
    assert r.Some? && !(r.value < 64 * k + i) && !(64 * k + i < r.value);
  }

  class Pmm {
    const pages: nat
    const bitmap: array<Word>
    const reservedBitmap: array<Word>
    const heldBitmap: array<Word>
    var pageCount: nat
    var freeCount: nat

    /** Static storage: every word is zero until the allocator is reset. */
    constructor (pages: nat)
      requires 0 < pages < 0x1_0000_0000
      ensures Shape() && this.pages == pages && fresh(bitmap) && fresh(reservedBitmap) && fresh(heldBitmap)
    {
      this.pages := pages;
      bitmap := new Word[WordCount(pages)](_ => ZERO);
      reservedBitmap := new Word[WordCount(pages)](_ => ZERO);
      heldBitmap := new Word[WordCount(pages)](_ => ZERO);
      pageCount, freeCount := 0, 0;
    }

    ghost predicate Shape()
    {
      && 0 < pages < 0x1_0000_0000
      && bitmap.Length == reservedBitmap.Length == heldBitmap.Length == WordCount(pages)
      && bitmap != reservedBitmap && bitmap != heldBitmap && reservedBitmap != heldBitmap
    }

    ghost function Value(): State
      reads this, bitmap, reservedBitmap, heldBitmap
      requires Shape()
    {
      State(pages, PageSet(bitmap[..], pages), PageSet(reservedBitmap[..], pages),
            PageSet(heldBitmap[..], pages), freeCount)
    }

    ghost predicate Valid()
      reads this, bitmap, reservedBitmap, heldBitmap
    {
      Shape() && PmmSpec.Valid(Value())
    }

    /** Updates the pages selected by `mask` in one word of the bitmaps. */
    method ApplyMask(word: nat, mask: Word, makeFree: bool, ghost from: nat, ghost to: nat,
                     ghost lo: nat, ghost u0: seq<Word>, ghost r0: seq<Word>)
      requires Shape() && word < bitmap.Length
      requires lo <= from <= to && 64 * word <= from && to <= 64 * word + 64
      requires forall i: nat | i < 64 :: Bit(mask, i) <==> from <= 64 * word + i < to
      requires Updated(lo, from, makeFree, u0, r0, heldBitmap[..], bitmap[..], reservedBitmap[..])
      modifies bitmap, reservedBitmap
      ensures Updated(lo, to, makeFree, u0, r0, heldBitmap[..], bitmap[..], reservedBitmap[..])
    {
      hide Bit, And, Or, Not;
      ghost var u, r, h := bitmap[word], reservedBitmap[word], heldBitmap[word];
      forall i: nat | i < 64
        ensures makeFree ==>
          Bit(Or(And(u, Not(mask)), And(Or(r, h), mask)), i) ==
          if from <= 64 * word + i < to then Bit(r, i) || Bit(h, i) else Bit(u, i)
        ensures !makeFree ==>
          && Bit(Or(u, mask), i) == (Bit(u, i) || from <= 64 * word + i < to)
          && Bit(Or(r, mask), i) == (Bit(r, i) || from <= 64 * word + i < to)
      {
        MaskedWord(mask, word, from, to, makeFree, u, r, h, i);
      }
      if makeFree {
        bitmap[word] := Or(And(bitmap[word], Not(mask)), And(Or(reservedBitmap[word], heldBitmap[word]), mask));
      } else {
        bitmap[word] := Or(bitmap[word], mask);
        reservedBitmap[word] := Or(reservedBitmap[word], mask);
      }
    }

    /** The same update for a whole word. */
    method ApplyWord(word: nat, makeFree: bool, ghost lo: nat, ghost u0: seq<Word>, ghost r0: seq<Word>)
      requires Shape() && word < bitmap.Length && lo <= 64 * word
      requires Updated(lo, 64 * word, makeFree, u0, r0, heldBitmap[..], bitmap[..], reservedBitmap[..])
      modifies bitmap, reservedBitmap
      ensures Updated(lo, 64 * word + 64, makeFree, u0, r0, heldBitmap[..], bitmap[..], reservedBitmap[..])
    {
      hide Bit, And, Or, Not;
      forall i: nat | i < 64
        ensures Bit(ALL_ONES, i)
        ensures Bit(Or(reservedBitmap[word], heldBitmap[word]), i)
             == (Bit(reservedBitmap[word], i) || Bit(heldBitmap[word], i))
      {
        BitAllOnes(i);
        BitOr(reservedBitmap[word], heldBitmap[word], i);
      }
      if makeFree {
        bitmap[word] := Or(reservedBitmap[word], heldBitmap[word]);
      } else {
        bitmap[word] := ALL_ONES;
        reservedBitmap[word] := ALL_ONES;
      }
    }

    /** The single-word, first-partial, whole-word and last-partial cases
        together update exactly the pages first..last-1, each once. */
    method SetPages(first: nat, last: nat, makeFree: bool)
      requires Shape() && first < last <= pages
      modifies bitmap, reservedBitmap
      ensures Updated(first, last, makeFree, old(bitmap[..]), old(reservedBitmap[..]),
                      heldBitmap[..], bitmap[..], reservedBitmap[..])
    {
      hide Bit, LowBitsMask, Shl, LastWordMask, Updated;
      ghost var u0, r0 := bitmap[..], reservedBitmap[..];
      NothingUpdated(first, makeFree, u0, r0, heldBitmap[..]);
      var firstWord, lastWord := first / 64, (last - 1) / 64;
      if firstWord == lastWord {
        var mask := Shl(LowBitsMask(last - first), first % 64);
        forall i: nat | i < 64 ensures Bit(mask, i) <==> first <= 64 * firstWord + i < last {
          FirstWordMasks(first, last, i);
        }
        ApplyMask(firstWord, mask, makeFree, first, last, first, u0, r0);
        return;
      }
      if first % 64 != 0 {
        var mask := Shl(ALL_ONES, first % 64);
        forall i: nat | i < 64 ensures Bit(mask, i) <==> first <= 64 * firstWord + i < 64 * firstWord + 64 {
          FirstWordMasks(first, last, i);
        }
        ApplyMask(firstWord, mask, makeFree, first, 64 * firstWord + 64, first, u0, r0);
        firstWord := firstWord + 1;
      }
      for word := firstWord to lastWord
        invariant Updated(first, 64 * word, makeFree, u0, r0, heldBitmap[..], bitmap[..], reservedBitmap[..])
      {
        ApplyWord(word, makeFree, first, u0, r0);
      }
      var mask := LastWordMask(last);
      forall i: nat | i < 64 ensures Bit(mask, i) <==> 64 * lastWord <= 64 * lastWord + i < last {
        LastWordMaskBits(last, i);
      }
      ApplyMask(lastWord, mask, makeFree, 64 * lastWord, last, first, u0, r0);
    }

    /** For every byte range: exactly the pages wholly inside the range, clipped
        to the managed memory, change. */
    method SetRangeBits(start: u64, end: u64, makeFree: bool)
      requires Shape()
      modifies bitmap, reservedBitmap
      ensures var s := old(Value()); var range := PagesWithin(start, end, pages);
        Value() == if makeFree
                   then s.(unavailable := (s.unavailable - range) + (range * (s.reserved + s.held)))
                   else s.(unavailable := s.unavailable + range, reserved := s.reserved + range)
    {
      ghost var s, range := Value(), PagesWithin(start, end, pages);
      var maxAddress := pages * PAGE_SIZE;
      if start >= maxAddress || end <= start {
        assert range == {};
        return;
      }
      var stop := if end > maxAddress then maxAddress else end;
      var first, last := (start + PAGE_SIZE - 1) / PAGE_SIZE, stop / PAGE_SIZE;
      forall p: nat | p < pages ensures p in range <==> first <= p < last {
        ClippedRange(start, end, pages, p);
      }
      if last <= first {
        assert range == {};
        return;
      }
      ghost var u0, r0 := bitmap[..], reservedBitmap[..];
      SetPages(first, last, makeFree);
      UpdatedPages(first, last, makeFree, pages, u0, r0, heldBitmap[..], bitmap[..], reservedBitmap[..]);
      if makeFree {
        assert PageSet(bitmap[..], pages) == (s.unavailable - range) + (range * (s.reserved + s.held));
        assert PageSet(reservedBitmap[..], pages) == s.reserved;
      } else {
        assert PageSet(bitmap[..], pages) == s.unavailable + range;
        assert PageSet(reservedBitmap[..], pages) == s.reserved + range;
      }
    }

    method RecomputeFreeCount()
      requires Shape()
      modifies this`freeCount
      ensures Value() == Counted(old(Value()))
    {
      hide Bit, And, Not, LowBitsMask;
      var count := 0;
      for word := 0 to bitmap.Length
        invariant count == |FreeSet(bitmap[..], pages, 64 * word)|
      {
        CountWord(bitmap[..], pages, word);
        var bits := CountBits64(Available(bitmap[word], word, pages));
        count := count + bits;
      }
      freeCount := count;
      assert FreeSet(bitmap[..], pages, 64 * bitmap.Length) == FreePages(Value());
      assert FreePages(Value()) == FreePages(old(Value()));
    }

    method Reset()
      requires Shape()
      modifies this, bitmap, reservedBitmap, heldBitmap
      ensures Value() == PmmSpec.Reset(old(Value())) && pageCount == pages
    {
      hide Bit;
      for i := 0 to bitmap.Length
        invariant forall k | 0 <= k < i ::
          bitmap[k] == ALL_ONES && reservedBitmap[k] == ZERO && heldBitmap[k] == ZERO
      {
        bitmap[i], reservedBitmap[i], heldBitmap[i] := ALL_ONES, ZERO, ZERO;
      }
      pageCount := pages;
      freeCount := 0;
      forall p: nat | p < pages
        ensures PageBit(bitmap[..], p) && !PageBit(reservedBitmap[..], p) && !PageBit(heldBitmap[..], p)
      {
        BitAllOnes(p % 64);
        BitZero(p % 64);
      }
      assert PageSet(bitmap[..], pages) == AllPages(pages);
    }

    method AddUsableRange(start: u64, end: u64)
      requires Valid()
      modifies this`freeCount, bitmap, reservedBitmap
      ensures Valid() && Value() == AddUsable(old(Value()), start, end)
    {
      SetRangeBits(start, end, true);
      RecomputeFreeCount();
      AddUsableValid(old(Value()), start, end);
    }

    method ReserveRange(start: u64, end: u64)
      requires Valid()
      modifies this`freeCount, bitmap, reservedBitmap
      ensures Valid() && Value() == Reserve(old(Value()), start, end)
    {
      SetRangeBits(start, end, false);
      RecomputeFreeCount();
      ReserveValid(old(Value()), start, end);
    }

    method Init(start: u64, end: u64)
      requires Shape()
      modifies this, bitmap, reservedBitmap, heldBitmap
      ensures Valid() && Value() == PmmSpec.Init(old(Value()), start, end)
    {
      Reset();
      ResetValid(old(Value()));
      ghost var s := Value();
      SetRangeBits(start, end, true);
      RecomputeFreeCount();
      AddUsableValid(s, start, end);
    }

    method MarkHeld(word: nat, bit: nat)
      requires Shape() && word < bitmap.Length && bit < 64 && 64 * word + bit < pages
      modifies this`freeCount, bitmap, heldBitmap
      ensures Value() == Take(old(Value()), 64 * word + bit)
    {
      hide Bit, Or, Shl, PageSet;
      SetBitInSet(bitmap[..], pages, word, bit);
      SetBitInSet(heldBitmap[..], pages, word, bit);
      ghost var u, h := bitmap[..], heldBitmap[..];
      bitmap[word] := Or(bitmap[word], Shl(ONE, bit));
      heldBitmap[word] := Or(heldBitmap[word], Shl(ONE, bit));
      assert bitmap[..] == u[word := bitmap[word]] && heldBitmap[..] == h[word := heldBitmap[word]];
      if freeCount != 0 { freeCount := freeCount - 1; }
    }

    /** Hands out the lowest available page. */
    method AllocPage() returns (address: nat)
      requires Valid()
      modifies this`freeCount, bitmap, heldBitmap
      ensures Valid()
      ensures var (s, page) := Alloc(old(Value())); Value() == s && address == Address(page)
    {
      hide Bit, And, Not, LowBitsMask, Available, PageSet, FreePages;
      ghost var s, u := Value(), bitmap[..];
      AllocValid(s);
      for word := 0 to bitmap.Length
        invariant unchanged(this, bitmap, heldBitmap) && bitmap[..] == u
        invariant forall p: nat | p < pages && p < 64 * word :: p in s.unavailable
      {
        var available := Available(bitmap[word], word, pages);
        if available != ZERO {
          var bit := FirstSetBit64(available);
          assert u[word] == bitmap[word];
          LowestInWord(s, u, word, bit);
          var index := word * 64 + bit;
          MarkHeld(word, bit);
          return index * PAGE_SIZE;
        }
        assert u[word] == bitmap[word];
        NothingInWord(u, pages, word);
      }
      assert LowestFree(s, 0).None?;
      address := 0;
    }

    /** Takes a page back if it is one this allocator handed out. */
    method FreePage(address: u64)
      requires Valid()
      modifies this`freeCount, bitmap, heldBitmap
      ensures Valid() && Value() == Free(old(Value()), address)
    {
      hide Bit, And, Or, Not, LowBitsMask, Shl, Available, PageSet;
      FreeValid(Value(), address);
      if address % PAGE_SIZE != 0 { return; }
      var index := address / PAGE_SIZE;
      if index >= pages { return; }
      var word, bit := index / 64, index % 64;
      var mask := Shl(ONE, bit);
      TestPage(heldBitmap[..], pages, index);
      TestPage(reservedBitmap[..], pages, index);
      ghost var u, h := bitmap[..], heldBitmap[..];
      if And(heldBitmap[word], mask) == ZERO { return; }
      ClearBitInSet(h, pages, word, bit);
      heldBitmap[word] := And(heldBitmap[word], Not(mask));
      assert heldBitmap[..] == h[word := heldBitmap[word]];
      if And(reservedBitmap[word], mask) != ZERO { return; }
      ClearBitInSet(u, pages, word, bit);
      bitmap[word] := And(bitmap[word], Not(mask));
      assert bitmap[..] == u[word := bitmap[word]];
      freeCount := freeCount + 1;
    }
  }
}
