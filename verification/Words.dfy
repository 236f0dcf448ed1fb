/** 64-bit machine words seen bit by bit.

    The operators are named so that proofs about whole words speak of bits and
    only the one-line lemmas below look inside a bit vector.  A shift by a
    count is the count-fold iteration of a shift by one. */
module Words {
  type Word = bv64

  const ZERO: Word := 0
  const ONE: Word := 1
  const ALL_ONES: Word := 0xFFFF_FFFF_FFFF_FFFF

  function And(a: Word, b: Word): Word { a & b }
  function Or(a: Word, b: Word): Word { a | b }
  function Not(a: Word): Word { !a }
  function Half(a: Word): Word { a >> 1 }
  function Double(a: Word): Word { a << 1 }
  function Pred(a: Word): Word { a - 1 }
  predicate Odd(a: Word) { a & 1 != 0 }

  function Shl(w: Word, n: nat): Word
    decreases n
  {
    if n == 0 then w else Double(Shl(w, n - 1))
  }

  /** Bit `i` of a word, least significant first. */
  predicate Bit(w: Word, i: nat)
    decreases i
  {
    if i == 0 then Odd(w) else Bit(Half(w), i - 1)
  }

  /** The positions of the set bits. */
  ghost function BitsOf(w: Word): set<nat> { set i: nat | i < 64 && Bit(w, i) }

  function LowBitsMask(count: nat): Word
  {
    if count == 0 then ZERO
    else if count >= 64 then ALL_ONES
    else Pred(Shl(ONE, count))
  }

  // ---- Bitwise operators -------------------------------------------------

  lemma AndHalf(a: Word, b: Word)
    ensures Half(And(a, b)) == And(Half(a), Half(b))
    ensures Odd(And(a, b)) == (Odd(a) && Odd(b))
  {}

  lemma {:induction false} BitAnd(a: Word, b: Word, i: nat)
    ensures Bit(And(a, b), i) == (Bit(a, i) && Bit(b, i))
    decreases i
  {
    AndHalf(a, b);
    if i > 0 { BitAnd(Half(a), Half(b), i - 1); }
  }

  lemma OrHalf(a: Word, b: Word)
    ensures Half(Or(a, b)) == Or(Half(a), Half(b))
    ensures Odd(Or(a, b)) == (Odd(a) || Odd(b))
  {}

  lemma {:induction false} BitOr(a: Word, b: Word, i: nat)
    ensures Bit(Or(a, b), i) == (Bit(a, i) || Bit(b, i))
    decreases i
  {
    OrHalf(a, b);
    if i > 0 { BitOr(Half(a), Half(b), i - 1); }
  }

  lemma ConstantHalves()
    ensures Half(ZERO) == ZERO && !Odd(ZERO)
    ensures Half(ONE) == ZERO && Odd(ONE)
  {}

  lemma {:induction false} BitZero(i: nat)
    ensures !Bit(ZERO, i)
  {
    ConstantHalves();
    if i > 0 { BitZero(i - 1); }
  }

  lemma BitOne(i: nat)
    ensures Bit(ONE, i) <==> i == 0
  {
    ConstantHalves();
    if i > 0 { BitZero(i - 1); }
  }

  lemma NotAnd(a: Word)
    ensures And(a, Not(a)) == ZERO
    ensures Or(a, Not(a)) == ALL_ONES
  {}

  // ---- Runs of ones ------------------------------------------------------

  /** A word of the form 2^k - 1. */
  predicate LowRun(w: Word) { w & (w + 1) == 0 }

  lemma LowRunHalf(w: Word)
    requires LowRun(w)
    ensures w == ZERO || Odd(w)
    ensures LowRun(Half(w))
  {}

  lemma {:induction false} LowRunBits(w: Word, n: nat, i: nat)
    requires LowRun(w) && Bit(w, n) && i <= n
    ensures Bit(w, i)
    decreases i
  {
    LowRunHalf(w);
    BitZero(n);
    if i > 0 { LowRunBits(Half(w), n - 1, i - 1); }
  }

  function Drop4(w: Word): Word { Half(Half(Half(Half(w)))) }

  lemma BitDrop4(w: Word, i: nat)
    ensures Bit(w, i + 4) == Bit(Drop4(w), i)
  {
    assert Bit(w, i + 4) == Bit(Half(Half(w)), i + 2);
  }

  function Drop16(w: Word): Word { Drop4(Drop4(Drop4(Drop4(w)))) }

  lemma BitDrop16(w: Word, i: nat)
    ensures Bit(w, i + 16) == Bit(Drop16(w), i)
  {
    BitDrop4(w, i + 12);
    BitDrop4(Drop4(w), i + 8);
    BitDrop4(Drop4(Drop4(w)), i + 4);
    BitDrop4(Drop4(Drop4(Drop4(w))), i);
  }

  lemma Drop16Ones()
    ensures Drop16(ALL_ONES) == 0xFFFF_FFFF_FFFF
    ensures Drop16(0xFFFF_FFFF_FFFF) == 0xFFFF_FFFF
    ensures Drop16(0xFFFF_FFFF) == 0xFFFF
    ensures Drop4(0xFFFF) == 0xFFF && Drop4(0xFFF) == 0xFF && Drop4(0xFF) == 0xF
    ensures Half(0xF) == 7 && Half(7) == 3 && Half(3) == ONE
  {}

  /** A word has 64 bits: the topmost one of the all-ones word is bit 63. */
  lemma TopBit()
    ensures Bit(ALL_ONES, 63)
  {
    Drop16Ones();
    BitDrop16(ALL_ONES, 47);
    BitDrop16(0xFFFF_FFFF_FFFF, 31);
    BitDrop16(0xFFFF_FFFF, 15);
    BitDrop4(0xFFFF, 11);
    BitDrop4(0xFFF, 7);
    BitDrop4(0xFF, 3);
    assert Bit(ONE, 0);
    assert Bit(3, 1);
    assert Bit(7, 2);
  }

  lemma LowRunConstants()
    ensures LowRun(ALL_ONES)
  {}

  lemma BitAllOnes(i: nat)
    requires i < 64
    ensures Bit(ALL_ONES, i)
  {
    TopBit();
    LowRunConstants();
    LowRunBits(ALL_ONES, 63, i);
  }

  lemma BitNot(a: Word, i: nat)
    requires i < 64
    ensures Bit(Not(a), i) <==> !Bit(a, i)
  {
    NotAnd(a);
    BitAnd(a, Not(a), i);
    BitOr(a, Not(a), i);
    BitZero(i);
    BitAllOnes(i);
  }

  // ---- Shifts and masks --------------------------------------------------

  lemma HalfDouble(w: Word)
    ensures Half(Double(w)) == And(w, Half(ALL_ONES))
    ensures !Odd(Double(w))
  {}

  lemma BitDouble(w: Word, i: nat)
    requires i < 64
    ensures Bit(Double(w), i) <==> i > 0 && Bit(w, i - 1)
  {
    HalfDouble(w);
    if i > 0 {
      BitAnd(w, Half(ALL_ONES), i - 1);
      BitAllOnes(i);
    }
  }

  lemma {:induction false} BitShl(w: Word, n: nat, i: nat)
    requires i < 64
    ensures Bit(Shl(w, n), i) <==> i >= n && Bit(w, i - n)
    decreases n
  {
    if n > 0 {
      BitDouble(Shl(w, n - 1), i);
      if i > 0 { BitShl(w, n - 1, i - 1); }
    }
  }

  lemma PredDouble(x: Word)
    ensures Pred(Double(x)) == Or(Double(Pred(x)), ONE)
    ensures Pred(ONE) == ZERO
  {}

  lemma {:induction false} BitPredPower(n: nat, i: nat)
    requires i < 64
    ensures Bit(Pred(Shl(ONE, n)), i) <==> i < n
    decreases n
  {
    if n == 0 {
      PredDouble(ONE);
      BitZero(i);
    } else {
      var x := Shl(ONE, n - 1);
      PredDouble(x);
      BitOr(Double(Pred(x)), ONE, i);
      BitOne(i);
      BitDouble(Pred(x), i);
      if i > 0 { BitPredPower(n - 1, i - 1); }
    }
  }

  /** The allocator's `(1 << count) - 1` selects exactly the low `count` bits. */
  lemma BitLowMask(count: nat, i: nat)
    requires i < 64
    ensures Bit(LowBitsMask(count), i) <==> i < count
  {
    BitZero(i);
    BitAllOnes(i);
    BitPredPower(count, i);
  }

  /** `1 << k` is the word whose only set bit is bit `k`. */
  lemma BitHot(k: nat, i: nat)
    requires i < 64
    ensures Bit(Shl(ONE, k), i) <==> i == k
  {
    BitShl(ONE, k, i);
    if i >= k { BitOne(i - k); }
  }

  // ---- Counting and finding set bits -------------------------------------

  function Shr(w: Word, n: nat): Word
    decreases n
  {
    if n == 0 then w else Shr(Half(w), n - 1)
  }

  lemma {:induction false} BitShr(w: Word, n: nat)
    ensures Odd(Shr(w, n)) == Bit(w, n)
    ensures Half(Shr(w, n)) == Shr(w, n + 1)
    decreases n
  {
    if n > 0 { BitShr(Half(w), n - 1); }
  }

  lemma ShrDrop16(w: Word, n: nat)
    ensures Shr(w, n + 16) == Shr(Drop16(w), n)
  {
    ShrDrop4(w, n + 12);
    ShrDrop4(Drop4(w), n + 8);
    ShrDrop4(Drop4(Drop4(w)), n + 4);
    ShrDrop4(Drop4(Drop4(Drop4(w))), n);
  }

  lemma ShrDrop4(w: Word, n: nat)
    ensures Shr(w, n + 4) == Shr(Drop4(w), n)
  {
    assert Shr(w, n + 4) == Shr(Half(Half(w)), n + 2);
  }

  lemma DropAll(w: Word)
    ensures Drop16(Drop16(Drop16(Drop16(w)))) == ZERO
  {}

  lemma HalfIsZero(w: Word)
    requires Half(w) == ZERO && !Odd(w)
    ensures w == ZERO
  {}

  lemma {:induction false} NoBitsUpTo(w: Word, n: nat)
    requires Shr(w, n) == ZERO
    requires forall i: nat | i < n :: !Bit(w, i)
    ensures w == ZERO
    decreases n
  {
    if n > 0 {
      assert !Bit(w, 0);
      forall i: nat | i < n - 1 ensures !Bit(Half(w), i) { assert !Bit(w, i + 1); }
      NoBitsUpTo(Half(w), n - 1);
      HalfIsZero(w);
    }
  }

  /** Only zero has no set bit among its 64. */
  lemma NoBits(w: Word)
    requires forall i: nat | i < 64 :: !Bit(w, i)
    ensures w == ZERO
  {
    ShrDrop16(w, 48);
    ShrDrop16(Drop16(w), 32);
    ShrDrop16(Drop16(Drop16(w)), 16);
    ShrDrop16(Drop16(Drop16(Drop16(w))), 0);
    DropAll(w);
    NoBitsUpTo(w, 64);
  }

  lemma ClearLowestOdd(w: Word)
    requires Odd(w)
    ensures Half(And(w, Pred(w))) == Half(w)
    ensures !Odd(And(w, Pred(w)))
  {}

  lemma ClearLowestEven(w: Word)
    requires !Odd(w)
    ensures Half(And(w, Pred(w))) == And(Half(w), Pred(Half(w)))
    ensures !Odd(And(w, Pred(w)))
  {}

  /** `w & (w - 1)` clears the lowest set bit and no other. */
  lemma {:induction false} BitClearLowest(w: Word, k: nat, i: nat)
    requires Bit(w, k) && forall j: nat | j < k :: !Bit(w, j)
    ensures Bit(And(w, Pred(w)), i) <==> Bit(w, i) && i != k
    decreases k
  {
    if k == 0 {
      ClearLowestOdd(w);
    } else {
      assert !Bit(w, 0);
      ClearLowestEven(w);
      forall j: nat | j < k - 1 ensures !Bit(Half(w), j) { assert !Bit(w, j + 1); }
      if i > 0 { BitClearLowest(Half(w), k - 1, i - 1); }
    }
  }

  lemma {:induction false} LowestBit(w: Word, n: nat) returns (k: nat)
    requires n < 64 && Bit(w, n)
    ensures k <= n && Bit(w, k) && forall j: nat | j < k :: !Bit(w, j)
    decreases n
  {
    if j: nat :| j < n && Bit(w, j) {
      k := LowestBit(w, j);
    } else {
      k := n;
    }
  }

  lemma ZeroHasNoBits()
    ensures BitsOf(ZERO) == {}
  {
    forall i: nat | i < 64 ensures !Bit(ZERO, i) { BitZero(i); }
  }

  /** Population count: the loop runs once per set bit. */
  method CountBits64(word: Word) returns (count: nat)
    ensures count == |BitsOf(word)|
  {
    var value := word;
    count := 0;
    while value != ZERO
      invariant count + |BitsOf(value)| == |BitsOf(word)|
      decreases |BitsOf(value)|
    {
      ghost var k := SomeLowestBit(value);
      ghost var rest := And(value, Pred(value));
      forall i: nat | i < 64 ensures i in BitsOf(rest) <==> i in BitsOf(value) && i != k {
        BitClearLowest(value, k, i);
      }
      assert BitsOf(rest) == BitsOf(value) - {k};
      value := And(value, Pred(value));
      count := count + 1;
    }
    ZeroHasNoBits();
  }

  lemma SomeLowestBit(w: Word) returns (k: nat)
    requires w != ZERO
    ensures k < 64 && Bit(w, k) && forall j: nat | j < k :: !Bit(w, j)
  {
    if forall i: nat | i < 64 :: !Bit(w, i) {
      NoBits(w);
      assert false;
    }
    var n: nat :| n < 64 && Bit(w, n);
    k := LowestBit(w, n);
  }

  /** Index of the lowest set bit; the source never passes zero. */
  method FirstSetBit64(word: Word) returns (bit: nat)
    requires word != ZERO
    ensures bit < 64 && Bit(word, bit)
    ensures forall j: nat | j < bit :: !Bit(word, j)
  {
    ghost var k := SomeLowestBit(word);
    var value := word;
    bit := 0;
    BitShr(word, 0);
    while !Odd(value)
      invariant bit <= k && value == Shr(word, bit) && Odd(value) == Bit(word, bit)
      decreases k - bit
    {
      BitShr(word, bit);
      value := Half(value);
      bit := bit + 1;
      BitShr(word, bit);
    }
  }
}
