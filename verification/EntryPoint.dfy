/** The entry point of a prepared process: always on a mapped page, but inside an
    executable segment only under the condition proved here. */
module EntryPoint {
  import opened Bytes
  import opened Arithmetic
  import opened PmmSpec
  import opened PageTables
  import opened Walks
  import opened Elf
  import opened ElfLoader
  import opened Loading
  import opened ProcessExec
  import A = AddressSpace

  /** The segment's PF_X flag. */
  predicate Executable(s: Segment) { s.flags % 2 == 1 }

  /** Segment `k` holds the entry point's page. */
  predicate HoldsEntry(image: seq<byte>, k: nat)
    requires ValidImage(image)
  {
    var h := HeaderOf(image);
    k < h.phnum && Covers(h, SegmentOf(image, h, k), EntryAddress(h) / PAGE_SIZE)
  }

  /** Exactly one segment of a loadable image holds the entry point's page. */
  lemma OneHoldsEntry(image: seq<byte>, m0: Machine, root: nat)
    requires Loadable(image, m0, root)
    ensures exists k: nat :: HoldsEntry(image, k)
    ensures forall j: nat, k: nat | HoldsEntry(image, j) && HoldsEntry(image, k) :: j == k
  {
    hide GoodHeader, HeaderOf, SegmentOf, Covers, EntryAddress, SegmentLoadable;
    var h := HeaderOf(image);
    var v := EntryAddress(h) / PAGE_SIZE;
    var k: nat :| k < h.phnum && Covers(h, SegmentOf(image, h, k), v);
    assert HoldsEntry(image, k);
    forall i: nat, j: nat | HoldsEntry(image, i) && HoldsEntry(image, j) ensures i == j {}
  }

  /** A prepared process can execute its entry page if and only if the one segment
      that holds that page is executable. */
  lemma EntryExecutableIff(g: Forest, root: nat, m1: Machine, m: Machine, image: seq<byte>, entry: nat,
                           imagePages: Placement, pages: Placement, tables: set<nat>, k: nat)
    requires Progressed(g, root, m1, m, pages, tables) && root in g.users
    requires Prepared(image, entry, imagePages, pages) && HoldsEntry(image, k)
    ensures !A.Effective(m, root, entry / PAGE_SIZE).nx <==> Executable(SegmentOf(image, HeaderOf(image), k))
  {
    hide Progressed, A.Effective, A.TranslateUser, Covers, EntryAddress, ByteAt, HeaderOf, SegmentOf, GoodHeader,
         ByteFor;
    PreparedSees(g, root, m1, m, image, entry, imagePages, pages, tables, k, entry);
  }

  // ---- The documented rule -----------------------------------------------------------------------

  predicate Contains(h: Header, s: Segment, a: nat) { Loads(s) && Start(h, s) <= a < Start(h, s) + s.memSize }

  /** The entry point falls inside an executable loaded segment. */
  ghost predicate EntryInCode(image: seq<byte>)
    requires ValidImage(image)
  {
    var h := HeaderOf(image);
    exists k: nat ::
      k < h.phnum && Executable(SegmentOf(image, h, k)) && Contains(h, SegmentOf(image, h, k), EntryAddress(h))
  }

  lemma ContainsCovers(h: Header, s: Segment, a: nat)
    requires Contains(h, s, a)
    ensures Covers(h, s, a / PAGE_SIZE)
  {
    hide Bias;
  }

  lemma BiasValue(h: Header)
    requires h.kind == TYPE_DYN
    ensures var page := h.entry / PAGE_SIZE * PAGE_SIZE;
      Bias(h) == if page <= A.USER_BASE then A.USER_BASE - page else WRAP64 + A.USER_BASE - page
  {
    var page := h.entry / PAGE_SIZE * PAGE_SIZE;
    if page <= A.USER_BASE {
      Unique(A.USER_BASE - page, WRAP64, 0, A.USER_BASE - page);
    } else {
      Unique(WRAP64 + A.USER_BASE - page, WRAP64, 0, WRAP64 + A.USER_BASE - page);
    }
  }

  /** Where a segment in user space reaches the entry page, the entry address does
      not wrap. */
  lemma EntryDoesNotWrap(h: Header, s: Segment)
    requires A.USER_BASE <= Start(h, s) <= A.USER_LIMIT && Covers(h, s, EntryAddress(h) / PAGE_SIZE)
    ensures EntryAddress(h) == Bias(h) + h.entry
  {
    hide Bias;
    if h.kind == TYPE_DYN { BiasValue(h); } else { assert Bias(h) == 0 by { NoBias(h); } }
  }

  lemma NoBias(h: Header)
    requires h.kind != TYPE_DYN
    ensures Bias(h) == 0
  {}

  /** A loadable image keeps the documented rule exactly if the segment that holds its
      entry page is executable and, in the numbers of the file, contains the entry
      point. */
  lemma EntryInCodeIff(image: seq<byte>, m0: Machine, root: nat, k: nat)
    requires Loadable(image, m0, root) && HoldsEntry(image, k)
    ensures var h := HeaderOf(image); var s := SegmentOf(image, h, k);
      EntryInCode(image) <==> Executable(s) && s.vaddr <= h.entry < s.vaddr + s.memSize
  {
    hide GoodHeader, HeaderOf, SegmentOf, Covers, EntryAddress, Bias, Loads;
    var h := HeaderOf(image);
    var s := SegmentOf(image, h, k);
    OneHoldsEntry(image, m0, root);
    assert SegmentLoadable(m0, root, h, s);
    CoversLoadsSome(h, s, EntryAddress(h) / PAGE_SIZE);
    EntryDoesNotWrap(h, s);
    if EntryInCode(image) {
      var j: nat :|
        j < h.phnum && Executable(SegmentOf(image, h, j)) && Contains(h, SegmentOf(image, h, j), EntryAddress(h));
      ContainsCovers(h, SegmentOf(image, h, j), EntryAddress(h));
      assert HoldsEntry(image, j);
    }
  }

  lemma CoversLoadsSome(h: Header, s: Segment, v: nat)
    requires Covers(h, s, v)
    ensures Loads(s)
  {}

  // ---- Images that break it ------------------------------------------------------------------------

  /** A header and one program header, with the entry point at the first user address:
      a readable page of zeros there, or 16 executable bytes further into the page. */
  function SmallImageByte(code: bool, i: nat): byte {
    if i == 0 then 0x7F else if i == 1 then 0x45 else if i == 2 then 0x4C else if i == 3 then 0x46
    else if i == 4 then 2 else if i == 5 then 1 else if i == 16 then 2 else if i == 18 then 62 else if i == 20 then 1
    else if i == 28 then 0x80 else if i == 32 then 64 else if i == 52 then 64 else if i == 54 then 56
    else if i == 56 then 1 else if i == 64 then 1 else if i == 68 then (if code then 5 else 4)
    else if i == 81 then (if code then 8 else 0) else if i == 84 then 0x80
    else if i == 104 then (if code then 0x10 else 0) else if i == 105 then (if code then 0 else 0x10) else 0
  }

  function SmallImage(code: bool): seq<byte> { seq<byte>(120, (i: nat) => SmallImageByte(code, i)) }

  function SmallSegment(code: bool): Segment {
    if code then Segment(PT_LOAD, 5, 0, A.USER_BASE + 0x800, 0, 0x10)
    else Segment(PT_LOAD, 4, 0, A.USER_BASE, 0, PAGE_SIZE)
  }

  lemma SmallImageBytes(code: bool)
    ensures |SmallImage(code)| == 120 && forall i: nat | i < 120 :: SmallImage(code)[i] == SmallImageByte(code, i)
  {
    hide SmallImageByte;
  }

  lemma Quad(code: bool, at: nat, n: nat)
    requires at + 4 <= 120
    requires n == (SmallImageByte(code, at) as int) + 0x100 * (SmallImageByte(code, at + 1) as int)
      + 0x1_0000 * (SmallImageByte(code, at + 2) as int) + 0x100_0000 * (SmallImageByte(code, at + 3) as int)
    ensures |SmallImage(code)| == 120 && Le32(SmallImage(code), at) == n
  {
    hide SmallImageByte, SmallImage;
    SmallImageBytes(code);
  }

  lemma Pair(code: bool, at: nat, n: nat)
    requires at + 2 <= 120 && n == (SmallImageByte(code, at) as int) + 0x100 * (SmallImageByte(code, at + 1) as int)
    ensures |SmallImage(code)| == 120 && Le16(SmallImage(code), at) == n
  {
    hide SmallImageByte, SmallImage;
    SmallImageBytes(code);
  }

  lemma SmallHeader(code: bool)
    ensures |SmallImage(code)| == 120 && GoodHeader(SmallImage(code))
    ensures HeaderOf(SmallImage(code)) == Header(TYPE_EXEC, A.USER_BASE, 64, 56, 1)
  {
    hide SmallImage, Le32, Le16;
    SmallImageBytes(code);
    Quad(code, 0, MAGIC); Quad(code, 20, 1); Quad(code, 24, 0); Quad(code, 28, 0x80); Quad(code, 32, 64);
    Quad(code, 36, 0); Pair(code, 16, TYPE_EXEC); Pair(code, 18, MACHINE_X86_64); Pair(code, 52, 64);
    Pair(code, 54, 56); Pair(code, 56, 1);
  }

  lemma SmallSegmentAt(code: bool)
    ensures |SmallImage(code)| == 120 && SegmentAt(SmallImage(code), 64) == SmallSegment(code)
  {
    hide SmallImage, Le32;
    Quad(code, 64, PT_LOAD); Quad(code, 68, if code then 5 else 4); Quad(code, 72, 0); Quad(code, 76, 0);
    Quad(code, 80, if code then 0x800 else 0); Quad(code, 84, 0x80); Quad(code, 96, 0); Quad(code, 100, 0);
    Quad(code, 104, if code then 0x10 else PAGE_SIZE); Quad(code, 108, 0);
  }

  lemma SmallFacts(code: bool)
    ensures ValidImage(SmallImage(code)) && HoldsEntry(SmallImage(code), 0)
    ensures HeaderOf(SmallImage(code)) == Header(TYPE_EXEC, A.USER_BASE, 64, 56, 1)
    ensures SegmentOf(SmallImage(code), HeaderOf(SmallImage(code)), 0) == SmallSegment(code)
    ensures forall v: nat :: Covers(HeaderOf(SmallImage(code)), SmallSegment(code), v) <==> v == A.USER_BASE / PAGE_SIZE
  {
    SmallHeader(code);
    SmallSegmentAt(code);
    hide SmallImage, GoodHeader, HeaderOf, SegmentAt;
    var image := SmallImage(code);
    var h := HeaderOf(image);
    assert SegmentOf(image, h, 0) == SmallSegment(code);
  }

  /** In an empty space either image can be prepared, and breaks the documented rule:
      one has no executable segment, the other an executable entry page that the entry
      point shares with the segment without lying in it. */
  lemma EntryOutsideCode(code: bool, m: Machine, root: nat)
    requires forall v | A.UserPage(v) :: Lookup(m, root, v) == None
    ensures Preparable(SmallImage(code), m, root) && HoldsEntry(SmallImage(code), 0)
    ensures Executable(SegmentOf(SmallImage(code), HeaderOf(SmallImage(code)), 0)) <==> code
    ensures !EntryInCode(SmallImage(code))
  {
    SmallFacts(code);
    hide SmallImage, GoodHeader, HeaderOf, SegmentOf, Lookup, Covers;
    var image := SmallImage(code);
    var h := HeaderOf(image);
    assert SegmentLoadable(m, root, h, SmallSegment(code));
    assert Covered(image, h, h.phnum, EntryAddress(h) / PAGE_SIZE);
    assert Loadable(image, m, root);
    EntryInCodeIff(image, m, root, 0);
  }
}
