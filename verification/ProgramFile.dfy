/** A loaded program in terms of the bytes of its file alone: which files are accepted,
    and where each byte and right of a prepared process comes from (System V gABI,
    chapters 4 and 5). */
module ProgramFile {
  import opened Bytes
  import opened Arithmetic
  import opened PmmSpec
  import opened PageTables
  import opened Elf
  import opened ElfLoader
  import opened Loading
  import opened ProcessExec
  import A = AddressSpace

  function Strided(start: nat, i: nat, stride: nat): nat { start + i * stride }

  /** Where the i-th program header starts. */
  function HeaderAt(image: seq<byte>, i: nat): nat
    requires |image| >= 64
  {
    Strided(Le64(image, 32), i, Le16(image, 54))
  }

  /** A loadable segment's file bytes (offset at byte 8 of its header, size at byte 32)
      fit in its memory (size at byte 40) and in the file. */
  predicate SegmentOk(image: seq<byte>, at: nat)
    requires at + 56 <= |image|
  {
    Le32(image, at) == 1 ==>
      && Le64(image, at + 32) <= Le64(image, at + 40)
      && Le64(image, at + 8) + Le64(image, at + 32) <= |image|
  }

  /** The program headers lie in the file. */
  predicate TableOk(image: seq<byte>)
    requires |image| >= 64
  {
    Le16(image, 54) >= 56 && (Le16(image, 56) == 0 || HeaderAt(image, Le16(image, 56)) <= |image|)
  }

  lemma HeaderInFile(image: seq<byte>, i: nat)
    requires |image| >= 64 && TableOk(image) && i < Le16(image, 56)
    ensures HeaderAt(image, i) + 56 <= |image|
  {
    hide Le64, Le16;
    var n, size := Le16(image, 56), Le16(image, 54);
    assert n * size >= i * size + size by { Gap(n, i, size); }
  }

  lemma MagicBytes(image: seq<byte>)
    requires |image| >= 4
    ensures Le32(image, 0) == 0x464C_457F <==>
      image[0] == 0x7F && image[1] == 0x45 && image[2] == 0x4C && image[3] == 0x46
  {}

  lemma ShortBytes(image: seq<byte>, at: nat, low: byte)
    requires at + 2 <= |image|
    ensures Le16(image, at) == low <==> image[at] == low && image[at + 1] == 0
  {}

  lemma OneBytes(image: seq<byte>, at: nat)
    requires at + 4 <= |image|
    ensures Le32(image, at) == 1 <==>
      image[at] == 1 && image[at + 1] == 0 && image[at + 2] == 0 && image[at + 3] == 0
  {}

  /** The identification bytes and the fixed fields of the file header. */
  predicate HeaderBytes(image: seq<byte>)
    requires |image| >= 64
  {
    && image[0] == 0x7F && image[1] == 0x45 && image[2] == 0x4C && image[3] == 0x46
    && image[4] == 2 && image[5] == 1
    && (image[16] == 2 || image[16] == 3) && image[17] == 0
    && image[18] == 0x3E && image[19] == 0
    && image[20] == 1 && image[21] == 0 && image[22] == 0 && image[23] == 0
    && Le16(image, 52) >= 64 && Le16(image, 54) >= 56
  }

  lemma HeaderIsBytes(image: seq<byte>)
    requires |image| >= 64
    ensures GoodHeader(image) <==> HeaderBytes(image)
  {
    hide Le32, Le16;
    MagicBytes(image);
    OneBytes(image, 20);
    ShortBytes(image, 16, 2);
    ShortBytes(image, 16, 3);
    ShortBytes(image, 18, 0x3E);
  }

  /** Header `i` is where the loader finds it, and has the fields it reads. */
  lemma SegmentFields(image: seq<byte>, i: nat)
    requires |image| >= 64 && TableOk(image) && i < Le16(image, 56)
    ensures TableFits(image, HeaderOf(image)) && i < HeaderOf(image).phnum
    ensures var at := HeaderAt(image, i); var s := SegmentOf(image, HeaderOf(image), i);
      && at + 56 <= |image|
      && s.kind == Le32(image, at) && s.flags == Le32(image, at + 4) && s.offset == Le64(image, at + 8)
      && s.vaddr == Le64(image, at + 16) && s.fileSize == Le64(image, at + 32) && s.memSize == Le64(image, at + 40)
  {
    hide Le64, Le32, Le16;
    HeaderInFile(image, i);
  }

  /** Exactly the files that validation accepts. */
  lemma AcceptedIff(image: seq<byte>)
    ensures ValidImage(image) <==>
      && |image| >= 64 && HeaderBytes(image) && TableOk(image)
      && (forall i: nat | i < Le16(image, 56) ::
            HeaderAt(image, i) + 56 <= |image| && SegmentOk(image, HeaderAt(image, i)))
  {
    hide Le64, Le32, Le16, GoodHeader, SegmentOf, HeaderAt;
    if |image| >= 64 {
      HeaderIsBytes(image);
      SameTable(image);
      if TableOk(image) {
        forall i: nat | i < Le16(image, 56)
          ensures HeaderAt(image, i) + 56 <= |image|
          ensures SegmentFits(image, SegmentOf(image, HeaderOf(image), i)) <==> SegmentOk(image, HeaderAt(image, i))
        {
          SegmentFields(image, i);
        }
      }
    }
  }

  lemma SameTable(image: seq<byte>)
    requires |image| >= 64
    ensures TableFits(image, HeaderOf(image)) <==> TableOk(image)
  {
    hide Le64, Le16;
  }

  // ---- The prepared process -----------------------------------------------------------------------

  /** A shared-object file is moved so that the page of its entry point (byte 24) is the
      first user page; any other file stays where it asks to be. */
  function Moved(image: seq<byte>): nat
    requires |image| >= 64
  {
    if image[16] == 3 && image[17] == 0 then (0x80_0000_0000 - Le64(image, 24) / 4096 * 4096) % WRAP64 else 0
  }

  lemma MovedIsBias(image: seq<byte>)
    requires |image| >= 64
    ensures Moved(image) == Bias(HeaderOf(image))
  {
    hide Le64;
    ShortBytes(image, 16, 3);
  }

  /** Byte `x` of a loaded segment, and the rights of its page: PF_X, PF_W and PF_R are
      bits 0, 1 and 2 of byte 4 of the program header. */
  lemma PreparedFromFile(g: Forest, root: nat, m1: Machine, m: Machine, image: seq<byte>, entry: nat,
                         imagePages: Placement, pages: Placement, tables: set<nat>, i: nat, x: nat)
    requires Progressed(g, root, m1, m, pages, tables) && root in g.users
    requires Prepared(image, entry, imagePages, pages) && i < Le16(image, 56)
    requires HeaderAt(image, i) + 56 <= |image| && Le32(image, HeaderAt(image, i)) == 1
    requires x < Le64(image, HeaderAt(image, i) + 40)
    ensures var at := HeaderAt(image, i); var va := Moved(image) + Le64(image, at + 16) + x;
      && Le64(image, at + 32) <= Le64(image, at + 40) && Le64(image, at + 8) + Le64(image, at + 32) <= |image|
      && ByteAt(m, root, va) == Some(if x < Le64(image, at + 32) then image[Le64(image, at + 8) + x] else 0)
      && A.Effective(m, root, va / PAGE_SIZE) == Flags(image[at + 4] / 2 % 2 == 1, true, image[at + 4] % 2 == 0)
  {
    hide Progressed, ByteAt, A.Effective, A.TranslateUser, Le64, Le32, Le16, GoodHeader, SegmentOf, HeaderAt, Bias,
         ImagePlaced, StackPlaced, EntryAddress, Moved;
    var h := HeaderOf(image);
    SameTable(image);
    SegmentFields(image, i);
    MovedIsBias(image);
    var s := SegmentOf(image, h, i);
    var va := Start(h, s) + x;
    InSegment(h, s, x);
    PreparedSees(g, root, m1, m, image, entry, imagePages, pages, tables, i, va);
    RightsOf(image, HeaderAt(image, i));
  }

  lemma InSegment(h: Header, s: Segment, x: nat)
    requires s.kind == 1 && x < s.memSize
    ensures Covers(h, s, (Start(h, s) + x) / PAGE_SIZE)
  {
    hide Bias;
  }

  lemma RightsOf(image: seq<byte>, at: nat)
    requires at + 8 <= |image|
    ensures var f := Le32(image, at + 4); f % 2 == image[at + 4] % 2 && f / 2 % 2 == image[at + 4] / 2 % 2
  {}

  /** Beside the image nothing but the four pages of the stack is placed. */
  lemma OnlyStackBeside(image: seq<byte>, entry: nat, imagePages: Placement, pages: Placement, v: nat)
    requires Prepared(image, entry, imagePages, pages)
    ensures v in pages <==> v in imagePages || 0x800_00FC <= v < 0x800_0100
  {
    hide ImagePlaced, ValidImage, EntryAddress;
    assert 0x80_000F_C000 <= v * PAGE_SIZE < 0x80_0010_0000 <==> 0x800_00FC <= v < 0x800_0100;
  }

  /** The stack is four zeroed, writable, non-executable pages below 512 GiB + 1 MiB, and
      the process starts at the moved entry point. */
  lemma PreparedStart(g: Forest, root: nat, m1: Machine, m: Machine, image: seq<byte>, entry: nat,
                      imagePages: Placement, pages: Placement, tables: set<nat>, va: nat)
    requires Progressed(g, root, m1, m, pages, tables) && root in g.users && Prepared(image, entry, imagePages, pages)
    ensures entry == (Moved(image) + Le64(image, 24)) % WRAP64 && A.TranslateUser(m, root, entry).Some?
    ensures image[16] == 3 ==> entry == 0x80_0000_0000 + Le64(image, 24) % 4096
    ensures 0x80_000F_C000 <= va < 0x80_0010_0000 ==>
      ByteAt(m, root, va) == Some(0) && A.Effective(m, root, va / PAGE_SIZE) == Flags(true, true, true)
  {
    hide Progressed, ByteAt, A.Effective, A.TranslateUser, Le64, Le32, GoodHeader, SegmentOf, ImagePlaced, StackPlaced,
         Bias, Moved;
    MovedIsBias(image);
    HeaderIsBytes(image);
    PreparedSees(g, root, m1, m, image, entry, imagePages, pages, tables, 0, va);
    if image[16] == 3 { MovedEntry(image); }
  }

  lemma MovedEntry(image: seq<byte>)
    requires |image| >= 64 && image[16] == 3 && image[17] == 0
    ensures (Moved(image) + Le64(image, 24)) % WRAP64 == 0x80_0000_0000 + Le64(image, 24) % 4096
  {
    hide Le64;
    var e := Le64(image, 24);
    var page := e / 4096 * 4096;
    var q := if page <= 0x80_0000_0000 then 0 else -1;
    assert Moved(image) == 0x80_0000_0000 - page - q * WRAP64;
  }
}
