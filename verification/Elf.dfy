/** The ELF64 validator (System V gABI, chapters 4 and 5: ELF header and program
    header). */
module Elf {
  import opened Bytes

  const HEADER_SIZE: nat := 64
  const PROGRAM_HEADER_SIZE: nat := 56
  const MAGIC: nat := 0x464C457F
  const CLASS_64: nat := 2
  const DATA_LSB: nat := 1
  const MACHINE_X86_64: nat := 62
  const TYPE_EXEC: nat := 2
  const TYPE_DYN: nat := 3
  const PT_LOAD: nat := 1

  datatype Header = Header(kind: nat, entry: u64, phoff: u64, phentsize: nat, phnum: nat)

  datatype Segment = Segment(kind: u32, flags: u32, offset: u64, vaddr: u64, fileSize: u64, memSize: u64)

  function HeaderOf(image: seq<byte>): Header
    requires |image| >= HEADER_SIZE
  {
    Header(Le16(image, 16), Le64(image, 24), Le64(image, 32), Le16(image, 54), Le16(image, 56))
  }

  predicate GoodHeader(image: seq<byte>)
    requires |image| >= HEADER_SIZE
  {
    && Le32(image, 0) == MAGIC && image[4] == CLASS_64 && image[5] == DATA_LSB
    && Le16(image, 18) == MACHINE_X86_64
    && (Le16(image, 16) == TYPE_EXEC || Le16(image, 16) == TYPE_DYN)
    && Le32(image, 20) == 1
    && Le16(image, 52) >= HEADER_SIZE && Le16(image, 54) >= PROGRAM_HEADER_SIZE
  }

  predicate TableFits(image: seq<byte>, h: Header) {
    h.phentsize >= PROGRAM_HEADER_SIZE && (h.phnum == 0 || h.phoff + h.phentsize * h.phnum <= |image|)
  }

  function SegmentAt(image: seq<byte>, at: nat): Segment
    requires at + PROGRAM_HEADER_SIZE <= |image|
  {
    Segment(Le32(image, at), Le32(image, at + 4), Le64(image, at + 8), Le64(image, at + 16),
            Le64(image, at + 32), Le64(image, at + 40))
  }

  lemma InTable(image: seq<byte>, h: Header, i: nat)
    requires TableFits(image, h) && i < h.phnum
    ensures h.phoff + i * h.phentsize + PROGRAM_HEADER_SIZE <= |image|
  {}

  /** The i-th program header. */
  function SegmentOf(image: seq<byte>, h: Header, i: nat): Segment
    requires TableFits(image, h) && i < h.phnum
  {
    InTable(image, h, i);
    SegmentAt(image, h.phoff + i * h.phentsize)
  }

  /** A loadable segment's file bytes lie inside the image and its memory size. */
  predicate SegmentFits(image: seq<byte>, s: Segment) {
    s.kind == PT_LOAD ==> s.fileSize <= s.memSize && s.offset + s.fileSize <= |image|
  }

  predicate ValidImage(image: seq<byte>) {
    && |image| >= HEADER_SIZE && GoodHeader(image)
    && TableFits(image, HeaderOf(image))
    && forall i: nat | i < HeaderOf(image).phnum :: SegmentFits(image, SegmentOf(image, HeaderOf(image), i))
  }

  /** Sum of two 64-bit numbers, if it does not overflow. */
  function CheckedAdd(a: u64, b: u64): (r: Option<u64>)
    ensures r == if a + b <= U64_MAX then Some(a + b) else None
  {
    if b > U64_MAX - a then None else Some(a + b)
  }

  lemma HeaderBounds(image: seq<byte>)
    requires |image| >= HEADER_SIZE && GoodHeader(image)
    ensures var h := HeaderOf(image); PROGRAM_HEADER_SIZE <= h.phentsize <= 0xFFFF && h.phnum <= 0xFFFF
    ensures HeaderOf(image).phentsize * HeaderOf(image).phnum <= 0xFFFF * 0xFFFF
  {
    hide Le32;
    SmallProduct(HeaderOf(image).phentsize, HeaderOf(image).phnum);
  }

  /** Accepts exactly the well-formed images. */
  method Validate(image: seq<byte>) returns (ok: bool)
    requires |image| <= U64_MAX
    ensures ok <==> ValidImage(image)
  {
    hide GoodHeader, HeaderOf, SegmentOf;
    if |image| < HEADER_SIZE || !GoodHeader(image) { return false; }
    HeaderBounds(image);
    var h := HeaderOf(image);
    if h.phnum != 0 {
      var end := CheckedAdd(h.phoff, h.phentsize * h.phnum);
      if end.None? || end.value > |image| { return false; }
    }
    for i := 0 to h.phnum
      invariant forall j: nat | j < i :: SegmentFits(image, SegmentOf(image, h, j))
    {
      var s := SegmentOf(image, h, i);
      if s.kind == PT_LOAD {
        if s.fileSize > s.memSize { return false; }
        var end := CheckedAdd(s.offset, s.fileSize);
        if end.None? || end.value > |image| { return false; }
      }
    }
    return true;
  }

  lemma SmallProduct(a: nat, b: nat)
    requires a <= 0xFFFF && b <= 0xFFFF
    ensures a * b <= 0xFFFF * 0xFFFF
  {
    assert a * b <= a * 0xFFFF by { assert a * (0xFFFF - b) >= 0; }
  }
}
