/** Drawing into the framebuffer: single pixels, clipped rectangles and whole screens. */
module Drawing {
  import opened Bytes
  import opened Arithmetic
  import opened PmmSpec
  import opened Framebuffer
  import opened Window
  import opened PageTables
  import opened Forests
  import V = Vmm

  /** Video memory by address. */
  type Video = map<nat, byte>

  function At(video: Video, a: nat): Option<byte> { if a in video then Some(video[a]) else None }

  /** Pointer arithmetic wraps at 64 bits. */
  function Cell(target: nat, offset: nat, b: nat): nat { (target + offset + b) % WRAP64 }

  /** The b-th byte of a pixel word, least significant first. */
  function PixelByte(pixel: u32, b: nat): byte
    requires b < 4
  {
    (pixel / (if b == 0 then 1 else if b == 1 then 0x100 else if b == 2 then 0x1_0000 else 0x100_0000)) % 256
  }

  /** Where drawing goes: the mapped window, or the identity-mapped physical range. */
  function Target(available: bool, c: Info): Option<u64> {
    if !GeometryOk(available, c) then None
    else if c.mappedAddress != 0 then (if c.mappedSize == 0 then None else Some(c.mappedAddress))
    else if c.address >= 0x4000_0000 || c.address + Span(c) > 0x4000_0000 then None
    else Some(c.address)
  }

  function PixelOffset(c: Info, x: nat, y: nat): nat { y * c.pitch + x * BytesPerPixel(c) }

  /** Bytes 0..n-1 of a pixel word stored from an offset on. */
  function Stored(video: Video, target: nat, offset: nat, n: nat, pixel: u32): Video
    requires n <= 4
  {
    if n == 0 then video
    else Stored(video, target, offset, n - 1, pixel)[Cell(target, offset, n - 1) := PixelByte(pixel, n - 1)]
  }

  function Draw(video: Video, c: Info, target: nat, x: nat, y: nat, pixel: u32): Video
    requires BytesPerPixel(c) <= 4
  {
    Stored(video, target, PixelOffset(c, x, y), BytesPerPixel(c), pixel)
  }

  /** What a call for one pixel does: the memory it leaves and its result code. */
  function Plot(video: Video, available: bool, c: Info, x: nat, y: nat, pixel: u32): (Video, int) {
    if x >= c.width || y >= c.height then (video, -1)
    else
      match Target(available, c)
      case None => (video, -2)
      case Some(t) =>
        if PixelOffset(c, x, y) > U64_MAX then (video, -3)
        else
          TargetDepth(available, c);
          (Draw(video, c, t, x, y, pixel), 0)
  }

  /** Pixels x..x+n-1 of row `y`, drawn one after another. */
  function DrawRow(video: Video, c: Info, target: nat, x: nat, n: nat, y: nat, pixel: u32): Video
    requires BytesPerPixel(c) <= 4
  {
    if n == 0 then video else Draw(DrawRow(video, c, target, x, n - 1, y, pixel), c, target, x + n - 1, y, pixel)
  }

  function DrawRows(video: Video, c: Info, target: nat, x: nat, w: nat, y: nat, h: nat, pixel: u32): Video
    requires BytesPerPixel(c) <= 4
  {
    if h == 0 then video
    else DrawRow(DrawRows(video, c, target, x, w, y, h - 1, pixel), c, target, x, w, y + h - 1, pixel)
  }

  class Canvas {
    const screen: Framebuffer
    var video: Video

    constructor (screen: Framebuffer, video: Video)
      ensures this.screen == screen && this.video == video
    {
      this.screen, this.video := screen, video;
    }

    method FindTarget() returns (target: Option<u64>)
      ensures target == Target(screen.available, screen.current)
    {
      hide GeometryOk;
      var usable := screen.CheckGeometry();
      if !usable { return None; }
      var c := screen.current;
      if c.mappedAddress != 0 {
        if c.mappedSize == 0 { return None; }
        return Some(c.mappedAddress);
      }
      if c.address >= IDENTITY_LIMIT || c.address + c.pitch * c.height > IDENTITY_LIMIT { return None; }
      return Some(c.address);
    }

    method StorePixel(target: nat, offset: nat, n: nat, pixel: u32)
      requires n <= 4
      modifies this
      ensures video == Stored(old(video), target, offset, n, pixel)
    {
      for b := 0 to n
        invariant video == Stored(old(video), target, offset, b, pixel)
      {
        video := video[Cell(target, offset, b) := PixelByte(pixel, b)];
      }
    }

    method DrawPixel(x: u32, y: u32, pixel: u32) returns (code: int)
      modifies this
      ensures (video, code) == Plot(old(video), screen.available, screen.current, x, y, pixel)
      ensures code == 0 ==> ShowsPixel(video, screen.available, screen.current, x, y, pixel)
    {
      hide Target, Stored, BytesPerPixel, ShowsPixel;
      var c := screen.current;
      TargetDepth(screen.available, c);
      if x >= c.width || y >= c.height { return -1; }
      var target := FindTarget();
      if target.None? { return -2; }
      if y * c.pitch > U64_MAX - x * BytesPerPixel(c) { return -3; }
      DrawnPixelShows(video, screen.available, c, x, y, pixel);
      StorePixel(target.value, y * c.pitch + x * BytesPerPixel(c), BytesPerPixel(c), pixel);
      return 0;
    }

    /** Fills the part of the rectangle that is on the screen, as if by drawing each of its pixels. */
    method FillRect(x: u32, y: u32, width: u32, height: u32, pixel: u32) returns (code: int)
      modifies this
      ensures width == 0 || height == 0 ==> code == 0 && video == old(video)
      ensures width != 0 && height != 0 ==>
        && (code == -1 <==> x >= screen.current.width || y >= screen.current.height)
        && (code == -2 <==> code != -1 && Target(screen.available, screen.current).None?)
        && (code == 0 <==> code != -1 && code != -2)
        && video == if code != 0 then old(video)
                    else DrawRows(old(video), screen.current, Target(screen.available, screen.current).value,
                                  x, Min(width, screen.current.width - x), y, Min(height, screen.current.height - y),
                                  pixel)
      ensures code == 0 && Ready(screen.available, screen.current) && Padded(screen.current) ==>
        forall px: nat, py: nat | x <= px < x + width && y <= py < y + height
                                  && px < screen.current.width && py < screen.current.height ::
          ShowsPixel(video, screen.available, screen.current, px, py, pixel)
    {
      hide Target, Stored, BytesPerPixel, PixelOffset, DrawRow, ShowsPixel, Ready, Padded;
      TargetDepth(screen.available, screen.current);
      if width == 0 || height == 0 { return 0; }
      var c := screen.current;
      if x >= c.width || y >= c.height { return -1; }
      var w, h: nat := width, height;
      if w > c.width - x { w := c.width - x; }
      if h > c.height - y { h := c.height - y; }
      var target := FindTarget();
      if target.None? { return -2; }
      for row := y to y + h
        invariant video == DrawRows(old(video), c, target.value, x, w, y, row - y, pixel)
      {
        FillRow(c, target.value, x, row, w, PixelOffset(c, x, row), pixel);
      }
      if Ready(screen.available, c) && Padded(c) { RectShows(old(video), screen.available, c, x, w, y, h, pixel); }
      return 0;
    }

    /** One row, each pixel a pixel's width after the last. */
    method FillRow(c: Info, target: nat, ghost x: nat, ghost y: nat, w: nat, offset: nat, pixel: u32)
      requires BytesPerPixel(c) <= 4
      requires offset == PixelOffset(c, x, y)
      modifies this
      ensures video == DrawRow(old(video), c, target, x, w, y, pixel)
    {
      hide Stored;
      for column := 0 to w
        invariant video == DrawRow(old(video), c, target, x, column, y, pixel)
      {
        NextColumn(c, x, column, y);
        StorePixel(target, offset + column * BytesPerPixel(c), BytesPerPixel(c), pixel);
      }
    }

    /** Clearing is filling the whole screen. */
    method Clear(pixel: u32) returns (code: int)
      modifies this
      ensures code == if Target(screen.available, screen.current).None? then -1 else 0
      ensures video == if code != 0 then old(video)
                       else DrawRows(old(video), screen.current, Target(screen.available, screen.current).value,
                                     0, screen.current.width, 0, screen.current.height, pixel)
      ensures code == 0 && Ready(screen.available, screen.current) && Padded(screen.current) ==>
        forall px: nat, py: nat | px < screen.current.width && py < screen.current.height ::
          ShowsPixel(video, screen.available, screen.current, px, py, pixel)
    {
      hide Target, Stored, BytesPerPixel, PixelOffset, DrawRow, ShowsPixel, Ready, Padded;
      var c := screen.current;
      TargetDepth(screen.available, c);
      var target := FindTarget();
      if target.None? { return -1; }
      for y := 0 to c.height
        invariant video == DrawRows(old(video), c, target.value, 0, c.width, 0, y, pixel)
      {
        FillRow(c, target.value, 0, y, c.width, PixelOffset(c, 0, y), pixel);
      }
      if Ready(screen.available, c) && Padded(c) {
        RectShows(old(video), screen.available, c, 0, c.width, 0, c.height, pixel);
      }
      return 0;
    }
  }

  lemma TargetDepth(available: bool, c: Info)
    ensures Target(available, c).Some? ==> BytesPerPixel(c) <= 4
  {}

  lemma NextColumn(c: Info, x: nat, column: nat, y: nat)
    ensures PixelOffset(c, x, y) + column * BytesPerPixel(c) == PixelOffset(c, x + column, y)
  {}

  // ---- Pixels as numbers -----------------------------------------------------------------------

  /** The number in the first `n` bytes of a pixel's place, least significant first. */
  function PixelNumber(video: Video, c: Info, target: nat, x: nat, y: nat, n: nat): Option<nat> {
    if n == 0 then Some(0)
    else
      match (PixelNumber(video, c, target, x, y, n - 1), At(video, ByteAddress(c, target, x, y, n - 1)))
      case (Some(low), Some(b)) => Some(low + Pow2(8 * (n - 1)) * b)
      case _ => None
  }

  /** The pixel's place holds as many low bits of the word as it has bytes for. */
  predicate ShowsPixel(video: Video, available: bool, c: Info, x: nat, y: nat, pixel: u32) {
    && Target(available, c).Some?
    && PixelNumber(video, c, Target(available, c).value, x, y, BytesPerPixel(c))
       == Some(pixel % Pow2(8 * BytesPerPixel(c)))
  }

  /** A pixel takes the fewest bytes that hold its bits. */
  lemma FewestBytes(c: Info)
    ensures c.bitsPerPixel <= 8 * BytesPerPixel(c) < c.bitsPerPixel + 8
  {}

  lemma BytePowers()
    ensures Pow2(0) == 1 && Pow2(8) == 0x100 && Pow2(16) == 0x1_0000 && Pow2(24) == 0x100_0000 && Pow2(32) == WRAP32
  {
    assert Pow2(4) == 16 && Pow2(8) == 0x100 && Pow2(12) == 0x1000;
  }

  lemma Digit1(x: u32)
    ensures x % 0x1_0000 == x % 0x100 + 0x100 * (x / 0x100 % 0x100)
  {}

  lemma Digit2(x: u32)
    ensures x % 0x100_0000 == x % 0x1_0000 + 0x1_0000 * (x / 0x1_0000 % 0x100)
  {}

  lemma Digit3(x: u32)
    ensures x == x % 0x100_0000 + 0x100_0000 * (x / 0x100_0000) && x / 0x100_0000 < 0x100
  {}

  lemma NextDigit(pixel: u32, n: nat)
    requires n < 4
    ensures pixel % Pow2(8 * n) + Pow2(8 * n) * PixelByte(pixel, n) == pixel % Pow2(8 * (n + 1))
  {
    BytePowers();
    hide Pow2;
    if n == 1 { Digit1(pixel); } else if n == 2 { Digit2(pixel); } else if n == 3 { Digit3(pixel); }
  }

  /** Bytes that are those of the word read back as its low bits. */
  lemma {:induction false} BytesReadBack(video: Video, c: Info, target: nat, x: nat, y: nat, n: nat, pixel: u32)
    requires n <= 4
    requires forall b: nat | b < n :: At(video, ByteAddress(c, target, x, y, b)) == Some(PixelByte(pixel, b))
    ensures PixelNumber(video, c, target, x, y, n) == Some(pixel % Pow2(8 * n))
  {
    hide ByteAddress, PixelByte, At, Pow2;
    BytePowers();
    if n > 0 {
      BytesReadBack(video, c, target, x, y, n - 1, pixel);
      NextDigit(pixel, n - 1);
    }
  }

  /** Four bytes read back as the whole word. */
  lemma WholeWord(pixel: u32)
    ensures Le32([PixelByte(pixel, 0), PixelByte(pixel, 1), PixelByte(pixel, 2), PixelByte(pixel, 3)], 0) == pixel
  {
    Digits(pixel);
  }

  lemma DrawnPixelShows(video: Video, available: bool, c: Info, x: nat, y: nat, pixel: u32)
    requires Target(available, c).Some? && BytesPerPixel(c) <= 4
    ensures ShowsPixel(Draw(video, c, Target(available, c).value, x, y, pixel), available, c, x, y, pixel)
  {
    hide Target, Stored, BytesPerPixel, PixelOffset, Cell, PixelByte, At, PixelNumber, Pow2;
    var t, n := Target(available, c).value, BytesPerPixel(c);
    var after := Draw(video, c, t, x, y, pixel);
    forall b: nat | b < n ensures At(after, ByteAddress(c, t, x, y, b)) == Some(PixelByte(pixel, b)) {
      StoredHas(video, t, PixelOffset(c, x, y), n, pixel, b);
    }
    BytesReadBack(after, c, t, x, y, n, pixel);
  }

  /** Every pixel of a filled rectangle shows the word. */
  lemma RectShows(video: Video, available: bool, c: Info, x: nat, w: nat, y: nat, h: nat, pixel: u32)
    requires Ready(available, c) && Padded(c) && x + w <= c.width && y + h <= c.height && BytesPerPixel(c) <= 4
    ensures forall px: nat, py: nat | InRect(x, w, y, h, px, py) ::
      ShowsPixel(DrawRows(video, c, Target(available, c).value, x, w, y, h, pixel), available, c, px, py, pixel)
  {
    hide Ready, Target, Padded, Span, BytesPerPixel, DrawRows, ByteAddress, PixelByte, At, PixelNumber, Pow2;
    SpanBound(available, c);
    var t, n := Target(available, c).value, BytesPerPixel(c);
    var after := DrawRows(video, c, t, x, w, y, h, pixel);
    forall px: nat, py: nat | InRect(x, w, y, h, px, py) ensures ShowsPixel(after, available, c, px, py, pixel) {
      forall b: nat | b < n ensures At(after, ByteAddress(c, t, px, py, b)) == Some(PixelByte(pixel, b)) {
        RectPaints(video, c, t, x, w, y, h, pixel, px, py, b);
      }
      BytesReadBack(after, c, t, px, py, n, pixel);
    }
  }

  /** Through a mapped framebuffer, byte `b` of pixel (x, y) goes to the physical address
      that the pitch and the depth give it. */
  lemma DrawsToScreen(available: bool, c: Info, f: Forest, m0: Machine, m: Machine, x: nat, y: nat, b: nat)
    requires Fits(available, c) && MappedBetween(f, m0, m, c.address / PAGE_SIZE, 0, PageCount(c))
    requires Wf(f, m) && V.KernelOk(f, m) && c.address + Span(c) <= 0x10_0000_0000_0000
    requires c.mappedAddress == 0x50_0000_0000 + c.address % PAGE_SIZE && c.mappedSize == PageCount(c) * PAGE_SIZE
    requires Padded(c) && x < c.width && y < c.height && b < BytesPerPixel(c)
    ensures Target(available, c).Some?
    ensures V.Translate(m, f.kernel, ByteAddress(c, Target(available, c).value, x, y, b)) ==
      c.address + y * c.pitch + x * BytesPerPixel(c) + b
  {
    hide Wf, V.KernelOk, V.Translate, Span, BytesPerPixel, MappedBetween, Padded, Ready, PageCount, ByteAddress,
         PixelOffset;
    MapGivesReady(available, c, f, m0, m);
    ReadyHasTarget(available, c);
    TargetFits(available, c, x, y, b);
    PlaceInSpan(c, x, y, b);
    MappedTranslates(f, m0, m, c, PixelOffset(c, x, y) + b);
  }

  lemma PlaceInSpan(c: Info, x: nat, y: nat, b: nat)
    requires Padded(c) && x < c.width && y < c.height && b < BytesPerPixel(c)
    ensures PixelOffset(c, x, y) + b < Span(c) && PixelOffset(c, x, y) == y * c.pitch + x * BytesPerPixel(c)
  {
    hide BytesPerPixel, Span;
    WithinRow(c, x, b);
    WithinSpan(c, y, x * BytesPerPixel(c) + b);
  }

  // ---- What a filled rectangle looks like ---------------------------------------------------

  /** A row's pixels fit before the next row starts. */
  predicate Padded(c: Info) { c.width * BytesPerPixel(c) <= c.pitch }

  function ByteAddress(c: Info, target: nat, x: nat, y: nat, b: nat): nat { Cell(target, PixelOffset(c, x, y), b) }

  predicate InRect(x: nat, w: nat, y: nat, h: nat, px: nat, py: nat) { x <= px < x + w && y <= py < y + h }

  lemma {:induction false} StoredLeaves(video: Video, target: nat, offset: nat, n: nat, pixel: u32, a: nat)
    requires n <= 4 && forall b: nat | b < n :: Cell(target, offset, b) != a
    ensures At(Stored(video, target, offset, n, pixel), a) == At(video, a)
  {
    if n > 0 {
      StoredLeaves(video, target, offset, n - 1, pixel, a);
    }
  }

  lemma CellsApart(target: nat, offset: nat, b: nat, d: nat)
    requires b < d < 4
    ensures Cell(target, offset, b) != Cell(target, offset, d)
  {}

  lemma {:induction false} StoredHas(video: Video, target: nat, offset: nat, n: nat, pixel: u32, b: nat)
    requires b < n <= 4
    ensures At(Stored(video, target, offset, n, pixel), Cell(target, offset, b)) == Some(PixelByte(pixel, b))
  {
    hide Cell, PixelByte;
    if b < n - 1 {
      StoredHas(video, target, offset, n - 1, pixel, b);
      CellsApart(target, offset, b, n - 1);
    }
  }

  lemma {:induction false} RowLeaves(video: Video, c: Info, target: nat, x: nat, n: nat, y: nat, pixel: u32, a: nat)
    requires BytesPerPixel(c) <= 4
    requires forall px: nat, b: nat | x <= px < x + n && b < BytesPerPixel(c) :: ByteAddress(c, target, px, y, b) != a
    ensures At(DrawRow(video, c, target, x, n, y, pixel), a) == At(video, a)
  {
    hide Stored, Cell, PixelOffset, BytesPerPixel;
    if n > 0 {
      var last := x + n - 1;
      RowLeaves(video, c, target, x, n - 1, y, pixel, a);
      forall b: nat | b < BytesPerPixel(c) ensures Cell(target, PixelOffset(c, last, y), b) != a {
        assert ByteAddress(c, target, last, y, b) != a;
      }
      var before := DrawRow(video, c, target, x, n - 1, y, pixel);
      StoredLeaves(before, target, PixelOffset(c, last, y), BytesPerPixel(c), pixel, a);
    }
  }

  /** Only bytes of the rectangle's pixels change, whatever the geometry. */
  lemma {:induction false} RectLeaves(video: Video, c: Info, target: nat, x: nat, w: nat, y: nat, h: nat,
                                      pixel: u32, a: nat)
    requires BytesPerPixel(c) <= 4
    requires forall px: nat, py: nat, b: nat | InRect(x, w, y, h, px, py) && b < BytesPerPixel(c) ::
      ByteAddress(c, target, px, py, b) != a
    ensures At(DrawRows(video, c, target, x, w, y, h, pixel), a) == At(video, a)
  {
    hide Stored, Cell, PixelOffset, BytesPerPixel, DrawRow;
    if h > 0 {
      var last := y + h - 1;
      RectLeaves(video, c, target, x, w, y, h - 1, pixel, a);
      forall px: nat, b: nat | x <= px < x + w && b < BytesPerPixel(c)
        ensures ByteAddress(c, target, px, last, b) != a
      {
        assert InRect(x, w, y, h, px, last);
      }
      RowLeaves(DrawRows(video, c, target, x, w, y, h - 1, pixel), c, target, x, w, last, pixel, a);
    }
  }

  lemma WithinRow(c: Info, x: nat, b: nat)
    requires Padded(c) && x < c.width && b < BytesPerPixel(c)
    ensures x * BytesPerPixel(c) + b < c.width * BytesPerPixel(c) <= c.pitch
  {
    assert (x + 1) * BytesPerPixel(c) <= c.width * BytesPerPixel(c);
  }

  lemma WithinSpan(c: Info, y: nat, r: nat)
    requires y < c.height && r < c.pitch
    ensures y * c.pitch + r < Span(c)
  {
    assert (y + 1) * c.pitch <= c.height * c.pitch;
  }

  /** The address of the r-th byte of row `y`. */
  function RowByte(c: Info, target: nat, y: nat, r: nat): nat { Cell(target, y * c.pitch, r) }

  function RowOffset(c: Info, y: nat, r: nat): nat { y * c.pitch + r }

  lemma NoWrap(c: Info, target: nat, y: nat, r: nat)
    requires target + Span(c) <= WRAP64 && y < c.height && r < c.pitch
    ensures RowByte(c, target, y, r) == target + RowOffset(c, y, r) < target + Span(c)
  {
    hide Span;
    WithinSpan(c, y, r);
  }

  /** An address inside the framebuffer names its row and its place in the row. */
  lemma PlaceIsUnique(c: Info, target: nat, y: nat, r: nat, y': nat, r': nat)
    requires target + Span(c) <= WRAP64 && y < c.height && r < c.pitch && y' < c.height && r' < c.pitch
    requires RowByte(c, target, y, r) == RowByte(c, target, y', r')
    ensures y == y' && r == r'
  {
    hide *;
    NoWrap(c, target, y, r);
    NoWrap(c, target, y', r');
    OffsetIsUnique(c, y, r);
    OffsetIsUnique(c, y', r');
  }

  lemma OffsetIsUnique(c: Info, y: nat, r: nat)
    requires r < c.pitch
    ensures y == RowOffset(c, y, r) / c.pitch && r == RowOffset(c, y, r) % c.pitch
  {
    Unique(RowOffset(c, y, r), c.pitch, y, r);
  }

  /** The place of a pixel's byte in its row. */
  function Column(c: Info, x: nat, b: nat): nat { x * BytesPerPixel(c) + b }

  lemma ColumnIsUnique(c: Info, x: nat, b: nat)
    requires b < BytesPerPixel(c)
    ensures x == Column(c, x, b) / BytesPerPixel(c) && b == Column(c, x, b) % BytesPerPixel(c)
  {
    Unique(Column(c, x, b), BytesPerPixel(c), x, b);
  }

  lemma ByteInRow(c: Info, target: nat, x: nat, y: nat, b: nat)
    requires Padded(c) && x < c.width && b < BytesPerPixel(c)
    ensures ByteAddress(c, target, x, y, b) == RowByte(c, target, y, Column(c, x, b))
    ensures Column(c, x, b) < c.width * BytesPerPixel(c) <= c.pitch
  {
    hide BytesPerPixel;
    WithinRow(c, x, b);
  }

  /** Distinct pixel bytes have distinct addresses. */
  lemma BytesApart(c: Info, target: nat, x: nat, y: nat, b: nat, x': nat, y': nat, b': nat)
    requires Padded(c) && target + Span(c) <= WRAP64
    requires x < c.width && y < c.height && b < BytesPerPixel(c)
    requires x' < c.width && y' < c.height && b' < BytesPerPixel(c)
    requires ByteAddress(c, target, x, y, b) == ByteAddress(c, target, x', y', b')
    ensures x == x' && y == y' && b == b'
  {
    hide *;
    ByteInRow(c, target, x, y, b);
    ByteInRow(c, target, x', y', b');
    PlaceIsUnique(c, target, y, Column(c, x, b), y', Column(c, x', b'));
    ColumnIsUnique(c, x, b);
    ColumnIsUnique(c, x', b');
  }

  lemma {:induction false} RowPaints(video: Video, c: Info, target: nat, x: nat, n: nat, y: nat,
                                     pixel: u32, px: nat, b: nat)
    requires Padded(c) && target + Span(c) <= WRAP64 && BytesPerPixel(c) <= 4
    requires x + n <= c.width && y < c.height && x <= px < x + n && b < BytesPerPixel(c)
    ensures At(DrawRow(video, c, target, x, n, y, pixel), ByteAddress(c, target, px, y, b)) == Some(PixelByte(pixel, b))
  {
    hide Stored, Cell, PixelOffset, BytesPerPixel, Span, Padded;
    var last := x + n - 1;
    var before := DrawRow(video, c, target, x, n - 1, y, pixel);
    if px == last {
      StoredHas(before, target, PixelOffset(c, px, y), BytesPerPixel(c), pixel, b);
    } else {
      RowPaints(video, c, target, x, n - 1, y, pixel, px, b);
      var a := ByteAddress(c, target, px, y, b);
      forall d: nat | d < BytesPerPixel(c) ensures Cell(target, PixelOffset(c, last, y), d) != a {
        if ByteAddress(c, target, last, y, d) == a { BytesApart(c, target, last, y, d, px, y, b); }
      }
      StoredLeaves(before, target, PixelOffset(c, last, y), BytesPerPixel(c), pixel, a);
    }
  }

  /** Filling a rectangle gives each of its pixels the new word and leaves every other pixel as it was. */
  lemma {:induction false} RectPaints(video: Video, c: Info, target: nat, x: nat, w: nat, y: nat, h: nat, pixel: u32,
                                      px: nat, py: nat, b: nat)
    requires Padded(c) && target + Span(c) <= WRAP64 && BytesPerPixel(c) <= 4
    requires x + w <= c.width && y + h <= c.height && px < c.width && py < c.height && b < BytesPerPixel(c)
    ensures var a := ByteAddress(c, target, px, py, b);
      At(DrawRows(video, c, target, x, w, y, h, pixel), a) ==
        if InRect(x, w, y, h, px, py) then Some(PixelByte(pixel, b)) else At(video, a)
  {
    hide Stored, Cell, PixelOffset, BytesPerPixel, Span, Padded, DrawRow, ByteAddress;
    if h > 0 {
      RectPaints(video, c, target, x, w, y, h - 1, pixel, px, py, b);
      var last := y + h - 1;
      var before := DrawRows(video, c, target, x, w, y, h - 1, pixel);
      if py == last && x <= px < x + w {
        RowPaints(before, c, target, x, w, last, pixel, px, b);
      } else {
        var a := ByteAddress(c, target, px, py, b);
        forall qx: nat, d: nat | x <= qx < x + w && d < BytesPerPixel(c)
          ensures ByteAddress(c, target, qx, last, d) != a
        {
          if ByteAddress(c, target, qx, last, d) == a { BytesApart(c, target, qx, last, d, px, py, b); }
        }
        RowLeaves(before, c, target, x, w, last, pixel, a);
      }
    }
  }

  /** Row padding is untouched. */
  lemma PaddingUntouched(video: Video, c: Info, target: nat, x: nat, w: nat, y: nat, h: nat, pixel: u32,
                         row: nat, r: nat)
    requires Padded(c) && target + Span(c) <= WRAP64 && BytesPerPixel(c) <= 4
    requires x + w <= c.width && y + h <= c.height
    requires row < c.height && c.width * BytesPerPixel(c) <= r < c.pitch
    ensures var a := RowByte(c, target, row, r);
      At(DrawRows(video, c, target, x, w, y, h, pixel), a) == At(video, a)
  {
    hide Span, BytesPerPixel, DrawRows, ByteAddress, RowByte, RowOffset, Column;
    var a := RowByte(c, target, row, r);
    forall px: nat, py: nat, b: nat | InRect(x, w, y, h, px, py) && b < BytesPerPixel(c)
      ensures ByteAddress(c, target, px, py, b) != a
    {
      ByteInRow(c, target, px, py, b);
      if ByteAddress(c, target, px, py, b) == a { PlaceIsUnique(c, target, py, Column(c, px, b), row, r); }
    }
    RectLeaves(video, c, target, x, w, y, h, pixel, a);
  }

  /** Everything outside the framebuffer is untouched. */
  lemma OutsideUntouched(video: Video, c: Info, target: nat, x: nat, w: nat, y: nat, h: nat, pixel: u32, a: nat)
    requires Padded(c) && target + Span(c) <= WRAP64 && BytesPerPixel(c) <= 4
    requires x + w <= c.width && y + h <= c.height
    requires a < target || target + Span(c) <= a
    ensures At(DrawRows(video, c, target, x, w, y, h, pixel), a) == At(video, a)
  {
    hide Span, BytesPerPixel, DrawRows, ByteAddress, RowByte, RowOffset, Column;
    forall px: nat, py: nat, b: nat | InRect(x, w, y, h, px, py) && b < BytesPerPixel(c)
      ensures ByteAddress(c, target, px, py, b) != a
    {
      ByteInRow(c, target, px, py, b);
      NoWrap(c, target, py, Column(c, px, b));
    }
    RectLeaves(video, c, target, x, w, y, h, pixel, a);
  }

  // ---- Staying inside -----------------------------------------------------------------------

  /** Drawing has a target, and a mapped address is one that mapping the framebuffer
      leaves behind (`Framebuffer.MappedSpan` bounds its pages). */
  predicate Ready(available: bool, c: Info) {
    && Target(available, c).Some?
    && (c.mappedAddress != 0 ==> PageCount(c) <= V.PAGES && c.mappedAddress == VIRTUAL_BASE + c.address % PAGE_SIZE)
  }

  /** Mapping the framebuffer leaves it ready. */
  lemma MapGivesReady(available: bool, c: Info, f: Forest, m0: Machine, m: Machine)
    requires Fits(available, c) && MappedBetween(f, m0, m, c.address / PAGE_SIZE, 0, PageCount(c))
    requires c.mappedAddress == VIRTUAL_BASE + c.address % PAGE_SIZE && c.mappedSize == PageCount(c) * PAGE_SIZE
    ensures Ready(available, c)
  {
    hide Span, MappedBetween;
    MappedSpan(f, m0, m, c);
  }

  lemma SpanBound(available: bool, c: Info)
    requires Ready(available, c)
    ensures Target(available, c).Some? && 0 < Span(c) <= V.PAGES * PAGE_SIZE && 0 < BytesPerPixel(c) <= 4
    ensures Target(available, c).value + Span(c) + 0x4_0000_0000 <= WRAP64
  {
    hide Span;
  }

  lemma OffsetBound(c: Info, x: nat, y: nat, b: nat)
    requires x < c.width && y < c.height && b < BytesPerPixel(c) <= 4
    ensures PixelOffset(c, x, y) + b < Span(c) + 0x4_0000_0000
  {
    hide BytesPerPixel;
    assert y * c.pitch <= Span(c) by { Gap(c.height, y, c.pitch); }
    assert x * BytesPerPixel(c) <= x * 4 by { assert x * (4 - BytesPerPixel(c)) >= 0; }
  }

  /** Padded or not, no byte drawn wraps around the address space. */
  lemma TargetFits(available: bool, c: Info, x: nat, y: nat, b: nat)
    requires Ready(available, c) && x < c.width && y < c.height && b < BytesPerPixel(c)
    ensures var t := Target(available, c).value; ByteAddress(c, t, x, y, b) == t + PixelOffset(c, x, y) + b
  {
    hide Ready, Target, Span, BytesPerPixel, PixelOffset;
    SpanBound(available, c);
    OffsetBound(c, x, y, b);
  }

  /** Padded or not, the overflow refusal of a single pixel never happens. */
  lemma NeverRefuses(available: bool, c: Info, x: nat, y: nat)
    requires Ready(available, c) && x < c.width && y < c.height
    ensures PixelOffset(c, x, y) <= U64_MAX
  {
    hide Ready, Target, Span, PixelOffset;
    SpanBound(available, c);
    OffsetBound(c, x, y, 0);
  }

  /** A row of single-pixel calls. */
  function PlotRow(video: Video, available: bool, c: Info, x: nat, n: nat, y: nat, pixel: u32): Video {
    if n == 0 then video
    else Plot(PlotRow(video, available, c, x, n - 1, y, pixel), available, c, x + n - 1, y, pixel).0
  }

  function PlotRows(video: Video, available: bool, c: Info, x: nat, w: nat, y: nat, h: nat, pixel: u32): Video {
    if h == 0 then video
    else PlotRow(PlotRows(video, available, c, x, w, y, h - 1, pixel), available, c, x, w, y + h - 1, pixel)
  }

  lemma {:induction false} RowIsPlots(video: Video, available: bool, c: Info, x: nat, n: nat, y: nat, pixel: u32)
    requires Ready(available, c) && x + n <= c.width && y < c.height && BytesPerPixel(c) <= 4
    ensures DrawRow(video, c, Target(available, c).value, x, n, y, pixel)
         == PlotRow(video, available, c, x, n, y, pixel)
  {
    hide Ready, Target, Draw, PixelOffset, BytesPerPixel;
    if n > 0 {
      RowIsPlots(video, available, c, x, n - 1, y, pixel);
      NeverRefuses(available, c, x + n - 1, y);
      ReadyHasTarget(available, c);
    }
  }

  lemma ReadyHasTarget(available: bool, c: Info)
    requires Ready(available, c)
    ensures Target(available, c).Some?
  {}

  /** Filling a rectangle is calling the single-pixel function on each of its pixels. */
  lemma {:induction false} FillIsPlots(video: Video, available: bool, c: Info, x: nat, w: nat, y: nat, h: nat,
                                       pixel: u32)
    requires Ready(available, c) && x + w <= c.width && y + h <= c.height && BytesPerPixel(c) <= 4
    ensures DrawRows(video, c, Target(available, c).value, x, w, y, h, pixel)
         == PlotRows(video, available, c, x, w, y, h, pixel)
  {
    hide Ready, Target, DrawRow, PlotRow, BytesPerPixel;
    if h > 0 {
      FillIsPlots(video, available, c, x, w, y, h - 1, pixel);
      RowIsPlots(PlotRows(video, available, c, x, w, y, h - 1, pixel), available, c, x, w, y + h - 1, pixel);
      ReadyHasTarget(available, c);
    }
  }

  lemma LastByte(c: Info)
    requires c.width > 0 && c.height > 0 && BytesPerPixel(c) > 0
    ensures PixelOffset(c, c.width - 1, c.height - 1) + BytesPerPixel(c)
         == Span(c) - c.pitch + c.width * BytesPerPixel(c)
  {}

  /** The last byte of the last pixel is written. */
  lemma LastByteDrawn(video: Video, c: Info, target: nat, pixel: u32)
    requires c.width > 0 && c.height > 0 && 0 < BytesPerPixel(c) <= 4
    ensures var b := BytesPerPixel(c) - 1;
      At(DrawRows(video, c, target, 0, c.width, 0, c.height, pixel),
         ByteAddress(c, target, c.width - 1, c.height - 1, b)) == Some(PixelByte(pixel, b))
  {
    hide Stored, Cell, PixelOffset, BytesPerPixel, PixelByte;
    var x, y, n := c.width - 1, c.height - 1, BytesPerPixel(c);
    var above := DrawRows(video, c, target, 0, c.width, 0, y, pixel);
    StoredHas(DrawRow(above, c, target, 0, x, y, pixel), target, PixelOffset(c, x, y), n, pixel, n - 1);
  }

  /** Whatever the memory and the colour, clearing changes nothing outside the
      framebuffer's bytes. */
  ghost predicate ClearStaysInside(c: Info, target: nat)
    requires BytesPerPixel(c) <= 4
  {
    forall video: Video, pixel: u32, a: nat | a < target || target + Span(c) <= a ::
      At(DrawRows(video, c, target, 0, c.width, 0, c.height, pixel), a) == At(video, a)
  }

  lemma NoEmptySpan(c: Info)
    requires Span(c) > 0
    ensures c.height > 0
  {}

  /** It does so exactly when rows are no longer than the pitch, which the geometry
      check does not demand. */
  lemma StaysInsideIffPadded(available: bool, c: Info)
    requires Ready(available, c)
    ensures ClearStaysInside(c, Target(available, c).value) <==> Padded(c)
  {
    hide Ready, Target, Span, BytesPerPixel, DrawRows, PixelOffset, Cell;
    ReadyHasTarget(available, c);
    SpanBound(available, c);
    var t := Target(available, c).value;
    if Padded(c) {
      forall video: Video, pixel: u32, a: nat | a < t || t + Span(c) <= a
        ensures At(DrawRows(video, c, t, 0, c.width, 0, c.height, pixel), a) == At(video, a)
      {
        OutsideUntouched(video, c, t, 0, c.width, 0, c.height, pixel, a);
      }
    } else {
      assert c.height > 0 by { NoEmptySpan(c); }
      var b := BytesPerPixel(c) - 1;
      var a := ByteAddress(c, t, c.width - 1, c.height - 1, b);
      TargetFits(available, c, c.width - 1, c.height - 1, b);
      LastByte(c);
      LastByteDrawn(map[], c, t, 0);
      assert At(DrawRows(map[], c, t, 0, c.width, 0, c.height, 0), a) != At(map[], a);
    }
  }

  /** A framebuffer of one row of two 32-bit pixels whose pitch is one pixel. */
  const NARROW: Info :=
    Info(0x10_0000, 4, 2, 1, 32, 1, Component(16, 8), Component(8, 8), Component(0, 8), 0, 0)

  lemma NarrowFacts()
    ensures Span(NARROW) == 4 && BytesPerPixel(NARROW) == 4
    ensures GeometryOk(true, NARROW) && Target(true, NARROW) == Some(0x10_0000)
    ensures Ready(true, NARROW) && !Padded(NARROW)
    ensures ByteAddress(NARROW, 0x10_0000, 1, 0, 3) == 0x10_0007
    ensures PixelByte(0x100_0000, 3) == 1
  {}

  /** The geometry check accepts it, and clearing it writes a byte past its end. */
  lemma AcceptedButNotPadded()
    ensures GeometryOk(true, NARROW) && Ready(true, NARROW) && !Padded(NARROW)
    ensures var t := Target(true, NARROW).value; var a := t + Span(NARROW) + 3;
      At(DrawRows(map[a := 0], NARROW, t, 0, NARROW.width, 0, NARROW.height, 0x100_0000), a) == Some(1)
  {
    hide DrawRows, Target, GeometryOk, Span, ByteAddress, PixelByte, Ready, Padded, BytesPerPixel;
    NarrowFacts();
    LastByteDrawn(map[0x10_0007 := 0], NARROW, 0x10_0000, 0x100_0000);
  }

  /** Filling one pixel is drawing it, wherever drawing does not refuse. */
  lemma OnePixelFill(video: Video, c: Info, target: nat, x: nat, y: nat, pixel: u32)
    requires BytesPerPixel(c) <= 4
    ensures DrawRows(video, c, target, x, 1, y, 1, pixel) == Draw(video, c, target, x, y, pixel)
  {
    hide Stored;
    assert DrawRows(video, c, target, x, 1, y, 0, pixel) == video;
    assert DrawRow(video, c, target, x, 0, y, pixel) == video;
  }
}
