/** The FAT32 reader (Microsoft FAT32 File System Specification 1.03: boot sector
    and BPB, FAT data structure, directory structure).  A device is a sequence of
    512-byte sectors; 32-bit arithmetic wraps as in the source. */
module Fat32 {
  import opened Bytes
  import opened Arithmetic

  const SECTOR: nat := 512
  const EOC_MIN: nat := 0x0FFF_FFF8
  const ENTRY_SIZE: nat := 32
  const ATTR_DIRECTORY: nat := 0x10

  type Sector = s: seq<byte> | |s| == SECTOR witness seq<byte>(SECTOR, (i: nat) => 0)
  type Disk = seq<Sector>

  datatype Fs = Fs(sectorsPerCluster: nat, reservedSectors: nat, fatSize: nat, rootCluster: nat, firstData: nat)

  datatype Dirent = Dirent(name: seq<byte>, attributes: byte, firstCluster: nat, fileSize: nat)

  function ReadSector(disk: Disk, lba: nat): Option<Sector> {
    if lba < |disk| then Some(disk[lba]) else None
  }

  // ---- Mounting ----------------------------------------------------------------------

  /** A boot sector that describes a usable volume on this device: signature, sector
      size, no zero field, and a data area that starts on the device and below
      2^32, in numbers that do not wrap. */
  predicate Mountable(disk: Disk) {
    && 0 < |disk|
    && var boot := disk[0];
    && Le16(boot, 510) == 0xAA55 && Le16(boot, 11) == SECTOR
    && 0 < boot[13] && 0 < Le16(boot, 14) && 0 < Le32(boot, 36) && 2 <= Le32(boot, 44)
    && (Le32(boot, 32) != 0 || |disk| % WRAP32 != 0)
    && Le16(boot, 14) + 2 * Le32(boot, 36) < Min(|disk|, WRAP32)
  }

  function Mount(disk: Disk): (r: Option<Fs>)
    ensures r.Some? <==> Mountable(disk)
    ensures r.Some? ==>
      var boot, fs := disk[0], r.value;
      && fs.sectorsPerCluster == boot[13] && fs.reservedSectors == Le16(boot, 14)
      && fs.fatSize == Le32(boot, 36) && fs.rootCluster == Le32(boot, 44)
      && fs.firstData == fs.reservedSectors + 2 * fs.fatSize
  {
    if |disk| == 0 then None
    else
      var boot := disk[0];
      if Le16(boot, 510) != 0xAA55 || Le16(boot, 11) != SECTOR then None
      else
        var fs := Fs(boot[13], Le16(boot, 14), Le32(boot, 36), Le32(boot, 44),
                     (Le16(boot, 14) + 2 * Le32(boot, 36)) % WRAP32);
        var total := if Le32(boot, 32) == 0 then |disk| % WRAP32 else Le32(boot, 32);
        if fs.sectorsPerCluster == 0 || fs.reservedSectors == 0 || fs.fatSize == 0 || fs.rootCluster < 2 || total == 0
        then None
        else if fs.fatSize > (WRAP32 - 1 - fs.reservedSectors) / 2 then None
        else if fs.firstData >= |disk| then None
        else Some(fs)
  }

  predicate Mounted(fs: Fs) { 0 < fs.sectorsPerCluster < 0x100 }

  function ClusterSize(fs: Fs): nat { SECTOR * fs.sectorsPerCluster }

  // ---- Chains --------------------------------------------------------------------------

  /** The FAT entry of a cluster: its low 28 bits. */
  function NextCluster(disk: Disk, fs: Fs, cluster: nat): Option<nat> {
    var offset := cluster * 4 % WRAP32;
    match ReadSector(disk, (fs.reservedSectors + offset / SECTOR) % WRAP32)
    case None => None
    case Some(sector) => FatWord(sector, offset % SECTOR)
  }

  function FatWord(sector: Sector, index: nat): Option<nat> {
    if index + 4 > SECTOR then None else Some(Le32(sector, index) % 0x1000_0000)
  }

  /** The next data cluster, if the chain goes on. */
  function Follow(disk: Disk, fs: Fs, cluster: nat): Option<nat> {
    match NextCluster(disk, fs, cluster)
    case None => None
    case Some(next) => if next >= EOC_MIN || next < 2 then None else Some(next)
  }

  lemma FollowIs(disk: Disk, fs: Fs, cluster: nat)
    ensures var next := NextCluster(disk, fs, cluster);
      Follow(disk, fs, cluster) ==
        if next.None? || next.value >= 0x0FFF_FFF8 || next.value < 2 then None else next
  {
    hide NextCluster;
  }

  /** The k-th cluster of the chain that starts at `first`. */
  function Nth(disk: Disk, fs: Fs, first: nat, k: nat): Option<nat>
    decreases k
  {
    if k == 0 then Some(first)
    else
      match Nth(disk, fs, first, k - 1)
      case None => None
      case Some(c) => Follow(disk, fs, c)
  }

  function ClusterLba(fs: Fs, cluster: nat): nat {
    (fs.firstData + (cluster - 2) % WRAP32 * fs.sectorsPerCluster) % WRAP32
  }

  /** Sector `i` of a cluster. */
  function DataSector(disk: Disk, fs: Fs, cluster: nat, i: nat): Option<Sector> {
    ReadSector(disk, (ClusterLba(fs, cluster) + i) % WRAP32)
  }

  /** Byte `w` of a cluster. */
  function ClusterByte(disk: Disk, fs: Fs, cluster: nat, w: nat): Option<byte> {
    match DataSector(disk, fs, cluster, w / SECTOR)
    case None => None
    case Some(sector) => Some(sector[w % SECTOR])
  }

  function Quotient(x: nat, d: nat): nat
    requires d > 0
  {
    x / d
  }

  function Remainder(x: nat, d: nat): nat
    requires d > 0
  {
    x % d
  }

  /** Which cluster of its chain holds byte `x`, and where in it. */
  function ClusterOf(fs: Fs, x: nat): nat
    requires Mounted(fs)
  {
    Quotient(x, ClusterSize(fs))
  }

  function Inside(fs: Fs, x: nat): nat
    requires Mounted(fs)
  {
    Remainder(x, ClusterSize(fs))
  }

  /** Byte `x` of the data the chain from `first` holds. */
  function ChainByte(disk: Disk, fs: Fs, first: nat, x: nat): Option<byte>
    requires Mounted(fs)
  {
    match Nth(disk, fs, first, ClusterOf(fs, x))
    case None => None
    case Some(c) => ClusterByte(disk, fs, c, Inside(fs, x))
  }

  // ---- Reading a file ------------------------------------------------------------------

  predicate GoodRequest(entry: Dirent, offset: nat, length: nat) {
    && entry.attributes / 0x10 % 2 == 0
    && offset <= entry.fileSize && length <= entry.fileSize - offset
    && entry.firstCluster >= 2
  }

  /** Every byte of the request is on the chain and on the device. */
  predicate Readable(disk: Disk, fs: Fs, first: nat, offset: nat, length: nat)
    requires Mounted(fs)
  {
    forall x: nat | offset <= x < offset + length :: ChainByte(disk, fs, first, x).Some?
  }

  /** A byte inside the k-th cluster. */
  lemma InCluster(disk: Disk, fs: Fs, first: nat, k: nat, c: nat, w: nat, x: nat)
    requires Mounted(fs) && Nth(disk, fs, first, k) == Some(c)
    requires w < ClusterSize(fs) && x == k * ClusterSize(fs) + w
    ensures ChainByte(disk, fs, first, x) == ClusterByte(disk, fs, c, w)
  {
    hide Nth, ClusterByte, ClusterSize;
    Unique(x, ClusterSize(fs), k, w);
  }

  lemma {:induction false} ShortChain(disk: Disk, fs: Fs, first: nat, k: nat, j: nat)
    requires Nth(disk, fs, first, k) == None && k <= j
    ensures Nth(disk, fs, first, j) == None
    decreases j
  {
    if k < j { ShortChain(disk, fs, first, k, j - 1); }
  }

  /** A byte beyond the end of the chain. */
  lemma BeyondChain(disk: Disk, fs: Fs, first: nat, k: nat, x: nat)
    requires Mounted(fs) && Nth(disk, fs, first, k) == None && x >= k * ClusterSize(fs)
    ensures ChainByte(disk, fs, first, x) == None
  {
    hide Nth, ClusterByte, ClusterSize;
    ClusterSizePositive(fs);
    QuotientAtLeast(x, ClusterSize(fs), k);
    ShortChain(disk, fs, first, k, ClusterOf(fs, x));
  }

  lemma QuotientAtLeast(x: nat, d: nat, k: nat)
    requires d > 0 && x >= k * d
    ensures x / d >= k
  {
    var q := x / d;
    if q < k { Gap(k, q, d); }
  }

  /** Copies `count` bytes of a sector into the buffer. */
  method CopyBytes(buffer: array<byte>, at: nat, sector: Sector, from: nat, count: nat)
    requires at + count <= buffer.Length && from + count <= SECTOR
    modifies buffer
    ensures forall i: nat | i < buffer.Length ::
      buffer[i] == if at <= i < at + count then sector[from + (i - at)] else old(buffer[i])
  {
    for j := 0 to count
      invariant forall i: nat | i < buffer.Length ::
        buffer[i] == if at <= i < at + j then sector[from + (i - at)] else old(buffer[i])
    {
      buffer[at + j] := sector[from + j];
    }
  }

  lemma SectorSpan(fs: Fs, w: nat, count: nat)
    requires w < ClusterSize(fs) && count <= SECTOR - w % SECTOR
    ensures w + count <= ClusterSize(fs)
  {}

  /** The bytes from `w` to the end of its sector. */
  lemma SectorBytes(disk: Disk, fs: Fs, c: nat, w: nat, sector: Sector, i: nat)
    requires DataSector(disk, fs, c, w / SECTOR) == Some(sector) && w % SECTOR + i < SECTOR
    ensures ClusterByte(disk, fs, c, w + i) == Some(sector[w % SECTOR + i])
  {
    assert (w + i) / SECTOR == w / SECTOR && (w + i) % SECTOR == w % SECTOR + i;
  }

  /** The buffer's first `done` bytes are those of the chain from `offset` on. */
  ghost predicate Filled(disk: Disk, fs: Fs, first: nat, offset: nat, done: nat, bytes: seq<byte>)
    requires Mounted(fs)
  {
    done <= |bytes| && forall i: nat | i < done :: ChainByte(disk, fs, first, offset + i) == Some(bytes[i])
  }

  lemma FillMore(disk: Disk, fs: Fs, first: nat, offset: nat, done: nat, before: seq<byte>, after: seq<byte>,
                 k: nat, c: nat, w: nat, sector: Sector, count: nat)
    requires Mounted(fs) && Filled(disk, fs, first, offset, done, before)
    requires |after| == |before| && done + count <= |after|
    requires Nth(disk, fs, first, k) == Some(c) && w < ClusterSize(fs) && offset + done == k * ClusterSize(fs) + w
    requires DataSector(disk, fs, c, w / SECTOR) == Some(sector) && count <= SECTOR - w % SECTOR
    requires forall i: nat | i < |after| ::
      after[i] == if done <= i < done + count then sector[w % SECTOR + (i - done)] else before[i]
    ensures Filled(disk, fs, first, offset, done + count, after)
  {
    hide Nth, ClusterByte, ClusterSize, ChainByte, DataSector;
    SectorSpan(fs, w, count);
    forall i: nat | i < done + count ensures ChainByte(disk, fs, first, offset + i) == Some(after[i]) {
      if i >= done {
        SectorBytes(disk, fs, c, w, sector, i - done);
        InCluster(disk, fs, first, k, c, w + (i - done), offset + i);
      }
    }
  }

  /** Reading succeeds exactly when the request is wholly readable, and then the
      buffer holds exactly those bytes of the chain. */
  method ReadFile(disk: Disk, fs: Fs, entry: Dirent, offset: u32, length: u32, buffer: array<byte>) returns (ok: bool)
    requires Mounted(fs) && buffer.Length >= length
    modifies buffer
    ensures ok <==> GoodRequest(entry, offset, length) && Readable(disk, fs, entry.firstCluster, offset, length)
    ensures ok ==> Filled(disk, fs, entry.firstCluster, offset, length, buffer[..])
    ensures forall i: nat | length <= i < buffer.Length :: buffer[i] == old(buffer[i])
  {
    hide Nth, ClusterByte, ClusterSize, ChainByte, DataSector, Follow, NextCluster;
    if entry.attributes / ATTR_DIRECTORY % 2 == 1 || offset > entry.fileSize || length > entry.fileSize - offset
       || entry.firstCluster < 2 { return false; }
    if length == 0 { return true; }
    ClusterSizePositive(fs);
    var size := ClusterSize(fs);
    var first := entry.firstCluster;
    var cluster: nat, within: nat := first, offset;
    ghost var k: nat := 0;
    NthStep(disk, fs, first, 0);
    while within >= size
      invariant within + k * size == offset && Nth(disk, fs, first, k) == Some(cluster)
      invariant unchanged(buffer)
      decreases within
    {
      NthStep(disk, fs, first, k + 1);
      OneMore(k, size);
      FollowIs(disk, fs, cluster);
      var next := NextCluster(disk, fs, cluster);
      if next.None? || next.value >= EOC_MIN || next.value < 2 {
        BeyondChain(disk, fs, first, k + 1, offset);
        return false;
      }
      cluster, within, k := next.value, within - size, k + 1;
    }
    var done: nat := 0;
    while done < length
      invariant done <= length && (done < length ==> within < size)
      invariant done < length ==> within + k * size == offset + done && Nth(disk, fs, first, k) == Some(cluster)
      invariant Filled(disk, fs, first, offset, done, buffer[..])
      invariant forall i: nat | length <= i < buffer.Length :: buffer[i] == old(buffer[i])
      decreases length - done
    {
      InCluster(disk, fs, first, k, cluster, within, offset + done);
      var sector := DataSector(disk, fs, cluster, within / SECTOR);
      if sector.None? {
        MissingSector(disk, fs, cluster, within);
        return false;
      }
      var start := within % SECTOR;
      var count := if SECTOR - start > length - done then length - done else SECTOR - start;
      ghost var before := buffer[..];
      CopyBytes(buffer, done, sector.value, start, count);
      FillMore(disk, fs, first, offset, done, before, buffer[..], k, cluster, within, sector.value, count);
      SectorSpan(fs, within, count);
      done, within := done + count, within + count;
      if done < length && within >= size {
        NthStep(disk, fs, first, k + 1);
        OneMore(k, size);
        FollowIs(disk, fs, cluster);
        var next := NextCluster(disk, fs, cluster);
        if next.None? || next.value >= EOC_MIN || next.value < 2 {
          BeyondChain(disk, fs, first, k + 1, offset + done);
          return false;
        }
        cluster, within, k := next.value, 0, k + 1;
      }
    }
    FilledReadable(disk, fs, first, offset, length, buffer[..]);
    ok := true;
  }

  lemma ClusterSizePositive(fs: Fs)
    requires Mounted(fs)
    ensures ClusterSize(fs) > 0
  {}

  lemma OneMore(k: nat, size: nat)
    ensures (k + 1) * size == k * size + size
  {}

  lemma NthStep(disk: Disk, fs: Fs, first: nat, k: nat)
    ensures k == 0 ==> Nth(disk, fs, first, k) == Some(first)
    ensures k > 0 ==> Nth(disk, fs, first, k) == match Nth(disk, fs, first, k - 1)
                                                 case None => None
                                                 case Some(c) => Follow(disk, fs, c)
  {}

  lemma MissingSector(disk: Disk, fs: Fs, c: nat, w: nat)
    requires DataSector(disk, fs, c, w / SECTOR) == None
    ensures ClusterByte(disk, fs, c, w) == None
  {}

  lemma FilledReadable(disk: Disk, fs: Fs, first: nat, offset: nat, length: nat, bytes: seq<byte>)
    requires Mounted(fs) && Filled(disk, fs, first, offset, length, bytes)
    ensures Readable(disk, fs, first, offset, length)
  {
    hide ChainByte;
    forall x: nat | offset <= x < offset + length ensures ChainByte(disk, fs, first, x).Some? {
      assert ChainByte(disk, fs, first, offset + (x - offset)) == Some(bytes[x - offset]);
    }
  }

  // ---- The concatenated chain --------------------------------------------------------------

  /** All sectors of a cluster, one after the other. */
  function ClusterData(disk: Disk, fs: Fs, cluster: nat, sectors: nat): Option<seq<byte>>
    decreases sectors
  {
    if sectors == 0 then Some([])
    else
      match (ClusterData(disk, fs, cluster, sectors - 1), DataSector(disk, fs, cluster, sectors - 1))
      case (Some(bytes), Some(sector)) => Some(bytes + sector)
      case _ => None
  }

  /** The first `n` clusters of a chain, concatenated. */
  function ChainData(disk: Disk, fs: Fs, first: nat, n: nat): Option<seq<byte>>
    decreases n
  {
    if n == 0 then Some([])
    else
      match (ChainData(disk, fs, first, n - 1), Nth(disk, fs, first, n - 1))
      case (Some(bytes), Some(c)) =>
        (match ClusterData(disk, fs, c, fs.sectorsPerCluster)
         case None => None
         case Some(more) => Some(bytes + more))
      case _ => None
  }

  lemma {:induction false} ClusterDataBytes(disk: Disk, fs: Fs, c: nat, sectors: nat, w: nat)
    requires ClusterData(disk, fs, c, sectors).Some?
    ensures |ClusterData(disk, fs, c, sectors).value| == SECTOR * sectors
    ensures w < SECTOR * sectors ==> ClusterByte(disk, fs, c, w) == Some(ClusterData(disk, fs, c, sectors).value[w])
    decreases sectors
  {
    hide DataSector;
    if sectors > 0 {
      ClusterDataBytes(disk, fs, c, sectors - 1, w);
    }
  }

  /** Byte `x` of the concatenation is byte `x` of the chain. */
  lemma {:induction false} ChainDataBytes(disk: Disk, fs: Fs, first: nat, n: nat, x: nat)
    requires Mounted(fs) && ChainData(disk, fs, first, n).Some?
    ensures |ChainData(disk, fs, first, n).value| == n * ClusterSize(fs)
    ensures x < n * ClusterSize(fs) ==> ChainByte(disk, fs, first, x) == Some(ChainData(disk, fs, first, n).value[x])
    decreases n
  {
    hide Nth, ClusterByte, ClusterData, ChainByte;
    if n > 0 {
      var size := ClusterSize(fs);
      OneMore(n - 1, size);
      ChainDataBytes(disk, fs, first, n - 1, x);
      var c := Nth(disk, fs, first, n - 1).value;
      var w := x - (n - 1) * size;
      if w >= 0 {
        ClusterDataBytes(disk, fs, c, fs.sectorsPerCluster, w);
        if w < size { InCluster(disk, fs, first, n - 1, c, w, x); }
      } else {
        ClusterDataBytes(disk, fs, c, fs.sectorsPerCluster, 0);
      }
    }
  }

  /** A volume whose chain from `first` has all its clusters on the device. */
  ghost predicate WellFormedChain(disk: Disk, fs: Fs, first: nat) {
    forall k: nat | Nth(disk, fs, first, k).Some? ::
      ClusterData(disk, fs, Nth(disk, fs, first, k).value, fs.sectorsPerCluster).Some?
  }

  lemma {:induction false} ChainDataExists(disk: Disk, fs: Fs, first: nat, n: nat)
    requires WellFormedChain(disk, fs, first)
    ensures ChainData(disk, fs, first, n).Some? <==> n == 0 || Nth(disk, fs, first, n - 1).Some?
    decreases n
  {
    hide Follow, ClusterData;
    if n > 0 { ChainDataExists(disk, fs, first, n - 1); }
  }

  function Ceiling(x: nat, d: nat): nat
    requires d > 0
  {
    (x + d - 1) / d
  }

  /** On a well-formed chain a non-empty range is readable exactly when the chain
      has ceil((offset + length) / cluster size) clusters. */
  lemma ReadableIff(disk: Disk, fs: Fs, first: nat, offset: nat, length: nat)
    requires Mounted(fs) && WellFormedChain(disk, fs, first) && length > 0
    ensures Readable(disk, fs, first, offset, length)
      <==> ChainData(disk, fs, first, Ceiling(offset + length, ClusterSize(fs))).Some?
  {
    hide Nth, ClusterData, ChainByte, ChainData, ClusterSize;
    ClusterSizePositive(fs);
    var n := Ceiling(offset + length, ClusterSize(fs));
    CeilingBounds(offset + length, ClusterSize(fs));
    ChainDataExists(disk, fs, first, n);
    if ChainData(disk, fs, first, n).Some? {
      forall x: nat | offset <= x < offset + length ensures ChainByte(disk, fs, first, x).Some? {
        ChainDataBytes(disk, fs, first, n, x);
      }
    } else {
      BeyondChain(disk, fs, first, n - 1, offset + length - 1);
    }
  }

  lemma CeilingBounds(x: nat, d: nat)
    requires d > 0 && x > 0
    ensures var n := Ceiling(x, d); n > 0 && x <= n * d && x - 1 >= (n - 1) * d
  {}

  /** A successful read is a slice of the concatenated chain. */
  lemma FilledIsSlice(disk: Disk, fs: Fs, first: nat, offset: nat, length: nat, bytes: seq<byte>, n: nat)
    requires Mounted(fs) && Filled(disk, fs, first, offset, length, bytes)
    requires ChainData(disk, fs, first, n).Some? && offset + length <= n * ClusterSize(fs)
    ensures offset + length <= |ChainData(disk, fs, first, n).value|
    ensures bytes[..length] == ChainData(disk, fs, first, n).value[offset..offset + length]
  {
    hide Nth, ClusterData, ChainByte, ChainData, ClusterSize;
    var data := ChainData(disk, fs, first, n).value;
    ChainDataBytes(disk, fs, first, n, 0);
    forall i: nat | i < length ensures bytes[i] == data[offset + i] {
      ChainDataBytes(disk, fs, first, n, offset + i);
    }
    hide Filled;
  }

  /** Adjacent reads concatenate to one read. */
  lemma AdjacentReads(disk: Disk, fs: Fs, first: nat, offset: nat, a: nat, b: nat, left: seq<byte>, right: seq<byte>)
    requires Mounted(fs) && |left| == a && |right| == b
    requires Filled(disk, fs, first, offset, a, left) && Filled(disk, fs, first, offset + a, b, right)
    ensures Filled(disk, fs, first, offset, a + b, left + right)
  {
    hide ChainByte;
    forall i: nat | i < a + b ensures ChainByte(disk, fs, first, offset + i) == Some((left + right)[i]) {
      if i >= a { assert ChainByte(disk, fs, first, offset + a + (i - a)) == Some(right[i - a]); }
    }
  }

  // ---- Root directory entries ------------------------------------------------------------

  const SPACE: byte := 0x20
  const DOT: byte := 0x2E

  /** The characters before the first space. */
  function Trimmed(raw: seq<byte>): seq<byte> {
    if raw == [] || raw[0] == SPACE then [] else [raw[0]] + Trimmed(raw[1..])
  }

  /** The 8.3 name: base, and a dot and extension unless the extension is blank. */
  function ShortName(raw: seq<byte>): seq<byte>
    requires |raw| >= 11
  {
    Trimmed(raw[..8]) + (if raw[8] != SPACE && raw[8] != 0 then [DOT] + Trimmed(raw[8..11]) else [])
  }

  /** Appends the characters raw[from..to] up to the first space. */
  method AppendTrimmed(prefix: seq<byte>, raw: seq<byte>, from: nat, to: nat) returns (name: seq<byte>)
    requires from <= to <= |raw| && |prefix| + (to - from) <= 12
    ensures name == prefix + Trimmed(raw[from..to]) && |name| <= |prefix| + (to - from)
  {
    name := prefix;
    var i := from;
    while i < to && raw[i] != SPACE
      invariant from <= i <= to && |name| == |prefix| + (i - from)
      invariant name + Trimmed(raw[i..to]) == prefix + Trimmed(raw[from..to])
    {
      TrimStep(raw[i..to]);
      assert raw[i..to][1..] == raw[i + 1..to];
      assert name + ([raw[i]] + Trimmed(raw[i + 1..to])) == name + [raw[i]] + Trimmed(raw[i + 1..to]);
      if |name| < 12 { name := name + [raw[i]]; }
      i := i + 1;
    }
    assert Trimmed(raw[i..to]) == [];
  }

  method FormatName(raw: seq<byte>) returns (name: seq<byte>)
    requires |raw| >= 11
    ensures name == ShortName(raw) && |name| <= 12
  {
    hide Trimmed;
    name := AppendTrimmed([], raw, 0, 8);
    assert raw[0..8] == raw[..8];
    if raw[8] != SPACE && raw[8] != 0 {
      ghost var base := name;
      name := AppendTrimmed(name + [DOT], raw, 8, 11);
      assert name == base + ([DOT] + Trimmed(raw[8..11]));
    }
  }

  lemma TrimStep(raw: seq<byte>)
    requires raw != [] && raw[0] != SPACE
    ensures Trimmed(raw) == [raw[0]] + Trimmed(raw[1..])
  {}

  /** Free, deleted and long-name entries are not files. */
  predicate UsedEntry(raw: seq<byte>)
    requires |raw| == ENTRY_SIZE
  {
    raw[0] != 0 && raw[0] != 0xE5 && raw[11] % 0x10 != 0x0F
  }

  function DecodeEntry(raw: seq<byte>): Dirent
    requires |raw| == ENTRY_SIZE
  {
    Dirent(ShortName(raw), raw[11], Le16(raw, 20) * 0x1_0000 + Le16(raw, 26), Le32(raw, 28))
  }

  /** Bytes 32i to 32i+31 of the root directory's chain. */
  function RootBytes(disk: Disk, fs: Fs, index: nat): seq<byte>
    requires Mounted(fs) && Readable(disk, fs, fs.rootCluster, ENTRY_SIZE * index, ENTRY_SIZE)
  {
    seq<byte>(ENTRY_SIZE, (j: nat) requires j < ENTRY_SIZE =>
      ChainByte(disk, fs, fs.rootCluster, ENTRY_SIZE * index + j).value)
  }

  /** A root entry is found exactly when its 32 bytes are on the chain and form a
      used entry, and is then the decoding of those bytes. */
  method ReadRootEntry(disk: Disk, fs: Fs, index: u32) returns (r: Option<Dirent>)
    requires Mounted(fs)
    ensures r.Some? <==>
      && Readable(disk, fs, fs.rootCluster, ENTRY_SIZE * index, ENTRY_SIZE)
      && UsedEntry(RootBytes(disk, fs, index))
    ensures r.Some? ==> r.value == DecodeEntry(RootBytes(disk, fs, index))
  {
    hide Nth, ClusterByte, ChainByte, DataSector, Follow, NextCluster, ShortName, UsedEntry, DecodeEntry, Readable,
         ClusterSize;
    var perCluster := 16 * fs.sectorsPerCluster;
    EntriesPerCluster(fs);
    var cluster: nat, remaining: nat := fs.rootCluster, index;
    ghost var k: nat := 0;
    NthStep(disk, fs, fs.rootCluster, 0);
    while remaining >= perCluster
      invariant remaining + k * perCluster == index && Nth(disk, fs, fs.rootCluster, k) == Some(cluster)
      decreases remaining
    {
      NthStep(disk, fs, fs.rootCluster, k + 1);
      OneMore(k, perCluster);
      FollowIs(disk, fs, cluster);
      var next := NextCluster(disk, fs, cluster);
      if next.None? || next.value >= EOC_MIN || next.value < 2 {
        EntryPosition(fs, index, remaining - perCluster, k + 1);
        BeyondChain(disk, fs, fs.rootCluster, k + 1, ENTRY_SIZE * index);
        NotReadable(disk, fs, fs.rootCluster, ENTRY_SIZE * index, ENTRY_SIZE, 0);
        return None;
      }
      cluster, remaining, k := next.value, remaining - perCluster, k + 1;
    }
    EntryPosition(fs, index, remaining, k);
    var w := ENTRY_SIZE * remaining;
    var sector := DataSector(disk, fs, cluster, remaining / 16);
    if sector.None? {
      InCluster(disk, fs, fs.rootCluster, k, cluster, w, ENTRY_SIZE * index);
      MissingSector(disk, fs, cluster, w);
      NotReadable(disk, fs, fs.rootCluster, ENTRY_SIZE * index, ENTRY_SIZE, 0);
      return None;
    }
    var raw := sector.value[remaining % 16 * ENTRY_SIZE..remaining % 16 * ENTRY_SIZE + ENTRY_SIZE];
    RawIsRoot(disk, fs, index, remaining, k, cluster, sector.value, raw);
    if raw[0] == 0 || raw[0] == 0xE5 || raw[11] % 0x10 == 0x0F {
      UsedMeans(raw);
      return None;
    }
    UsedMeans(raw);
    var name := FormatName(raw);
    DecodeMeans(raw);
    return Some(Dirent(name, raw[11], Le16(raw, 20) * 0x1_0000 + Le16(raw, 26), Le32(raw, 28)));
  }

  lemma UsedMeans(raw: seq<byte>)
    requires |raw| == ENTRY_SIZE
    ensures UsedEntry(raw) <==> raw[0] != 0 && raw[0] != 0xE5 && raw[11] % 0x10 != 0x0F
  {}

  lemma DecodeMeans(raw: seq<byte>)
    requires |raw| == ENTRY_SIZE
    ensures DecodeEntry(raw) == Dirent(ShortName(raw), raw[11], Le16(raw, 20) * 0x1_0000 + Le16(raw, 26), Le32(raw, 28))
  {}

  lemma EntriesPerCluster(fs: Fs)
    requires Mounted(fs)
    ensures ClusterSize(fs) == ENTRY_SIZE * (16 * fs.sectorsPerCluster)
  {}

  lemma EntryPosition(fs: Fs, index: nat, remaining: nat, k: nat)
    requires Mounted(fs) && remaining + k * (16 * fs.sectorsPerCluster) == index
    ensures ENTRY_SIZE * index == k * ClusterSize(fs) + ENTRY_SIZE * remaining
    ensures remaining < 16 * fs.sectorsPerCluster ==> ENTRY_SIZE * remaining + ENTRY_SIZE <= ClusterSize(fs)
    ensures ENTRY_SIZE * remaining / SECTOR == remaining / 16
    ensures ENTRY_SIZE * remaining % SECTOR == remaining % 16 * ENTRY_SIZE
  {}

  lemma NotReadable(disk: Disk, fs: Fs, first: nat, offset: nat, length: nat, i: nat)
    requires Mounted(fs) && i < length && ChainByte(disk, fs, first, offset + i) == None
    ensures !Readable(disk, fs, first, offset, length)
  {}

  lemma RawIsRoot(disk: Disk, fs: Fs, index: nat, remaining: nat, k: nat, c: nat, sector: Sector, raw: seq<byte>)
    requires Mounted(fs) && Nth(disk, fs, fs.rootCluster, k) == Some(c)
    requires remaining + k * (16 * fs.sectorsPerCluster) == index && remaining < 16 * fs.sectorsPerCluster
    requires DataSector(disk, fs, c, remaining / 16) == Some(sector)
    requires raw == sector[remaining % 16 * ENTRY_SIZE..remaining % 16 * ENTRY_SIZE + ENTRY_SIZE]
    ensures Readable(disk, fs, fs.rootCluster, ENTRY_SIZE * index, ENTRY_SIZE)
    ensures RootBytes(disk, fs, index) == raw
  {
    hide Nth, ClusterByte, ChainByte, DataSector, ClusterSize;
    EntryPosition(fs, index, remaining, k);
    var w := ENTRY_SIZE * remaining;
    forall j: nat | j < ENTRY_SIZE ensures ChainByte(disk, fs, fs.rootCluster, ENTRY_SIZE * index + j) == Some(raw[j]) {
      SectorBytes(disk, fs, c, w, sector, j);
      InCluster(disk, fs, fs.rootCluster, k, c, w + j, ENTRY_SIZE * index + j);
    }
    forall x: nat | ENTRY_SIZE * index <= x < ENTRY_SIZE * index + ENTRY_SIZE
      ensures ChainByte(disk, fs, fs.rootCluster, x).Some?
    {
      var j: nat := x - ENTRY_SIZE * index;
      assert ChainByte(disk, fs, fs.rootCluster, ENTRY_SIZE * index + j) == Some(raw[j]);
    }
  }
}
