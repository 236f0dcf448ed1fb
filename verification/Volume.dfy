/** Where a FAT32 volume keeps things on the device, in absolute byte addresses
    (Microsoft FAT32 File System Specification 1.03: boot sector and BPB, FAT data
    structure, directory structure), and that the reader finds them there. */
module Volume {
  import opened Bytes
  import opened Arithmetic
  import opened Fat32

  function DeviceByte(disk: Disk, a: nat): Option<byte> {
    if a / 512 < |disk| then Some(disk[a / 512][a % 512]) else None
  }

  /** The first sector of a cluster; cluster 2 is the first of the data area. */
  function ClusterSector(fs: Fs, c: nat): nat
    requires c >= 2
  {
    fs.firstData + (c - 2) * fs.sectorsPerCluster
  }

  /** Where byte `w` of a cluster lies. */
  function ClusterAddress(fs: Fs, c: nat, w: nat): nat
    requires c >= 2
  {
    512 * ClusterSector(fs, c) + w
  }

  /** The low 28 bits of the four bytes that the first FAT keeps for a cluster. */
  function FatEntry(disk: Disk, fs: Fs, c: nat): Option<nat> {
    var a := 512 * fs.reservedSectors + 4 * c;
    match (DeviceByte(disk, a), DeviceByte(disk, a + 1), DeviceByte(disk, a + 2), DeviceByte(disk, a + 3))
    case (Some(b0), Some(b1), Some(b2), Some(b3)) =>
      Some((b0 as int) + 0x100 * (b1 as int) + 0x1_0000 * (b2 as int) + 0x100_0000 * (b3 as int % 0x10))
    case _ => None
  }

  /** The clusters of a file: data clusters, each naming the next in the FAT. */
  predicate Linked(disk: Disk, fs: Fs, clusters: seq<nat>) {
    && clusters != []
    && (forall k: nat | k < |clusters| :: 2 <= clusters[k] < 0x0FFF_FFF8)
    && (forall k: nat, j: nat | k + 1 == j < |clusters| :: FatEntry(disk, fs, clusters[k]) == Some(clusters[j]))
  }

  /** Sector numbers of the cluster stay below 2^32. */
  predicate Fits(fs: Fs, c: nat) { c >= 2 && ClusterSector(fs, c) + fs.sectorsPerCluster <= 0x1_0000_0000 }

  lemma ClusterStart(fs: Fs, c: nat, i: nat)
    requires Mounted(fs) && Fits(fs, c) && c < WRAP32 && i < fs.sectorsPerCluster
    ensures (ClusterLba(fs, c) + i) % WRAP32 == ClusterSector(fs, c) + i
  {
    assert (c - 2) % WRAP32 == c - 2;
    assert ClusterLba(fs, c) == ClusterSector(fs, c) % WRAP32;
    hide ClusterSector, ClusterLba;
  }

  lemma InSector(s: nat, w: nat)
    ensures (512 * s + w) / 512 == s + w / 512 && (512 * s + w) % 512 == w % 512
  {}

  lemma BeforeEnd(w: nat, n: nat)
    requires w < 512 * n
    ensures w / 512 < n
  {}

  /** Byte `w` of a cluster is the device's byte at that address. */
  lemma ClusterOnDevice(disk: Disk, fs: Fs, c: nat, w: nat)
    requires Mounted(fs) && Fits(fs, c) && c < WRAP32 && w < 512 * fs.sectorsPerCluster
    ensures ClusterByte(disk, fs, c, w) == DeviceByte(disk, ClusterAddress(fs, c, w))
  {
    hide ClusterLba, ClusterSector;
    BeforeEnd(w, fs.sectorsPerCluster);
    ClusterStart(fs, c, w / 512);
    InSector(ClusterSector(fs, c), w);
  }

  lemma FatPosition(r: nat, c: nat, i: nat)
    requires r < 0x1_0000 && c < 0x1000_0000 && i < 4
    ensures (r + 4 * c / 512) % WRAP32 == r + 4 * c / 512
    ensures c * 4 % WRAP32 == 4 * c && 4 * c % 512 + 4 <= 512
    ensures (512 * r + 4 * c + i) / 512 == r + 4 * c / 512 && (512 * r + 4 * c + i) % 512 == 4 * c % 512 + i
  {
    assert 4 * c % 512 == 4 * (c % 128);
  }

  lemma LowBits(a: nat, b: nat, c: nat, d: nat)
    requires a < 0x100 && b < 0x100 && c < 0x100 && d < 0x100
    ensures (a + 0x100 * b + 0x1_0000 * c + 0x100_0000 * d) % 0x1000_0000
         == a + 0x100 * b + 0x1_0000 * c + 0x100_0000 * (d % 0x10)
  {}

  /** The FAT entry the reader follows is the one on the device. */
  lemma FatOnDevice(disk: Disk, fs: Fs, c: nat)
    requires fs.reservedSectors < 0x1_0000 && c < 0x1000_0000
    ensures NextCluster(disk, fs, c) == FatEntry(disk, fs, c)
  {
    var r := fs.reservedSectors;
    FatPosition(r, c, 0); FatPosition(r, c, 1); FatPosition(r, c, 2); FatPosition(r, c, 3);
    var s, at := r + 4 * c / 512, 4 * c % 512;
    if s < |disk| {
      var sector := disk[s];
      LowBits(sector[at], sector[at + 1], sector[at + 2], sector[at + 3]);
      assert FatWord(sector, at) == FatEntry(disk, fs, c);
    }
  }

  /** The reader's chain is the list of clusters that the FAT links. */
  lemma {:induction false} ChainIsLinked(disk: Disk, fs: Fs, clusters: seq<nat>, k: nat)
    requires fs.reservedSectors < 0x1_0000 && Linked(disk, fs, clusters) && k < |clusters|
    ensures Nth(disk, fs, clusters[0], k) == Some(clusters[k])
    decreases k
  {
    hide FatEntry, NextCluster;
    if k > 0 {
      ChainIsLinked(disk, fs, clusters, k - 1);
      FatOnDevice(disk, fs, clusters[k - 1]);
    }
  }

  /** The FAT entry names no further data cluster. */
  predicate Ends(disk: Disk, fs: Fs, c: nat) {
    match FatEntry(disk, fs, c)
    case None => true
    case Some(next) => next < 2 || next >= 0x0FFF_FFF8
  }

  /** The reader's chain is as long as the FAT makes it, and no longer. */
  lemma ChainLength(disk: Disk, fs: Fs, clusters: seq<nat>, k: nat)
    requires fs.reservedSectors < 0x1_0000 && Linked(disk, fs, clusters) && Ends(disk, fs, clusters[|clusters| - 1])
    ensures Nth(disk, fs, clusters[0], k).Some? <==> k < |clusters|
  {
    hide FatEntry, NextCluster, Follow;
    var n := |clusters|;
    if k < n {
      ChainIsLinked(disk, fs, clusters, k);
    } else {
      ChainIsLinked(disk, fs, clusters, n - 1);
      FatOnDevice(disk, fs, clusters[n - 1]);
      FollowIs(disk, fs, clusters[n - 1]);
      assert Nth(disk, fs, clusters[0], n) == None;
      ShortChain(disk, fs, clusters[0], n, k);
    }
  }

  /** All sectors of the cluster are on a device of at most 2^32 sectors. */
  predicate OnDisk(disk: Disk, fs: Fs, c: nat) {
    c >= 2 && ClusterSector(fs, c) + fs.sectorsPerCluster <= |disk| <= 0x1_0000_0000
  }

  lemma Split(x: nat, size: nat, n: nat) returns (k: nat, w: nat)
    requires size > 0 && x < n * size
    ensures k < n && w < size && x == k * size + w
  {
    k, w := x / size, x % size;
    Division(x, size);
    if k > n { Gap(k, n, size); }
  }

  lemma WithinIsReadable(disk: Disk, fs: Fs, clusters: seq<nat>, x: nat)
    requires Mounted(fs) && fs.reservedSectors < 0x1_0000 && Linked(disk, fs, clusters)
    requires forall k: nat | k < |clusters| :: OnDisk(disk, fs, clusters[k])
    requires x < |clusters| * (512 * fs.sectorsPerCluster)
    ensures ChainByte(disk, fs, clusters[0], x).Some?
  {
    hide ChainByte, FatEntry, ClusterSector, DeviceByte, ClusterAddress;
    var k, w := Split(x, 512 * fs.sectorsPerCluster, |clusters|);
    ChainOnDevice(disk, fs, clusters, k, w, x);
    OnDevice(disk, fs, clusters[k], w);
  }

  /** A request of a file whose clusters are all on the device is readable exactly if it
      ends within them. */
  lemma ReadableIffWithin(disk: Disk, fs: Fs, clusters: seq<nat>, offset: nat, length: nat)
    requires Mounted(fs) && fs.reservedSectors < 0x1_0000 && Linked(disk, fs, clusters)
    requires Ends(disk, fs, clusters[|clusters| - 1]) && length > 0
    requires forall k: nat | k < |clusters| :: OnDisk(disk, fs, clusters[k])
    ensures Readable(disk, fs, clusters[0], offset, length) <==>
      offset + length <= |clusters| * (512 * fs.sectorsPerCluster)
  {
    hide Nth, ChainByte, FatEntry, OnDisk;
    ChainLength(disk, fs, clusters, |clusters|);
    if offset + length <= |clusters| * (512 * fs.sectorsPerCluster) {
      forall x: nat | offset <= x < offset + length ensures ChainByte(disk, fs, clusters[0], x).Some? {
        WithinIsReadable(disk, fs, clusters, x);
      }
    } else {
      BeyondChain(disk, fs, clusters[0], |clusters|, offset + length - 1);
    }
  }

  lemma OnDevice(disk: Disk, fs: Fs, c: nat, w: nat)
    requires c >= 2 && ClusterSector(fs, c) + fs.sectorsPerCluster <= |disk| && w < 512 * fs.sectorsPerCluster
    ensures DeviceByte(disk, ClusterAddress(fs, c, w)).Some?
  {
    hide ClusterSector;
    BeforeEnd(w, fs.sectorsPerCluster);
    InSector(ClusterSector(fs, c), w);
  }

  /** Byte `w` of the k-th cluster of a file. */
  lemma ChainOnDevice(disk: Disk, fs: Fs, clusters: seq<nat>, k: nat, w: nat, x: nat)
    requires Mounted(fs) && fs.reservedSectors < 0x1_0000 && Linked(disk, fs, clusters)
    requires k < |clusters| && Fits(fs, clusters[k]) && w < 512 * fs.sectorsPerCluster
    requires x == k * (512 * fs.sectorsPerCluster) + w
    ensures ChainByte(disk, fs, clusters[0], x) == DeviceByte(disk, ClusterAddress(fs, clusters[k], w))
  {
    hide Nth, ClusterByte, DeviceByte, ClusterAddress, FatEntry, ChainByte, Fits;
    ChainIsLinked(disk, fs, clusters, k);
    InCluster(disk, fs, clusters[0], k, clusters[k], w, x);
    ClusterOnDevice(disk, fs, clusters[k], w);
  }

  /** What a successful read leaves in the buffer: the bytes of the device, in the order
      of the clusters that the FAT links. */
  lemma ReadsDevice(disk: Disk, fs: Fs, clusters: seq<nat>, offset: nat, length: nat, bytes: seq<byte>,
                    i: nat, k: nat, w: nat)
    requires Mounted(fs) && fs.reservedSectors < 0x1_0000 && Linked(disk, fs, clusters)
    requires Filled(disk, fs, clusters[0], offset, length, bytes) && i < length
    requires k < |clusters| && Fits(fs, clusters[k]) && w < 512 * fs.sectorsPerCluster
    requires offset + i == k * (512 * fs.sectorsPerCluster) + w
    ensures Some(bytes[i]) == DeviceByte(disk, ClusterAddress(fs, clusters[k], w))
  {
    hide ChainByte, DeviceByte, ClusterAddress, FatEntry, Fits;
    ChainOnDevice(disk, fs, clusters, k, w, offset + i);
  }

  // ---- Directory entries -------------------------------------------------------------------------

  /** A short directory entry as the specification lays it out. */
  function EntryBytes(name: seq<byte>, attributes: byte, middle: seq<byte>, high: u16, times: seq<byte>, low: u16,
                      size: u32): seq<byte>
    requires |name| == 11 && |middle| == 8 && |times| == 4
  {
    name + [attributes] + middle + Put16(high) + times + Put16(low) + Put32(size)
  }

  /** Its fields are found again, and it is a file or directory unless its first byte
      says free or deleted or its attributes say long name. */
  lemma EntryReadBack(name: seq<byte>, attributes: byte, middle: seq<byte>, high: u16, times: seq<byte>, low: u16,
                      size: u32)
    requires |name| == 11 && |middle| == 8 && |times| == 4
    ensures var raw := EntryBytes(name, attributes, middle, high, times, low, size);
      && |raw| == 32
      && DecodeEntry(raw) == Dirent(ShortName(name), attributes, 0x1_0000 * high + low, size)
      && (UsedEntry(raw) <==> name[0] != 0 && name[0] != 0xE5 && attributes % 0x10 != 0x0F)
  {
    hide Put16, Put32, Le16, Le32, ShortName;
    var raw := EntryBytes(name, attributes, middle, high, times, low, size);
    assert raw[20..22] == Put16(high);
    assert raw[26..28] == Put16(low);
    assert raw[28..32] == Put32(size);
    LoadStored16(raw, 20, high);
    LoadStored16(raw, 26, low);
    LoadStored32(raw, 28, size);
    assert raw[..11] == name;
    SameName(raw, name);
  }

  lemma SameName(raw: seq<byte>, name: seq<byte>)
    requires |name| == 11 && |raw| >= 11 && raw[..11] == name
    ensures ShortName(raw) == ShortName(name)
  {
    assert raw[..8] == name[..8] && raw[8..11] == name[8..11] && raw[8] == name[8];
  }

  function Blanks(n: nat): seq<byte> { seq<byte>(n, (i: nat) => 0x20) }

  lemma {:induction false} TrimBlanks(text: seq<byte>, n: nat)
    requires forall i: nat | i < |text| :: text[i] != 0x20
    ensures Trimmed(text + Blanks(n)) == text
  {
    var raw := text + Blanks(n);
    if text == [] {
      assert raw == [] || raw[0] == 0x20;
    } else {
      TrimBlanks(text[1..], n);
      assert raw[1..] == text[1..] + Blanks(n);
      assert text == [text[0]] + text[1..];
    }
  }

  /** A name padded with blanks to eight and three characters is shown as "base.ext", or
      as the base alone without an extension. */
  lemma NameReadBack(base: seq<byte>, ext: seq<byte>)
    requires |base| <= 8 && |ext| <= 3 && (ext == [] || ext[0] != 0)
    requires forall i: nat | i < |base| :: base[i] != 0x20
    requires forall i: nat | i < |ext| :: ext[i] != 0x20
    ensures ShortName(base + Blanks(8 - |base|) + (ext + Blanks(3 - |ext|))) ==
      base + if ext == [] then [] else [0x2E] + ext
  {
    hide Trimmed;
    var raw := base + Blanks(8 - |base|) + (ext + Blanks(3 - |ext|));
    assert raw[..8] == base + Blanks(8 - |base|);
    assert raw[8..11] == ext + Blanks(3 - |ext|);
    TrimBlanks(base, 8 - |base|);
    TrimBlanks(ext, 3 - |ext|);
    assert raw[8] == (ext + Blanks(3 - |ext|))[0];
    if ext == [] { assert base + [] == base; }
  }

  /** Root entry `index` is read from byte 32 * index of the root directory's clusters
      on. */
  lemma RootOnDevice(disk: Disk, fs: Fs, clusters: seq<nat>, index: nat, j: nat, k: nat, w: nat)
    requires Mounted(fs) && fs.reservedSectors < 0x1_0000 && Linked(disk, fs, clusters) && clusters[0] == fs.rootCluster
    requires Readable(disk, fs, fs.rootCluster, 32 * index, 32) && j < 32
    requires k < |clusters| && Fits(fs, clusters[k]) && w < 512 * fs.sectorsPerCluster
    requires 32 * index + j == k * (512 * fs.sectorsPerCluster) + w
    ensures Some(RootBytes(disk, fs, index)[j]) == DeviceByte(disk, ClusterAddress(fs, clusters[k], w))
  {
    hide ChainByte, DeviceByte, ClusterAddress, FatEntry, Fits;
    ChainOnDevice(disk, fs, clusters, k, w, 32 * index + j);
    assert ChainByte(disk, fs, fs.rootCluster, 32 * index + j).Some?;
  }
}
