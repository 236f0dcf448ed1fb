/** The persistent configuration record and its FNV-1a checksum. */
module Config {
  import opened Bytes
  import opened Arithmetic

  const OFFSET_BASIS: u32 := 2166136261
  const PRIME: nat := 16777619

  // ---- The hash ----------------------------------------------------------------------

  /** Exclusive or of the lowest n bits of two numbers. */
  function Xor(a: nat, b: nat, n: nat): nat {
    if n == 0 then 0 else (a % 2 + b % 2) % 2 + 2 * Xor(a / 2, b / 2, n - 1)
  }

  lemma {:induction false} XorBound(a: nat, b: nat, n: nat)
    ensures Xor(a, b, n) < Pow2(n)
  {
    if n > 0 { XorBound(a / 2, b / 2, n - 1); }
  }

  lemma {:induction false} XorTwice(a: nat, b: nat, n: nat)
    requires a < Pow2(n)
    ensures Xor(Xor(a, b, n), b, n) == a
  {
    if n > 0 {
      var x := Xor(a, b, n);
      LowBit((a % 2 + b % 2) % 2, Xor(a / 2, b / 2, n - 1));
      XorTwice(a / 2, b / 2, n - 1);
      BitTwice(a % 2, b % 2);
      assert Xor(x, b, n) == (x % 2 + b % 2) % 2 + 2 * Xor(x / 2, b / 2, n - 1);
    }
  }

  lemma BitTwice(x: nat, y: nat)
    requires x < 2 && y < 2
    ensures ((x + y) % 2 + y) % 2 == x
  {}

  lemma LowBit(low: nat, rest: nat)
    requires low < 2
    ensures (low + 2 * rest) / 2 == rest && (low + 2 * rest) % 2 == low
  {}

  lemma {:induction false} XorCommutes(a: nat, b: nat, n: nat)
    ensures Xor(a, b, n) == Xor(b, a, n)
  {
    if n > 0 { XorCommutes(a / 2, b / 2, n - 1); }
  }

  lemma OneUp(a: nat, i: nat)
    requires i > 0
    ensures a / 2 / Pow2(i - 1) == a / Pow2(i)
  {
    var p := Pow2(i - 1);
    var x, q := a / 2, a / 2 / p;
    assert x == q * p + x % p;
    assert a == q * (2 * p) + (2 * (x % p) + a % 2);
    Unique(a, 2 * p, q, 2 * (x % p) + a % 2);
  }

  /** A binary digit of the exclusive or is 1 exactly where the digits differ. */
  lemma {:induction false} XorDigit(a: nat, b: nat, n: nat, i: nat)
    requires i < n
    ensures Xor(a, b, n) / Pow2(i) % 2 == if a / Pow2(i) % 2 != b / Pow2(i) % 2 then 1 else 0
  {
    var x := Xor(a, b, n);
    LowBit((a % 2 + b % 2) % 2, Xor(a / 2, b / 2, n - 1));
    assert x / 2 == Xor(a / 2, b / 2, n - 1) && x % 2 == (a % 2 + b % 2) % 2;
    hide Xor;
    if i == 0 {
      assert Pow2(0) == 1;
    } else {
      hide Pow2;
      XorDigit(a / 2, b / 2, n - 1, i - 1);
      OneUp(a, i);
      OneUp(b, i);
      OneUp(x, i);
    }
  }

  lemma ByteXor(a: byte, b: byte)
    ensures Xor(a, b, 8) < 0x100
  {
    XorBound(a, b, 8);
    assert Pow2(8) == 0x100;
  }

  /** `hash ^ byte`: only the lowest eight bits of the hash change. */
  function XorByte(hash: u32, b: byte): u32 {
    ByteXor(hash % 0x100, b);
    hash - hash % 0x100 + Xor(hash % 0x100, b, 8)
  }

  function Mix(hash: u32, b: byte): u32 { XorByte(hash, b) * PRIME % WRAP32 }

  function Fnv(bytes: seq<byte>): u32 {
    if bytes == [] then OFFSET_BASIS else Mix(Fnv(bytes[..|bytes| - 1]), bytes[|bytes| - 1])
  }

  method ChecksumBytes(bytes: seq<byte>) returns (hash: u32)
    ensures hash == Fnv(bytes)
  {
    hash := OFFSET_BASIS;
    for i := 0 to |bytes|
      invariant hash == Fnv(bytes[..i])
    {
      assert bytes[..i + 1][..i] == bytes[..i];
      hash := XorByte(hash, bytes[i]);
      hash := hash * PRIME % WRAP32;
    }
    assert bytes[..|bytes|] == bytes;
  }

  lemma ByteXorTwice(a: byte, b: byte)
    ensures Xor(Xor(a, b, 8), b, 8) == a
    ensures Xor(Xor(b, a, 8), b, 8) == a
    ensures Xor(a, b, 8) == Xor(b, a, 8)
  {
    assert Pow2(8) == 0x100;
    XorTwice(a, b, 8);
    XorCommutes(a, b, 8);
  }

  lemma Parts(h: nat, h': nat, x: nat, x': nat)
    requires x < 0x100 && x' < 0x100 && h - h % 0x100 + x == h' - h' % 0x100 + x'
    ensures x == x' && h - h % 0x100 == h' - h' % 0x100
  {}

  lemma XorByteOfHash(h: u32, h': u32, b: byte)
    requires XorByte(h, b) == XorByte(h', b)
    ensures h == h'
  {
    hide Xor;
    var low, low' := h % 0x100, h' % 0x100;
    ByteXor(low, b);
    ByteXor(low', b);
    Parts(h, h', Xor(low, b, 8), Xor(low', b, 8));
    ByteXorTwice(low, b);
    ByteXorTwice(low', b);
  }

  lemma XorByteOfByte(h: u32, b: byte, b': byte)
    requires XorByte(h, b) == XorByte(h, b')
    ensures b == b'
  {
    hide Xor;
    ByteXorTwice(b, h % 0x100);
    ByteXorTwice(b', h % 0x100);
  }

  /** 899433627 is the inverse of the prime modulo 2^32. */
  lemma Cancel(d: int, e: int)
    requires d * 16777619 == e * 0x1_0000_0000 && -0x1_0000_0000 < d < 0x1_0000_0000
    ensures d == 0
  {
    assert 16777619 * 899433627 == 3513497 * 0x1_0000_0000 + 1;
    var f := e * 899433627 - d * 3513497;
    assert d == f * 0x1_0000_0000;
  }

  /** Multiplying by the odd prime loses nothing modulo 2^32. */
  lemma PrimeInjective(a: u32, b: u32)
    requires a * PRIME % WRAP32 == b * PRIME % WRAP32
    ensures a == b
  {
    var k, l := a * PRIME / WRAP32, b * PRIME / WRAP32;
    Cancel(a - b, k - l);
  }

  lemma MixInjective(h: u32, h': u32, b: byte, b': byte)
    requires Mix(h, b) == Mix(h', b')
    ensures b == b' ==> h == h'
    ensures h == h' ==> b == b'
  {
    hide XorByte;
    PrimeInjective(XorByte(h, b), XorByte(h', b'));
    if b == b' { XorByteOfHash(h, h', b); }
    if h == h' { XorByteOfByte(h, b, b'); }
  }

  /** Two byte strings that differ in exactly one place have different hashes. */
  lemma {:induction false} OneByteChangesHash(s: seq<byte>, t: seq<byte>, k: nat)
    requires |s| == |t| && k < |s| && s[k] != t[k]
    requires forall i: nat | i < |s| && i != k :: s[i] == t[i]
    ensures Fnv(s) != Fnv(t)
    decreases |s|
  {
    hide Mix;
    var n := |s| - 1;
    if k == n {
      assert s[..n] == t[..n];
    } else {
      OneByteChangesHash(s[..n], t[..n], k);
    }
    if Fnv(s) == Fnv(t) { MixInjective(Fnv(s[..n]), Fnv(t[..n]), s[n], t[n]); }
  }

  lemma SampleXor()
    ensures Xor(0xC5, 0x61, 8) == 0xA4
  {
    assert Xor(1, 0, 1) == 1;
    assert Xor(3, 1, 2) == 2;
    assert Xor(6, 3, 3) == 5;
    assert Xor(12, 6, 4) == 10;
    assert Xor(24, 12, 5) == 20;
    assert Xor(49, 24, 6) == 41;
    assert Xor(98, 48, 7) == 82;
  }

  lemma SampleProduct()
    ensures 0x811C_9DA4 * PRIME % WRAP32 == 0xE40C_292C
  {
    assert 0x811C_9DA4 * 16777619 == 8461672 * 0x1_0000_0000 + 0xE40C_292C;
  }

  lemma SampleXorByte(h: u32, b: byte)
    requires h == 0x811C_9DC5 && b == 0x61
    ensures XorByte(h, b) == 0x811C_9DA4
  {
    SampleXor();
    hide Xor;
    assert h % 0x100 == 0xC5;
  }

  lemma ShortHash(bytes: seq<byte>)
    requires |bytes| <= 1
    ensures Fnv(bytes) == if bytes == [] then OFFSET_BASIS else XorByte(OFFSET_BASIS, bytes[0]) * PRIME % WRAP32
  {
    hide XorByte;
    if bytes != [] { assert bytes[..0] == []; }
  }

  /** The published FNV-1a values of the empty string and of "a". */
  lemma PublishedValues(bytes: seq<byte>)
    ensures bytes == [] ==> Fnv(bytes) == 0x811C_9DC5
    ensures bytes == [0x61] ==> Fnv(bytes) == 0xE40C_292C
  {
    hide Fnv, XorByte;
    if |bytes| <= 1 { ShortHash(bytes); }
    if bytes == [0x61] {
      SampleXorByte(OFFSET_BASIS, bytes[0]);
      SampleProduct();
    }
  }

  // ---- The record ------------------------------------------------------------------------

  const MAGIC: u32 := 0x53424346
  const VERSION: nat := 1
  const SIZE: nat := 20
  const ENGLISH: byte := 1
  const SPANISH: byte := 3

  datatype Record = Record(magic: u32, version: u16, size: u16, sequence: u32, language: byte, keyboard: byte,
                           firstBoot: byte, reserved: byte, checksum: u32)

  /** The record as it lies in memory; it has no padding. */
  function Serialized(r: Record): (bytes: seq<byte>)
    ensures |bytes| == SIZE
  {
    Put32(r.magic) + Put16(r.version) + Put16(r.size) + Put32(r.sequence)
    + [r.language, r.keyboard, r.firstBoot, r.reserved] + Put32(r.checksum)
  }

  function Checksum(r: Record): u32 { Fnv(Serialized(r.(checksum := 0))) }

  predicate Validates(r: Record) {
    && r.magic == MAGIC && r.version == VERSION && r.size == SIZE
    && r.language <= SPANISH && r.firstBoot <= 1 && r.reserved == 0
    && r.checksum == Checksum(r)
  }

  function Sealed(r: Record): Record { r.(checksum := Checksum(r)) }

  function Defaults(): Record { Sealed(Record(MAGIC, VERSION, SIZE, 0, ENGLISH, 0, 0, 0, 0)) }

  function WithLanguage(r: Record, language: nat): (Record, int) {
    if language > SPANISH then (r, -1) else (Sealed(r.(language := language)), 0)
  }

  function FirstBootDone(r: Record): Record {
    Sealed(r.(firstBoot := 1, sequence := (r.sequence + 1) % WRAP32))
  }

  /** The checksum does not depend on the stored checksum. */
  lemma SealedChecksum(r: Record)
    ensures Checksum(Sealed(r)) == Sealed(r).checksum
  {}

  datatype Op = OpLanguage(language: nat) | OpFirstBoot

  function Step(r: Record, op: Op): Record {
    match op
    case OpLanguage(l) => WithLanguage(r, l).0
    case OpFirstBoot => FirstBootDone(r)
  }

  function Run(r: Record, ops: seq<Op>): Record
    decreases |ops|
  {
    if ops == [] then r else Run(Step(r, ops[0]), ops[1..])
  }

  lemma {:induction false} RunValidates(r: Record, ops: seq<Op>)
    requires Validates(r)
    ensures Validates(Run(r, ops))
    decreases |ops|
  {
    hide Checksum;
    if ops != [] {
      match ops[0] {
        case OpLanguage(l) => if l <= SPANISH { SealedChecksum(r.(language := l)); }
        case OpFirstBoot => SealedChecksum(r.(firstBoot := 1, sequence := (r.sequence + 1) % WRAP32));
      }
      RunValidates(Step(r, ops[0]), ops[1..]);
    }
  }

  /** Every record reachable from the defaults through the setters validates. */
  lemma ReachableValidates(ops: seq<Op>)
    ensures Validates(Run(Defaults(), ops))
  {
    hide Checksum;
    SealedChecksum(Record(MAGIC, VERSION, SIZE, 0, ENGLISH, 0, 0, 0, 0));
    RunValidates(Defaults(), ops);
  }

  lemma ZeroedBytes(r: Record, i: nat)
    requires i < SIZE
    ensures Serialized(r.(checksum := 0))[i] == if i < 16 then Serialized(r)[i] else 0
  {}

  lemma StoredChecksum(r: Record)
    ensures var s := Serialized(r);
      r.checksum == s[16] as int + 0x100 * (s[17] as int) + 0x1_0000 * (s[18] as int) + 0x100_0000 * (s[19] as int)
  {
    Digits(r.checksum);
  }

  /** Changing any single byte of a valid record makes validation fail. */
  lemma OneByteInvalidates(r: Record, t: Record, k: nat)
    requires Validates(r) && k < SIZE && Serialized(r)[k] != Serialized(t)[k]
    requires forall i: nat | i < SIZE && i != k :: Serialized(r)[i] == Serialized(t)[i]
    ensures !Validates(t)
  {
    var a, b := Serialized(r.(checksum := 0)), Serialized(t.(checksum := 0));
    forall i: nat | i < SIZE
      ensures a[i] == (if i < 16 then Serialized(r)[i] else 0) && b[i] == if i < 16 then Serialized(t)[i] else 0
    {
      ZeroedBytes(r, i);
      ZeroedBytes(t, i);
    }
    hide Serialized, Fnv;
    if k < 16 {
      OneByteChangesHash(a, b, k);
      StoredChecksum(r);
      StoredChecksum(t);
    } else {
      assert a == b;
      if r.checksum == t.checksum { SameChecksumBytes(r, t, k); }
    }
  }

  lemma SameChecksumBytes(r: Record, t: Record, k: nat)
    requires 16 <= k < SIZE && r.checksum == t.checksum
    ensures Serialized(r)[k] == Serialized(t)[k]
  {}

  // ---- The record byte by byte ----------------------------------------------------------------

  /** Where each field lies. */
  lemma RecordLayout(r: Record)
    ensures var s := Serialized(r);
      && Le32(s, 0) == r.magic && Le16(s, 4) == r.version && Le16(s, 6) == r.size && Le32(s, 8) == r.sequence
      && s[12..16] == [r.language, r.keyboard, r.firstBoot, r.reserved] && Le32(s, 16) == r.checksum
  {
    hide Put32, Put16, Le32, Le16;
    var s := Serialized(r);
    assert s[0..4] == Put32(r.magic) && s[4..6] == Put16(r.version) && s[6..8] == Put16(r.size);
    assert s[8..12] == Put32(r.sequence) && s[16..20] == Put32(r.checksum);
    LoadStored32(s, 0, r.magic);
    LoadStored16(s, 4, r.version);
    LoadStored16(s, 6, r.size);
    LoadStored32(s, 8, r.sequence);
    LoadStored32(s, 16, r.checksum);
  }

  /** The checksum at the end is that of the sixteen bytes before it and four zeros. */
  predicate Carries(bytes: seq<byte>, body: seq<byte>) {
    |bytes| == 20 && |body| == 16 && bytes[..16] == body && Le32(bytes, 16) == Fnv(body + [0, 0, 0, 0])
  }

  lemma SealedCarries(r: Record)
    ensures Carries(Serialized(Sealed(r)), Serialized(r)[..16])
  {
    hide Fnv, Put32, Put16, Le32;
    var t := Sealed(r);
    assert Put32(0) == [0, 0, 0, 0] by { ZeroWord(); }
    assert Serialized(r.(checksum := 0)) == Serialized(r)[..16] + [0, 0, 0, 0];
    assert Serialized(t)[..16] == Serialized(r)[..16];
    assert Serialized(t)[16..20] == Put32(t.checksum);
    LoadStored32(Serialized(t), 16, t.checksum);
  }

  lemma ZeroWord()
    ensures Put32(0) == [0, 0, 0, 0]
  {}

  /** The default record: "SBCF", version 1, 20 bytes, English. */
  lemma DefaultBytes()
    ensures Carries(Serialized(Defaults()), [0x46, 0x43, 0x42, 0x53, 1, 0, 20, 0, 0, 0, 0, 0, 1, 0, 0, 0])
  {
    hide Fnv, Checksum, Carries;
    var r := Record(MAGIC, VERSION, SIZE, 0, ENGLISH, 0, 0, 0, 0);
    assert Serialized(r)[..16] == [0x46, 0x43, 0x42, 0x53, 1, 0, 20, 0, 0, 0, 0, 0, 1, 0, 0, 0];
    SealedCarries(r);
  }

  /** Choosing one of the four languages changes byte 12 and the checksum. */
  lemma LanguageBytes(r: Record, language: nat)
    ensures var (t, code) := WithLanguage(r, language);
      if language > 3 then t == r && code == -1
      else code == 0 && Carries(Serialized(t), Serialized(r)[..12] + [language] + Serialized(r)[13..16])
  {
    hide Fnv, Checksum, Carries, Put32, Put16;
    if language <= 3 {
      var t := r.(language := language);
      assert Serialized(t)[..16] == Serialized(r)[..12] + [language] + Serialized(r)[13..16];
      SealedCarries(t);
    }
  }

  /** Completing the first boot sets byte 14, counts up bytes 8 to 11 modulo 2^32, and
      changes the checksum. */
  lemma FirstBootBytes(r: Record)
    ensures var s := Serialized(r); var next := (Le32(s, 8) + 1) % 0x1_0000_0000;
      Carries(Serialized(FirstBootDone(r)), s[..8] + Put32(next) + s[12..14] + [1] + s[15..16])
  {
    hide Fnv, Checksum, Carries, Put32, Put16, Le32;
    RecordLayout(r);
    var t := r.(firstBoot := 1, sequence := (r.sequence + 1) % WRAP32);
    var s := Serialized(r);
    assert Serialized(t)[..16] == s[..8] + Put32(t.sequence) + s[12..14] + [1] + s[15..16];
    SealedCarries(t);
  }

  // ---- The record in memory -----------------------------------------------------------------

  class ConfigRecord {
    var magic: u32
    var version: u16
    var size: u16
    var sequence: u32
    var language: byte
    var keyboard: byte
    var firstBoot: byte
    var reserved: byte
    var checksum: u32

    function Value(): Record
      reads this
    {
      Record(magic, version, size, sequence, language, keyboard, firstBoot, reserved, checksum)
    }

    method SetDefaults()
      modifies this
      ensures Value() == Defaults()
    {
      magic, version, size, sequence := MAGIC, VERSION, SIZE, 0;
      language, keyboard, firstBoot, reserved := ENGLISH, 0, 0, 0;
      Reseal();
    }

    method Reseal()
      modifies this`checksum
      ensures Value() == Sealed(old(Value()))
    {
      checksum := ChecksumBytes(Serialized(Value().(checksum := 0)));
    }

    method Validate() returns (ok: bool)
      ensures ok <==> Validates(Value())
    {
      if magic != MAGIC || version != VERSION || size != SIZE { return false; }
      if language > SPANISH || firstBoot > 1 || reserved != 0 { return false; }
      var expected := ChecksumBytes(Serialized(Value().(checksum := 0)));
      return checksum == expected;
    }

    method SetLanguage(choice: nat) returns (code: int)
      modifies this
      ensures (Value(), code) == WithLanguage(old(Value()), choice)
    {
      if choice > SPANISH { return -1; }
      language := choice;
      Reseal();
      return 0;
    }

    method MarkFirstBootComplete()
      modifies this
      ensures Value() == FirstBootDone(old(Value()))
    {
      firstBoot := 1;
      sequence := (sequence + 1) % WRAP32;
      Reseal();
    }
  }
}
