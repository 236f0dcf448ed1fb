/** Bytes, machine integers and little-endian loads shared by every component. */
module Bytes {
  type byte = x: int | 0 <= x < 0x100
  type u16 = x: int | 0 <= x < 0x1_0000
  type u32 = x: int | 0 <= x < 0x1_0000_0000
  type u64 = x: int | 0 <= x < 0x1_0000_0000_0000_0000

  const U64_MAX: u64 := 0xFFFF_FFFF_FFFF_FFFF

  /** Where 32-bit and 64-bit counters wrap. */
  const WRAP32: nat := 0x1_0000_0000
  const WRAP64: nat := 0x1_0000_0000_0000_0000

  datatype Option<+T> = None | Some(value: T)

  function Le16(b: seq<byte>, at: nat): (r: nat)
    requires at + 2 <= |b|
    ensures r < 0x1_0000
  {
    (b[at] as int) + 0x100 * (b[at + 1] as int)
  }

  function Le32(b: seq<byte>, at: nat): (r: u32)
    requires at + 4 <= |b|
  {
    (b[at] as int) + 0x100 * (b[at + 1] as int) + 0x1_0000 * (b[at + 2] as int) + 0x100_0000 * (b[at + 3] as int)
  }

  function Le64(b: seq<byte>, at: nat): (r: u64)
    requires at + 8 <= |b|
  {
    (Le32(b, at) as int) + 0x1_0000_0000 * (Le32(b, at + 4) as int)
  }

  // ---- Stores ------------------------------------------------------------------------

  function Put16(x: u16): (r: seq<byte>)
    ensures |r| == 2
  {
    [x % 0x100, x / 0x100]
  }

  function Put32(x: u32): (r: seq<byte>)
    ensures |r| == 4
  {
    [x % 0x100, x / 0x100 % 0x100, x / 0x1_0000 % 0x100, x / 0x100_0000]
  }

  function Put64(x: u64): (r: seq<byte>)
    ensures |r| == 8
  {
    Put32(x % WRAP32) + Put32(x / WRAP32)
  }

  /** A number is the sum of its base-256 digits. */
  lemma Digits(x: u32)
    ensures x ==
      x % 0x100 + 0x100 * (x / 0x100 % 0x100) + 0x1_0000 * (x / 0x1_0000 % 0x100) + 0x100_0000 * (x / 0x100_0000)
  {
    var a := x / 0x100;
    var b := a / 0x100;
    assert x / 0x1_0000 == b;
    assert x / 0x100_0000 == b / 0x100;
  }

  /** Loading what was stored gives it back, wherever it lies. */
  lemma LoadStored16(b: seq<byte>, at: nat, x: u16)
    requires at + 2 <= |b| && b[at..at + 2] == Put16(x)
    ensures Le16(b, at) == x
  {
    assert b[at] == b[at..at + 2][0] && b[at + 1] == b[at..at + 2][1];
  }

  lemma LoadStored32(b: seq<byte>, at: nat, x: u32)
    requires at + 4 <= |b| && b[at..at + 4] == Put32(x)
    ensures Le32(b, at) == x
  {
    var s := b[at..at + 4];
    assert b[at] == s[0] && b[at + 1] == s[1] && b[at + 2] == s[2] && b[at + 3] == s[3];
    Digits(x);
  }

  lemma LoadStored64(b: seq<byte>, at: nat, x: u64)
    requires at + 8 <= |b| && b[at..at + 8] == Put64(x)
    ensures Le64(b, at) == x
  {
    hide Put32, Le32;
    var s := b[at..at + 8];
    assert b[at..at + 4] == s[..4] == Put32(x % WRAP32);
    assert b[at + 4..at + 8] == s[4..] == Put32(x / WRAP32);
    LoadStored32(b, at, x % WRAP32);
    LoadStored32(b, at + 4, x / WRAP32);
  }
}
