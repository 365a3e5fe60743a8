/** Values shared by every part of the model: optional results, bytes, and the
    fixed-width integer readers of `encoding/binary`. */
module Common {

  datatype Option<+T> = None | Some(value: T)

  type byte = x: int | 0 <= x < 0x100
  type Bytes = seq<byte>

  type u16 = x: int | 0 <= x < 0x1_0000
  type u32 = x: int | 0 <= x < 0x1_0000_0000

  const MAX_INT64: int := 0x7FFF_FFFF_FFFF_FFFF

  /** `part` occurs in `whole` at offset `at`. */
  predicate At(whole: Bytes, at: nat, part: Bytes) {
    at + |part| <= |whole| && whole[at..at + |part|] == part
  }

  lemma AtSplit(whole: Bytes, at: nat, left: Bytes, right: Bytes)
    requires At(whole, at, left + right)
    ensures At(whole, at, left) && At(whole, at + |left|, right)
  {
    assert (left + right)[..|left|] == left && (left + right)[|left|..] == right;
    assert whole[at..at + |left|] == whole[at..at + |left + right|][..|left|];
    assert whole[at + |left|..at + |left| + |right|] == whole[at..at + |left + right|][|left|..];
  }

  /** Big-endian fixed-width writers. */
  function Put16(n: u16): (b: Bytes)
    ensures |b| == 2
  {
    [n / 0x100, n % 0x100]
  }

  function Put32(n: u32): (b: Bytes)
    ensures |b| == 4
  {
    Put16(n / 0x1_0000) + Put16(n % 0x1_0000)
  }

  /** Big-endian fixed-width readers. */
  function Get16(b: Bytes): u16
    requires |b| == 2
  {
    b[0] as int * 0x100 + b[1] as int
  }

  function Get32(b: Bytes): u32
    requires |b| == 4
  {
    b[0] as int * 0x100_0000 + b[1] as int * 0x1_0000 + b[2] as int * 0x100 + b[3] as int
  }

  /** The readers invert the writers, and the other way round. */
  lemma GetPut16(n: u16)
    ensures Get16(Put16(n)) == n
  {
  }

  lemma PutGet16(b: Bytes)
    requires |b| == 2
    ensures Put16(Get16(b)) == b
  {
  }

  lemma GetPut32(n: u32)
    ensures Get32(Put32(n)) == n
  {
  }

  lemma PutGet32(b: Bytes)
    requires |b| == 4
    ensures Put32(Get32(b)) == b
  {
    var high, low := b[0] as int * 0x100 + b[1] as int, b[2] as int * 0x100 + b[3] as int;
    assert Get32(b) == high * 0x1_0000 + low;
    PutGet16(b[..2]);
    PutGet16(b[2..]);
    assert b == b[..2] + b[2..];
  }

  /** Little-endian readers at an offset, as the ZIP footer uses them. */
  function Little16(b: Bytes, at: nat): (n: u16)
    requires at + 2 <= |b|
  {
    b[at] as int + 0x100 * b[at + 1] as int
  }

  function Little32(b: Bytes, at: nat): (n: u32)
    requires at + 4 <= |b|
  {
    Little16(b, at) + 0x1_0000 * Little16(b, at + 2)
  }

  function Little64(b: Bytes, at: nat): (n: nat)
    requires at + 8 <= |b|
  {
    Little32(b, at) + 0x1_0000_0000 * Little32(b, at + 4)
  }
}
