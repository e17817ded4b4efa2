/** Byte buffers: little-endian 32-bit words and the bits of a byte. */
module Bytes {
  type byte = x: int | 0 <= x < 256
  type u32 = x: int | 0 <= x < 0x1_0000_0000

  function Zeros(n: nat): (s: seq<byte>) {
    seq(n, _ => 0)
  }

  /** The word a packed struct or a uint32_t array holds at byte offset `off`. */
  function GetU32(s: seq<byte>, off: nat): (v: u32)
    requires off + 4 <= |s|
  {
    var b0: int, b1: int, b2: int, b3: int := s[off], s[off + 1], s[off + 2], s[off + 3];
    b0 + 0x100 * b1 + 0x1_0000 * b2 + 0x100_0000 * b3
  }

  /** What 32 bits keep of a sum. */
  function Sum32(a: u32, b: u32): u32 {
    if a + b < 0x1_0000_0000 then a + b else a + b - 0x1_0000_0000
  }

  lemma SumWraps(a: u32, b: u32)
    ensures Sum32(a, b) == (a + b) % 0x1_0000_0000
  {
  }

  lemma WordParts(v: u32)
    ensures v
      == v % 0x100 + 0x100 * (v / 0x100 % 0x100) + 0x1_0000 * (v / 0x1_0000 % 0x100) + 0x100_0000 * (v / 0x100_0000)
    ensures 0 <= v / 0x100_0000 < 0x100
  {
    assert v / 0x1_0000 == v / 0x100 / 0x100 && v / 0x100_0000 == v / 0x1_0000 / 0x100;
  }

  /** `s` with the word at byte offset `off` replaced by `v`. */
  function SetU32(s: seq<byte>, off: nat, v: u32): (r: seq<byte>)
    requires off + 4 <= |s|
    ensures |r| == |s|
    ensures GetU32(r, off) == v
    ensures forall o: nat | o + 4 <= |s| && (o + 4 <= off || off + 4 <= o) :: GetU32(r, o) == GetU32(s, o)
    ensures forall i | 0 <= i < |s| && (i < off || off + 4 <= i) :: r[i] == s[i]
  {
    WordParts(v);
    s[off := v % 0x100]
     [off + 1 := v / 0x100 % 0x100]
     [off + 2 := v / 0x1_0000 % 0x100]
     [off + 3 := v / 0x100_0000]
  }

  /** memcpy(buf + off, src, |src|) */
  function Splice(buf: seq<byte>, off: nat, src: seq<byte>): (r: seq<byte>)
    requires off + |src| <= |buf|
    ensures |r| == |buf|
    ensures r[off..off + |src|] == src
    ensures forall i | 0 <= i < |buf| && (i < off || off + |src| <= i) :: r[i] == buf[i]
    ensures forall i | off <= i < off + |src| :: r[i] == src[i - off]
  {
    buf[..off] + src + buf[off + |src|..]
  }

  lemma SetSame(s: seq<byte>, off: nat, v: u32)
    requires off + 4 <= |s| && GetU32(s, off) == v
    ensures SetU32(s, off, v) == s
  {
    WordBytes(s[off], s[off + 1], s[off + 2], s[off + 3], v);
  }

  lemma WordBytes(b0: byte, b1: byte, b2: byte, b3: byte, v: int)
    requires v == b0 as int + 0x100 * (b1 as int + 0x100 * (b2 as int + 0x100 * b3 as int))
    ensures v % 0x100 == b0 && v / 0x100 % 0x100 == b1 && v / 0x1_0000 % 0x100 == b2 && v / 0x100_0000 == b3
  {
    assert v / 0x100 == b1 as int + 0x100 * (b2 as int + 0x100 * b3 as int);
    assert v / 0x1_0000 == b2 as int + 0x100 * b3 as int;
  }

  /** The least significant byte comes first. */
  lemma LittleEndian()
    ensures GetU32([1, 2, 3, 4], 0) == 0x0403_0201 && GetU32([9, 1, 0, 0, 0], 1) == 1
  {
  }

  lemma ZeroWord(n: nat, off: nat)
    requires off + 4 <= n
    ensures GetU32(Zeros(n), off) == 0
  {
  }

  /** b & (1 << k) */
  predicate TestBit(b: nat, k: nat) {
    if k == 0 then b % 2 == 1 else TestBit(b / 2, k - 1)
  }

  /** b | (1 << k), of a byte whose bit `k` is clear, written `width` bits wide */
  function SetBit(b: nat, k: nat, width: nat): (r: nat)
    requires k < width && b < Pow2(width) && !TestBit(b, k)
    ensures r < Pow2(width) && r == b + Pow2(k)
    ensures forall j: nat :: TestBit(r, j) == (j == k || TestBit(b, j))
  {
    if k == 0 then
      assert (b + 1) / 2 == b / 2 && (b + 1) % 2 == 1;
      b + 1
    else
      var h := SetBit(b / 2, k - 1, width - 1);
      assert (2 * h + b % 2) / 2 == h && (2 * h + b % 2) % 2 == b % 2;
      2 * h + b % 2
  }

  function Pow2(k: nat): (v: nat) {
    if k == 0 then 1 else 2 * Pow2(k - 1)
  }

  lemma ByteWidth()
    ensures Pow2(8) == 256
  {
    assert Pow2(4) == 16;
  }

  /** Bit `i` of a bitmap block. */
  predicate BitAt(bitmap: seq<byte>, i: nat) {
    i / 8 < |bitmap| && TestBit(bitmap[i / 8], i % 8)
  }

  /** The bitmap with one clear bit set: exactly that bit changes. */
  function MarkBit(bitmap: seq<byte>, i: nat): (r: seq<byte>)
    requires i < 8 * |bitmap| && !BitAt(bitmap, i)
    ensures |r| == |bitmap| && r[i / 8] == bitmap[i / 8] + Pow2(i % 8)
    ensures forall j: nat :: BitAt(r, j) == (j == i || BitAt(bitmap, j))
  {
    ByteWidth();
    bitmap[i / 8 := SetBit(bitmap[i / 8], i % 8, 8)]
  }

  /** How many of the first `n` bits are clear. */
  function ClearBits(bitmap: seq<byte>, n: nat): (c: nat)
  {
    if n == 0 then 0
    else ClearBits(bitmap, n - 1) + (if BitAt(bitmap, n - 1) then 0 else 1)
  }

  lemma {:induction false} NoneClear(bitmap: seq<byte>, n: nat)
    requires forall i: nat | i < n :: BitAt(bitmap, i)
    ensures ClearBits(bitmap, n) == 0
  {
    if n > 0 {
      NoneClear(bitmap, n - 1);
    }
  }

  lemma {:induction false} NoneClearAt(bitmap: seq<byte>, n: nat, i: nat)
    requires ClearBits(bitmap, n) == 0 && i < n
    ensures BitAt(bitmap, i)
  {
    if i < n - 1 {
      NoneClearAt(bitmap, n - 1, i);
    }
  }

  /** Marking a clear bit below `n` lowers the clear count by exactly one. */
  lemma {:induction false} MarkBitCount(bitmap: seq<byte>, i: nat, n: nat)
    requires i < 8 * |bitmap| && !BitAt(bitmap, i)
    ensures ClearBits(MarkBit(bitmap, i), n) == ClearBits(bitmap, n) - (if i < n then 1 else 0)
  {
    if n > 0 {
      MarkBitCount(bitmap, i, n - 1);
    }
  }
}
