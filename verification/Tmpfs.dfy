/** Files in memory: a buffer that doubles as the file grows, up to one mebibyte. */
module Tmpfs {
  import opened Bytes

  const INITIAL: nat := 4096
  const MAX_FILESIZE: nat := 1024 * 1024

  // ---- what a file is ----

  /** `b` written at `offset` of contents `c`; a gap reads as zeros. */
  function Written(c: seq<byte>, offset: nat, b: seq<byte>): (r: seq<byte>)
    ensures |r| == if offset + |b| > |c| then offset + |b| else |c|
    ensures forall i | 0 <= i < |r| ::
      r[i] == if offset <= i < offset + |b| then b[i - offset] else if i < |c| then c[i] else 0
  {
    var n := if offset + |b| > |c| then offset + |b| else |c|;
    seq(n, i requires 0 <= i < n => if offset <= i < offset + |b| then b[i - offset] else if i < |c| then c[i] else 0)
  }

  /** What a read returns. */
  function ReadOf(c: seq<byte>, offset: nat, size: nat): (r: seq<byte>)
    ensures |r| == if offset >= |c| then 0 else if size > |c| - offset then |c| - offset else size
    ensures forall i | 0 <= i < |r| :: r[i] == c[offset + i]
  {
    if offset >= |c| then [] else if offset + size > |c| then c[offset..] else c[offset..offset + size]
  }

  /** What was written is read back. */
  lemma ReadBack(c: seq<byte>, offset: nat, b: seq<byte>)
    ensures ReadOf(Written(c, offset, b), offset, |b|) == b
  {
  }

  /** Two writes that do not overlap can be exchanged. */
  lemma WritesCommute(c: seq<byte>, o1: nat, b1: seq<byte>, o2: nat, b2: seq<byte>)
    requires o1 + |b1| <= o2 || o2 + |b2| <= o1
    ensures Written(Written(c, o1, b1), o2, b2) == Written(Written(c, o2, b2), o1, b1)
  {
  }

  // ---- the buffer ----

  /** Bytes copied into a zero-tailed buffer write the contents it holds. */
  lemma Overlaid(before: seq<byte>, after: seq<byte>, length: nat, offset: nat, b: seq<byte>, length': nat)
    requires ZeroTail(before, length) && |after| == |before| && offset + |b| <= |before|
    requires forall i | 0 <= i < |after| :: after[i] == if offset <= i < offset + |b| then b[i - offset] else before[i]
    requires length' == if offset + |b| > length then offset + |b| else length
    ensures ZeroTail(after, length') && after[..length'] == Written(before[..length], offset, b)
  {
  }

  /** The buffer holds `length` bytes of contents and zeros behind them. */
  ghost predicate ZeroTail(data: seq<byte>, length: nat) {
    length <= |data| && forall i | length <= i < |data| :: data[i] == 0
  }

  /** A zeroed buffer with the contents copied to its front. */
  method Enlarged(data: array<byte>, length: nat, capacity: nat) returns (b: array<byte>)
    requires length <= data.Length <= capacity
    ensures fresh(b) && b.Length == capacity && b[..length] == data[..length] && ZeroTail(b[..], length)
  {
    b := new byte[capacity](i => 0);
    for j := 0 to length
      invariant b[..j] == data[..j] && forall i | j <= i < capacity :: b[i] == 0
    {
      b[j] := data[j];
    }
  }

  /** A capacity reached by doubling, or the largest. */
  ghost predicate Doubled(from: nat, to: nat) {
    to == 0x10_0000 || exists k: nat :: to == from * Pow2(k)
  }

  /** The growth loop ends, keeps the contents, and reaches the wanted size exactly if that is allowed. */
  method Grow(data: array<byte>, length: nat, end: nat) returns (b: array<byte>)
    requires 0 < data.Length <= MAX_FILESIZE && ZeroTail(data[..], length)
    ensures data.Length <= b.Length <= MAX_FILESIZE && (end <= b.Length <==> end <= MAX_FILESIZE)
    ensures (b == data || fresh(b)) && ZeroTail(b[..], length) && b[..length] == data[..length]
    ensures Doubled(data.Length, b.Length) && (b == data || b.Length < 2 * end)
  {
    b := data;
    ghost var k := 0;
    while end > b.Length
      invariant b.Length == MAX_FILESIZE || b.Length == data.Length * Pow2(k)
      invariant b == data || b.Length < 2 * end
      invariant (b == data || fresh(b)) && length <= b.Length && b[..length] == data[..length]
      invariant ZeroTail(b[..], length)
      invariant data.Length <= b.Length <= MAX_FILESIZE
      decreases MAX_FILESIZE - b.Length
    {
      var capacity := b.Length * 2;
      if capacity > MAX_FILESIZE {
        capacity := MAX_FILESIZE;
      }
      if capacity == b.Length {
        break;
      }
      assert data.Length * Pow2(k + 1) == data.Length * Pow2(k) * 2;
      b := Enlarged(b, length, capacity);
      k := k + 1;
    }
  }

  // ---- when the copy loops stay inside the buffer ----

  /** How many bytes the loop of a read copies, the clipping test being in 32 bits. */
  function ReadCount(length: nat, offset: u32, size: u32): nat {
    if offset >= length then 0 else if Sum32(offset, size) > length then length - offset else size
  }

  predicate ReadFits(length: nat, offset: u32, size: u32) {
    offset >= length || offset + size < 0x1_0000_0000
  }

  /** A read stays inside the buffer exactly if it starts behind the contents or its end does not wrap. */
  lemma ReadExact(capacity: nat, length: nat, offset: u32, size: u32)
    requires length <= capacity <= MAX_FILESIZE
    ensures (forall i: u32 | i < ReadCount(length, offset, size) :: Sum32(offset, i) < capacity) <==>
      ReadFits(length, offset, size)
  {
    if !ReadFits(length, offset, size) {
      var i: u32 := capacity - offset;
      assert i < ReadCount(length, offset, size) && Sum32(offset, i) == capacity;
    }
  }

  /** A read of 0xFFFFFFFF bytes at offset 1 copies that many, whatever the file holds beyond its first byte. */
  lemma LongRead(length: nat)
    requires 1 < length <= MAX_FILESIZE
    ensures ReadCount(length, 1, 0xFFFF_FFFF) == 0xFFFF_FFFF
  {
  }

  predicate WriteFits(offset: nat, size: nat) {
    offset + size <= 0x10_0000
  }

  /**
   * A write stays inside the buffer that growing leaves, and the length inside it too, exactly if it ends within the
   * largest file size. Growing and the new length both go by the 32-bit sum.
   */
  lemma WriteExact(capacity: nat, length: nat, offset: u32, size: u32)
    requires length <= capacity <= MAX_FILESIZE
    requires (Sum32(offset, size) <= capacity <==> Sum32(offset, size) <= MAX_FILESIZE)
    ensures (forall i: u32 | i < size :: Sum32(offset, i) < capacity) && Sum32(offset, size) <= capacity <==>
      WriteFits(offset, size)
  {
    if !WriteFits(offset, size) && size > 0 {
      var i: u32 := if offset < capacity then capacity - offset else 0;
      assert Sum32(offset, i) >= capacity;
    }
  }

  /** A write of one byte more than the largest file, at offset 0, leaves the buffer, however far that has grown. */
  lemma LongWrite(capacity: nat)
    requires capacity <= MAX_FILESIZE
    ensures WriteFits(0, 0x10_0000) && !WriteFits(0, 0x10_0001)
    ensures capacity < 0x10_0001 && Sum32(0, capacity) >= capacity
  {
  }

  class File {
    var data: array?<byte>
    var length: nat

    ghost predicate Valid()
      reads this, data
    {
      if data == null then length == 0 else 0 < data.Length <= MAX_FILESIZE && ZeroTail(data[..], length)
    }

    /** The file as a sequence of bytes. */
    ghost function Contents(): seq<byte>
      reads this, data
      requires Valid()
    {
      if data == null then [] else data[..length]
    }

    /** tmpfs_create_entry for a file */
    constructor ()
      ensures Valid() && Contents() == [] && fresh(data) && data.Length == 4096
    {
      data, length := new byte[INITIAL](i => 0), 0;
    }

    /** tmpfs_read */
    method Read(offset: u32, size: u32) returns (r: seq<byte>)
      requires Valid() && ReadFits(length, offset, size)
      ensures r == ReadOf(Contents(), offset, size)
    {
      if data == null || offset >= length {
        return [];
      }
      var n := ReadCount(length, offset, size);
      r := [];
      for i := 0 to n
        invariant r == data[offset..offset + i]
      {
        r := r + [data[offset + i]];
      }
    }

    /** tmpfs_write, for writes that end within the largest file size */
    method Write(offset: nat, buffer: seq<byte>) returns (n: nat)
      requires Valid() && WriteFits(offset, |buffer|)
      modifies this, data
      ensures Valid() && n == |buffer| && Contents() == Written(old(Contents()), offset, buffer)
      ensures data != null && (data == old(data) || fresh(data))
      ensures Doubled(if old(data) == null then 4096 else old(data.Length), data.Length)
    {
      ghost var c := Contents();
      if data == null {
        data := new byte[INITIAL](i => 0);
      }
      data := Grow(data, length, offset + |buffer|);
      ghost var before := data[..];
      assert before[..length] == c;
      Copy(data, offset, buffer);
      Overlaid(before, data[..], length, offset, buffer, if offset + |buffer| > length then offset + |buffer|
        else length);
      if offset + |buffer| > length {
        length := offset + |buffer|;
      }
      n := |buffer|;
    }
  }

  /** The copy loop of a write. */
  method Copy(data: array<byte>, offset: nat, buffer: seq<byte>)
    requires offset + |buffer| <= data.Length
    modifies data
    ensures forall i | 0 <= i < data.Length ::
      data[i] == if offset <= i < offset + |buffer| then buffer[i - offset] else old(data[i])
  {
    for i := 0 to |buffer|
      invariant forall k | 0 <= k < data.Length ::
        data[k] == if offset <= k < offset + i then buffer[k - offset] else old(data[k])
    {
      data[offset + i] := buffer[i];
    }
  }
}
