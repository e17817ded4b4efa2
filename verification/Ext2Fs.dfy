/** Writing a file of a mounted file system, inode included, and the theorems about reading and writing files. */
module Ext2Fs {
  import opened Common
  import opened Arith
  import opened Bytes
  import opened Ext2Layout
  import opened Ext2BlockMap
  import opened Ext2
  import opened Ext2File

  // ---- rewriting the fields of an inode ----

  /** Everything in an inode but its size, its block count and its block numbers is the same. */
  ghost predicate OtherFields(raw: Raw, raw': Raw) {
    forall i | 0 <= i < 4 || 8 <= i < 28 || 32 <= i < 40 || 96 <= i < 128 :: raw'[i] == raw[i]
  }

  /** The inode with its size and block count rewritten. */
  function Stamp(raw: Raw, size: u32, blocks: u32): (r: Raw)
    ensures GetU32(r, SIZE_OFFSET) == size && GetU32(r, BLOCKS_OFFSET) == blocks && OtherFields(raw, r)
    ensures forall i | PTR_OFFSET <= i < 128 :: r[i] == raw[i]
  {
    SetU32(SetU32(raw, SIZE_OFFSET, size), BLOCKS_OFFSET, blocks)
  }

  lemma {:induction false} StampAddr(geo: Layout, d: Disk, raw: Raw, raw': Raw, x: Node)
    requires forall i | PTR_OFFSET <= i < 128 :: raw'[i] == raw[i]
    ensures Addr(geo, d, raw', x) == Addr(geo, d, raw, x)
  {
    if x.Child? {
      StampAddr(geo, d, raw, raw', x.parent);
    }
  }

  lemma StampOwned(geo: Layout, d: Disk, t: Table, owner: Owner, n: nat, raw': Raw)
    requires Owned(geo, d, t, owner) && n in t
    requires forall i | PTR_OFFSET <= i < 128 :: raw'[i] == t[n][i]
    ensures Owned(geo, d, t[n := raw'], owner)
  {
    forall m, x | m in t && ValidNode(geo, x)
      ensures Addr(geo, d, t[n := raw'][m], x) == Addr(geo, d, t[m], x)
    {
      StampAddr(geo, d, t[n], raw', x);
    }
  }

  lemma StampFiles(geo: Layout, d: Disk, raw: Raw, raw': Raw, lb: nat)
    requires forall i | PTR_OFFSET <= i < 128 :: raw'[i] == raw[i]
    ensures FileBlock(geo, d, raw', lb) == FileBlock(geo, d, raw, lb)
  {
    if LeafNode(geo, lb).Some? {
      StampAddr(geo, d, raw, raw', LeafNode(geo, lb).value);
    }
  }

  // ---- what one write does to the file system ----

  ghost predicate Mounted(geo: Layout, s: State, owner: Owner) {
    geo.TablesFit() && geo.OnDisk(s.disk) && Good(geo, s, owner, InodeTable(geo, s.disk))
  }

  /** The file behind a valid inode number. */
  ghost predicate SameFile(geo: Layout, d: Disk, d': Disk, m: nat)
    requires geo.TablesFit() && geo.OnDisk(d) && geo.OnDisk(d') && 1 <= m <= geo.inodesCount
  {
    && InodeAt(geo, d', m) == InodeAt(geo, d, m)
    && forall lb: nat :: FileBlock(geo, d', InodeAt(geo, d', m), lb) == FileBlock(geo, d, InodeAt(geo, d, m), lb)
  }

  /** `data` written at `offset` of file `n`: its bytes change as promised, its size covers them, other files stay. */
  ghost predicate FileWritten(geo: Layout, d: Disk, d': Disk, n: nat, offset: nat, data: seq<byte>) {
    && geo.TablesFit() && geo.OnDisk(d) && geo.OnDisk(d') && 1 <= n <= geo.inodesCount
    && Written(geo, d, InodeAt(geo, d, n), d', InodeAt(geo, d', n), offset, data)
    && GetU32(InodeAt(geo, d', n), SIZE_OFFSET) == Max(GetU32(InodeAt(geo, d, n), SIZE_OFFSET), offset + |data|)
    && OtherFields(InodeAt(geo, d, n), InodeAt(geo, d', n))
    && forall m: nat | 1 <= m <= geo.inodesCount && m != n :: SameFile(geo, d, d', m)
  }

  function Max(a: int, b: int): int {
    if a < b then b else a
  }

  lemma StampedView(geo: Layout, d: Disk, t: Table, owner: Owner, n: nat, raw: Raw, raw': Raw)
    requires View(geo, d, t[n := raw], owner) && n in t
    requires forall i | PTR_OFFSET <= i < 128 :: raw'[i] == raw[i]
    ensures View(geo, d, t[n := raw'], owner)
  {
    assert t[n := raw][n := raw'] == t[n := raw'];
    StampOwned(geo, d, t[n := raw], owner, n, raw');
  }

  /** Writing the stamped inode back turns the view of the loop into the new mounted state. */
  lemma InodeWrittenBack(geo: Layout, s: State, t: Table, owner: Owner, n: nat, raw: Raw, raw': Raw, s': State)
    requires geo.TablesFit() && geo.OnDisk(s.disk) && n in t && InodeTable(geo, s.disk) == t
    requires Good(geo, s, owner, t[n := raw])
    requires forall i | PTR_OFFSET <= i < 128 :: raw'[i] == raw[i]
    requires s' == s.(disk := InodeStored(geo, s.disk, n, raw'))
    ensures Mounted(geo, s', owner) && InodeTable(geo, s'.disk) == t[n := raw']
    ensures SameFiles(geo, s.disk, t[n := raw'], s'.disk, t[n := raw'])
  {
    var a := geo.TableBlock(n);
    StampedView(geo, s.disk, t, owner, n, raw, raw');
    TableBitmaps(geo, s.disk, a, Splice(s.disk[a], geo.Within(n), raw'));
    MetaWriteView(geo, s.disk, t[n := raw'], owner, s'.disk);
    InodeStoredTable(geo, s.disk, n, raw');
    BitmapsConserve(geo, s.disk, s'.disk, s.free, s.total);
  }

  lemma TableBitmaps(geo: Layout, d: Disk, a: nat, b: Block)
    requires geo.OnDisk(d) && a < |d| && geo.IsTable(a)
    ensures SameBitmaps(geo, d, d[a := b]) && SameInodeBitmaps(geo, d, d[a := b])
  {
    TableOnly(geo, a);
  }

  /** The loop's progress, the stamp and the write-back together. */
  lemma WriteDone(geo: Layout, s: State, s1: State, s': State, t: Table, owner: Owner, n: nat, raw: Raw, raw1: Raw,
                  raw2: Raw, offset: nat, data: seq<byte>)
    requires Mounted(geo, s, owner) && InodeTable(geo, s.disk) == t && n in t && t[n] == raw
    requires Progress(geo, s, s1, t, raw, raw1, n, offset, data)
    requires geo.OnDisk(s'.disk) && InodeTable(geo, s'.disk) == t[n := raw2]
    requires SameFiles(geo, s1.disk, t[n := raw2], s'.disk, t[n := raw2])
    requires forall i | PTR_OFFSET <= i < 128 :: raw2[i] == raw1[i]
    requires GetU32(raw2, SIZE_OFFSET) == Max(GetU32(raw, SIZE_OFFSET), offset + |data|) && OtherFields(raw, raw2)
    ensures FileWritten(geo, s.disk, s'.disk, n, offset, data)
  {
    forall m: nat | 1 <= m <= geo.inodesCount && m != n
      ensures SameFile(geo, s.disk, s'.disk, m)
    {
      TableEntry(geo, s.disk, t, m);
      TableEntry(geo, s'.disk, t[n := raw2], m);
    }
    TableEntry(geo, s.disk, t, n);
    TableEntry(geo, s'.disk, t[n := raw2], n);
    WrittenBack(geo, s, s1, s', t, n, raw, raw1, raw2, offset, data);
  }

  lemma TableEntry(geo: Layout, d: Disk, t: Table, m: nat)
    requires geo.TablesFit() && geo.OnDisk(d) && InodeTable(geo, d) == t && 1 <= m <= geo.inodesCount
    ensures m in t && InodeAt(geo, d, m) == t[m]
  {
  }

  /** The stamped inode, stored, has the blocks the loop left. */
  lemma StampedBack(geo: Layout, d1: Disk, d': Disk, t: Table, n: nat, raw1: Raw, raw2: Raw)
    requires n in t && SameFiles(geo, d1, t[n := raw2], d', t[n := raw2])
    requires forall i | PTR_OFFSET <= i < 128 :: raw2[i] == raw1[i]
    ensures forall lb: nat :: FileBlock(geo, d', raw2, lb) == FileBlock(geo, d1, raw1, lb)
  {
    forall lb: nat ensures FileBlock(geo, d', raw2, lb) == FileBlock(geo, d1, raw1, lb) {
      StampFiles(geo, d1, raw1, raw2, lb);
      assert FileBlock(geo, d', t[n := raw2][n], lb) == FileBlock(geo, d1, t[n := raw2][n], lb);
    }
  }

  lemma WrittenBack(geo: Layout, s: State, s1: State, s': State, t: Table, n: nat, raw: Raw, raw1: Raw, raw2: Raw,
                    offset: nat, data: seq<byte>)
    requires n in t && Written(geo, s.disk, raw, s1.disk, raw1, offset, data)
    requires SameFiles(geo, s1.disk, t[n := raw2], s'.disk, t[n := raw2])
    requires forall i | PTR_OFFSET <= i < 128 :: raw2[i] == raw1[i]
    ensures Written(geo, s.disk, raw, s'.disk, raw2, offset, data)
  {
    StampedBack(geo, s1.disk, s'.disk, t, n, raw1, raw2);
    WrittenSame(geo, s.disk, raw, s1.disk, raw1, s'.disk, raw2, offset, data);
  }

  /** The block count of a file, rounded up in 32 bits. */
  function BlockCount(geo: Layout, size: u32): (blocks: u32) {
    WholeBlocks(geo, Sum32(size, geo.blockSize - 1))
  }

  function WholeBlocks(geo: Layout, size: u32): (blocks: u32) {
    DivMod(size, geo.blockSize);
    DivBound(size, geo.blockSize, 0x1_0000_0000);
    size / geo.blockSize
  }

  /** The count is that of the blocks that hold the bytes exactly if rounding up does not wrap. */
  lemma BlockCountExact(geo: Layout, size: u32)
    requires size > 0
    ensures BlockCount(geo, size) == Quot(size - 1, geo.blockSize) + 1 <==> size + geo.blockSize - 1 < 0x1_0000_0000
  {
    var bs := geo.blockSize;
    QuotRem(size - 1, bs);
    QuotRem(size - 1 + bs, bs);
    QuotRem(Sum32(size, bs - 1), bs);
    assert Quot(size - 1 + bs, bs) == 1 + Quot(size - 1, bs);
  }

  /** A file of 0xFFFFFFFF bytes is stored with block count 0. */
  lemma LargestFileCount(geo: Layout)
    ensures BlockCount(geo, 0xFFFF_FFFF) == 0
  {
  }

  /** After the loop: the inode's size and block count, and the inode write. */
  method FinishWrite(geo: Layout, ghost s: State, s1: State, n: nat, ghost raw: Raw, raw1: Raw, offset: nat,
                     written: nat, ghost data: seq<byte>,
                     ghost t: Table, ghost owner: Owner, ghost owner1: Owner)
    returns (size: u32, s': State)
    requires Mounted(geo, s, owner) && t == InodeTable(geo, s.disk) && n in t && t[n] == raw
    requires Good(geo, s1, owner1, t[n := raw1]) && Progress(geo, s, s1, t, raw, raw1, n, offset, data)
    requires |data| == written && offset + written < 0x1_0000_0000
    ensures Mounted(geo, s', owner1) && FileWritten(geo, s.disk, s'.disk, n, offset, data)
    ensures SameInodeBitmaps(geo, s.disk, s'.disk)
    ensures size == Max(GetU32(raw, SIZE_OFFSET), offset + written) && Left(geo, s') == Left(geo, s1)
    ensures forall lb: nat :: FileBlock(geo, s'.disk, InodeAt(geo, s'.disk, n), lb) == FileBlock(geo, s1.disk, raw1, lb)
    ensures GetU32(InodeAt(geo, s'.disk, n), BLOCKS_OFFSET) == BlockCount(geo, size)
  {
    FieldKept(raw, raw1);
    size := Max(GetU32(raw1, SIZE_OFFSET), offset + written);
    var raw2 := Stamp(raw1, size, BlockCount(geo, size));
    TableKept(geo, s.disk, s1.disk);
    var ok, d := WriteInode(geo, s1.disk, n, raw2);
    s' := s1.(disk := d);
    InodeWrittenBack(geo, s1, t, owner1, n, raw1, raw2, s');
    TableBitmaps(geo, s1.disk, geo.TableBlock(n), Splice(s1.disk[geo.TableBlock(n)], geo.Within(n), raw2));
    WriteDone(geo, s, s1, s', t, owner, n, raw, raw1, raw2, offset, data);
    TableEntry(geo, s'.disk, t[n := raw2], n);
    StampedBack(geo, s1.disk, s'.disk, t, n, raw1, raw2);
  }

  /** ext2_write_file_data on values: the loop, then the inode. */
  method WriteFile(geo: Layout, s: State, n: nat, raw: Raw, offset: nat, buffer: seq<byte>, ghost owner: Owner)
    returns (written: nat, size: u32, s': State, ghost owner': Owner)
    requires Mounted(geo, s, owner) && 1 <= n <= geo.inodesCount && raw == InodeAt(geo, s.disk, n)
    requires offset + |buffer| < 0x1_0000_0000 && Funded(geo, s, raw, offset, offset + |buffer|)
    ensures Mounted(geo, s', owner') && written <= |buffer|
    ensures FileWritten(geo, s.disk, s'.disk, n, offset, buffer[..written]) && SameInodeBitmaps(geo, s.disk, s'.disk)
    ensures size == Max(GetU32(raw, SIZE_OFFSET), offset + written)
    ensures written < |buffer| ==> Stopped(geo, s', InodeAt(geo, s'.disk, n), offset + written)
    ensures GetU32(InodeAt(geo, s'.disk, n), BLOCKS_OFFSET) == BlockCount(geo, size)
  {
    ghost var t := InodeTable(geo, s.disk);
    var raw1, s1;
    written, raw1, s1, owner' := WriteBlocks(geo, s, raw, offset, buffer, n, t, owner);
    size, s' := FinishWrite(geo, s, s1, n, raw, raw1, offset, written, buffer[..written], t, owner, owner');
  }

  lemma FieldKept(raw: Raw, raw': Raw)
    requires SameFields(raw, raw')
    ensures GetU32(raw', SIZE_OFFSET) == GetU32(raw, SIZE_OFFSET) && OtherFields(raw, raw')
  {
  }

  // ---- theorems about files ----

  /** What ext2_read_file_data returns through a node of the given length. */
  ghost predicate ReadResult(geo: Layout, d: Disk, n: nat, length: nat, offset: nat, size: nat, data: seq<byte>)
    requires geo.TablesFit() && geo.OnDisk(d)
  {
    if offset >= length || !(1 <= n <= geo.inodesCount) then data == []
    else IsRead(geo, d, InodeAt(geo, d, n), offset, Min(size, length - offset), data)
  }

  function Min(a: int, b: int): int {
    if a < b then a else b
  }

  lemma ReadMapped(geo: Layout, d: Disk, raw: Raw, offset: nat, r: seq<byte>, k: nat)
    requires BytesAt(geo, d, raw, offset, r) && k < |r|
    ensures FileByte(geo, d, raw, offset + k) == Some(r[k])
  {
  }

  lemma ReadNotShorter(geo: Layout, d: Disk, raw: Raw, offset: nat, limit: nat, r1: seq<byte>, r2: seq<byte>)
    requires IsRead(geo, d, raw, offset, limit, r1) && IsRead(geo, d, raw, offset, limit, r2)
    ensures |r1| >= |r2|
  {
    if |r1| < |r2| {
      ReadMapped(geo, d, raw, offset, r2, |r1|);
      assert false;
    }
  }

  /** A read has one answer. */
  lemma ReadUnique(geo: Layout, d: Disk, raw: Raw, offset: nat, limit: nat, r1: seq<byte>, r2: seq<byte>)
    requires IsRead(geo, d, raw, offset, limit, r1) && IsRead(geo, d, raw, offset, limit, r2)
    ensures r1 == r2
  {
    ReadNotShorter(geo, d, raw, offset, limit, r1, r2);
    ReadNotShorter(geo, d, raw, offset, limit, r2, r1);
    forall i | 0 <= i < |r1| ensures r1[i] == r2[i] {
      assert FileByte(geo, d, raw, offset + i) == Some(r1[i]) == Some(r2[i]);
    }
  }

  /** Reading where `data` was just written, through a node long enough, returns exactly `data`. */
  lemma ReadBack(geo: Layout, d: Disk, d': Disk, n: nat, offset: nat, data: seq<byte>, length: nat, r: seq<byte>)
    requires FileWritten(geo, d, d', n, offset, data) && offset + |data| <= length
    requires ReadResult(geo, d', n, length, offset, |data|, r)
    ensures r == data
  {
    var raw' := InodeAt(geo, d', n);
    forall i | 0 <= i < |data| ensures FileByte(geo, d', raw', offset + i) == Some(data[i]) {
    }
    if offset < length {
      ReadUnique(geo, d', raw', offset, |data|, data, r);
    }
  }

  /** The length a write up to `end` leaves in its node: the new size only if the file grew. */
  function NodeLength(length: nat, size: nat, end: nat): nat {
    if end > size then end else length
  }

  /**
   * Round trip, exactly: reading the written range back through the node of the write returns the data if and only if
   * the node already covered the range or the file grew. A node whose length is older than the file reads less.
   */
  lemma RoundTripExact(geo: Layout, d: Disk, d': Disk, n: nat, offset: nat, data: seq<byte>, length: nat, r: seq<byte>)
    requires FileWritten(geo, d, d', n, offset, data) && data != []
    requires ReadResult(geo, d', n, NodeLength(length, GetU32(InodeAt(geo, d, n), SIZE_OFFSET), offset + |data|),
      offset, |data|, r)
    ensures r == data <==> offset + |data| <= length || offset + |data| > GetU32(InodeAt(geo, d, n), SIZE_OFFSET)
  {
    var size := GetU32(InodeAt(geo, d, n), SIZE_OFFSET);
    if offset + |data| <= NodeLength(length, size, offset + |data|) {
      ReadBack(geo, d, d', n, offset, data, NodeLength(length, size, offset + |data|), r);
    } else {
      assert |r| < |data|;
    }
  }

  /** Bytes of the same file outside the written range stay readable and unchanged. */
  lemma OutsideKept(geo: Layout, d: Disk, d': Disk, n: nat, offset: nat, data: seq<byte>, pos: nat)
    requires FileWritten(geo, d, d', n, offset, data)
    requires !(offset <= pos < offset + |data|) && FileByte(geo, d, InodeAt(geo, d, n), pos).Some?
    ensures FileByte(geo, d', InodeAt(geo, d', n), pos) == FileByte(geo, d, InodeAt(geo, d, n), pos)
  {
    assert FileByte(geo, d', InodeAt(geo, d', n), pos)
        == ByteAfter(geo.blockSize, FileByte(geo, d, InodeAt(geo, d, n), pos), offset, data, pos);
  }

  /** A file that did not change reads the same. */
  lemma SameFileReads(geo: Layout, d: Disk, d': Disk, m: nat, length: nat, offset: nat, size: nat, r: seq<byte>)
    requires geo.TablesFit() && geo.OnDisk(d) && geo.OnDisk(d') && 1 <= m <= geo.inodesCount && SameFile(geo, d, d', m)
    ensures ReadResult(geo, d, m, length, offset, size, r) <==> ReadResult(geo, d', m, length, offset, size, r)
  {
    var raw := InodeAt(geo, d, m);
    assert forall pos: nat :: FileByte(geo, d', raw, pos) == FileByte(geo, d, raw, pos);
  }

  /** At most file `n` changed. */
  ghost predicate OnlyChanged(geo: Layout, d: Disk, d': Disk, n: nat) {
    && geo.TablesFit() && geo.OnDisk(d) && geo.OnDisk(d') && 1 <= n <= geo.inodesCount
    && forall m: nat | 1 <= m <= geo.inodesCount && m != n :: SameFile(geo, d, d', m)
  }
}
