/**
 * A small disk with one file of 100 bytes: the invariant holds of it, and it shows what a node with an old length
 * reads.
 */
module Ext2Sample {
  import opened Common
  import opened Bytes
  import opened Ext2Layout
  import opened Ext2BlockMap
  import opened Ext2
  import opened Ext2File
  import opened Ext2Fs
  import opened Ext2Inode
  import opened Ext2Mount

  /** One group of 64 blocks of 1024 bytes, with 8 inodes; blocks 2, 3 and 4 hold the bitmaps and the table. */
  const GEOMETRY: Geometry := Geometry(1024, 64, 8, 128, 8, 1, 1, 1, 1, [2], [3], [4], 0)

  lemma SampleLayout()
    ensures GEOMETRY.WellFormed() && GEOMETRY.Separate() && GEOMETRY.TablesFit()
  {
    var geo := GEOMETRY;
    forall g: nat, a: nat ensures geo.TableApart(g, a) {
      if g < geo.groupsCount && geo.InTable(g, a) {
        assert a == 4;
      }
    }
  }

  function Ones(n: nat): (s: seq<byte>) {
    seq(n, _ => 255)
  }

  lemma OnesSet(n: nat, i: nat)
    requires i < 8 * n
    ensures BitAt(Ones(n), i)
  {
    ByteFull(i % 8);
  }

  lemma ByteFull(i: nat)
    requires i < 8
    ensures TestBit(255, i)
  {
    assert TestBit(255, 0) && TestBit(255, 1) && TestBit(255, 2) && TestBit(255, 3);
    assert TestBit(255, 4) && TestBit(255, 5) && TestBit(255, 6) && TestBit(255, 7);
  }

  /** The inode of a file of 100 bytes in block 8. */
  function FileInode(): Raw {
    SetU32(SetU32(Zeros(128), SIZE_OFFSET, 100), PTR_OFFSET, 8)
  }

  function Empty(): Disk {
    seq(10, _ => Zeros(1024))
  }

  /** Every block and every inode is taken. */
  function SampleDisk(): Disk {
    Empty()[2 := Ones(1024)][3 := Ones(1024)][4 := Splice(Zeros(1024), 0, FileInode())]
  }

  const OWNER: Owner := map[8 := Own(1, Root(0), 0, 7)]

  lemma FileInodeWords()
    ensures GetU32(FileInode(), SIZE_OFFSET) == 100 && GetU32(FileInode(), PTR_OFFSET) == 8
    ensures forall k: nat | 0 < k <= DIND :: GetU32(FileInode(), PTR_OFFSET + 4 * k) == 0
  {
    forall k: nat | 0 < k <= DIND ensures GetU32(FileInode(), PTR_OFFSET + 4 * k) == 0 {
      ZeroWord(128, PTR_OFFSET + 4 * k);
    }
  }

  lemma {:induction false} FileAddrs(geo: Layout, x: Node)
    requires ValidNode(geo, x)
    ensures Addr(geo, SampleDisk(), FileInode(), x) == if x == Root(0) then 8 else 0
  {
    FileInodeWords();
    if x.Child? {
      FileAddrs(geo, x.parent);
    }
  }

  lemma SampleInodes(geo: Layout, n: nat)
    requires geo == GEOMETRY && geo.TablesFit() && geo.OnDisk(SampleDisk()) && 1 <= n <= 8
    ensures InodeAt(geo, SampleDisk(), n) == if n == 1 then FileInode() else Zeros(128)
  {
    SampleSlot(geo, n);
  }

  lemma SampleSlot(geo: Layout, n: nat)
    requires geo == GEOMETRY && geo.TablesFit() && 1 <= n <= 8
    ensures geo.TableBlock(n) == 4 && geo.Within(n) == (n - 1) * 128
  {
  }

  lemma SampleOwned(geo: Layout, n: nat, x: Node)
    requires geo == GEOMETRY && geo.TablesFit() && geo.OnDisk(SampleDisk()) && 1 <= n <= 8 && ValidNode(geo, x)
    ensures Addr(geo, SampleDisk(), InodeAt(geo, SampleDisk(), n), x) == if n == 1 && x == Root(0) then 8 else 0
  {
    SampleInodes(geo, n);
    if n == 1 {
      FileAddrs(geo, x);
    } else {
      forall k: nat | k <= DIND ensures GetU32(Zeros(128), PTR_OFFSET + 4 * k) == 0 {
        ZeroWord(128, PTR_OFFSET + 4 * k);
      }
      NoPointers(geo, SampleDisk(), Zeros(128), x);
    }
  }

  lemma SampleMarked(geo: Layout)
    requires geo == GEOMETRY && geo.OnDisk(SampleDisk())
    ensures OwnersMarked(geo, SampleDisk(), OWNER) && ClearIsFree(geo, SampleDisk())
  {
    var d := SampleDisk();
    forall i: nat | i < 64 ensures BitAt(d[2], i) {
      OnesSet(1024, i);
    }
    assert geo.BitSet(d, 0, 7) && geo.BlockNo(0, 7) == 8;
  }

  lemma SampleCounted(geo: Layout)
    requires geo == GEOMETRY
    ensures Conserved(geo, SampleDisk(), [0], 0) && InodesConserved(geo, SampleDisk(), Counts([0], 0))
  {
    forall i: nat | i < 64 ensures BitAt(Ones(1024), i) {
      OnesSet(1024, i);
    }
    NoneClear(Ones(1024), 63);
    NoneClear(Ones(1024), 8);
    assert Sum([0]) == 0;
  }

  /** The invariant holds of this disk. */
  lemma SampleMounted(geo: Layout)
    requires geo == GEOMETRY
    ensures Mounted(geo, State(SampleDisk(), [0], 0), OWNER) && InodesConserved(geo, SampleDisk(), Counts([0], 0))
  {
    SampleLayout();
    SampleMarked(geo);
    SampleCounted(geo);
    SampleTable(geo, SampleDisk(), InodeTable(geo, SampleDisk()));
  }

  lemma SampleTable(geo: Layout, d: Disk, t: Table)
    requires geo == GEOMETRY && geo.TablesFit() && geo.OnDisk(d) && d == SampleDisk() && t == InodeTable(geo, d)
    ensures Owned(geo, d, t, OWNER)
  {
    forall n, x | n in t && ValidNode(geo, x) ensures Addr(geo, d, t[n], x) == if n == 1 && x == Root(0) then 8 else 0 {
      TableEntry(geo, d, t, n);
      SampleOwned(geo, n, x);
    }
  }

  lemma SampleWritable(geo: Layout)
    requires geo == GEOMETRY && geo.TablesFit() && geo.OnDisk(SampleDisk())
    ensures Funded(geo, State(SampleDisk(), [0], 0), InodeAt(geo, SampleDisk(), 1), 0, 10)
    ensures forall pos: nat | pos < 10 :: FileByte(geo, SampleDisk(), InodeAt(geo, SampleDisk(), 1), pos).Some?
    ensures GetU32(InodeAt(geo, SampleDisk(), 1), SIZE_OFFSET) == 100
  {
    SampleInodes(geo, 1);
    FileInodeWords();
    FirstBlock(geo, SampleDisk());
    TenWritable(geo, State(SampleDisk(), [0], 0), FileInode());
  }

  /** The first ten bytes of a file with a first block. */
  lemma TenWritable(geo: Layout, s: State, raw: Raw)
    requires FileAddr(geo, s.disk, raw, 0) != 0 && FileBlock(geo, s.disk, raw, 0).Some?
    requires |FileBlock(geo, s.disk, raw, 0).value| == geo.blockSize && Left(geo, s) >= 0
    ensures Funded(geo, s, raw, 0, 10) && forall pos: nat | pos < 10 :: FileByte(geo, s.disk, raw, pos).Some?
  {
    assert forall pos: nat | pos < 10 :: Quot(pos, geo.blockSize) == 0 && Rem(pos, geo.blockSize) == pos;
    MappedFunds(geo, s, raw, 0, 10);
  }

  lemma FirstBlock(geo: Layout, d: Disk)
    requires geo == GEOMETRY && d == SampleDisk() && |d[8]| == 1024
    ensures FileAddr(geo, d, FileInode(), 0) == 8 && FileBlock(geo, d, FileInode(), 0) == Some(d[8])
  {
    FileAddrs(geo, Root(0));
  }

  /** The disk with the number 8 in the first word of its boot block. */
  function BootDisk(): Disk {
    SampleDisk()[0 := SetU32(Zeros(1024), 0, 8)]
  }

  /**
   * With no block left, the lookup of block 12 of the file, whose indirect block is missing, answers 8 from the boot
   * block: the file's own first block.
   */
  lemma BootAstray(geo: Layout)
    requires geo == GEOMETRY
    ensures DryAddr(geo, BootDisk(), FileInode(), Child(Root(IND), 0)) == 8
    ensures Addr(geo, BootDisk(), FileInode(), Child(Root(IND), 0)) == 0 && !DryFaithful(geo, BootDisk(), FileInode())
  {
    FileInodeWords();
    assert ValidNode(geo, Child(Root(IND), 0));
  }

  /** A write over bytes that the file holds is never cut short. */
  lemma NotCutShort(geo: Layout, d: Disk, s: State, n: nat, written: nat, data: seq<byte>)
    requires FileWritten(geo, d, s.disk, n, 0, data) && |data| == written < 10
    requires FileByte(geo, d, InodeAt(geo, d, n), written).Some?
    ensures !Stopped(geo, s, InodeAt(geo, s.disk, n), written)
  {
    OutsideKept(geo, d, s.disk, n, 0, data, written);
  }

  /** A mounted disk whose file `n` holds at least ten bytes and can be written over. */
  ghost predicate TenBytes(geo: Layout, s: State, counts: Counts, owner: Owner, n: nat) {
    && Mounted(geo, s, owner) && InodesConserved(geo, s.disk, counts) && 1 <= n <= geo.inodesCount < 0x1_0000_0000
    && Funded(geo, s, InodeAt(geo, s.disk, n), 0, 10) && GetU32(InodeAt(geo, s.disk, n), SIZE_OFFSET) >= 10
    && forall pos: nat | pos < 10 :: FileByte(geo, s.disk, InodeAt(geo, s.disk, n), pos).Some?
  }

  lemma SampleTenBytes(geo: Layout)
    requires geo == GEOMETRY
    ensures TenBytes(geo, State(SampleDisk(), [0], 0), Counts([0], 0), OWNER, 1)
  {
    SampleMounted(geo);
    SampleWritable(geo);
  }

  /** Ten bytes written over such a file through a node of length 0: all are written, none is read back. */
  method WriteOver(geo: Layout, s: State, counts: Counts, ghost owner: Owner, n: nat, buffer: seq<byte>)
    returns (written: nat, data: seq<byte>)
    requires TenBytes(geo, s, counts, owner, n) && |buffer| == 10
    ensures written == 10 && data == []
  {
    var fs := new FileSystem(geo, s, counts, owner);
    var node := new VfsNode(n, false, 0);
    written := fs.WriteFileData(node, 0, buffer);
    if written < 10 {
      NotCutShort(geo, s.disk, fs.s, n, written, buffer[..written]);
      assert false;
    }
    data := fs.ReadFileData(node, 0, 10);
  }

  /**
   * The node of a lookup made while the file was empty, used after it has grown to 100 bytes: ten bytes written at the
   * start are all written, and reading them back through that node returns nothing.
   */
  method StaleNode() returns (written: nat, data: seq<byte>)
    ensures written == 10 && data == []
  {
    SampleLayout();
    SampleTenBytes(GEOMETRY);
    written, data := WriteOver(GEOMETRY, State(SampleDisk(), [0], 0), Counts([0], 0), OWNER, 1, Ones(10));
  }
}
