/**
 Where things live on an ext2 disk: block groups and their bitmaps, the inode tables,
 and the blocks the allocator rewrites with the superblock and the group descriptors.
 */
module Ext2Layout {
  import opened Arith
  import opened Bytes

  type Block = seq<byte>
  type Disk = seq<Block>

  /** An on-disk inode is its 128 packed bytes. */
  type Raw = r: seq<byte> | |r| == 128 witness Zeros(128)

  const SIZE_OFFSET: nat := 4
  const BLOCKS_OFFSET: nat := 28
  const PTR_OFFSET: nat := 40

  /** What mounting finds; `spare` is how many free blocks are out of the allocator's reach, which never changes. */
  datatype Geometry = Geometry(
    blockSize: nat, blocksPerGroup: nat, inodesPerGroup: nat, inodeSize: nat,
    inodesCount: nat, groupsCount: nat, firstDataBlock: nat, gdtBlocks: nat, tableBlocks: nat,
    blockBitmap: seq<nat>, inodeBitmap: seq<nat>, inodeTable: seq<nat>, spare: nat)
  {
    ghost predicate WellFormed() {
      && blockSize in {1024, 2048, 4096}
      && 0 < blocksPerGroup <= 8 * blockSize
      && |blockBitmap| == |inodeBitmap| == |inodeTable| == groupsCount
    }

    function PtrsPerBlock(): nat {
      blockSize / 4
    }

    ghost predicate WfDisk(d: Disk) {
      forall a | 0 <= a < |d| :: |d[a]| == blockSize
    }

    // ---- block groups ----

    /** How many bits of group `g`'s bitmap the allocator scans. */
    function GroupBlocks(g: nat): (n: nat)
      requires WellFormed()
    {
      if g == 0 && firstDataBlock > 0 then blocksPerGroup - 1 else blocksPerGroup
    }

    /** First block of a group: g * blocksPerGroup + firstDataBlock. */
    ghost function GroupStart(g: nat): nat {
      if g == 0 then firstDataBlock else GroupStart(g - 1) + blocksPerGroup
    }

    ghost function BlockNo(g: nat, i: nat): nat {
      GroupStart(g) + i
    }

    lemma {:induction false} BlockNoIs(g: nat, i: nat)
      ensures BlockNo(g, i) == g * blocksPerGroup + firstDataBlock + i
    {
      if g > 0 {
        BlockNoIs(g - 1, i);
        assert (g - 1) * blocksPerGroup == g * blocksPerGroup - blocksPerGroup;
      }
    }

    lemma {:induction false} GroupsApart(g: nat, h: nat)
      requires g < h
      ensures GroupStart(g) + blocksPerGroup <= GroupStart(h)
    {
      if g < h - 1 {
        GroupsApart(g, h - 1);
      }
    }

    predicate BitSet(d: Disk, g: nat, i: nat)
      requires WellFormed() && g < groupsCount
    {
      blockBitmap[g] < |d| && BitAt(d[blockBitmap[g]], i)
    }

    /** Block `a` is number `i` of group `g`, and that group's bitmap marks it as used. */
    ghost predicate MarkedAt(d: Disk, a: nat, g: nat, i: nat)
      requires WellFormed()
    {
      g < groupsCount && i < blocksPerGroup && a == BlockNo(g, i) && BitSet(d, g, i)
    }

    lemma BlockNoInjective(g1: nat, i1: nat, g2: nat, i2: nat)
      requires WellFormed() && i1 < blocksPerGroup && i2 < blocksPerGroup
      requires BlockNo(g1, i1) == BlockNo(g2, i2)
      ensures g1 == g2 && i1 == i2
    {
      if g1 < g2 {
        GroupsApart(g1, g2);
      } else if g2 < g1 {
        GroupsApart(g2, g1);
      }
    }

    // ---- blocks that hold no file contents ----

    /** Blocks the allocators overwrite with the superblock and the descriptor table. */
    predicate Reserved(a: nat) {
      a == 1 || GdtStart() <= a < GdtStart() + gdtBlocks
    }

    function GdtStart(): nat {
      3 * (blockSize / 512)
    }

    /** `a` lies in the inode table of some group. */
    predicate IsTable(a: nat)
      requires WellFormed()
    {
      exists g | 0 <= g < groupsCount :: InTable(g, a)
    }

    predicate InTable(g: nat, a: nat)
      requires WellFormed() && g < groupsCount
    {
      inodeTable[g] <= a < inodeTable[g] + tableBlocks
    }

    predicate IsMeta(a: nat)
      requires WellFormed()
    {
      a in blockBitmap || a in inodeBitmap || IsTable(a) || Reserved(a)
    }

    /** The bitmaps of groups `g` and `h` are different blocks. */
    ghost predicate BitmapsApart(g: nat, h: nat)
      requires WellFormed()
    {
      g < groupsCount && h < groupsCount ==>
        && blockBitmap[g] != inodeBitmap[h]
        && (g != h ==> blockBitmap[g] != blockBitmap[h] && inodeBitmap[g] != inodeBitmap[h])
    }

    /** Block `a`, if it is in the inode table of group `g`, is no bitmap, not reserved and in no other table. */
    ghost predicate TableApart(g: nat, a: nat)
      requires WellFormed()
    {
      g < groupsCount && InTable(g, a) ==>
        && !Reserved(a) && a !in blockBitmap && a !in inodeBitmap
        && forall h | 0 <= h < groupsCount && h != g :: !InTable(h, a)
    }

    ghost predicate BitmapsUsable(g: nat)
      requires WellFormed()
    {
      g < groupsCount ==> !Reserved(blockBitmap[g]) && !Reserved(inodeBitmap[g]) && blockBitmap[g] != 0
    }

    /** The blocks holding bitmaps, tables and reserved images never coincide, and exist. */
    ghost predicate Separate()
      requires WellFormed()
    {
      && (forall g: nat, h: nat {:trigger BitmapsApart(g, h)} :: BitmapsApart(g, h))
      && (forall g: nat {:trigger BitmapsUsable(g)} :: BitmapsUsable(g))
      && (forall g: nat, a: nat {:trigger TableApart(g, a)} :: TableApart(g, a))
    }

    ghost predicate OnDisk(d: Disk)
      requires WellFormed()
    {
      && WfDisk(d)
      && (forall g | 0 <= g < groupsCount ::
            blockBitmap[g] < |d| && inodeBitmap[g] < |d| && inodeTable[g] + tableBlocks <= |d|)
      && 1 < |d| && GdtStart() + gdtBlocks <= |d|
    }

    // ---- inodes in the tables ----

    /** Every inode number has its 128 bytes inside one block of its group's table. */
    ghost predicate TablesFit() {
      && 0 < inodesPerGroup <= 8 * blockSize
      && 128 <= inodeSize <= blockSize && blockSize % inodeSize == 0
      && inodesCount == groupsCount * inodesPerGroup
      && inodesPerGroup * inodeSize <= tableBlocks * blockSize
    }

    /** Byte offset of an inode in its group's table. */
    function SlotOffset(n: nat): nat
      requires 0 < inodesPerGroup && 1 <= n
    {
      (n - 1) % inodesPerGroup * inodeSize
    }

    function TableBlock(n: nat): (a: nat)
      requires WellFormed() && TablesFit() && 1 <= n <= inodesCount
      ensures IsTable(a)
    {
      var g := InodeGroup(n);
      assert InTable(g, inodeTable[g] + SlotOffset(n) / blockSize) by { OffsetInTable(n); }
      inodeTable[g] + SlotOffset(n) / blockSize
    }

    function Within(n: nat): (o: nat)
      requires WellFormed() && TablesFit() && 1 <= n <= inodesCount
      ensures o + 128 <= blockSize
    {
      MultipleFits((n - 1) % inodesPerGroup, inodeSize, blockSize);
      SlotOffset(n) % blockSize
    }

    function InodeGroup(n: nat): (g: nat)
      requires TablesFit() && 1 <= n <= inodesCount
      ensures g < groupsCount
    {
      DivBound(n - 1, inodesPerGroup, groupsCount);
      (n - 1) / inodesPerGroup
    }

    /** Inode `i` of group `g` starts `i` inode sizes behind the start of the group's table. */
    lemma InodePlace(g: nat, i: nat)
      requires WellFormed() && TablesFit() && g < groupsCount && i < inodesPerGroup
      ensures var n := g * inodesPerGroup + i + 1;
        && n <= inodesCount && InodeGroup(n) == g
        && TableBlock(n) * blockSize + Within(n) == inodeTable[g] * blockSize + i * inodeSize
    {
      var n, o := g * inodesPerGroup + i + 1, i * inodeSize;
      MulOrder(g + 1, groupsCount, inodesPerGroup);
      assert (g + 1) * inodesPerGroup == g * inodesPerGroup + inodesPerGroup;
      DivModUnique(inodesPerGroup, g, i, n - 1);
      DivMod(o, blockSize);
      assert (inodeTable[g] + o / blockSize) * blockSize == inodeTable[g] * blockSize + o / blockSize * blockSize;
    }

    lemma OffsetInTable(n: nat)
      requires WellFormed() && TablesFit() && 1 <= n <= inodesCount
      ensures 0 <= SlotOffset(n) / blockSize < tableBlocks
    {
      var i := (n - 1) % inodesPerGroup;
      MulStep(inodesPerGroup - i, inodeSize);
      assert (inodesPerGroup - i) * inodeSize == inodesPerGroup * inodeSize - i * inodeSize;
      DivBound(i * inodeSize, blockSize, tableBlocks);
    }

    /** No two inodes share a byte. */
    lemma InodeSlotsApart(m: nat, n: nat)
      requires WellFormed() && Separate() && TablesFit()
      requires 1 <= m <= inodesCount && 1 <= n <= inodesCount && m != n
      ensures TableBlock(m) == TableBlock(n) ==> Within(m) + 128 <= Within(n) || Within(n) + 128 <= Within(m)
    {
      if TableBlock(m) == TableBlock(n) {
        SameGroup(m, n);
        var k := inodesPerGroup;
        DivMod(m - 1, k);
        DivMod(n - 1, k);
        MultiplesApart((m - 1) % k, (n - 1) % k, inodeSize, blockSize);
      }
    }

    lemma SameGroup(m: nat, n: nat)
      requires WellFormed() && Separate() && TablesFit()
      requires 1 <= m <= inodesCount && 1 <= n <= inodesCount && TableBlock(m) == TableBlock(n)
      ensures InodeGroup(m) == InodeGroup(n)
    {
      OffsetInTable(m);
      OffsetInTable(n);
      assert TableApart(InodeGroup(m), TableBlock(m)) && InTable(InodeGroup(n), TableBlock(m));
    }
  }

  /** Where the fields of an inode lie, from the widths of those in front of them. */
  lemma InodeFields()
    ensures SIZE_OFFSET == 2 + 2                              // mode, uid
    ensures BLOCKS_OFFSET == SIZE_OFFSET + 4 + 4 * 4 + 2 + 2  // size, four times, gid, links_count
    ensures PTR_OFFSET == BLOCKS_OFFSET + 4 + 4 + 4           // blocks, flags, osd1
  {
  }

  /** Counters go out to block 1 and to the blocks whose numbers the code computes as if they were sectors. */
  lemma ReservedAre(geo: Geometry, a: nat)
    ensures geo.blockSize == 1024 ==> (geo.Reserved(a) <==> a == 1 || 6 <= a < 6 + geo.gdtBlocks)
    ensures geo.blockSize == 2048 ==> (geo.Reserved(a) <==> a == 1 || 12 <= a < 12 + geo.gdtBlocks)
    ensures geo.blockSize == 4096 ==> (geo.Reserved(a) <==> a == 1 || 24 <= a < 24 + geo.gdtBlocks)
  {
  }

  /** A geometry whose parts fit together. */
  type Layout = geo: Geometry | geo.WellFormed() && geo.Separate()
    ghost witness Geometry(1024, 1, 1, 128, 0, 0, 1, 0, 0, [], [], [], 0)

  // ---- quotient and remainder by repeated subtraction, so that proofs about positions stay linear ----

  ghost function Quot(x: nat, k: nat): (q: nat)
    requires k > 0
  {
    if x < k then 0 else 1 + Quot(x - k, k)
  }

  ghost function Rem(x: nat, k: nat): (r: nat)
    requires k > 0
    ensures r < k
  {
    if x < k then x else Rem(x - k, k)
  }

  /** They are the machine's / and %. */
  lemma {:induction false} QuotRem(x: nat, k: nat)
    requires k > 0
    ensures Quot(x, k) == x / k && Rem(x, k) == x % k
    decreases x
  {
    if x < k {
      DivModUnique(k, 0, x, x);
    } else {
      QuotRem(x - k, k);
      DivMod(x - k, k);
      assert ((x - k) / k + 1) * k == (x - k) / k * k + k;
      DivModUnique(k, (x - k) / k + 1, (x - k) % k, x);
    }
  }

  lemma {:induction false} QuotMonotone(a: nat, b: nat, k: nat)
    requires k > 0 && a <= b
    ensures Quot(a, k) <= Quot(b, k)
    decreases b
  {
    if k <= a {
      QuotMonotone(a - k, b - k, k);
    }
  }

  /** Moving by `m` inside one block keeps the quotient and moves the remainder. */
  lemma {:induction false} QuotWithin(x: nat, m: int, k: nat)
    requires k > 0 && 0 <= Rem(x, k) + m < k
    ensures x + m >= 0 && Quot(x + m, k) == Quot(x, k) && Rem(x + m, k) == Rem(x, k) + m
  {
    if k <= x {
      QuotWithin(x - k, m, k);
    }
  }

  lemma {:induction false} QuotUnique(x: nat, y: nat, k: nat)
    requires k > 0 && Quot(x, k) == Quot(y, k) && Rem(x, k) == Rem(y, k)
    ensures x == y
  {
    if k <= x {
      QuotUnique(x - k, y - k, k);
    }
  }

  // ---- division facts the layout rests on ----

  /** A multiple of `u`, reduced modulo a multiple of `u`, leaves room for `u` more. */
  lemma MultipleFits(i: nat, u: nat, size: nat)
    requires 0 < u <= size && size % u == 0
    ensures i * u % size + u <= size
  {
    var m, q := size / u, i * u / size;
    DivMod(size, u);
    DivMod(i * u, size);
    var s := m - (i - q * m);
    calc {
      s * u;
      m * u - i * u + q * m * u;
      { assert q * m * u == q * (m * u); }
      size - i * u % size;
    }
    MulStep(s, u);
    MulStep(s - 1, u);
    assert (s - 1) * u == s * u - u;
  }

  lemma MultiplesApart(i: nat, j: nat, u: nat, size: nat)
    requires 0 < u <= size && i != j && i * u / size == j * u / size
    ensures i * u % size + u <= j * u % size || j * u % size + u <= i * u % size
  {
    DivMod(i * u, size);
    DivMod(j * u, size);
    MulStep(j - i, u);
    assert (j - i) * u == j * u - i * u;
  }
}
