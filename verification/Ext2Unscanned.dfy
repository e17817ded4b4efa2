/**
 A disk of two groups, starting at block 1, on which the last block of group 0 is the only free one: it is counted,
 and the allocator never finds it.
 */
module Ext2Unscanned {
  import opened Common
  import opened Bytes
  import opened Ext2Layout
  import opened Ext2BlockMap
  import opened Ext2
  import opened Ext2Fs
  import opened Ext2Inode
  import opened Ext2Sample

  /** Two groups of 64 blocks of 1024 bytes, with 8 inodes each. */
  const TWO_GROUPS: Geometry := Geometry(1024, 64, 8, 128, 16, 2, 1, 1, 1, [2, 66], [3, 67], [4, 68], 1)

  lemma TwoGroupsLayout()
    ensures TWO_GROUPS.WellFormed() && TWO_GROUPS.Separate() && TWO_GROUPS.TablesFit()
  {
    var geo := TWO_GROUPS;
    forall g: nat, a: nat ensures geo.TableApart(g, a) {
      if g < geo.groupsCount && geo.InTable(g, a) {
        assert a == if g == 0 then 4 else 68;
      }
    }
  }

  /** Every bit set but bit 63. */
  function AllButLast(): (b: Block) {
    Ones(1024)[7 := 127]
  }

  lemma SevenBits(i: nat)
    requires i < 8
    ensures TestBit(127, i) <==> i < 7
  {
    assert TestBit(127, 0) && TestBit(127, 1) && TestBit(127, 2) && TestBit(127, 3);
    assert TestBit(127, 4) && TestBit(127, 5) && TestBit(127, 6) && !TestBit(127, 7);
  }

  lemma AllButLastBits(i: nat)
    requires i < 64
    ensures BitAt(AllButLast(), i) <==> i < 63
  {
    if i / 8 == 7 {
      SevenBits(i % 8);
    } else {
      ByteFull(i % 8);
    }
  }

  lemma AllButLastClear()
    ensures ClearBits(AllButLast(), 63) == 0 && ClearBits(AllButLast(), 64) == 1
  {
    forall i: nat | i < 64 ensures BitAt(AllButLast(), i) <==> i < 63 {
      AllButLastBits(i);
    }
    NoneClear(AllButLast(), 63);
  }

  function LastFree(): Disk {
    var empty := seq(129, _ => Zeros(1024));
    empty[2 := AllButLast()][3 := Ones(1024)][66 := Ones(1024)][67 := Ones(1024)]
  }

  lemma LastFreeCounted(geo: Layout)
    requires geo == TWO_GROUPS
    ensures Conserved(geo, LastFree(), [1, 0], 1)
  {
    AllButLastClear();
    forall i: nat | i < 64 ensures BitAt(Ones(1024), i) {
      OnesSet(1024, i);
    }
    NoneClear(Ones(1024), 64);
    assert [1, 0][..1] == [1] && Sum([1]) == 1;
  }

  lemma LastFreeMarked(geo: Layout)
    requires geo == TWO_GROUPS && geo.OnDisk(LastFree())
    ensures ClearIsFree(geo, LastFree())
  {
    forall g: nat, i: nat | g < geo.groupsCount && i < geo.GroupBlocks(g) ensures geo.BitSet(LastFree(), g, i) {
      if g == 0 {
        AllButLastBits(i);
      } else {
        OnesSet(1024, i);
      }
    }
  }

  lemma NoInodes(geo: Layout, d: Disk, n: nat)
    requires geo == TWO_GROUPS && geo.TablesFit() && geo.OnDisk(d) && d == LastFree() && 1 <= n <= 16
    ensures InodeAt(geo, d, n) == Zeros(128)
  {
    assert geo.TableBlock(n) == 4 || geo.TableBlock(n) == 68;
  }

  /** The disk is sound: no file, every other block in use. */
  lemma LastFreeMounted(geo: Layout)
    requires geo == TWO_GROUPS
    ensures Mounted(geo, State(LastFree(), [1, 0], 1), map[])
  {
    TwoGroupsLayout();
    LastFreeCounted(geo);
    LastFreeMarked(geo);
    LastFreeOwned(geo, LastFree(), InodeTable(geo, LastFree()));
  }

  lemma LastFreeOwned(geo: Layout, d: Disk, t: Table)
    requires geo == TWO_GROUPS && geo.TablesFit() && geo.OnDisk(d) && d == LastFree() && t == InodeTable(geo, d)
    ensures Owned(geo, d, t, map[])
  {
    forall k: nat | k <= DIND ensures GetU32(Zeros(128), PTR_OFFSET + 4 * k) == 0 {
      ZeroWord(128, PTR_OFFSET + 4 * k);
    }
    forall n, x | n in t && ValidNode(geo, x) ensures Addr(geo, d, t[n], x) == 0 {
      TableEntry(geo, d, t, n);
      NoInodes(geo, d, n);
      NoPointers(geo, d, t[n], x);
    }
  }

  /** Block 64 is free: it is on the disk, no metadata, nobody's, and its bit is clear. */
  lemma LastIsFree(geo: Layout)
    requires geo == TWO_GROUPS
    ensures geo.BlockNo(0, 63) == 64 < |LastFree()| && !geo.IsMeta(64) && !geo.BitSet(LastFree(), 0, 63)
  {
    AllButLastBits(63);
  }

  /** The counters say one block is free, block 64 is, and allocation fails. */
  method LastUnreached() returns (total: int, block: u32)
    ensures total == 1 && block == 0
  {
    TwoGroupsLayout();
    LastFreeMounted(TWO_GROUPS);
    var s := State(LastFree(), [1, 0], 1);
    total := s.total;
    ghost var g, i;
    block, s, g, i := AllocateBlock(TWO_GROUPS, s);
  }
}
