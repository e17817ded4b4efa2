/** A directory of twelve full blocks: it cannot take another entry, whatever its name. */
module Ext2FullDir {
  import opened Common
  import opened Bytes
  import opened Ext2Layout
  import opened Ext2BlockMap
  import opened Ext2
  import opened Ext2File
  import opened Ext2DirBlock
  import opened Ext2Dir
  import opened Ext2Sample

  /** An inode of 12288 bytes whose direct blocks are 8 to 19. */
  function FullInode(): (raw: Raw) {
    seq(128, i requires 0 <= i < 128 =>
      if i == SIZE_OFFSET + 1 then 48
      else if PTR_OFFSET <= i < PTR_OFFSET + 48 && i % 4 == 0 then 8 + (i - PTR_OFFSET) / 4
      else 0)
  }

  lemma FullInodeWords(k: nat)
    requires k < NDIR
    ensures GetU32(FullInode(), SIZE_OFFSET) == 12 * 1024 && GetU32(FullInode(), PTR_OFFSET + 4 * k) == 8 + k
  {
    var raw := FullInode();
    assert raw[PTR_OFFSET + 4 * k] == 8 + k;
  }

  const NAME: Name := [97]

  /** A block that one live record fills. */
  function FullBlock(): (b: Block) {
    WithRecord(Zeros(1024), 0, 11, 1024, NAME, 1)
  }

  lemma FullBlockTiled(len: nat)
    ensures |FullBlock()| == 1024 && Tiled(FullBlock(), 0) && Room(FullBlock(), 0, len) == 1024
  {
    FreshBlock(1024, NAME, 11, 1);
    assert RecLen(FullBlock(), 0) == 1024 && Ino(FullBlock(), 0) == 11;
    assert !RecordFits(FullBlock(), 1024);
  }

  function FullDisk(): Disk {
    seq(20, _ => FullBlock())
  }

  /** It is a directory of twelve blocks, and no block has room for a name of any length. */
  lemma FullDirectory(geo: Layout, len: nat)
    requires geo.blockSize == 1024
    ensures IsDir(geo, FullDisk(), FullInode(), NDIR) && !Fits(geo, FullDisk(), FullInode(), NDIR, len)
  {
    FullInodeWords(0);
    TwelveBlocks();
    forall lb: nat | lb < NDIR
      ensures DirBlockOk(geo, FullDisk(), FullInode(), lb) && !RoomIn(geo, FullDisk(), FullInode(), lb, len)
    {
      FullInodeWords(lb);
      FullBlockTiled(len);
      assert LeafNode(geo, lb) == Some(Root(lb));
      assert FileBlock(geo, FullDisk(), FullInode(), lb) == Some(FullBlock());
    }
  }

  lemma TwelveBlocks()
    ensures Quot(12 * 1024, 1024) == 12 && Rem(12 * 1024, 1024) == 0
  {
    QuotRem(12 * 1024, 1024);
  }
}
