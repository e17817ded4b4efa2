/**
 The block map of ext2 inodes (direct, indirect, double-indirect) and the ownership
 invariant: every block number reachable from an inode has exactly one owner, is marked
 in the bitmap, and holds no bitmap, inode table or reserved image.
 */
module Ext2BlockMap {
  import opened Common
  import opened Arith
  import opened Bytes
  import opened Ext2Layout

  const NDIR: nat := 12
  const IND: nat := 12
  const DIND: nat := 13

  /** A pointer slot: one of the inode's own, or one inside the index block another slot points to. */
  datatype Node = Root(slot: nat) | Child(parent: Node, slot: nat)

  type Table = map<nat, Raw>

  /** Who owns a block, and which bitmap bit stands for it. */
  datatype Own = Own(ino: nat, node: Node, group: nat, bit: nat)
  type Owner = map<nat, Own>

  /** Slots that point to index blocks. */
  predicate IsIndex(x: Node) {
    x == Root(IND) || x == Root(DIND) || (x.Child? && x.parent == Root(DIND))
  }

  predicate ValidNode(geo: Layout, x: Node) {
    match x
    case Root(k) => k <= DIND
    case Child(p, j) => IsIndex(p) && ValidNode(geo, p) && j < geo.PtrsPerBlock()
  }

  /** The word at a byte offset, where there is one. */
  ghost function Word(s: seq<byte>, off: nat): u32 {
    if off + 4 <= |s| then GetU32(s, off) else 0
  }

  /** The block number stored in a slot; 0 when absent. */
  ghost function Addr(geo: Layout, d: Disk, raw: Raw, x: Node): u32 {
    match x
    case Root(k) => Word(raw, PTR_OFFSET + 4 * k)
    case Child(p, j) =>
      var a := Addr(geo, d, raw, p);
      if a == 0 || a >= |d| then 0 else Word(d[a], 4 * j)
  }

  /** The slot for a logical block of a file, if the map reaches that far. */
  ghost function LeafNode(geo: Layout, lb: nat): (x: Option<Node>)
    ensures x.Some? ==> ValidNode(geo, x.value) && !IsIndex(x.value)
  {
    var p := geo.PtrsPerBlock();
    if lb < NDIR then Some(Root(lb))
    else if lb - NDIR < p then Some(Child(Root(IND), lb - NDIR))
    else
      var q := lb - NDIR - p;
      if Quot(q, p) < p then Some(Child(Child(Root(DIND), Quot(q, p)), Rem(q, p))) else None
  }

  lemma LeafNodeInjective(geo: Layout, l1: nat, l2: nat)
    requires LeafNode(geo, l1).Some? && LeafNode(geo, l1) == LeafNode(geo, l2)
    ensures l1 == l2
  {
    var p := geo.PtrsPerBlock();
    if l1 >= NDIR + p && l2 >= NDIR + p {
      QuotUnique(l1 - NDIR - p, l2 - NDIR - p, p);
    }
  }

  /** Logical blocks 0 to 11 are the inode's first twelve slots. */
  lemma DirectSlot(geo: Layout, lb: nat)
    requires lb < 12
    ensures LeafNode(geo, lb) == Some(Root(lb))
  {
  }

  /** The next ones, as many as a block holds numbers, are the slots of the block behind slot 12. */
  lemma IndirectSlot(geo: Layout, i: nat)
    requires i < geo.blockSize / 4
    ensures LeafNode(geo, 12 + i) == Some(Child(Root(12), i))
  {
  }

  /** Behind slot 13, block `i * p + j` of the rest is slot `j` of the block behind slot `i`. */
  lemma DoubleSlot(geo: Layout, i: nat, j: nat)
    requires i < geo.blockSize / 4 && j < geo.blockSize / 4
    ensures LeafNode(geo, 12 + geo.blockSize / 4 + i * (geo.blockSize / 4) + j) == Some(Child(Child(Root(13), i), j))
  {
    var p := geo.blockSize / 4;
    DivModUnique(p, i, j, i * p + j);
    QuotRem(i * p + j, p);
  }

  /** What a file holds at a logical block; None for a hole. */
  ghost function FileBlock(geo: Layout, d: Disk, raw: Raw, lb: nat): Option<Block> {
    match LeafNode(geo, lb)
    case None => None
    case Some(x) =>
      var a := Addr(geo, d, raw, x);
      if a == 0 || a >= |d| then None else Some(d[a])
  }

  // ---- the ownership invariant ----

  ghost predicate Owned(geo: Layout, d: Disk, t: Table, owner: Owner)
  {
    forall n, x | n in t && ValidNode(geo, x) ::
      var a := Addr(geo, d, t[n], x); a != 0 ==> a in owner && owner[a].ino == n && owner[a].node == x
  }

  ghost predicate OwnersMarked(geo: Layout, d: Disk, owner: Owner) {
    forall a | a in owner :: 0 < a < |d| && !geo.IsMeta(a) && geo.MarkedAt(d, a, owner[a].group, owner[a].bit)
  }

  /** Whatever the bitmaps show as free really is free to use. */
  ghost predicate ClearIsFree(geo: Layout, d: Disk) {
    forall g: nat, i: nat | g < geo.groupsCount && i < geo.GroupBlocks(g) && !geo.BitSet(d, g, i) ::
      0 < geo.BlockNo(g, i) < |d| && geo.BlockNo(g, i) < 0x1_0000_0000 && !geo.IsMeta(geo.BlockNo(g, i))
  }

  ghost predicate View(geo: Layout, d: Disk, t: Table, owner: Owner) {
    && geo.OnDisk(d)
    && (forall n :: n in t <==> 1 <= n <= geo.inodesCount)
    && Owned(geo, d, t, owner)
    && OwnersMarked(geo, d, owner)
    && ClearIsFree(geo, d)
  }

  /** The block behind a slot belongs to that slot. */
  lemma OwnedBy(geo: Layout, d: Disk, t: Table, owner: Owner, n: nat, x: Node)
    requires Owned(geo, d, t, owner) && n in t && ValidNode(geo, x) && Addr(geo, d, t[n], x) != 0
    ensures var a := Addr(geo, d, t[n], x); a in owner && owner[a].ino == n && owner[a].node == x
  {
  }

  /**
   * Blocks reached from different slots, of one inode or of two, are different blocks; each is marked in its
   * group's bitmap and is none of the bitmaps, tables and reserved blocks.
   */
  lemma BlocksDisjoint(geo: Layout, d: Disk, t: Table, owner: Owner, n: nat, x: Node, m: nat, y: Node)
    requires View(geo, d, t, owner) && n in t && m in t && ValidNode(geo, x) && ValidNode(geo, y)
    requires Addr(geo, d, t[n], x) != 0
    ensures Addr(geo, d, t[n], x) == Addr(geo, d, t[m], y) ==> n == m && x == y
    ensures !geo.IsMeta(Addr(geo, d, t[n], x)) && exists g: nat, i: nat :: geo.MarkedAt(d, Addr(geo, d, t[n], x), g, i)
  {
    OwnedBy(geo, d, t, owner, n, x);
    var a := Addr(geo, d, t[n], x);
    if Addr(geo, d, t[m], y) == a {
      OwnedBy(geo, d, t, owner, m, y);
    }
    assert geo.MarkedAt(d, a, owner[a].group, owner[a].bit);
  }

  /** Slots depend only on the index blocks that somebody owns. */
  lemma {:induction false} AddrFrame(geo: Layout, d: Disk, d': Disk, t: Table, owner: Owner, n: nat, x: Node)
    requires |d'| == |d|
    requires Owned(geo, d, t, owner) && n in t && ValidNode(geo, x)
    requires forall a | a in owner && IsIndex(owner[a].node) && a < |d| :: d'[a] == d[a]
    ensures Addr(geo, d', t[n], x) == Addr(geo, d, t[n], x)
  {
    if x.Child? {
      AddrFrame(geo, d, d', t, owner, n, x.parent);
    }
  }

  lemma FileFrame(geo: Layout, d: Disk, d': Disk, t: Table, owner: Owner, n: nat, lb: nat)
    requires |d'| == |d|
    requires Owned(geo, d, t, owner) && n in t
    requires forall a | a in owner && IsIndex(owner[a].node) && a < |d| :: d'[a] == d[a]
    requires forall a | a in owner && a < |d| && Some(owner[a].node) == LeafNode(geo, lb) && owner[a].ino == n ::
      d'[a] == d[a]
    ensures FileBlock(geo, d', t[n], lb) == FileBlock(geo, d, t[n], lb)
  {
    var x := LeafNode(geo, lb);
    if x.Some? {
      AddrFrame(geo, d, d', t, owner, n, x.value);
    }
  }

  ghost predicate SameFilesBut(geo: Layout, d: Disk, t: Table, d': Disk, t': Table, n0: nat, lb0: nat) {
    t'.Keys == t.Keys && forall n, lb: nat | n in t && (n, lb) != (n0, lb0) ::
      FileBlock(geo, d', t'[n], lb) == FileBlock(geo, d, t[n], lb)
  }

  ghost predicate SameFiles(geo: Layout, d: Disk, t: Table, d': Disk, t': Table) {
    t'.Keys == t.Keys && forall n, lb: nat | n in t :: FileBlock(geo, d', t'[n], lb) == FileBlock(geo, d, t[n], lb)
  }

  ghost predicate SameBitmaps(geo: Layout, d: Disk, d': Disk) {
    |d'| == |d| && forall g | 0 <= g < geo.groupsCount && geo.blockBitmap[g] < |d| ::
      d'[geo.blockBitmap[g]] == d[geo.blockBitmap[g]]
  }

  lemma StillOnDisk(geo: Layout, d: Disk, d': Disk)
    requires geo.OnDisk(d) && |d'| == |d| && geo.WfDisk(d')
    ensures geo.OnDisk(d')
  {
  }

  lemma StillMarked(geo: Layout, d: Disk, d': Disk, owner: Owner)
    requires SameBitmaps(geo, d, d')
    requires OwnersMarked(geo, d, owner)
    ensures OwnersMarked(geo, d', owner)
  {
  }

  lemma StillFree(geo: Layout, d: Disk, d': Disk)
    requires SameBitmaps(geo, d, d')
    requires ClearIsFree(geo, d)
    ensures ClearIsFree(geo, d')
  {
    forall g: nat, i: nat | g < geo.groupsCount && i < geo.GroupBlocks(g) && !geo.BitSet(d', g, i)
      ensures 0 < geo.BlockNo(g, i) < |d'| && geo.BlockNo(g, i) < 0x1_0000_0000 && !geo.IsMeta(geo.BlockNo(g, i))
    {
      assert !geo.BitSet(d, g, i);
    }
  }

  /** Writes that keep the bitmaps keep what the bitmaps say. */
  lemma MetaKept(geo: Layout, d: Disk, d': Disk, owner: Owner)
    requires geo.OnDisk(d) && |d'| == |d| && geo.WfDisk(d')
    requires OwnersMarked(geo, d, owner) && ClearIsFree(geo, d) && SameBitmaps(geo, d, d')
    ensures geo.OnDisk(d') && OwnersMarked(geo, d', owner) && ClearIsFree(geo, d')
  {
    StillOnDisk(geo, d, d');
    StillMarked(geo, d, d', owner);
    StillFree(geo, d, d');
  }

  lemma SameAddrs(geo: Layout, d: Disk, d': Disk, t: Table, owner: Owner)
    requires |d'| == |d| && Owned(geo, d, t, owner)
    requires forall a | a in owner && IsIndex(owner[a].node) && a < |d| :: d'[a] == d[a]
    ensures Owned(geo, d', t, owner)
    ensures forall n, x | n in t && ValidNode(geo, x) :: Addr(geo, d', t[n], x) == Addr(geo, d, t[n], x)
  {
    forall n, x | n in t && ValidNode(geo, x)
      ensures Addr(geo, d', t[n], x) == Addr(geo, d, t[n], x)
    {
      AddrFrame(geo, d, d', t, owner, n, x);
    }
  }

  // ---- writing a data block ----

  /** The disk after writing `b` to the block behind a file's logical block. */
  ghost function DataWritten(geo: Layout, d: Disk, raw: Raw, lb: nat, b: Block): (d': Disk)
    requires FileBlock(geo, d, raw, lb).Some? && |b| == geo.blockSize
    ensures |d'| == |d| && (geo.WfDisk(d) ==> geo.WfDisk(d'))
  {
    d[Addr(geo, d, raw, LeafNode(geo, lb).value) := b]
  }

  lemma DataWrittenView(geo: Layout, d: Disk, t: Table, owner: Owner, n0: nat, lb0: nat, b: Block)
    requires View(geo, d, t, owner) && n0 in t && |b| == geo.blockSize
    requires FileBlock(geo, d, t[n0], lb0).Some?
    ensures View(geo, DataWritten(geo, d, t[n0], lb0, b), t, owner)
  {
    var d' := DataWritten(geo, d, t[n0], lb0, b);
    var a0 := Addr(geo, d, t[n0], LeafNode(geo, lb0).value);
    assert a0 in owner && !geo.IsMeta(a0);
    MetaKept(geo, d, d', owner);
    SameAddrs(geo, d, d', t, owner);
  }

  lemma DataWrittenOther(geo: Layout, d: Disk, t: Table, owner: Owner, n0: nat, lb0: nat, b: Block, n: nat, lb: nat)
    requires Owned(geo, d, t, owner) && n0 in t && |b| == geo.blockSize
    requires FileBlock(geo, d, t[n0], lb0).Some? && n in t && (n, lb) != (n0, lb0)
    ensures FileBlock(geo, DataWritten(geo, d, t[n0], lb0, b), t[n], lb) == FileBlock(geo, d, t[n], lb)
  {
    if LeafNode(geo, lb) == LeafNode(geo, lb0) {
      LeafNodeInjective(geo, lb, lb0);
    }
    FileFrame(geo, d, DataWritten(geo, d, t[n0], lb0, b), t, owner, n, lb);
  }

  lemma DataWrittenAddrs(geo: Layout, d: Disk, t: Table, owner: Owner, n0: nat, lb0: nat, b: Block)
    requires View(geo, d, t, owner) && n0 in t && |b| == geo.blockSize && FileBlock(geo, d, t[n0], lb0).Some?
    ensures forall y | ValidNode(geo, y) ::
      Addr(geo, DataWritten(geo, d, t[n0], lb0, b), t[n0], y) == Addr(geo, d, t[n0], y)
  {
    forall y | ValidNode(geo, y)
      ensures Addr(geo, DataWritten(geo, d, t[n0], lb0, b), t[n0], y) == Addr(geo, d, t[n0], y)
    {
      AddrFrame(geo, d, DataWritten(geo, d, t[n0], lb0, b), t, owner, n0, y);
    }
  }

  /** Overwriting the data block of one file changes that block of that file and nothing else. */
  lemma WriteData(geo: Layout, d: Disk, t: Table, owner: Owner, n0: nat, lb0: nat, b: Block)
    requires View(geo, d, t, owner) && n0 in t && |b| == geo.blockSize
    requires FileBlock(geo, d, t[n0], lb0).Some?
    ensures var d' := DataWritten(geo, d, t[n0], lb0, b);
      && View(geo, d', t, owner)
      && FileBlock(geo, d', t[n0], lb0) == Some(b)
      && SameFilesBut(geo, d, t, d', t, n0, lb0)
  {
    var d' := DataWritten(geo, d, t[n0], lb0, b);
    DataWrittenView(geo, d, t, owner, n0, lb0, b);
    AddrFrame(geo, d, d', t, owner, n0, LeafNode(geo, lb0).value);
    forall n, lb: nat | n in t && (n, lb) != (n0, lb0)
      ensures FileBlock(geo, d', t[n], lb) == FileBlock(geo, d, t[n], lb)
    {
      DataWrittenOther(geo, d, t, owner, n0, lb0, b, n, lb);
    }
  }

  // ---- allocating a block ----

  /** One successful allocation: bit `i` of group `g` was clear and is set, the block it stands for is zeroed. */
  ghost predicate Allocated(geo: Layout, d: Disk, d': Disk, g: nat, i: nat) {
    && geo.OnDisk(d) && |d'| == |d| && geo.WfDisk(d')
    && g < geo.groupsCount && i < geo.GroupBlocks(g)
    && !geo.BitSet(d, g, i)
    && geo.BlockNo(g, i) < |d|
    && d'[geo.blockBitmap[g]] == MarkBit(d[geo.blockBitmap[g]], i)
    && d'[geo.BlockNo(g, i)] == Zeros(geo.blockSize)
    && forall a | 0 <= a < |d| && a != geo.blockBitmap[g] && a != geo.BlockNo(g, i) && !geo.Reserved(a) :: d'[a] == d[a]
  }

  /** A block whose bit is clear belongs to nobody. */
  lemma ClearNotOwned(geo: Layout, d: Disk, owner: Owner, g: nat, i: nat)
    requires OwnersMarked(geo, d, owner)
    requires g < geo.groupsCount && i < geo.blocksPerGroup && !geo.BitSet(d, g, i)
    ensures geo.BlockNo(g, i) !in owner
  {
    var r := geo.BlockNo(g, i);
    if r in owner {
      geo.BlockNoInjective(g, i, owner[r].group, owner[r].bit);
      assert false;
    }
  }

  /** Allocation touches no owned block. */
  lemma AllocatedKeeps(geo: Layout, d: Disk, d': Disk, owner: Owner, g: nat, i: nat)
    requires OwnersMarked(geo, d, owner) && Allocated(geo, d, d', g, i)
    ensures forall a | a in owner :: a < |d| && d'[a] == d[a]
  {
    ClearNotOwned(geo, d, owner, g, i);
  }

  lemma AllocatedBits(geo: Layout, d: Disk, d': Disk, g: nat, i: nat, h: nat, j: nat)
    requires Allocated(geo, d, d', g, i) && ClearIsFree(geo, d)
    requires h < geo.groupsCount && j < geo.blocksPerGroup
    ensures geo.OnDisk(d')
    ensures geo.BitSet(d', h, j) == ((h, j) == (g, i) || geo.BitSet(d, h, j))
  {
    StillOnDisk(geo, d, d');
    assert geo.blockBitmap[h] != geo.BlockNo(g, i);
    assert geo.BitmapsApart(h, g) && geo.BitmapsUsable(h);
    assert h != g ==> d'[geo.blockBitmap[h]] == d[geo.blockBitmap[h]];
  }

  lemma AllocatedMarked(geo: Layout, d: Disk, d': Disk, owner: Owner, g: nat, i: nat)
    requires Allocated(geo, d, d', g, i) && ClearIsFree(geo, d)
    requires OwnersMarked(geo, d, owner)
    ensures geo.OnDisk(d') && OwnersMarked(geo, d', owner)
  {
    StillOnDisk(geo, d, d');
    forall a | a in owner
      ensures geo.MarkedAt(d', a, owner[a].group, owner[a].bit)
    {
      AllocatedBits(geo, d, d', g, i, owner[a].group, owner[a].bit);
    }
  }

  lemma AllocatedFree(geo: Layout, d: Disk, d': Disk, g: nat, i: nat)
    requires Allocated(geo, d, d', g, i) && ClearIsFree(geo, d)
    ensures geo.OnDisk(d') && ClearIsFree(geo, d')
  {
    StillOnDisk(geo, d, d');
    forall h: nat, j: nat | h < geo.groupsCount && j < geo.GroupBlocks(h) && !geo.BitSet(d', h, j)
      ensures !geo.BitSet(d, h, j)
    {
      AllocatedBits(geo, d, d', g, i, h, j);
    }
  }

  /** Allocation keeps the invariant and every file, and hands out a block nobody owns. */
  lemma Allocation(geo: Layout, d: Disk, d': Disk, t: Table, owner: Owner, g: nat, i: nat)
    requires View(geo, d, t, owner) && Allocated(geo, d, d', g, i)
    ensures View(geo, d', t, owner)
    ensures SameFiles(geo, d, t, d', t)
    ensures geo.BlockNo(g, i) !in owner && geo.MarkedAt(d', geo.BlockNo(g, i), g, i)
    ensures forall n, x | n in t && ValidNode(geo, x) :: Addr(geo, d', t[n], x) == Addr(geo, d, t[n], x)
  {
    ClearNotOwned(geo, d, owner, g, i);
    AllocatedKeeps(geo, d, d', owner, g, i);
    AllocatedMarked(geo, d, d', owner, g, i);
    AllocatedFree(geo, d, d', g, i);
    AllocatedBits(geo, d, d', g, i, g, i);
    SameAddrs(geo, d, d', t, owner);
    forall n, lb: nat | n in t
      ensures FileBlock(geo, d', t[n], lb) == FileBlock(geo, d, t[n], lb)
    {
      FileFrame(geo, d, d', t, owner, n, lb);
    }
  }

  // ---- filling a pointer slot ----

  ghost predicate CanLink(geo: Layout, d: Disk, raw: Raw, x: Node) {
    && geo.WfDisk(d) && ValidNode(geo, x)
    && (x.Child? ==> 0 < Addr(geo, d, raw, x.parent) < |d|)
    && (IsIndex(x) ==> Addr(geo, d, raw, x) == 0)
  }

  /** The disk and the inode after storing block number `f` in slot `x`. */
  ghost function Linked(geo: Layout, d: Disk, raw: Raw, x: Node, f: u32): (r: (Disk, Raw))
    requires CanLink(geo, d, raw, x)
    ensures |r.0| == |d| && geo.WfDisk(r.0)
  {
    match x
    case Root(k) => (d, SetU32(raw, PTR_OFFSET + 4 * k, f))
    case Child(p, j) =>
      var a := Addr(geo, d, raw, p);
      (d[a := SetU32(d[a], 4 * j, f)], raw)
  }

  ghost predicate FreshZero(geo: Layout, d: Disk, owner: Owner, f: u32)
  {
    0 < f < |d| && f !in owner && d[f] == Zeros(geo.blockSize)
  }

  /** Below the root: what slot `j` of the block behind `p` reads after the store. */
  lemma LinkedWord(geo: Layout, d: Disk, t: Table, owner: Owner, n0: nat, x0: Node, f: u32, n: nat, p: Node, j: nat)
    requires Owned(geo, d, t, owner) && n0 in t && n in t
    requires CanLink(geo, d, t[n0], x0) && ValidNode(geo, Child(p, j))
    requires 0 < Addr(geo, d, t[n], p) < |d|
    ensures GetU32(Linked(geo, d, t[n0], x0, f).0[Addr(geo, d, t[n], p)], 4 * j)
         == if (n, Child(p, j)) == (n0, x0) then f else GetU32(d[Addr(geo, d, t[n], p)], 4 * j)
  {
    var a := Addr(geo, d, t[n], p);
    if x0.Child? {
      var a0 := Addr(geo, d, t[n0], x0.parent);
      OwnedBy(geo, d, t, owner, n0, x0.parent);
      OwnedBy(geo, d, t, owner, n, p);
      if a == a0 {
        if j != x0.slot {
          assert 4 * j + 4 <= 4 * x0.slot || 4 * x0.slot + 4 <= 4 * j;
        }
      }
    }
  }

  /** Storing a fresh zeroed block in one slot changes that slot only. */
  lemma {:induction false} LinkedAddr(geo: Layout, d: Disk, t: Table, owner: Owner, n0: nat, x0: Node, f: u32, n: nat,
                                      x: Node)
    requires Owned(geo, d, t, owner) && n0 in t
    requires CanLink(geo, d, t[n0], x0) && FreshZero(geo, d, owner, f)
    requires n in t && ValidNode(geo, x)
    ensures var (d', raw') := Linked(geo, d, t[n0], x0, f);
      Addr(geo, d', t[n0 := raw'][n], x) == if (n, x) == (n0, x0) then f else Addr(geo, d, t[n], x)
  {
    match x
    case Root(k) => LinkedRoot(geo, d, t[n0], x0, f, k);
    case Child(p, j) =>
      LinkedAddr(geo, d, t, owner, n0, x0, f, n, p);
      if (n, p) == (n0, x0) {
        LinkedBelow(geo, d, t, owner, n0, x0, f, j);
      } else if 0 < Addr(geo, d, t[n], p) < |d| {
        LinkedWord(geo, d, t, owner, n0, x0, f, n, p, j);
      }
  }

  lemma LinkedRoot(geo: Layout, d: Disk, raw: Raw, x0: Node, f: u32, k: nat)
    requires CanLink(geo, d, raw, x0) && k <= DIND
    ensures GetU32(Linked(geo, d, raw, x0, f).1, PTR_OFFSET + 4 * k)
         == if x0 == Root(k) then f else GetU32(raw, PTR_OFFSET + 4 * k)
  {
  }

  /** Storing a block number leaves the fresh block itself alone. */
  lemma LinkedKeepsFresh(geo: Layout, d: Disk, t: Table, owner: Owner, n0: nat, x0: Node, f: u32)
    requires Owned(geo, d, t, owner) && n0 in t
    requires CanLink(geo, d, t[n0], x0) && FreshZero(geo, d, owner, f)
    ensures Linked(geo, d, t[n0], x0, f).0[f] == Zeros(geo.blockSize)
  {
    if x0.Child? {
      OwnedBy(geo, d, t, owner, n0, x0.parent);
    }
  }

  /** Under a freshly stored index block every slot reads 0. */
  lemma LinkedBelow(geo: Layout, d: Disk, t: Table, owner: Owner, n0: nat, x0: Node, f: u32, j: nat)
    requires Owned(geo, d, t, owner) && n0 in t
    requires CanLink(geo, d, t[n0], x0) && FreshZero(geo, d, owner, f) && IsIndex(x0) && j < geo.PtrsPerBlock()
    ensures GetU32(Linked(geo, d, t[n0], x0, f).0[f], 4 * j) == 0
  {
    LinkedKeepsFresh(geo, d, t, owner, n0, x0, f);
    ZeroWord(geo.blockSize, 4 * j);
  }

  lemma LinkedOwned(geo: Layout, d: Disk, t: Table, owner: Owner, n0: nat, x0: Node, f: u32, o: Own)
    requires Owned(geo, d, t, owner) && n0 in t
    requires CanLink(geo, d, t[n0], x0) && FreshZero(geo, d, owner, f)
    requires o.ino == n0 && o.node == x0
    ensures var (d', raw') := Linked(geo, d, t[n0], x0, f);
      Owned(geo, d', t[n0 := raw'], owner[f := o])
  {
    var (d', raw') := Linked(geo, d, t[n0], x0, f);
    var t' := t[n0 := raw'];
    forall n, x | n in t' && ValidNode(geo, x)
      ensures var a := Addr(geo, d', t'[n], x);
        a != 0 ==> a in owner[f := o] && owner[f := o][a].ino == n && owner[f := o][a].node == x
    {
      LinkedAddr(geo, d, t, owner, n0, x0, f, n, x);
    }
  }

  lemma LinkedBitmaps(geo: Layout, d: Disk, t: Table, owner: Owner, n0: nat, x0: Node, f: u32)
    requires Owned(geo, d, t, owner) && OwnersMarked(geo, d, owner)
    requires n0 in t && CanLink(geo, d, t[n0], x0)
    ensures SameBitmaps(geo, d, Linked(geo, d, t[n0], x0, f).0)
  {
    if x0.Child? {
      OwnedBy(geo, d, t, owner, n0, x0.parent);
    }
  }

  lemma LinkedView(geo: Layout, d: Disk, t: Table, owner: Owner, n0: nat, x0: Node, f: u32, g: nat, i: nat)
    requires View(geo, d, t, owner) && n0 in t && CanLink(geo, d, t[n0], x0)
    requires FreshZero(geo, d, owner, f)
    requires geo.MarkedAt(d, f, g, i) && !geo.IsMeta(f)
    ensures var (d', raw') := Linked(geo, d, t[n0], x0, f);
      View(geo, d', t[n0 := raw'], owner[f := Own(n0, x0, g, i)])
  {
    var d' := Linked(geo, d, t[n0], x0, f).0;
    LinkedOwned(geo, d, t, owner, n0, x0, f, Own(n0, x0, g, i));
    LinkedBitmaps(geo, d, t, owner, n0, x0, f);
    var owner' := owner[f := Own(n0, x0, g, i)];
    assert OwnersMarked(geo, d, owner');
    MetaKept(geo, d, d', owner');
  }

  lemma LinkedFile(geo: Layout, d: Disk, t: Table, owner: Owner, n0: nat, x0: Node, f: u32, n: nat, lb: nat)
    requires Owned(geo, d, t, owner) && n0 in t
    requires CanLink(geo, d, t[n0], x0)
    requires FreshZero(geo, d, owner, f) && n in t
    ensures var (d', raw') := Linked(geo, d, t[n0], x0, f);
      FileBlock(geo, d', t[n0 := raw'][n], lb) ==
        if n == n0 && LeafNode(geo, lb) == Some(x0) then Some(Zeros(geo.blockSize)) else FileBlock(geo, d, t[n], lb)
  {
    var x := LeafNode(geo, lb);
    if x.Some? {
      LinkedAddr(geo, d, t, owner, n0, x0, f, n, x.value);
      if x0.Child? {
        OwnedBy(geo, d, t, owner, n0, x0.parent);
      }
    }
  }

  // ---- the inode table ----

  /** The inode tables, the inode bitmaps and the boot block are as they were. */
  ghost predicate SameTables(geo: Layout, d: Disk, d': Disk) {
    && |d'| == |d| && (|d| > 0 ==> d'[0] == d[0])
    && SameTableBlocks(geo, d, d') && SameInodeBitmaps(geo, d, d')
  }

  ghost predicate SameTableBlocks(geo: Layout, d: Disk, d': Disk) {
    |d'| == |d| && forall a: nat | a < |d| && geo.IsTable(a) :: d'[a] == d[a]
  }

  ghost predicate SameInodeBitmaps(geo: Layout, d: Disk, d': Disk) {
    |d'| == |d| && forall g | 0 <= g < geo.groupsCount && geo.inodeBitmap[g] < |d| ::
      d'[geo.inodeBitmap[g]] == d[geo.inodeBitmap[g]]
  }

  lemma AllocatedTable(geo: Layout, d: Disk, d': Disk, g: nat, i: nat)
    requires ClearIsFree(geo, d) && Allocated(geo, d, d', g, i)
    ensures SameTables(geo, d, d')
  {
    assert !geo.IsMeta(geo.BlockNo(g, i)) && geo.BitmapsUsable(g);
    forall h: nat | h < geo.groupsCount
      ensures geo.inodeBitmap[h] != geo.blockBitmap[g] && !geo.Reserved(geo.inodeBitmap[h])
    {
      assert geo.BitmapsApart(g, h) && geo.BitmapsUsable(h);
    }
    forall a: nat | geo.IsTable(a) ensures a != geo.blockBitmap[g] && !geo.Reserved(a) {
      TableOnly(geo, a);
    }
  }

  /** A block of an inode table holds nothing else. */
  lemma TableOnly(geo: Layout, a: nat)
    requires geo.IsTable(a)
    ensures a !in geo.blockBitmap && a !in geo.inodeBitmap && !geo.Reserved(a)
  {
    var g :| 0 <= g < geo.groupsCount && geo.InTable(g, a);
    assert geo.TableApart(g, a);
  }

  lemma LinkedTable(geo: Layout, d: Disk, t: Table, owner: Owner, n0: nat, x0: Node, f: u32)
    requires Owned(geo, d, t, owner) && OwnersMarked(geo, d, owner)
    requires n0 in t && CanLink(geo, d, t[n0], x0)
    ensures SameTables(geo, d, Linked(geo, d, t[n0], x0, f).0)
  {
    if x0.Child? {
      OwnedBy(geo, d, t, owner, n0, x0.parent);
    }
  }

  ghost function InodeAt(geo: Layout, d: Disk, n: nat): Raw
    requires geo.TablesFit() && geo.OnDisk(d) && 1 <= n <= geo.inodesCount
  {
    d[geo.TableBlock(n)][geo.Within(n)..geo.Within(n) + 128]
  }

  ghost function InodeTable(geo: Layout, d: Disk): (t: Table)
    requires geo.TablesFit() && geo.OnDisk(d)
    ensures forall n :: n in t <==> 1 <= n <= geo.inodesCount
  {
    map n: nat | 1 <= n <= geo.inodesCount :: InodeAt(geo, d, n)
  }

  /** The disk after copying `raw` over inode `n`. */
  ghost function InodeStored(geo: Layout, d: Disk, n: nat, raw: Raw): (d': Disk)
    requires geo.TablesFit() && geo.OnDisk(d) && 1 <= n <= geo.inodesCount
    ensures |d'| == |d| && geo.OnDisk(d')
  {
    d[geo.TableBlock(n) := Splice(d[geo.TableBlock(n)], geo.Within(n), raw)]
  }

  lemma InodeStoredAt(geo: Layout, d: Disk, n: nat, raw: Raw, m: nat)
    requires geo.TablesFit() && geo.OnDisk(d)
    requires 1 <= n <= geo.inodesCount && 1 <= m <= geo.inodesCount
    ensures InodeAt(geo, InodeStored(geo, d, n, raw), m) == if m == n then raw else InodeAt(geo, d, m)
  {
    if m != n {
      geo.InodeSlotsApart(m, n);
      assert InodeAt(geo, InodeStored(geo, d, n, raw), m) == InodeAt(geo, d, m);
    }
  }

  lemma InodeStoredTable(geo: Layout, d: Disk, n: nat, raw: Raw)
    requires geo.TablesFit() && geo.OnDisk(d) && 1 <= n <= geo.inodesCount
    ensures InodeTable(geo, InodeStored(geo, d, n, raw)) == InodeTable(geo, d)[n := raw]
  {
    var d' := InodeStored(geo, d, n, raw);
    forall m: nat | 1 <= m <= geo.inodesCount
      ensures InodeAt(geo, d', m) == if m == n then raw else InodeAt(geo, d, m)
    {
      InodeStoredAt(geo, d, n, raw, m);
    }
  }

  lemma TableKept(geo: Layout, d: Disk, d': Disk)
    requires geo.TablesFit() && geo.OnDisk(d) && geo.OnDisk(d') && SameTableBlocks(geo, d, d')
    ensures InodeTable(geo, d') == InodeTable(geo, d)
  {
  }

  /** Rewriting inode tables, inode bitmaps or reserved blocks moves no data block and changes no file contents. */
  lemma MetaWriteView(geo: Layout, d: Disk, t: Table, owner: Owner, d': Disk)
    requires View(geo, d, t, owner) && |d'| == |d| && geo.WfDisk(d') && SameBitmaps(geo, d, d')
    requires forall a | 0 <= a < |d| && !geo.IsMeta(a) :: d'[a] == d[a]
    ensures View(geo, d', t, owner)
    ensures SameFiles(geo, d, t, d', t)
  {
    MetaKept(geo, d, d', owner);
    SameAddrs(geo, d, d', t, owner);
    forall m, lb: nat | m in t
      ensures FileBlock(geo, d', t[m], lb) == FileBlock(geo, d, t[m], lb)
    {
      FileFrame(geo, d, d', t, owner, m, lb);
    }
  }

  lemma DataWrittenMeta(geo: Layout, d: Disk, t: Table, owner: Owner, n0: nat, lb0: nat, b: Block)
    requires View(geo, d, t, owner) && n0 in t && |b| == geo.blockSize && FileBlock(geo, d, t[n0], lb0).Some?
    ensures SameBitmaps(geo, d, DataWritten(geo, d, t[n0], lb0, b))
    ensures SameTables(geo, d, DataWritten(geo, d, t[n0], lb0, b))
  {
    OwnedBy(geo, d, t, owner, n0, LeafNode(geo, lb0).value);
  }

  // ---- allocate-and-store, the step every missing pointer takes ----

  ghost predicate AddrsFilled(geo: Layout, d: Disk, t: Table, d': Disk, t': Table, n0: nat, x0: Node, f: u32) {
    t'.Keys == t.Keys && forall n, x | n in t && ValidNode(geo, x) ::
      Addr(geo, d', t'[n], x) == if (n, x) == (n0, x0) then f else Addr(geo, d, t[n], x)
  }

  ghost predicate FilesFilled(geo: Layout, d: Disk, t: Table, d': Disk, t': Table, n0: nat, x0: Node) {
    && t'.Keys == t.Keys
    && (forall n, lb: nat {:trigger FileBlock(geo, d', t'[n], lb)} | n in t
      && !(n == n0 && LeafNode(geo, lb) == Some(x0)) ::
          FileBlock(geo, d', t'[n], lb) == FileBlock(geo, d, t[n], lb))
    && (forall lb: nat | n0 in t && LeafNode(geo, lb) == Some(x0) ::
          FileBlock(geo, d', t'[n0], lb) == Some(Zeros(geo.blockSize)))
  }

  /** Slot `x` of inode `n0` now holds the zeroed block `f`; no other slot and no other file block changed. */
  ghost predicate SlotFilled(geo: Layout, d: Disk, t: Table, d': Disk, t': Table, n0: nat, x0: Node, f: u32) {
    && AddrsFilled(geo, d, t, d', t', n0, x0, f)
    && FilesFilled(geo, d, t, d', t', n0, x0)
    && SameTables(geo, d, d')
  }

  lemma LinkedAddrsFilled(geo: Layout, d: Disk, t: Table, owner: Owner, n0: nat, x0: Node, f: u32, d': Disk, t': Table)
    requires Owned(geo, d, t, owner) && n0 in t
    requires CanLink(geo, d, t[n0], x0) && FreshZero(geo, d, owner, f)
    requires d' == Linked(geo, d, t[n0], x0, f).0 && t' == t[n0 := Linked(geo, d, t[n0], x0, f).1]
    ensures AddrsFilled(geo, d, t, d', t', n0, x0, f)
  {
    forall n, x | n in t && ValidNode(geo, x)
      ensures Addr(geo, d', t'[n], x) == if (n, x) == (n0, x0) then f else Addr(geo, d, t[n], x)
    {
      LinkedAddr(geo, d, t, owner, n0, x0, f, n, x);
    }
  }

  lemma LinkedFilesFilled(geo: Layout, d: Disk, t: Table, owner: Owner, n0: nat, x0: Node, f: u32, d': Disk, t': Table)
    requires Owned(geo, d, t, owner) && n0 in t
    requires CanLink(geo, d, t[n0], x0) && FreshZero(geo, d, owner, f)
    requires d' == Linked(geo, d, t[n0], x0, f).0 && t' == t[n0 := Linked(geo, d, t[n0], x0, f).1]
    ensures FilesFilled(geo, d, t, d', t', n0, x0)
  {
    forall n, lb: nat | n in t && !(n == n0 && LeafNode(geo, lb) == Some(x0))
      ensures FileBlock(geo, d', t'[n], lb) == FileBlock(geo, d, t[n], lb)
    {
      LinkedFile(geo, d, t, owner, n0, x0, f, n, lb);
    }
    forall lb: nat | LeafNode(geo, lb) == Some(x0)
      ensures FileBlock(geo, d', t'[n0], lb) == Some(Zeros(geo.blockSize))
    {
      LinkedFile(geo, d, t, owner, n0, x0, f, n0, lb);
    }
  }

  /** After an allocation the slot can still be filled, and the new block is fresh. */
  lemma FillReady(geo: Layout, d: Disk, d1: Disk, t: Table, owner: Owner, n0: nat, x0: Node, g: nat, i: nat)
    requires View(geo, d, t, owner) && n0 in t && CanLink(geo, d, t[n0], x0) && Allocated(geo, d, d1, g, i)
    ensures View(geo, d1, t, owner) && CanLink(geo, d1, t[n0], x0)
    ensures geo.BlockNo(g, i) < 0x1_0000_0000 && FreshZero(geo, d1, owner, geo.BlockNo(g, i))
    ensures geo.MarkedAt(d1, geo.BlockNo(g, i), g, i) && !geo.IsMeta(geo.BlockNo(g, i))
    ensures x0.Child? ==> Addr(geo, d1, t[n0], x0.parent) == Addr(geo, d, t[n0], x0.parent)
    ensures x0.Child? ==> d1[Addr(geo, d, t[n0], x0.parent)] == d[Addr(geo, d, t[n0], x0.parent)]
  {
    Allocation(geo, d, d1, t, owner, g, i);
    AllocatedKeeps(geo, d, d1, owner, g, i);
    if x0.Child? {
      OwnedBy(geo, d, t, owner, n0, x0.parent);
    }
  }

  lemma FillAfter(geo: Layout, d: Disk, t: Table, d1: Disk, d': Disk, t': Table, n0: nat, x0: Node, f: u32)
    requires forall n, x | n in t && ValidNode(geo, x) :: Addr(geo, d1, t[n], x) == Addr(geo, d, t[n], x)
    requires SameFiles(geo, d, t, d1, t) && SameTables(geo, d, d1)
    requires SlotFilled(geo, d1, t, d', t', n0, x0, f)
    ensures SlotFilled(geo, d, t, d', t', n0, x0, f)
  {
  }

  lemma LinkedFilled(geo: Layout, d: Disk, t: Table, owner: Owner, n0: nat, x0: Node, f: u32)
    requires View(geo, d, t, owner) && n0 in t && CanLink(geo, d, t[n0], x0) && FreshZero(geo, d, owner, f)
    ensures var (d', raw') := Linked(geo, d, t[n0], x0, f);
      geo.OnDisk(d') && SlotFilled(geo, d, t, d', t[n0 := raw'], n0, x0, f)
  {
    var (d', raw') := Linked(geo, d, t[n0], x0, f);
    StillOnDisk(geo, d, d');
    LinkedTable(geo, d, t, owner, n0, x0, f);
    LinkedAddrsFilled(geo, d, t, owner, n0, x0, f, d', t[n0 := raw']);
    LinkedFilesFilled(geo, d, t, owner, n0, x0, f, d', t[n0 := raw']);
  }

  /** Allocating a block and storing its number in an empty slot keeps the invariant and fills just that slot. */
  lemma FillSlot(geo: Layout, d: Disk, d1: Disk, t: Table, owner: Owner, n0: nat, x0: Node, g: nat, i: nat)
    returns (d': Disk, t': Table, owner': Owner)
    requires View(geo, d, t, owner) && n0 in t && CanLink(geo, d, t[n0], x0) && Allocated(geo, d, d1, g, i)
    ensures geo.WfDisk(d1) && CanLink(geo, d1, t[n0], x0) && geo.BlockNo(g, i) < 0x1_0000_0000
    ensures var r := Linked(geo, d1, t[n0], x0, geo.BlockNo(g, i)); d' == r.0 && t' == t[n0 := r.1]
    ensures owner' == owner[geo.BlockNo(g, i) := Own(n0, x0, g, i)]
    ensures View(geo, d', t', owner') && SameBitmaps(geo, d1, d')
    ensures SlotFilled(geo, d, t, d', t', n0, x0, geo.BlockNo(g, i))
  {
    var f := geo.BlockNo(g, i);
    FillReady(geo, d, d1, t, owner, n0, x0, g, i);
    LinkedBitmaps(geo, d1, t, owner, n0, x0, f);
    var r := Linked(geo, d1, t[n0], x0, f);
    d', t', owner' := r.0, t[n0 := r.1], owner[f := Own(n0, x0, g, i)];
    assert View(geo, d', t', owner') by {
      LinkedView(geo, d1, t, owner, n0, x0, f, g, i);
    }
    assert SlotFilled(geo, d, t, d', t', n0, x0, f) by {
      Allocation(geo, d, d1, t, owner, g, i);
      AllocatedTable(geo, d, d1, g, i);
      LinkedFilled(geo, d1, t, owner, n0, x0, f);
      FillAfter(geo, d, t, d1, d', t', n0, x0, f);
    }
  }

  // ---- what looking up a logical block may do to the files ----

  ghost function FileAddr(geo: Layout, d: Disk, raw: Raw, lb: nat): u32
  {
    match LeafNode(geo, lb)
    case None => 0
    case Some(x) => Addr(geo, d, raw, x)
  }

  /** Number `i` of the block numbers in block `a`; 0 if there is no such block. */
  ghost function Pointer(d: Disk, a: u32, i: nat): u32 {
    if a == 0 || a >= |d| then 0 else Word(d[a], 4 * i)
  }

  /** The block map in bytes of the inode: its block numbers start at byte 40, four bytes each. */
  lemma MapOnDisk(geo: Layout, d: Disk, raw: Raw, i: nat, j: nat)
    requires i < geo.blockSize / 4 && j < geo.blockSize / 4
    ensures var p := geo.blockSize / 4;
      && (i < 12 ==> FileAddr(geo, d, raw, i) == GetU32(raw, 40 + 4 * i))
      && FileAddr(geo, d, raw, 12 + i) == Pointer(d, GetU32(raw, 88), i)
      && FileAddr(geo, d, raw, 12 + p + i * p + j) == Pointer(d, Pointer(d, GetU32(raw, 92), i), j)
  {
    if i < 12 {
      DirectSlot(geo, i);
    }
    IndirectSlot(geo, i);
    DoubleSlot(geo, i, j);
    assert Addr(geo, d, raw, Child(Root(12), i)) == Pointer(d, Addr(geo, d, raw, Root(12)), i);
    assert Addr(geo, d, raw, Child(Root(13), i)) == Pointer(d, Addr(geo, d, raw, Root(13)), i);
  }

  /** Logical block `lb` of file `n` is at `addr`: as it was, or newly zeroed. Nothing else changed. */
  ghost predicate BlockMapped(geo: Layout, d: Disk, t: Table, d': Disk, t': Table, n: nat, lb: nat, addr: u32) {
    && n in t && SameFilesBut(geo, d, t, d', t', n, lb)
    && SameTables(geo, d, d')
    && addr == FileAddr(geo, d', t'[n], lb)
    && FileBlock(geo, d', t'[n], lb) ==
         if addr != 0 && FileBlock(geo, d, t[n], lb).None? then Some(Zeros(geo.blockSize))
           else FileBlock(geo, d, t[n], lb)
  }

  /** Filling an index slot changes no file. */
  lemma IndexFilled(geo: Layout, d: Disk, t: Table, d': Disk, t': Table, n0: nat, x0: Node, f: u32)
    requires SlotFilled(geo, d, t, d', t', n0, x0, f) && IsIndex(x0)
    ensures SameFiles(geo, d, t, d', t')
  {
  }

  /** Filling the slot of a hole turns that one hole into zeros. */
  lemma LeafFilled(geo: Layout, d: Disk, t: Table, d': Disk, t': Table, n0: nat, lb: nat, f: u32)
    requires n0 in t
    requires LeafNode(geo, lb).Some? && f != 0 && FileAddr(geo, d, t[n0], lb) == 0
    requires SlotFilled(geo, d, t, d', t', n0, LeafNode(geo, lb).value, f)
    ensures BlockMapped(geo, d, t, d', t', n0, lb, f)
  {
    forall n, l: nat | n in t && (n, l) != (n0, lb)
      ensures FileBlock(geo, d', t'[n], l) == FileBlock(geo, d, t[n], l)
    {
      if LeafNode(geo, l) == LeafNode(geo, lb) {
        LeafNodeInjective(geo, l, lb);
      }
    }
  }

  lemma MappedAfter(geo: Layout, d: Disk, t: Table, d1: Disk, t1: Table, d': Disk, t': Table, n: nat, lb: nat,
                    addr: u32)
    requires SameFiles(geo, d, t, d1, t1) && SameTables(geo, d, d1)
    requires BlockMapped(geo, d1, t1, d', t', n, lb, addr)
    ensures BlockMapped(geo, d, t, d', t', n, lb, addr)
  {
  }
}
