/**
 The disk with its in-memory free counters: allocating blocks, and looking up and creating the
 block behind a logical block of a file, also when the disk is full.
 */
module Ext2 {
  import opened Common
  import opened Arith
  import opened Bytes
  import opened Ext2Layout
  import opened Ext2BlockMap

  function Sum(s: seq<int>): int {
    if s == [] then 0 else Sum(s[..|s| - 1]) + s[|s| - 1]
  }

  lemma {:induction false} SumUpdate(s: seq<int>, i: nat, v: int)
    requires i < |s|
    ensures Sum(s[i := v]) == Sum(s) - s[i] + v
  {
    var k := |s| - 1;
    if i == k {
      assert s[i := v][..k] == s[..k];
    } else {
      assert s[i := v][..k] == s[..k][i := v];
      SumUpdate(s[..k], i, v);
    }
  }

  lemma {:induction false} SumZero(s: seq<int>)
    requires forall i | 0 <= i < |s| :: s[i] == 0
    ensures Sum(s) == 0
  {
    if s != [] {
      SumZero(s[..|s| - 1]);
    }
  }

  /** Free blocks of a group: clear bits among those the allocator scans. */
  ghost function ClearIn(geo: Layout, d: Disk, g: nat): nat
    requires g < geo.groupsCount
  {
    if geo.blockBitmap[g] >= |d| then 0 else ClearBits(d[geo.blockBitmap[g]], geo.GroupBlocks(g))
  }

  /** All free blocks of a group, the last one of group 0 included. */
  ghost function ClearAll(geo: Layout, d: Disk, g: nat): nat
    requires g < geo.groupsCount
  {
    if geo.blockBitmap[g] >= |d| then 0 else ClearBits(d[geo.blockBitmap[g]], geo.blocksPerGroup)
  }

  /** How many free blocks the allocator never scans: the last one of group 0, if groups start at block 1. */
  ghost function Spare(geo: Layout, d: Disk): nat {
    if geo.groupsCount > 0 then ClearAll(geo, d, 0) - ClearIn(geo, d, 0) else 0
  }

  /** Free blocks that are never scanned: at most one, the last of group 0, and only behind a boot block. */
  lemma SpareIs(geo: Layout, d: Disk)
    requires geo.OnDisk(d) && geo.groupsCount > 0
    ensures Spare(geo, d) == if geo.firstDataBlock > 0 && !geo.BitSet(d, 0, geo.blocksPerGroup - 1) then 1 else 0
  {
  }

  /**
   * The counters of the group descriptors and the superblock agree with the bitmaps; `geo.spare` is the number of
   * free blocks out of the allocator's reach, which no operation changes.
   */
  ghost predicate Conserved(geo: Layout, d: Disk, free: seq<int>, total: int) {
    GroupsConserved(geo, d, free) && total == Sum(free) && Spare(geo, d) == geo.spare
  }

  ghost predicate GroupsConserved(geo: Layout, d: Disk, free: seq<int>) {
    |free| == geo.groupsCount && forall g | 0 <= g < geo.groupsCount :: free[g] == ClearAll(geo, d, g)
  }

  lemma AllocationCount(geo: Layout, d: Disk, d': Disk, g: nat, i: nat, h: nat)
    requires ClearIsFree(geo, d)
    requires Allocated(geo, d, d', g, i) && h < geo.groupsCount
    ensures geo.OnDisk(d') && ClearIn(geo, d', h) == ClearIn(geo, d, h) - (if h == g then 1 else 0)
    ensures ClearAll(geo, d', h) == ClearAll(geo, d, h) - (if h == g then 1 else 0)
  {
    StillOnDisk(geo, d, d');
    if h == g {
      MarkBitCount(d[geo.blockBitmap[g]], i, geo.GroupBlocks(g));
      MarkBitCount(d[geo.blockBitmap[g]], i, geo.blocksPerGroup);
    } else {
      assert geo.BitmapsApart(h, g) && geo.BitmapsUsable(h);
      assert geo.blockBitmap[h] in geo.blockBitmap;
      assert d'[geo.blockBitmap[h]] == d[geo.blockBitmap[h]];
    }
  }

  lemma GroupsConserve(geo: Layout, d: Disk, d': Disk, g: nat, i: nat, free: seq<int>)
    requires ClearIsFree(geo, d)
    requires Allocated(geo, d, d', g, i) && GroupsConserved(geo, d, free)
    ensures geo.OnDisk(d') && GroupsConserved(geo, d', free[g := free[g] - 1]) && Spare(geo, d') == Spare(geo, d)
  {
    StillOnDisk(geo, d, d');
    forall h | 0 <= h < geo.groupsCount
      ensures free[g := free[g] - 1][h] == ClearAll(geo, d', h)
    {
      AllocationCount(geo, d, d', g, i, h);
    }
    AllocationCount(geo, d, d', g, i, 0);
  }

  /** One allocation moves exactly one block from free to used, in its group and in the total. */
  lemma AllocationConserves(geo: Layout, d: Disk, d': Disk, g: nat, i: nat, free: seq<int>, total: int)
    requires ClearIsFree(geo, d)
    requires Allocated(geo, d, d', g, i) && Conserved(geo, d, free, total)
    ensures geo.OnDisk(d') && Conserved(geo, d', free[g := free[g] - 1], total - 1)
  {
    GroupsConserve(geo, d, d', g, i, free);
    SumUpdate(free, g, free[g] - 1);
  }

  /** The total counts the free blocks that are scanned, group by group, and the spare one. */
  lemma Scanned(geo: Layout, d: Disk, free: seq<int>, total: int) returns (scanned: seq<int>)
    requires Conserved(geo, d, free, total)
    ensures |scanned| == geo.groupsCount && total == Sum(scanned) + geo.spare
    ensures forall g | 0 <= g < geo.groupsCount :: scanned[g] == ClearIn(geo, d, g)
  {
    if geo.groupsCount == 0 {
      return [];
    }
    scanned := free[0 := free[0] - geo.spare];
    SumUpdate(free, 0, free[0] - geo.spare);
  }

  /** A group with a clear bit is counted, so the total is positive. */
  lemma {:induction false} SumPositive(s: seq<int>, g: nat)
    requires g < |s| && s[g] > 0 && forall h | 0 <= h < |s| :: s[h] >= 0
    ensures Sum(s) > 0
  {
    var k := |s| - 1;
    if g == k {
      SumNonNegative(s[..k]);
    } else {
      SumPositive(s[..k], g);
    }
  }

  lemma {:induction false} SumNonNegative(s: seq<int>)
    requires forall h | 0 <= h < |s| :: s[h] >= 0
    ensures Sum(s) >= 0
  {
    if s != [] {
      SumNonNegative(s[..|s| - 1]);
    }
  }

  lemma BitmapsConserve(geo: Layout, d: Disk, d': Disk, free: seq<int>, total: int)
    requires Conserved(geo, d, free, total) && SameBitmaps(geo, d, d')
    ensures Conserved(geo, d', free, total)
  {
    forall g | 0 <= g < geo.groupsCount
      ensures ClearAll(geo, d', g) == ClearAll(geo, d, g) && ClearIn(geo, d', g) == ClearIn(geo, d, g)
    {
    }
  }

  /** The mutable part of a mounted file system: disk blocks and the in-memory free counters. */
  datatype State = State(disk: Disk, free: seq<int>, total: int)

  /** The invariant, for the inode table as it will be once a modified inode is written back. */
  ghost predicate Good(geo: Layout, s: State, owner: Owner, t: Table) {
    View(geo, s.disk, t, owner) && Conserved(geo, s.disk, s.free, s.total)
  }

  /** How many blocks the allocator can still hand out. */
  ghost function Left(geo: Layout, s: State): int {
    s.total - geo.spare
  }

  lemma LeftNonNegative(geo: Layout, s: State)
    requires Conserved(geo, s.disk, s.free, s.total)
    ensures Left(geo, s) >= 0 && geo.spare <= 1
  {
    var scanned := Scanned(geo, s.disk, s.free, s.total);
    SumNonNegative(scanned);
  }

  // ---- block allocation ----

  /** The first clear one of a bitmap's first `n` bits; `n` if all are set. */
  method FirstClear(bitmap: Block, n: nat) returns (bit: nat)
    requires n <= 8 * |bitmap|
    ensures bit <= n && forall j: nat | j < bit :: BitAt(bitmap, j)
    ensures bit < n ==> !BitAt(bitmap, bit)
  {
    bit := 0;
    while bit < n
      invariant bit <= n && forall j: nat | j < bit :: BitAt(bitmap, j)
    {
      if !TestBit(bitmap[bit / 8], bit % 8) {
        return;
      }
      bit := bit + 1;
    }
  }

  /** First clear bit of one group, and the disk with exactly that bit set; the group's size if there is none. */
  method AllocFromGroup(geo: Layout, d: Disk, group: nat) returns (bit: nat, d': Disk)
    requires geo.OnDisk(d) && group < geo.groupsCount
    ensures bit <= geo.GroupBlocks(group) && forall j: nat | j < bit :: geo.BitSet(d, group, j)
    ensures bit == geo.GroupBlocks(group) ==> d' == d
    ensures bit < geo.GroupBlocks(group) ==> !geo.BitSet(d, group, bit)
    ensures bit < geo.GroupBlocks(group) ==>
      geo.OnDisk(d') && d' == d[geo.blockBitmap[group] := MarkBit(d[geo.blockBitmap[group]], bit)]
  {
    var addr := geo.blockBitmap[group];
    d' := d;
    bit := FirstClear(d[addr], geo.GroupBlocks(group));
    if bit < geo.GroupBlocks(group) {
      d' := d[addr := MarkBit(d[addr], bit)];
    }
  }

  /** Write the superblock and the descriptor table out, whatever bytes they serialise to. */
  method PersistCounters(geo: Layout, d: Disk) returns (d': Disk)
    requires geo.OnDisk(d)
    ensures geo.OnDisk(d') && |d'| == |d|
    ensures forall a | 0 <= a < |d| && !geo.Reserved(a) :: d'[a] == d[a]
  {
    assert |Zeros(geo.blockSize)| == geo.blockSize;
    var superblock: Block :| |superblock| == geo.blockSize;
    d' := d[1 := superblock];
    var k := 0;
    while k < geo.gdtBlocks
      invariant k <= geo.gdtBlocks && |d'| == |d| && geo.WfDisk(d')
      invariant forall a | 0 <= a < |d| && !geo.Reserved(a) :: d'[a] == d[a]
    {
      var descriptors: Block :| |descriptors| == geo.blockSize;
      d' := d'[geo.GdtStart() + k := descriptors];
      k := k + 1;
    }
  }

  /** A scan that finds nothing: the group has no free block but, in group 0, the spare one. */
  lemma NothingScanned(geo: Layout, d: Disk, g: nat)
    requires geo.OnDisk(d) && g < geo.groupsCount
    requires ClearAll(geo, d, g) == 0 || forall j: nat | j < geo.GroupBlocks(g) :: geo.BitSet(d, g, j)
    ensures ClearIn(geo, d, g) == 0
  {
    if ClearAll(geo, d, g) > 0 {
      forall j: nat | j < geo.GroupBlocks(g) ensures BitAt(d[geo.blockBitmap[g]], j) {
        assert geo.BitSet(d, g, j);
      }
      NoneClear(d[geo.blockBitmap[g]], geo.GroupBlocks(g));
    }
  }

  /** A clear bit that is scanned is counted. */
  lemma {:induction false} ClearCounted(bitmap: Block, i: nat, n: nat)
    requires i < n && !BitAt(bitmap, i)
    ensures ClearBits(bitmap, n) > 0
  {
    if i < n - 1 {
      ClearCounted(bitmap, i, n - 1);
    }
  }

  /** Once the new block is zeroed, a marked bit is one allocation, and the counters follow. */
  lemma AllocationWrites(geo: Layout, d: Disk, d2: Disk, g: nat, i: nat, free: seq<int>, total: int)
    requires ClearIsFree(geo, d) && Marks(geo, d, d2, g, i) && Conserved(geo, d, free, total)
    ensures 0 < geo.BlockNo(g, i) < |d2| && geo.BlockNo(g, i) < 0x1_0000_0000
    ensures var d' := d2[geo.BlockNo(g, i) := Zeros(geo.blockSize)];
      Allocated(geo, d, d', g, i) && Conserved(geo, d', free[g := free[g] - 1], total - 1)
    ensures total > geo.spare
  {
    assert geo.blockBitmap[g] in geo.blockBitmap;
    assert !geo.IsMeta(geo.BlockNo(g, i));
    var d' := d2[geo.BlockNo(g, i) := Zeros(geo.blockSize)];
    assert Allocated(geo, d, d', g, i);
    AllocationConserves(geo, d, d', g, i, free, total);
    var scanned := Scanned(geo, d, free, total);
    ClearCounted(d[geo.blockBitmap[g]], i, geo.GroupBlocks(g));
    SumPositive(scanned, g);
  }

  /** The first group that is counted as having free blocks and has one in reach: its first clear bit is marked. */
  method MarkFirstFree(geo: Layout, s: State) returns (group: nat, bit: nat, d: Disk)
    requires geo.OnDisk(s.disk) && GroupsConserved(geo, s.disk, s.free)
    ensures group <= geo.groupsCount && (forall h | 0 <= h < group :: ClearIn(geo, s.disk, h) == 0)
    ensures group < geo.groupsCount ==> Marks(geo, s.disk, d, group, bit)
    ensures group < geo.groupsCount ==> forall j: nat | j < bit :: geo.BitSet(s.disk, group, j)
  {
    group, bit, d := 0, 0, s.disk;
    while group < geo.groupsCount
      invariant group <= geo.groupsCount && d == s.disk
      invariant forall h | 0 <= h < group :: ClearIn(geo, s.disk, h) == 0
    {
      if s.free[group] > 0 {
        assert geo.BitmapsUsable(group);
        bit, d := AllocFromGroup(geo, s.disk, group);
        if bit < geo.GroupBlocks(group) {
          d := PersistCounters(geo, d);
          return;
        }
      }
      NothingScanned(geo, s.disk, group);
      group := group + 1;
    }
  }

  /** Bit `i` of group `g` newly marked; otherwise only reserved blocks were rewritten. */
  ghost predicate Marks(geo: Layout, d: Disk, d2: Disk, g: nat, i: nat) {
    && g < geo.groupsCount && i < geo.GroupBlocks(g) && !geo.BitSet(d, g, i)
    && geo.OnDisk(d) && geo.OnDisk(d2) && |d2| == |d|
    && d2[geo.blockBitmap[g]] == MarkBit(d[geo.blockBitmap[g]], i)
    && forall a | 0 <= a < |d| && !geo.Reserved(a) && a != geo.blockBitmap[g] :: d2[a] == d[a]
  }

  lemma NoneLeft(geo: Layout, s: State)
    requires Conserved(geo, s.disk, s.free, s.total) && forall h | 0 <= h < geo.groupsCount ::
      ClearIn(geo, s.disk, h) == 0
    ensures Left(geo, s) == 0
  {
    var scanned := Scanned(geo, s.disk, s.free, s.total);
    SumZero(scanned);
  }

  /** Allocation fails exactly when the total is down to the free block that is never scanned, if there is one. */
  method AllocateBlock(geo: Layout, s: State) returns (block: u32, s': State, ghost g: nat, ghost i: nat)
    requires geo.OnDisk(s.disk) && ClearIsFree(geo, s.disk) && Conserved(geo, s.disk, s.free, s.total)
    ensures block == 0 <==> s.total == Spare(geo, s.disk)
    ensures block == 0 ==> s' == s && Left(geo, s) == 0
    ensures block != 0 ==> Allocated(geo, s.disk, s'.disk, g, i) && block == geo.BlockNo(g, i)
    ensures block != 0 ==> forall h | 0 <= h < g :: ClearIn(geo, s.disk, h) == 0
    ensures block != 0 ==> forall j: nat | j < i :: geo.BitSet(s.disk, g, j)
    ensures block != 0 ==> s'.total == s.total - 1 && Left(geo, s') == Left(geo, s) - 1 >= 0
    ensures Conserved(geo, s'.disk, s'.free, s'.total)
  {
    var group, bit, d := MarkFirstFree(geo, s);
    if group == geo.groupsCount {
      NoneLeft(geo, s);
      block, s', g, i := 0, s, group, 0;
    } else {
      geo.BlockNoIs(group, bit);
      AllocationWrites(geo, s.disk, d, group, bit, s.free, s.total);
      block, g, i := group * geo.blocksPerGroup + geo.firstDataBlock + bit, group, bit;
      s' := State(d[block := Zeros(geo.blockSize)], s.free[group := s.free[group] - 1], s.total - 1);
    }
  }

  // ---- runs of allocations ----

  /** Consecutive allocations: step `k` marks bit `at[k].1` of group `at[k].0`. */
  ghost predicate AllocationRun(geo: Layout, ds: seq<Disk>, at: seq<(nat, nat)>) {
    && |ds| == |at| + 1 && ClearIsFree(geo, ds[0])
    && forall k | 0 <= k < |at| :: Allocated(geo, ds[k], ds[k + 1], at[k].0, at[k].1)
  }

  lemma {:induction false} FreeStays(geo: Layout, ds: seq<Disk>, at: seq<(nat, nat)>, k: nat)
    requires AllocationRun(geo, ds, at) && k <= |at|
    ensures ClearIsFree(geo, ds[k])
  {
    if 0 < k {
      FreeStays(geo, ds, at, k - 1);
      AllocatedFree(geo, ds[k - 1], ds[k], at[k - 1].0, at[k - 1].1);
    }
  }

  /** A bit once marked stays marked. */
  lemma {:induction false} BitsStay(geo: Layout, ds: seq<Disk>, at: seq<(nat, nat)>, j: nat, k: nat, g: nat, i: nat)
    requires AllocationRun(geo, ds, at) && j <= k <= |at| && g < geo.groupsCount && i < geo.blocksPerGroup
    requires geo.BitSet(ds[j], g, i)
    ensures geo.BitSet(ds[k], g, i)
    decreases k
  {
    if j < k {
      BitsStay(geo, ds, at, j, k - 1, g, i);
      FreeStays(geo, ds, at, k - 1);
      AllocatedBits(geo, ds[k - 1], ds[k], at[k - 1].0, at[k - 1].1, g, i);
    }
  }

  /** No run of allocations hands out the same block twice. */
  lemma AllocationsDistinct(geo: Layout, ds: seq<Disk>, at: seq<(nat, nat)>, j: nat, k: nat)
    requires AllocationRun(geo, ds, at) && j < k < |at|
    ensures geo.BlockNo(at[j].0, at[j].1) != geo.BlockNo(at[k].0, at[k].1)
  {
    var (g, i) := at[j];
    assert Allocated(geo, ds[j], ds[j + 1], g, i) && Allocated(geo, ds[k], ds[k + 1], at[k].0, at[k].1);
    FreeStays(geo, ds, at, j);
    AllocatedBits(geo, ds[j], ds[j + 1], g, i, g, i);
    BitsStay(geo, ds, at, j + 1, k, g, i);
    if geo.BlockNo(g, i) == geo.BlockNo(at[k].0, at[k].1) {
      geo.BlockNoInjective(g, i, at[k].0, at[k].1);
      assert false;
    }
  }

  // ---- the block map ----

  /** The allocation for one of the inode's own slots succeeded. */
  lemma RootFilled(geo: Layout, s: State, s1: State, t: Table, owner: Owner, n: nat, k: nat, g: nat, i: nat, raw': Raw)
    returns (owner': Owner)
    requires Good(geo, s, owner, t) && n in t && k <= DIND && GetU32(t[n], PTR_OFFSET + 4 * k) == 0
    requires Allocated(geo, s.disk, s1.disk, g, i) && Conserved(geo, s1.disk, s1.free, s1.total)
    requires geo.BlockNo(g, i) < 0x1_0000_0000 && raw' == SetU32(t[n], PTR_OFFSET + 4 * k, geo.BlockNo(g, i))
    ensures Good(geo, s1, owner', t[n := raw'])
    ensures SlotFilled(geo, s.disk, t, s1.disk, t[n := raw'], n, Root(k), geo.BlockNo(g, i))
  {
    var d', t';
    d', t', owner' := FillSlot(geo, s.disk, s1.disk, t, owner, n, Root(k), g, i);
    assert d' == s1.disk && t' == t[n := raw'];
  }

  /** inode->block[k] = ext2_allocate_block(), for an empty slot. */
  method NewRoot(geo: Layout, s: State, raw: Raw, k: nat, ghost n: nat, ghost t: Table, ghost owner: Owner)
    returns (f: u32, raw': Raw, s': State, ghost owner': Owner)
    requires Good(geo, s, owner, t) && n in t && t[n] == raw && k <= DIND && GetU32(raw, PTR_OFFSET + 4 * k) == 0
    ensures raw' == SetU32(raw, PTR_OFFSET + 4 * k, f) && Good(geo, s', owner', t[n := raw'])
    ensures f == 0 ==> s' == s && raw' == raw && owner' == owner && Left(geo, s) == 0
    ensures f != 0 ==> Left(geo, s') == Left(geo, s) - 1 >= 0
    ensures f != 0 ==> SlotFilled(geo, s.disk, t, s'.disk, t[n := raw'], n, Root(k), f)
  {
    ghost var g, i;
    f, s', g, i := AllocateBlock(geo, s);
    raw', owner' := SetU32(raw, PTR_OFFSET + 4 * k, f), owner;
    if f == 0 {
      SetSame(raw, PTR_OFFSET + 4 * k, 0);
      assert t[n := raw'] == t;
    } else {
      owner' := RootFilled(geo, s, s', t, owner, n, k, g, i, raw');
    }
  }

  lemma SameEntry(t: Table, n: nat)
    requires n in t
    ensures t[n := t[n]] == t
  {
  }

  /** The allocation succeeded; `written` is the disk once the index block holds the new number. */
  lemma ChildFilled(geo: Layout, d: Disk, d1: Disk, t: Table, owner: Owner, n: nat, p: Node, j: nat, g: nat, i: nat,
                    free: seq<int>, total: int, written: Disk)
    returns (owner': Owner)
    requires View(geo, d, t, owner) && Allocated(geo, d, d1, g, i) && Conserved(geo, d1, free, total)
    requires n in t && CanLink(geo, d, t[n], Child(p, j)) && geo.BlockNo(g, i) < 0x1_0000_0000
    requires var a := Addr(geo, d, t[n], p); written == d1[a := SetU32(d[a], 4 * j, geo.BlockNo(g, i))]
    ensures Good(geo, State(written, free, total), owner', t)
    ensures SlotFilled(geo, d, t, written, t, n, Child(p, j), geo.BlockNo(g, i))
  {
    FillReady(geo, d, d1, t, owner, n, Child(p, j), g, i);
    var d', t';
    d', t', owner' := FillSlot(geo, d, d1, t, owner, n, Child(p, j), g, i);
    SameEntry(t, n);
    BitmapsConserve(geo, d1, d', free, total);
  }

  /**
   * buf[j] = ext2_allocate_block() and write the block back, for an empty slot of an index block or, with nothing
   * left, of any block.
   */
  method NewChild(geo: Layout, s: State, block: u32, j: nat, ghost p: Node, ghost n: nat, ghost t: Table,
                  ghost owner: Owner)
    returns (f: u32, s': State, ghost owner': Owner)
    requires Good(geo, s, owner, t) && n in t && ValidNode(geo, Child(p, j))
    requires block < |s.disk| && GetU32(s.disk[block], 4 * j) == 0
    requires Left(geo, s) == 0 || (block != 0 && block == Addr(geo, s.disk, t[n], p))
    ensures Good(geo, s', owner', t)
    ensures f == 0 ==> s' == s && owner' == owner && Left(geo, s) == 0
    ensures f != 0 ==> Left(geo, s') == Left(geo, s) - 1 >= 0
    ensures f != 0 ==> SlotFilled(geo, s.disk, t, s'.disk, t, n, Child(p, j), f)
  {
    var buf := s.disk[block];
    ghost var g, i;
    f, s', g, i := AllocateBlock(geo, s);
    var written := s'.disk[block := SetU32(buf, 4 * j, f)];
    if f == 0 {
      SetSame(buf, 4 * j, 0);
      assert written == s.disk;
      owner' := owner;
    } else {
      owner' := ChildFilled(geo, s.disk, s'.disk, t, owner, n, p, j, g, i, s'.free, s'.total, written);
    }
    s' := s'.(disk := written);
  }

  // ---- what is missing on the way to a slot ----

  ghost function Absent(geo: Layout, d: Disk, raw: Raw, x: Node): nat {
    if Addr(geo, d, raw, x) == 0 then 1 else 0
  }

  /** How many of the slots on the way to `x`, itself included, are empty. */
  ghost function Missing(geo: Layout, d: Disk, raw: Raw, x: Node): nat {
    Absent(geo, d, raw, x) + if x.Child? then Missing(geo, d, raw, x.parent) else 0
  }

  /** The same without `x` itself: the index blocks to be allocated first. */
  ghost function IndexMissing(geo: Layout, d: Disk, raw: Raw, x: Node): nat {
    if x.Child? then Missing(geo, d, raw, x.parent) else 0
  }

  ghost predicate OnPath(y: Node, x: Node) {
    y == x || (x.Child? && OnPath(y, x.parent))
  }

  /** Slot `x` is filled now; which other slots of the inode are filled did not change. */
  ghost predicate SlotTaken(geo: Layout, d: Disk, raw: Raw, d': Disk, raw': Raw, x: Node) {
    && Addr(geo, d', raw', x) != 0
    && forall y | ValidNode(geo, y) && y != x :: (Addr(geo, d', raw', y) == 0 <==> Addr(geo, d, raw, y) == 0)
  }

  /** All slots on the way to `x` are filled now, and no others were. */
  ghost predicate PathTaken(geo: Layout, d: Disk, raw: Raw, d': Disk, raw': Raw, x: Node) {
    forall y | ValidNode(geo, y) :: Addr(geo, d', raw', y) == 0 <==> Addr(geo, d, raw, y) == 0 && !OnPath(y, x)
  }

  lemma {:induction false} MissingSame(geo: Layout, d: Disk, raw: Raw, d': Disk, raw': Raw, y: Node, x: Node)
    requires SlotTaken(geo, d, raw, d', raw', y) && ValidNode(geo, x) && !OnPath(y, x)
    ensures Missing(geo, d', raw', x) == Missing(geo, d, raw, x)
  {
    if x.Child? {
      MissingSame(geo, d, raw, d', raw', y, x.parent);
    }
  }

  lemma {:induction false} NotBelow(y: Node, x: Node)
    requires x.Child? && OnPath(y, x.parent)
    ensures y != x
    decreases x
  {
    if y == x {
      PathShorter(x, x.parent);
    }
  }

  lemma {:induction false} PathShorter(y: Node, x: Node)
    requires OnPath(y, x)
    ensures Depth(y) <= Depth(x)
  {
    if y != x {
      PathShorter(y, x.parent);
    }
  }

  ghost function Depth(x: Node): nat {
    if x.Child? then Depth(x.parent) + 1 else 0
  }

  /** Filling a slot on the way leaves one less to fill, if it was empty. */
  lemma {:induction false} MissingAfter(geo: Layout, d: Disk, raw: Raw, d': Disk, raw': Raw, y: Node, x: Node)
    requires SlotTaken(geo, d, raw, d', raw', y) && ValidNode(geo, x) && ValidNode(geo, y) && OnPath(y, x)
    ensures Missing(geo, d', raw', x) == Missing(geo, d, raw, x) - Absent(geo, d, raw, y)
  {
    if x == y {
      if x.Child? {
        if OnPath(x, x.parent) {
          NotBelow(x, x);
        }
        MissingSame(geo, d, raw, d', raw', y, x.parent);
      }
    } else {
      MissingAfter(geo, d, raw, d', raw', y, x.parent);
    }
  }

  // ---- looking up with nothing left to allocate ----

  /**
   * Slot `j` of the block behind a pointer, a missing pointer read as block 0; a block past the device reads as
   * zeros.
   */
  ghost function DrySlot(d: Disk, block: u32, j: nat): u32 {
    if block < |d| then Word(d[block], 4 * j) else 0
  }

  /**
   * What ext2_get_block_addr returns when every allocation it tries fails: index blocks it misses are read from block
   * 0.
   */
  ghost function DryAddr(geo: Layout, d: Disk, raw: Raw, x: Node): u32 {
    match x
    case Root(k) => Addr(geo, d, raw, x)
    case Child(p, j) => DrySlot(d, DryAddr(geo, d, raw, p), j)
  }

  /** Block 0 reads as an index block without entries. */
  ghost predicate BootEmpty(geo: Layout, d: Disk) {
    |d| > 0 && forall j: nat | j < geo.PtrsPerBlock() :: Word(d[0], 4 * j) == 0
  }

  /** Every lookup answers what the file holds. */
  ghost predicate DryFaithful(geo: Layout, d: Disk, raw: Raw) {
    forall x {:trigger ValidNode(geo, x)} | ValidNode(geo, x) :: DryAddr(geo, d, raw, x) == Addr(geo, d, raw, x)
  }

  lemma {:induction false} DryHarmless(geo: Layout, d: Disk, raw: Raw, x: Node)
    requires BootEmpty(geo, d) && ValidNode(geo, x)
    ensures DryAddr(geo, d, raw, x) == Addr(geo, d, raw, x)
  {
    if x.Child? {
      DryHarmless(geo, d, raw, x.parent);
    }
  }

  /** Every index block of the file is there. */
  ghost predicate FullyIndexed(geo: Layout, d: Disk, raw: Raw) {
    forall x {:trigger ValidNode(geo, x)} | ValidNode(geo, x) && IsIndex(x) :: Addr(geo, d, raw, x) != 0
  }

  lemma {:induction false} IndexedFaithful(geo: Layout, d: Disk, raw: Raw, x: Node)
    requires FullyIndexed(geo, d, raw) && ValidNode(geo, x)
    ensures DryAddr(geo, d, raw, x) == Addr(geo, d, raw, x)
  {
    if x.Child? {
      IndexedFaithful(geo, d, raw, x.parent);
    }
  }

  lemma UnindexedAstray(geo: Layout, d: Disk, raw: Raw, y: Node)
    requires |d| > 0 && !BootEmpty(geo, d) && ValidNode(geo, y) && IsIndex(y) && Addr(geo, d, raw, y) == 0
    ensures !DryFaithful(geo, d, raw)
  {
    var j: nat :| j < geo.PtrsPerBlock() && Word(d[0], 4 * j) != 0;
    var x := Child(y, j);
    assert ValidNode(geo, x) && Addr(geo, d, raw, x) == 0;
    if DryAddr(geo, d, raw, y) == 0 {
      assert DryAddr(geo, d, raw, x) == Word(d[0], 4 * j);
    }
  }

  /**
   * With nothing left to allocate, every lookup of a file answers what the file holds if and only if block 0 reads as
   * an empty index block or the file misses no index block; otherwise some lookup returns a number found in block 0.
   */
  lemma DryExact(geo: Layout, d: Disk, raw: Raw)
    requires |d| > 0
    ensures DryFaithful(geo, d, raw) <==> BootEmpty(geo, d) || FullyIndexed(geo, d, raw)
  {
    if BootEmpty(geo, d) {
      forall x | ValidNode(geo, x) ensures DryAddr(geo, d, raw, x) == Addr(geo, d, raw, x) {
        DryHarmless(geo, d, raw, x);
      }
    } else if FullyIndexed(geo, d, raw) {
      forall x | ValidNode(geo, x) ensures DryAddr(geo, d, raw, x) == Addr(geo, d, raw, x) {
        IndexedFaithful(geo, d, raw, x);
      }
    } else {
      var y :| ValidNode(geo, y) && IsIndex(y) && Addr(geo, d, raw, y) == 0;
      UnindexedAstray(geo, d, raw, y);
    }
  }

  // ---- lookups ----

  /** What `Follow` did: nothing, or the empty slot was filled. */
  ghost predicate Followed(geo: Layout, s: State, s': State, t: Table, n: nat, x: Node, create: bool, addr: u32) {
    if n in t && Addr(geo, s.disk, t[n], x) == 0 && addr != 0 then
      create && Left(geo, s') == Left(geo, s) - 1 >= 0 && SlotFilled(geo, s.disk, t, s'.disk, t, n, x, addr)
    else
      n in t && s' == s && addr == Addr(geo, s.disk, t[n], x) && (addr == 0 && create ==> Left(geo, s) == 0)
  }

  /**
   * Read slot `j` of an index block; when asked to create, fill an empty slot. With nothing left the block may be
   * any.
   */
  method Follow(geo: Layout, s: State, block: u32, j: nat, create: bool, ghost p: Node, ghost n: nat, ghost t: Table,
                ghost owner: Owner)
    returns (addr: u32, s': State, ghost owner': Owner)
    requires Good(geo, s, owner, t) && n in t && ValidNode(geo, Child(p, j))
    requires (create && Left(geo, s) == 0) || (block != 0 && block == Addr(geo, s.disk, t[n], p))
    ensures Good(geo, s', owner', t)
    ensures block != 0 && block == Addr(geo, s.disk, t[n], p) ==> Followed(geo, s, s', t, n, Child(p, j), create, addr)
    ensures Left(geo, s) == 0 ==> s' == s && owner' == owner && addr == DrySlot(s.disk, block, j)
  {
    if block != 0 && block == Addr(geo, s.disk, t[n], p) {
      OwnedBy(geo, s.disk, t, owner, n, p);
    }
    addr, s', owner' := 0, s, owner;
    if block < |s.disk| {
      addr := GetU32(s.disk[block], 4 * j);
      if addr == 0 && create {
        addr, s', owner' := NewChild(geo, s, block, j, p, n, t, owner);
      }
    }
  }

  /** Fields of the inode other than its block numbers. */
  ghost predicate SameFields(raw: Raw, raw': Raw) {
    forall i | 0 <= i < PTR_OFFSET || PTR_OFFSET + 56 <= i < 128 :: raw'[i] == raw[i]
  }

  /** One index slot on the way read, and filled if it was empty: no file changed. */
  ghost predicate IndexStep(geo: Layout, s: State, s': State, t: Table, t': Table, n: nat, y: Node, create: bool,
                            block: u32) {
    && n in t && n in t' && SameFiles(geo, s.disk, t, s'.disk, t') && SameTables(geo, s.disk, s'.disk)
    && block == Addr(geo, s'.disk, t'[n], y)
    && (!create ==> s' == s && t' == t)
    && if block == 0 then s' == s && t' == t && (create ==> Left(geo, s) == 0)
       else
         && SlotTaken(geo, s.disk, t[n], s'.disk, t'[n], y)
         && Left(geo, s') == Left(geo, s) - Absent(geo, s.disk, t[n], y)
  }

  /** A lookup went right: the block is mapped, for exactly as many new blocks as were missing. */
  ghost predicate Looked(geo: Layout, s: State, s': State, t: Table, t': Table, n: nat, lb: nat, create: bool,
                         addr: u32) {
    && BlockMapped(geo, s.disk, t, s'.disk, t', n, lb, addr)
    && (!create ==> s' == s && t' == t)
    && (create && addr == 0 ==> LeafNode(geo, lb).None? || Left(geo, s') == 0)
    && (create && addr != 0 ==> Paid(geo, s, s', t[n], t'[n], lb))
  }

  ghost predicate Paid(geo: Layout, s: State, s': State, raw: Raw, raw': Raw, lb: nat) {
    match LeafNode(geo, lb)
    case None => false
    case Some(x) =>
      PathTaken(geo, s.disk, raw, s'.disk, raw', x) && Left(geo, s') == Left(geo, s) - Missing(geo, s.disk, raw, x)
  }

  /**
   * A lookup that ran out of blocks before its index blocks: no file changed, but the answer is what block 0
   * suggests.
   */
  ghost predicate Astray(geo: Layout, s: State, s': State, t: Table, t': Table, n: nat, lb: nat, addr: u32) {
    && n in t && n in t' && SameFiles(geo, s.disk, t, s'.disk, t') && SameTables(geo, s.disk, s'.disk)
    && Left(geo, s') == 0 && FileAddr(geo, s'.disk, t'[n], lb) == 0
    && LeafNode(geo, lb).Some? && addr == DryAddr(geo, s'.disk, t'[n], LeafNode(geo, lb).value)
  }

  /**
   * Enough free blocks for the index blocks a lookup would have to create, or a boot block that reads as an empty
   * one.
   */
  ghost predicate Served(geo: Layout, s: State, raw: Raw, lb: nat) {
    match LeafNode(geo, lb)
    case None => true
    case Some(x) => Left(geo, s) >= IndexMissing(geo, s.disk, raw, x) || BootEmpty(geo, s.disk)
  }

  /** Every lookup: right exactly as long as its index blocks can be had. */
  ghost predicate Outcome(geo: Layout, s: State, s': State, t: Table, t': Table, n: nat, lb: nat, create: bool,
                          addr: u32) {
    n in t && if create && !Served(geo, s, t[n], lb) then Astray(geo, s, s', t, t', n, lb, addr)
              else Looked(geo, s, s', t, t', n, lb, create, addr)
  }

  // ---- putting the steps of a lookup together ----

  /** What is left to fill on the way after one index slot was taken. */
  lemma LeftAfter(geo: Layout, s: State, s1: State, t: Table, t1: Table, n: nat, y: Node, x: Node, create: bool,
                  block: u32)
    requires IndexStep(geo, s, s1, t, t1, n, y, create, block) && block != 0
    requires ValidNode(geo, y) && ValidNode(geo, x) && x.Child? && OnPath(y, x.parent)
    ensures Left(geo, s1) - Missing(geo, s1.disk, t1[n], x) == Left(geo, s) - Missing(geo, s.disk, t[n], x)
    ensures Left(geo, s1) - IndexMissing(geo, s1.disk, t1[n], x) == Left(geo, s) - IndexMissing(geo, s.disk, t[n], x)
  {
    MissingAfter(geo, s.disk, t[n], s1.disk, t1[n], y, x.parent);
    NotBelow(y, x);
  }

  lemma BootSame(geo: Layout, d: Disk, d': Disk)
    requires SameTables(geo, d, d')
    ensures BootEmpty(geo, d') <==> BootEmpty(geo, d)
  {
  }

  lemma PathAfter(geo: Layout, d: Disk, raw: Raw, d1: Disk, raw1: Raw, d': Disk, raw': Raw, y: Node, x: Node)
    requires SlotTaken(geo, d, raw, d1, raw1, y) && PathTaken(geo, d1, raw1, d', raw', x) && OnPath(y, x)
    ensures PathTaken(geo, d, raw, d', raw', x)
  {
  }

  lemma LookedAfter(geo: Layout, s: State, s1: State, s': State, t: Table, t1: Table, t': Table, n: nat, y: Node,
                    x: Node, lb: nat,
                    create: bool, block: u32, addr: u32)
    requires IndexStep(geo, s, s1, t, t1, n, y, create, block) && block != 0
    requires LeafNode(geo, lb) == Some(x) && ValidNode(geo, y) && x.Child? && OnPath(y, x.parent)
    requires Looked(geo, s1, s', t1, t', n, lb, create, addr)
    ensures Looked(geo, s, s', t, t', n, lb, create, addr)
  {
    MappedAfter(geo, s.disk, t, s1.disk, t1, s'.disk, t', n, lb, addr);
    if create && addr != 0 {
      LeftAfter(geo, s, s1, t, t1, n, y, x, create, block);
      PathAfter(geo, s.disk, t[n], s1.disk, t1[n], s'.disk, t'[n], y, x);
    }
  }

  /** An index slot taken, then a lookup from there: a lookup. */
  lemma OutcomeAfter(geo: Layout, s: State, s1: State, s': State, t: Table, t1: Table, t': Table, n: nat, y: Node,
                     x: Node, lb: nat,
                     create: bool, block: u32, addr: u32)
    requires IndexStep(geo, s, s1, t, t1, n, y, create, block) && block != 0
    requires LeafNode(geo, lb) == Some(x) && ValidNode(geo, y) && x.Child? && OnPath(y, x.parent)
    requires Outcome(geo, s1, s', t1, t', n, lb, create, addr)
    ensures Outcome(geo, s, s', t, t', n, lb, create, addr)
  {
    LeftAfter(geo, s, s1, t, t1, n, y, x, create, block);
    BootSame(geo, s.disk, s1.disk);
    if !(create && !Served(geo, s, t[n], lb)) {
      LookedAfter(geo, s, s1, s', t, t1, t', n, y, x, lb, create, block, addr);
    }
  }

  lemma {:induction false} AbsentBelow(geo: Layout, d: Disk, raw: Raw, x: Node)
    requires IndexMissing(geo, d, raw, x) > 0
    ensures Addr(geo, d, raw, x) == 0
  {
    if Addr(geo, d, raw, x.parent) != 0 {
      AbsentBelow(geo, d, raw, x.parent);
    }
  }

  /** Nothing left, and an index block missing on the way: nothing changes. */
  lemma DryOutcome(geo: Layout, s: State, t: Table, n: nat, lb: nat, x: Node, addr: u32)
    requires n in t && LeafNode(geo, lb) == Some(x) && Left(geo, s) == 0 && IndexMissing(geo, s.disk, t[n], x) > 0
    requires addr == DryAddr(geo, s.disk, t[n], x)
    ensures Outcome(geo, s, s, t, t, n, lb, true, addr)
  {
    AbsentBelow(geo, s.disk, t[n], x);
    if BootEmpty(geo, s.disk) {
      DryHarmless(geo, s.disk, t[n], x);
    }
  }

  /** Looking only, with an index block missing on the way: a hole. */
  lemma HoleOutcome(geo: Layout, s: State, t: Table, n: nat, lb: nat, x: Node)
    requires n in t && LeafNode(geo, lb) == Some(x) && IndexMissing(geo, s.disk, t[n], x) > 0
    ensures Outcome(geo, s, s, t, t, n, lb, false, 0)
  {
    AbsentBelow(geo, s.disk, t[n], x);
  }

  lemma SlotTakenBy(geo: Layout, d: Disk, t: Table, d': Disk, t': Table, n: nat, x: Node, f: u32)
    requires n in t && n in t' && f != 0 && SlotFilled(geo, d, t, d', t', n, x, f) && ValidNode(geo, x)
    ensures SlotTaken(geo, d, t[n], d', t'[n], x)
  {
  }

  /** `Follow` on a slot that holds an index block. */
  lemma FollowedIndex(geo: Layout, s: State, s': State, t: Table, n: nat, x: Node, create: bool, addr: u32)
    requires Followed(geo, s, s', t, n, x, create, addr) && IsIndex(x) && ValidNode(geo, x)
    ensures IndexStep(geo, s, s', t, t, n, x, create, addr)
  {
    if Addr(geo, s.disk, t[n], x) == 0 && addr != 0 {
      IndexFilled(geo, s.disk, t, s'.disk, t, n, x, addr);
      SlotTakenBy(geo, s.disk, t, s'.disk, t, n, x, addr);
    }
  }

  lemma {:induction false} PresentAbove(geo: Layout, d: Disk, raw: Raw, x: Node)
    requires Addr(geo, d, raw, x) != 0
    ensures Missing(geo, d, raw, x) == 0
  {
    if x.Child? {
      PresentAbove(geo, d, raw, x.parent);
    }
  }

  lemma {:induction false} NoneOnPath(geo: Layout, d: Disk, raw: Raw, y: Node, x: Node)
    requires Missing(geo, d, raw, x) == 0 && OnPath(y, x)
    ensures Addr(geo, d, raw, y) != 0
  {
    if y != x {
      NoneOnPath(geo, d, raw, y, x.parent);
    }
  }

  /** A slot of a data block read, and filled if it was empty, everything above it being there. */
  lemma LeafPaid(geo: Layout, s: State, s': State, t: Table, t': Table, n: nat, lb: nat, x: Node, addr: u32)
    requires n in t && n in t' && LeafNode(geo, lb) == Some(x) && addr != 0 && IndexMissing(geo, s.disk, t[n], x) == 0
    requires if Addr(geo, s.disk, t[n], x) == 0 then
      Left(geo, s') == Left(geo, s) - 1 && SlotFilled(geo, s.disk, t, s'.disk, t', n, x, addr)
             else s' == s && t' == t
    ensures Paid(geo, s, s', t[n], t'[n], lb)
  {
    forall y | ValidNode(geo, y) && OnPath(y, x) ensures y == x || Addr(geo, s.disk, t[n], y) != 0 {
      if y != x {
        NoneOnPath(geo, s.disk, t[n], y, x.parent);
      }
    }
  }

  /** `Follow` on the slot of a logical block. */
  lemma FollowedLeaf(geo: Layout, s: State, s': State, owner: Owner, t: Table, n: nat, lb: nat, x: Node, create: bool,
                     addr: u32)
    requires Good(geo, s, owner, t) && LeafNode(geo, lb) == Some(x) && n in t && IndexMissing(geo, s.disk, t[n], x) == 0
    requires Followed(geo, s, s', t, n, x, create, addr)
    ensures Outcome(geo, s, s', t, t, n, lb, create, addr)
  {
    if Addr(geo, s.disk, t[n], x) == 0 {
      if addr != 0 {
        LeafFilled(geo, s.disk, t, s'.disk, t, n, lb, addr);
      }
    } else {
      OwnedBy(geo, s.disk, t, owner, n, x);
    }
    assert Left(geo, s) >= 0 by {
      LeftNonNegative(geo, s);
    }
    if addr != 0 {
      LeafPaid(geo, s, s', t, t, n, lb, x, addr);
    }
  }

  // ---- ext2_get_block_addr ----

  /** The pointer in one of the inode's two index slots, created on demand. */
  method IndexRoot(geo: Layout, s: State, raw: Raw, k: nat, create: bool, ghost n: nat, ghost t: Table,
                   ghost owner: Owner)
    returns (block: u32, raw': Raw, s': State, ghost owner': Owner)
    requires Good(geo, s, owner, t) && n in t && t[n] == raw && IsIndex(Root(k)) && k <= DIND
    ensures Good(geo, s', owner', t[n := raw']) && SameFields(raw, raw')
    ensures IndexStep(geo, s, s', t, t[n := raw'], n, Root(k), create, block)
  {
    raw', s', owner' := raw, s, owner;
    assert t[n := raw] == t;
    block := GetU32(raw, PTR_OFFSET + 4 * k);
    if block == 0 && create {
      block, raw', s', owner' := NewRoot(geo, s, raw, k, n, t, owner);
      if block != 0 {
        IndexFilled(geo, s.disk, t, s'.disk, t[n := raw'], n, Root(k), block);
        SlotTakenBy(geo, s.disk, t, s'.disk, t[n := raw'], n, Root(k), block);
      }
    }
  }

  /** A direct slot left as it is. */
  lemma DirectKept(geo: Layout, s: State, owner: Owner, t: Table, n: nat, lb: nat, create: bool, addr: u32)
    requires Good(geo, s, owner, t) && n in t && lb < NDIR && addr == GetU32(t[n], PTR_OFFSET + 4 * lb)
    requires addr == 0 && create ==> Left(geo, s) == 0
    ensures Looked(geo, s, s, t, t, n, lb, create, addr)
  {
    assert LeafNode(geo, lb) == Some(Root(lb));
    if addr != 0 {
      OwnedBy(geo, s.disk, t, owner, n, Root(lb));
      LeafPaid(geo, s, s, t, t, n, lb, Root(lb), addr);
    }
  }

  /** A direct slot newly filled. */
  lemma DirectFilled(geo: Layout, s: State, s': State, t: Table, n: nat, lb: nat, raw': Raw, f: u32)
    requires n in t && lb < NDIR && f != 0 && Left(geo, s') == Left(geo, s) - 1
    requires GetU32(t[n], PTR_OFFSET + 4 * lb) == 0 && SlotFilled(geo, s.disk, t, s'.disk, t[n := raw'], n, Root(lb), f)
    ensures Looked(geo, s, s', t, t[n := raw'], n, lb, true, f)
  {
    assert LeafNode(geo, lb) == Some(Root(lb));
    LeafFilled(geo, s.disk, t, s'.disk, t[n := raw'], n, lb, f);
    LeafPaid(geo, s, s', t, t[n := raw'], n, lb, Root(lb), f);
  }

  method Direct(geo: Layout, s: State, raw: Raw, lb: nat, create: bool, ghost n: nat, ghost t: Table,
                ghost owner: Owner)
    returns (addr: u32, raw': Raw, s': State, ghost owner': Owner)
    requires Good(geo, s, owner, t) && n in t && t[n] == raw && lb < NDIR
    ensures Good(geo, s', owner', t[n := raw'])
    ensures Looked(geo, s, s', t, t[n := raw'], n, lb, create, addr)
    ensures addr == GetU32(raw, PTR_OFFSET + 4 * lb) ==> s' == s && raw' == raw && owner' == owner
    ensures raw' == SetU32(raw, PTR_OFFSET + 4 * lb, addr)
  {
    raw', s', owner' := raw, s, owner;
    addr := GetU32(raw, PTR_OFFSET + 4 * lb);
    SetSame(raw, PTR_OFFSET + 4 * lb, addr);
    assert t[n := raw] == t;
    if addr == 0 && create {
      addr, raw', s', owner' := NewRoot(geo, s, raw, lb, n, t, owner);
    }
    if addr == GetU32(raw, PTR_OFFSET + 4 * lb) {
      DirectKept(geo, s, owner, t, n, lb, create, addr);
    } else {
      DirectFilled(geo, s, s', t, n, lb, raw', addr);
    }
  }

  method Indirect(geo: Layout, s: State, raw: Raw, lb: nat, create: bool, ghost n: nat, ghost t: Table,
                  ghost owner: Owner)
    returns (addr: u32, raw': Raw, s': State, ghost owner': Owner)
    requires Good(geo, s, owner, t) && n in t && t[n] == raw && NDIR <= lb < NDIR + geo.PtrsPerBlock()
    ensures Good(geo, s', owner', t[n := raw']) && SameFields(raw, raw')
    ensures Outcome(geo, s, s', t, t[n := raw'], n, lb, create, addr)
  {
    ghost var x := Child(Root(IND), lb - NDIR);
    assert LeafNode(geo, lb) == Some(x);
    var block, s1;
    ghost var owner1;
    block, raw', s1, owner1 := IndexRoot(geo, s, raw, IND, create, n, t, owner);
    ghost var t' := t[n := raw'];
    if block == 0 && !create {
      addr, s', owner' := 0, s1, owner1;
      HoleOutcome(geo, s, t, n, lb, x);
    } else {
      addr, s', owner' := Follow(geo, s1, block, lb - NDIR, create, Root(IND), n, t', owner1);
      if block == 0 {
        DryOutcome(geo, s, t, n, lb, x, addr);
      } else {
        FollowedLeaf(geo, s1, s', owner1, t', n, lb, x, create, addr);
        OutcomeAfter(geo, s, s1, s', t, t', t', n, Root(IND), x, lb, create, block, addr);
      }
    }
  }

  /** The two index levels below the double-indirect block. */
  method TwoLevels(geo: Layout, s: State, dind: u32, i: nat, j: nat, create: bool, ghost n: nat, ghost t: Table,
                   ghost owner: Owner, ghost lb: nat)
    returns (addr: u32, s': State, ghost owner': Owner)
    requires Good(geo, s, owner, t) && n in t && LeafNode(geo, lb) == Some(Child(Child(Root(DIND), i), j))
    requires i < geo.PtrsPerBlock() && j < geo.PtrsPerBlock() && dind == Addr(geo, s.disk, t[n], Root(DIND))
    requires dind == 0 ==> create && Left(geo, s) == 0
    ensures Good(geo, s', owner', t) && Outcome(geo, s, s', t, t, n, lb, create, addr)
  {
    ghost var mid := Child(Root(DIND), i);
    ghost var x := Child(mid, j);
    var ind, s1;
    ghost var owner1;
    ind, s1, owner1 := Follow(geo, s, dind, i, create, Root(DIND), n, t, owner);
    if dind != 0 {
      FollowedIndex(geo, s, s1, t, n, mid, create, ind);
    }
    if ind == 0 && !create {
      addr, s', owner' := 0, s1, owner1;
      HoleOutcome(geo, s, t, n, lb, x);
    } else {
      addr, s', owner' := Follow(geo, s1, ind, j, create, mid, n, t, owner1);
      if dind == 0 || ind == 0 {
        assert DryAddr(geo, s.disk, t[n], Root(DIND)) == dind && DryAddr(geo, s.disk, t[n], mid) == ind;
        DryOutcome(geo, s, t, n, lb, x, addr);
      } else {
        PresentAbove(geo, s1.disk, t[n], mid);
        FollowedLeaf(geo, s1, s', owner1, t, n, lb, x, create, addr);
        OutcomeAfter(geo, s, s1, s', t, t, t, n, mid, x, lb, create, ind, addr);
      }
    }
  }

  /** The slots at the two levels. */
  method DoubleSlots(geo: Layout, ghost lb: nat, q: nat) returns (i: nat, j: nat)
    requires q < geo.PtrsPerBlock() * geo.PtrsPerBlock() && lb == NDIR + geo.PtrsPerBlock() + q
    ensures i < geo.PtrsPerBlock() && j < geo.PtrsPerBlock()
    ensures LeafNode(geo, lb) == Some(Child(Child(Root(DIND), i), j))
  {
    var p := geo.PtrsPerBlock();
    DivBound(q, p, p);
    QuotRem(q, p);
    i, j := q / p, q % p;
  }

  method DoubleIndirect(geo: Layout, s: State, raw: Raw, lb: nat, q: nat, create: bool, ghost n: nat, ghost t: Table,
                        ghost owner: Owner)
    returns (addr: u32, raw': Raw, s': State, ghost owner': Owner)
    requires Good(geo, s, owner, t) && n in t && t[n] == raw
    requires q < geo.PtrsPerBlock() * geo.PtrsPerBlock() && lb == NDIR + geo.PtrsPerBlock() + q
    ensures Good(geo, s', owner', t[n := raw']) && SameFields(raw, raw')
    ensures Outcome(geo, s, s', t, t[n := raw'], n, lb, create, addr)
  {
    var i, j := DoubleSlots(geo, lb, q);
    ghost var x := Child(Child(Root(DIND), i), j);
    var dind, s1;
    ghost var owner1;
    dind, raw', s1, owner1 := IndexRoot(geo, s, raw, DIND, create, n, t, owner);
    ghost var t' := t[n := raw'];
    if dind == 0 && !create {
      addr, s', owner' := 0, s1, owner1;
      HoleOutcome(geo, s, t, n, lb, x);
    } else {
      addr, s', owner' := TwoLevels(geo, s1, dind, i, j, create, n, t', owner1, lb);
      if dind != 0 {
        OutcomeAfter(geo, s, s1, s', t, t', t', n, Root(DIND), x, lb, create, dind, addr);
      }
    }
  }

  lemma OutOfRange(geo: Layout, lb: nat)
    requires var p := geo.PtrsPerBlock(); lb >= NDIR + p + p * p
    ensures LeafNode(geo, lb) == None
  {
    var p := geo.PtrsPerBlock();
    var q := lb - NDIR - p;
    QuotRem(q, p);
    DivMod(q, p);
    MulStep(p - 1 - q / p + 1, p);
    assert (p - q / p) * p == p * p - q / p * p;
  }

  lemma DirectFields(raw: Raw, k: nat, f: u32)
    requires k < NDIR
    ensures SameFields(raw, SetU32(raw, PTR_OFFSET + 4 * k, f))
  {
  }

  /** The address of a logical block, through direct, indirect and double-indirect pointers. */
  method GetBlockAddr(geo: Layout, s: State, raw: Raw, lb: nat, create: bool, ghost n: nat, ghost t: Table,
                      ghost owner: Owner)
    returns (addr: u32, raw': Raw, s': State, ghost owner': Owner)
    requires Good(geo, s, owner, t) && n in t && t[n] == raw
    ensures Good(geo, s', owner', t[n := raw']) && SameFields(raw, raw')
    ensures Outcome(geo, s, s', t, t[n := raw'], n, lb, create, addr)
  {
    var p := geo.PtrsPerBlock();
    if lb < NDIR {
      addr, raw', s', owner' := Direct(geo, s, raw, lb, create, n, t, owner);
      DirectFields(raw, lb, addr);
      DirectServed(geo, s, owner, t, n, lb);
    } else if lb - NDIR < p {
      addr, raw', s', owner' := Indirect(geo, s, raw, lb, create, n, t, owner);
    } else if lb - NDIR - p < p * p {
      addr, raw', s', owner' := DoubleIndirect(geo, s, raw, lb, lb - NDIR - p, create, n, t, owner);
    } else {
      addr, raw', s', owner' := 0, raw, s, owner;
      OutOfRange(geo, lb);
      assert t[n := raw] == t;
    }
  }

  /** Direct blocks need no index block. */
  lemma DirectServed(geo: Layout, s: State, owner: Owner, t: Table, n: nat, lb: nat)
    requires Good(geo, s, owner, t) && n in t && lb < NDIR
    ensures Served(geo, s, t[n], lb)
  {
    LeftNonNegative(geo, s);
  }
}
