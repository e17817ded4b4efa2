/** Allocating inodes and creating empty files. */
module Ext2Inode {
  import opened Arith
  import opened Bytes
  import opened Ext2Layout
  import opened Ext2BlockMap
  import opened Ext2
  import opened Ext2File
  import opened Ext2Fs

  /** The inode counters of the group descriptors and of the superblock. */
  datatype Counts = Counts(free: seq<int>, total: int)

  ghost function ClearInodes(geo: Layout, d: Disk, g: nat): nat
    requires g < geo.groupsCount
  {
    if geo.inodeBitmap[g] >= |d| then 0 else ClearBits(d[geo.inodeBitmap[g]], geo.inodesPerGroup)
  }

  ghost predicate InodesConserved(geo: Layout, d: Disk, c: Counts) {
    InodeGroupsConserved(geo, d, c.free) && c.total == Sum(c.free)
  }

  ghost predicate InodeGroupsConserved(geo: Layout, d: Disk, free: seq<int>) {
    |free| == geo.groupsCount && forall g | 0 <= g < geo.groupsCount :: free[g] == ClearInodes(geo, d, g)
  }

  /** Bit `i` of group `g`'s inode bitmap newly marked; otherwise only reserved blocks were rewritten. */
  ghost predicate InodeMarked(geo: Layout, d: Disk, d': Disk, g: nat, i: nat) {
    && geo.OnDisk(d) && geo.OnDisk(d') && |d'| == |d|
    && g < geo.groupsCount && i < geo.inodesPerGroup <= 8 * geo.blockSize && !BitAt(d[geo.inodeBitmap[g]], i)
    && d'[geo.inodeBitmap[g]] == MarkBit(d[geo.inodeBitmap[g]], i)
    && forall a | 0 <= a < |d| && !geo.Reserved(a) && a != geo.inodeBitmap[g] :: d'[a] == d[a]
  }

  lemma InodeCount(geo: Layout, d: Disk, d': Disk, g: nat, i: nat, h: nat)
    requires InodeMarked(geo, d, d', g, i) && h < geo.groupsCount
    ensures ClearInodes(geo, d', h) == ClearInodes(geo, d, h) - (if h == g then 1 else 0)
  {
    if h == g {
      MarkBitCount(d[geo.inodeBitmap[g]], i, geo.inodesPerGroup);
    } else {
      assert geo.BitmapsApart(h, g) && geo.BitmapsUsable(h);
      assert d'[geo.inodeBitmap[h]] == d[geo.inodeBitmap[h]];
    }
  }

  /** One inode allocation moves exactly one inode from free to used, in its group and in the total. */
  lemma InodeConserves(geo: Layout, d: Disk, d': Disk, g: nat, i: nat, c: Counts)
    requires InodeMarked(geo, d, d', g, i) && InodesConserved(geo, d, c)
    ensures InodesConserved(geo, d', Counts(c.free[g := c.free[g] - 1], c.total - 1))
  {
    forall h | 0 <= h < geo.groupsCount
      ensures c.free[g := c.free[g] - 1][h] == ClearInodes(geo, d', h)
    {
      InodeCount(geo, d, d', g, i, h);
    }
    SumUpdate(c.free, g, c.free[g] - 1);
  }

  lemma {:induction false} ZeroOfSum(s: seq<int>, g: nat)
    requires (forall h | 0 <= h < |s| :: s[h] >= 0) && g < |s|
    ensures 0 <= s[g] <= Sum(s)
  {
    var n := |s| - 1;
    SumNonNegative(s[..n]);
    if g < n {
      ZeroOfSum(s[..n], g);
    }
  }

  /** With no free inode counted, every inode is in use. */
  lemma AllUsed(geo: Layout, d: Disk, c: Counts, n: nat)
    requires geo.TablesFit() && geo.OnDisk(d) && InodesConserved(geo, d, c) && c.total == 0
    requires 1 <= n <= geo.inodesCount
    ensures InUse(geo, d, n)
  {
    var g, i := (n - 1) / geo.inodesPerGroup, (n - 1) % geo.inodesPerGroup;
    DivBound(n - 1, geo.inodesPerGroup, geo.groupsCount);
    DivMod(n - 1, geo.inodesPerGroup);
    ZeroOfSum(c.free, g);
    NoneClearAt(d[geo.inodeBitmap[g]], geo.inodesPerGroup, i);
    assert InodeBit(geo, d, g, i);
  }

  lemma CountedHasInode(geo: Layout, d: Disk, c: Counts, g: nat, i: nat)
    requires geo.OnDisk(d) && InodesConserved(geo, d, c) && g < geo.groupsCount && c.free[g] > 0
    requires forall j: nat | j < i :: BitAt(d[geo.inodeBitmap[g]], j)
    ensures i < geo.inodesPerGroup
  {
    if i >= geo.inodesPerGroup {
      NoneClear(d[geo.inodeBitmap[g]], geo.inodesPerGroup);
    }
  }

  /** Distinct bits stand for distinct inode numbers, all of them valid. */
  lemma InodeNumber(geo: Layout, g: nat, i: nat)
    requires geo.TablesFit() && g < geo.groupsCount && i < geo.inodesPerGroup
    ensures 1 <= g * geo.inodesPerGroup + i + 1 <= geo.inodesCount
  {
    Product(geo.inodesPerGroup, g, i, geo.groupsCount);
  }

  ghost predicate InodeBit(geo: Layout, d: Disk, g: nat, i: nat) {
    g < geo.groupsCount && i < geo.inodesPerGroup && geo.inodeBitmap[g] < |d| && BitAt(d[geo.inodeBitmap[g]], i)
  }

  /** The inode's bit is set. */
  ghost predicate InUse(geo: Layout, d: Disk, n: nat) {
    exists g: nat, i: nat | InodeBit(geo, d, g, i) :: n == g * geo.inodesPerGroup + i + 1
  }

  lemma InodeNumberInjective(geo: Layout, g: nat, i: nat, h: nat, j: nat)
    requires geo.TablesFit() && i < geo.inodesPerGroup && j < geo.inodesPerGroup
    requires g * geo.inodesPerGroup + i + 1 == h * geo.inodesPerGroup + j + 1
    ensures g == h && i == j
  {
    DivModUnique(geo.inodesPerGroup, g, i, g * geo.inodesPerGroup + i);
    DivModUnique(geo.inodesPerGroup, h, j, g * geo.inodesPerGroup + i);
  }

  lemma Product(k: nat, g: nat, i: nat, n: nat)
    requires g < n && i < k
    ensures g * k + i + 1 <= n * k
  {
    MulStep(n - g, k);
    assert (n - g) * k == n * k - g * k;
  }

  lemma MarkedBit(geo: Layout, d: Disk, d': Disk, g: nat, i: nat, h: nat, j: nat)
    requires InodeMarked(geo, d, d', g, i)
    ensures InodeBit(geo, d', h, j) <==> InodeBit(geo, d, h, j) || (h == g && j == i)
  {
    if h < geo.groupsCount && h != g {
      assert geo.BitmapsApart(h, g) && geo.BitmapsUsable(h);
      assert d'[geo.inodeBitmap[h]] == d[geo.inodeBitmap[h]];
    }
  }

  /** The inode handed out was not in use, and is the only one whose use changes. */
  lemma MarkedUse(geo: Layout, d: Disk, d': Disk, g: nat, i: nat, n: nat, m: nat)
    requires geo.TablesFit() && InodeMarked(geo, d, d', g, i) && n == g * geo.inodesPerGroup + i + 1
    ensures !InUse(geo, d, n) && (InUse(geo, d', m) <==> InUse(geo, d, m) || m == n)
  {
    forall h: nat, j: nat | InodeBit(geo, d, h, j) ensures n != h * geo.inodesPerGroup + j + 1 {
      if n == h * geo.inodesPerGroup + j + 1 {
        InodeNumberInjective(geo, g, i, h, j);
        assert false;
      }
    }
    forall h: nat, j: nat ensures InodeBit(geo, d', h, j) <==> InodeBit(geo, d, h, j) || (h == g && j == i) {
      MarkedBit(geo, d, d', g, i, h, j);
    }
    assert InodeBit(geo, d', g, i);
  }

  /** Consecutive allocations of inodes: step `k` marks bit `at[k].1` of group `at[k].0`. */
  ghost predicate InodeRun(geo: Layout, ds: seq<Disk>, at: seq<(nat, nat)>) {
    && geo.TablesFit() && |ds| == |at| + 1
    && forall k | 0 <= k < |at| :: InodeMarked(geo, ds[k], ds[k + 1], at[k].0, at[k].1)
  }

  ghost function NumberAt(geo: Layout, at: (nat, nat)): nat {
    at.0 * geo.inodesPerGroup + at.1 + 1
  }

  lemma {:induction false} UseStays(geo: Layout, ds: seq<Disk>, at: seq<(nat, nat)>, j: nat, k: nat, n: nat)
    requires InodeRun(geo, ds, at) && j <= k <= |at| && InUse(geo, ds[j], n)
    ensures InUse(geo, ds[k], n)
    decreases k
  {
    if j < k {
      UseStays(geo, ds, at, j, k - 1, n);
      MarkedUse(geo, ds[k - 1], ds[k], at[k - 1].0, at[k - 1].1, NumberAt(geo, at[k - 1]), n);
    }
  }

  /** No run of allocations hands out the same inode twice, and every inode handed out was free before. */
  lemma InodesDistinct(geo: Layout, ds: seq<Disk>, at: seq<(nat, nat)>, j: nat, k: nat)
    requires InodeRun(geo, ds, at) && j < k < |at|
    ensures NumberAt(geo, at[j]) != NumberAt(geo, at[k]) && !InUse(geo, ds[0], NumberAt(geo, at[k]))
  {
    var m, n := NumberAt(geo, at[j]), NumberAt(geo, at[k]);
    MarkedUse(geo, ds[j], ds[j + 1], at[j].0, at[j].1, m, m);
    UseStays(geo, ds, at, j + 1, k, m);
    MarkedUse(geo, ds[k], ds[k + 1], at[k].0, at[k].1, n, n);
    if InUse(geo, ds[0], n) {
      UseStays(geo, ds, at, 0, k, n);
      assert false;
    }
  }

  /** Allocation of an inode succeeds exactly when some inode bitmap shows a free one. */
  method AllocateInode(geo: Layout, d: Disk, c: Counts)
    returns (n: nat, d': Disk, c': Counts, ghost g: nat, ghost i: nat)
    requires geo.TablesFit() && geo.OnDisk(d) && InodesConserved(geo, d, c)
    ensures n == 0 ==> d' == d && c' == c && c.total == 0
    ensures n != 0 ==> InodeMarked(geo, d, d', g, i) && n == g * geo.inodesPerGroup + i + 1 <= geo.inodesCount
    ensures n != 0 ==> (forall h | 0 <= h < g :: c.free[h] <= 0) && forall j: nat | j < i :: InodeBit(geo, d, g, j)
    ensures n != 0 ==> c'.total == c.total - 1 >= 0
    ensures InodesConserved(geo, d', c')
  {
    var group := 0;
    while group < geo.groupsCount && c.free[group] <= 0
      invariant group <= geo.groupsCount && forall h | 0 <= h < group :: c.free[h] <= 0
    {
      group := group + 1;
    }
    n, d', c', g, i := 0, d, c, group, 0;
    if group == geo.groupsCount {
      SumZero(c.free);
    } else {
      assert geo.BitmapsUsable(group);
      var addr := geo.inodeBitmap[group];
      var bit := FirstClear(d[addr], geo.inodesPerGroup);
      CountedHasInode(geo, d, c, group, bit);
      d' := d[addr := MarkBit(d[addr], bit)];
      d' := PersistCounters(geo, d');
      InodeConserves(geo, d, d', group, bit, c);
      InodeNumber(geo, group, bit);
      SumPositive(c.free, group);
      c' := Counts(c.free[group := c.free[group] - 1], c.total - 1);
      n, i := group * geo.inodesPerGroup + bit + 1, bit;
    }
  }

  /** Writes that keep the inode bitmaps keep which inodes are in use, and the counts. */
  lemma UseKept(geo: Layout, d: Disk, d': Disk, m: nat)
    requires SameInodeBitmaps(geo, d, d')
    ensures InUse(geo, d', m) <==> InUse(geo, d, m)
  {
    assert forall g: nat, i: nat :: InodeBit(geo, d', g, i) <==> InodeBit(geo, d, g, i);
  }

  lemma CountsKept(geo: Layout, d: Disk, d': Disk, c: Counts)
    requires InodesConserved(geo, d, c) && SameInodeBitmaps(geo, d, d')
    ensures InodesConserved(geo, d', c)
  {
    assert forall g | 0 <= g < geo.groupsCount :: ClearInodes(geo, d', g) == ClearInodes(geo, d, g);
  }

  // ---- creating an empty file ----

  const NOW: u32 := 1000000

  /** A new inode: mode, the three times and the link count; no size, no blocks. */
  ghost predicate EmptyInode(r: Raw, mode: u32, links: nat) {
    && GetU32(r, 0) == mode && GetU32(r, SIZE_OFFSET) == 0
    && GetU32(r, 8) == GetU32(r, 12) == GetU32(r, 16) == 1000000
    && GetU32(r, 20) == 0 && GetU32(r, 24) == 0x1_0000 * links && GetU32(r, BLOCKS_OFFSET) == 0
    && forall k: nat | k <= DIND :: GetU32(r, PTR_OFFSET + 4 * k) == 0
  }

  /** memset to zero, then mode, link count and times. */
  function FreshInode(mode: u32, links: nat): (r: Raw)
    requires links < 0x1_0000
    ensures EmptyInode(r, mode, links)
  {
    var r0 := SetU32(Zeros(128), 0, mode);
    var r1 := SetU32(SetU32(SetU32(r0, 8, NOW), 12, NOW), 16, NOW);
    SetU32(r1, 24, 0x1_0000 * links)
  }

  /** An inode without pointers has no slot and no block. */
  lemma {:induction false} NoPointers(geo: Layout, d: Disk, raw: Raw, x: Node)
    requires forall k: nat | k <= DIND :: GetU32(raw, PTR_OFFSET + 4 * k) == 0
    requires ValidNode(geo, x)
    ensures Addr(geo, d, raw, x) == 0
  {
    if x.Child? {
      NoPointers(geo, d, raw, x.parent);
    }
  }

  lemma FreshView(geo: Layout, d: Disk, t: Table, owner: Owner, n: nat, raw: Raw)
    requires View(geo, d, t, owner) && n in t
    requires forall k: nat | k <= DIND :: GetU32(raw, PTR_OFFSET + 4 * k) == 0
    ensures View(geo, d, t[n := raw], owner)
  {
    forall m, x | m in t && ValidNode(geo, x)
      ensures m == n ==> Addr(geo, d, t[n := raw][m], x) == 0
    {
      NoPointers(geo, d, raw, x);
    }
  }

  lemma MarkedFrame(geo: Layout, d: Disk, d': Disk, g: nat, i: nat)
    requires InodeMarked(geo, d, d', g, i)
    ensures SameBitmaps(geo, d, d') && SameTableBlocks(geo, d, d')
  {
    forall h: nat | h < geo.groupsCount
      ensures geo.blockBitmap[h] != geo.inodeBitmap[g] && !geo.Reserved(geo.blockBitmap[h])
    {
      assert geo.BitmapsApart(h, g) && geo.BitmapsUsable(h);
    }
    forall a: nat | geo.IsTable(a) ensures a != geo.inodeBitmap[g] && !geo.Reserved(a) {
      TableOnly(geo, a);
    }
  }

  /** Marking an inode changes neither the block map nor the inodes. */
  lemma MarkedMounted(geo: Layout, s: State, owner: Owner, s1: State, g: nat, i: nat)
    requires Mounted(geo, s, owner) && InodeMarked(geo, s.disk, s1.disk, g, i) && s1 == s.(disk := s1.disk)
    ensures geo.OnDisk(s1.disk) && InodeTable(geo, s1.disk) == InodeTable(geo, s.disk)
    ensures Good(geo, s1, owner, InodeTable(geo, s.disk))
    ensures SameFiles(geo, s.disk, InodeTable(geo, s.disk), s1.disk, InodeTable(geo, s.disk))
  {
    assert geo.inodeBitmap[g] in geo.inodeBitmap;
    MarkedFrame(geo, s.disk, s1.disk, g, i);
    MetaWriteView(geo, s.disk, InodeTable(geo, s.disk), owner, s1.disk);
    TableKept(geo, s.disk, s1.disk);
    BitmapsConserve(geo, s.disk, s1.disk, s.free, s.total);
  }

  lemma OtherSame(geo: Layout, d: Disk, d1: Disk, d': Disk, t: Table, n: nat, raw: Raw, m: nat)
    requires geo.TablesFit() && geo.OnDisk(d) && geo.OnDisk(d') && 1 <= m <= geo.inodesCount && m != n
    requires InodeTable(geo, d) == t && InodeTable(geo, d') == t[n := raw]
    requires SameFiles(geo, d, t, d1, t) && SameFiles(geo, d1, t[n := raw], d', t[n := raw])
    ensures SameFile(geo, d, d', m)
  {
    TableEntry(geo, d, t, m);
    TableEntry(geo, d', t[n := raw], m);
    forall lb: nat
      ensures FileBlock(geo, d', t[m], lb) == FileBlock(geo, d, t[m], lb)
    {
      assert FileBlock(geo, d', t[n := raw][m], lb) == FileBlock(geo, d1, t[n := raw][m], lb);
    }
  }

  /** Marking, then storing a fresh inode: a new empty file, and no other file changes. */
  lemma Created(geo: Layout, s: State, owner: Owner, s1: State, s': State, g: nat, i: nat, n: nat, raw: Raw)
    requires Mounted(geo, s, owner) && InodeMarked(geo, s.disk, s1.disk, g, i) && s1 == s.(disk := s1.disk)
    requires 1 <= n <= geo.inodesCount && forall k: nat | k <= DIND :: GetU32(raw, PTR_OFFSET + 4 * k) == 0
    requires s' == s1.(disk := InodeStored(geo, s1.disk, n, raw))
    ensures Mounted(geo, s', owner) && OnlyChanged(geo, s.disk, s'.disk, n)
    ensures InodeAt(geo, s'.disk, n) == raw
  {
    var t := InodeTable(geo, s.disk);
    MarkedMounted(geo, s, owner, s1, g, i);
    FreshView(geo, s1.disk, t, owner, n, raw);
    InodeWrittenBack(geo, s1, t, owner, n, raw, raw, s');
    TableEntry(geo, s'.disk, t[n := raw], n);
    forall m: nat | 1 <= m <= geo.inodesCount && m != n
      ensures SameFile(geo, s.disk, s'.disk, m)
    {
      OtherSame(geo, s.disk, s1.disk, s'.disk, t, n, raw, m);
    }
  }

  /** The inode counts, and which inodes are in use, after marking and storing. */
  lemma CreatedUse(geo: Layout, d: Disk, d1: Disk, d': Disk, g: nat, i: nat, n: nat, raw: Raw, c: Counts)
    requires geo.TablesFit() && InodeMarked(geo, d, d1, g, i) && 1 <= n <= geo.inodesCount
    requires d' == InodeStored(geo, d1, n, raw) && InodesConserved(geo, d1, c)
    requires n == g * geo.inodesPerGroup + i + 1
    ensures InodesConserved(geo, d', c) && !InUse(geo, d, n)
    ensures forall m: nat :: InUse(geo, d', m) <==> InUse(geo, d, m) || m == n
  {
    TableBitmaps(geo, d1, geo.TableBlock(n), Splice(d1[geo.TableBlock(n)], geo.Within(n), raw));
    CountsKept(geo, d1, d', c);
    MarkedUse(geo, d, d1, g, i, n, n);
    forall m: nat ensures InUse(geo, d', m) <==> InUse(geo, d, m) || m == n {
      MarkedUse(geo, d, d1, g, i, n, m);
      UseKept(geo, d1, d', m);
    }
  }

  /** The file-system part of ext2_create_file: a free inode, made an empty file. */
  method CreateInode(geo: Layout, s: State, c: Counts, mode: u32, links: nat, ghost owner: Owner)
    returns (n: nat, s': State, c': Counts)
    requires Mounted(geo, s, owner) && InodesConserved(geo, s.disk, c) && links < 0x1_0000
    ensures Mounted(geo, s', owner) && InodesConserved(geo, s'.disk, c')
    ensures n == 0 ==> s' == s && c' == c && c.total == 0
    ensures n != 0 ==> OnlyChanged(geo, s.disk, s'.disk, n) && EmptyInode(InodeAt(geo, s'.disk, n), mode, links)
    ensures n != 0 ==> c'.total == c.total - 1 && !InUse(geo, s.disk, n)
    ensures n != 0 ==> forall m: nat :: InUse(geo, s'.disk, m) <==> InUse(geo, s.disk, m) || m == n
  {
    var d1;
    ghost var g, i;
    n, d1, c', g, i := AllocateInode(geo, s.disk, c);
    s' := s;
    if n != 0 {
      var raw := FreshInode(mode, links);
      var ok, d := WriteInode(geo, d1, n, raw);
      s' := s.(disk := d);
      Created(geo, s, owner, s.(disk := d1), s', g, i, n, raw);
      CreatedUse(geo, s.disk, d1, d, g, i, n, raw, c');
    }
  }
}
