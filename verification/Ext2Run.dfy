/**
 Runs of the file system, one store at a time. A configuration holds the mounted state and the copies of inodes that
 the operations work on in memory; a step is one thing the code does to either. The ownership invariant is assumed of
 the first configuration only.
 */
module Ext2Run {
  import opened Common
  import opened Bytes
  import opened Ext2Layout
  import opened Ext2BlockMap
  import opened Ext2
  import opened Ext2File
  import opened Ext2Fs
  import opened Ext2Inode

  /** The mounted state, and every inode as the operation at work has it in memory. */
  datatype Config = Config(s: State, core: Table)

  datatype Step =
    | Fill(n: nat, slot: Node, group: nat, bit: nat) // allocate a block and store its number in an empty slot
    | Data(n: nat, lb: nat, block: Block)            // write a block of a file or of a directory
    | Fields(n: nat, raw: Raw)                       // change the inode in memory, but no pointer
    | Fresh(n: nat, raw: Raw)                        // start an inode without blocks
    | Store(n: nat)                                  // write the inode back to its table
    | Load(n: nat)                                   // read the inode from its table
    | Mark(group: nat, bit: nat)                     // mark an inode as used

  ghost predicate Filled(geo: Layout, c: Config, c': Config, n: nat, x: Node, g: nat, i: nat, d1: Disk) {
    && n in c.core && Allocated(geo, c.s.disk, d1, g, i) && g < |c.s.free| && geo.BlockNo(g, i) < 0x1_0000_0000
    && CanLink(geo, c.s.disk, c.core[n], x) && CanLink(geo, d1, c.core[n], x)
    && var r := Linked(geo, d1, c.core[n], x, geo.BlockNo(g, i));
       c' == Config(State(r.0, c.s.free[g := c.s.free[g] - 1], c.s.total - 1), c.core[n := r.1])
  }

  ghost predicate Next(geo: Layout, c: Config, c': Config, step: Step) {
    && geo.TablesFit() && geo.OnDisk(c.s.disk)
    && match step
       case Fill(n, x, g, i) => exists d1: Disk :: Filled(geo, c, c', n, x, g, i, d1)
       case Data(n, lb, b) =>
         && n in c.core && |b| == geo.blockSize && FileBlock(geo, c.s.disk, c.core[n], lb).Some?
         && c' == c.(s := c.s.(disk := DataWritten(geo, c.s.disk, c.core[n], lb, b)))
       case Fields(n, raw) =>
         && n in c.core && (forall i | PTR_OFFSET <= i < 128 :: raw[i] == c.core[n][i])
         && c' == c.(core := c.core[n := raw])
       case Fresh(n, raw) =>
         && n in c.core && (forall k: nat | k <= DIND :: GetU32(raw, PTR_OFFSET + 4 * k) == 0)
         && c' == c.(core := c.core[n := raw])
       case Store(n) =>
         && 1 <= n <= geo.inodesCount && n in c.core
         && c' == c.(s := c.s.(disk := InodeStored(geo, c.s.disk, n, c.core[n])))
       case Load(n) =>
         && 1 <= n <= geo.inodesCount && c' == c.(core := c.core[n := InodeAt(geo, c.s.disk, n)])
       case Mark(g, i) => InodeMarked(geo, c.s.disk, c'.s.disk, g, i) && c' == c.(s := c.s.(disk := c'.s.disk))
  }

  ghost predicate IsRun(geo: Layout, cs: seq<Config>, steps: seq<Step>) {
    |cs| == |steps| + 1 && forall i | 0 <= i < |steps| :: Next(geo, cs[i], cs[i + 1], steps[i])
  }

  /** The invariant: of the inodes on disk and of those in memory, under one assignment of blocks to owners. */
  ghost predicate Sound(geo: Layout, c: Config, owner: Owner) {
    Mounted(geo, c.s, owner) && Good(geo, c.s, owner, c.core)
  }

  /** A mounted file system with no operation at work. */
  ghost predicate AtRest(geo: Layout, c: Config, owner: Owner) {
    Mounted(geo, c.s, owner) && c.core == InodeTable(geo, c.s.disk)
  }

  // ---- two tables under one owner map ----

  /** Copying one inode from a table to the other keeps the invariant. */
  lemma CopyView(geo: Layout, d: Disk, t: Table, u: Table, owner: Owner, n: nat)
    requires View(geo, d, t, owner) && View(geo, d, u, owner) && n in t
    ensures n in u && View(geo, d, t[n := u[n]], owner)
  {
    assert n in u;
    forall m, x | m in t && ValidNode(geo, x) && Addr(geo, d, t[n := u[n]][m], x) != 0
      ensures var a := Addr(geo, d, t[n := u[n]][m], x); a in owner && owner[a].ino == m && owner[a].node == x
    {
      if m == n {
        OwnedBy(geo, d, u, owner, n, x);
      } else {
        OwnedBy(geo, d, t, owner, m, x);
      }
    }
  }

  /** An owner for one more marked block. */
  lemma OneMoreOwner(geo: Layout, d: Disk, t: Table, owner: Owner, f: nat, o: Own)
    requires View(geo, d, t, owner) && f !in owner && 0 < f < |d| && !geo.IsMeta(f)
    requires geo.MarkedAt(d, f, o.group, o.bit)
    ensures View(geo, d, t, owner[f := o])
  {
    assert OwnersMarked(geo, d, owner[f := o]);
    forall m, x | m in t && ValidNode(geo, x) && Addr(geo, d, t[m], x) != 0
      ensures var a := Addr(geo, d, t[m], x);
        a in owner[f := o] && owner[f := o][a].ino == m && owner[f := o][a].node == x
    {
      OwnedBy(geo, d, t, owner, m, x);
    }
  }

  /** Rewriting a block that this table does not reach changes no slot. */
  lemma {:induction false} UnreachedAddr(geo: Layout, d: Disk, t: Table, owner: Owner, a: nat, b: Block, m: nat,
                                         y: Node)
    requires Owned(geo, d, t, owner) && a in owner && 0 < a < |d| && m in t && ValidNode(geo, y)
    requires ValidNode(geo, owner[a].node) && owner[a].ino in t && Addr(geo, d, t[owner[a].ino], owner[a].node) != a
    ensures Addr(geo, d, t[m], y) != a && Addr(geo, d[a := b], t[m], y) == Addr(geo, d, t[m], y)
  {
    if Addr(geo, d, t[m], y) == a {
      OwnedBy(geo, d, t, owner, m, y);
      assert false;
    }
    if y.Child? {
      UnreachedAddr(geo, d, t, owner, a, b, m, y.parent);
    }
  }

  lemma UnreachedFile(geo: Layout, d: Disk, t: Table, owner: Owner, a: nat, b: Block, m: nat, lb: nat)
    requires Owned(geo, d, t, owner) && a in owner && 0 < a < |d| && m in t
    requires ValidNode(geo, owner[a].node) && owner[a].ino in t && Addr(geo, d, t[owner[a].ino], owner[a].node) != a
    ensures FileBlock(geo, d[a := b], t[m], lb) == FileBlock(geo, d, t[m], lb)
  {
    if LeafNode(geo, lb).Some? {
      UnreachedAddr(geo, d, t, owner, a, b, m, LeafNode(geo, lb).value);
    }
  }

  lemma UnreachedView(geo: Layout, d: Disk, t: Table, owner: Owner, a: nat, b: Block)
    requires View(geo, d, t, owner) && a in owner && |b| == geo.blockSize
    requires ValidNode(geo, owner[a].node) && owner[a].ino in t && Addr(geo, d, t[owner[a].ino], owner[a].node) != a
    ensures View(geo, d[a := b], t, owner)
  {
    assert 0 < a < |d| && !geo.IsMeta(a);
    MetaKept(geo, d, d[a := b], owner);
    forall m, y | m in t && ValidNode(geo, y)
      ensures Addr(geo, d[a := b], t[m], y) == Addr(geo, d, t[m], y)
    {
      UnreachedAddr(geo, d, t, owner, a, b, m, y);
    }
  }

  // ---- a slot filled through the copy in memory, as the table on disk sees it ----

  /** The store in an index block, seen by a table `t` whose inode `n` may or may not reach that block. */
  lemma LinkSeen(geo: Layout, d: Disk, core: Table, t: Table, owner: Owner, n: nat, x: Node, f: u32, g: nat, i: nat)
    requires View(geo, d, core, owner) && View(geo, d, t, owner) && n in core && CanLink(geo, d, core[n], x)
    requires FreshZero(geo, d, owner, f) && geo.MarkedAt(d, f, g, i) && !geo.IsMeta(f)
    ensures View(geo, Linked(geo, d, core[n], x, f).0, t, owner[f := Own(n, x, g, i)])
  {
    assert n in t;
    if x.Child? {
      OwnedBy(geo, d, core, owner, n, x.parent);
      if Addr(geo, d, t[n], x.parent) == Addr(geo, d, core[n], x.parent) {
        LinkedView(geo, d, t, owner, n, x, f, g, i);
        assert t[n := t[n]] == t;
      } else {
        LinkUnseen(geo, d, t, owner, n, x, Addr(geo, d, core[n], x.parent), f, g, i);
      }
    } else {
      OneMoreOwner(geo, d, t, owner, f, Own(n, x, g, i));
    }
  }

  /** The store in an index block that this table does not reach. */
  lemma LinkUnseen(geo: Layout, d: Disk, t: Table, owner: Owner, n: nat, x: Node, a: u32, f: u32, g: nat, i: nat)
    requires View(geo, d, t, owner) && n in t && x.Child? && ValidNode(geo, x)
    requires a in owner && owner[a].ino == n && owner[a].node == x.parent && Addr(geo, d, t[n], x.parent) != a
    requires a < |d|
    requires FreshZero(geo, d, owner, f) && geo.MarkedAt(d, f, g, i) && !geo.IsMeta(f)
    ensures View(geo, d[a := SetU32(d[a], 4 * x.slot, f)], t, owner[f := Own(n, x, g, i)])
  {
    var o := Own(n, x, g, i);
    OneMoreOwner(geo, d, t, owner, f, o);
    UnreachedView(geo, d, t, owner[f := o], a, SetU32(d[a], 4 * x.slot, f));
  }

  lemma LinkSeenFile(geo: Layout, d: Disk, core: Table, t: Table, owner: Owner, n: nat, x: Node, f: u32, m: nat,
                     lb: nat)
    requires View(geo, d, core, owner) && View(geo, d, t, owner) && n in core && CanLink(geo, d, core[n], x)
    requires FreshZero(geo, d, owner, f) && m in t && m != n
    ensures FileBlock(geo, Linked(geo, d, core[n], x, f).0, t[m], lb) == FileBlock(geo, d, t[m], lb)
  {
    assert n in t;
    if x.Child? {
      var a := Addr(geo, d, core[n], x.parent);
      OwnedBy(geo, d, core, owner, n, x.parent);
      if Addr(geo, d, t[n], x.parent) == a {
        LinkedFile(geo, d, t, owner, n, x, f, m, lb);
      } else {
        UnreachedFile(geo, d, t, owner, a, SetU32(d[a], 4 * x.slot, f), m, lb);
      }
    }
  }

  // ---- every step keeps the invariant ----

  /** The filled slot under both tables: the one it was filled through, and another. */
  lemma FillBoth(geo: Layout, d: Disk, d1: Disk, d': Disk, core: Table, t: Table, owner: Owner, n: nat, x: Node,
                 g: nat, i: nat, core': Table)
    returns (owner': Owner)
    requires View(geo, d, core, owner) && View(geo, d, t, owner) && n in core && CanLink(geo, d, core[n], x)
    requires Allocated(geo, d, d1, g, i) && CanLink(geo, d1, core[n], x) && geo.BlockNo(g, i) < 0x1_0000_0000
    requires var r := Linked(geo, d1, core[n], x, geo.BlockNo(g, i)); d' == r.0 && core' == core[n := r.1]
    ensures View(geo, d', core', owner') && View(geo, d', t, owner')
    ensures SameBitmaps(geo, d1, d') && SameTables(geo, d, d')
  {
    var d2, core2;
    d2, core2, owner' := FillSlot(geo, d, d1, core, owner, n, x, g, i);
    assert d2 == d' && core2 == core';
    assert View(geo, d', t, owner') by {
      FillReady(geo, d, d1, core, owner, n, x, g, i);
      Allocation(geo, d, d1, t, owner, g, i);
      LinkSeen(geo, d1, core, t, owner, n, x, geo.BlockNo(g, i), g, i);
    }
  }

  lemma FillKeeps(geo: Layout, c: Config, c': Config, owner: Owner, n: nat, x: Node, g: nat, i: nat, d1: Disk)
    returns (owner': Owner)
    requires Sound(geo, c, owner) && Filled(geo, c, c', n, x, g, i, d1)
    ensures Sound(geo, c', owner') && SameTables(geo, c.s.disk, c'.s.disk)
  {
    var d, d' := c.s.disk, c'.s.disk;
    owner' := FillBoth(geo, d, d1, d', c.core, InodeTable(geo, d), owner, n, x, g, i, c'.core);
    FillCounted(geo, d, d1, d', g, i, c.s.free, c.s.total, c'.s.free, c'.s.total);
    FillSound(geo, d, c', owner');
  }

  lemma FillSound(geo: Layout, d: Disk, c': Config, owner': Owner)
    requires geo.TablesFit() && geo.OnDisk(d) && SameTables(geo, d, c'.s.disk)
    requires View(geo, c'.s.disk, c'.core, owner') && View(geo, c'.s.disk, InodeTable(geo, d), owner')
    requires Conserved(geo, c'.s.disk, c'.s.free, c'.s.total)
    ensures Sound(geo, c', owner')
  {
    TableKept(geo, d, c'.s.disk);
  }

  lemma FillCounted(geo: Layout, d: Disk, d1: Disk, d': Disk, g: nat, i: nat, free: seq<int>, total: int,
                    free': seq<int>, total': int)
    requires ClearIsFree(geo, d) && Allocated(geo, d, d1, g, i) && Conserved(geo, d, free, total)
    requires SameBitmaps(geo, d1, d')
    requires free' == free[g := free[g] - 1] && total' == total - 1
    ensures Conserved(geo, d', free', total')
  {
    AllocationConserves(geo, d, d1, g, i, free, total);
    BitmapsConserve(geo, d1, d', free', total');
  }

  lemma FillElsewhere(geo: Layout, c: Config, c': Config, owner: Owner, n: nat, x: Node, g: nat, i: nat, d1: Disk,
                      m: nat, lb: nat)
    requires Sound(geo, c, owner) && Filled(geo, c, c', n, x, g, i, d1) && 1 <= m <= geo.inodesCount && m != n
    ensures FileBlock(geo, c'.s.disk, InodeAt(geo, c.s.disk, m), lb)
      == FileBlock(geo, c.s.disk, InodeAt(geo, c.s.disk, m), lb)
  {
    var d, t := c.s.disk, InodeTable(geo, c.s.disk);
    FillReady(geo, d, d1, c.core, owner, n, x, g, i);
    Allocation(geo, d, d1, t, owner, g, i);
    TableEntry(geo, d, t, m);
    LinkSeenFile(geo, d1, c.core, t, owner, n, x, geo.BlockNo(g, i), m, lb);
  }

  lemma DataKeeps(geo: Layout, c: Config, c': Config, owner: Owner, n: nat, lb: nat, b: Block)
    requires Sound(geo, c, owner) && Next(geo, c, c', Data(n, lb, b))
    ensures Sound(geo, c', owner) && SameTables(geo, c.s.disk, c'.s.disk)
  {
    var d, d' := c.s.disk, c'.s.disk;
    DataWrittenView(geo, d, c.core, owner, n, lb, b);
    DataWrittenMeta(geo, d, c.core, owner, n, lb, b);
    OwnedBy(geo, d, c.core, owner, n, LeafNode(geo, lb).value);
    SameAddrs(geo, d, d', InodeTable(geo, d), owner);
    TableKept(geo, d, d');
    BitmapsConserve(geo, d, d', c.s.free, c.s.total);
  }

  lemma DataElsewhere(geo: Layout, c: Config, c': Config, owner: Owner, n: nat, lb: nat, b: Block, m: nat, l: nat)
    requires Sound(geo, c, owner) && Next(geo, c, c', Data(n, lb, b)) && 1 <= m <= geo.inodesCount && m != n
    ensures FileBlock(geo, c'.s.disk, InodeAt(geo, c.s.disk, m), l)
      == FileBlock(geo, c.s.disk, InodeAt(geo, c.s.disk, m), l)
  {
    var t := InodeTable(geo, c.s.disk);
    OwnedBy(geo, c.s.disk, c.core, owner, n, LeafNode(geo, lb).value);
    TableEntry(geo, c.s.disk, t, m);
    FileFrame(geo, c.s.disk, c'.s.disk, t, owner, m, l);
  }

  lemma MemoryKeeps(geo: Layout, c: Config, c': Config, owner: Owner, step: Step)
    requires Sound(geo, c, owner) && Next(geo, c, c', step) && (step.Fields? || step.Fresh? || step.Load?)
    ensures Sound(geo, c', owner) && c'.s == c.s
  {
    match step
    case Fields(n, raw) =>
      assert c.core[n := c.core[n]] == c.core;
      StampedView(geo, c.s.disk, c.core, owner, n, c.core[n], raw);
    case Fresh(n, raw) => FreshView(geo, c.s.disk, c.core, owner, n, raw);
    case Load(n) => CopyView(geo, c.s.disk, c.core, InodeTable(geo, c.s.disk), owner, n);
  }

  lemma StoreKeeps(geo: Layout, c: Config, c': Config, owner: Owner, n: nat)
    requires Sound(geo, c, owner) && Next(geo, c, c', Store(n))
    ensures Sound(geo, c', owner) && InodeTable(geo, c'.s.disk) == InodeTable(geo, c.s.disk)[n := c.core[n]]
    ensures SameFiles(geo, c.s.disk, InodeTable(geo, c.s.disk), c'.s.disk, InodeTable(geo, c.s.disk))
  {
    var d, d', t := c.s.disk, c'.s.disk, InodeTable(geo, c.s.disk);
    var a := geo.TableBlock(n);
    TableBitmaps(geo, d, a, Splice(d[a], geo.Within(n), c.core[n]));
    MetaWriteView(geo, d, t, owner, d');
    MetaWriteView(geo, d, c.core, owner, d');
    CopyView(geo, d', t, c.core, owner, n);
    InodeStoredTable(geo, d, n, c.core[n]);
    BitmapsConserve(geo, d, d', c.s.free, c.s.total);
  }

  lemma MarkKeeps(geo: Layout, c: Config, c': Config, owner: Owner, g: nat, i: nat)
    requires Sound(geo, c, owner) && Next(geo, c, c', Mark(g, i))
    ensures Sound(geo, c', owner) && InodeTable(geo, c'.s.disk) == InodeTable(geo, c.s.disk)
    ensures SameFiles(geo, c.s.disk, InodeTable(geo, c.s.disk), c'.s.disk, InodeTable(geo, c.s.disk))
  {
    MarkedMounted(geo, c.s, owner, c'.s, g, i);
    MarkedFrame(geo, c.s.disk, c'.s.disk, g, i);
    MetaWriteView(geo, c.s.disk, c.core, owner, c'.s.disk);
  }

  lemma StepKeeps(geo: Layout, c: Config, c': Config, owner: Owner, step: Step) returns (owner': Owner)
    requires Sound(geo, c, owner) && Next(geo, c, c', step)
    ensures Sound(geo, c', owner')
  {
    owner' := owner;
    match step
    case Fill(n, x, g, i) =>
      var d1: Disk :| Filled(geo, c, c', n, x, g, i, d1);
      owner' := FillKeeps(geo, c, c', owner, n, x, g, i, d1);
    case Data(n, lb, b) => DataKeeps(geo, c, c', owner, n, lb, b);
    case Store(n) => StoreKeeps(geo, c, c', owner, n);
    case Mark(g, i) => MarkKeeps(geo, c, c', owner, g, i);
    case _ => MemoryKeeps(geo, c, c', owner, step);
  }

  // ---- a step changes only the file it is about ----

  predicate Touches(step: Step, m: nat) {
    !step.Mark? && step.n == m
  }

  lemma FillSame(geo: Layout, c: Config, c': Config, owner: Owner, step: Step, m: nat)
    requires Sound(geo, c, owner) && Next(geo, c, c', step) && step.Fill? && 1 <= m <= geo.inodesCount && m != step.n
    ensures geo.OnDisk(c'.s.disk) && SameFile(geo, c.s.disk, c'.s.disk, m)
  {
    var d1: Disk :| Filled(geo, c, c', step.n, step.slot, step.group, step.bit, d1);
    var owner' := FillKeeps(geo, c, c', owner, step.n, step.slot, step.group, step.bit, d1);
    TableKept(geo, c.s.disk, c'.s.disk);
    TableEntry(geo, c.s.disk, InodeTable(geo, c.s.disk), m);
    TableEntry(geo, c'.s.disk, InodeTable(geo, c.s.disk), m);
    forall lb: nat
      ensures FileBlock(geo, c'.s.disk, InodeAt(geo, c.s.disk, m), lb)
        == FileBlock(geo, c.s.disk, InodeAt(geo, c.s.disk, m), lb)
    {
      FillElsewhere(geo, c, c', owner, step.n, step.slot, step.group, step.bit, d1, m, lb);
    }
  }

  lemma DataSame(geo: Layout, c: Config, c': Config, owner: Owner, step: Step, m: nat)
    requires Sound(geo, c, owner) && Next(geo, c, c', step) && step.Data? && 1 <= m <= geo.inodesCount && m != step.n
    ensures geo.OnDisk(c'.s.disk) && SameFile(geo, c.s.disk, c'.s.disk, m)
  {
    DataKeeps(geo, c, c', owner, step.n, step.lb, step.block);
    TableKept(geo, c.s.disk, c'.s.disk);
    TableEntry(geo, c.s.disk, InodeTable(geo, c.s.disk), m);
    TableEntry(geo, c'.s.disk, InodeTable(geo, c.s.disk), m);
    forall lb: nat
      ensures FileBlock(geo, c'.s.disk, InodeAt(geo, c.s.disk, m), lb)
        == FileBlock(geo, c.s.disk, InodeAt(geo, c.s.disk, m), lb)
    {
      DataElsewhere(geo, c, c', owner, step.n, step.lb, step.block, m, lb);
    }
  }

  lemma MetaSame(geo: Layout, c: Config, c': Config, owner: Owner, step: Step, m: nat)
    requires Sound(geo, c, owner) && Next(geo, c, c', step) && (step.Store? || step.Mark?)
    requires 1 <= m <= geo.inodesCount && !Touches(step, m)
    ensures geo.OnDisk(c'.s.disk) && SameFile(geo, c.s.disk, c'.s.disk, m)
  {
    var t := InodeTable(geo, c.s.disk);
    if step.Store? {
      StoreKeeps(geo, c, c', owner, step.n);
    } else {
      MarkKeeps(geo, c, c', owner, step.group, step.bit);
    }
    TableEntry(geo, c.s.disk, t, m);
    TableEntry(geo, c'.s.disk, InodeTable(geo, c'.s.disk), m);
    assert InodeAt(geo, c'.s.disk, m) == t[m];
  }

  lemma StepSame(geo: Layout, c: Config, c': Config, owner: Owner, step: Step, m: nat)
    requires Sound(geo, c, owner) && Next(geo, c, c', step) && 1 <= m <= geo.inodesCount && !Touches(step, m)
    ensures geo.OnDisk(c'.s.disk) && SameFile(geo, c.s.disk, c'.s.disk, m)
  {
    match step
    case Fill(_, _, _, _) => FillSame(geo, c, c', owner, step, m);
    case Data(_, _, _) => DataSame(geo, c, c', owner, step, m);
    case Store(_) => MetaSame(geo, c, c', owner, step, m);
    case Mark(_, _) => MetaSame(geo, c, c', owner, step, m);
    case _ => MemoryKeeps(geo, c, c', owner, step);
  }

  // ---- whole runs, from a mounted file system ----

  /** Every configuration of every run is sound. */
  lemma {:induction false} RunSound(geo: Layout, cs: seq<Config>, steps: seq<Step>, owner: Owner, k: nat)
    returns (owner': Owner)
    requires IsRun(geo, cs, steps) && AtRest(geo, cs[0], owner) && k <= |steps|
    ensures Sound(geo, cs[k], owner')
  {
    owner' := owner;
    if k > 0 {
      owner' := RunSound(geo, cs, steps, owner, k - 1);
      owner' := RunStepKeeps(geo, cs, steps, owner', k - 1);
    }
  }

  lemma RunStepKeeps(geo: Layout, cs: seq<Config>, steps: seq<Step>, owner: Owner, k: nat) returns (owner': Owner)
    requires IsRun(geo, cs, steps) && k < |steps| && Sound(geo, cs[k], owner)
    ensures Sound(geo, cs[k + 1], owner')
  {
    owner' := StepKeeps(geo, cs[k], cs[k + 1], owner, steps[k]);
  }

  /** The block behind a slot of an inode, as it is on disk or as it is in memory. */
  ghost function Reached(geo: Layout, c: Config, n: nat, x: Node, memory: bool): u32
    requires geo.TablesFit() && geo.OnDisk(c.s.disk) && 1 <= n <= geo.inodesCount && n in c.core
  {
    Addr(geo, c.s.disk, if memory then c.core[n] else InodeAt(geo, c.s.disk, n), x)
  }

  lemma ReachedOwned(geo: Layout, c: Config, owner: Owner, n: nat, x: Node, memory: bool)
    requires Sound(geo, c, owner) && 1 <= n <= geo.inodesCount && n in c.core && ValidNode(geo, x)
    requires Reached(geo, c, n, x, memory) != 0
    ensures var a := Reached(geo, c, n, x, memory); a in owner && owner[a].ino == n && owner[a].node == x
  {
    if memory {
      OwnedBy(geo, c.s.disk, c.core, owner, n, x);
    } else {
      TableEntry(geo, c.s.disk, InodeTable(geo, c.s.disk), n);
      OwnedBy(geo, c.s.disk, InodeTable(geo, c.s.disk), owner, n, x);
    }
  }

  /**
   * At every point of every run the counters agree with the bitmaps and every inode, stored or not, can be looked up.
   */
  lemma RunCounted(geo: Layout, cs: seq<Config>, steps: seq<Step>, owner: Owner, k: nat, n: nat)
    requires IsRun(geo, cs, steps) && AtRest(geo, cs[0], owner) && k <= |steps|
    ensures geo.TablesFit() && geo.OnDisk(cs[k].s.disk) && Conserved(geo, cs[k].s.disk, cs[k].s.free, cs[k].s.total)
    ensures n in cs[k].core <==> 1 <= n <= geo.inodesCount
  {
    var owner' := RunSound(geo, cs, steps, owner, k);
  }

  /**
   * At every point of every run the blocks of all inodes, on disk and in memory, are disjoint: equal block numbers
   * mean the same slot of the same inode. Each block is marked and holds no metadata.
   */
  lemma RunDisjoint(geo: Layout, cs: seq<Config>, steps: seq<Step>, owner: Owner, k: nat,
                    n: nat, x: Node, memory: bool, m: nat, y: Node, memory': bool)
    requires IsRun(geo, cs, steps) && AtRest(geo, cs[0], owner) && k <= |steps|
    requires geo.OnDisk(cs[k].s.disk) && n in cs[k].core && m in cs[k].core && ValidNode(geo, x) && ValidNode(geo, y)
    requires 1 <= n <= geo.inodesCount && 1 <= m <= geo.inodesCount && Reached(geo, cs[k], n, x, memory) != 0
    ensures var a := Reached(geo, cs[k], n, x, memory);
      && (a == Reached(geo, cs[k], m, y, memory') ==> n == m && x == y)
      && a < |cs[k].s.disk| && !geo.IsMeta(a) && exists g: nat, i: nat :: geo.MarkedAt(cs[k].s.disk, a, g, i)
  {
    var owner' := RunSound(geo, cs, steps, owner, k);
    var a := Reached(geo, cs[k], n, x, memory);
    ReachedOwned(geo, cs[k], owner', n, x, memory);
    if a == Reached(geo, cs[k], m, y, memory') {
      ReachedOwned(geo, cs[k], owner', m, y, memory');
    }
    assert geo.MarkedAt(cs[k].s.disk, a, owner'[a].group, owner'[a].bit);
  }

  lemma RunStepSame(geo: Layout, cs: seq<Config>, steps: seq<Step>, owner: Owner, k: nat, m: nat)
    requires IsRun(geo, cs, steps) && AtRest(geo, cs[0], owner) && k < |steps|
    requires 1 <= m <= geo.inodesCount && !Touches(steps[k], m)
    ensures geo.OnDisk(cs[k].s.disk) && geo.OnDisk(cs[k + 1].s.disk) && geo.TablesFit()
    ensures SameFile(geo, cs[k].s.disk, cs[k + 1].s.disk, m)
  {
    var owner' := RunSound(geo, cs, steps, owner, k);
    StepSame(geo, cs[k], cs[k + 1], owner', steps[k], m);
  }

  lemma SameFileTrans(geo: Layout, d: Disk, d1: Disk, d2: Disk, m: nat)
    requires geo.TablesFit() && geo.OnDisk(d) && geo.OnDisk(d1) && geo.OnDisk(d2) && 1 <= m <= geo.inodesCount
    requires SameFile(geo, d, d1, m) && SameFile(geo, d1, d2, m)
    ensures SameFile(geo, d, d2, m)
  {
  }

  /** Step `i` leaves file `m` as it was. */
  ghost predicate StepLeaves(geo: Layout, cs: seq<Config>, m: nat, i: nat) {
    && i + 1 < |cs| && geo.TablesFit() && geo.OnDisk(cs[i].s.disk) && geo.OnDisk(cs[i + 1].s.disk)
    && 1 <= m <= geo.inodesCount && SameFile(geo, cs[i].s.disk, cs[i + 1].s.disk, m)
  }

  lemma {:induction false} StepsLeave(geo: Layout, cs: seq<Config>, k: nat, m: nat)
    requires k < |cs| && geo.TablesFit() && geo.OnDisk(cs[0].s.disk) && 1 <= m <= geo.inodesCount
    requires forall i: nat | i < k :: StepLeaves(geo, cs, m, i)
    ensures geo.OnDisk(cs[k].s.disk) && SameFile(geo, cs[0].s.disk, cs[k].s.disk, m)
  {
    if k > 0 {
      StepsLeave(geo, cs, k - 1, m);
      assert StepLeaves(geo, cs, m, k - 1);
      SameFileTrans(geo, cs[0].s.disk, cs[k - 1].s.disk, cs[k].s.disk, m);
    }
  }

  /** A file that no step was about keeps its inode, its blocks and their contents. */
  lemma RunIsolated(geo: Layout, cs: seq<Config>, steps: seq<Step>, owner: Owner, k: nat, m: nat)
    requires IsRun(geo, cs, steps) && AtRest(geo, cs[0], owner) && k <= |steps|
    requires 1 <= m <= geo.inodesCount && forall i | 0 <= i < k :: !Touches(steps[i], m)
    ensures geo.OnDisk(cs[k].s.disk) && SameFile(geo, cs[0].s.disk, cs[k].s.disk, m)
  {
    forall i: nat | i < k ensures StepLeaves(geo, cs, m, i) {
      RunStepSame(geo, cs, steps, owner, i, m);
    }
    StepsLeave(geo, cs, k, m);
  }

  /** So every read of such a file has the answer it had at the start. */
  lemma RunReadsSame(geo: Layout, cs: seq<Config>, steps: seq<Step>, owner: Owner, k: nat, m: nat,
                     length: nat, offset: nat, size: nat, r: seq<byte>)
    requires IsRun(geo, cs, steps) && AtRest(geo, cs[0], owner) && k <= |steps|
    requires 1 <= m <= geo.inodesCount && forall i | 0 <= i < k :: !Touches(steps[i], m)
    ensures geo.OnDisk(cs[k].s.disk)
    ensures ReadResult(geo, cs[0].s.disk, m, length, offset, size, r) <==>
      ReadResult(geo, cs[k].s.disk, m, length, offset, size, r)
  {
    RunIsolated(geo, cs, steps, owner, k, m);
    SameFileReads(geo, cs[0].s.disk, cs[k].s.disk, m, length, offset, size, r);
  }
}
