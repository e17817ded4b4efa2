/** Directories as finite maps: finding, creating and unlinking names on a mounted file system. */
module Ext2Names {
  import opened Common
  import opened Bytes
  import opened Ext2Layout
  import opened Ext2BlockMap
  import opened Ext2
  import opened Ext2File
  import opened Ext2Fs
  import opened Ext2DirBlock
  import opened Ext2Dir
  import opened Ext2Inode

  ghost function DirBlocks(geo: Layout, raw: Raw): nat {
    Quot(GetU32(raw, SIZE_OFFSET), geo.blockSize)
  }

  /** Inode `n` is a well-formed directory. */
  ghost predicate DirAt(geo: Layout, d: Disk, n: nat) {
    && geo.TablesFit() && geo.OnDisk(d) && 1 <= n <= geo.inodesCount
    && IsDir(geo, d, InodeAt(geo, d, n), DirBlocks(geo, InodeAt(geo, d, n)))
  }

  /** A directory that can take one more entry with a name of this length. */
  ghost predicate RoomAt(geo: Layout, d: Disk, n: nat, len: nat) {
    DirAt(geo, d, n) && CanGrow(geo, d, InodeAt(geo, d, n), DirBlocks(geo, InodeAt(geo, d, n)), len)
  }

  /** The directory's entries. */
  ghost function Names(geo: Layout, d: Disk, n: nat): seq<Entry>
    requires DirAt(geo, d, n)
  {
    DirEntries(geo, d, InodeAt(geo, d, n), DirBlocks(geo, InodeAt(geo, d, n)))
  }

  /** The directory's map from names to inodes has `name` bound to `ino` and is otherwise what it was. */
  ghost predicate Bound(geo: Layout, d: Disk, d': Disk, n: nat, name: Name, ino: Option<u32>) {
    && DirAt(geo, d, n) && DirAt(geo, d', n)
    && forall x: Name :: Lookup(Names(geo, d', n), x) == if x == name then ino else Lookup(Names(geo, d, n), x)
  }

  lemma DirHere(geo: Layout, d: Disk, n: nat, raw: Raw, nb: nat)
    requires geo.TablesFit() && geo.OnDisk(d) && 1 <= n <= geo.inodesCount && InodeAt(geo, d, n) == raw
    requires IsDir(geo, d, raw, nb)
    ensures DirAt(geo, d, n) && Names(geo, d, n) == DirEntries(geo, d, raw, nb)
  {
  }

  // ---- the map theorems ----

  /** An inserted entry binds its name, if the name was absent, and keeps names unique exactly then. */
  lemma InsertBinds(geo: Layout, d: Disk, d': Disk, n: nat, e: Entry)
    requires DirAt(geo, d, n) && DirAt(geo, d', n) && Inserted(Names(geo, d, n), Names(geo, d', n), e)
    ensures Unique(Names(geo, d', n)) <==> Unique(Names(geo, d, n)) && Lookup(Names(geo, d, n), e.name) == None
    ensures Lookup(Names(geo, d, n), e.name) == None ==> Bound(geo, d, d', n, e.name, Some(e.ino))
  {
    var es, es' := Names(geo, d, n), Names(geo, d', n);
    InsertedUnique(es, es', e);
    if Lookup(es, e.name) == None {
      forall x: Name ensures Lookup(es', x) == if x == e.name then Some(e.ino) else Lookup(es, x) {
        InsertedLookup(es, es', e, x);
      }
    }
  }

  /** With unique names, a removed entry unbinds its name and nothing else. */
  lemma RemoveUnbinds(geo: Layout, d: Disk, d': Disk, n: nat, e: Entry)
    requires DirAt(geo, d, n) && DirAt(geo, d', n) && Inserted(Names(geo, d', n), Names(geo, d, n), e)
    requires Unique(Names(geo, d, n))
    ensures Unique(Names(geo, d', n)) && Bound(geo, d, d', n, e.name, None)
  {
    var es, es' := Names(geo, d, n), Names(geo, d', n);
    RemovedLookup(es, es', e, e.name);
    forall x: Name ensures Lookup(es', x) == if x == e.name then None else Lookup(es, x) {
      RemovedLookup(es, es', e, x);
    }
  }

  // ---- other files ----

  /** A file that stayed the same is the same directory. */
  lemma SameNames(geo: Layout, d: Disk, d': Disk, n: nat)
    requires DirAt(geo, d, n) && geo.OnDisk(d') && SameFile(geo, d, d', n)
    ensures DirAt(geo, d', n) && Names(geo, d', n) == Names(geo, d, n)
  {
    SameDir(geo, d, d', InodeAt(geo, d, n), DirBlocks(geo, InodeAt(geo, d, n)));
  }

  lemma SameRoom(geo: Layout, d: Disk, d': Disk, n: nat, len: nat)
    requires RoomAt(geo, d, n, len) && geo.OnDisk(d') && SameFile(geo, d, d', n)
    ensures RoomAt(geo, d', n, len)
  {
    SameNames(geo, d, d', n);
    SameFits(geo, d, d', InodeAt(geo, d, n), DirBlocks(geo, InodeAt(geo, d, n)), len);
  }

  // ---- operations on a mounted file system ----

  method FindName(geo: Layout, s: State, n: nat, name: Name, ghost owner: Owner) returns (ino: u32)
    requires Mounted(geo, s, owner) && DirAt(geo, s.disk, n) && |name| < 256
    ensures Lookup(Names(geo, s.disk, n), name) == if ino == 0 then None else Some(ino)
  {
    var valid, raw := ReadInode(geo, s.disk, n);
    TableEntry(geo, s.disk, InodeTable(geo, s.disk), n);
    var lb, pos;
    ino, lb, pos := FindEntry(geo, s, raw, name, n, InodeTable(geo, s.disk), owner, DirBlocks(geo, raw));
  }

  /** ext2_unlink on values: only the directory changes, and there only the name's entry. */
  ghost predicate Unlinked(geo: Layout, d: Disk, d': Disk, n: nat, name: Name, ino: u32) {
    && OnlyChanged(geo, d, d', n) && SameInodeBitmaps(geo, d, d')
    && DirAt(geo, d, n) && DirAt(geo, d', n)
    && Lookup(Names(geo, d, n), name) == (if ino == 0 then None else Some(ino))
    && (ino == 0 ==> d' == d)
    && (ino != 0 ==> Inserted(Names(geo, d', n), Names(geo, d, n), Entry(name, ino)))
  }

  lemma UnlinkDone(geo: Layout, s: State, s': State, owner: Owner, t: Table, n: nat, raw: Raw, nb: nat)
    requires Mounted(geo, s, owner) && t == InodeTable(geo, s.disk) && n in t && t[n] == raw
    requires Good(geo, s', owner, t) && OthersSame(geo, s.disk, t, s'.disk, t, n) && IsDir(geo, s'.disk, raw, nb)
    ensures Mounted(geo, s', owner) && OnlyChanged(geo, s.disk, s'.disk, n) && SameInodeBitmaps(geo, s.disk, s'.disk)
    ensures InodeAt(geo, s'.disk, n) == raw == InodeAt(geo, s.disk, n)
  {
    TableKept(geo, s.disk, s'.disk);
    forall m: nat | 1 <= m <= geo.inodesCount && m != n ensures SameFile(geo, s.disk, s'.disk, m) {
      TableEntry(geo, s.disk, t, m);
      TableEntry(geo, s'.disk, t, m);
    }
    TableEntry(geo, s.disk, t, n);
    TableEntry(geo, s'.disk, t, n);
  }

  lemma UnlinkedNames(geo: Layout, s: State, s': State, owner: Owner, t: Table, n: nat, nb: nat, raw: Raw, name: Name,
                      ino: u32)
    requires Mounted(geo, s, owner) && t == InodeTable(geo, s.disk) && 1 <= n <= geo.inodesCount && n in t
    requires t[n] == raw
    requires Good(geo, s', owner, t) && OthersSame(geo, s.disk, t, s'.disk, t, n)
    requires IsDir(geo, s.disk, raw, nb) && IsDir(geo, s'.disk, raw, nb) && (ino == 0 ==> s' == s)
    requires Lookup(DirEntries(geo, s.disk, raw, nb), name) == if ino == 0 then None else Some(ino)
    requires ino != 0 ==>
      Inserted(DirEntries(geo, s'.disk, raw, nb), DirEntries(geo, s.disk, raw, nb), Entry(name, ino))
    ensures Mounted(geo, s', owner) && Unlinked(geo, s.disk, s'.disk, n, name, ino)
  {
    UnlinkDone(geo, s, s', owner, t, n, raw, nb);
    DirHere(geo, s.disk, n, raw, nb);
    DirHere(geo, s'.disk, n, raw, nb);
  }

  method Unlink(geo: Layout, s: State, n: nat, name: Name, ghost owner: Owner) returns (ino: u32, s': State)
    requires Mounted(geo, s, owner) && DirAt(geo, s.disk, n) && |name| < 256
    ensures Mounted(geo, s', owner) && Unlinked(geo, s.disk, s'.disk, n, name, ino)
  {
    var valid, raw := ReadInode(geo, s.disk, n);
    ghost var t := InodeTable(geo, s.disk);
    TableEntry(geo, s.disk, t, n);
    ino, s' := UnlinkEntry(geo, s, raw, name, n, t, owner, DirBlocks(geo, raw));
    UnlinkedNames(geo, s, s', owner, t, n, DirBlocks(geo, raw), raw, name, ino);
  }

  /** A file created in directory `dir`: a fresh inode bound to the name; no other file changed. */
  ghost predicate FileCreated(geo: Layout, d: Disk, d': Disk, dir: nat, name: Name, n: nat) {
    && geo.OnDisk(d) && DirAt(geo, d, dir) && DirAt(geo, d', dir)
    && 1 <= n <= geo.inodesCount && !InUse(geo, d, n) && InUse(geo, d', n) && n != dir
    && EmptyInode(InodeAt(geo, d', n), 0x81A4, 1) && OtherFields(InodeAt(geo, d, dir), InodeAt(geo, d', dir))
    && n < 0x1_0000_0000 && Inserted(Names(geo, d, dir), Names(geo, d', dir), Entry(name, n))
    && Typed(geo, d', InodeAt(geo, d', dir), DirBlocks(geo, InodeAt(geo, d', dir)), Entry(name, n), 1)
    && forall m: nat | 1 <= m <= geo.inodesCount && m != n && m != dir :: SameFile(geo, d, d', m)
  }

  /** Every file in use is as it was. */
  ghost predicate UsedKept(geo: Layout, d: Disk, d': Disk) {
    && geo.TablesFit() && geo.OnDisk(d) && geo.OnDisk(d')
    && forall m: nat | 1 <= m <= geo.inodesCount && InUse(geo, d, m) :: SameFile(geo, d, d', m)
  }

  /** File `n` was created, or none, only for want of an inode or a block. */
  ghost predicate CreateOutcome(geo: Layout, s: State, c: Counts, s': State, dir: nat, name: Name, n: nat) {
    if n != 0 then FileCreated(geo, s.disk, s'.disk, dir, name, n)
    else UsedKept(geo, s.disk, s'.disk) && ((c.total == 0 && s' == s) || Left(geo, s') == 0)
  }

  /** Every inode in use still is. */
  ghost predicate StillUsed(geo: Layout, d: Disk, d': Disk) {
    forall m: nat | InUse(geo, d, m) :: InUse(geo, d', m)
  }

  /** EXT2_S_IFREG | 0644 */
  const REGULAR: u32 := 0x81A4

  lemma CreateDone(geo: Layout, d: Disk, d1: Disk, d': Disk, dir: nat, nb': nat, name: Name, n: u32)
    requires DirAt(geo, d, dir) && geo.OnDisk(d1) && geo.OnDisk(d') && n != dir
    requires OnlyChanged(geo, d, d1, n) && EmptyInode(InodeAt(geo, d1, n), 0x81A4, 1)
    requires !InUse(geo, d, n) && InUse(geo, d', n)
    requires Gained(geo, d1, d', dir, DirBlocks(geo, InodeAt(geo, d1, dir)), nb', Entry(name, n))
    requires Typed(geo, d', InodeAt(geo, d', dir), nb', Entry(name, n), 1)
    ensures FileCreated(geo, d, d', dir, name, n)
  {
    SameNames(geo, d, d1, dir);
    assert SameFile(geo, d1, d', n);
    forall m: nat | 1 <= m <= geo.inodesCount && m != n && m != dir ensures SameFile(geo, d, d', m) {
      assert SameFile(geo, d, d1, m) && SameFile(geo, d1, d', m);
    }
  }

  /** The new inode in place and the directory not yet changed. */
  lemma InodeFirst(geo: Layout, d: Disk, d1: Disk, dir: nat, n: nat, len: nat)
    requires RoomAt(geo, d, dir, len) && OnlyChanged(geo, d, d1, n) && InUse(geo, d, dir) && !InUse(geo, d, n)
    ensures n != dir && RoomAt(geo, d1, dir, len)
  {
    assert SameFile(geo, d, d1, dir);
    SameRoom(geo, d, d1, dir, len);
  }

  lemma CreateFailed(geo: Layout, d: Disk, d1: Disk, d': Disk, n: nat, m: nat)
    requires OnlyChanged(geo, d, d1, n) && geo.OnDisk(d') && !InUse(geo, d, n)
    requires 1 <= m <= geo.inodesCount && InUse(geo, d, m) && SameFile(geo, d1, d', m)
    ensures SameFile(geo, d, d', m)
  {
    assert SameFile(geo, d, d1, m);
  }

  /** The entry added for the new inode, or not. */
  method BindNew(geo: Layout, ghost s: State, s1: State, dir: nat, name: Name, n: u32, ghost owner: Owner)
    returns (ok: bool, s': State, ghost owner': Owner)
    requires Mounted(geo, s1, owner) && RoomAt(geo, s.disk, dir, |name|) && InUse(geo, s.disk, dir) && |name| < 256
    requires OnlyChanged(geo, s.disk, s1.disk, n) && EmptyInode(InodeAt(geo, s1.disk, n), 0x81A4, 1)
    requires !InUse(geo, s.disk, n) && InUse(geo, s1.disk, n)
    ensures Mounted(geo, s', owner') && SameInodeBitmaps(geo, s1.disk, s'.disk)
    ensures ok ==> FileCreated(geo, s.disk, s'.disk, dir, name, n)
    ensures !ok ==> Left(geo, s') == 0 && UsedKept(geo, s.disk, s'.disk)
  {
    InodeFirst(geo, s.disk, s1.disk, dir, n, |name|);
    ghost var nb';
    ok, s', owner', nb' := AddDirEntry(geo, s1, dir, name, n, 1, owner, DirBlocks(geo, InodeAt(geo, s1.disk, dir)));
    if ok {
      UseKept(geo, s1.disk, s'.disk, n);
      CreateDone(geo, s.disk, s1.disk, s'.disk, dir, nb', name, n);
    } else {
      forall m: nat | 1 <= m <= geo.inodesCount && InUse(geo, s.disk, m) ensures SameFile(geo, s.disk, s'.disk, m) {
        CreateFailed(geo, s.disk, s1.disk, s'.disk, n, m);
      }
    }
  }

  // ---- directories over whole runs ----

  /** What happens to a directory: a name is added or unlinked, or something else on the disk changes. */
  datatype NameOp = AddName(name: Name, ino: u32) | RemoveName(name: Name) | Elsewhere

  /**
   * A step of a run, by what the operations leave: a new name is inserted, an unlink is done, or the directory is not
   * touched.
   */
  ghost predicate NameStep(geo: Layout, d: Disk, d': Disk, n: nat, op: NameOp) {
    && DirAt(geo, d, n)
    && match op
       case AddName(name, ino) =>
         DirAt(geo, d', n) && Lookup(Names(geo, d, n), name) == None
           && Inserted(Names(geo, d, n), Names(geo, d', n), Entry(name, ino))
       case RemoveName(name) => exists ino: u32 :: Unlinked(geo, d, d', n, name, ino)
       case Elsewhere => geo.OnDisk(d') && SameFile(geo, d, d', n)
  }

  /** The same on a map from names to inodes. */
  function Rebound(m: map<Name, u32>, op: NameOp): map<Name, u32> {
    match op
    case AddName(name, ino) => m[name := ino]
    case RemoveName(name) => m - {name}
    case Elsewhere => m
  }

  function MapAfter(m: map<Name, u32>, ops: seq<NameOp>): map<Name, u32> {
    if ops == [] then m else Rebound(MapAfter(m, ops[..|ops| - 1]), ops[|ops| - 1])
  }

  function Get(m: map<Name, u32>, x: Name): Option<u32> {
    if x in m then Some(m[x]) else None
  }

  /** The directory holds each name once, and exactly the bindings of the map. */
  ghost predicate Agrees(geo: Layout, d: Disk, n: nat, m: map<Name, u32>) {
    DirAt(geo, d, n) && Unique(Names(geo, d, n)) && forall x: Name :: Lookup(Names(geo, d, n), x) == Get(m, x)
  }

  ghost predicate NameRun(geo: Layout, ds: seq<Disk>, n: nat, ops: seq<NameOp>) {
    |ds| == |ops| + 1 && forall i | 0 <= i < |ops| :: NameStep(geo, ds[i], ds[i + 1], n, ops[i])
  }

  /** A changed binding of the directory and of the map. */
  lemma BoundAgrees(geo: Layout, d: Disk, d': Disk, n: nat, name: Name, ino: Option<u32>, m: map<Name, u32>,
                    m': map<Name, u32>)
    requires Agrees(geo, d, n, m) && Bound(geo, d, d', n, name, ino) && Unique(Names(geo, d', n))
    requires forall x: Name :: Get(m', x) == if x == name then ino else Get(m, x)
    ensures Agrees(geo, d', n, m')
  {
    forall x: Name ensures Lookup(Names(geo, d', n), x) == Get(m', x) {
      assert Lookup(Names(geo, d, n), x) == Get(m, x);
    }
  }

  lemma UnlinkAgrees(geo: Layout, d: Disk, d': Disk, n: nat, name: Name, ino: u32, m: map<Name, u32>)
    requires Agrees(geo, d, n, m) && Unlinked(geo, d, d', n, name, ino)
    ensures Agrees(geo, d', n, m - {name})
  {
    if ino == 0 {
      assert name !in m && m - {name} == m;
    } else {
      RemoveUnbinds(geo, d, d', n, Entry(name, ino));
      BoundAgrees(geo, d, d', n, name, None, m, m - {name});
    }
  }

  lemma StepAgrees(geo: Layout, d: Disk, d': Disk, n: nat, op: NameOp, m: map<Name, u32>)
    requires Agrees(geo, d, n, m) && NameStep(geo, d, d', n, op)
    ensures Agrees(geo, d', n, Rebound(m, op))
  {
    match op
    case AddName(name, ino) =>
      InsertBinds(geo, d, d', n, Entry(name, ino));
      BoundAgrees(geo, d, d', n, name, Some(ino), m, m[name := ino]);
    case RemoveName(name) =>
      var ino: u32 :| Unlinked(geo, d, d', n, name, ino);
      UnlinkAgrees(geo, d, d', n, name, ino, m);
    case Elsewhere => SameNames(geo, d, d', n);
  }

  /**
   * Over every run of additions of absent names, unlinks and changes elsewhere, a directory is the map of its names.
   */
  lemma {:induction false} DirectoryIsMap(geo: Layout, ds: seq<Disk>, n: nat, ops: seq<NameOp>, m: map<Name, u32>,
                                          k: nat)
    requires NameRun(geo, ds, n, ops) && Agrees(geo, ds[0], n, m) && k <= |ops|
    ensures Agrees(geo, ds[k], n, MapAfter(m, ops[..k]))
  {
    if k > 0 {
      DirectoryIsMap(geo, ds, n, ops, m, k - 1);
      assert ops[..k][..k - 1] == ops[..k - 1];
      StepAgrees(geo, ds[k - 1], ds[k], n, ops[k - 1], MapAfter(m, ops[..k - 1]));
    }
  }

  /** Creating a file under a new name and unlinking it restores every lookup, and the unlink finds the file's inode. */
  lemma CreateUnlink(geo: Layout, d: Disk, d1: Disk, d2: Disk, dir: nat, name: Name, n: nat, ino: u32, x: Name)
    requires FileCreated(geo, d, d1, dir, name, n) && Unique(Names(geo, d, dir))
    requires Lookup(Names(geo, d, dir), name) == None
    requires Unlinked(geo, d1, d2, dir, name, ino)
    ensures ino == n && Lookup(Names(geo, d2, dir), x) == Lookup(Names(geo, d, dir), x)
  {
    InsertBinds(geo, d, d1, dir, Entry(name, n));
    assert Lookup(Names(geo, d1, dir), name) == Some(n);
    RemoveUnbinds(geo, d1, d2, dir, Entry(name, ino));
    assert Lookup(Names(geo, d2, dir), x) == if x == name then None else Lookup(Names(geo, d1, dir), x);
    assert Lookup(Names(geo, d1, dir), x) == if x == name then Some(n) else Lookup(Names(geo, d, dir), x);
  }

  /** ext2_create_file on values. */
  method CreateFile(geo: Layout, s: State, c: Counts, dir: nat, name: Name, ghost owner: Owner)
    returns (n: u32, s': State, c': Counts, ghost owner': Owner)
    requires Mounted(geo, s, owner) && InodesConserved(geo, s.disk, c) && geo.inodesCount < 0x1_0000_0000
    requires RoomAt(geo, s.disk, dir, |name|) && InUse(geo, s.disk, dir) && |name| < 256
    ensures Mounted(geo, s', owner') && InodesConserved(geo, s'.disk, c')
    ensures CreateOutcome(geo, s, c, s', dir, name, n)
    ensures StillUsed(geo, s.disk, s'.disk)
  {
    var s1;
    n, s1, c' := CreateInode(geo, s, c, REGULAR, 1, owner);
    if n == 0 {
      return 0, s, c, owner;
    }
    var ok;
    ok, s', owner' := BindNew(geo, s, s1, dir, name, n, owner);
    CountsKept(geo, s1.disk, s'.disk, c');
    forall m: nat ensures InUse(geo, s'.disk, m) <==> InUse(geo, s1.disk, m) {
      UseKept(geo, s1.disk, s'.disk, m);
    }
    n := if ok then n else 0;
  }
}
