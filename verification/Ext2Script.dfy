/**
 Scripts of operations on a mounted file system, against an abstract one: a map of names for each directory and a map
 of bytes for each file. The invariant is assumed once, before the script; what the script may not do is refused by
 tests, not by preconditions.
 */
module Ext2Script {
  import opened Common
  import opened Bytes
  import opened Ext2Layout
  import opened Ext2BlockMap
  import opened Ext2
  import opened Ext2File
  import opened Ext2Fs
  import opened Ext2DirBlock
  import opened Ext2Dir
  import opened Ext2Inode
  import opened Ext2Names
  import opened Ext2Mount

  datatype Op =
    | Write(n: nat, offset: nat, buffer: seq<byte>)
    | Read(n: nat, offset: nat, size: nat)
    | Create(n: nat, name: ShortName)
    | Remove(n: nat, name: ShortName)
    | Find(n: nat, name: ShortName)

  datatype Result =
    | Refused | Wrote(count: nat) | Got(data: seq<byte>)
    | Made(ino: u32) | Failed | Removed | Missing | Found(ino: u32)

  /** A name as a directory can hold it. */
  type ShortName = name: Name | |name| < 256

  // ---- the abstract file system ----

  /** What each directory should hold. */
  type Tree = map<nat, map<Name, u32>>

  /** A file as its size and its bytes, holes left out. */
  datatype Contents = Contents(size: nat, bytes: nat -> Option<byte>)

  type Files = map<nat, Contents>

  ghost const NOTHING: Contents := Contents(0, pos => None)

  /** The contents after a write. */
  ghost function Overwritten(bs: nat, c: Contents, offset: nat, data: seq<byte>): Contents
    requires bs > 0
  {
    Contents(Max(c.size, offset + |data|), (pos: nat) => ByteAfter(bs, c.bytes(pos), offset, data, pos))
  }

  /** `data` is what a read of the contents returns: all bytes asked for and held, up to the first hole. */
  ghost predicate ReadsAs(c: Contents, offset: nat, size: nat, data: seq<byte>) {
    if offset >= c.size then data == []
    else
      && |data| <= Min(size, c.size - offset)
      && (forall i | 0 <= i < |data| :: c.bytes(offset + i) == Some(data[i]))
      && (|data| < Min(size, c.size - offset) ==> c.bytes(offset + |data|) == None)
  }

  /** One directory's map changed. */
  function Changed(tree: Tree, dir: nat, op: NameOp): Tree
    requires dir in tree
  {
    tree[dir := Rebound(tree[dir], op)]
  }

  ghost predicate Consistent(geo: Layout, d: Disk, tree: Tree) {
    forall n {:trigger Agrees(geo, d, n, tree[n])} | n in tree :: Agrees(geo, d, n, tree[n]) && InUse(geo, d, n)
  }

  /** What an operation with its outcome does to the directories. */
  function TreeAfter(tree: Tree, op: Op, r: Result): Tree {
    if op.Create? && r.Made? && op.n in tree then Changed(tree, op.n, AddName(op.name, r.ino))
    else if op.Remove? && r == Removed && op.n in tree then Changed(tree, op.n, RemoveName(op.name))
    else tree
  }

  /** And to the files: a write overwrites, a creation starts an empty file. */
  ghost function FilesAfter(bs: nat, files: Files, op: Op, r: Result): Files
    requires bs > 0
  {
    if op.Write? && r.Wrote? && r.count <= |op.buffer| && op.n in files then
      files[op.n := Overwritten(bs, files[op.n], op.offset, op.buffer[..r.count])]
    else if op.Create? && r.Made? then files[r.ino := NOTHING]
    else files
  }

  /** The outcomes the abstract file system allows. */
  ghost predicate Allowed(tree: Tree, files: Files, op: Op, r: Result) {
    match op
    case Write(_, _, buffer) => r == Refused || (r.Wrote? && r.count <= |buffer|)
    case Read(n, offset, size) => r == Refused || (r.Got? && (n in files ==> ReadsAs(files[n], offset, size, r.data)))
    case Create(dir, name) =>
      r == Refused || r == Failed
        || (r.Made? && dir in tree && name !in tree[dir] && r.ino !in tree && r.ino !in files)
    case Remove(dir, name) => r == if dir !in tree then Refused else if name in tree[dir] then Removed else Missing
    case Find(dir, name) =>
      r == if dir !in tree then Refused else if name in tree[dir] then Found(tree[dir][name]) else Missing
  }

  // ---- how a disk represents it ----

  /** The file on disk has these contents. */
  ghost predicate Holds(geo: Layout, d: Disk, n: nat, c: Contents) {
    && geo.TablesFit() && geo.OnDisk(d) && 1 <= n <= geo.inodesCount && InUse(geo, d, n)
    && GetU32(InodeAt(geo, d, n), SIZE_OFFSET) == c.size
    && forall pos: nat :: FileByte(geo, d, InodeAt(geo, d, n), pos) == c.bytes(pos)
  }

  ghost predicate FilesHold(geo: Layout, d: Disk, tree: Tree, files: Files) {
    forall n {:trigger Holds(geo, d, n, files[n])} | n in files :: n !in tree && Holds(geo, d, n, files[n])
  }

  /** The disk represents the directories and the files. */
  ghost predicate Represents(geo: Layout, d: Disk, tree: Tree, files: Files) {
    Consistent(geo, d, tree) && FilesHold(geo, d, tree, files)
  }

  /** Every file in use, except `n`, is as it was and still in use. */
  ghost predicate OthersKept(geo: Layout, d: Disk, d': Disk, n: nat) {
    && geo.TablesFit() && geo.OnDisk(d) && geo.OnDisk(d')
    && forall m: nat {:trigger SameFile(geo, d, d', m)} | 1 <= m <= geo.inodesCount && InUse(geo, d, m) && m != n ::
      SameFile(geo, d, d', m) && InUse(geo, d', m)
  }

  /** A step on directory `n` keeps every directory equal to its map. */
  lemma StepConsistent(geo: Layout, d: Disk, d': Disk, tree: Tree, n: nat, op: NameOp)
    requires Consistent(geo, d, tree) && OthersKept(geo, d, d', n)
    requires n in tree ==> NameStep(geo, d, d', n, op) && InUse(geo, d', n)
    ensures Consistent(geo, d', if n in tree then Changed(tree, n, op) else tree)
  {
    forall m | m in tree
      ensures Agrees(geo, d', m, if m == n then Rebound(tree[n], op) else tree[m]) && InUse(geo, d', m)
    {
      assert Agrees(geo, d, m, tree[m]);
      if m == n {
        StepAgrees(geo, d, d', n, op, tree[n]);
      } else {
        assert SameFile(geo, d, d', m);
        StepAgrees(geo, d, d', m, Elsewhere, tree[m]);
      }
    }
  }

  /** A file that stayed the same has the same contents. */
  lemma HoldsStill(geo: Layout, d: Disk, d': Disk, n: nat, c: Contents)
    requires Holds(geo, d, n, c) && geo.OnDisk(d') && SameFile(geo, d, d', n) && InUse(geo, d', n)
    ensures Holds(geo, d', n, c)
  {
    forall pos: nat ensures FileByte(geo, d', InodeAt(geo, d', n), pos) == c.bytes(pos) {
      assert FileByte(geo, d, InodeAt(geo, d, n), pos) == c.bytes(pos);
    }
  }

  lemma FilesStill(geo: Layout, d: Disk, d': Disk, tree: Tree, tree': Tree, files: Files, n: nat)
    requires FilesHold(geo, d, tree, files) && OthersKept(geo, d, d', n) && n !in files && tree'.Keys == tree.Keys
    ensures FilesHold(geo, d', tree', files)
  {
    forall m | m in files ensures m !in tree' && Holds(geo, d', m, files[m]) {
      assert Holds(geo, d, m, files[m]);
      assert SameFile(geo, d, d', m);
      HoldsStill(geo, d, d', m, files[m]);
    }
  }

  lemma WrittenHolds(geo: Layout, d: Disk, d': Disk, n: nat, c: Contents, offset: nat, data: seq<byte>)
    requires Holds(geo, d, n, c) && FileWritten(geo, d, d', n, offset, data) && InUse(geo, d', n)
    ensures Holds(geo, d', n, Overwritten(geo.blockSize, c, offset, data))
  {
    forall pos: nat
      ensures FileByte(geo, d', InodeAt(geo, d', n), pos) == ByteAfter(geo.blockSize, c.bytes(pos), offset, data, pos)
    {
      assert FileByte(geo, d, InodeAt(geo, d, n), pos) == c.bytes(pos);
    }
  }

  lemma FilesWritten(geo: Layout, d: Disk, d': Disk, tree: Tree, files: Files, n: nat, offset: nat, data: seq<byte>)
    requires FilesHold(geo, d, tree, files) && OthersKept(geo, d, d', n) && FileWritten(geo, d, d', n, offset, data)
    requires n in files && InUse(geo, d', n)
    ensures FilesHold(geo, d', tree, files[n := Overwritten(geo.blockSize, files[n], offset, data)])
  {
    var files' := files[n := Overwritten(geo.blockSize, files[n], offset, data)];
    forall m | m in files' ensures m !in tree && Holds(geo, d', m, files'[m]) {
      FileMember(geo, d, tree, files, m);
      if m == n {
        WrittenHolds(geo, d, d', n, files[n], offset, data);
      } else {
        assert SameFile(geo, d, d', m);
        HoldsStill(geo, d, d', m, files[m]);
      }
    }
  }

  lemma MadeHolds(geo: Layout, d: Disk, n: nat)
    requires geo.TablesFit() && geo.OnDisk(d) && 1 <= n <= geo.inodesCount && InUse(geo, d, n)
    requires EmptyInode(InodeAt(geo, d, n), 0x81A4, 1)
    ensures Holds(geo, d, n, NOTHING)
  {
    forall pos: nat ensures FileByte(geo, d, InodeAt(geo, d, n), pos) == None {
      var x := LeafNode(geo, Quot(pos, geo.blockSize));
      if x.Some? {
        NoPointers(geo, d, InodeAt(geo, d, n), x.value);
      }
    }
  }

  lemma ReadHolds(geo: Layout, d: Disk, n: nat, c: Contents, offset: nat, size: nat, data: seq<byte>)
    requires Holds(geo, d, n, c) && ReadResult(geo, d, n, c.size, offset, size, data)
    ensures ReadsAs(c, offset, size, data)
  {
    if offset < c.size {
      forall i | 0 <= i < |data| ensures c.bytes(offset + i) == Some(data[i]) {
        assert FileByte(geo, d, InodeAt(geo, d, n), offset + i) == Some(data[i]);
      }
      assert FileByte(geo, d, InodeAt(geo, d, n), offset + |data|) == c.bytes(offset + |data|);
    }
  }

  // ---- what each operation leaves ----

  lemma TreeMember(geo: Layout, d: Disk, tree: Tree, n: nat)
    requires Consistent(geo, d, tree) && n in tree
    ensures Agrees(geo, d, n, tree[n]) && InUse(geo, d, n)
  {
  }

  lemma FileMember(geo: Layout, d: Disk, tree: Tree, files: Files, n: nat)
    requires FilesHold(geo, d, tree, files) && n in files
    ensures n !in tree && Holds(geo, d, n, files[n])
  {
  }

  /** An inode that is not in use is no known directory or file. */
  lemma FreeUnnamed(geo: Layout, d: Disk, tree: Tree, files: Files, n: nat)
    requires Represents(geo, d, tree, files) && !InUse(geo, d, n)
    ensures n !in tree && n !in files
  {
    if n in tree {
      TreeMember(geo, d, tree, n);
    }
    if n in files {
      FileMember(geo, d, tree, files, n);
    }
  }

  lemma DirectoryNoFile(geo: Layout, d: Disk, tree: Tree, files: Files, dir: nat)
    requires FilesHold(geo, d, tree, files) && dir in tree
    ensures dir !in files
  {
    if dir in files {
      FileMember(geo, d, tree, files, dir);
    }
  }

  lemma UseOthers(geo: Layout, d: Disk, d': Disk, n: nat)
    requires OnlyChanged(geo, d, d', n) && SameInodeBitmaps(geo, d, d')
    ensures OthersKept(geo, d, d', n)
  {
    forall m: nat | 1 <= m <= geo.inodesCount && InUse(geo, d, m) && m != n
      ensures SameFile(geo, d, d', m) && InUse(geo, d', m)
    {
      UseKept(geo, d, d', m);
    }
  }

  lemma WriteLeaves(geo: Layout, d: Disk, d': Disk, tree: Tree, files: Files, op: Op, count: nat)
    requires Represents(geo, d, tree, files) && op.Write? && op.n !in tree && count <= |op.buffer|
    requires FileWritten(geo, d, d', op.n, op.offset, op.buffer[..count]) && SameInodeBitmaps(geo, d, d')
    ensures OthersKept(geo, d, d', op.n)
    ensures Represents(geo, d', tree, FilesAfter(geo.blockSize, files, op, Wrote(count)))
  {
    UseOthers(geo, d, d', op.n);
    StepConsistent(geo, d, d', tree, op.n, Elsewhere);
    if op.n in files {
      UseKept(geo, d, d', op.n);
      assert Holds(geo, d, op.n, files[op.n]);
      FilesWritten(geo, d, d', tree, files, op.n, op.offset, op.buffer[..count]);
    } else {
      FilesStill(geo, d, d', tree, tree, files, op.n);
    }
  }

  lemma CreateLeaves(geo: Layout, d: Disk, d': Disk, tree: Tree, files: Files, dir: nat, name: Name, n: u32)
    requires Represents(geo, d, tree, files) && dir in tree && name !in tree[dir]
    requires FileCreated(geo, d, d', dir, name, n) && forall m: nat | InUse(geo, d, m) :: InUse(geo, d', m)
    ensures OthersKept(geo, d, d', dir) && n !in tree && n !in files
    ensures Represents(geo, d', Changed(tree, dir, AddName(name, n)), files[n := NOTHING])
  {
    assert Agrees(geo, d, dir, tree[dir]);
    FreeUnnamed(geo, d, tree, files, n);
    DirectoryNoFile(geo, d, tree, files, dir);
    CreateOthers(geo, d, d', dir, name, n);
    assert Lookup(Names(geo, d, dir), name) == Get(tree[dir], name) == None;
    StepConsistent(geo, d, d', tree, dir, AddName(name, n));
    FilesStill(geo, d, d', tree, Changed(tree, dir, AddName(name, n)), files, dir);
    MadeHolds(geo, d', n);
    OneMoreFile(geo, d', Changed(tree, dir, AddName(name, n)), files, n, NOTHING);
  }

  lemma CreateOthers(geo: Layout, d: Disk, d': Disk, dir: nat, name: Name, n: u32)
    requires FileCreated(geo, d, d', dir, name, n) && forall m: nat | InUse(geo, d, m) :: InUse(geo, d', m)
    ensures OthersKept(geo, d, d', dir)
  {
    forall m: nat | 1 <= m <= geo.inodesCount && InUse(geo, d, m) && m != dir
      ensures SameFile(geo, d, d', m) && InUse(geo, d', m)
    {
    }
  }

  lemma OneMoreFile(geo: Layout, d: Disk, tree: Tree, files: Files, n: nat, c: Contents)
    requires FilesHold(geo, d, tree, files) && n !in tree && Holds(geo, d, n, c)
    ensures FilesHold(geo, d, tree, files[n := c])
  {
    forall m | m in files[n := c] ensures m !in tree && Holds(geo, d, m, files[n := c][m]) {
      assert m != n ==> Holds(geo, d, m, files[m]);
    }
  }

  lemma FailureLeaves(geo: Layout, d: Disk, d': Disk, tree: Tree, files: Files, dir: nat)
    requires Represents(geo, d, tree, files) && dir in tree && UsedKept(geo, d, d')
    requires forall m: nat | InUse(geo, d, m) :: InUse(geo, d', m)
    ensures OthersKept(geo, d, d', dir) && Represents(geo, d', tree, files)
  {
    forall m: nat | 1 <= m <= geo.inodesCount && InUse(geo, d, m) ensures SameFile(geo, d, d', m) && InUse(geo, d', m) {
    }
    if 0 in tree {
      TreeMember(geo, d, tree, 0);
    }
    if 0 in files {
      FileMember(geo, d, tree, files, 0);
    }
    StepConsistent(geo, d, d', tree, 0, Elsewhere);
    FilesStill(geo, d, d', tree, tree, files, 0);
  }

  lemma RemoveLeaves(geo: Layout, d: Disk, d': Disk, tree: Tree, files: Files, dir: nat, name: Name, ino: u32)
    requires Represents(geo, d, tree, files) && dir in tree && Unlinked(geo, d, d', dir, name, ino)
    ensures OthersKept(geo, d, d', dir) && Represents(geo, d', Changed(tree, dir, RemoveName(name)), files)
    ensures ino != 0 <==> name in tree[dir]
  {
    UseOthers(geo, d, d', dir);
    UseKept(geo, d, d', dir);
    assert Agrees(geo, d, dir, tree[dir]);
    DirectoryNoFile(geo, d, tree, files, dir);
    StepConsistent(geo, d, d', tree, dir, RemoveName(name));
    FilesStill(geo, d, d', tree, Changed(tree, dir, RemoveName(name)), files, dir);
    assert Lookup(Names(geo, d, dir), name) == Get(tree[dir], name);
  }

  // ---- the tests ----

  /** Whether three free blocks are there for every block that the range meets. */
  method Affordable(geo: Layout, s: State, offset: nat, size: nat, ghost raw: Raw) returns (ok: bool)
    requires Conserved(geo, s.disk, s.free, s.total)
    ensures ok == Ample(geo, s, offset, size) && (ok ==> Funded(geo, s, raw, offset, offset + size))
  {
    if size == 0 {
      return true;
    }
    QuotRem(offset, geo.blockSize);
    QuotRem(offset + size - 1, geo.blockSize);
    ok := s.total > 3 * ((offset + size - 1) / geo.blockSize - offset / geo.blockSize + 1);
    if ok {
      LeftNonNegative(geo, s);
      AmpleFunds(geo, s, raw, offset, offset + size);
    }
  }

  /** Whether a directory can take one more name of this length. */
  method HasRoomFor(geo: Layout, s: State, n: nat, len: nat, ghost owner: Owner) returns (ok: bool)
    requires Mounted(geo, s, owner) && DirAt(geo, s.disk, n)
    ensures ok <==> RoomAt(geo, s.disk, n, len)
  {
    var valid, raw := ReadInode(geo, s.disk, n);
    TableEntry(geo, s.disk, InodeTable(geo, s.disk), n);
    QuotRem(GetU32(raw, SIZE_OFFSET), geo.blockSize);
    var blocks := GetU32(raw, SIZE_OFFSET) / geo.blockSize;
    if blocks < NDIR {
      return blocks > 0 || GetU32(raw, PTR_OFFSET) == 0;
    }
    var lb, pos := FindPlace(geo, s, raw, blocks, len, n, InodeTable(geo, s.disk), owner);
    ok := lb < blocks;
    if ok {
      PlaceIsRoom(geo, s.disk, raw, blocks, lb, pos, len);
    } else {
      forall l: nat | l < blocks ensures !RoomIn(geo, s.disk, raw, l, len) {
        NoRoomBefore(geo, s.disk, raw, blocks, len, l);
      }
    }
  }

  // ---- running a script ----

  /** Enough blocks are free for any write of `size` bytes at `offset`, index blocks included. */
  predicate Ample(geo: Layout, s: State, offset: nat, size: nat) {
    size == 0 || s.total > 3 * ((offset + size - 1) / geo.blockSize - offset / geo.blockSize + 1)
  }

  /** There is no such inode, or the range ends beyond 32 bits. */
  predicate BadRange(geo: Layout, n: nat, offset: nat, size: nat) {
    !(1 <= n <= geo.inodesCount) || offset + size >= 0x1_0000_0000
  }

  ghost predicate EveryInodeUsed(geo: Layout, d: Disk) {
    forall m: nat | 1 <= m <= geo.inodesCount :: InUse(geo, d, m)
  }

  /**
   * Nothing is refused, cut short or failed without reason. A write is refused exactly for a directory, a bad inode
   * number, an end beyond 32 bits or too few free blocks, and stops early only where the block map ends or no block is
   * left. A creation is refused exactly for a bound name or a directory without room, and fails only without a free
   * inode or block.
   */
  ghost predicate Reason(geo: Layout, s: State, s': State, tree: Tree, op: Op, r: Result) {
    && geo.TablesFit() && geo.OnDisk(s.disk) && geo.OnDisk(s'.disk)
    && match op
       case Write(n, offset, buffer) =>
         && (r == Refused <==> n in tree || BadRange(geo, n, offset, |buffer|) || !Ample(geo, s, offset, |buffer|))
         && (r.Wrote? && r.count < |buffer| ==>
              1 <= n <= geo.inodesCount && Stopped(geo, s', InodeAt(geo, s'.disk, n), offset + r.count))
       case Read(n, offset, size) => r == Refused <==> BadRange(geo, n, offset, size)
       case Create(n, name) =>
         && (r == Refused <==> n !in tree || name in tree[n] || !RoomAt(geo, s.disk, n, |name|))
         && (r == Failed ==> Left(geo, s') == 0 || EveryInodeUsed(geo, s.disk))
       case _ => true
  }

  method TryWrite(fs: FileSystem, tree: Tree, ghost files: Files, op: Op) returns (r: Result)
    requires fs.Valid() && Represents(fs.geo, fs.s.disk, tree, files) && op.Write?
    modifies fs
    ensures fs.Valid() && OthersKept(fs.geo, old(fs.s.disk), fs.s.disk, op.n) && Allowed(tree, files, op, r)
    ensures Represents(fs.geo, fs.s.disk, tree, FilesAfter(fs.geo.blockSize, files, op, r))
    ensures Reason(fs.geo, old(fs.s), fs.s, tree, op, r)
  {
    if op.n in tree || !(1 <= op.n <= fs.geo.inodesCount) || op.offset + |op.buffer| >= 0x1_0000_0000 {
      return Refused;
    }
    ghost var d := fs.s.disk;
    r := WriteAfford(fs, op);
    if r.Wrote? {
      WriteLeaves(fs.geo, d, fs.s.disk, tree, files, op, r.count);
    }
  }

  /** A write of a file, if it can be afforded. */
  method WriteAfford(fs: FileSystem, op: Op) returns (r: Result)
    requires fs.Valid() && op.Write? && 1 <= op.n <= fs.geo.inodesCount && op.offset + |op.buffer| < 0x1_0000_0000
    modifies fs
    ensures fs.Valid() && (r == Refused || r.Wrote?)
    ensures r == Refused <==> !Ample(fs.geo, old(fs.s), op.offset, |op.buffer|)
    ensures r == Refused ==> fs.s == old(fs.s)
    ensures r.Wrote? && r.count < |op.buffer| ==>
      Stopped(fs.geo, fs.s, InodeAt(fs.geo, fs.s.disk, op.n), op.offset + r.count)
    ensures r.Wrote? ==> r.count <= |op.buffer| && SameInodeBitmaps(fs.geo, old(fs.s.disk), fs.s.disk)
    ensures r.Wrote? ==> FileWritten(fs.geo, old(fs.s.disk), fs.s.disk, op.n, op.offset, op.buffer[..r.count])
  {
    var ok := Affordable(fs.geo, fs.s, op.offset, |op.buffer|, InodeAt(fs.geo, fs.s.disk, op.n));
    if !ok {
      return Refused;
    }
    var node := new VfsNode(op.n, false, 0);
    var written := fs.WriteFileData(node, op.offset, op.buffer);
    r := Wrote(written);
  }

  /** A read through a node as a lookup would make it now. */
  method TryRead(fs: FileSystem, tree: Tree, ghost files: Files, op: Op) returns (r: Result)
    requires fs.Valid() && Represents(fs.geo, fs.s.disk, tree, files) && op.Read?
    ensures Allowed(tree, files, op, r) && Reason(fs.geo, fs.s, fs.s, tree, op, r)
  {
    var ok, raw := ReadInode(fs.geo, fs.s.disk, op.n);
    if !ok || op.offset + op.size >= 0x1_0000_0000 {
      return Refused;
    }
    var node := new VfsNode(op.n, ModeIsDir(raw), GetU32(raw, SIZE_OFFSET));
    var data := fs.ReadFileData(node, op.offset, op.size);
    if op.n in files {
      ReadHolds(fs.geo, fs.s.disk, op.n, files[op.n], op.offset, op.size, data);
    }
    r := Got(data);
  }

  method TryCreate(fs: FileSystem, tree: Tree, ghost files: Files, op: Op) returns (r: Result)
    requires fs.Valid() && Represents(fs.geo, fs.s.disk, tree, files) && op.Create?
    modifies fs
    ensures fs.Valid() && OthersKept(fs.geo, old(fs.s.disk), fs.s.disk, op.n) && Allowed(tree, files, op, r)
    ensures Represents(fs.geo, fs.s.disk, TreeAfter(tree, op, r), FilesAfter(fs.geo.blockSize, files, op, r))
    ensures Reason(fs.geo, old(fs.s), fs.s, tree, op, r)
  {
    if op.n !in tree || op.name in tree[op.n] {
      return Refused;
    }
    assert Agrees(fs.geo, fs.s.disk, op.n, tree[op.n]);
    var ok := HasRoomFor(fs.geo, fs.s, op.n, |op.name|, fs.owner);
    if !ok {
      return Refused;
    }
    ghost var d, counts := fs.s.disk, fs.counts;
    var node := new VfsNode(op.n, true, 0);
    var made := fs.Create(node, op.name);
    if made == null {
      if counts.total == 0 {
        forall m: nat | 1 <= m <= fs.geo.inodesCount ensures InUse(fs.geo, d, m) {
          AllUsed(fs.geo, d, counts, m);
        }
      }
      FailureLeaves(fs.geo, d, fs.s.disk, tree, files, op.n);
      r := Failed;
    } else {
      CreateLeaves(fs.geo, d, fs.s.disk, tree, files, op.n, op.name, made.inode);
      r := Made(made.inode);
    }
  }

  method TryRemove(fs: FileSystem, tree: Tree, ghost files: Files, op: Op) returns (r: Result)
    requires fs.Valid() && Represents(fs.geo, fs.s.disk, tree, files) && op.Remove?
    modifies fs
    ensures fs.Valid() && OthersKept(fs.geo, old(fs.s.disk), fs.s.disk, op.n) && Allowed(tree, files, op, r)
    ensures Represents(fs.geo, fs.s.disk, TreeAfter(tree, op, r), files)
  {
    if op.n !in tree {
      return Refused;
    }
    assert Agrees(fs.geo, fs.s.disk, op.n, tree[op.n]);
    ghost var d := fs.s.disk;
    var node := new VfsNode(op.n, true, 0);
    var e := fs.Remove(node, op.name);
    ghost var ino: u32 :| (e == 0 <==> ino != 0) && Unlinked(fs.geo, d, fs.s.disk, op.n, op.name, ino);
    RemoveLeaves(fs.geo, d, fs.s.disk, tree, files, op.n, op.name, ino);
    r := if e == 0 then Removed else Missing;
    RemovedTree(tree, op, r);
  }

  lemma RemovedTree(tree: Tree, op: Op, r: Result)
    requires op.Remove? && op.n in tree && r == if op.name in tree[op.n] then Removed else Missing
    ensures TreeAfter(tree, op, r) == Changed(tree, op.n, RemoveName(op.name))
  {
    if r == Missing {
      assert tree[op.n] - {op.name} == tree[op.n];
    }
  }

  method TryFind(fs: FileSystem, tree: Tree, ghost files: Files, op: Op) returns (r: Result)
    requires fs.Valid() && Represents(fs.geo, fs.s.disk, tree, files) && op.Find?
    ensures Allowed(tree, files, op, r)
  {
    if op.n !in tree {
      return Refused;
    }
    assert Agrees(fs.geo, fs.s.disk, op.n, tree[op.n]);
    var ino := Ext2Names.FindName(fs.geo, fs.s, op.n, op.name, fs.owner);
    assert Lookup(Names(fs.geo, fs.s.disk, op.n), op.name) == Get(tree[op.n], op.name);
    r := if ino == 0 then Missing else Found(ino);
  }

  method Perform(fs: FileSystem, tree: Tree, ghost files: Files, op: Op) returns (r: Result)
    requires fs.Valid() && Represents(fs.geo, fs.s.disk, tree, files)
    modifies fs
    ensures fs.Valid() && OthersKept(fs.geo, old(fs.s.disk), fs.s.disk, op.n) && Allowed(tree, files, op, r)
    ensures Represents(fs.geo, fs.s.disk, TreeAfter(tree, op, r), FilesAfter(fs.geo.blockSize, files, op, r))
    ensures Reason(fs.geo, old(fs.s), fs.s, tree, op, r)
  {
    match op
    case Write(_, _, _) => r := TryWrite(fs, tree, files, op);
    case Read(_, _, _) => r := TryRead(fs, tree, files, op);
    case Create(_, _) => r := TryCreate(fs, tree, files, op);
    case Remove(_, _) => r := TryRemove(fs, tree, files, op);
    case Find(_, _) => r := TryFind(fs, tree, files, op);
  }

  /** Every file in use that no operation named is as it was. */
  ghost predicate UnnamedKept(geo: Layout, d: Disk, d': Disk, ops: seq<Op>) {
    && geo.TablesFit() && geo.OnDisk(d) && geo.OnDisk(d')
    && forall m: nat {:trigger SameFile(geo, d, d', m)} | 1 <= m <= geo.inodesCount && InUse(geo, d, m)
      && (forall op | op in ops :: op.n != m) ::
         SameFile(geo, d, d', m) && InUse(geo, d', m)
  }

  lemma OneMore(geo: Layout, d: Disk, d1: Disk, d': Disk, ops: seq<Op>, op: Op)
    requires UnnamedKept(geo, d, d1, ops) && OthersKept(geo, d1, d', op.n)
    ensures UnnamedKept(geo, d, d', ops + [op])
  {
    forall m: nat | 1 <= m <= geo.inodesCount && InUse(geo, d, m) && (forall o | o in ops + [op] :: o.n != m)
      ensures SameFile(geo, d, d', m) && InUse(geo, d', m)
    {
      assert op in ops + [op] && forall o | o in ops :: o in ops + [op];
      assert SameFile(geo, d, d1, m) && SameFile(geo, d1, d', m);
    }
  }

  /** The directories and the files after the operations of a script with their outcomes. */
  function TreeAll(tree: Tree, ops: seq<Op>, rs: seq<Result>): Tree
    requires |rs| == |ops|
  {
    if ops == [] then tree
    else
      var k := |ops| - 1;
      TreeAfter(TreeAll(tree, ops[..k], rs[..k]), ops[k], rs[k])
  }

  ghost function FilesAll(bs: nat, files: Files, ops: seq<Op>, rs: seq<Result>): Files
    requires |rs| == |ops| && bs > 0
  {
    if ops == [] then files
    else
      var k := |ops| - 1;
      FilesAfter(bs, FilesAll(bs, files, ops[..k], rs[..k]), ops[k], rs[k])
  }

  /** State `k` of a script represents what the first `k` operations leave. */
  ghost predicate StateAt(geo: Layout, tree: Tree, files: Files, ss: seq<State>, ops: seq<Op>, rs: seq<Result>, k: nat)
    requires |rs| == |ops| && |ss| == |ops| + 1 && k <= |ops|
  {
    Represents(geo, ss[k].disk, TreeAll(tree, ops[..k], rs[..k]), FilesAll(geo.blockSize, files, ops[..k], rs[..k]))
  }

  /** Outcome `k` is one that the abstract file system allows there, and has a reason if it is a failure. */
  ghost predicate OutcomeAt(geo: Layout, tree: Tree, files: Files, ss: seq<State>, ops: seq<Op>, rs: seq<Result>,
                            k: nat)
    requires |rs| == |ops| && |ss| == |ops| + 1 && k < |ops|
  {
    && Allowed(TreeAll(tree, ops[..k], rs[..k]), FilesAll(geo.blockSize, files, ops[..k], rs[..k]), ops[k], rs[k])
    && Reason(geo, ss[k], ss[k + 1], TreeAll(tree, ops[..k], rs[..k]), ops[k], rs[k])
  }

  ghost predicate Explained(geo: Layout, tree: Tree, files: Files, ss: seq<State>, ops: seq<Op>, rs: seq<Result>) {
    && |rs| == |ops| && |ss| == |ops| + 1
    && (forall k {:trigger StateAt(geo, tree, files, ss, ops, rs, k)} | 0 <= k <= |ops| ::
          StateAt(geo, tree, files, ss, ops, rs, k))
    && forall k {:trigger OutcomeAt(geo, tree, files, ss, ops, rs, k)} | 0 <= k < |ops| ::
         OutcomeAt(geo, tree, files, ss, ops, rs, k)
  }

  lemma AllMore(bs: nat, tree: Tree, files: Files, ops: seq<Op>, rs: seq<Result>, op: Op, r: Result)
    requires bs > 0 && |rs| == |ops|
    ensures TreeAll(tree, ops + [op], rs + [r]) == TreeAfter(TreeAll(tree, ops, rs), op, r)
    ensures FilesAll(bs, files, ops + [op], rs + [r]) == FilesAfter(bs, FilesAll(bs, files, ops, rs), op, r)
  {
    assert (ops + [op])[..|ops|] == ops && (rs + [r])[..|rs|] == rs;
  }

  lemma NextPrefix<T>(xs: seq<T>, k: nat)
    requires k < |xs|
    ensures xs[..k] + [xs[k]] == xs[..k + 1]
  {
  }

  lemma PrefixKept<T>(xs: seq<T>, x: T, k: nat)
    requires k <= |xs|
    ensures (xs + [x])[..k] == xs[..k] && xs[..|xs|] == xs && (xs + [x])[..|xs| + 1] == xs + [x]
  {
  }

  lemma ExplainedMore(geo: Layout, tree: Tree, files: Files, ss: seq<State>, ops: seq<Op>, rs: seq<Result>,
                      s: State, op: Op, r: Result)
    requires Explained(geo, tree, files, ss, ops, rs) && Reason(geo, ss[|ops|], s, TreeAll(tree, ops, rs), op, r)
    requires Allowed(TreeAll(tree, ops, rs), FilesAll(geo.blockSize, files, ops, rs), op, r)
    requires Represents(geo, s.disk, TreeAfter(TreeAll(tree, ops, rs), op, r),
                        FilesAfter(geo.blockSize, FilesAll(geo.blockSize, files, ops, rs), op, r))
    ensures Explained(geo, tree, files, ss + [s], ops + [op], rs + [r])
  {
    var ss', ops', rs' := ss + [s], ops + [op], rs + [r];
    AllMore(geo.blockSize, tree, files, ops, rs, op, r);
    forall k | 0 <= k <= |ops'| ensures StateAt(geo, tree, files, ss', ops', rs', k) {
      PrefixKept(ops, op, if k <= |ops| then k else 0);
      PrefixKept(rs, r, if k <= |ops| then k else 0);
      assert k <= |ops| ==> StateAt(geo, tree, files, ss, ops, rs, k);
    }
    forall k | 0 <= k < |ops'| ensures OutcomeAt(geo, tree, files, ss', ops', rs', k) {
      PrefixKept(ops, op, k);
      PrefixKept(rs, r, k);
      assert k < |ops| ==> OutcomeAt(geo, tree, files, ss, ops, rs, k);
    }
  }

  /** Where a script stands after the operations `ops`: its states and outcomes so far, and what the disk represents. */
  ghost predicate Reached(geo: Layout, tree: Tree, files: Files, ss: seq<State>, ops: seq<Op>, rs: seq<Result>,
                          now: Tree, held: Files, s: State) {
    && Explained(geo, tree, files, ss, ops, rs) && ss[|ops|] == s
    && now == TreeAll(tree, ops, rs) && held == FilesAll(geo.blockSize, files, ops, rs)
    && Represents(geo, s.disk, now, held)
  }

  lemma Start(geo: Layout, tree: Tree, files: Files, s: State)
    requires Represents(geo, s.disk, tree, files)
    ensures Reached(geo, tree, files, [s], [], [], tree, files, s)
  {
    assert StateAt(geo, tree, files, [s], [], [], 0);
  }

  lemma ReachedMore(geo: Layout, tree: Tree, files: Files, ss: seq<State>, ops: seq<Op>, rs: seq<Result>,
                    now: Tree, held: Files, s: State, op: Op, r: Result, s': State)
    requires Reached(geo, tree, files, ss, ops, rs, now, held, s) && Allowed(now, held, op, r)
    requires Reason(geo, s, s', now, op, r)
    requires Represents(geo, s'.disk, TreeAfter(now, op, r), FilesAfter(geo.blockSize, held, op, r))
    ensures Reached(geo, tree, files, ss + [s'], ops + [op], rs + [r],
                    TreeAfter(now, op, r), FilesAfter(geo.blockSize, held, op, r), s')
  {
    ExplainedMore(geo, tree, files, ss, ops, rs, s', op, r);
    AllMore(geo.blockSize, tree, files, ops, rs, op, r);
  }

  /**
   * Any script behaves like the abstract file system: every outcome, reads and lookups included, is one it allows at
   * that point, and every state represents its directories and files there. The file system is sound again, and every
   * file in use that the script did not name is unchanged.
   */
  method Script(fs: FileSystem, tree: Tree, ghost files: Files, ops: seq<Op>)
    returns (rs: seq<Result>, ghost ss: seq<State>)
    requires fs.Valid() && Represents(fs.geo, fs.s.disk, tree, files)
    modifies fs
    ensures fs.Valid() && UnnamedKept(fs.geo, old(fs.s.disk), fs.s.disk, ops)
    ensures Explained(fs.geo, tree, files, ss, ops, rs) && ss[0] == old(fs.s) && ss[|ops|] == fs.s
  {
    rs, ss := [], [fs.s];
    var now := tree;
    ghost var held := files;
    Start(fs.geo, tree, files, fs.s);
    for k := 0 to |ops|
      invariant fs.Valid() && UnnamedKept(fs.geo, old(fs.s.disk), fs.s.disk, ops[..k])
      invariant Reached(fs.geo, tree, files, ss, ops[..k], rs, now, held, fs.s) && ss[0] == old(fs.s)
    {
      ghost var s := fs.s;
      var r := Perform(fs, now, held, ops[k]);
      ReachedMore(fs.geo, tree, files, ss, ops[..k], rs, now, held, s, ops[k], r, fs.s);
      OneMore(fs.geo, old(fs.s.disk), s.disk, fs.s.disk, ops[..k], ops[k]);
      NextPrefix(ops, k);
      now, held := TreeAfter(now, ops[k], r), FilesAfter(fs.geo.blockSize, held, ops[k], r);
      rs, ss := rs + [r], ss + [fs.s];
    }
    assert ops[..|ops|] == ops;
  }
}
