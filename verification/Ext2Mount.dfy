/** The mounted file system as an object whose methods update the disk in place. */
module Ext2Mount {
  import opened Common
  import opened Arith
  import opened Bytes
  import opened Ext2Layout
  import opened Ext2BlockMap
  import opened Ext2
  import opened Ext2File
  import opened Ext2Fs
  import opened Ext2DirBlock
  import opened Ext2Inode
  import opened Ext2Names

  /** A VFS node: the inode it stands for, whether that is a directory, and the length it last saw. */
  class VfsNode {
    const inode: nat
    const directory: bool
    var length: u32

    constructor (inode: nat, directory: bool, length: u32)
      ensures this.inode == inode && this.directory == directory && this.length == length
    {
      this.inode, this.directory, this.length := inode, directory, length;
    }
  }

  const ENOENT := 2
  const EIO := 5
  const ENOTDIR := 20

  const DOT: Name := [46]
  const DOT_DOT: Name := [46, 46]

  /** How many bytes a read that starts inside the node's length asks for, the test being in 32 bits. */
  function ReadLimit(length: u32, offset: u32, size: u32): nat
    requires offset < length
  {
    if Sum32(offset, size) > length then length - offset else size
  }

  predicate ReadClips(length: u32, offset: u32, size: u32) {
    offset >= length || offset + size < 0x1_0000_0000
  }

  /** A read stays within the node's length exactly if it starts behind it or its end does not wrap. */
  lemma ReadClipsExactly(length: u32, offset: u32, size: u32)
    ensures ReadClips(length, offset, size) <==>
      (offset < length ==> offset + ReadLimit(length, offset, size) <= length)
  {
  }

  /** mode & EXT2_S_IFDIR */
  predicate ModeIsDir(raw: Raw) {
    GetU32(raw, 0) / 0x4000 % 2 == 1
  }

  /** The directory bit is the fifteenth of the mode, whatever the other bits and the owner behind the mode are. */
  lemma DirectoryBit(raw: Raw, high: nat, low: nat)
    requires low < 0x4000
    ensures GetU32(raw, 0) == 0x8000 * high + 0x4000 + low ==> ModeIsDir(raw)
    ensures GetU32(raw, 0) == 0x8000 * high + low ==> !ModeIsDir(raw)
  {
    DivModUnique(0x4000, 2 * high + 1, low, 0x8000 * high + 0x4000 + low);
    DivModUnique(0x4000, 2 * high, low, 0x8000 * high + low);
  }

  /** Directories have mode 0755 and the directory bit, files 0644 and the bit of a regular file. */
  lemma ModesApart(raw: Raw)
    ensures GetU32(raw, 0) == 0x41ED ==> ModeIsDir(raw)
    ensures GetU32(raw, 0) == 0x81A4 ==> !ModeIsDir(raw)
  {
    DirectoryBit(raw, 0, 0x1ED);
    DirectoryBit(raw, 1, 0x1A4);
  }

  class FileSystem {
    const geo: Layout
    var s: State
    var counts: Counts
    ghost var owner: Owner

    ghost predicate Valid()
      reads this
    {
      Mounted(geo, s, owner) && InodesConserved(geo, s.disk, counts) && geo.inodesCount < 0x1_0000_0000
    }

    /** What a directory node promises about its inode. */
    ghost predicate IsDirectory(node: VfsNode)
      reads this
    {
      node.directory && DirAt(geo, s.disk, node.inode)
    }

    /** A directory node whose inode exists is a well-formed directory. */
    ghost predicate Understood(node: VfsNode)
      reads this
    {
      node.directory && 1 <= node.inode <= geo.inodesCount ==> DirAt(geo, s.disk, node.inode)
    }

    /** The size the inode on disk has. */
    ghost function SizeOf(n: nat): u32
      requires geo.TablesFit() && geo.OnDisk(s.disk)
      reads this
    {
      if 1 <= n <= geo.inodesCount then GetU32(InodeAt(geo, s.disk, n), SIZE_OFFSET) else 0
    }

    /** The write of `size` bytes at `offset` never lacks an index block. */
    ghost predicate CanWrite(n: nat, offset: nat, size: nat)
      requires geo.TablesFit() && geo.OnDisk(s.disk)
      reads this
    {
      1 <= n <= geo.inodesCount ==> Funded(geo, s, InodeAt(geo, s.disk, n), offset, offset + size)
    }

    /** Mounting takes the disk and the counters as they are. */
    constructor (geo: Layout, s: State, counts: Counts, ghost owner: Owner)
      requires Mounted(geo, s, owner) && InodesConserved(geo, s.disk, counts) && geo.inodesCount < 0x1_0000_0000
      ensures Valid() && this.geo == geo && this.s == s && this.counts == counts
    {
      this.geo, this.s, this.counts, this.owner := geo, s, counts, owner;
    }

    method ReadFileData(node: VfsNode, offset: u32, size: u32) returns (data: seq<byte>)
      requires Valid() && ReadClips(node.length, offset, size)
      ensures ReadResult(geo, s.disk, node.inode, node.length, offset, size, data)
    {
      if offset >= node.length {
        return [];
      }
      var limit := ReadLimit(node.length, offset, size);
      var ok, raw := ReadInode(geo, s.disk, node.inode);
      if !ok {
        return [];
      }
      data := ReadBlocks(geo, s, raw, offset, limit, node.inode, InodeTable(geo, s.disk), owner);
    }

    method WriteFileData(node: VfsNode, offset: nat, buffer: seq<byte>) returns (written: nat)
      requires Valid() && offset + |buffer| < 0x1_0000_0000
      requires CanWrite(node.inode, offset, |buffer|)
      modifies this`s, this`owner, node
      ensures Valid() && written <= |buffer|
      ensures !(1 <= node.inode <= geo.inodesCount) ==> written == 0 && s == old(s) && node.length == old(node.length)
      ensures 1 <= node.inode <= geo.inodesCount ==>
        && FileWritten(geo, old(s.disk), s.disk, node.inode, offset, buffer[..written])
        && SameInodeBitmaps(geo, old(s.disk), s.disk)
        && (written < |buffer| ==> Stopped(geo, s, InodeAt(geo, s.disk, node.inode), offset + written))
        && node.length == NodeLength(old(node.length), old(SizeOf(node.inode)), offset + written)
    {
      var ok, raw := ReadInode(geo, s.disk, node.inode);
      if !ok {
        return 0;
      }
      var size, s';
      ghost var owner';
      written, size, s', owner' := WriteFile(geo, s, node.inode, raw, offset, buffer, owner);
      if offset + written > GetU32(raw, SIZE_OFFSET) {
        node.length := size;
      }
      CountsKept(geo, s.disk, s'.disk, counts);
      s, owner := s', owner';
    }

    /** ext2_finddir: the node itself for "." and "..", a new node for a bound name, else null. */
    method FindDir(node: VfsNode, name: Name) returns (found: VfsNode?)
      requires Valid() && Understood(node) && |name| < 256
      ensures !node.directory ==> found == null
      ensures node.directory && name in {[46], [46, 46]} ==> found == node
      ensures node.directory && name !in {[46], [46, 46]} && !(1 <= node.inode <= geo.inodesCount) ==> found == null
      ensures IsDirectory(node) && name !in {[46], [46, 46]} ==>
        match Lookup(Names(geo, s.disk, node.inode), name)
        case None => found == null
        case Some(ino) =>
          if !(1 <= ino <= geo.inodesCount) then found == null
          else
            && found != null && found.inode == ino
            && found.length == GetU32(InodeAt(geo, s.disk, ino), SIZE_OFFSET)
            && found.directory == ModeIsDir(InodeAt(geo, s.disk, ino))
    {
      if !node.directory {
        return null;
      }
      if name == DOT || name == DOT_DOT {
        return node;
      }
      if !(1 <= node.inode <= geo.inodesCount) {
        return null;
      }
      var ino := Ext2Names.FindName(geo, s, node.inode, name, owner);
      if ino == 0 {
        return null;
      }
      var ok, raw := ReadInode(geo, s.disk, ino);
      if !ok {
        return null;
      }
      found := new VfsNode(ino, ModeIsDir(raw), GetU32(raw, SIZE_OFFSET));
    }

    /** The inode and the directory entry of a new file; 0 if there is none. */
    method MakeFile(dir: nat, name: Name) returns (n: u32)
      requires Valid() && |name| < 256 && RoomAt(geo, s.disk, dir, |name|) && InUse(geo, s.disk, dir)
      modifies this
      ensures Valid() && StillUsed(geo, old(s.disk), s.disk)
      ensures CreateOutcome(geo, old(s), old(counts), s, dir, name, n)
    {
      var s', counts';
      ghost var owner';
      n, s', counts', owner' := CreateFile(geo, s, counts, dir, name, owner);
      s, counts, owner := s', counts', owner';
    }

    /** ext2_create_file: a node of a fresh empty file bound to the name, or null with every file in use as it was. */
    method Create(dir: VfsNode, name: Name) returns (node: VfsNode?)
      requires Valid() && |name| < 256
      requires dir.directory ==> RoomAt(geo, s.disk, dir.inode, |name|) && InUse(geo, s.disk, dir.inode)
      modifies this
      ensures Valid()
      ensures node != null ==> dir.directory && !node.directory && node.length == 0 && node.inode != 0
      ensures !dir.directory ==> s == old(s)
      ensures dir.directory ==>
        CreateOutcome(geo, old(s), old(counts), s, dir.inode, name, if node == null then 0 else node.inode)
      ensures StillUsed(geo, old(s.disk), s.disk)
      ensures node != null ==> fresh(node)
    {
      node := null;
      if dir.directory {
        var n := MakeFile(dir.inode, name);
        if n != 0 {
          node := new VfsNode(n, false, 0);
        }
      }
    }

    /** ext2_unlink: the name is no longer bound; a negative error if it was not, or if there is no such directory. */
    method Remove(dir: VfsNode, name: Name) returns (r: int)
      requires Valid() && Understood(dir) && |name| < 256
      modifies this`s
      ensures Valid() && Understood(dir)
      ensures !dir.directory ==> r == -20 && s == old(s)
      ensures dir.directory && !(1 <= dir.inode <= geo.inodesCount) ==> r == -5 && s == old(s)
      ensures old(IsDirectory(dir)) ==>
        && r == (if Lookup(Names(geo, old(s.disk), dir.inode), name).Some? then 0 else -2)
        && exists ino: u32 :: (r == 0 <==> ino != 0) && Unlinked(geo, old(s.disk), s.disk, dir.inode, name, ino)
    {
      if !dir.directory {
        return -ENOTDIR;
      }
      if !(1 <= dir.inode <= geo.inodesCount) {
        return -EIO;
      }
      var ino, s' := Unlink(geo, s, dir.inode, name, owner);
      CountsKept(geo, s.disk, s'.disk, counts);
      s := s';
      r := if ino != 0 then 0 else -ENOENT;
    }

    /** A file just created under a new name is found there: the same inode, empty, and no directory. */
    method CreateThenFind(dir: VfsNode, name: Name) returns (made: VfsNode?, found: VfsNode?)
      requires Valid() && |name| < 256 && name !in {[46], [46, 46]} && dir.directory
      requires RoomAt(geo, s.disk, dir.inode, |name|) && InUse(geo, s.disk, dir.inode)
      requires Lookup(Names(geo, s.disk, dir.inode), name) == None
      modifies this
      ensures Valid()
      ensures made != null ==>
        found != null && found.inode == made.inode && !found.directory && found.length == made.length == 0
    {
      ghost var d := s.disk;
      found := null;
      made := Create(dir, name);
      if made != null {
        InsertBinds(geo, d, s.disk, dir.inode, Entry(name, made.inode));
        ModesApart(InodeAt(geo, s.disk, made.inode));
        found := FindDir(dir, name);
      }
    }

    /**
     * Round trip, exactly: what was just written is read back through the same node if and only if the node's length
     * covered it or the file grew; the length of a node made before another node grew the file is too small.
     */
    method WriteThenRead(node: VfsNode, offset: nat, buffer: seq<byte>) returns (written: nat, data: seq<byte>)
      requires Valid() && offset + |buffer| < 0x1_0000_0000 && CanWrite(node.inode, offset, |buffer|)
      requires 1 <= node.inode <= geo.inodesCount && buffer != []
      modifies this`s, this`owner, node
      ensures Valid()
      ensures written == |buffer| ==>
        (data == buffer <==> offset + |buffer| <= old(node.length) || offset + |buffer| > old(SizeOf(node.inode)))
    {
      ghost var d, length, size := s.disk, node.length, SizeOf(node.inode);
      written := WriteFileData(node, offset, buffer);
      data := ReadFileData(node, offset, |buffer|);
      if written == |buffer| {
        assert buffer[..written] == buffer;
        RoundTripExact(geo, d, s.disk, node.inode, offset, buffer, length, data);
      }
    }
  }
}
