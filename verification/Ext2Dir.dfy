/** Directories: files whose blocks are tiled by records, read and changed as a map from names to inodes. */
module Ext2Dir {
  import opened Common
  import opened Bytes
  import opened Ext2Layout
  import opened Ext2BlockMap
  import opened Ext2
  import opened Ext2File
  import opened Ext2Fs
  import opened Ext2DirBlock

  // ---- the entries of a directory ----

  ghost function BlockEntries(geo: Layout, d: Disk, raw: Raw, lb: nat): seq<Entry> {
    match FileBlock(geo, d, raw, lb)
    case None => []
    case Some(b) => Live(b, 0)
  }

  ghost function BlockLists(geo: Layout, d: Disk, raw: Raw, nb: nat): seq<seq<Entry>> {
    seq(nb, lb requires lb >= 0 => BlockEntries(geo, d, raw, lb))
  }

  /** The live entries of the first `nb` blocks, in order. */
  ghost function DirEntries(geo: Layout, d: Disk, raw: Raw, nb: nat): seq<Entry> {
    Flat(BlockLists(geo, d, raw, nb))
  }

  ghost predicate DirBlockOk(geo: Layout, d: Disk, raw: Raw, lb: nat) {
    var b := FileBlock(geo, d, raw, lb);
    b.Some? && |b.value| == geo.blockSize && Tiled(b.value, 0)
  }

  /** A directory of `nb` full blocks, all of them direct and all of them tiled. */
  ghost predicate IsDir(geo: Layout, d: Disk, raw: Raw, nb: nat) {
    && nb <= NDIR
    && Quot(GetU32(raw, SIZE_OFFSET), geo.blockSize) == nb && Rem(GetU32(raw, SIZE_OFFSET), geo.blockSize) == 0
    && forall lb: nat | lb < nb :: DirBlockOk(geo, d, raw, lb)
  }

  /** A directory at hand: its inode `raw` read from a sound state. */
  ghost predicate Opened(geo: Layout, s: State, owner: Owner, t: Table, n: nat, raw: Raw, nb: nat) {
    Good(geo, s, owner, t) && n in t && t[n] == raw && IsDir(geo, s.disk, raw, nb)
  }

  ghost predicate TypedIn(geo: Layout, d: Disk, raw: Raw, lb: nat, pos: nat, e: Entry, fileType: byte) {
    match FileBlock(geo, d, raw, lb)
    case None => false
    case Some(b) => TypedAt(b, pos, e, fileType)
  }

  /** One of the first `nb` blocks has a live record of the entry with this file type. */
  ghost predicate Typed(geo: Layout, d: Disk, raw: Raw, nb: nat, e: Entry, fileType: byte) {
    exists lb: nat, pos: nat | lb < nb :: TypedIn(geo, d, raw, lb, pos, e, fileType)
  }

  lemma TypedSame(geo: Layout, d: Disk, raw: Raw, d': Disk, raw': Raw, nb: nat, e: Entry, fileType: byte)
    requires Typed(geo, d, raw, nb, e, fileType)
    requires forall lb: nat | lb < nb :: FileBlock(geo, d', raw', lb) == FileBlock(geo, d, raw, lb)
    ensures Typed(geo, d', raw', nb, e, fileType)
  {
    var lb: nat, pos: nat :| lb < nb && TypedIn(geo, d, raw, lb, pos, e, fileType);
    assert TypedIn(geo, d', raw', lb, pos, e, fileType);
  }

  // ---- changing one block ----

  lemma EntriesSame(geo: Layout, d: Disk, raw: Raw, d': Disk, raw': Raw, nb: nat)
    requires forall lb: nat | lb < nb :: FileBlock(geo, d', raw', lb) == FileBlock(geo, d, raw, lb)
    ensures DirEntries(geo, d', raw', nb) == DirEntries(geo, d, raw, nb)
  {
    assert BlockLists(geo, d', raw', nb) == BlockLists(geo, d, raw, nb);
  }

  /** An entry inserted in one block is inserted in the directory. */
  lemma EntriesInserted(geo: Layout, d: Disk, raw: Raw, d': Disk, raw': Raw, nb: nat, k: nat, e: Entry)
    requires k < nb && Inserted(BlockEntries(geo, d, raw, k), BlockEntries(geo, d', raw', k), e)
    requires forall lb: nat | lb < nb && lb != k :: FileBlock(geo, d', raw', lb) == FileBlock(geo, d, raw, lb)
    ensures Inserted(DirEntries(geo, d, raw, nb), DirEntries(geo, d', raw', nb), e)
  {
    FlatInserted(BlockLists(geo, d, raw, nb), BlockLists(geo, d', raw', nb), k, e);
  }

  // ---- looking up ----

  /** Blocks a directory of this size has: (size + bs - 1) / bs. */
  lemma CeilAligned(size: nat, bs: nat)
    requires bs > 0 && Rem(size, bs) == 0
    ensures (size + bs - 1) / bs == Quot(size, bs)
  {
    QuotWithin(size, bs - 1, bs);
    QuotRem(size + bs - 1, bs);
  }

  /** The block behind a directory's logical block. */
  method DirBlock(geo: Layout, s: State, raw: Raw, lb: nat, ghost n: nat, ghost t: Table, ghost owner: Owner,
                  ghost nb: nat)
    returns (addr: u32)
    requires Opened(geo, s, owner, t, n, raw, nb) && lb < nb
    ensures addr == FileAddr(geo, s.disk, raw, lb) && 0 < addr < |s.disk|
    ensures FileBlock(geo, s.disk, raw, lb) == Some(s.disk[addr]) && Tiled(s.disk[addr], 0)
    ensures |s.disk[addr]| == geo.blockSize
  {
    assert DirBlockOk(geo, s.disk, raw, lb);
    var raw', s';
    ghost var owner';
    addr, raw', s', owner' := Direct(geo, s, raw, lb, false, n, t, owner);
  }

  /** The record at `pos` of logical block `lb` is live and has the name. */
  ghost predicate NamedAt(geo: Layout, d: Disk, raw: Raw, lb: nat, pos: nat, name: Name, ino: u32) {
    match FileBlock(geo, d, raw, lb)
    case None => false
    case Some(b) =>
      Reaches(b, 0, pos) && Tiled(b, pos) && pos < |b| && Ino(b, pos) == ino != 0 && EntryAt(b, pos).name == name
  }

  /** What a scan of one block says about the lookup of a name in it. */
  lemma ScannedBlock(b: Block, pos: nat, name: Name)
    requires Reaches(b, 0, pos) && Tiled(b, pos) && pos <= |b| && Lookup(LiveTo(b, 0, pos), name) == None
    requires pos < |b| ==> Ino(b, pos) != 0 && EntryAt(b, pos).name == name
    ensures Lookup(Live(b, 0), name) == if pos < |b| then Some(Ino(b, pos)) else None
  {
    LiveSplit(b, 0, pos);
    LookupConcat(LiveTo(b, 0, pos), Live(b, pos), name);
    if pos < |b| {
      LookupConcat(EntriesAt(b, pos), Live(b, pos + RecLen(b, pos)), name);
      LookupOne(EntryAt(b, pos), name);
    }
  }

  /** The scan of one block. */
  method ScanBlock(geo: Layout, s: State, raw: Raw, lb: nat, name: Name, ghost n: nat, ghost t: Table,
                   ghost owner: Owner, ghost nb: nat)
    returns (ino: u32, pos: nat)
    requires Opened(geo, s, owner, t, n, raw, nb) && lb < nb && |name| < 256
    ensures Lookup(BlockEntries(geo, s.disk, raw, lb), name) == if ino == 0 then None else Some(ino)
    ensures ino != 0 ==> NamedAt(geo, s.disk, raw, lb, pos, name, ino)
  {
    var addr := DirBlock(geo, s, raw, lb, n, t, owner, nb);
    pos := FindName(s.disk[addr], name);
    ScannedBlock(s.disk[addr], pos, name);
    ino := if pos < |s.disk[addr]| then Ino(s.disk[addr], pos) else 0;
  }

  /** Where a name is: the block, the record's position in it and its inode; inode 0 when the name is absent. */
  method FindEntry(geo: Layout, s: State, raw: Raw, name: Name, ghost n: nat, ghost t: Table, ghost owner: Owner,
                   ghost nb: nat)
    returns (ino: u32, lb: nat, pos: nat)
    requires Opened(geo, s, owner, t, n, raw, nb) && |name| < 256
    ensures Lookup(DirEntries(geo, s.disk, raw, nb), name) == if ino == 0 then None else Some(ino)
    ensures ino != 0 ==> lb < nb && NamedAt(geo, s.disk, raw, lb, pos, name, ino)
  {
    CeilAligned(GetU32(raw, SIZE_OFFSET), geo.blockSize);
    var blocks := (GetU32(raw, SIZE_OFFSET) + geo.blockSize - 1) / geo.blockSize;
    ghost var ls := BlockLists(geo, s.disk, raw, nb);
    ino, lb, pos := 0, 0, 0;
    while lb < blocks
      invariant lb <= nb && Lookup(Flat(ls[..lb]), name) == None && ino == 0
    {
      ino, pos := ScanBlock(geo, s, raw, lb, name, n, t, owner, nb);
      if ino != 0 {
        FlatFound(ls, lb, name, ino);
        return;
      }
      FlatAbsent(ls, lb, name);
      lb := lb + 1;
    }
    assert ls[..nb] == ls;
  }

  // ---- rewriting a directory block ----

  /** A tiled block written over a directory's block, with one entry more or less, is just that to the directory. */
  lemma StoreDirBlock(geo: Layout, s: State, owner: Owner, t: Table, n: nat, nb: nat, lb: nat, addr: u32, b: Block)
    returns (s': State)
    requires Good(geo, s, owner, t) && n in t && IsDir(geo, s.disk, t[n], nb) && lb < nb
    requires addr == FileAddr(geo, s.disk, t[n], lb) && |b| == geo.blockSize && Tiled(b, 0)
    ensures 0 < addr < |s.disk| && s' == s.(disk := s.disk[addr := b]) && Good(geo, s', owner, t)
    ensures OthersSame(geo, s.disk, t, s'.disk, t, n) && IsDir(geo, s'.disk, t[n], nb)
    ensures BlockEntries(geo, s'.disk, t[n], lb) == Live(b, 0) && FileBlock(geo, s'.disk, t[n], lb) == Some(b)
    ensures forall l: nat | l != lb :: FileBlock(geo, s'.disk, t[n], l) == FileBlock(geo, s.disk, t[n], l)
  {
    assert DirBlockOk(geo, s.disk, t[n], lb);
    s' := StoreChunk(geo, s, owner, t, n, lb, 0, b, addr);
    assert Splice(s.disk[addr], 0, b) == b;
    forall l: nat | l < nb ensures DirBlockOk(geo, s'.disk, t[n], l) {
      assert DirBlockOk(geo, s.disk, t[n], l);
    }
  }

  /** The record's removal, seen from the block's entries. */
  lemma RemovedEntry(b: Block, pos: nat)
    requires Reaches(b, 0, pos) && Tiled(b, pos) && pos < |b| && Ino(b, pos) != 0
    ensures Tiled(Removed(b, pos), 0) && Inserted(Live(Removed(b, pos), 0), Live(b, 0), EntryAt(b, pos))
  {
    RemovedLive(b, pos);
    InsertedAt(LiveTo(b, 0, pos), Live(b, pos + RecLen(b, pos)), Live(Removed(b, pos), 0), Live(b, 0), EntryAt(b, pos));
  }

  /** ext2_unlink: the name's entry goes, everything else stays; without the name nothing happens. */
  method UnlinkEntry(geo: Layout, s: State, raw: Raw, name: Name, ghost n: nat, ghost t: Table, ghost owner: Owner,
                     ghost nb: nat)
    returns (ino: u32, s': State)
    requires Opened(geo, s, owner, t, n, raw, nb) && |name| < 256
    ensures Good(geo, s', owner, t) && OthersSame(geo, s.disk, t, s'.disk, t, n) && IsDir(geo, s'.disk, raw, nb)
    ensures Lookup(DirEntries(geo, s.disk, raw, nb), name) == if ino == 0 then None else Some(ino)
    ensures ino == 0 ==> s' == s
    ensures ino != 0 ==> Inserted(DirEntries(geo, s'.disk, raw, nb), DirEntries(geo, s.disk, raw, nb), Entry(name, ino))
  {
    var lb, pos;
    ino, lb, pos := FindEntry(geo, s, raw, name, n, t, owner, nb);
    s' := s;
    if ino != 0 {
      var addr := DirBlock(geo, s, raw, lb, n, t, owner, nb);
      var b := s.disk[addr];
      RemovedEntry(b, pos);
      s' := s.(disk := s.disk[addr := Removed(b, pos)]);
      ghost var s1 := StoreDirBlock(geo, s, owner, t, n, nb, lb, addr, Removed(b, pos));
      EntriesInserted(geo, s'.disk, raw, s.disk, raw, nb, lb, Entry(name, ino));
    }
  }

  // ---- adding ----

  /** The first free record of logical block `lb` has room for a name of this length. */
  ghost predicate RoomIn(geo: Layout, d: Disk, raw: Raw, lb: nat, len: nat) {
    match FileBlock(geo, d, raw, lb)
    case None => false
    case Some(b) => Room(b, 0, len) < |b|
  }

  /** None of the first `nb` blocks has room. */
  ghost predicate NoRoom(geo: Layout, d: Disk, raw: Raw, nb: nat, len: nat) {
    nb == 0 || (!RoomIn(geo, d, raw, nb - 1, len) && NoRoom(geo, d, raw, nb - 1, len))
  }

  lemma {:induction false} NoRoomBefore(geo: Layout, d: Disk, raw: Raw, nb: nat, len: nat, lb: nat)
    requires NoRoom(geo, d, raw, nb, len) && lb < nb
    ensures !RoomIn(geo, d, raw, lb, len)
  {
    if lb < nb - 1 {
      NoRoomBefore(geo, d, raw, nb - 1, len, lb);
    }
  }

  ghost predicate HasPlace(geo: Layout, d: Disk, raw: Raw, nb: nat, len: nat) {
    exists lb: nat | lb < nb :: RoomIn(geo, d, raw, lb, len)
  }

  /** The first free record of one block, if it has room. */
  method ScanRoom(geo: Layout, s: State, raw: Raw, lb: nat, len: nat, ghost n: nat, ghost t: Table, ghost owner: Owner,
                  ghost nb: nat)
    returns (found: bool, pos: nat)
    requires Opened(geo, s, owner, t, n, raw, nb) && lb < nb
    ensures if found then PlaceAt(geo, s.disk, raw, lb, pos, len) else !RoomIn(geo, s.disk, raw, lb, len)
  {
    var addr := DirBlock(geo, s, raw, lb, n, t, owner, nb);
    pos := FindRoom(s.disk[addr], len);
    found := pos < |s.disk[addr]|;
  }

  /** The first block with room, and its first free record; the number of blocks if none has room. */
  method FindPlace(geo: Layout, s: State, raw: Raw, blocks: nat, len: nat, ghost n: nat, ghost t: Table,
                   ghost owner: Owner)
    returns (lb: nat, pos: nat)
    requires Opened(geo, s, owner, t, n, raw, blocks)
    ensures lb <= blocks && NoRoom(geo, s.disk, raw, lb, len)
    ensures lb < blocks ==> PlaceAt(geo, s.disk, raw, lb, pos, len)
  {
    lb, pos := 0, 0;
    while lb < blocks
      invariant lb <= blocks && NoRoom(geo, s.disk, raw, lb, len)
    {
      var found;
      found, pos := ScanRoom(geo, s, raw, lb, len, n, t, owner, blocks);
      if found {
        return;
      }
      lb := lb + 1;
    }
  }

  ghost predicate PlaceAt(geo: Layout, d: Disk, raw: Raw, lb: nat, pos: nat, len: nat) {
    match FileBlock(geo, d, raw, lb)
    case None => false
    case Some(b) => pos == Room(b, 0, len) < |b| && Tiled(b, pos) && HasRoom(b, pos, len)
  }

  lemma PlaceIsRoom(geo: Layout, d: Disk, raw: Raw, nb: nat, lb: nat, pos: nat, len: nat)
    requires lb < nb && PlaceAt(geo, d, raw, lb, pos, len)
    ensures RoomIn(geo, d, raw, lb, len) && HasPlace(geo, d, raw, nb, len)
  {
    assert RoomIn(geo, d, raw, lb, len);
  }

  /** The scan over existing blocks: the first block whose first free record has room takes the entry there. */
  method PlaceEntry(geo: Layout, s: State, raw: Raw, blocks: nat, name: Name, ino: u32, fileType: byte, ghost n: nat,
                    ghost t: Table,
                    ghost owner: Owner)
    returns (found: bool, s': State, ghost lb: nat)
    requires Opened(geo, s, owner, t, n, raw, blocks) && |name| < 256 && ino != 0
    ensures Good(geo, s', owner, t) && OthersSame(geo, s.disk, t, s'.disk, t, n) && IsDir(geo, s'.disk, raw, blocks)
    ensures found <==> HasPlace(geo, s.disk, raw, blocks, |name|)
    ensures !found ==> s' == s
    ensures found ==> lb < blocks && RoomIn(geo, s.disk, raw, lb, |name|) && NoRoom(geo, s.disk, raw, lb, |name|)
    ensures found ==> forall l: nat | l != lb :: FileBlock(geo, s'.disk, raw, l) == FileBlock(geo, s.disk, raw, l)
    ensures found ==>
      Inserted(DirEntries(geo, s.disk, raw, blocks), DirEntries(geo, s'.disk, raw, blocks), Entry(name, ino))
    ensures found ==> Typed(geo, s'.disk, raw, blocks, Entry(name, ino), fileType) && Left(geo, s') == Left(geo, s)
  {
    var at, pos := FindPlace(geo, s, raw, blocks, |name|, n, t, owner);
    found, s', lb := at < blocks, s, at;
    if !found {
      forall l: nat | l < blocks ensures !RoomIn(geo, s.disk, raw, l, |name|) {
        NoRoomBefore(geo, s.disk, raw, blocks, |name|, l);
      }
    } else {
      PlaceIsRoom(geo, s.disk, raw, blocks, at, pos, |name|);
      s' := TakeRecord(geo, s, raw, blocks, at, pos, name, ino, fileType, n, t, owner);
    }
  }

  /** The free record at a place takes the entry. */
  method TakeRecord(geo: Layout, s: State, raw: Raw, ghost blocks: nat, lb: nat, pos: nat, name: Name, ino: u32,
                    fileType: byte, ghost n: nat, ghost t: Table, ghost owner: Owner)
    returns (s': State)
    requires Opened(geo, s, owner, t, n, raw, blocks) && |name| < 256 && ino != 0
    requires lb < blocks && PlaceAt(geo, s.disk, raw, lb, pos, |name|)
    ensures Good(geo, s', owner, t) && OthersSame(geo, s.disk, t, s'.disk, t, n) && IsDir(geo, s'.disk, raw, blocks)
    ensures forall l: nat | l != lb :: FileBlock(geo, s'.disk, raw, l) == FileBlock(geo, s.disk, raw, l)
    ensures Inserted(DirEntries(geo, s.disk, raw, blocks), DirEntries(geo, s'.disk, raw, blocks), Entry(name, ino))
    ensures Typed(geo, s'.disk, raw, blocks, Entry(name, ino), fileType) && Left(geo, s') == Left(geo, s)
  {
    var addr := DirBlock(geo, s, raw, lb, n, t, owner, blocks);
    var b := s.disk[addr];
    var c := Placed(b, pos, name, ino, fileType);
    PlacedLive(b, pos, name, ino, fileType, c);
    s' := s.(disk := s.disk[addr := c]);
    ghost var s1 := StoreDirBlock(geo, s, owner, t, n, blocks, lb, addr, c);
    EntriesInserted(geo, s.disk, raw, s'.disk, raw, blocks, lb, Entry(name, ino));
    TakenTyped(geo, s'.disk, raw, blocks, lb, pos, b, c, name, ino, fileType);
  }

  lemma TakenTyped(geo: Layout, d: Disk, raw: Raw, nb: nat, lb: nat, pos: nat, b: Block, c: Block, name: Name, ino: u32,
                   fileType: byte)
    requires lb < nb && FileBlock(geo, d, raw, lb) == Some(c)
    requires HasRoom(b, pos, |name|) && Tiled(b, pos) && |name| < 256 && ino != 0
    requires c == Placed(b, pos, name, ino, fileType)
    ensures Typed(geo, d, raw, nb, Entry(name, ino), fileType)
  {
    PlacedTyped(b, pos, name, ino, fileType, c);
    assert TypedIn(geo, d, raw, lb, pos, Entry(name, ino), fileType);
  }

  /** A new block holding just the entry, as the directory's last block. */
  lemma AppendedEntries(geo: Layout, d: Disk, raw: Raw, d': Disk, raw': Raw, nb: nat, e: Entry)
    requires BlockEntries(geo, d', raw', nb) == [e]
    requires forall lb: nat | lb < nb :: FileBlock(geo, d', raw', lb) == FileBlock(geo, d, raw, lb)
    ensures Inserted(DirEntries(geo, d, raw, nb), DirEntries(geo, d', raw', nb + 1), e)
  {
    var ls, ls' := BlockLists(geo, d, raw, nb), BlockLists(geo, d', raw', nb + 1);
    forall lb: nat | lb < nb ensures ls'[lb] == ls[lb] {
    }
    assert ls' == ls + [[e]];
    FlatAppended(ls, e);
  }

  lemma AppendedDir(geo: Layout, d: Disk, raw: Raw, d': Disk, raw': Raw, nb: nat)
    requires IsDir(geo, d, raw, nb) && nb < NDIR && DirBlockOk(geo, d', raw', nb)
    requires GetU32(raw', SIZE_OFFSET) == GetU32(raw, SIZE_OFFSET) + geo.blockSize
    requires forall lb: nat | lb < nb :: FileBlock(geo, d', raw', lb) == FileBlock(geo, d, raw, lb)
    ensures IsDir(geo, d', raw', nb + 1)
  {
    forall lb: nat | lb < nb ensures DirBlockOk(geo, d', raw', lb) {
      assert DirBlockOk(geo, d, raw, lb);
    }
  }

  /** Allocate, link at slot `k` and fill with `b`: what the files see. */
  lemma FillLeaf(geo: Layout, s: State, s1: State, t: Table, owner: Owner, n: nat, k: nat, g: nat, i: nat, b: Block)
    returns (raw1: Raw, s': State, owner': Owner)
    requires Good(geo, s, owner, t) && n in t && k < NDIR && |b| == geo.blockSize
    requires Allocated(geo, s.disk, s1.disk, g, i) && Conserved(geo, s1.disk, s1.free, s1.total)
    ensures 0 < geo.BlockNo(g, i) < |s1.disk| && geo.BlockNo(g, i) < 0x1_0000_0000
    ensures raw1 == SetU32(t[n], PTR_OFFSET + 4 * k, geo.BlockNo(g, i))
    ensures s' == s1.(disk := s1.disk[geo.BlockNo(g, i) := b])
    ensures Good(geo, s', owner', t[n := raw1]) && OthersSame(geo, s.disk, t, s'.disk, t[n := raw1], n)
    ensures FileBlock(geo, s'.disk, raw1, k) == Some(b)
    ensures forall lb: nat | lb != k :: FileBlock(geo, s'.disk, raw1, lb) == FileBlock(geo, s.disk, t[n], lb)
  {
    var f := geo.BlockNo(g, i);
    FillReady(geo, s.disk, s1.disk, t, owner, n, Root(k), g, i);
    var d', t';
    d', t', owner' := FillSlot(geo, s.disk, s1.disk, t, owner, n, Root(k), g, i);
    raw1 := SetU32(t[n], PTR_OFFSET + 4 * k, f);
    assert t' == t[n := raw1] && d' == s1.disk && LeafNode(geo, k) == Some(Root(k));
    assert FileAddr(geo, s1.disk, raw1, k) == f;
    LeafOthers(geo, s.disk, t, s1.disk, t', n, k, f);
    s' := StoreChunk(geo, s1, owner', t', n, k, 0, b, f);
    assert Splice(s1.disk[f], 0, b) == b;
    TwiceBut(geo, s.disk, t, s1.disk, s'.disk, t[n := raw1], n, k);
  }

  /** Two changes to one block of one file. */
  lemma TwiceBut(geo: Layout, d: Disk, t: Table, d1: Disk, d': Disk, t': Table, n: nat, k: nat)
    requires SameFilesBut(geo, d, t, d1, t', n, k) && SameFilesBut(geo, d1, t', d', t', n, k) && n in t
    requires SameTables(geo, d, d1) && SameTables(geo, d1, d')
    ensures OthersSame(geo, d, t, d', t', n)
    ensures forall lb: nat | lb != k :: FileBlock(geo, d', t'[n], lb) == FileBlock(geo, d, t[n], lb)
  {
    forall m, lb: nat | m in t && (m, lb) != (n, k)
      ensures FileBlock(geo, d', t'[m], lb) == FileBlock(geo, d, t[m], lb)
    {
      assert FileBlock(geo, d1, t'[m], lb) == FileBlock(geo, d, t[m], lb);
    }
  }

  lemma LeafOthers(geo: Layout, d: Disk, t: Table, d': Disk, t': Table, n: nat, k: nat, f: u32)
    requires SlotFilled(geo, d, t, d', t', n, Root(k), f) && k < NDIR && n in t
    ensures SameFilesBut(geo, d, t, d', t', n, k) && FileBlock(geo, d', t'[n], k) == Some(Zeros(geo.blockSize))
  {
    assert LeafNode(geo, k) == Some(Root(k));
    forall m, l: nat | m in t && (m, l) != (n, k)
      ensures FileBlock(geo, d', t'[m], l) == FileBlock(geo, d, t[m], l)
    {
      if LeafNode(geo, l) == LeafNode(geo, k) {
        LeafNodeInjective(geo, l, k);
      }
    }
  }

  /** A linked and filled last block, the inode restamped: the directory has one entry more. */
  lemma AppendDone(geo: Layout, s: State, s': State, t: Table, owner: Owner, n: nat, nb: nat, raw1: Raw, raw': Raw,
                   b: Block, e: Entry)
    requires n in t && IsDir(geo, s.disk, t[n], nb) && nb < NDIR && |b| == geo.blockSize && Tiled(b, 0)
    requires Live(b, 0) == [e]
    requires Good(geo, s', owner, t[n := raw1]) && OthersSame(geo, s.disk, t, s'.disk, t[n := raw1], n)
    requires FileBlock(geo, s'.disk, raw1, nb) == Some(b)
    requires forall lb: nat | lb != nb :: FileBlock(geo, s'.disk, raw1, lb) == FileBlock(geo, s.disk, t[n], lb)
    requires forall i | PTR_OFFSET <= i < 128 :: raw'[i] == raw1[i]
    requires GetU32(raw', SIZE_OFFSET) == GetU32(t[n], SIZE_OFFSET) + geo.blockSize
    ensures Good(geo, s', owner, t[n := raw']) && OthersSame(geo, s.disk, t, s'.disk, t[n := raw'], n)
    ensures IsDir(geo, s'.disk, raw', nb + 1)
    ensures Inserted(DirEntries(geo, s.disk, t[n], nb), DirEntries(geo, s'.disk, raw', nb + 1), e)
  {
    Restamped(geo, s, s', t, owner, n, raw1, raw');
    AppendedDir(geo, s.disk, t[n], s'.disk, raw', nb);
    AppendedEntries(geo, s.disk, t[n], s'.disk, raw', nb, e);
  }

  /** All of it after a successful allocation. */
  lemma AppendLinked(geo: Layout, s: State, s1: State, s': State, t: Table, owner: Owner, n: nat, nb: nat, g: nat,
                     i: nat, raw': Raw, b: Block, e: Entry)
    returns (owner': Owner)
    requires Good(geo, s, owner, t) && n in t && IsDir(geo, s.disk, t[n], nb) && nb < NDIR
    requires Allocated(geo, s.disk, s1.disk, g, i) && Conserved(geo, s1.disk, s1.free, s1.total)
    requires |b| == geo.blockSize && Tiled(b, 0) && Live(b, 0) == [e]
    requires var f := geo.BlockNo(g, i); f < |s1.disk| && f < 0x1_0000_0000 && s' == s1.(disk := s1.disk[f := b])
    requires var raw1 := SetU32(t[n], PTR_OFFSET + 4 * nb, geo.BlockNo(g, i));
      forall i | PTR_OFFSET <= i < 128 :: raw'[i] == raw1[i]
    requires GetU32(raw', SIZE_OFFSET) == GetU32(t[n], SIZE_OFFSET) + geo.blockSize
    ensures Good(geo, s', owner', t[n := raw']) && OthersSame(geo, s.disk, t, s'.disk, t[n := raw'], n)
    ensures IsDir(geo, s'.disk, raw', nb + 1)
    ensures Inserted(DirEntries(geo, s.disk, t[n], nb), DirEntries(geo, s'.disk, raw', nb + 1), e)
  {
    var raw1, s2;
    raw1, s2, owner' := FillLeaf(geo, s, s1, t, owner, n, nb, g, i, b);
    AppendDone(geo, s, s', t, owner', n, nb, raw1, raw', b, e);
  }

  /** The directory `n` gained the entry and no other file changed; the inode is still only in memory. */
  ghost predicate EntryAdded(geo: Layout, s: State, s': State, t: Table, owner': Owner, n: nat, raw': Raw, nb: nat,
                             nb': nat, e: Entry) {
    && n in t && Good(geo, s', owner', t[n := raw']) && OthersSame(geo, s.disk, t, s'.disk, t[n := raw'], n)
    && IsDir(geo, s'.disk, raw', nb') && OtherFields(t[n], raw')
    && Inserted(DirEntries(geo, s.disk, t[n], nb), DirEntries(geo, s'.disk, raw', nb'), e)
  }

  /** Block `f` is logical block `lb` of file `n` in a sound block map. */
  ghost predicate Reachable(geo: Layout, d: Disk, t: Table, n: nat, lb: nat, f: u32) {
    n in t && FileAddr(geo, d, t[n], lb) == f && exists owner :: View(geo, d, t, owner)
  }

  /**
   * Past the direct slots the store overwrites the indirect pointer: logical block 12 is then not the new block but
   * the one whose number is the new entry's inode number, and if the two agree, the block map is no longer sound.
   */
  lemma ThirteenthBlock(geo: Layout, d: Disk, t: Table, n: nat, raw': Raw, f: u32, name: Name, ino: u32, fileType: byte)
    requires 0 < f < |d| && |name| < 256 && ino != 0 && n in t
    requires GetU32(raw', PTR_OFFSET + 4 * NDIR) == f
    requires d[f] == WithRecord(Zeros(geo.blockSize), 0, ino, geo.blockSize, name, fileType)
    ensures FileAddr(geo, d, raw', NDIR) == ino && !Reachable(geo, d, t[n := raw'], n, NDIR, f)
  {
    var x, t' := Child(Root(IND), 0), t[n := raw'];
    assert LeafNode(geo, NDIR) == Some(x);
    assert Addr(geo, d, raw', Root(IND)) == f;
    if Reachable(geo, d, t', n, NDIR, f) {
      var owner :| View(geo, d, t', owner);
      OwnedBy(geo, d, t', owner, n, Root(IND));
      OwnedBy(geo, d, t', owner, n, x);
      assert false;
    }
  }

  /** The inode after a new block `f` was made block number `blocks` of a directory. */
  function Lengthened(geo: Layout, raw: Raw, blocks: nat, f: u32): (raw': Raw)
    requires blocks <= NDIR && GetU32(raw, SIZE_OFFSET) + geo.blockSize < 0x1_0000_0000
    ensures GetU32(raw', SIZE_OFFSET) == GetU32(raw, SIZE_OFFSET) + geo.blockSize
    ensures forall i | PTR_OFFSET <= i < 128 :: raw'[i] == SetU32(raw, PTR_OFFSET + 4 * blocks, f)[i]
    ensures GetU32(raw', PTR_OFFSET + 4 * blocks) == f && OtherFields(raw, raw')
  {
    var size := GetU32(raw, SIZE_OFFSET) + geo.blockSize;
    Stamp(SetU32(raw, PTR_OFFSET + 4 * blocks, f), size, WholeBlocks(geo, size))
  }

  lemma DirectReachable(geo: Layout, d: Disk, t: Table, owner: Owner, n: nat, k: nat, f: u32)
    requires View(geo, d, t, owner) && n in t && k < NDIR && GetU32(t[n], PTR_OFFSET + 4 * k) == f
    ensures Reachable(geo, d, t, n, k, f)
  {
    assert LeafNode(geo, k) == Some(Root(k));
  }

  /** What the append leaves after its allocation: the entry, if and only if there was a direct slot for the block. */
  lemma AppendExact(geo: Layout, s: State, s1: State, s': State, t: Table, owner: Owner, n: nat, blocks: nat, g: nat,
                    i: nat, f: u32,
                    raw': Raw, b: Block, name: Name, ino: u32, fileType: byte)
    returns (owner': Owner)
    requires Good(geo, s, owner, t) && n in t && IsDir(geo, s.disk, t[n], blocks) && |name| < 256 && ino != 0
    requires GetU32(t[n], SIZE_OFFSET) + geo.blockSize < 0x1_0000_0000 && raw' == Lengthened(geo, t[n], blocks, f)
    requires Allocated(geo, s.disk, s1.disk, g, i) && f == geo.BlockNo(g, i) && f != 0
    requires Conserved(geo, s1.disk, s1.free, s1.total)
    requires b == WithRecord(Zeros(geo.blockSize), 0, ino, geo.blockSize, name, fileType)
    requires f < |s1.disk| && s' == s1.(disk := s1.disk[f := b])
    ensures blocks < NDIR ==> EntryAdded(geo, s, s', t, owner', n, raw', blocks, blocks + 1, Entry(name, ino))
    ensures blocks < NDIR ==> Typed(geo, s'.disk, raw', blocks + 1, Entry(name, ino), fileType)
    ensures Reachable(geo, s'.disk, t[n := raw'], n, blocks, f) <==> blocks < NDIR
  {
    FreshBlock(geo.blockSize, name, ino, fileType);
    if blocks < NDIR {
      owner' := AppendLinked(geo, s, s1, s', t, owner, n, blocks, g, i, raw', b, Entry(name, ino));
      DirectReachable(geo, s'.disk, t[n := raw'], owner', n, blocks, f);
      assert LeafNode(geo, blocks) == Some(Root(blocks));
      assert TypedIn(geo, s'.disk, raw', blocks, 0, Entry(name, ino), fileType);
    } else {
      owner' := owner;
      ThirteenthBlock(geo, s'.disk, t, n, raw', f, name, ino, fileType);
    }
  }

  /** No block had room: a new last block is allocated for the entry. */
  method AppendEntry(geo: Layout, s: State, raw: Raw, blocks: nat, name: Name, ino: u32, fileType: byte, ghost n: nat,
                     ghost t: Table,
                     ghost owner: Owner)
    returns (ok: bool, raw': Raw, s': State, ghost owner': Owner, ghost f: u32)
    requires Opened(geo, s, owner, t, n, raw, blocks)
    requires |name| < 256 && ino != 0 && GetU32(raw, SIZE_OFFSET) + geo.blockSize < 0x1_0000_0000
    ensures !ok ==> raw' == raw && s' == s && owner' == owner && Left(geo, s) == 0
    ensures ok && blocks < NDIR ==> EntryAdded(geo, s, s', t, owner', n, raw', blocks, blocks + 1, Entry(name, ino))
    ensures ok && blocks < NDIR ==> Typed(geo, s'.disk, raw', blocks + 1, Entry(name, ino), fileType)
    ensures ok ==> (Reachable(geo, s'.disk, t[n := raw'], n, blocks, f) <==> blocks < NDIR)
    ensures ok ==> Left(geo, s') == Left(geo, s) - 1 >= 0
  {
    var block, s1;
    ghost var g, i;
    block, s1, g, i := AllocateBlock(geo, s);
    ok, f := block != 0, block;
    if !ok {
      return false, raw, s, owner, f;
    }
    var b := WithRecord(Zeros(geo.blockSize), 0, ino, geo.blockSize, name, fileType);
    s' := s1.(disk := s1.disk[block := b]);
    raw' := Lengthened(geo, raw, blocks, block);
    owner' := AppendExact(geo, s, s1, s', t, owner, n, blocks, g, i, block, raw', b, name, ino, fileType);
  }

  /** Rewriting size and block count of an inode changes neither the invariant nor any block. */
  lemma Restamped(geo: Layout, s: State, s': State, t: Table, owner: Owner, n: nat, raw: Raw, raw': Raw)
    requires n in t && Good(geo, s', owner, t[n := raw]) && OthersSame(geo, s.disk, t, s'.disk, t[n := raw], n)
    requires forall i | PTR_OFFSET <= i < 128 :: raw'[i] == raw[i]
    ensures Good(geo, s', owner, t[n := raw']) && OthersSame(geo, s.disk, t, s'.disk, t[n := raw'], n)
    ensures forall lb: nat :: FileBlock(geo, s'.disk, raw', lb) == FileBlock(geo, s'.disk, raw, lb)
  {
    StampedView(geo, s'.disk, t, owner, n, raw, raw');
    forall lb: nat ensures FileBlock(geo, s'.disk, raw', lb) == FileBlock(geo, s'.disk, raw, lb) {
      StampFiles(geo, s'.disk, raw, raw', lb);
    }
    forall m, lb: nat | m in t && m != n
      ensures FileBlock(geo, s'.disk, t[n := raw'][m], lb) == FileBlock(geo, s.disk, t[m], lb)
    {
      assert FileBlock(geo, s'.disk, t[n := raw][m], lb) == FileBlock(geo, s.disk, t[m], lb);
    }
  }

  // ---- writing the directory's inode back ----

  lemma OthersSameFile(geo: Layout, d: Disk, d2: Disk, d': Disk, t: Table, n: nat, raw: Raw, m: nat)
    requires geo.TablesFit() && geo.OnDisk(d) && geo.OnDisk(d') && 1 <= m <= geo.inodesCount && m != n
    requires InodeTable(geo, d) == t && InodeTable(geo, d') == t[n := raw]
    requires OthersSame(geo, d, t, d2, t[n := raw], n) && SameFiles(geo, d2, t[n := raw], d', t[n := raw])
    ensures SameFile(geo, d, d', m)
  {
    TableEntry(geo, d, t, m);
    TableEntry(geo, d', t[n := raw], m);
    forall lb: nat ensures FileBlock(geo, d', t[m], lb) == FileBlock(geo, d, t[m], lb) {
      assert FileBlock(geo, d', t[n := raw][m], lb) == FileBlock(geo, d2, t[n := raw][m], lb);
    }
  }

  lemma SameDir(geo: Layout, d: Disk, d': Disk, raw: Raw, nb: nat)
    requires IsDir(geo, d, raw, nb) && forall lb: nat :: FileBlock(geo, d', raw, lb) == FileBlock(geo, d, raw, lb)
    ensures IsDir(geo, d', raw, nb) && DirEntries(geo, d', raw, nb) == DirEntries(geo, d, raw, nb)
  {
    EntriesSame(geo, d, raw, d', raw, nb);
    forall lb: nat | lb < nb ensures DirBlockOk(geo, d', raw, lb) {
      assert DirBlockOk(geo, d, raw, lb);
    }
  }

  lemma SameFits(geo: Layout, d: Disk, d': Disk, raw: Raw, nb: nat, len: nat)
    requires Fits(geo, d, raw, nb, len) && forall lb: nat :: FileBlock(geo, d', raw, lb) == FileBlock(geo, d, raw, lb)
    ensures Fits(geo, d', raw, nb, len)
  {
    if nb >= NDIR {
      var lb: nat :| lb < nb && RoomIn(geo, d, raw, lb, len);
      assert RoomIn(geo, d', raw, lb, len);
    }
  }

  /**
   * The state `s2` with the directory's inode stored: mounted again, with the same directory and the same other
   * files.
   */
  lemma DirWrittenBack(geo: Layout, s: State, s2: State, s': State, t: Table, owner: Owner, owner2: Owner, n: nat,
                       raw2: Raw, nb: nat)
    requires Mounted(geo, s, owner) && t == InodeTable(geo, s.disk) && n in t
    requires Good(geo, s2, owner2, t[n := raw2]) && OthersSame(geo, s.disk, t, s2.disk, t[n := raw2], n)
    requires s' == s2.(disk := InodeStored(geo, s2.disk, n, raw2)) && IsDir(geo, s2.disk, raw2, nb)
    ensures Mounted(geo, s', owner2) && InodeAt(geo, s'.disk, n) == raw2
    ensures OnlyChanged(geo, s.disk, s'.disk, n) && SameInodeBitmaps(geo, s.disk, s'.disk)
    ensures IsDir(geo, s'.disk, raw2, nb) && DirEntries(geo, s'.disk, raw2, nb) == DirEntries(geo, s2.disk, raw2, nb)
    ensures forall lb: nat :: FileBlock(geo, s'.disk, raw2, lb) == FileBlock(geo, s2.disk, raw2, lb)
  {
    TableKept(geo, s.disk, s2.disk);
    InodeWrittenBack(geo, s2, t, owner2, n, raw2, raw2, s');
    TableBitmaps(geo, s2.disk, geo.TableBlock(n), Splice(s2.disk[geo.TableBlock(n)], geo.Within(n), raw2));
    TableEntry(geo, s'.disk, t[n := raw2], n);
    forall m: nat | 1 <= m <= geo.inodesCount && m != n ensures SameFile(geo, s.disk, s'.disk, m) {
      OthersSameFile(geo, s.disk, s2.disk, s'.disk, t, n, raw2, m);
    }
    forall lb: nat ensures FileBlock(geo, s'.disk, raw2, lb) == FileBlock(geo, s2.disk, raw2, lb) {
      assert FileBlock(geo, s'.disk, t[n := raw2][n], lb) == FileBlock(geo, s2.disk, t[n := raw2][n], lb);
    }
    SameDir(geo, s2.disk, s'.disk, raw2, nb);
  }

  // ---- an empty directory ----

  /** Forgetting a direct block that only the in-memory inode pointed to. */
  lemma {:induction false} DropAddr(geo: Layout, d: Disk, raw: Raw, raw1: Raw, f: u32, x: Node)
    requires GetU32(raw, PTR_OFFSET) == 0 && raw1 == SetU32(raw, PTR_OFFSET, f) && ValidNode(geo, x)
    ensures Addr(geo, d, raw, x) == if x == Root(0) then 0 else Addr(geo, d, raw1, x)
  {
    match x
    case Root(k) => assert k > 0 ==> GetU32(raw1, PTR_OFFSET + 4 * k) == GetU32(raw, PTR_OFFSET + 4 * k);
    case Child(p, j) => DropAddr(geo, d, raw, raw1, f, p);
  }

  lemma DropFile(geo: Layout, d: Disk, raw: Raw, raw1: Raw, f: u32, lb: nat)
    requires GetU32(raw, PTR_OFFSET) == 0 && raw1 == SetU32(raw, PTR_OFFSET, f)
    ensures FileBlock(geo, d, raw, lb) == if lb == 0 then None else FileBlock(geo, d, raw1, lb)
  {
    if LeafNode(geo, lb).Some? {
      DropAddr(geo, d, raw, raw1, f, LeafNode(geo, lb).value);
    }
  }

  lemma DropView(geo: Layout, d: Disk, t: Table, owner: Owner, n: nat, raw1: Raw, f: u32)
    requires n in t && View(geo, d, t[n := raw1], owner)
    requires GetU32(t[n], PTR_OFFSET) == 0 && raw1 == SetU32(t[n], PTR_OFFSET, f)
    ensures View(geo, d, t, owner)
  {
    assert forall m: nat :: m in t <==> m in t[n := raw1];
    forall m, x | m in t && ValidNode(geo, x)
      ensures Addr(geo, d, t[m], x) != 0 ==> Addr(geo, d, t[m], x) == Addr(geo, d, t[n := raw1][m], x)
    {
      DropAddr(geo, d, t[n], raw1, f, x);
    }
  }

  /** At most the first block of `n` was mapped, in memory. */
  ghost predicate FirstMapped(geo: Layout, s: State, s1: State, t: Table, owner1: Owner, n: nat, raw1: Raw, f: u32) {
    && n in t && raw1 == SetU32(t[n], PTR_OFFSET, f)
    && Good(geo, s1, owner1, t[n := raw1]) && OthersSame(geo, s.disk, t, s1.disk, t[n := raw1], n)
    && forall lb: nat | lb != 0 :: FileBlock(geo, s1.disk, raw1, lb) == FileBlock(geo, s.disk, t[n], lb)
  }

  lemma DropSame(geo: Layout, s: State, s1: State, t: Table, owner1: Owner, owner: Owner, n: nat, raw1: Raw, f: u32)
    requires Mounted(geo, s, owner) && t == InodeTable(geo, s.disk)
    requires FirstMapped(geo, s, s1, t, owner1, n, raw1, f) && GetU32(t[n], PTR_OFFSET) == 0
    ensures Mounted(geo, s1, owner1) && forall m: nat | 1 <= m <= geo.inodesCount :: SameFile(geo, s.disk, s1.disk, m)
  {
    DropView(geo, s1.disk, t, owner1, n, raw1, f);
    TableKept(geo, s.disk, s1.disk);
    forall m: nat | 1 <= m <= geo.inodesCount ensures SameFile(geo, s.disk, s1.disk, m) {
      TableEntry(geo, s.disk, t, m);
      TableEntry(geo, s1.disk, t, m);
      forall lb: nat ensures FileBlock(geo, s1.disk, t[m], lb) == FileBlock(geo, s.disk, t[m], lb) {
        DropFile(geo, s1.disk, t[n], raw1, f, lb);
        DropFile(geo, s.disk, t[n], raw1, f, lb);
        assert m != n ==> FileBlock(geo, s1.disk, t[n := raw1][m], lb) == FileBlock(geo, s.disk, t[m], lb);
      }
    }
  }

  /** The first block of a directory that had none is all zero. */
  lemma NewIsZero(geo: Layout, s: State, s1: State, t: Table, t1: Table, n: nat, f: u32)
    requires n in t && n in t1 && GetU32(t[n], PTR_OFFSET) == 0 && Looked(geo, s, s1, t, t1, n, 0, true, f) && f != 0
    ensures f < |s1.disk| && s1.disk[f] == Zeros(geo.blockSize) && |s1.disk[f]| == geo.blockSize >= HEADER
  {
    assert LeafNode(geo, 0) == Some(Root(0));
    assert FileBlock(geo, s.disk, t[n], 0) == None;
  }

  /** It is paid for with one free block, unless there is none. */
  lemma FirstCost(geo: Layout, s: State, s1: State, t: Table, t1: Table, n: nat, f: u32)
    requires Conserved(geo, s.disk, s.free, s.total) && Conserved(geo, s1.disk, s1.free, s1.total)
    requires n in t && n in t1 && GetU32(t[n], PTR_OFFSET) == 0
    requires Looked(geo, s, s1, t, t1, n, 0, true, f) && (f == 0 ==> s1 == s)
    ensures Left(geo, s1) == if Left(geo, s) > 0 then Left(geo, s) - 1 else 0
  {
    assert LeafNode(geo, 0) == Some(Root(0)) && Addr(geo, s.disk, t[n], Root(0)) == 0;
    LeftNonNegative(geo, s);
    LeftNonNegative(geo, s1);
  }

  /** The scan of a directory without blocks: its first block is allocated, and being all zero offers no room. */
  method ScanEmpty(geo: Layout, s: State, raw: Raw, len: nat, ghost n: nat, ghost t: Table, ghost owner: Owner)
    returns (f: u32, raw1: Raw, s1: State, ghost owner1: Owner)
    requires Good(geo, s, owner, t) && n in t && t[n] == raw && GetU32(raw, PTR_OFFSET) == 0
    ensures FirstMapped(geo, s, s1, t, owner1, n, raw1, f)
    ensures Left(geo, s1) == if Left(geo, s) > 0 then Left(geo, s) - 1 else 0
  {
    f, raw1, s1, owner1 := Direct(geo, s, raw, 0, true, n, t, owner);
    assert raw1 == t[n := raw1][n];
    FirstCost(geo, s, s1, t, t[n := raw1], n, f);
    if f != 0 {
      NewIsZero(geo, s, s1, t, t[n := raw1], n, f);
      var pos := FindRoom(s1.disk[f], len);
      assert pos == |s1.disk[f]|;
    }
  }

  lemma AddedAfter(geo: Layout, s: State, s1: State, s': State, t: Table, owner1: Owner, owner': Owner, n: nat, f: u32,
                   raw1: Raw, raw': Raw, e: Entry)
    requires FirstMapped(geo, s, s1, t, owner1, n, raw1, f)
    requires EntryAdded(geo, s1, s', t[n := raw1], owner', n, raw', 0, 1, e)
    ensures EntryAdded(geo, s, s', t, owner', n, raw', 0, 1, e)
  {
    assert t[n := raw1][n := raw'] == t[n := raw'];
    OthersSameTrans(geo, s.disk, t, s1.disk, t[n := raw1], s'.disk, t[n := raw'], n);
    NoEntries(geo, s.disk, t[n]);
    NoEntries(geo, s1.disk, raw1);
  }

  lemma NoEntries(geo: Layout, d: Disk, raw: Raw)
    ensures DirEntries(geo, d, raw, 0) == []
  {
  }

  /** The first entry of a directory. */
  method AddFirst(geo: Layout, s: State, raw: Raw, name: Name, ino: u32, fileType: byte, ghost n: nat, ghost t: Table,
                  ghost owner: Owner)
    returns (ok: bool, raw': Raw, s': State, ghost owner': Owner, ghost f: u32)
    requires Good(geo, s, owner, t) && n in t && t[n] == raw && IsDir(geo, s.disk, raw, 0)
    requires GetU32(raw, PTR_OFFSET) == 0
    requires |name| < 256 && ino != 0
    ensures ok ==> EntryAdded(geo, s, s', t, owner', n, raw', 0, 1, Entry(name, ino))
    ensures ok ==> Typed(geo, s'.disk, raw', 1, Entry(name, ino), fileType) && Left(geo, s') == Left(geo, s) - 2
    ensures !ok ==> Left(geo, s') == 0 && FirstMapped(geo, s, s', t, owner', n, raw', f)
  {
    var f1, raw1, s1;
    ghost var owner1;
    f1, raw1, s1, owner1 := ScanEmpty(geo, s, raw, |name|, n, t, owner);
    f := f1;
    ghost var f2;
    ok, raw', s', owner', f2 := AppendEntry(geo, s1, raw1, 0, name, ino, fileType, n, t[n := raw1], owner1);
    if ok {
      AddedAfter(geo, s, s1, s', t, owner1, owner', n, f, raw1, raw', Entry(name, ino));
    }
  }

  lemma {:induction false} SizeBound(size: nat, bs: nat, k: nat)
    requires 0 < bs <= 4096 && Quot(size, bs) <= k
    ensures size < 4096 * (k + 1)
  {
    if size >= bs {
      SizeBound(size - bs, bs, k - 1);
    }
  }

  /** An entry of this length can be added: a block has room for it, or there is a direct slot for one more block. */
  ghost predicate Fits(geo: Layout, d: Disk, raw: Raw, nb: nat, len: nat) {
    nb < NDIR || HasPlace(geo, d, raw, nb, len)
  }

  /** An entry put in a block that was there leaves the inode as it was. */
  lemma PlacedAdded(geo: Layout, s: State, s': State, t: Table, owner: Owner, n: nat, nb: nat, e: Entry)
    requires n in t && Good(geo, s', owner, t) && OthersSame(geo, s.disk, t, s'.disk, t, n)
    requires IsDir(geo, s'.disk, t[n], nb)
    requires Inserted(DirEntries(geo, s.disk, t[n], nb), DirEntries(geo, s'.disk, t[n], nb), e)
    ensures EntryAdded(geo, s, s', t, owner, n, t[n], nb, nb, e)
  {
    assert t[n := t[n]] == t;
  }

  /** An entry for a directory that has blocks: in the first block with room, else in a new one. */
  method AddMore(geo: Layout, s: State, raw: Raw, blocks: nat, name: Name, ino: u32, fileType: byte, ghost n: nat,
                 ghost t: Table, ghost owner: Owner)
    returns (ok: bool, raw': Raw, s': State, ghost owner': Owner, ghost nb': nat, ghost f: u32)
    requires Opened(geo, s, owner, t, n, raw, blocks)
    requires |name| < 256 && ino != 0
    ensures !ok ==> s' == s && owner' == owner && Left(geo, s) == 0
    ensures ok && Fits(geo, s.disk, raw, blocks, |name|) ==>
      EntryAdded(geo, s, s', t, owner', n, raw', blocks, nb', Entry(name, ino))
        && Typed(geo, s'.disk, raw', nb', Entry(name, ino), fileType)
    ensures ok ==> nb' >= blocks && Left(geo, s') == Left(geo, s) - (nb' - blocks)
    ensures ok && !Fits(geo, s.disk, raw, blocks, |name|) ==> !Reachable(geo, s'.disk, t[n := raw'], n, blocks, f)
  {
    var found;
    ghost var at;
    raw', owner', nb', f := raw, owner, blocks, 0;
    found, s', at := PlaceEntry(geo, s, raw, blocks, name, ino, fileType, n, t, owner);
    ok := found;
    if found {
      PlacedAdded(geo, s, s', t, owner, n, blocks, Entry(name, ino));
    } else {
      SizeBound(GetU32(raw, SIZE_OFFSET), geo.blockSize, blocks);
      ok, raw', s', owner', f := AppendEntry(geo, s, raw, blocks, name, ino, fileType, n, t, owner);
      nb' := blocks + 1;
    }
  }

  /** A directory that can take one more entry; an empty one has no block yet. */
  ghost predicate CanGrow(geo: Layout, d: Disk, raw: Raw, nb: nat, len: nat) {
    IsDir(geo, d, raw, nb) && Fits(geo, d, raw, nb, len) && (nb == 0 ==> GetU32(raw, PTR_OFFSET) == 0)
  }

  /** What a successful addition leaves once the inode is stored. */
  ghost predicate Gained(geo: Layout, d: Disk, d': Disk, n: nat, nb: nat, nb': nat, e: Entry)
    requires geo.TablesFit() && geo.OnDisk(d) && geo.OnDisk(d') && 1 <= n <= geo.inodesCount
  {
    && OnlyChanged(geo, d, d', n) && IsDir(geo, d', InodeAt(geo, d', n), nb')
    && OtherFields(InodeAt(geo, d, n), InodeAt(geo, d', n))
    && Inserted(DirEntries(geo, d, InodeAt(geo, d, n), nb), DirEntries(geo, d', InodeAt(geo, d', n), nb'), e)
  }

  /** ext2_add_dir_entry: one entry more, or (only when the disk is full) every file as it was. */
  method AddDirEntry(geo: Layout, s: State, n: nat, name: Name, ino: u32, fileType: byte, ghost owner: Owner,
                     ghost nb: nat)
    returns (ok: bool, s': State, ghost owner': Owner, ghost nb': nat)
    requires Mounted(geo, s, owner) && 1 <= n <= geo.inodesCount
    requires CanGrow(geo, s.disk, InodeAt(geo, s.disk, n), nb, |name|)
    requires |name| < 256 && ino != 0
    ensures Mounted(geo, s', owner') && SameInodeBitmaps(geo, s.disk, s'.disk)
    ensures ok ==> Gained(geo, s.disk, s'.disk, n, nb, nb', Entry(name, ino))
    ensures ok ==> Typed(geo, s'.disk, InodeAt(geo, s'.disk, n), nb', Entry(name, ino), fileType)
    ensures ok ==> Left(geo, s') == Left(geo, s) - if nb == 0 then 2 else nb' - nb
    ensures !ok ==> Left(geo, s') == 0 && forall m: nat | 1 <= m <= geo.inodesCount :: SameFile(geo, s.disk, s'.disk, m)
  {
    var valid, raw := ReadInode(geo, s.disk, n);
    ghost var t := InodeTable(geo, s.disk);
    TableEntry(geo, s.disk, t, n);
    CeilAligned(GetU32(raw, SIZE_OFFSET), geo.blockSize);
    var raw', s2;
    ghost var f;
    var blocks := (GetU32(raw, SIZE_OFFSET) + geo.blockSize - 1) / geo.blockSize;
    if blocks == 0 {
      ok, raw', s2, owner', f := AddFirst(geo, s, raw, name, ino, fileType, n, t, owner);
      nb' := 1;
      if !ok {
        DropSame(geo, s, s2, t, owner', owner, n, raw', f);
        return false, s2, owner', nb';
      }
    } else {
      ok, raw', s2, owner', nb', f := AddMore(geo, s, raw, blocks, name, ino, fileType, n, t, owner);
      if !ok {
        return false, s2, owner', nb';
      }
    }
    var stored, d := WriteInode(geo, s2.disk, n, raw');
    s' := s2.(disk := d);
    DirWrittenBack(geo, s, s2, s', t, owner, owner', n, raw', nb');
    TypedSame(geo, s2.disk, raw', s'.disk, raw', nb', Entry(name, ino), fileType);
  }
}
