/** Reading and writing ext2 files, and what the writes of one file leave alone. */
module Ext2File {
  import opened Common
  import opened Arith
  import opened Bytes
  import opened Ext2Layout
  import opened Ext2BlockMap
  import opened Ext2
  import opened Ext2Space

  // ---- the contents of a file, byte by byte ----

  /** The byte at a position, None inside a hole or past what the block map can reach. */
  ghost function FileByte(geo: Layout, d: Disk, raw: Raw, pos: nat): Option<byte> {
    match FileBlock(geo, d, raw, Quot(pos, geo.blockSize))
    case None => None
    case Some(b) => if Rem(pos, geo.blockSize) < |b| then Some(b[Rem(pos, geo.blockSize)]) else None
  }

  /** Byte `o` of logical block `lb` is the byte of the file at that many blocks and bytes. */
  lemma ByteOfBlock(geo: Layout, d: Disk, raw: Raw, lb: nat, o: nat)
    requires o < geo.blockSize && geo.WfDisk(d)
    ensures FileByte(geo, d, raw, lb * geo.blockSize + o)
         == match FileBlock(geo, d, raw, lb) case None => None case Some(b) => Some(b[o])
  {
    DivModUnique(geo.blockSize, lb, o, lb * geo.blockSize + o);
    QuotRem(lb * geo.blockSize + o, geo.blockSize);
  }

  /**
   * The byte at `pos` once `data` has been written at `offset`: data inside, zeros in a filled hole, else as before.
   */
  ghost function ByteAfter(bs: nat, before: Option<byte>, offset: nat, data: seq<byte>, pos: nat): Option<byte>
    requires bs > 0
  {
    if offset <= pos < offset + |data| then Some(data[pos - offset])
    else if before.None? && Touched(bs, offset, |data|, pos) then Some(0)
    else before
  }

  /** `pos` is in a block that a write of `len` bytes at `offset` reaches. */
  ghost predicate Touched(bs: nat, offset: nat, len: nat, pos: nat)
    requires bs > 0
  {
    len > 0 && Quot(offset, bs) <= Quot(pos, bs) <= Quot(offset + len - 1, bs)
  }

  ghost predicate Written(geo: Layout, d: Disk, raw: Raw, d': Disk, raw': Raw, offset: nat, data: seq<byte>) {
    forall pos: nat ::
      FileByte(geo, d', raw', pos) == ByteAfter(geo.blockSize, FileByte(geo, d, raw, pos), offset, data, pos)
  }

  /** One file block replaced by itself (or zeros) with `chunk` copied in. */
  ghost predicate ChunkStored(geo: Layout, d: Disk, raw: Raw, d': Disk, raw': Raw, lb: nat, off: nat,
                              chunk: seq<byte>) {
    && off + |chunk| <= geo.blockSize
    && (forall l: nat | l != lb :: FileBlock(geo, d', raw', l) == FileBlock(geo, d, raw, l))
    && var b := match FileBlock(geo, d, raw, lb) case Some(b) => b case None => Zeros(geo.blockSize);
       |b| == geo.blockSize && FileBlock(geo, d', raw', lb) == Some(Splice(b, off, chunk))
  }

  /** Positions of a chunk that stays inside the block of `at`. */
  lemma InChunk(k: nat, at: nat, len: nat, pos: nat)
    requires k > 0 && Rem(at, k) + len <= k
    ensures at <= pos < at + len <==> Quot(pos, k) == Quot(at, k) && Rem(at, k) <= Rem(pos, k) < Rem(at, k) + len
    ensures at <= pos < at + len ==> Rem(pos, k) == Rem(at, k) + (pos - at)
  {
    if at <= pos < at + len {
      QuotWithin(at, pos - at, k);
    }
    if Quot(pos, k) == Quot(at, k) && Rem(at, k) <= Rem(pos, k) < Rem(at, k) + len {
      QuotWithin(at, Rem(pos, k) - Rem(at, k), k);
      QuotUnique(pos, at + (Rem(pos, k) - Rem(at, k)), k);
    }
  }

  /** Position by position: what storing a chunk does. */
  lemma ChunkByte(geo: Layout, d: Disk, raw: Raw, d': Disk, raw': Raw, at: nat, chunk: seq<byte>, pos: nat)
    requires ChunkStored(geo, d, raw, d', raw', Quot(at, geo.blockSize), Rem(at, geo.blockSize), chunk)
    ensures FileByte(geo, d', raw', pos) == ChunkedByte(geo.blockSize, FileByte(geo, d, raw, pos), at, chunk, pos)
  {
    var bs := geo.blockSize;
    InChunk(bs, at, |chunk|, pos);
    if Quot(pos, bs) == Quot(at, bs) {
      assert FileBlock(geo, d', raw', Quot(pos, bs)).Some?;
    } else {
      assert FileBlock(geo, d', raw', Quot(pos, bs)) == FileBlock(geo, d, raw, Quot(pos, bs));
    }
  }

  ghost function ChunkedByte(bs: nat, before: Option<byte>, at: nat, chunk: seq<byte>, pos: nat): Option<byte>
    requires bs > 0
  {
    if at <= pos < at + |chunk| then Some(chunk[pos - at])
    else if Quot(pos, bs) == Quot(at, bs) && before.None? then Some(0)
    else before
  }

  lemma {:induction false} AlignedBefore(k: nat, at: nat)
    requires k > 0 && at > 0 && Rem(at, k) == 0
    ensures Quot(at - 1, k) == Quot(at, k) - 1
  {
    if at > k {
      AlignedBefore(k, at - k);
    }
  }

  /** Chunk after chunk, the touched blocks grow by the chunk's own block. */
  lemma TouchedStep(bs: nat, offset: nat, len: nat, more: nat, pos: nat)
    requires bs > 0 && more > 0 && Rem(offset + len, bs) + more <= bs && (len > 0 ==> Rem(offset + len, bs) == 0)
    ensures Touched(bs, offset, len + more, pos) <==>
            Touched(bs, offset, len, pos) || Quot(pos, bs) == Quot(offset + len, bs)
  {
    QuotWithin(offset + len, more - 1, bs);
    if len > 0 {
      AlignedBefore(bs, offset + len);
      QuotMonotone(offset, offset + len - 1, bs);
    }
  }

  /** Storing the next chunk extends what has been written. */
  lemma WrittenStep(geo: Layout, d0: Disk, raw0: Raw, d: Disk, raw: Raw, d': Disk, raw': Raw,
                    offset: nat, data: seq<byte>, chunk: seq<byte>, at: nat, pos: nat)
    requires at == offset + |data|
    requires ChunkStored(geo, d, raw, d', raw', Quot(at, geo.blockSize), Rem(at, geo.blockSize), chunk)
    requires |chunk| > 0 && (|data| > 0 ==> Rem(at, geo.blockSize) == 0)
    requires FileByte(geo, d, raw, pos) == ByteAfter(geo.blockSize, FileByte(geo, d0, raw0, pos), offset, data, pos)
    ensures FileByte(geo, d', raw', pos)
      == ByteAfter(geo.blockSize, FileByte(geo, d0, raw0, pos), offset, data + chunk, pos)
  {
    ChunkByte(geo, d, raw, d', raw', at, chunk, pos);
    ByteStep(geo.blockSize, FileByte(geo, d0, raw0, pos), FileByte(geo, d, raw, pos), FileByte(geo, d', raw', pos),
             offset, data, chunk, at, pos);
  }

  /** A byte before the write, after its first part and after the next chunk. */
  lemma ByteStep(bs: nat, b0: Option<byte>, b1: Option<byte>, b2: Option<byte>,
                 offset: nat, data: seq<byte>, chunk: seq<byte>, at: nat, pos: nat)
    requires bs > 0 && at == offset + |data| && 0 < |chunk| && Rem(at, bs) + |chunk| <= bs
    requires |data| > 0 ==> Rem(at, bs) == 0
    requires b1 == ByteAfter(bs, b0, offset, data, pos) && b2 == ChunkedByte(bs, b1, at, chunk, pos)
    ensures b2 == ByteAfter(bs, b0, offset, data + chunk, pos)
  {
    TouchedStep(bs, offset, |data|, |chunk|, pos);
  }

  // ---- writing ----

  /** No other file changed, and the inode tables are untouched. */
  ghost predicate OthersSame(geo: Layout, d: Disk, t: Table, d': Disk, t': Table, n: nat) {
    && t'.Keys == t.Keys && SameTables(geo, d, d')
    && forall m, lb: nat | m in t && m != n :: FileBlock(geo, d', t'[m], lb) == FileBlock(geo, d, t[m], lb)
  }

  lemma OthersSameTrans(geo: Layout, d: Disk, t: Table, d1: Disk, t1: Table, d': Disk, t': Table, n: nat)
    requires OthersSame(geo, d, t, d1, t1, n) && OthersSame(geo, d1, t1, d', t', n)
    ensures OthersSame(geo, d, t, d', t', n)
  {
  }

  /** Overwriting part of a mapped block. */
  lemma StoreChunk(geo: Layout, s: State, owner: Owner, t: Table, n: nat, lb: nat, off: nat, chunk: seq<byte>,
                   addr: u32)
    returns (s': State)
    requires Good(geo, s, owner, t) && n in t && off + |chunk| <= geo.blockSize
    requires FileBlock(geo, s.disk, t[n], lb).Some? && addr == FileAddr(geo, s.disk, t[n], lb)
    ensures 0 < addr < |s.disk| && |s.disk[addr]| == geo.blockSize
    ensures FileBlock(geo, s.disk, t[n], lb) == Some(s.disk[addr])
    ensures s' == s.(disk := s.disk[addr := Splice(s.disk[addr], off, chunk)])
    ensures Good(geo, s', owner, t) && SameTables(geo, s.disk, s'.disk)
    ensures SameFilesBut(geo, s.disk, t, s'.disk, t, n, lb)
    ensures FileBlock(geo, s'.disk, t[n], lb) == Some(Splice(s.disk[addr], off, chunk))
    ensures forall y | ValidNode(geo, y) :: Addr(geo, s'.disk, t[n], y) == Addr(geo, s.disk, t[n], y)
  {
    var b := Splice(s.disk[addr], off, chunk);
    s' := s.(disk := s.disk[addr := b]);
    assert s'.disk == DataWritten(geo, s.disk, t[n], lb, b);
    WriteData(geo, s.disk, t, owner, n, lb, b);
    DataWrittenMeta(geo, s.disk, t, owner, n, lb, b);
    DataWrittenAddrs(geo, s.disk, t, owner, n, lb, b);
    BitmapsConserve(geo, s.disk, s'.disk, s.free, s.total);
  }

  /** Mapping a block and then overwriting part of it is one stored chunk. */
  lemma ChunkDone(geo: Layout, d: Disk, t: Table, d1: Disk, t1: Table, d': Disk, n: nat, lb: nat, off: nat,
                  chunk: seq<byte>, addr: u32, b: Block)
    requires BlockMapped(geo, d, t, d1, t1, n, lb, addr) && addr != 0 && FileBlock(geo, d1, t1[n], lb) == Some(b)
    requires |b| == geo.blockSize && off + |chunk| <= geo.blockSize
    requires SameFilesBut(geo, d1, t1, d', t1, n, lb) && SameTables(geo, d1, d')
    requires FileBlock(geo, d', t1[n], lb) == Some(Splice(b, off, chunk))
    ensures ChunkStored(geo, d, t[n], d', t1[n], lb, off, chunk)
    ensures OthersSame(geo, d, t, d', t1, n)
  {
  }

  /** No block can be had for a position: it is beyond the block map, or unmapped with nothing left to allocate. */
  ghost predicate NoBlock(geo: Layout, s: State, raw: Raw, lb: nat) {
    LeafNode(geo, lb).None? || (Left(geo, s) == 0 && FileBlock(geo, s.disk, raw, lb).None?)
  }

  /** A chunk was stored, or no block could be had and no contents changed. */
  ghost predicate ChunkOutcome(geo: Layout, s: State, s': State, t: Table, raw: Raw, raw': Raw, n: nat, lb: nat,
                               off: nat,
                               chunk: seq<byte>, ok: bool) {
    && SameFields(raw, raw') && OthersSame(geo, s.disk, t, s'.disk, t[n := raw'], n)
    && if ok then ChunkStored(geo, s.disk, raw, s'.disk, raw', lb, off, chunk) && Paid(geo, s, s', raw, raw', lb)
       else
         && (forall l: nat :: FileBlock(geo, s'.disk, raw', l) == FileBlock(geo, s.disk, raw, l))
         && NoBlock(geo, s', raw', lb)
  }

  /** What the files see of a lookup that found no block. */
  lemma ChunkStuck(geo: Layout, s: State, s1: State, t: Table, raw: Raw, raw1: Raw, n: nat, lb: nat, off: nat,
                   chunk: seq<byte>)
    requires n in t && t[n] == raw && SameFields(raw, raw1) && Looked(geo, s, s1, t, t[n := raw1], n, lb, true, 0)
    ensures ChunkOutcome(geo, s, s1, t, raw, raw1, n, lb, off, chunk, false)
  {
    forall l: nat ensures FileBlock(geo, s1.disk, raw1, l) == FileBlock(geo, s.disk, raw, l) {
      assert FileBlock(geo, s1.disk, t[n := raw1][n], l) == FileBlock(geo, s.disk, t[n], l);
    }
  }

  /** What they see of a lookup and the chunk stored in the block. */
  lemma ChunkWritten(geo: Layout, s: State, s1: State, s': State, t: Table, owner1: Owner, raw: Raw, raw1: Raw, n: nat,
                     lb: nat, off: nat,
                     chunk: seq<byte>, addr: u32)
    requires n in t && t[n] == raw && SameFields(raw, raw1) && Looked(geo, s, s1, t, t[n := raw1], n, lb, true, addr)
    requires addr != 0
    requires Good(geo, s1, owner1, t[n := raw1]) && off + |chunk| <= geo.blockSize
    requires addr < |s1.disk| && |s1.disk[addr]| == geo.blockSize
    requires s' == s1.(disk := s1.disk[addr := Splice(s1.disk[addr], off, chunk)])
    ensures Good(geo, s', owner1, t[n := raw1])
    ensures ChunkOutcome(geo, s, s', t, raw, raw1, n, lb, off, chunk, true)
  {
    var t1 := t[n := raw1];
    var s2 := StoreChunk(geo, s1, owner1, t1, n, lb, off, chunk, addr);
    ChunkDone(geo, s.disk, t, s1.disk, t1, s2.disk, n, lb, off, chunk, addr, s1.disk[addr]);
    PaidStill(geo, s, s1, s', raw, raw1, lb);
  }

  lemma PaidStill(geo: Layout, s: State, s1: State, s': State, raw: Raw, raw1: Raw, lb: nat)
    requires Paid(geo, s, s1, raw, raw1, lb) && Left(geo, s') == Left(geo, s1)
    requires forall y | ValidNode(geo, y) :: Addr(geo, s'.disk, raw1, y) == Addr(geo, s1.disk, raw1, y)
    ensures Paid(geo, s, s', raw, raw1, lb)
  {
  }

  /** One round of the write loop: map the block, then copy the chunk into it. */
  method WriteChunk(geo: Layout, s: State, raw: Raw, lb: nat, off: nat, chunk: seq<byte>, ghost n: nat, ghost t: Table,
                    ghost owner: Owner)
    returns (ok: bool, raw': Raw, s': State, ghost owner': Owner)
    requires Good(geo, s, owner, t) && n in t && t[n] == raw && Served(geo, s, raw, lb)
    requires off + |chunk| <= geo.blockSize
    ensures Good(geo, s', owner', t[n := raw'])
    ensures ChunkOutcome(geo, s, s', t, raw, raw', n, lb, off, chunk, ok)
  {
    var addr, s1;
    addr, raw', s1, owner' := GetBlockAddr(geo, s, raw, lb, true, n, t, owner);
    ok := addr != 0;
    if ok {
      MappedBlock(geo, s1, owner', t[n := raw'], n, lb, addr);
      s' := s1.(disk := s1.disk[addr := Splice(s1.disk[addr], off, chunk)]);
      ChunkWritten(geo, s, s1, s', t, owner', raw, raw', n, lb, off, chunk, addr);
    } else {
      ChunkStuck(geo, s, s1, t, raw, raw', n, lb, off, chunk);
      s' := s1;
    }
  }

  // ---- affording a whole write ----

  /** Blocks that hold the bytes from `at` up to `end`. */
  ghost function BlocksIn(bs: nat, at: nat, end: nat): int
    requires bs > 0 && at < end
  {
    Quot(end - 1, bs) - Quot(at, bs) + 1
  }

  /** Mapping `count` blocks from `lb` on never lacks an index block, or the boot block reads as an empty one. */
  ghost predicate Enough(geo: Layout, s: State, raw: Raw, lb: nat, count: int) {
    BootEmpty(geo, s.disk) || (count >= 0 && Clean(geo, s.disk, raw, {}, lb, count, Left(geo, s)))
  }

  /** The write of the bytes from `at` up to `end` has enough free blocks. */
  ghost predicate Funded(geo: Layout, s: State, raw: Raw, at: nat, end: nat) {
    at < end ==> Enough(geo, s, raw, Quot(at, geo.blockSize), BlocksIn(geo.blockSize, at, end))
  }

  lemma EnoughServed(geo: Layout, s: State, raw: Raw, lb: nat, count: int)
    requires Enough(geo, s, raw, lb, count) && count > 0
    ensures Served(geo, s, raw, lb)
  {
    if !BootEmpty(geo, s.disk) {
      CleanServed(geo, s, raw, lb, count);
    }
  }

  lemma EnoughAfter(geo: Layout, s: State, s': State, raw: Raw, raw': Raw, lb: nat, count: int)
    requires Enough(geo, s, raw, lb, count) && count > 0 && SameTables(geo, s.disk, s'.disk)
    requires Paid(geo, s, s', raw, raw', lb) && Left(geo, s') >= 0
    ensures Enough(geo, s', raw', lb + 1, count - 1)
  {
    BootSame(geo, s.disk, s'.disk);
    if !BootEmpty(geo, s.disk) {
      CleanAfter(geo, s, s', raw, raw', lb, count);
    }
  }

  lemma FundedServed(geo: Layout, s: State, raw: Raw, at: nat, end: nat)
    requires Funded(geo, s, raw, at, end) && at < end
    ensures Served(geo, s, raw, Quot(at, geo.blockSize))
  {
    QuotMonotone(at, end - 1, geo.blockSize);
    EnoughServed(geo, s, raw, Quot(at, geo.blockSize), BlocksIn(geo.blockSize, at, end));
  }

  /** A chunk up to the next block boundary. */
  lemma NextBlock(bs: nat, at: nat, next: nat, end: nat)
    requires bs > 0 && at < next < end && Rem(at, bs) + (next - at) <= bs && Rem(next, bs) == 0
    ensures Quot(next, bs) == Quot(at, bs) + 1 && BlocksIn(bs, next, end) == BlocksIn(bs, at, end) - 1 > 0
  {
    QuotWithin(at, next - 1 - at, bs);
    AlignedBefore(bs, next);
    QuotMonotone(next, end - 1, bs);
  }

  lemma FundedAfter(geo: Layout, s: State, s': State, raw: Raw, raw': Raw, at: nat, next: nat, end: nat)
    requires Funded(geo, s, raw, at, end) && at < next < end && SameTables(geo, s.disk, s'.disk)
    requires Rem(at, geo.blockSize) + (next - at) <= geo.blockSize && Rem(next, geo.blockSize) == 0
    requires Paid(geo, s, s', raw, raw', Quot(at, geo.blockSize)) && Left(geo, s') >= 0
    ensures Funded(geo, s', raw', next, end)
  {
    var lb, count := Quot(at, geo.blockSize), BlocksIn(geo.blockSize, at, end);
    NextBlock(geo.blockSize, at, next, end);
    EnoughAfter(geo, s, s', raw, raw', lb, count);
    FundedAt(geo, s', raw', next, end, lb + 1, count - 1);
  }

  lemma FundedAt(geo: Layout, s: State, raw: Raw, at: nat, end: nat, lb: nat, count: int)
    requires at < end && lb == Quot(at, geo.blockSize) && count == BlocksIn(geo.blockSize, at, end)
    ensures Funded(geo, s, raw, at, end) <==> Enough(geo, s, raw, lb, count)
  {
  }

  /** Three free blocks for every block suffice, and so does any number when no index block is missing. */
  lemma AmpleFunds(geo: Layout, s: State, raw: Raw, at: nat, end: nat)
    requires at < end && Left(geo, s) >= 3 * BlocksIn(geo.blockSize, at, end)
    ensures Funded(geo, s, raw, at, end)
  {
    QuotMonotone(at, end - 1, geo.blockSize);
    AmpleClean(geo, s.disk, raw, {}, Quot(at, geo.blockSize), BlocksIn(geo.blockSize, at, end), Left(geo, s));
  }

  /** A write over mapped and direct blocks only is always funded. */
  lemma MappedFunds(geo: Layout, s: State, raw: Raw, at: nat, end: nat)
    requires at < end && Left(geo, s) >= 0
    requires forall pos: nat | at <= pos < end ::
      Quot(pos, geo.blockSize) < NDIR || FileAddr(geo, s.disk, raw, Quot(pos, geo.blockSize)) != 0
    ensures Funded(geo, s, raw, at, end)
  {
    var bs := geo.blockSize;
    var first, count := Quot(at, bs), BlocksIn(bs, at, end);
    QuotMonotone(at, end - 1, bs);
    forall l: nat | first <= l < first + count ensures Indexed(geo, s.disk, raw, l) {
      var pos := BlockMeets(bs, at, end, l);
      MappedIndexed(geo, s.disk, raw, l);
    }
    IndexedClean(geo, s.disk, raw, {}, first, count, Left(geo, s));
  }

  /** Every block of a range holds a byte of it. */
  lemma {:induction false} BlockMeets(bs: nat, at: nat, end: nat, l: nat) returns (pos: nat)
    requires bs > 0 && at < end && Quot(at, bs) <= l <= Quot(end - 1, bs)
    ensures at <= pos < end && Quot(pos, bs) == l
    decreases end
  {
    if Quot(end - 1, bs) == l {
      pos := end - 1;
    } else {
      QuotStep(end - 2, bs);
      pos := BlockMeets(bs, at, end - 1, l);
    }
  }

  lemma {:induction false} QuotStep(x: nat, bs: nat)
    requires bs > 0
    ensures Quot(x, bs) <= Quot(x + 1, bs) <= Quot(x, bs) + 1
  {
    if x >= bs {
      QuotStep(x - bs, bs);
    }
  }

  lemma {:induction false} AlignedAfter(k: nat, at: nat)
    requires k > 0
    ensures Rem(at + (k - Rem(at, k)), k) == 0
  {
    if k <= at {
      AlignedAfter(k, at - k);
    }
  }

  /** Where the next chunk goes (logical block, offset in it) and where it ends. */
  function NextChunk(bs: nat, offset: nat, done: nat, size: nat): (c: (nat, nat, nat))
    requires bs > 0 && done < size
    ensures IsChunk(bs, offset, size, done, c.2, c.0, c.1)
  {
    var at := offset + done;
    var off := at % bs;
    QuotRem(at, bs);
    AlignedAfter(bs, at);
    var next := if size - done > bs - off then done + (bs - off) else size;
    assert next < size ==> offset + next == at + (bs - off);
    (at / bs, off, next)
  }

  lemma WrittenMore(geo: Layout, d0: Disk, raw0: Raw, d: Disk, raw: Raw, d': Disk, raw': Raw, offset: nat,
                    data: seq<byte>, chunk: seq<byte>, at: nat, all: seq<byte>)
    requires Written(geo, d0, raw0, d, raw, offset, data) && at == offset + |data| && all == data + chunk
    requires ChunkStored(geo, d, raw, d', raw', Quot(at, geo.blockSize), Rem(at, geo.blockSize), chunk)
    requires |chunk| > 0 && (|data| > 0 ==> Rem(at, geo.blockSize) == 0)
    ensures Written(geo, d0, raw0, d', raw', offset, all)
  {
    forall pos: nat
      ensures FileByte(geo, d', raw', pos)
        == ByteAfter(geo.blockSize, FileByte(geo, d0, raw0, pos), offset, all, pos)
    {
      WrittenStep(geo, d0, raw0, d, raw, d', raw', offset, data, chunk, at, pos);
    }
  }

  /** A failed chunk changed no contents. */
  lemma WrittenSame(geo: Layout, d0: Disk, raw0: Raw, d: Disk, raw: Raw, d': Disk, raw': Raw, offset: nat,
                    data: seq<byte>)
    requires Written(geo, d0, raw0, d, raw, offset, data)
    requires forall l: nat :: FileBlock(geo, d', raw', l) == FileBlock(geo, d, raw, l)
    ensures Written(geo, d0, raw0, d', raw', offset, data)
  {
    forall pos: nat
      ensures FileByte(geo, d', raw', pos) == FileByte(geo, d, raw, pos)
    {
    }
  }

  /** What the write loop has done after `written` bytes. */
  ghost predicate Progress(geo: Layout, s: State, s': State, t: Table, raw: Raw, raw': Raw, n: nat, offset: nat,
                           data: seq<byte>) {
    && SameFields(raw, raw')
    && OthersSame(geo, s.disk, t, s'.disk, t[n := raw'], n)
    && Written(geo, s.disk, raw, s'.disk, raw', offset, data)
  }

  lemma ProgressStep(geo: Layout, s: State, s1: State, s2: State, t: Table, raw: Raw, raw1: Raw, raw2: Raw, n: nat,
                     offset: nat, data: seq<byte>, at: nat, lb: nat, off: nat, chunk: seq<byte>, all: seq<byte>)
    requires at == offset + |data| && all == data + chunk
    requires Progress(geo, s, s1, t, raw, raw1, n, offset, data) && n in t && t[n] == raw
    requires SameFields(raw1, raw2) && OthersSame(geo, s1.disk, t[n := raw1], s2.disk, t[n := raw1][n := raw2], n)
    requires lb == Quot(at, geo.blockSize) && off == Rem(at, geo.blockSize) && (|data| > 0 ==> off == 0) && |chunk| > 0
    requires ChunkStored(geo, s1.disk, raw1, s2.disk, raw2, lb, off, chunk)
    ensures Progress(geo, s, s2, t, raw, raw2, n, offset, all)
  {
    assert t[n := raw1][n := raw2] == t[n := raw2];
    OthersSameTrans(geo, s.disk, t, s1.disk, t[n := raw1], s2.disk, t[n := raw2], n);
    WrittenMore(geo, s.disk, raw, s1.disk, raw1, s2.disk, raw2, offset, data, chunk, at, all);
  }

  lemma ProgressStuck(geo: Layout, s: State, s1: State, s2: State, t: Table, raw: Raw, raw1: Raw, raw2: Raw, n: nat,
                      offset: nat, data: seq<byte>)
    requires Progress(geo, s, s1, t, raw, raw1, n, offset, data) && n in t && t[n] == raw
    requires SameFields(raw1, raw2) && OthersSame(geo, s1.disk, t[n := raw1], s2.disk, t[n := raw1][n := raw2], n)
    requires forall l: nat :: FileBlock(geo, s2.disk, raw2, l) == FileBlock(geo, s1.disk, raw1, l)
    ensures Progress(geo, s, s2, t, raw, raw2, n, offset, data)
  {
    assert t[n := raw1][n := raw2] == t[n := raw2];
    OthersSameTrans(geo, s.disk, t, s1.disk, t[n := raw1], s2.disk, t[n := raw2], n);
    WrittenSame(geo, s.disk, raw, s1.disk, raw1, s2.disk, raw2, offset, data);
  }

  lemma ProgressStart(geo: Layout, s: State, t: Table, raw: Raw, n: nat, offset: nat)
    requires n in t && t[n] == raw
    ensures Progress(geo, s, s, t, raw, raw, n, offset, [])
  {
    assert t[n := raw] == t;
  }

  /** The loop may go on: it is at a block boundary, unless it just began, and the rest is funded. */
  ghost predicate RoundReady(geo: Layout, s: State, raw: Raw, offset: nat, size: nat, done: nat) {
    done < size ==>
      && (0 < done ==> Rem(offset + done, geo.blockSize) == 0)
      && Funded(geo, s, raw, offset + done, offset + size)
  }

  /** The loop had to stop: there is no block for its next byte. */
  ghost predicate Stopped(geo: Layout, s: State, raw: Raw, at: nat) {
    NoBlock(geo, s, raw, Quot(at, geo.blockSize))
  }

  lemma SlicesJoin(s: seq<byte>, a: nat, b: nat)
    requires a <= b <= |s|
    ensures s[..a] + s[a..b] == s[..b]
  {
  }

  /** What a stored chunk adds. */
  lemma RoundStored(geo: Layout, s: State, s1: State, s': State, t: Table, raw: Raw, raw1: Raw, raw': Raw, n: nat,
                    offset: nat, buffer: seq<byte>, done: nat, next: nat, lb: nat, off: nat)
    requires IsChunk(geo.blockSize, offset, |buffer|, done, next, lb, off) && n in t && t[n] == raw
    requires 0 < done ==> off == 0
    requires Progress(geo, s, s1, t, raw, raw1, n, offset, buffer[..done])
    requires SameFields(raw1, raw') && OthersSame(geo, s1.disk, t[n := raw1], s'.disk, t[n := raw1][n := raw'], n)
    requires ChunkStored(geo, s1.disk, raw1, s'.disk, raw', lb, off, buffer[done..next])
    ensures Progress(geo, s, s', t, raw, raw', n, offset, buffer[..next])
  {
    SlicesJoin(buffer, done, next);
    ProgressStep(geo, s, s1, s', t, raw, raw1, raw', n, offset, buffer[..done], offset + done, lb, off,
                 buffer[done..next], buffer[..next]);
  }

  lemma ReadyNext(geo: Layout, s1: State, s': State, raw1: Raw, raw': Raw, offset: nat, size: nat, done: nat,
                  next: nat, lb: nat, off: nat)
    requires IsChunk(geo.blockSize, offset, size, done, next, lb, off) && RoundReady(geo, s1, raw1, offset, size, done)
    requires SameTables(geo, s1.disk, s'.disk) && Paid(geo, s1, s', raw1, raw', lb) && Left(geo, s') >= 0
    ensures RoundReady(geo, s', raw', offset, size, next)
  {
    if next < size {
      FundedAfter(geo, s1, s', raw1, raw', offset + done, offset + next, offset + size);
    }
  }

  /** What a chunk that found no block leaves. */
  lemma RoundStuck(geo: Layout, s: State, s1: State, s': State, t: Table, raw: Raw, raw1: Raw, raw': Raw, n: nat,
                   offset: nat, buffer: seq<byte>, done: nat, next: nat, lb: nat, off: nat)
    requires IsChunk(geo.blockSize, offset, |buffer|, done, next, lb, off) && n in t && t[n] == raw
    requires Progress(geo, s, s1, t, raw, raw1, n, offset, buffer[..done])
    requires ChunkOutcome(geo, s1, s', t[n := raw1], raw1, raw', n, lb, off, buffer[done..next], false)
    ensures Progress(geo, s, s', t, raw, raw', n, offset, buffer[..done])
    ensures Stopped(geo, s', raw', offset + done)
  {
    ProgressStuck(geo, s, s1, s', t, raw, raw1, raw', n, offset, buffer[..done]);
  }

  /** A chunk of the buffer, from `done` up to `next`, that stays inside one block. */
  ghost predicate IsChunk(bs: nat, offset: nat, size: nat, done: nat, next: nat, lb: nat, off: nat)
    requires bs > 0
  {
    && done < next <= size && off + (next - done) <= bs
    && lb == Quot(offset + done, bs) && off == Rem(offset + done, bs)
    && (next < size ==> Rem(offset + next, bs) == 0 && (off == 0 ==> next == done + bs))
  }

  /** The write loop after `done` bytes of the buffer. */
  ghost predicate Writing(geo: Layout, s: State, s': State, t: Table, owner': Owner, raw: Raw, raw': Raw, n: nat,
                          offset: nat, buffer: seq<byte>, done: nat) {
    && n in t && t[n] == raw && done <= |buffer|
    && Good(geo, s', owner', t[n := raw'])
    && Progress(geo, s, s', t, raw, raw', n, offset, buffer[..done])
  }

  lemma RoundEnds(geo: Layout, s: State, s1: State, s': State, t: Table, owner': Owner, raw: Raw, raw1: Raw, raw': Raw,
                  n: nat,
                  offset: nat, buffer: seq<byte>, done: nat, end: nat, lb: nat, off: nat, ok: bool)
    requires IsChunk(geo.blockSize, offset, |buffer|, done, end, lb, off) && n in t && t[n] == raw
    requires Progress(geo, s, s1, t, raw, raw1, n, offset, buffer[..done])
    requires RoundReady(geo, s1, raw1, offset, |buffer|, done)
    requires ChunkOutcome(geo, s1, s', t[n := raw1], raw1, raw', n, lb, off, buffer[done..end], ok)
    requires Good(geo, s', owner', t[n := raw1][n := raw'])
    ensures Writing(geo, s, s', t, owner', raw, raw', n, offset, buffer, if ok then end else done)
    ensures ok ==> RoundReady(geo, s', raw', offset, |buffer|, end)
    ensures !ok ==> Stopped(geo, s', raw', offset + done)
  {
    assert t[n := raw1][n := raw'] == t[n := raw'];
    assert Left(geo, s') >= 0 by {
      LeftNonNegative(geo, s');
    }
    if ok {
      RoundStored(geo, s, s1, s', t, raw, raw1, raw', n, offset, buffer, done, end, lb, off);
      ReadyNext(geo, s1, s', raw1, raw', offset, |buffer|, done, end, lb, off);
    } else {
      RoundStuck(geo, s, s1, s', t, raw, raw1, raw', n, offset, buffer, done, end, lb, off);
    }
  }

  /** One round: store the chunk that ends with the block or with the buffer. */
  method WriteRound(geo: Layout, ghost s: State, s1: State, ghost raw: Raw, raw1: Raw, offset: nat, buffer: seq<byte>,
                    done: nat, ghost n: nat, ghost t: Table, ghost owner: Owner)
    returns (next: nat, raw': Raw, s': State, ghost owner': Owner)
    requires Writing(geo, s, s1, t, owner, raw, raw1, n, offset, buffer, done)
    requires done < |buffer| && RoundReady(geo, s1, raw1, offset, |buffer|, done)
    ensures done <= next && Writing(geo, s, s', t, owner', raw, raw', n, offset, buffer, next)
    ensures done < next ==> RoundReady(geo, s', raw', offset, |buffer|, next)
    ensures done == next ==> Stopped(geo, s', raw', offset + done)
  {
    var (lb, off, end) := NextChunk(geo.blockSize, offset, done, |buffer|);
    FundedServed(geo, s1, raw1, offset + done, offset + |buffer|);
    var ok;
    ok, raw', s', owner' := WriteChunk(geo, s1, raw1, lb, off, buffer[done..end], n, t[n := raw1], owner);
    next := if ok then end else done;
    RoundEnds(geo, s, s1, s', t, owner', raw, raw1, raw', n, offset, buffer, done, end, lb, off, ok);
  }

  /** The write loop: block after block until the buffer is used up or no block can be had. */
  method WriteBlocks(geo: Layout, s: State, raw: Raw, offset: nat, buffer: seq<byte>, ghost n: nat, ghost t: Table,
                     ghost owner: Owner)
    returns (written: nat, raw': Raw, s': State, ghost owner': Owner)
    requires Good(geo, s, owner, t) && n in t && t[n] == raw && Funded(geo, s, raw, offset, offset + |buffer|)
    ensures Writing(geo, s, s', t, owner', raw, raw', n, offset, buffer, written)
    ensures written < |buffer| ==> Stopped(geo, s', raw', offset + written)
  {
    written, raw', s', owner' := 0, raw, s, owner;
    ProgressStart(geo, s, t, raw, n, offset);
    assert t[n := raw] == t && buffer[..0] == [];
    var more := true;
    while more && written < |buffer|
      invariant Writing(geo, s, s', t, owner', raw, raw', n, offset, buffer, written)
      invariant more ==> RoundReady(geo, s', raw', offset, |buffer|, written)
      invariant !more ==> Stopped(geo, s', raw', offset + written)
      decreases more, |buffer| - written
    {
      var next;
      next, raw', s', owner' := WriteRound(geo, s, s', raw, raw', offset, buffer, written, n, t, owner');
      more, written := written < next, next;
    }
  }

  // ---- reading ----

  ghost predicate BytesAt(geo: Layout, d: Disk, raw: Raw, offset: nat, data: seq<byte>) {
    forall i | 0 <= i < |data| :: FileByte(geo, d, raw, offset + i) == Some(data[i])
  }

  /** `data` is what a read of up to `limit` bytes returns: the mapped bytes, up to the first hole. */
  ghost predicate IsRead(geo: Layout, d: Disk, raw: Raw, offset: nat, limit: nat, data: seq<byte>) {
    && |data| <= limit && BytesAt(geo, d, raw, offset, data)
    && (|data| < limit ==> FileByte(geo, d, raw, offset + |data|) == None)
  }

  lemma ConcatSlice(data: seq<byte>, b: seq<byte>, off: nat, len: nat, i: nat)
    requires off + len <= |b| && |data| <= i < |data| + len
    ensures (data + b[off..off + len])[i] == b[off + (i - |data|)]
  {
  }

  /** Appending the bytes of one block chunk. */
  lemma ReadStep(geo: Layout, d: Disk, raw: Raw, offset: nat, limit: nat, data: seq<byte>, next: nat, lb: nat,
                 off: nat, b: Block, more: seq<byte>)
    requires BytesAt(geo, d, raw, offset, data)
    requires IsChunk(geo.blockSize, offset, limit, |data|, next, lb, off)
    requires FileBlock(geo, d, raw, lb) == Some(b) && |b| == geo.blockSize
    requires more == data + b[off..off + (next - |data|)]
    ensures BytesAt(geo, d, raw, offset, more)
  {
    forall i | |data| <= i < next
      ensures FileByte(geo, d, raw, offset + i) == Some(more[i])
    {
      QuotWithin(offset + |data|, i - |data|, geo.blockSize);
      assert offset + |data| + (i - |data|) == offset + i;
      assert Quot(offset + i, geo.blockSize) == lb && Rem(offset + i, geo.blockSize) == off + (i - |data|);
      ConcatSlice(data, b, off, next - |data|, i);
    }
  }

  /** The lookup of a read: 0 for a hole, else the block that holds logical block `lb`. */
  method LookUp(geo: Layout, s: State, raw: Raw, lb: nat, ghost n: nat, ghost t: Table, ghost owner: Owner)
    returns (addr: u32)
    requires Good(geo, s, owner, t) && n in t && t[n] == raw
    ensures addr == 0 ==> FileBlock(geo, s.disk, raw, lb) == None
    ensures addr != 0 ==> addr < |s.disk| && |s.disk[addr]| == geo.blockSize
    ensures addr != 0 ==> FileBlock(geo, s.disk, raw, lb) == Some(s.disk[addr])
  {
    ghost var owner';
    var raw', s';
    addr, raw', s', owner' := GetBlockAddr(geo, s, raw, lb, false, n, t, owner);
    if addr != 0 {
      MappedBlock(geo, s, owner, t, n, lb, addr);
    }
  }

  method ReadBlocks(geo: Layout, s: State, raw: Raw, offset: nat, limit: nat, ghost n: nat, ghost t: Table,
                    ghost owner: Owner)
    returns (data: seq<byte>)
    requires Good(geo, s, owner, t) && n in t && t[n] == raw
    ensures IsRead(geo, s.disk, raw, offset, limit, data)
  {
    data := [];
    while |data| < limit
      invariant |data| <= limit && BytesAt(geo, s.disk, raw, offset, data)
    {
      var (lb, off, next) := NextChunk(geo.blockSize, offset, |data|, limit);
      var addr := LookUp(geo, s, raw, lb, n, t, owner);
      if addr == 0 {
        break;
      }
      var more := data + s.disk[addr][off..off + (next - |data|)];
      ReadStep(geo, s.disk, raw, offset, limit, data, next, lb, off, s.disk[addr], more);
      data := more;
    }
  }

  lemma MappedBlock(geo: Layout, s: State, owner: Owner, t: Table, n: nat, lb: nat, addr: u32)
    requires Good(geo, s, owner, t) && n in t && addr != 0 && addr == FileAddr(geo, s.disk, t[n], lb)
    ensures addr < |s.disk| && |s.disk[addr]| == geo.blockSize && FileBlock(geo, s.disk, t[n], lb) == Some(s.disk[addr])
  {
    OwnedBy(geo, s.disk, t, owner, n, LeafNode(geo, lb).value);
  }

  // ---- inodes ----

  /** ext2_read_inode: the 128 bytes at the inode's place, for a valid number. */
  method ReadInode(geo: Layout, d: Disk, n: nat) returns (ok: bool, raw: Raw)
    requires geo.TablesFit() && geo.OnDisk(d)
    ensures ok <==> 1 <= n <= geo.inodesCount
    ensures ok ==> raw == InodeAt(geo, d, n)
  {
    ok, raw := 1 <= n <= geo.inodesCount, Zeros(128);
    if ok {
      var block, within := d[geo.TableBlock(n)], geo.Within(n);
      raw := block[within..within + 128];
    }
  }

  /** ext2_write_inode: those 128 bytes replaced, the rest of the table block kept. */
  method WriteInode(geo: Layout, d: Disk, n: nat, raw: Raw) returns (ok: bool, d': Disk)
    requires geo.TablesFit() && geo.OnDisk(d)
    ensures ok <==> 1 <= n <= geo.inodesCount
    ensures d' == if ok then InodeStored(geo, d, n, raw) else d
  {
    ok, d' := 1 <= n <= geo.inodesCount, d;
    if ok {
      var a := geo.TableBlock(n);
      d' := d[a := Splice(d[a], geo.Within(n), raw)];
    }
  }
}
