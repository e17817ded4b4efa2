/** One block of a directory: variable-length records that tile the block, live ones naming an inode. */
module Ext2DirBlock {
  import opened Common
  import opened Bytes

  type Name = seq<byte>

  datatype Entry = Entry(name: Name, ino: u32)

  const HEADER: nat := 8

  // ---- the fields of the record at `pos` ----

  function Ino(b: seq<byte>, pos: nat): u32
    requires pos + HEADER <= |b|
  {
    GetU32(b, pos)
  }

  function RecLen(b: seq<byte>, pos: nat): nat
    requires pos + HEADER <= |b|
  {
    var lo: int, hi: int := b[pos + 4], b[pos + 5];
    lo + 0x100 * hi
  }

  function NameLen(b: seq<byte>, pos: nat): nat
    requires pos + HEADER <= |b|
  {
    b[pos + 6]
  }

  /** The record at `pos` fits its block, and a live record's name fits the record. */
  predicate RecordFits(b: seq<byte>, pos: nat) {
    && pos + HEADER <= |b| && HEADER <= RecLen(b, pos) && pos + RecLen(b, pos) <= |b|
    && (Ino(b, pos) != 0 ==> HEADER + NameLen(b, pos) <= RecLen(b, pos))
  }

  /** From `pos` on, records tile the block exactly. */
  ghost predicate Tiled(b: seq<byte>, pos: nat)
    decreases |b| - pos
  {
    pos == |b| || (RecordFits(b, pos) && Tiled(b, pos + RecLen(b, pos)))
  }

  /** `q` is a record boundary reached from `pos`. */
  ghost predicate Reaches(b: seq<byte>, pos: nat, q: nat)
    decreases |b| - pos
  {
    pos == q || (pos < q && RecordFits(b, pos) && Reaches(b, pos + RecLen(b, pos), q))
  }

  function EntryAt(b: seq<byte>, pos: nat): Entry
    requires RecordFits(b, pos) && Ino(b, pos) != 0
  {
    Entry(b[pos + HEADER..pos + HEADER + NameLen(b, pos)], Ino(b, pos))
  }

  /** The live entries from `pos` on, in block order. */
  ghost function Live(b: seq<byte>, pos: nat): seq<Entry>
    decreases |b| - pos
  {
    if !RecordFits(b, pos) then [] else EntriesAt(b, pos) + Live(b, pos + RecLen(b, pos))
  }

  /** The entry of one record, if it is live. */
  ghost function EntriesAt(b: seq<byte>, pos: nat): seq<Entry>
    requires RecordFits(b, pos)
  {
    if Ino(b, pos) == 0 then [] else [EntryAt(b, pos)]
  }

  /** The live entries of the records between two boundaries. */
  ghost function LiveTo(b: seq<byte>, pos: nat, q: nat): seq<Entry>
    decreases |b| - pos
  {
    if pos >= q || !RecordFits(b, pos) then [] else EntriesAt(b, pos) + LiveTo(b, pos + RecLen(b, pos), q)
  }

  lemma {:induction false} ReachesTiled(b: seq<byte>, pos: nat, q: nat)
    requires Reaches(b, pos, q) && Tiled(b, q)
    ensures Tiled(b, pos)
    decreases |b| - pos
  {
    if pos != q {
      ReachesTiled(b, pos + RecLen(b, pos), q);
    }
  }

  lemma {:induction false} LiveSplit(b: seq<byte>, pos: nat, q: nat)
    requires Reaches(b, pos, q)
    ensures Live(b, pos) == LiveTo(b, pos, q) + Live(b, q)
    decreases |b| - pos
  {
    if pos != q {
      var next := pos + RecLen(b, pos);
      ReachesBound(b, next, q);
      LiveSplit(b, next, q);
      assert EntriesAt(b, pos) + (LiveTo(b, next, q) + Live(b, q))
        == (EntriesAt(b, pos) + LiveTo(b, next, q)) + Live(b, q);
    }
  }

  lemma {:induction false} ReachesBound(b: seq<byte>, pos: nat, q: nat)
    requires Reaches(b, pos, q)
    ensures pos <= q
  {
  }

  lemma {:induction false} ReachesNext(b: seq<byte>, pos: nat, q: nat)
    requires Reaches(b, pos, q) && RecordFits(b, q)
    ensures Reaches(b, pos, q + RecLen(b, q))
    ensures LiveTo(b, pos, q + RecLen(b, q)) == LiveTo(b, pos, q) + EntriesAt(b, q)
    decreases |b| - pos
  {
    if pos == q {
      assert LiveTo(b, q + RecLen(b, q), q + RecLen(b, q)) == [];
    } else {
      var next := pos + RecLen(b, pos);
      ReachesBound(b, next, q);
      ReachesNext(b, next, q);
      assert EntriesAt(b, pos) + (LiveTo(b, next, q) + EntriesAt(b, q))
        == (EntriesAt(b, pos) + LiveTo(b, next, q)) + EntriesAt(b, q);
    }
  }

  // ---- frames: records depend only on their own bytes ----

  lemma SameRecord(b: seq<byte>, c: seq<byte>, pos: nat)
    requires RecordFits(b, pos) && |c| == |b|
    requires forall i | pos <= i < pos + RecLen(b, pos) :: c[i] == b[i]
    ensures RecordFits(c, pos) && RecLen(c, pos) == RecLen(b, pos) && Ino(c, pos) == Ino(b, pos)
    ensures Ino(b, pos) != 0 ==> EntryAt(c, pos) == EntryAt(b, pos)
  {
  }

  /** Bytes before `q` unchanged: the records before `q` are unchanged. */
  lemma {:induction false} BeforeSame(b: seq<byte>, c: seq<byte>, pos: nat, q: nat)
    requires Reaches(b, pos, q) && |c| == |b| && forall i | 0 <= i < q && i < |b| :: c[i] == b[i]
    ensures Reaches(c, pos, q) && LiveTo(c, pos, q) == LiveTo(b, pos, q)
    decreases |b| - pos
  {
    if pos != q {
      ReachesBound(b, pos + RecLen(b, pos), q);
      SameRecord(b, c, pos);
      BeforeSame(b, c, pos + RecLen(b, pos), q);
    }
  }

  /** Bytes from `q` on unchanged: the records from `q` on are unchanged. */
  lemma {:induction false} AfterSame(b: seq<byte>, c: seq<byte>, q: nat)
    requires Tiled(b, q) && |c| == |b| && forall i | q <= i < |b| :: c[i] == b[i]
    ensures Tiled(c, q) && Live(c, q) == Live(b, q)
    decreases |b| - q
  {
    if q != |b| {
      SameRecord(b, c, q);
      AfterSame(b, c, q + RecLen(b, q));
    }
  }

  lemma Assoc(x: seq<Entry>, y: seq<Entry>, z: seq<Entry>)
    ensures x + (y + z) == x + y + z
  {
  }

  lemma EmptyMiddle(whole: seq<Entry>, x: seq<Entry>, y: seq<Entry>, z: seq<Entry>)
    requires whole == x + y + z && y == []
    ensures whole == x + z
  {
    assert x + y == x;
  }

  lemma LiveSplit3(b: seq<byte>, pos: nat, end: nat)
    requires Reaches(b, 0, pos) && Reaches(b, pos, end)
    ensures Live(b, 0) == LiveTo(b, 0, pos) + LiveTo(b, pos, end) + Live(b, end)
  {
    LiveSplit(b, 0, pos);
    LiveSplit(b, pos, end);
    Assoc(LiveTo(b, 0, pos), LiveTo(b, pos, end), Live(b, end));
  }

  /** The bytes between two boundaries replaced by other records. */
  lemma Replaced(b: seq<byte>, c: seq<byte>, pos: nat, end: nat)
    requires Reaches(b, 0, pos) && Tiled(b, end) && |c| == |b| && pos <= end
    requires forall i | 0 <= i < |b| && (i < pos || end <= i) :: c[i] == b[i]
    requires Reaches(c, pos, end)
    ensures Tiled(c, 0) && Live(c, 0) == LiveTo(b, 0, pos) + LiveTo(c, pos, end) + Live(b, end)
  {
    BeforeSame(b, c, 0, pos);
    AfterSame(b, c, end);
    assert Tiled(c, 0) by {
      ReachesTiled(c, pos, end);
      ReachesTiled(c, 0, pos);
    }
    LiveSplit3(c, pos, end);
  }

  // ---- adding a record ----

  /** Size of a record for a name of this length: header and name, rounded up to four bytes. */
  function EntrySize(len: nat): (n: nat)
    ensures HEADER + len <= n < HEADER + len + 4 && n % 4 == 0
  {
    (HEADER + len + 3) / 4 * 4
  }

  /** The header fields after the inode number. */
  function Tail(recLen: nat, name: Name, fileType: byte): (t: seq<byte>)
    requires recLen < 0x1_0000 && |name| < 256
  {
    [recLen % 0x100, recLen / 0x100, |name|, fileType] + name
  }

  function WithRecord(b: seq<byte>, pos: nat, ino: u32, recLen: nat, name: Name, fileType: byte): (c: seq<byte>)
    requires recLen < 0x1_0000 && |name| < 256 && pos + HEADER + |name| <= |b|
    ensures |c| == |b|
    ensures Ino(c, pos) == ino && RecLen(c, pos) == recLen && NameLen(c, pos) == |name|
    ensures c[pos + HEADER..pos + HEADER + |name|] == name && c[pos + 7] == fileType
    ensures forall i | 0 <= i < |b| && (i < pos || pos + HEADER + |name| <= i) :: c[i] == b[i]
  {
    var c := SetU32(Splice(b, pos + 4, Tail(recLen, name, fileType)), pos, ino);
    assert forall i | 0 <= i < |name| :: c[pos + HEADER + i] == name[i];
    c
  }

  /** A record in bytes: inode number and length, low bytes first, the name's length, the file type and the name. */
  lemma RecordBytes(b: seq<byte>, pos: nat, ino: u32, recLen: nat, name: Name, fileType: byte)
    requires recLen < 0x1_0000 && |name| < 256 && pos + 8 + |name| <= |b|
    ensures WithRecord(b, pos, ino, recLen, name, fileType)[pos..pos + 8 + |name|] ==
      [ino % 0x100, ino / 0x100 % 0x100, ino / 0x1_0000 % 0x100, ino / 0x100_0000] +
      [recLen % 0x100, recLen / 0x100] + [|name|, fileType] + name
  {
    WordParts(ino);
    var c := WithRecord(b, pos, ino, recLen, name, fileType);
    assert forall i | 0 <= i < 4 + |name| :: c[pos + 4 + i] == Tail(recLen, name, fileType)[i];
  }

  function WithFree(b: seq<byte>, pos: nat, recLen: nat): (c: seq<byte>)
    requires recLen < 0x1_0000 && pos + HEADER <= |b|
    ensures |c| == |b| && Ino(c, pos) == 0 && RecLen(c, pos) == recLen
    ensures forall i | 0 <= i < |b| && (i < pos || pos + 6 <= i) :: c[i] == b[i]
  {
    SetU32(Splice(b, pos + 4, [recLen % 0x100, recLen / 0x100]), pos, 0)
  }

  ghost predicate HasRoom(b: seq<byte>, pos: nat, len: nat) {
    Reaches(b, 0, pos) && RecordFits(b, pos) && Ino(b, pos) == 0 && EntrySize(len) <= RecLen(b, pos)
  }

  /** The free record at `pos` taken for `name`; what is left over, if it can hold a record, becomes a free one. */
  function Placed(b: seq<byte>, pos: nat, name: Name, ino: u32, fileType: byte): (c: seq<byte>)
    requires RecordFits(b, pos) && |name| < 256 && EntrySize(|name|) <= RecLen(b, pos)
    ensures |c| == |b|
  {
    var size, whole := EntrySize(|name|), RecLen(b, pos);
    if whole - size >= HEADER then
      WithFree(WithRecord(b, pos, ino, size, name, fileType), pos + size, whole - size)
    else
      WithRecord(b, pos, ino, whole, name, fileType)
  }

  /** `c` is `b` with the `whole` bytes at `pos` taken: a live record, then nothing or one free record. */
  ghost predicate Taken(b: seq<byte>, c: seq<byte>, pos: nat, whole: nat, e: Entry) {
    && |c| == |b|
    && RecordFits(c, pos) && Ino(c, pos) != 0 && EntryAt(c, pos) == e
    && (var end, next := pos + whole, pos + RecLen(c, pos);
        next == end || (RecordFits(c, next) && Ino(c, next) == 0 && next + RecLen(c, next) == end))
    && forall i | 0 <= i < |b| && (i < pos || pos + whole <= i) :: c[i] == b[i]
  }

  /** The record alone, `r`, and with a free record behind it, `c`. */
  lemma TakenSplit(b: seq<byte>, r: seq<byte>, c: seq<byte>, pos: nat, size: nat, whole: nat, e: Entry)
    requires Taken(b, r, pos, size, e) && RecLen(r, pos) == size && HEADER + |e.name| <= size <= whole - HEADER
    requires pos + whole <= |b|
    requires |c| == |r| && Ino(c, pos + size) == 0 && RecLen(c, pos + size) == whole - size
    requires forall i | 0 <= i < |r| && (i < pos + size || pos + size + 6 <= i) :: c[i] == r[i]
    ensures Taken(b, c, pos, whole, e)
  {
    SameRecord(r, c, pos);
  }

  /** One live record over the whole span. */
  lemma TakenWhole(b: seq<byte>, pos: nat, recLen: nat, name: Name, ino: u32, fileType: byte)
    requires HEADER + |name| <= recLen < 0x1_0000 && |name| < 256 && pos + recLen <= |b| && ino != 0
    ensures Taken(b, WithRecord(b, pos, ino, recLen, name, fileType), pos, recLen, Entry(name, ino))
  {
  }

  /** The record is no longer than the name needs, unless what is left over could not hold a record's header. */
  lemma PlacedLength(b: seq<byte>, pos: nat, name: Name, ino: u32, fileType: byte)
    requires RecordFits(b, pos) && |name| < 256 && EntrySize(|name|) <= RecLen(b, pos)
    ensures var size, whole := EntrySize(|name|), RecLen(b, pos);
      RecLen(Placed(b, pos, name, ino, fileType), pos) == if whole < size + 8 then whole else size
  {
  }

  lemma PlacedRecord(b: seq<byte>, pos: nat, name: Name, ino: u32, fileType: byte, c: seq<byte>)
    requires RecordFits(b, pos) && |name| < 256 && EntrySize(|name|) <= RecLen(b, pos) && ino != 0
    requires c == Placed(b, pos, name, ino, fileType)
    ensures Taken(b, c, pos, RecLen(b, pos), Entry(name, ino))
  {
    var size, whole := EntrySize(|name|), RecLen(b, pos);
    if whole - size < HEADER {
      TakenWhole(b, pos, whole, name, ino, fileType);
    } else {
      var r := WithRecord(b, pos, ino, size, name, fileType);
      TakenWhole(b, pos, size, name, ino, fileType);
      TakenSplit(b, r, c, pos, size, whole, Entry(name, ino));
    }
  }

  /** A free record of `b` that is a live one, and perhaps a free one, in `c`. */
  lemma RecordTaken(b: seq<byte>, c: seq<byte>, pos: nat, end: nat, e: Entry)
    requires Reaches(b, 0, pos) && Tiled(b, end) && pos <= end && Taken(b, c, pos, end - pos, e)
    ensures Tiled(c, 0) && Live(c, 0) == LiveTo(b, 0, pos) + [e] + Live(b, end)
  {
    PlacedSpan(c, pos, end);
    Replaced(b, c, pos, end);
  }

  /** A free record contributes nothing. */
  lemma FreeLive(b: seq<byte>, pos: nat)
    requires Reaches(b, 0, pos) && RecordFits(b, pos) && Ino(b, pos) == 0
    ensures Live(b, 0) == LiveTo(b, 0, pos) + Live(b, pos + RecLen(b, pos))
  {
    LiveSplit(b, 0, pos);
    assert [] + Live(b, pos + RecLen(b, pos)) == Live(b, pos + RecLen(b, pos));
  }

  /** Placing a name keeps the block tiled and inserts exactly that entry. */
  lemma PlacedLive(b: seq<byte>, pos: nat, name: Name, ino: u32, fileType: byte, c: seq<byte>)
    requires HasRoom(b, pos, |name|) && Tiled(b, pos) && |name| < 256 && ino != 0
    requires c == Placed(b, pos, name, ino, fileType)
    ensures Tiled(c, 0) && Inserted(Live(b, 0), Live(c, 0), Entry(name, ino))
  {
    PlacedRecord(b, pos, name, ino, fileType, c);
    TakenLive(b, c, pos, Entry(name, ino));
  }

  /** The record at `pos` is live, holds the entry and gives its file type. */
  ghost predicate TypedAt(b: seq<byte>, pos: nat, e: Entry, fileType: byte) {
    Reaches(b, 0, pos) && RecordFits(b, pos) && Ino(b, pos) != 0 && EntryAt(b, pos) == e && b[pos + 7] == fileType
  }

  lemma PlacedTyped(b: seq<byte>, pos: nat, name: Name, ino: u32, fileType: byte, c: seq<byte>)
    requires HasRoom(b, pos, |name|) && Tiled(b, pos) && |name| < 256 && ino != 0
    requires c == Placed(b, pos, name, ino, fileType)
    ensures TypedAt(c, pos, Entry(name, ino), fileType)
  {
    PlacedRecord(b, pos, name, ino, fileType, c);
    BeforeSame(b, c, 0, pos);
  }

  lemma TakenLive(b: seq<byte>, c: seq<byte>, pos: nat, e: Entry)
    requires Reaches(b, 0, pos) && RecordFits(b, pos) && Ino(b, pos) == 0 && Tiled(b, pos)
    requires Taken(b, c, pos, RecLen(b, pos), e)
    ensures Tiled(c, 0) && Inserted(Live(b, 0), Live(c, 0), e)
  {
    var end := pos + RecLen(b, pos);
    RecordTaken(b, c, pos, end, e);
    FreeLive(b, pos);
    InsertedAt(LiveTo(b, 0, pos), Live(b, end), Live(b, 0), Live(c, 0), e);
  }

  /** A live record, possibly followed by one free record, up to `end`. */
  lemma PlacedSpan(c: seq<byte>, pos: nat, end: nat)
    requires RecordFits(c, pos) && Ino(c, pos) != 0
    requires var next := pos + RecLen(c, pos);
      next == end || (RecordFits(c, next) && Ino(c, next) == 0 && next + RecLen(c, next) == end)
    ensures Reaches(c, pos, end) && LiveTo(c, pos, end) == [EntryAt(c, pos)]
  {
    ReachesNext(c, pos, pos);
    var next := pos + RecLen(c, pos);
    if next != end {
      ReachesNext(c, pos, next);
    }
  }

  lemma FreeSpan(c: seq<byte>, pos: nat)
    requires RecordFits(c, pos) && Ino(c, pos) == 0
    ensures Reaches(c, pos, pos + RecLen(c, pos)) && LiveTo(c, pos, pos + RecLen(c, pos)) == []
  {
    ReachesNext(c, pos, pos);
  }

  // ---- entry lists as maps ----

  /** The inode a name stands for: that of the first entry with the name. */
  ghost function Lookup(es: seq<Entry>, name: Name): Option<u32> {
    if es == [] then None else if es[0].name == name then Some(es[0].ino) else Lookup(es[1..], name)
  }

  /** No name occurs twice. */
  ghost predicate Unique(es: seq<Entry>) {
    es == [] || (Lookup(es[1..], es[0].name) == None && Unique(es[1..]))
  }

  ghost predicate Inserted(es: seq<Entry>, es': seq<Entry>, e: Entry) {
    exists k: nat | k <= |es| :: es' == es[..k] + [e] + es[k..]
  }

  lemma InsertedAt(a: seq<Entry>, z: seq<Entry>, es: seq<Entry>, es': seq<Entry>, e: Entry)
    requires es == a + z && es' == a + [e] + z
    ensures Inserted(es, es', e)
  {
    assert es[..|a|] == a && es[|a|..] == z;
  }

  /** A fresh block holding one record that spans it. */
  lemma FreshBlock(size: nat, name: Name, ino: u32, fileType: byte)
    requires HEADER + |name| <= size < 0x1_0000 && |name| < 256 && ino != 0
    ensures var c := WithRecord(Zeros(size), 0, ino, size, name, fileType);
      Tiled(c, 0) && Live(c, 0) == [Entry(name, ino)] && TypedAt(c, 0, Entry(name, ino), fileType)
  {
    var c := WithRecord(Zeros(size), 0, ino, size, name, fileType);
    assert Tiled(c, |c|);
  }

  // ---- removing a record ----

  function Removed(b: seq<byte>, pos: nat): (c: seq<byte>)
    requires pos + HEADER <= |b|
    ensures |c| == |b|
  {
    SetU32(b, pos, 0)
  }

  lemma RecordFreed(b: seq<byte>, c: seq<byte>, pos: nat, end: nat)
    requires Reaches(b, 0, pos) && Tiled(b, end) && |c| == |b|
    requires RecordFits(c, pos) && Ino(c, pos) == 0 && pos + RecLen(c, pos) == end
    requires forall i | 0 <= i < |b| && (i < pos || end <= i) :: c[i] == b[i]
    ensures Tiled(c, 0) && Live(c, 0) == LiveTo(b, 0, pos) + Live(b, end)
  {
    FreeSpan(c, pos);
    Replaced(b, c, pos, end);
    EmptyMiddle(Live(c, 0), LiveTo(b, 0, pos), LiveTo(c, pos, end), Live(b, end));
  }

  /** A live record contributes its entry. */
  lemma UsedLive(b: seq<byte>, pos: nat)
    requires Reaches(b, 0, pos) && RecordFits(b, pos) && Ino(b, pos) != 0
    ensures Live(b, 0) == LiveTo(b, 0, pos) + [EntryAt(b, pos)] + Live(b, pos + RecLen(b, pos))
  {
    LiveSplit(b, 0, pos);
    Assoc(LiveTo(b, 0, pos), [EntryAt(b, pos)], Live(b, pos + RecLen(b, pos)));
  }

  /** Clearing the inode number keeps the block tiled and removes exactly that entry. */
  lemma RemovedLive(b: seq<byte>, pos: nat)
    requires Reaches(b, 0, pos) && Tiled(b, pos) && pos < |b| && Ino(b, pos) != 0
    ensures Tiled(Removed(b, pos), 0)
    ensures Live(b, 0) == LiveTo(b, 0, pos) + [EntryAt(b, pos)] + Live(b, pos + RecLen(b, pos))
    ensures Live(Removed(b, pos), 0) == LiveTo(b, 0, pos) + Live(b, pos + RecLen(b, pos))
  {
    RemovedRecord(b, pos);
    RecordFreed(b, Removed(b, pos), pos, pos + RecLen(b, pos));
    UsedLive(b, pos);
  }

  lemma RemovedRecord(b: seq<byte>, pos: nat)
    requires RecordFits(b, pos)
    ensures var c := Removed(b, pos);
      && RecordFits(c, pos) && Ino(c, pos) == 0 && RecLen(c, pos) == RecLen(b, pos)
      && forall i | 0 <= i < |b| && (i < pos || pos + RecLen(b, pos) <= i) :: c[i] == b[i]
  {
  }

  // ---- what insertion and removal mean for lookups ----

  lemma {:induction false} LookupConcat(a: seq<Entry>, z: seq<Entry>, name: Name)
    ensures Lookup(a + z, name) == if Lookup(a, name).Some? then Lookup(a, name) else Lookup(z, name)
  {
    if a == [] {
      assert a + z == z;
    } else {
      assert (a + z)[1..] == a[1..] + z;
      LookupConcat(a[1..], z, name);
    }
  }

  lemma LookupOne(e: Entry, name: Name)
    ensures Lookup([e], name) == if e.name == name then Some(e.ino) else None
  {
    assert [e][1..] == [];
  }

  lemma LookupMiddle(a: seq<Entry>, e: Entry, z: seq<Entry>, name: Name)
    ensures Lookup(a + [e] + z, name) ==
      if Lookup(a, name).Some? then Lookup(a, name) else if e.name == name then Some(e.ino) else Lookup(z, name)
  {
    LookupConcat(a + [e], z, name);
    LookupConcat(a, [e], name);
    LookupOne(e, name);
  }

  /** Adding a new name: that name now finds the new inode, every other name finds what it found. */
  lemma InsertedLookup(es: seq<Entry>, es': seq<Entry>, e: Entry, name: Name)
    requires Inserted(es, es', e) && Lookup(es, e.name) == None
    ensures Lookup(es', name) == if name == e.name then Some(e.ino) else Lookup(es, name)
  {
    var k: nat :| k <= |es| && es' == es[..k] + [e] + es[k..];
    assert es == es[..k] + es[k..];
    LookupConcat(es[..k], es[k..], e.name);
    LookupConcat(es[..k], es[k..], name);
    LookupMiddle(es[..k], e, es[k..], name);
  }

  lemma {:induction false} MiddleUnique(a: seq<Entry>, e: Entry, z: seq<Entry>)
    ensures Unique(a + [e] + z) <==> Unique(a + z) && Lookup(a + z, e.name) == None
  {
    if a == [] {
      assert a + [e] + z == [e] + z && a + z == z && ([e] + z)[1..] == z;
    } else {
      var h, t := a[0], a[1..];
      assert (a + [e] + z)[1..] == t + [e] + z && (a + z)[1..] == t + z;
      MiddleUnique(t, e, z);
      LookupMiddle(t, e, z, h.name);
      LookupConcat(t, z, h.name);
    }
  }

  lemma InsertedUnique(es: seq<Entry>, es': seq<Entry>, e: Entry)
    requires Inserted(es, es', e)
    ensures Unique(es') <==> Unique(es) && Lookup(es, e.name) == None
  {
    var k: nat :| k <= |es| && es' == es[..k] + [e] + es[k..];
    assert es == es[..k] + es[k..];
    MiddleUnique(es[..k], e, es[k..]);
  }

  /** Removing the entry of a name: that name finds nothing, every other name finds what it found. */
  lemma RemovedLookup(es: seq<Entry>, es': seq<Entry>, e: Entry, name: Name)
    requires Inserted(es', es, e) && Unique(es)
    ensures Unique(es') && Lookup(es', name) == if name == e.name then None else Lookup(es, name)
  {
    InsertedUnique(es', es, e);
    InsertedLookup(es', es, e, name);
  }

  // ---- several blocks ----

  /** The entries of consecutive blocks. */
  ghost function Flat(ls: seq<seq<Entry>>): seq<Entry> {
    if ls == [] then [] else Flat(ls[..|ls| - 1]) + ls[|ls| - 1]
  }

  lemma InsertedLeft(a: seq<Entry>, a': seq<Entry>, z: seq<Entry>, e: Entry)
    requires Inserted(a, a', e)
    ensures Inserted(a + z, a' + z, e)
  {
    var k: nat :| k <= |a| && a' == a[..k] + [e] + a[k..];
    assert (a + z)[..k] == a[..k] && (a + z)[k..] == a[k..] + z;
    assert a' + z == (a + z)[..k] + [e] + (a + z)[k..];
  }

  lemma InsertedRight(a: seq<Entry>, z: seq<Entry>, z': seq<Entry>, e: Entry)
    requires Inserted(z, z', e)
    ensures Inserted(a + z, a + z', e)
  {
    var k: nat :| k <= |z| && z' == z[..k] + [e] + z[k..];
    var n := |a| + k;
    assert (a + z)[..n] == a + z[..k] && (a + z)[n..] == z[k..];
    assert a + z' == (a + z)[..n] + [e] + (a + z)[n..];
  }

  /** An entry inserted in one block is inserted in the whole. */
  lemma {:induction false} FlatInserted(ls: seq<seq<Entry>>, ls': seq<seq<Entry>>, k: nat, e: Entry)
    requires k < |ls| == |ls'| && Inserted(ls[k], ls'[k], e)
    requires forall j | 0 <= j < |ls| && j != k :: ls'[j] == ls[j]
    ensures Inserted(Flat(ls), Flat(ls'), e)
  {
    var m := |ls| - 1;
    if k == m {
      assert ls'[..m] == ls[..m];
      InsertedRight(Flat(ls[..m]), ls[m], ls'[m], e);
    } else {
      FlatInserted(ls[..m], ls'[..m], k, e);
      InsertedLeft(Flat(ls[..m]), Flat(ls'[..m]), ls[m], e);
    }
  }

  lemma FlatAppended(ls: seq<seq<Entry>>, e: Entry)
    ensures Inserted(Flat(ls), Flat(ls + [[e]]), e)
  {
    assert (ls + [[e]])[..|ls|] == ls;
    InsertedAt(Flat(ls), [], Flat(ls), Flat(ls + [[e]]), e);
  }

  /** A name absent from the first blocks and found in the next is found in the whole. */
  lemma {:induction false} FlatFound(ls: seq<seq<Entry>>, k: nat, name: Name, ino: u32)
    requires k < |ls| && Lookup(Flat(ls[..k]), name) == None && Lookup(ls[k], name) == Some(ino)
    ensures Lookup(Flat(ls), name) == Some(ino)
  {
    var m := |ls| - 1;
    LookupConcat(Flat(ls[..m]), ls[m], name);
    if k < m {
      assert ls[..m][..k] == ls[..k];
      FlatFound(ls[..m], k, name, ino);
    }
  }

  /** A name absent from the first blocks and from the next. */
  lemma FlatAbsent(ls: seq<seq<Entry>>, k: nat, name: Name)
    requires k < |ls| && Lookup(Flat(ls[..k]), name) == None && Lookup(ls[k], name) == None
    ensures Lookup(Flat(ls[..k + 1]), name) == None
  {
    assert ls[..k + 1][..k] == ls[..k];
    LookupConcat(Flat(ls[..k]), ls[k], name);
  }

  // ---- scanning a block ----

  /** Byte by byte, whether the record's name is `name`. */
  method NameMatches(b: seq<byte>, pos: nat, name: Name) returns (match_: bool)
    requires RecordFits(b, pos) && Ino(b, pos) != 0
    ensures match_ <==> EntryAt(b, pos).name == name
  {
    if NameLen(b, pos) != |name| {
      return false;
    }
    var i := 0;
    while i < |name|
      invariant i <= |name| && forall j | 0 <= j < i :: b[pos + HEADER + j] == name[j]
    {
      if b[pos + HEADER + i] != name[i] {
        assert EntryAt(b, pos).name[i] != name[i];
        return false;
      }
      i := i + 1;
    }
    assert EntryAt(b, pos).name == name;
    return true;
  }

  /** No live record before `pos`, where a record starts or the block ends, has the name. */
  ghost predicate NotBefore(b: seq<byte>, pos: nat, name: Name) {
    pos <= |b| && Reaches(b, 0, pos) && Tiled(b, pos) && Lookup(LiveTo(b, 0, pos), name) == None
  }

  /** A record that is free or has another name is passed over. */
  lemma PassedOver(b: seq<byte>, pos: nat, name: Name)
    requires NotBefore(b, pos, name) && pos < |b|
    requires Ino(b, pos) != 0 ==> EntryAt(b, pos).name != name
    ensures RecLen(b, pos) > 0 && NotBefore(b, pos + RecLen(b, pos), name)
  {
    if Ino(b, pos) != 0 {
      LookupOne(EntryAt(b, pos), name);
    }
    ReachesNext(b, 0, pos);
    LookupConcat(LiveTo(b, 0, pos), EntriesAt(b, pos), name);
  }

  lemma NoneBefore(b: seq<byte>, name: Name)
    requires Tiled(b, 0)
    ensures NotBefore(b, 0, name)
  {
  }

  /** The record at `pos` has the name, or the search goes on behind it. */
  method TryRecord(b: seq<byte>, pos: nat, name: Name) returns (found: bool, next: nat)
    requires NotBefore(b, pos, name) && pos < |b|
    ensures found ==> Ino(b, pos) != 0 && EntryAt(b, pos).name == name
    ensures !found ==> pos < next && NotBefore(b, next, name)
  {
    found, next := false, pos;
    if Ino(b, pos) != 0 {
      found := NameMatches(b, pos, name);
    }
    if !found {
      PassedOver(b, pos, name);
      next := pos + RecLen(b, pos);
    }
  }

  /** The first live record with the name, or the end of the block. */
  method FindName(b: seq<byte>, name: Name) returns (pos: nat)
    requires Tiled(b, 0)
    ensures NotBefore(b, pos, name)
    ensures pos < |b| ==> Ino(b, pos) != 0 && EntryAt(b, pos).name == name
  {
    NoneBefore(b, name);
    pos := 0;
    while pos < |b|
      invariant NotBefore(b, pos, name)
      decreases |b| - pos
    {
      var found, next := TryRecord(b, pos, name);
      if found {
        return;
      }
      pos := next;
    }
  }

  /** The first free record from `pos` on, if it has room for a name of this length; else the end of the block. */
  ghost function Room(b: seq<byte>, pos: nat, len: nat): nat
    decreases |b| - pos
  {
    if !RecordFits(b, pos) then |b|
    else if Ino(b, pos) != 0 then Room(b, pos + RecLen(b, pos), len)
    else if EntrySize(len) <= RecLen(b, pos) then pos
    else |b|
  }

  /** The first record of the block that is free. */
  ghost predicate FirstFree(b: seq<byte>, pos: nat) {
    && Reaches(b, 0, pos) && RecordFits(b, pos) && Ino(b, pos) == 0
    && forall q: nat | Reaches(b, 0, q) && q < pos && RecordFits(b, q) :: Ino(b, q) != 0
  }

  /** Only the first free record counts: there is room in it, or none at all. */
  lemma {:induction false} RoomInFirstFree(b: seq<byte>, from: nat, pos: nat, len: nat)
    requires FirstFree(b, pos) && Reaches(b, 0, from) && Reaches(b, from, pos)
    ensures Room(b, from, len) == if EntrySize(len) <= RecLen(b, pos) then pos else |b|
    decreases pos - from
  {
    if from < pos {
      ReachesNext(b, 0, from);
      RoomInFirstFree(b, from + RecLen(b, from), pos, len);
    }
  }

  /** A block whose records are all live has no room. */
  lemma {:induction false} NoneFree(b: seq<byte>, from: nat, len: nat)
    requires Reaches(b, 0, from) && forall q: nat | Reaches(b, 0, q) && RecordFits(b, q) :: Ino(b, q) != 0
    ensures Room(b, from, len) == |b|
    decreases |b| - from
  {
    if RecordFits(b, from) {
      ReachesNext(b, 0, from);
      NoneFree(b, from + RecLen(b, from), len);
    }
  }

  /** A live record is passed over. */
  lemma RoomNext(b: seq<byte>, pos: nat, len: nat)
    requires Reaches(b, 0, pos) && Tiled(b, pos) && pos < |b| && Ino(b, pos) != 0
    ensures pos < pos + RecLen(b, pos) <= |b| && Reaches(b, 0, pos + RecLen(b, pos)) && Tiled(b, pos + RecLen(b, pos))
    ensures Room(b, pos, len) == Room(b, pos + RecLen(b, pos), len)
  {
    ReachesNext(b, 0, pos);
  }

  /**
   * The first free record of a tiled block if it has room, else the end of the block; an all-zero block has no
   * record.
   */
  method FindRoom(b: seq<byte>, len: nat) returns (pos: nat)
    requires Tiled(b, 0) || (HEADER <= |b| && b == Zeros(|b|))
    ensures pos == Room(b, 0, len) <= |b| && (pos < |b| ==> Tiled(b, pos) && HasRoom(b, pos, len))
    ensures b == Zeros(|b|) ==> pos == |b|
  {
    pos := 0;
    while pos < |b|
      invariant pos <= |b| && (b == Zeros(|b|) ==> pos == 0 || pos == |b|) && Room(b, 0, len) == Room(b, pos, len)
      invariant (Reaches(b, 0, pos) && Tiled(b, pos)) || (pos == 0 && HEADER <= |b| && b == Zeros(|b|))
      decreases |b| - pos
    {
      if Ino(b, pos) == 0 {
        return if RecLen(b, pos) >= EntrySize(len) then pos else |b|;
      }
      RoomNext(b, pos, len);
      pos := pos + RecLen(b, pos);
    }
  }
}
