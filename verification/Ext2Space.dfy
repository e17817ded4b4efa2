/** How many free blocks a write needs: the blocks it misses, in the order the write loop asks for them. */
module Ext2Space {
  import opened Common
  import opened Bytes
  import opened Ext2Layout
  import opened Ext2BlockMap
  import opened Ext2

  /** Slot `y` is empty and not among those filled since. */
  ghost predicate Empty(geo: Layout, d: Disk, raw: Raw, have: set<Node>, y: Node) {
    Addr(geo, d, raw, y) == 0 && y !in have
  }

  /** Empty slots on the way to `x`, itself included. */
  ghost function ToFill(geo: Layout, d: Disk, raw: Raw, have: set<Node>, x: Node): nat {
    (if Empty(geo, d, raw, have, x) then 1 else 0) + if x.Child? then ToFill(geo, d, raw, have, x.parent) else 0
  }

  ghost function Path(x: Node): set<Node> {
    {x} + if x.Child? then Path(x.parent) else {}
  }

  /**
   * Mapping `count` blocks from `lb` on, with `total` blocks free, never runs out between index blocks: at each block
   * the missing index blocks can be had; running out at a data block just ends the write.
   */
  ghost predicate Clean(geo: Layout, d: Disk, raw: Raw, have: set<Node>, lb: nat, count: nat, total: int)
    decreases count
  {
    count == 0 || match LeafNode(geo, lb)
      case None => true
      case Some(x) =>
        && total >= (if x.Child? then ToFill(geo, d, raw, have, x.parent) else 0)
        && (total >= ToFill(geo, d, raw, have, x) ==>
              Clean(geo, d, raw, have + Path(x), lb + 1, count - 1, total - ToFill(geo, d, raw, have, x)))
  }

  // ---- the simulation follows the disk ----

  /** The same slots are empty, seen from two states. */
  ghost predicate SameEmpty(geo: Layout, d: Disk, raw: Raw, have: set<Node>, d': Disk, raw': Raw, have': set<Node>) {
    forall y | ValidNode(geo, y) :: Empty(geo, d, raw, have, y) <==> Empty(geo, d', raw', have', y)
  }

  lemma {:induction false} SameToFill(geo: Layout, d: Disk, raw: Raw, have: set<Node>, d': Disk, raw': Raw,
                                      have': set<Node>, x: Node)
    requires SameEmpty(geo, d, raw, have, d', raw', have') && ValidNode(geo, x)
    ensures ToFill(geo, d', raw', have', x) == ToFill(geo, d, raw, have, x)
  {
    if x.Child? {
      SameToFill(geo, d, raw, have, d', raw', have', x.parent);
    }
  }

  lemma SameEmptyMore(geo: Layout, d: Disk, raw: Raw, have: set<Node>, d': Disk, raw': Raw, have': set<Node>,
                      more: set<Node>)
    requires SameEmpty(geo, d, raw, have, d', raw', have')
    ensures SameEmpty(geo, d, raw, have + more, d', raw', have' + more)
  {
  }

  lemma {:induction false} SameClean(geo: Layout, d: Disk, raw: Raw, have: set<Node>, d': Disk, raw': Raw,
                                     have': set<Node>,
                                     lb: nat, count: nat, total: int)
    requires SameEmpty(geo, d, raw, have, d', raw', have') && Clean(geo, d, raw, have, lb, count, total)
    ensures Clean(geo, d', raw', have', lb, count, total)
    decreases count
  {
    if count > 0 && LeafNode(geo, lb).Some? {
      var x := LeafNode(geo, lb).value;
      SameToFill(geo, d, raw, have, d', raw', have', x);
      if x.Child? {
        SameToFill(geo, d, raw, have, d', raw', have', x.parent);
      }
      if total >= ToFill(geo, d, raw, have, x) {
        SameEmptyMore(geo, d, raw, have, d', raw', have', Path(x));
        SameClean(geo, d, raw, have + Path(x), d', raw', have' + Path(x), lb + 1, count - 1,
          total - ToFill(geo, d, raw, have, x));
      }
    }
  }

  lemma {:induction false} ToFillIsMissing(geo: Layout, d: Disk, raw: Raw, x: Node)
    ensures ToFill(geo, d, raw, {}, x) == Missing(geo, d, raw, x)
  {
    if x.Child? {
      ToFillIsMissing(geo, d, raw, x.parent);
    }
  }

  lemma {:induction false} PathMembers(x: Node, y: Node)
    ensures y in Path(x) <==> OnPath(y, x)
  {
    if x.Child? {
      PathMembers(x.parent, y);
    }
  }

  lemma PaidEmpty(geo: Layout, s: State, s': State, raw: Raw, raw': Raw, lb: nat, x: Node)
    requires Paid(geo, s, s', raw, raw', lb) && LeafNode(geo, lb) == Some(x)
    ensures SameEmpty(geo, s.disk, raw, {} + Path(x), s'.disk, raw', {})
  {
    forall y | ValidNode(geo, y)
      ensures Empty(geo, s.disk, raw, {} + Path(x), y) <==> Empty(geo, s'.disk, raw', {}, y)
    {
      PathMembers(x, y);
    }
  }

  /** After a block was mapped the rest is still affordable. */
  lemma CleanAfter(geo: Layout, s: State, s': State, raw: Raw, raw': Raw, lb: nat, count: nat)
    requires Clean(geo, s.disk, raw, {}, lb, count, Left(geo, s)) && count > 0
    requires Paid(geo, s, s', raw, raw', lb) && Left(geo, s') >= 0
    ensures Clean(geo, s'.disk, raw', {}, lb + 1, count - 1, Left(geo, s'))
  {
    var x := LeafNode(geo, lb).value;
    ToFillIsMissing(geo, s.disk, raw, x);
    PaidEmpty(geo, s, s', raw, raw', lb, x);
    SameClean(geo, s.disk, raw, {} + Path(x), s'.disk, raw', {}, lb + 1, count - 1, Left(geo, s'));
  }

  /** The first block's index blocks can be had. */
  lemma CleanServed(geo: Layout, s: State, raw: Raw, lb: nat, count: nat)
    requires Clean(geo, s.disk, raw, {}, lb, count, Left(geo, s)) && count > 0
    ensures Served(geo, s, raw, lb)
  {
    if LeafNode(geo, lb).Some? && LeafNode(geo, lb).value.Child? {
      ToFillIsMissing(geo, s.disk, raw, LeafNode(geo, lb).value.parent);
    }
  }

  // ---- when a write is affordable ----

  lemma {:induction false} ToFillBound(geo: Layout, d: Disk, raw: Raw, have: set<Node>, x: Node)
    ensures ToFill(geo, d, raw, have, x) <= Depth(x) + 1
  {
    if x.Child? {
      ToFillBound(geo, d, raw, have, x.parent);
    }
  }

  lemma LeafDepth(geo: Layout, lb: nat)
    requires LeafNode(geo, lb).Some?
    ensures Depth(LeafNode(geo, lb).value) <= 2
  {
    var x := LeafNode(geo, lb).value;
    if x.Child? && x.parent.Child? {
      assert Depth(x.parent.parent) == 0 && Depth(x.parent) == 1;
    }
  }

  /** Three free blocks for every block always suffice. */
  lemma {:induction false} AmpleClean(geo: Layout, d: Disk, raw: Raw, have: set<Node>, lb: nat, count: nat, total: int)
    requires total >= 3 * count
    ensures Clean(geo, d, raw, have, lb, count, total)
    decreases count
  {
    if count > 0 && LeafNode(geo, lb).Some? {
      var x := LeafNode(geo, lb).value;
      ToFillBound(geo, d, raw, have, x);
      LeafDepth(geo, lb);
      AmpleClean(geo, d, raw, have + Path(x), lb + 1, count - 1, total - ToFill(geo, d, raw, have, x));
    }
  }

  /** Blocks that miss no index block need nothing: all direct ones, and all that are mapped already. */
  ghost predicate Indexed(geo: Layout, d: Disk, raw: Raw, lb: nat) {
    LeafNode(geo, lb).Some? ==> IndexMissing(geo, d, raw, LeafNode(geo, lb).value) == 0
  }

  lemma {:induction false} NothingToFill(geo: Layout, d: Disk, raw: Raw, have: set<Node>, x: Node)
    requires Missing(geo, d, raw, x) == 0
    ensures ToFill(geo, d, raw, have, x) == 0
  {
    if x.Child? {
      NothingToFill(geo, d, raw, have, x.parent);
    }
  }

  lemma {:induction false} IndexedClean(geo: Layout, d: Disk, raw: Raw, have: set<Node>, lb: nat, count: nat,
                                        total: int)
    requires total >= 0 && forall l: nat | lb <= l < lb + count :: Indexed(geo, d, raw, l)
    ensures Clean(geo, d, raw, have, lb, count, total)
    decreases count
  {
    if count > 0 && LeafNode(geo, lb).Some? {
      assert Indexed(geo, d, raw, lb);
      var x := LeafNode(geo, lb).value;
      if x.Child? {
        NothingToFill(geo, d, raw, have, x.parent);
      }
      if total >= ToFill(geo, d, raw, have, x) {
        IndexedClean(geo, d, raw, have + Path(x), lb + 1, count - 1, total - ToFill(geo, d, raw, have, x));
      }
    }
  }

  lemma MappedIndexed(geo: Layout, d: Disk, raw: Raw, lb: nat)
    requires lb < NDIR || FileAddr(geo, d, raw, lb) != 0
    ensures Indexed(geo, d, raw, lb)
  {
    if LeafNode(geo, lb).Some? && lb >= NDIR {
      PresentAbove(geo, d, raw, LeafNode(geo, lb).value);
    }
  }
}
