/** Repainting only what changed: a bounded list of dirty rectangles, copied from the back buffer to the screen. */
module DirtyRegion {

  type Pixel = nat

  const TWO31 := 0x8000_0000

  type i32 = x: int | -TWO31 <= x < TWO31

  /** A screen width or height. */
  type Extent = x: int | 0 <= x < TWO31

  datatype Rect = Rect(x: i32, y: i32, w: i32, h: i32)

  /** What 32 bits keep of the sum or the difference of two of their values. */
  function Wrap(x: int): (r: i32)
    requires -2 * TWO31 <= x < 2 * TWO31
    ensures r == x || r == x - 0x1_0000_0000 || r == x + 0x1_0000_0000
  {
    if x >= TWO31 then x - 2 * TWO31 else if x < -TWO31 then x + 2 * TWO31 else x
  }

  const DIRTY_MAX := 64

  /** Stands for the whole screen, whatever its size. */
  const FULL := Rect(0, 0, 0, 0)

  predicate Has(r: Rect, x: int, y: int) {
    r.x <= x < r.x + r.w && r.y <= y < r.y + r.h
  }

  predicate OnScreen(x: int, y: int, sw: int, sh: int) {
    0 <= x < sw && 0 <= y < sh
  }

  /** The stored rectangle with screen dimensions in place of zero ones. */
  function Sized(r: Rect, sw: Extent, sh: Extent): Rect {
    Rect(r.x, r.y, if r.w != 0 then r.w else sw, if r.h != 0 then r.h else sh)
  }

  /** The rectangle cut to the screen, in 32-bit arithmetic. */
  function Clip(r: Rect, sw: Extent, sh: Extent): Rect {
    var r1 := Sized(r, sw, sh);
    var r2 := if r1.x < 0 then Rect(0, r1.y, Wrap(r1.w + r1.x), r1.h) else r1;
    var r3 := if r2.y < 0 then Rect(r2.x, 0, r2.w, Wrap(r2.h + r2.y)) else r2;
    var r4 := if Wrap(r3.x + r3.w) > sw then Rect(r3.x, r3.y, Wrap(sw - r3.x), r3.h) else r3;
    if Wrap(r4.y + r4.h) > sh then Rect(r4.x, r4.y, r4.w, Wrap(sh - r4.y)) else r4
  }

  /** Some of the `n` numbers from `a` on are among the first `limit`. */
  predicate Meets(a: int, n: int, limit: int) {
    0 < limit && a < limit && a + n > 0
  }

  /** Neither sum wraps, or the one that does not shows that nothing of the rectangle is on the screen. */
  predicate Clippable(r: Rect, sw: Extent, sh: Extent) {
    && (r.x + r.w < TWO31 || (r.y + r.h < TWO31 && !Meets(r.y, r.h, sh)))
    && (r.y + r.h < TWO31 || (r.x + r.w < TWO31 && !Meets(r.x, r.w, sw)))
  }

  /** Clipping keeps exactly the pixels on the screen. */
  lemma ClipExact(r: Rect, sw: Extent, sh: Extent, x: int, y: int)
    requires r.w >= 0 && r.h >= 0 && Clippable(Sized(r, sw, sh), sw, sh)
    ensures Has(Clip(r, sw, sh), x, y) <==> Has(Sized(r, sw, sh), x, y) && OnScreen(x, y, sw, sh)
  {
  }

  /** A rectangle that cannot be clipped keeps a pixel off the screen. */
  lemma Unclipped(r: Rect, sw: Extent, sh: Extent) returns (x: int, y: int)
    requires r.w >= 0 && r.h >= 0 && !Clippable(Sized(r, sw, sh), sw, sh)
    ensures Has(Clip(r, sw, sh), x, y) && !OnScreen(x, y, sw, sh)
  {
    var c := Clip(r, sw, sh);
    x, y := c.x + c.w - 1, c.y + c.h - 1;
  }

  /** What clipping leaves is on the screen. */
  ghost predicate StaysOn(r: Rect, sw: Extent, sh: Extent) {
    forall x, y | Has(Clip(r, sw, sh), x, y) :: OnScreen(x, y, sw, sh)
  }

  /** No pixel off the screen is written, exactly for the rectangles whose sums do not wrap or that miss the screen. */
  lemma StaysOnExactly(r: Rect, sw: Extent, sh: Extent)
    requires r.w >= 0 && r.h >= 0
    ensures StaysOn(r, sw, sh) <==> Clippable(Sized(r, sw, sh), sw, sh)
  {
    if Clippable(Sized(r, sw, sh), sw, sh) {
      forall x, y | Has(Clip(r, sw, sh), x, y) ensures OnScreen(x, y, sw, sh) {
        ClipExact(r, sw, sh, x, y);
      }
    } else {
      var x, y := Unclipped(r, sw, sh);
    }
  }

  /** One pixel at the far right of the coordinate range is copied, wherever the screen ends. */
  lemma FarPixel(sw: Extent, sh: Extent)
    requires sh > 0
    ensures Clip(Rect(TWO31 - 1, 0, 1, 1), sw, sh) == Rect(TWO31 - 1, 0, 1, 1)
    ensures !StaysOn(Rect(TWO31 - 1, 0, 1, 1), sw, sh)
  {
    assert Has(Clip(Rect(TWO31 - 1, 0, 1, 1), sw, sh), TWO31 - 1, 0);
  }

  /** The screen after copying a rectangle: its pixels come from the back buffer, all others stay. */
  method CopyRect(fb: array2<Pixel>, back: array2<Pixel>, r: Rect)
    requires fb != back && fb.Length0 == back.Length0 && fb.Length1 == back.Length1
    requires r.w > 0 && r.h > 0 && 0 <= r.x && 0 <= r.y && r.x + r.w <= fb.Length1 && r.y + r.h <= fb.Length0
    modifies fb
    ensures forall y, x | 0 <= y < fb.Length0 && 0 <= x < fb.Length1 ::
      fb[y, x] == if Has(r, x, y) then back[y, x] else old(fb[y, x])
  {
    var row := 0;
    while row < r.h
      invariant 0 <= row <= r.h
      invariant forall y, x | 0 <= y < fb.Length0 && 0 <= x < fb.Length1 ::
        fb[y, x] == if Has(r, x, y) && y < r.y + row then back[y, x] else old(fb[y, x])
    {
      var col := 0;
      while col < r.w
        invariant 0 <= col <= r.w
        invariant forall y, x | 0 <= y < fb.Length0 && 0 <= x < fb.Length1 ::
          var copied := y < r.y + row || (y == r.y + row && x < r.x + col);
          fb[y, x] == if Has(r, x, y) && copied then back[y, x] else old(fb[y, x])
      {
        fb[r.y + row, r.x + col] := back[r.y + row, r.x + col];
        col := col + 1;
      }
      row := row + 1;
    }
  }

  /** A pixel of the screen lies in one of the stored rectangles. */
  ghost predicate Covered(rects: seq<Rect>, sw: Extent, sh: Extent, x: int, y: int) {
    OnScreen(x, y, sw, sh) && exists i | 0 <= i < |rects| :: Has(Sized(rects[i], sw, sh), x, y)
  }

  ghost predicate InSome(rects: seq<Rect>, x: int, y: int) {
    exists k | 0 <= k < |rects| :: Has(rects[k], x, y)
  }

  ghost predicate AllClippable(rects: seq<Rect>, sw: Extent, sh: Extent) {
    forall i | 0 <= i < |rects| :: rects[i].w >= 0 && rects[i].h >= 0 && Clippable(Sized(rects[i], sw, sh), sw, sh)
  }

  lemma CoveredStep(rects: seq<Rect>, i: nat, sw: Extent, sh: Extent, x: int, y: int)
    requires i < |rects| && AllClippable(rects, sw, sh)
    ensures Covered(rects[..i + 1], sw, sh, x, y) <==>
      Covered(rects[..i], sw, sh, x, y) || Has(Clip(rects[i], sw, sh), x, y)
  {
    ClipExact(rects[i], sw, sh, x, y);
    assert rects[..i + 1] == rects[..i] + [rects[i]];
  }

  /** One stored rectangle copied, if any of it is on the screen. */
  method CopyClipped(fb: array2<Pixel>, back: array2<Pixel>, r: Rect, sw: Extent, sh: Extent)
    requires fb != back && fb.Length0 == back.Length0 && fb.Length1 == back.Length1 && sw <= fb.Length1
    requires sh <= fb.Length0
    requires r.w >= 0 && r.h >= 0 && Clippable(Sized(r, sw, sh), sw, sh)
    modifies fb
    ensures forall y, x | 0 <= y < fb.Length0 && 0 <= x < fb.Length1 ::
      fb[y, x] == if Has(Clip(r, sw, sh), x, y) then back[y, x] else old(fb[y, x])
  {
    var c := Clip(r, sw, sh);
    if c.w > 0 && c.h > 0 {
      CopyRect(fb, back, c);
    }
  }

  /** The loop over the stored rectangles. */
  method CopyAll(fb: array2<Pixel>, back: array2<Pixel>, rects: seq<Rect>, sw: Extent, sh: Extent)
    requires fb != back && fb.Length0 == back.Length0 && fb.Length1 == back.Length1 && sw <= fb.Length1
    requires sh <= fb.Length0
    requires AllClippable(rects, sw, sh)
    modifies fb
    ensures forall y, x | 0 <= y < fb.Length0 && 0 <= x < fb.Length1 ::
      fb[y, x] == if Covered(rects, sw, sh, x, y) then back[y, x] else old(fb[y, x])
  {
    var i := 0;
    while i < |rects|
      invariant 0 <= i <= |rects|
      invariant forall y, x | 0 <= y < fb.Length0 && 0 <= x < fb.Length1 ::
        fb[y, x] == if Covered(rects[..i], sw, sh, x, y) then back[y, x] else old(fb[y, x])
    {
      CopyClipped(fb, back, rects[i], sw, sh);
      forall y, x | 0 <= y < fb.Length0 && 0 <= x < fb.Length1
        ensures Covered(rects[..i + 1], sw, sh, x, y) <==>
          Covered(rects[..i], sw, sh, x, y) || Has(Clip(rects[i], sw, sh), x, y)
      {
        CoveredStep(rects, i, sw, sh, x, y);
      }
      i := i + 1;
    }
    assert rects[..|rects|] == rects;
  }

  class Region {
    const rects: array<Rect>
    var count: nat
    /** Every rectangle added since the last flush, and whether the list overflowed since. */
    ghost var added: seq<Rect>
    ghost var overflowed: bool

    ghost predicate Valid()
      reads this, rects
    {
      && rects.Length == DIRTY_MAX && count <= DIRTY_MAX
      && (forall i | 0 <= i < |added| :: added[i].w > 0 && added[i].h > 0)
      && (forall i | 0 <= i < count :: rects[i] == FULL || rects[i] in added)
      && if overflowed then count >= 1 && rects[0] == FULL else rects[..count] == added
    }

    constructor ()
      ensures Valid() && fresh(rects) && added == [] && count == 0 && !overflowed
    {
      rects := new Rect[DIRTY_MAX](i => FULL);
      count, added, overflowed := 0, [], false;
    }

    /** dirty_region_add */
    method Add(r: Rect)
      requires Valid()
      modifies this, rects
      ensures Valid() && added == old(added) + (if r.w > 0 && r.h > 0 then [r] else [])
      ensures if r.w <= 0 || r.h <= 0 then rects[..count] == old(rects[..count]) && overflowed == old(overflowed)
              else if old(count) < 64 then
                rects[..count] == old(rects[..count]) + [r] && overflowed == old(overflowed)
              else rects[..count] == [Rect(0, 0, 0, 0)] && overflowed
    {
      if r.w > 0 && r.h > 0 {
        if count < DIRTY_MAX {
          rects[count] := r;
          count := count + 1;
        } else {
          rects[0] := FULL;
          count := 1;
          overflowed := true;
        }
        added := added + [r];
      }
    }

    /** Every pixel of an added rectangle is in a stored one, however many were added. */
    lemma AddedCovered(sw: Extent, sh: Extent, k: nat, x: int, y: int)
      requires Valid() && k < |added| && Has(added[k], x, y) && OnScreen(x, y, sw, sh)
      ensures Covered(rects[..count], sw, sh, x, y)
    {
      var j := if overflowed then 0 else k;
      assert Has(Sized(rects[..count][j], sw, sh), x, y);
    }

    lemma StoredClippable(sw: Extent, sh: Extent)
      requires Valid() && AllClippable(added, sw, sh)
      ensures AllClippable(rects[..count], sw, sh)
    {
    }

    /** What is stored covers exactly what was added, or after an overflow the whole screen. */
    lemma StoredCover(sw: Extent, sh: Extent)
      requires Valid()
      ensures forall y, x | OnScreen(x, y, sw, sh) ::
        Covered(rects[..count], sw, sh, x, y) <==> overflowed || InSome(added, x, y)
    {
      forall y, x | OnScreen(x, y, sw, sh)
        ensures Covered(rects[..count], sw, sh, x, y) <==> overflowed || InSome(added, x, y)
      {
        if overflowed {
          assert Has(Sized(rects[..count][0], sw, sh), x, y);
        } else if InSome(added, x, y) {
          var k :| 0 <= k < |added| && Has(added[k], x, y);
          AddedCovered(sw, sh, k, x, y);
        }
      }
    }

    /** dirty_region_flush: covered pixels are copied, all others, on the screen or off it, stay. */
    method Flush(fb: array2<Pixel>, back: array2<Pixel>, sw: Extent, sh: Extent)
      requires Valid() && fb != back && fb.Length0 == back.Length0 && fb.Length1 == back.Length1
      requires sw <= fb.Length1 && sh <= fb.Length0 && AllClippable(added, sw, sh)
      modifies this, fb
      ensures Valid() && added == [] && count == 0 && !overflowed
      ensures forall y, x | 0 <= y < fb.Length0 && 0 <= x < fb.Length1 ::
        fb[y, x] == if Covered(old(rects[..count]), sw, sh, x, y) then back[y, x] else old(fb[y, x])
      ensures !old(overflowed) ==> forall y, x | OnScreen(x, y, sw, sh) ::
        fb[y, x] == if InSome(old(added), x, y) then back[y, x] else old(fb[y, x])
      ensures old(overflowed) ==> forall y, x | OnScreen(x, y, sw, sh) :: fb[y, x] == back[y, x]
    {
      StoredClippable(sw, sh);
      StoredCover(sw, sh);
      CopyAll(fb, back, rects[..count], sw, sh);
      count, added, overflowed := 0, [], false;
    }

    /** Incremental repaint equals full repaint, if every differing pixel was in an added rectangle. */
    method Repaint(fb: array2<Pixel>, back: array2<Pixel>, sw: Extent, sh: Extent)
      requires Valid() && fb != back && fb.Length0 == back.Length0 && fb.Length1 == back.Length1
      requires sw <= fb.Length1 && sh <= fb.Length0 && AllClippable(added, sw, sh)
      requires forall y, x | OnScreen(x, y, sw, sh) && fb[y, x] != back[y, x] ::
        exists k | 0 <= k < |added| :: Has(added[k], x, y)
      modifies this, fb
      ensures Valid() && added == []
      ensures forall y, x | OnScreen(x, y, sw, sh) :: fb[y, x] == back[y, x]
      ensures forall y, x | 0 <= y < fb.Length0 && 0 <= x < fb.Length1 && !OnScreen(x, y, sw, sh) ::
        fb[y, x] == old(fb[y, x])
    {
      forall y, x | OnScreen(x, y, sw, sh) && fb[y, x] != back[y, x] ensures Covered(rects[..count], sw, sh, x, y) {
        var k :| 0 <= k < |added| && Has(added[k], x, y);
        AddedCovered(sw, sh, k, x, y);
      }
      Flush(fb, back, sw, sh);
    }
  }
}
