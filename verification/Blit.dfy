/** bitblt of kernel/bitmap.cpp within one bitmap: pixels are copied one by one in raster order, so
    a copy may read pixels it has written already. Here a bitmap is a function from points to
    colours; what lies outside the bitmap is never read, and writing there has no effect. */
module Blit {
  import PixelStore

  type Picture = (int, int) -> PixelStore.Color

  /** Copy `cx` by `cy` pixels from (xs, ys) to (xd, yd). A negative extent copies nothing, as zero does. */
  datatype Copy = Copy(xd: int, yd: int, cx: nat, cy: nat, xs: int, ys: int)

  predicate Progress(c: Copy, i: nat, j: nat) {
    (i < c.cy && j <= c.cx) || (i == c.cy && j == 0)
  }

  /** The colour of (u, v) after `i` whole rows and `j` pixels of the next one were copied. */
  function PixelAfter(p: Picture, c: Copy, i: nat, j: nat, u: int, v: int): PixelStore.Color
    requires Progress(c, i, j)
    decreases i, j
  {
    if j > 0 then
      if u == c.xd + j - 1 && v == c.yd + i then PixelAfter(p, c, i, j - 1, c.xs + j - 1, c.ys + i)
      else PixelAfter(p, c, i, j - 1, u, v)
    else if i > 0 then PixelAfter(p, c, i - 1, c.cx, u, v)
    else p(u, v)
  }

  /** (u, v) is a target pixel that the first `i` rows and `j` pixels reach. */
  predicate Done(c: Copy, i: nat, j: nat, u: int, v: int) {
    && c.xd <= u < c.xd + c.cx && c.yd <= v
    && (v < c.yd + i || (v == c.yd + i && u < c.xd + j))
  }

  predicate InTarget(c: Copy, u: int, v: int) {
    c.xd <= u < c.xd + c.cx && c.yd <= v < c.yd + c.cy
  }

  /** What copying from a snapshot gives. */
  function Snapshot(p: Picture, c: Copy, u: int, v: int): PixelStore.Color {
    if InTarget(c, u, v) then p(u - c.xd + c.xs, v - c.yd + c.ys) else p(u, v)
  }

  /** A pixel that is not reached keeps its colour. */
  lemma {:induction false} NotDoneKept(p: Picture, c: Copy, i: nat, j: nat, u: int, v: int)
    requires Progress(c, i, j) && !Done(c, i, j, u, v)
    ensures PixelAfter(p, c, i, j, u, v) == p(u, v)
    decreases i, j
  {
    if j > 0 {
      NotDoneKept(p, c, i, j - 1, u, v);
    } else if i > 0 {
      NotDoneKept(p, c, i - 1, c.cx, u, v);
    }
  }

  /** A target pixel keeps the colour that its source had when it was copied. */
  lemma {:induction false} DoneKept(p: Picture, c: Copy, i: nat, j: nat, row: nat, col: nat)
    requires Progress(c, i, j) && row < c.cy && col < c.cx && Done(c, i, j, c.xd + col, c.yd + row)
    ensures PixelAfter(p, c, i, j, c.xd + col, c.yd + row) == PixelAfter(p, c, row, col, c.xs + col, c.ys + row)
    decreases i, j
  {
    if j > 0 {
      if !(row == i && col == j - 1) { DoneKept(p, c, i, j - 1, row, col); }
    } else {
      DoneKept(p, c, i - 1, c.cx, row, col);
    }
  }

  // ------------------------------------------------------------ when a copy is spoiled

  /** The target does not come after the source in raster order. */
  predicate NotAfter(c: Copy) {
    c.yd < c.ys || (c.yd == c.ys && c.xd <= c.xs)
  }

  predicate Apart(c: Copy) {
    c.xd + c.cx <= c.xs || c.xs + c.cx <= c.xd || c.yd + c.cy <= c.ys || c.ys + c.cy <= c.yd
  }

  /** The first row of the target whose sources are overwritten before they are read, and the columns
      for which that is so, from `FirstCol` up to `EndCol`. */
  function FirstRow(c: Copy): int {
    c.yd - c.ys
  }

  function FirstCol(c: Copy): int {
    if c.xd > c.xs then c.xd - c.xs else 0
  }

  function EndCol(c: Copy): int {
    if c.xd > c.xs then c.cx else c.cx + c.xd - c.xs
  }

  /** The target comes after the source, meets it, and a pixel copied too late lies inside a bitmap of
      that size. */
  predicate Spoils(c: Copy, width: nat, height: nat) {
    && !NotAfter(c) && !Apart(c)
    && c.yd + FirstRow(c) < height && c.xd + FirstCol(c) < width && c.xd + EndCol(c) > 0
  }

  /** Every pixel that is read lies in the bitmap; the target need not. */
  predicate SourceInside(c: Copy, width: nat, height: nat) {
    c.cx == 0 || c.cy == 0 || (0 <= c.xs && c.xs + c.cx <= width && 0 <= c.ys && c.ys + c.cy <= height)
  }

  lemma SourceNotWritten(c: Copy, width: nat, height: nat, row: nat, col: nat)
    requires SourceInside(c, width, height) && !Spoils(c, width, height) && row < c.cy && col < c.cx
    requires 0 <= c.xd + col < width && 0 <= c.yd + row < height
    ensures !Done(c, row, col, c.xs + col, c.ys + row)
  {
  }

  /** Inside the bitmap the result is that of copying from a snapshot, in the target and outside it. */
  ghost predicate LikeSnapshot(p: Picture, c: Copy, width: nat, height: nat) {
    forall u, v :: 0 <= u < width && 0 <= v < height ==> PixelAfter(p, c, c.cy, 0, u, v) == Snapshot(p, c, u, v)
  }

  lemma UnspoiledPixel(p: Picture, c: Copy, width: nat, height: nat, u: int, v: int)
    requires SourceInside(c, width, height) && !Spoils(c, width, height) && 0 <= u < width && 0 <= v < height
    ensures PixelAfter(p, c, c.cy, 0, u, v) == Snapshot(p, c, u, v)
  {
    if InTarget(c, u, v) {
      var row, col := v - c.yd, u - c.xd;
      DoneKept(p, c, c.cy, 0, row, col);
      SourceNotWritten(c, width, height, row, col);
      NotDoneKept(p, c, row, col, c.xs + col, c.ys + row);
    } else {
      NotDoneKept(p, c, c.cy, 0, u, v);
    }
  }

  /** A column of the target that is copied too late and lies inside, and the column whose source
      it shows instead of its own. */
  function LateCol(c: Copy): int {
    if FirstCol(c) > -c.xd then FirstCol(c) else -c.xd
  }

  function ShownCol(c: Copy): int {
    LateCol(c) - (c.xd - c.xs)
  }

  /** In a copy that spoils, some target pixel inside the bitmap gets the colour of the source of
      another one, whatever the picture. */
  lemma SpoiledPixel(p: Picture, c: Copy, width: nat, height: nat)
    requires SourceInside(c, width, height) && Spoils(c, width, height)
    ensures var u, v := c.xd + LateCol(c), c.yd + FirstRow(c);
      && 0 <= u < width && 0 <= v < height && InTarget(c, u, v)
      && PixelAfter(p, c, c.cy, 0, u, v) == p(c.xs + ShownCol(c), c.ys)
      && 0 <= ShownCol(c) < c.cx && (c.xs + ShownCol(c), c.ys) != (c.xs + LateCol(c), c.ys + FirstRow(c))
  {
    var row, col, from := FirstRow(c), LateCol(c), ShownCol(c);
    DoneKept(p, c, c.cy, 0, row, col);
    assert c.xs + col == c.xd + from && c.ys + row == c.yd;
    DoneKept(p, c, row, col, 0, from);
    NotDoneKept(p, c, 0, from, c.xs + from, c.ys);
  }

  /** In-place copying is the same as copying from a snapshot, whatever the picture, exactly when the
      copy does not spoil: the target does not come after the source in raster order, or the two do
      not meet, or only pixels outside the bitmap are copied too late. */
  lemma InPlaceExactly(c: Copy, width: nat, height: nat)
    requires SourceInside(c, width, height)
    ensures (forall p: Picture :: LikeSnapshot(p, c, width, height)) <==> !Spoils(c, width, height)
  {
    if Spoils(c, width, height) {
      var p: Picture := (u, v) => if u == c.xs + ShownCol(c) && v == c.ys then 0xf8fcf8 else 0;
      SpoiledPixel(p, c, width, height);
      assert !LikeSnapshot(p, c, width, height);
    } else {
      forall p: Picture, u, v | 0 <= u < width && 0 <= v < height
        ensures PixelAfter(p, c, c.cy, 0, u, v) == Snapshot(p, c, u, v)
      {
        UnspoiledPixel(p, c, width, height, u, v);
      }
    }
  }

  /** Where the target lies in the bitmap as well, order and overlap alone decide. */
  lemma SpoilsInside(c: Copy, width: nat, height: nat)
    requires SourceInside(c, width, height) && 0 <= c.xd && c.xd + c.cx <= width && 0 <= c.yd && c.yd + c.cy <= height
    ensures Spoils(c, width, height) <==> !NotAfter(c) && !Apart(c)
  {
  }
}
