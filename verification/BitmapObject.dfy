/** The bitmap objects of kernel/bitmap.cpp, of sixteen bits and of one bit per pixel: pixels are read
    and written in a byte array, and bitblt copies a rectangle pixel by pixel. */
module BitmapObject {
  import opened PixelStore
  import Blit

  /** What a viewer sees: the colours of the points inside, black outside. */
  ghost function Image(s: Store): Blit.Picture
    requires Valid16(s)
  {
    (x: int, y: int) => if InRange(s, x, y) then Get16(s, x, y) else 0
  }

  /** The store looks like the picture `p` after part of the copy `c`. */
  ghost predicate Looks(s: Store, p: Blit.Picture, c: Blit.Copy, i: nat, j: nat)
    requires Valid16(s) && Blit.Progress(c, i, j)
  {
    forall u, v :: InRange(s, u, v) ==> Get16(s, u, v) == Blit.PixelAfter(p, c, i, j, u, v)
  }

  /** A pixel is copied without loss, and the other pixels stay. */
  lemma CopiedPixel(s: Store, x: int, y: int, x': int, y': int, u: int, v: int)
    requires Valid16(s) && InRange(s, x, y) && InRange(s, u, v)
    ensures Get16(Set16(s, x', y', Get16(s, x, y)), u, v)
         == if u == x' && v == y' then Get16(s, x, y) else Get16(s, u, v)
  {
    Get16Masked(s, x, y);
    SetThenGet16(s, x', y', Get16(s, x, y), u, v);
  }

  lemma CopyOnePixel(s: Store, p: Blit.Picture, c: Blit.Copy, i: nat, j: nat, u: int, v: int)
    requires Valid16(s) && i < c.cy && j < c.cx && InRange(s, c.xs + j, c.ys + i) && InRange(s, u, v)
    requires Get16(s, u, v) == Blit.PixelAfter(p, c, i, j, u, v)
    requires Get16(s, c.xs + j, c.ys + i) == Blit.PixelAfter(p, c, i, j, c.xs + j, c.ys + i)
    ensures Get16(Set16(s, c.xd + j, c.yd + i, Get16(s, c.xs + j, c.ys + i)), u, v)
         == Blit.PixelAfter(p, c, i, j + 1, u, v)
  {
    CopiedPixel(s, c.xs + j, c.ys + i, c.xd + j, c.yd + i, u, v);
  }

  lemma CopyOne(s: Store, p: Blit.Picture, c: Blit.Copy, i: nat, j: nat)
    requires Valid16(s) && i < c.cy && j < c.cx && Looks(s, p, c, i, j) && InRange(s, c.xs + j, c.ys + i)
    ensures Looks(Set16(s, c.xd + j, c.yd + i, Get16(s, c.xs + j, c.ys + i)), p, c, i, j + 1)
  {
    var s' := Set16(s, c.xd + j, c.yd + i, Get16(s, c.xs + j, c.ys + i));
    forall u, v | InRange(s', u, v) ensures Get16(s', u, v) == Blit.PixelAfter(p, c, i, j + 1, u, v) {
      CopyOnePixel(s, p, c, i, j, u, v);
    }
  }

  lemma NextRow(s: Store, p: Blit.Picture, c: Blit.Copy, i: nat)
    requires Valid16(s) && i < c.cy && Looks(s, p, c, i, c.cx)
    ensures Looks(s, p, c, i + 1, 0)
  {
    forall u, v | InRange(s, u, v) ensures Get16(s, u, v) == Blit.PixelAfter(p, c, i + 1, 0, u, v) {
      assert Blit.PixelAfter(p, c, i + 1, 0, u, v) == Blit.PixelAfter(p, c, i, c.cx, u, v);
    }
  }

  /** The store shows in the target of the copy what the source showed in `p`, and elsewhere `p`. */
  ghost predicate ShowsSnapshot(s: Store, p: Blit.Picture, c: Blit.Copy)
    requires Valid16(s)
  {
    forall u, v :: InRange(s, u, v) ==> Get16(s, u, v) == Blit.Snapshot(p, c, u, v)
  }

  /** So does a finished copy that does not spoil. */
  lemma LooksLikeSnapshot(s: Store, p: Blit.Picture, c: Blit.Copy)
    requires Valid16(s) && Looks(s, p, c, c.cy, 0)
    requires Blit.SourceInside(c, s.width, s.height) && !Blit.Spoils(c, s.width, s.height)
    ensures ShowsSnapshot(s, p, c)
  {
    forall u, v | InRange(s, u, v) ensures Get16(s, u, v) == Blit.Snapshot(p, c, u, v) {
      Blit.UnspoiledPixel(p, c, s.width, s.height, u, v);
    }
  }

  /** What set_pixel_l does: fails an assert, returns FALSE, or writes and returns TRUE. */
  datatype SetOutcome = Abort | Outside | Written

  class Bitmap16 {
    const width: nat
    const height: nat
    const bits: array<bv8>

    ghost function Abs(): Store
      reads bits
    {
      Store(width, height, bits[..])
    }

    ghost predicate Valid()
      reads bits
    {
      Valid16(Abs())
    }

    /** alloc_bitmap for a depth of sixteen. */
    constructor (w: nat, h: nat)
      ensures Valid() && fresh(bits) && width == w && height == h
    {
      width, height := w, h;
      bits := new bv8[RowSize(w, 16) * h];
    }

    method GetPixel(x: int, y: int) returns (c: Color)
      requires Valid() && width > 0 && Readable16(Abs(), x, y)
      ensures var p := Named16(Abs(), x, y);
        InRange(Abs(), p.0, p.1) && c == Get16(Abs(), p.0, p.1) && (InRange(Abs(), x, y) ==> p == (x, y))
    {
      NamedInRange(Abs(), x, y);
      Address16(Abs(), Named16(Abs(), x, y).0, Named16(Abs(), x, y).1);
      SameAddress(width, x, y, Named16(Abs(), x, y).0, Named16(Abs(), x, y).1);
      var at := RowSize(width, 16) * y + x * 2;
      c := Decode(Word(bits[at], bits[at + 1]));
    }

    method GetPixelInside(x: int, y: int) returns (c: Color)
      requires Valid() && InRange(Abs(), x, y)
      ensures c == Get16(Abs(), x, y)
    {
      InRangeReadable(Abs(), x, y);
      c := GetPixel(x, y);
    }

    method SetPixelL(x: int, y: int, c: Color) returns (r: SetOutcome)
      requires Valid()
      modifies bits
      ensures Valid() && Abs() == Set16(old(Abs()), x, y, c)
      ensures r == if width == 0 || height == 0 then Abort else if InRange(Abs(), x, y) then Written else Outside
    {
      if width == 0 || height == 0 { return Abort; }
      if x < 0 || x >= width { return Outside; }
      if y < 0 || y >= height { return Outside; }
      Address16(Abs(), x, y);
      var at := RowSize(width, 16) * y + x * 2;
      bits[at] := Low(Encode(c));
      bits[at + 1] := High(Encode(c));
      r := Written;
    }

    /** bitblt with this bitmap as its own source, row by row. The target may reach outside. */
    method BitBltSelf(c: Blit.Copy)
      requires Valid() && Blit.SourceInside(c, width, height)
      modifies bits
      ensures Valid() && Looks(Abs(), Image(old(Abs())), c, c.cy, 0)
      ensures !Blit.Spoils(c, width, height) ==> ShowsSnapshot(Abs(), Image(old(Abs())), c)
    {
      ghost var p := Image(old(Abs()));
      for i := 0 to c.cy
        invariant Valid() && Looks(Abs(), p, c, i, 0)
      {
        BitBltRow(c, i, p);
        NextRow(Abs(), p, c, i);
      }
      if !Blit.Spoils(c, width, height) {
        LooksLikeSnapshot(Abs(), p, c);
      }
    }

    method BitBltRow(c: Blit.Copy, i: nat, ghost p: Blit.Picture)
      requires Valid() && Blit.SourceInside(c, width, height) && i < c.cy && Looks(Abs(), p, c, i, 0)
      modifies bits
      ensures Valid() && Looks(Abs(), p, c, i, c.cx)
    {
      for j := 0 to c.cx
        invariant Valid() && Looks(Abs(), p, c, i, j)
      {
        BitBltPixel(c, i, j, p);
      }
    }

    method BitBltPixel(c: Blit.Copy, i: nat, j: nat, ghost p: Blit.Picture)
      requires Valid() && Blit.SourceInside(c, width, height) && i < c.cy && j < c.cx && Looks(Abs(), p, c, i, j)
      modifies bits
      ensures Valid() && Looks(Abs(), p, c, i, j + 1)
    {
      CopyOne(Abs(), p, c, i, j);
      var pixel := GetPixelInside(c.xs + j, c.ys + i);
      var r := SetPixelL(c.xd + j, c.yd + i, pixel);
      assert r != Abort;
    }
  }

  /** A bitmap of one bit per pixel, of any width. */
  class Bitmap1 {
    const width: nat
    const height: nat
    const bits: array<bv8>

    ghost function Abs(): Store
      reads bits
    {
      Store(width, height, bits[..])
    }

    ghost predicate Valid()
      reads bits
    {
      Valid1(Abs())
    }

    constructor (w: nat, h: nat)
      ensures Valid() && fresh(bits) && width == w && height == h
    {
      width, height := w, h;
      bits := new bv8[RowSize(w, 1) * h];
    }

    method GetPixel(x: int, y: int) returns (c: Color)
      requires Valid() && Accessible1(Abs(), x, y)
      ensures c == Get1(Abs(), x, y)
    {
      var at := RowSize(width, 1) * y + x / 8;
      c := if bits[at] & Mask1(x % 8) != 0 then WHITE else BLACK;
    }

    /** Sets or clears one bit of a byte. */
    method PutBit(at: nat, k: nat, on: bool)
      requires at < bits.Length && k < 8
      modifies bits
      ensures bits[..] == Put(old(bits[..]), at, k, on)
    {
      if on {
        bits[at] := bits[at] | Mask1(k);
      } else {
        bits[at] := bits[at] & !Mask1(k);
      }
    }

    method SetPixelL(x: int, y: int, c: Color) returns (r: SetOutcome)
      requires Valid() && (InRange(Abs(), x, y) ==> Accessible1(Abs(), x, y))
      modifies bits
      ensures r == Abort <==> width == 0 || height == 0 || (InRange(Abs(), x, y) && c != BLACK && c != WHITE)
      ensures r != Abort ==> (r == Written <==> InRange(Abs(), x, y))
      ensures Valid() && Abs() == if r == Written then Set1(old(Abs()), x, y, c) else old(Abs())
    {
      if width == 0 || height == 0 { return Abort; }
      if x < 0 || x >= width { return Outside; }
      if y < 0 || y >= height { return Outside; }
      if c != BLACK && c != WHITE { return Abort; }
      PutBit(RowSize(width, 1) * y + x / 8, x % 8, c == WHITE);
      r := Written;
    }
  }
}
