/** The pixel storage of kernel/bitmap.cpp: rows of packed bytes, sixteen bits or one bit per pixel,
    seen as a two-dimensional array of colours. */
module PixelStore {

  /** A COLORREF: red in the low byte, then green, then blue. */
  type Color = bv32

  datatype Store = Store(width: nat, height: nat, bits: seq<bv8>)

  predicate InRange(s: Store, x: int, y: int) {
    0 <= x < s.width && 0 <= y < s.height
  }

  /** get_rowsize: whole bytes, rounded up to an even number. */
  function RowSize(width: nat, bpp: nat): nat {
    (width * bpp / 8 + 1) / 2 * 2
  }

  /** A row has its whole bytes and at most one more, to an even number. */
  lemma RowSizeExactly(width: nat, bpp: nat)
    ensures RowSize(width, bpp) % 2 == 0 && width * bpp / 8 <= RowSize(width, bpp) < width * bpp / 8 + 2
  {
  }

  // --------------------------------------------------- cells in rows of `stride`

  function Cell(stride: nat, x: nat, y: nat): nat {
    stride * y + x
  }

  lemma CellInside(stride: nat, width: nat, height: nat, x: nat, y: nat)
    requires x < width <= stride && y < height
    ensures Cell(stride, x, y) < stride * height
  {
    assert stride * (y + 1) <= stride * height;
  }

  lemma CellsDiffer(stride: nat, x: nat, y: nat, u: nat, v: nat)
    requires x < stride && u < stride
    ensures Cell(stride, x, y) == Cell(stride, u, v) <==> x == u && y == v
  {
    if y < v {
      assert stride * (y + 1) <= stride * v;
    }
    if v < y {
      assert stride * (v + 1) <= stride * y;
    }
  }

  // ----------------------------------------------------------------- 16 bpp

  /** Five bits of red, six of green, five of blue. */
  function Encode(c: Color): bv32 {
    (((c & 0xff) & 0xf8) << 8) | ((((c >> 8) & 0xff) & 0xfc) << 3) | ((((c >> 16) & 0xff) & 0xf8) >> 3)
  }

  function Decode(v: bv32): Color {
    ((v & 0xf800) >> 8) | (((v & 0x07e0) >> 3) << 8) | (((v & 0x1f) << 3) << 16)
  }

  lemma DecodeEncode(c: Color)
    ensures Encode(c) <= 0xffff && Decode(Encode(c)) == c & 0xf8fcf8
  {
  }

  function Word(lo: bv8, hi: bv8): bv32 {
    ((hi as bv32) << 8) | (lo as bv32)
  }

  function Low(v: bv32): bv8 {
    (v & 0xff) as bv8
  }

  function High(v: bv32): bv8 {
    ((v >> 8) & 0xff) as bv8
  }

  lemma WordRoundTrip(v: bv32)
    requires v <= 0xffff
    ensures Word(Low(v), High(v)) == v
  {
  }

  predicate Valid16(s: Store) {
    |s.bits| == RowSize(s.width, 16) * s.height
  }

  /** At sixteen bits per pixel a row has no padding. */
  lemma Address16(s: Store, x: nat, y: nat)
    requires Valid16(s) && InRange(s, x, y)
    ensures RowSize(s.width, 16) * y + x * 2 == 2 * Cell(s.width, x, y)
    ensures 2 * Cell(s.width, x, y) + 1 < |s.bits|
  {
    assert RowSize(s.width, 16) == 2 * s.width;
    CellInside(s.width, s.width, s.height, x, y);
    assert (2 * s.width) * s.height == 2 * (s.width * s.height);
    assert (2 * s.width) * y == 2 * (s.width * y);
  }

  /** The pixel whose bytes get_pixel reads for (x, y), which it does not check: a point beside a row is
      a pixel of another row. */
  function Named16(s: Store, x: int, y: int): (int, int)
    requires s.width > 0
  {
    ((s.width * y + x) % s.width, (s.width * y + x) / s.width)
  }

  /** The bytes of (x, y) lie in the buffer. */
  predicate Readable16(s: Store, x: int, y: int) {
    0 <= s.width * y + x < s.width * s.height
  }

  lemma SameAddress(width: nat, x: int, y: int, u: int, v: int)
    requires width * y + x == width * v + u
    ensures RowSize(width, 16) * y + x * 2 == RowSize(width, 16) * v + u * 2
  {
    assert RowSize(width, 16) == 2 * width;
    assert (2 * width) * y == 2 * (width * y) && (2 * width) * v == 2 * (width * v);
  }

  lemma InRangeReadable(s: Store, x: int, y: int)
    requires InRange(s, x, y)
    ensures Readable16(s, x, y)
  {
    CellInside(s.width, s.width, s.height, x, y);
  }

  lemma CellOf(stride: nat, height: nat, k: nat)
    requires stride > 0 && k < stride * height
    ensures 0 <= k / stride < height && k == stride * (k / stride) + k % stride
  {
    var row := k / stride;
    assert row >= height ==> stride * row >= stride * height;
  }

  lemma NamedInRange(s: Store, x: int, y: int)
    requires Readable16(s, x, y) && s.width > 0
    ensures var p := Named16(s, x, y);
      InRange(s, p.0, p.1) && s.width * p.1 + p.0 == s.width * y + x
    ensures InRange(s, x, y) ==> Named16(s, x, y) == (x, y)
  {
    CellOf(s.width, s.height, s.width * y + x);
    if InRange(s, x, y) { CellsDiffer(s.width, x, y, Named16(s, x, y).0, Named16(s, x, y).1); }
  }

  function Get16(s: Store, x: int, y: int): Color
    requires Valid16(s) && InRange(s, x, y)
  {
    Address16(s, x, y);
    var at := RowSize(s.width, 16) * y + x * 2;
    Decode(Word(s.bits[at], s.bits[at + 1]))
  }

  function Set16(s: Store, x: int, y: int, c: Color): (r: Store)
    requires Valid16(s)
    ensures Valid16(r) && r.width == s.width && r.height == s.height
  {
    if !InRange(s, x, y) then s else
    Address16(s, x, y);
    var at := RowSize(s.width, 16) * y + x * 2;
    s.(bits := s.bits[at := Low(Encode(c))][at + 1 := High(Encode(c))])
  }

  /** The store is a two-dimensional array of colours reduced to 5/6/5 bits: a pixel just set reads
      back as the colour that was set, and every other pixel as before. */
  lemma SetThenGet16(s: Store, x: int, y: int, c: Color, u: int, v: int)
    requires Valid16(s) && InRange(s, u, v)
    ensures Get16(Set16(s, x, y, c), u, v) == if x == u && y == v then c & 0xf8fcf8 else Get16(s, u, v)
  {
    Address16(s, u, v);
    if InRange(s, x, y) {
      Address16(s, x, y);
      CellsDiffer(s.width, x, y, u, v);
      DecodeEncode(c);
      WordRoundTrip(Encode(c));
    }
  }

  /** Colours read from the store have no other bits, so storing them loses nothing. */
  lemma Get16Masked(s: Store, x: int, y: int)
    requires Valid16(s) && InRange(s, x, y)
    ensures Get16(s, x, y) & 0xf8fcf8 == Get16(s, x, y)
  {
    Address16(s, x, y);
    DecodeMasked(Word(s.bits[RowSize(s.width, 16) * y + x * 2], s.bits[RowSize(s.width, 16) * y + x * 2 + 1]));
  }

  lemma DecodeMasked(v: bv32)
    ensures Decode(v) & 0xf8fcf8 == Decode(v)
  {
  }

  /** How a pixel lies in the buffer, which other programs fill: as a number of sixteen bits, the low
      byte first, with the red in the high five bits, the green in the middle six and the blue in the low
      five, and each the high bits of a byte of the colour. */
  predicate Layout16(lo: bv8, hi: bv8, c: Color) {
    var w := lo as int + 256 * (hi as int);
    && (c & 0xff) as int == 8 * (w / 2048)
    && ((c >> 8) & 0xff) as int == 4 * (w / 32 % 64)
    && (c >> 16) as int == 8 * (w % 32)
  }

  /** The same in terms of the two bytes. */
  predicate ByteLayout(lo: bv8, hi: bv8, c: Color) {
    && c & 0xff == (hi as bv32) & 0xf8
    && ((c >> 8) & 0xff) >> 5 == (hi as bv32) & 0x07
    && ((c >> 8) & 0xff) & 0x1f == ((lo as bv32) & 0xe0) >> 3
    && c >> 16 == ((lo as bv32) & 0x1f) << 3
  }

  lemma HighByte(hi: bv8)
    ensures ((hi as bv32) & 0xf8) as int == hi as int / 8 * 8
    ensures ((hi as bv32) & 0x07) as int == hi as int % 8
  {
  }

  lemma LowByte(lo: bv8)
    ensures (((lo as bv32) & 0xe0) >> 3) as int == lo as int / 32 * 4
    ensures (((lo as bv32) & 0x1f) << 3) as int == lo as int % 32 * 8
  {
  }

  lemma GreenByte(g: bv32)
    requires g <= 0xff
    ensures (g >> 5) as int == g as int / 32 && (g & 0x1f) as int == g as int % 32
  {
  }

  lemma LayoutOfBytes(lo: bv8, hi: bv8, c: Color)
    requires ByteLayout(lo, hi, c)
    ensures Layout16(lo, hi, c)
  {
    RedLayout(lo, hi, c & 0xff);
    GreenLayout(lo, hi, (c >> 8) & 0xff);
    BlueLayout(lo, hi, c >> 16);
  }

  lemma RedLayout(lo: bv8, hi: bv8, r: bv32)
    requires r == (hi as bv32) & 0xf8
    ensures r as int == 8 * ((lo as int + 256 * (hi as int)) / 2048)
  {
    HighByte(hi);
    PartsOfWord(lo as int, hi as int);
  }

  lemma GreenLayout(lo: bv8, hi: bv8, g: bv32)
    requires g <= 0xff && g >> 5 == (hi as bv32) & 0x07 && g & 0x1f == ((lo as bv32) & 0xe0) >> 3
    ensures g as int == 4 * ((lo as int + 256 * (hi as int)) / 32 % 64)
  {
    HighByte(hi);
    LowByte(lo);
    GreenByte(g);
    PartsOfWord(lo as int, hi as int);
  }

  lemma BlueLayout(lo: bv8, hi: bv8, b: bv32)
    requires b == ((lo as bv32) & 0x1f) << 3
    ensures b as int == 8 * ((lo as int + 256 * (hi as int)) % 32)
  {
    LowByte(lo);
    PartsOfWord(lo as int, hi as int);
  }

  lemma PartsOfWord(lo: int, hi: int)
    requires 0 <= lo < 256 && 0 <= hi < 256
    ensures var w := lo + 256 * hi;
      w / 2048 == hi / 8 && w / 32 % 64 == hi % 8 * 8 + lo / 32 && w % 32 == lo % 32
  {
    assert (lo + 256 * hi) / 32 == lo / 32 + 8 * hi;
  }

  lemma WordLayout(lo: bv8, hi: bv8)
    ensures ByteLayout(lo, hi, Decode(Word(lo, hi)))
  {
  }

  lemma EncodeLayout(c: Color)
    ensures ByteLayout(Low(Encode(c)), High(Encode(c)), c & 0xf8fcf8)
  {
  }

  /** The pixel lies at twice its number, counted row by row without padding. */
  lemma Get16Layout(s: Store, x: int, y: int)
    requires Valid16(s) && InRange(s, x, y)
    ensures var at := 2 * (s.width * y + x);
      0 <= at && at + 1 < |s.bits| && Layout16(s.bits[at], s.bits[at + 1], Get16(s, x, y))
  {
    Address16(s, x, y);
    var at := 2 * (s.width * y + x);
    WordLayout(s.bits[at], s.bits[at + 1]);
    LayoutOfBytes(s.bits[at], s.bits[at + 1], Get16(s, x, y));
  }

  lemma Set16Layout(s: Store, x: int, y: int, c: Color)
    requires Valid16(s) && InRange(s, x, y)
    ensures var at, bits := 2 * (s.width * y + x), Set16(s, x, y, c).bits;
      && 0 <= at && at + 1 < |bits| == |s.bits| && Layout16(bits[at], bits[at + 1], c & 0xf8fcf8)
      && forall k :: 0 <= k < |bits| && k != at && k != at + 1 ==> bits[k] == s.bits[k]
  {
    Address16(s, x, y);
    EncodeLayout(c);
    LayoutOfBytes(Low(Encode(c)), High(Encode(c)), c & 0xf8fcf8);
  }

  // ------------------------------------------------------------------ 1 bpp

  const BLACK: Color := 0
  const WHITE: Color := 0xffffff

  /** The bit of pixel `k` of a byte, leftmost pixel in the highest bit: 1 << (7 - k). */
  function Mask1(k: nat): bv8
    requires k < 8
  {
    if k == 0 then 128 else if k == 1 then 64 else if k == 2 then 32 else if k == 3 then 16 else
    if k == 4 then 8 else if k == 5 then 4 else if k == 6 then 2 else 1
  }

  predicate Valid1(s: Store) {
    |s.bits| == RowSize(s.width, 1) * s.height
  }

  /** Does a row of `width` one-bit pixels fit into the bytes get_rowsize gives it? */
  predicate RowFits(width: nat) {
    8 * RowSize(width, 1) >= width
  }

  lemma RowFitsExactly(width: nat)
    ensures RowFits(width) <==> width % 16 == 0 || width % 16 >= 8
  {
  }

  /** The byte of pixel (x, y). */
  function Byte1(s: Store, x: nat, y: nat): nat {
    RowSize(s.width, 1) * y + x / 8
  }

  /** The byte and the bit within it are the cell of the pixel in rows of eight times the row size. */
  lemma Byte1Cell(s: Store, x: nat, y: nat)
    ensures 8 * Byte1(s, x, y) + x % 8 == Cell(8 * RowSize(s.width, 1), x, y)
  {
    assert 8 * (RowSize(s.width, 1) * y) == (8 * RowSize(s.width, 1)) * y;
  }

  lemma Byte1Inside(s: Store, x: nat, y: nat)
    requires Valid1(s) && InRange(s, x, y) && RowFits(s.width)
    ensures Byte1(s, x, y) < |s.bits|
  {
    Byte1Cell(s, x, y);
    CellInside(8 * RowSize(s.width, 1), s.width, s.height, x, y);
    assert (8 * RowSize(s.width, 1)) * s.height == 8 * (RowSize(s.width, 1) * s.height);
  }

  /** Every pixel of a non-empty bitmap lies inside its buffer exactly when the rows fit. */
  lemma PixelsInsideExactly(s: Store)
    requires Valid1(s) && s.width > 0 && s.height > 0
    ensures (forall x: nat, y: nat :: InRange(s, x, y) ==> Byte1(s, x, y) < |s.bits|) <==> RowFits(s.width)
  {
    if RowFits(s.width) {
      forall x: nat, y: nat | InRange(s, x, y) ensures Byte1(s, x, y) < |s.bits| {
        Byte1Inside(s, x, y);
      }
    } else {
      var r := RowSize(s.width, 1);
      assert r * (s.height - 1) + r == r * s.height;
      assert InRange(s, s.width - 1, s.height - 1) && Byte1(s, s.width - 1, s.height - 1) >= |s.bits|;
    }
  }

  /** The byte of a pixel lies in the buffer, as it must for the pixel to be accessed. */
  predicate Accessible1(s: Store, x: int, y: int) {
    InRange(s, x, y) && Byte1(s, x, y) < |s.bits|
  }

  predicate Bit(bits: seq<bv8>, at: nat, k: nat)
    requires at < |bits| && k < 8
  {
    bits[at] & Mask1(k) != 0
  }

  function Put(bits: seq<bv8>, at: nat, k: nat, on: bool): seq<bv8>
    requires at < |bits| && k < 8
  {
    bits[at := if on then bits[at] | Mask1(k) else bits[at] & !Mask1(k)]
  }

  lemma PutThenBit(bits: seq<bv8>, at: nat, j: nat, on: bool, there: nat, k: nat)
    requires at < |bits| && there < |bits| && j < 8 && k < 8
    ensures Bit(Put(bits, at, j, on), there, k) == if at == there && j == k then on else Bit(bits, there, k)
  {
    if at == there {
      MasksDiffer(bits[at], j, k);
    } else {
      assert Put(bits, at, j, on)[there] == bits[there];
    }
  }

  function Get1(s: Store, x: int, y: int): Color
    requires Accessible1(s, x, y)
  {
    if Bit(s.bits, Byte1(s, x, y), x % 8) then WHITE else BLACK
  }

  /** Only black and white can be stored; anything else is an assert in the source. */
  function Set1(s: Store, x: int, y: int, c: Color): (r: Store)
    requires (InRange(s, x, y) ==> Accessible1(s, x, y)) && (c == BLACK || c == WHITE)
    ensures |r.bits| == |s.bits| && r.width == s.width && r.height == s.height
  {
    if InRange(s, x, y) then s.(bits := Put(s.bits, Byte1(s, x, y), x % 8, c == WHITE)) else s
  }

  /** Digit `j` of a number in binary, the last one being digit 0. */
  function Digit(n: nat, j: nat): nat {
    if j == 0 then n % 2 else Digit(n / 2, j - 1)
  }

  /** The leftmost pixel of a byte is its highest digit, and a digit of one is white. */
  lemma Get1Layout(s: Store, x: int, y: int)
    requires Accessible1(s, x, y)
    ensures Get1(s, x, y) == if Digit(s.bits[Byte1(s, x, y)] as int, 7 - x % 8) == 1 then 0xffffff else 0
  {
    MaskIsDigit(s.bits[Byte1(s, x, y)], x % 8);
  }

  lemma {:induction false} MaskIsDigit(b: bv8, k: nat)
    requires k < 8
    ensures b & Mask1(k) != 0 <==> Digit(b as int, 7 - k) == 1
    decreases 7 - k
  {
    if k == 7 {
      Odd(b);
    } else {
      ShiftedMask(b, k);
      MaskIsDigit(b >> 1, k + 1);
      Half(b);
    }
  }

  lemma ShiftedMask(b: bv8, k: nat)
    requires k < 7
    ensures b & Mask1(k) != 0 <==> (b >> 1) & Mask1(k + 1) != 0
  {
  }

  lemma Half(b: bv8)
    ensures (b >> 1) as int == b as int / 2
  {
  }

  lemma Odd(b: bv8)
    ensures b & 1 != 0 <==> b as int % 2 == 1
  {
  }

  lemma MasksDiffer(b: bv8, j: nat, k: nat)
    requires j < 8 && k < 8
    ensures (b & !Mask1(j)) & Mask1(k) != 0 <==> j != k && b & Mask1(k) != 0
    ensures (b | Mask1(j)) & Mask1(k) != 0 <==> j == k || b & Mask1(k) != 0
  {
  }

  /** Two pixels share a bit. */
  predicate Alias1(s: Store, x: nat, y: nat, u: nat, v: nat) {
    Byte1(s, x, y) == Byte1(s, u, v) && x % 8 == u % 8
  }

  /** For every width: setting a pixel changes exactly the pixels that share its bit. */
  lemma SetThenGet1(s: Store, x: int, y: int, c: Color, u: int, v: int)
    requires Accessible1(s, u, v) && (InRange(s, x, y) ==> Accessible1(s, x, y)) && (c == BLACK || c == WHITE)
    ensures Get1(Set1(s, x, y, c), u, v) == if InRange(s, x, y) && Alias1(s, x, y, u, v) then c else Get1(s, u, v)
  {
    if InRange(s, x, y) {
      PutThenBit(s.bits, Byte1(s, x, y), x % 8, c == WHITE, Byte1(s, u, v), u % 8);
    }
  }

  /** Where the rows fit, every pixel is accessible and shares its bit with no other. */
  lemma NoAlias1(s: Store, x: nat, y: nat, u: nat, v: nat)
    requires Valid1(s) && RowFits(s.width) && InRange(s, x, y) && InRange(s, u, v)
    ensures Accessible1(s, x, y) && (Alias1(s, x, y, u, v) <==> x == u && y == v)
  {
    Byte1Inside(s, x, y);
    Byte1Cell(s, x, y);
    Byte1Cell(s, u, v);
    CellsDiffer(8 * RowSize(s.width, 1), x, y, u, v);
  }

  /** Where they do not fit, the last pixel of a row is a pixel of the next row as well. */
  lemma LastPixelAliases(s: Store, y: nat)
    requires !RowFits(s.width) && y + 1 < s.height
    ensures var x := s.width - 1;
      var u := x - 8 * RowSize(s.width, 1);
      InRange(s, x, y) && InRange(s, u, y + 1) && Alias1(s, x, y, u, y + 1)
  {
    var r := RowSize(s.width, 1);
    assert r * (y + 1) == r * y + r;
  }

  /** A one-bit bitmap of at least two rows is a two-dimensional array exactly when its rows fit. */
  lemma NoAliasExactly(s: Store)
    requires Valid1(s) && s.height >= 2
    ensures (forall x: nat, y: nat, u: nat, v: nat ::
               InRange(s, x, y) && InRange(s, u, v) && Alias1(s, x, y, u, v) ==> x == u && y == v)
       <==> RowFits(s.width)
  {
    if RowFits(s.width) {
      forall x: nat, y: nat, u: nat, v: nat | InRange(s, x, y) && InRange(s, u, v) && Alias1(s, x, y, u, v)
        ensures x == u && y == v
      {
        NoAlias1(s, x, y, u, v);
      }
    } else {
      LastPixelAliases(s, 0);
    }
  }
}
