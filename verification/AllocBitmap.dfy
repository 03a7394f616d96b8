/** The first-fit allocator of kernel/alloc_bitmap.cpp on values: one bit per granule of eight
    bytes, the length of a block in a four-byte header in front of it, and size_t of 32 bits. */
module AllocBitmap {
  import opened Common

  newtype byte = b: int | 0 <= b < 256

  /** A block: the granule its header starts at, the length asked for, and the granules it takes. */
  datatype Block = Block(start: nat, len: nat, granules: nat)

  /** `live` is a history the code does not have: the blocks allocated and not freed yet. */
  datatype Area = Area(bits: seq<bool>, mem: seq<byte>, live: seq<Block>)

  // ---------------------------------------------------------------- sizes

  function BitsRequired(len: nat): nat {
    ((len + 7) % 0x1_0000_0000) / 8
  }

  /** The granules alloc looks for; both additions wrap around. */
  function Required(len: nat): nat {
    BitsRequired((len + 4) % 0x1_0000_0000)
  }

  /** The rounding is exact, neither too small nor too large, exactly for lengths that do not wrap:
      the last eleven lengths below 2^32 get fewer bytes than they need. */
  lemma RequiredExactly(len: nat)
    requires len < 0x1_0000_0000
    ensures 8 * Required(len) >= len + 4 <==> len + 11 < 0x1_0000_0000
    ensures len + 11 < 0x1_0000_0000 ==> 8 * Required(len) < len + 12 && Required(len) >= 1
    ensures len + 11 >= 0x1_0000_0000 ==> 8 * Required(len) <= len + 11 - 0x1_0000_0000 < 8 * Required(len) + 8
  {
    if len + 11 < 0x1_0000_0000 {
      assert (len + 4) % 0x1_0000_0000 == len + 4 && (len + 4 + 7) % 0x1_0000_0000 == len + 11;
      assert Required(len) == (len + 11) / 8;
    } else if len + 4 < 0x1_0000_0000 {
      assert (len + 4) % 0x1_0000_0000 == len + 4 && (len + 4 + 7) % 0x1_0000_0000 == len + 11 - 0x1_0000_0000;
      assert Required(len) == (len + 11 - 0x1_0000_0000) / 8;
    } else {
      assert (len + 4) % 0x1_0000_0000 == len + 4 - 0x1_0000_0000;
      assert Required(len) == (len + 11 - 0x1_0000_0000) / 8;
    }
  }

  /** A caller that keeps this gets the block it asked for. */
  predicate Sane(len: nat) {
    len + 11 < 0x1_0000_0000
  }

  // --------------------------------------------------------------- header

  function GetWord(mem: seq<byte>, at: nat): nat
    requires at + 4 <= |mem|
  {
    mem[at] as nat + 0x100 * (mem[at + 1] as nat) + 0x1_0000 * (mem[at + 2] as nat) + 0x100_0000 * (mem[at + 3] as nat)
  }

  function PutWord(mem: seq<byte>, at: nat, v: nat): seq<byte>
    requires at + 4 <= |mem| && v < 0x1_0000_0000
  {
    mem[at := (v % 0x100) as byte][at + 1 := (v / 0x100 % 0x100) as byte]
       [at + 2 := (v / 0x1_0000 % 0x100) as byte][at + 3 := (v / 0x100_0000) as byte]
  }

  lemma WordFromBytes(v: nat)
    requires v < 0x1_0000_0000
    ensures v == v % 0x100 + 0x100 * (v / 0x100 % 0x100)
              + 0x1_0000 * (v / 0x1_0000 % 0x100) + 0x100_0000 * (v / 0x100_0000)
  {
    assert v / 0x1_0000 == v / 0x100 / 0x100 && v / 0x100_0000 == v / 0x1_0000 / 0x100;
    assert v / 0x1_0000 == 0x100 * (v / 0x100_0000) + v / 0x1_0000 % 0x100;
    assert v / 0x100 == 0x100 * (v / 0x1_0000) + v / 0x100 % 0x100;
  }

  lemma WordRoundTrip(mem: seq<byte>, at: nat, v: nat)
    requires at + 4 <= |mem| && v < 0x1_0000_0000
    ensures var m := PutWord(mem, at, v);
      && |m| == |mem| && GetWord(m, at) == v
      && (forall i :: 0 <= i < |mem| && !(at <= i < at + 4) ==> m[i] == mem[i])
  {
    WordFromBytes(v);
  }

  /** The header holds the length with its least significant byte first. */
  lemma WordLayout(mem: seq<byte>, at: nat, v: nat)
    requires at + 4 <= |mem| && v < 0x1_0000_0000
    ensures var m := PutWord(mem, at, v);
      && |m| == |mem| && m[at] as nat == v % 0x100
      && m[at + 1] as nat == v / 0x100 % 0x100 && m[at + 2] as nat == v / 0x1_0000 % 0x100
      && m[at + 3] as nat == v / 0x100_0000
  {
  }

  // ----------------------------------------------------------------- bits

  predicate FitsAt(bits: seq<bool>, i: nat, r: nat) {
    i + r <= |bits| && forall k :: i <= k < i + r ==> !bits[k]
  }

  /** The least index from `i` on where `r` clear bits start. */
  function FirstFit(bits: seq<bool>, r: nat, i: nat): (o: Option<nat>)
    requires i <= |bits|
    ensures o.Some? ==>
      && i <= o.value < |bits| && FitsAt(bits, o.value, r)
      && forall j :: i <= j < o.value ==> !FitsAt(bits, j, r)
    ensures o.None? ==> forall j :: i <= j < |bits| ==> !FitsAt(bits, j, r)
    decreases |bits| - i
  {
    if i == |bits| then None else if FitsAt(bits, i, r) then Some(i) else FirstFit(bits, r, i + 1)
  }

  function Fill(bits: seq<bool>, start: nat, count: nat, v: bool): seq<bool> {
    seq(|bits|, k requires 0 <= k < |bits| => if start <= k < start + count then v else bits[k])
  }

  /** The set bits among the first `n`. */
  function OnesBelow(bits: seq<bool>, n: nat): nat
    requires n <= |bits|
  {
    if n == 0 then 0 else OnesBelow(bits, n - 1) + if bits[n - 1] then 1 else 0
  }

  function Ones(bits: seq<bool>): nat {
    OnesBelow(bits, |bits|)
  }

  lemma {:induction false} OnesOfRun(bits: seq<bool>, i: nat, n: nat, v: bool)
    requires i + n <= |bits| && forall k :: i <= k < i + n ==> bits[k] == v
    ensures OnesBelow(bits, i + n) == OnesBelow(bits, i) + if v then n else 0
  {
    if n > 0 { OnesOfRun(bits, i, n - 1, v); }
  }

  /** How many of the first `n` bits lie in the run of `count` bits from `start` on. */
  function Overlap(start: nat, count: nat, n: nat): nat {
    if n <= start then 0 else if n <= start + count then n - start else count
  }

  lemma {:induction false} OnesBelowFill(bits: seq<bool>, start: nat, count: nat, v: bool, n: nat)
    requires start + count <= |bits| && n <= |bits| && forall k :: start <= k < start + count ==> bits[k] == !v
    ensures OnesBelow(Fill(bits, start, count, v), n)
         == if v then OnesBelow(bits, n) + Overlap(start, count, n) else OnesBelow(bits, n) - Overlap(start, count, n)
  {
    if n > 0 { OnesBelowFill(bits, start, count, v, n - 1); }
  }

  /** Filling a run of equal bits with the other value moves the count by its length. */
  lemma OnesFill(bits: seq<bool>, start: nat, count: nat, v: bool)
    requires start + count <= |bits| && forall k :: start <= k < start + count ==> bits[k] == !v
    ensures Ones(Fill(bits, start, count, v)) == if v then Ones(bits) + count else Ones(bits) - count
  {
    OnesBelowFill(bits, start, count, v, |bits|);
  }

  // ----------------------------------------------------------- operations

  /** `Refused` is the assert in set_bits: a run that ends at the very last bit. */
  datatype Allocated = NoSpace | Refused | Got(area: Area, block: Block)

  function Alloc(a: Area, len: nat): Allocated
    requires len < 0x1_0000_0000 && 8 * |a.bits| <= |a.mem|
  {
    var r := Required(len);
    match FirstFit(a.bits, r, 0)
    case None => NoSpace
    case Some(i) =>
      if i + r >= |a.bits| then Refused
      else
        var b := Block(i, len, r);
        Got(Area(Fill(a.bits, i, r, true), PutWord(a.mem, 8 * i, len), a.live + [b]), b)
  }

  /** `j` is the least index at which `r` clear bits start. */
  predicate LeastFit(bits: seq<bool>, r: nat, j: nat) {
    j < |bits| && FitsAt(bits, j, r) && forall i :: 0 <= i < j ==> !FitsAt(bits, i, r)
  }

  lemma LeastIsFirst(bits: seq<bool>, r: nat, j: nat)
    ensures LeastFit(bits, r, j) <==> FirstFit(bits, r, 0) == Some(j)
  {
    var found := FirstFit(bits, r, 0);
    if found.Some? {
      var i := found.value;
      assert FitsAt(bits, i, r) && (j < i ==> !FitsAt(bits, j, r));
    }
  }

  /** alloc returns NULL exactly when there is no room, fails its assert exactly when the first run that
      is long enough ends with the area, and otherwise takes that run. */
  lemma AllocExactly(a: Area, len: nat)
    requires len < 0x1_0000_0000 && 8 * |a.bits| <= |a.mem|
    ensures var r, o := Required(len), Alloc(a, len);
      && (o.NoSpace? <==> forall j :: 0 <= j < |a.bits| ==> !FitsAt(a.bits, j, r))
      && (o.Refused? <==> exists j: nat :: LeastFit(a.bits, r, j) && j + r == |a.bits|)
      && (o.Got? ==> LeastFit(a.bits, r, o.block.start) && o.block.start + r < |a.bits|)
  {
    var r := Required(len);
    forall j: nat ensures LeastFit(a.bits, r, j) <==> FirstFit(a.bits, r, 0) == Some(j) {
      LeastIsFirst(a.bits, r, j);
    }
  }

  lemma AllocTakes(a: Area, len: nat)
    requires len < 0x1_0000_0000 && 8 * |a.bits| <= |a.mem| && Alloc(a, len).Got?
    ensures var o := Alloc(a, len);
      o.block.start < |a.bits| && Takes(a, o.area, o.block, len, Required(len))
  {
    WordRoundTrip(a.mem, 8 * Alloc(a, len).block.start, len);
  }

  /** The bits of the block are set, its header is written, and nothing else changes. */
  ghost predicate Takes(a: Area, a': Area, b: Block, len: nat, r: nat)
    requires 8 * |a.bits| <= |a.mem| && b.start < |a.bits|
  {
    && b.len == len && b.granules == r && a'.live == a.live + [b] && |a'.bits| == |a.bits| && |a'.mem| == |a.mem|
    && (forall k :: 0 <= k < |a.bits| ==> (a'.bits[k] <==> a.bits[k] || b.start <= k < b.start + r))
    && GetWord(a'.mem, 8 * b.start) == len
    && (forall k :: 0 <= k < |a.mem| && !(8 * b.start <= k < 8 * b.start + 4) ==> a'.mem[k] == a.mem[k])
  }

  /** The pointer alloc returns, as an offset into the area. */
  function Pointer(b: Block): nat {
    8 * b.start + 4
  }

  /** What free leaves of the bits and when its asserts fail; `p` is an offset into the area. */
  function FreeBits(bits: seq<bool>, mem: seq<byte>, p: int): Option<seq<bool>>
    requires 8 * |bits| <= |mem|
  {
    if p < 4 || (p - 4) % 8 != 0 || (p - 4) / 8 >= |bits| then None else
    var i := (p - 4) / 8;
    var r := Required(GetWord(mem, p - 4));
    if i + r < |bits| && forall k :: i <= k < i + r ==> bits[k] then Some(Fill(bits, i, r, false)) else None
  }

  /** `p` points behind the header at granule `i`, and the bits of the block it tells of are all set and
      end before the last bit. */
  predicate Freeable(bits: seq<bool>, mem: seq<byte>, p: int, i: nat)
    requires 8 * |bits| <= |mem|
  {
    && p == 8 * i + 4 && i < |bits|
    && i + Required(GetWord(mem, 8 * i)) < |bits|
    && forall k :: i <= k < i + Required(GetWord(mem, 8 * i)) ==> bits[k]
  }

  /** free passes its asserts exactly on such pointers. */
  lemma FreeExactly(bits: seq<bool>, mem: seq<byte>, p: int)
    requires 8 * |bits| <= |mem|
    ensures FreeBits(bits, mem, p).Some? <==> exists i: nat :: Freeable(bits, mem, p, i)
  {
    if FreeBits(bits, mem, p).Some? {
      assert Freeable(bits, mem, p, (p - 4) / 8);
    }
    forall i: nat | Freeable(bits, mem, p, i) ensures FreeBits(bits, mem, p).Some? {
      FreeClears(bits, mem, p, i);
    }
  }

  /** It then clears the bits of the block, and no others. */
  lemma FreeClears(bits: seq<bool>, mem: seq<byte>, p: int, i: nat)
    requires 8 * |bits| <= |mem| && Freeable(bits, mem, p, i)
    ensures var r, after := Required(GetWord(mem, 8 * i)), FreeBits(bits, mem, p);
      && after.Some? && |after.value| == |bits|
      && forall k :: 0 <= k < |bits| ==> (after.value[k] <==> bits[k] && !(i <= k < i + r))
  {
    assert (p - 4) / 8 == i;
  }
}
