/** The allocator object of kernel/alloc_bitmap.cpp: a packed bitmap updated bit by bit and an area
    of memory that holds the headers, proved against the operations of `AllocBitmap`. */
module BitmapAllocator {
  import opened Common
  import opened AllocBitmap
  import Runs = AllocRuns

  /** 1 << k in an unsigned char. */
  function Mask(k: nat): bv8
    requires k < 8
  {
    if k == 0 then 1 else if k == 1 then 2 else if k == 2 then 4 else if k == 3 then 8 else
    if k == 4 then 16 else if k == 5 then 32 else if k == 6 then 64 else 128
  }

  predicate Bit(b: bv8, k: nat)
    requires k < 8
  {
    b & Mask(k) != 0
  }

  lemma BitSet(b: bv8, j: nat, k: nat)
    requires j < 8 && k < 8
    ensures Bit(b | Mask(j), k) <==> j == k || Bit(b, k)
  {
  }

  lemma BitClear(b: bv8, j: nat, k: nat)
    requires j < 8 && k < 8
    ensures Bit(b & !Mask(j), k) <==> j != k && Bit(b, k)
  {
  }

  /** The bits of a packed bitmap, least significant first in each byte. */
  function Unpack(bytes: seq<bv8>): (bits: seq<bool>)
    ensures |bits| == 8 * |bytes|
  {
    if bytes == [] then [] else
    Unpack(bytes[..|bytes| - 1]) + seq(8, k requires 0 <= k < 8 => Bit(bytes[|bytes| - 1], k))
  }

  lemma {:induction false} UnpackAt(bytes: seq<bv8>, n: nat)
    requires n < 8 * |bytes|
    ensures Unpack(bytes)[n] == Bit(bytes[n / 8], n % 8)
  {
    if n < 8 * (|bytes| - 1) { UnpackAt(bytes[..|bytes| - 1], n); }
  }

  /** Replacing a byte by one that differs in one bit changes that bit. */
  lemma UnpackReplace(bytes: seq<bv8>, n: nat, b: bv8, v: bool)
    requires n < 8 * |bytes|
    requires forall j :: 0 <= j < 8 ==> Bit(b, j) == if j == n % 8 then v else Bit(bytes[n / 8], j)
    ensures Unpack(bytes[n / 8 := b]) == Unpack(bytes)[n := v]
  {
    var after := bytes[n / 8 := b];
    forall k | 0 <= k < 8 * |bytes| ensures Unpack(after)[k] == Unpack(bytes)[n := v][k] {
      UnpackAt(after, k);
      UnpackAt(bytes, k);
    }
  }

  lemma UnpackSet(bytes: seq<bv8>, n: nat)
    requires n < 8 * |bytes|
    ensures Unpack(bytes[n / 8 := bytes[n / 8] | Mask(n % 8)]) == Unpack(bytes)[n := true]
  {
    var b := bytes[n / 8] | Mask(n % 8);
    forall j | 0 <= j < 8 ensures Bit(b, j) == if j == n % 8 then true else Bit(bytes[n / 8], j) {
      BitSet(bytes[n / 8], n % 8, j);
    }
    UnpackReplace(bytes, n, b, true);
  }

  lemma UnpackClear(bytes: seq<bv8>, n: nat)
    requires n < 8 * |bytes|
    ensures Unpack(bytes[n / 8 := bytes[n / 8] & !Mask(n % 8)]) == Unpack(bytes)[n := false]
  {
    var b := bytes[n / 8] & !Mask(n % 8);
    forall j | 0 <= j < 8 ensures Bit(b, j) == if j == n % 8 then false else Bit(bytes[n / 8], j) {
      BitClear(bytes[n / 8], n % 8, j);
    }
    UnpackReplace(bytes, n, b, false);
  }

  /** `n` is the length of the run of bits equal to `v` from `start` on, cut off at `max` and at the end. */
  predicate IsRun(bits: seq<bool>, start: nat, max: nat, v: bool, n: nat) {
    && n <= max && start + n <= |bits|
    && (forall k :: start <= k < start + n ==> bits[k] == v)
    && (n == max || start + n == |bits| || bits[start + n] != v)
  }

  class AllocationBitmap {
    var size: nat
    var arraySize: nat
    var maxBits: nat
    var bitmap: array<bv8>
    var area: array<byte>
    ghost var live: seq<Block>

    ghost predicate Shape()
      reads this
    {
      && size == area.Length && arraySize == size / 64 && maxBits == arraySize * 8
      && bitmap.Length == arraySize
    }

    ghost function Bits(): seq<bool>
      reads this, bitmap
    {
      Unpack(bitmap[..])
    }

    ghost function Abs(): Area
      requires Shape()
      reads this, bitmap, area
    {
      Area(Bits(), area[..], live)
    }

    /** The constructor and set_area. */
    constructor (memory: array<byte>)
      ensures Shape() && area == memory && fresh(bitmap) && Abs() == Runs.Fresh(memory[..])
    {
      area, size := memory, memory.Length;
      arraySize := memory.Length / 64;
      maxBits := memory.Length / 64 * 8;
      bitmap := new bv8[memory.Length / 64](_ => 0);
      live := [];
      new;
      forall n | 0 <= n < maxBits ensures !Bits()[n] {
        UnpackAt(bitmap[..], n);
      }
    }

    function BitValue(n: nat): (v: bool)
      requires Shape() && n < maxBits
      reads this, bitmap
      ensures v == Bits()[n]
    {
      UnpackAt(bitmap[..], n);
      Bit(bitmap[n / 8], n % 8)
    }

    method SetBit(n: nat)
      requires Shape() && n < maxBits
      modifies bitmap
      ensures Bits() == old(Bits())[n := true]
    {
      UnpackSet(bitmap[..], n);
      bitmap[n / 8] := bitmap[n / 8] | Mask(n % 8);
    }

    method ClearBit(n: nat)
      requires Shape() && n < maxBits
      modifies bitmap
      ensures Bits() == old(Bits())[n := false]
    {
      UnpackClear(bitmap[..], n);
      bitmap[n / 8] := bitmap[n / 8] & !Mask(n % 8);
    }

    /** count_zero_bits for `v == false`, count_one_bits for `v == true`. */
    method CountBits(start: nat, max: nat, v: bool) returns (i: nat)
      requires Shape() && start <= maxBits
      ensures IsRun(Bits(), start, max, v, i)
    {
      var limit := if max > maxBits - start then maxBits - start else max;
      i := 0;
      while i < limit && BitValue(start + i) == v
        invariant i <= limit
        invariant forall k :: start <= k < start + i ==> Bits()[k] == v
      {
        i := i + 1;
      }
    }

    /** `ok` is the assert that the run ends before the last bit. */
    method SetBits(start: nat, count: nat) returns (ok: bool)
      requires Shape()
      modifies bitmap
      ensures ok <==> start + count < maxBits
      ensures Bits() == if ok then Fill(old(Bits()), start, count, true) else old(Bits())
    {
      if start + count >= maxBits { return false; }
      for i := 0 to count
        invariant Bits() == Fill(old(Bits()), start, i, true)
      {
        SetBit(start + i);
      }
      ok := true;
    }

    method ClearBits(start: nat, count: nat) returns (ok: bool)
      requires Shape()
      modifies bitmap
      ensures ok <==> start + count < maxBits
      ensures Bits() == if ok then Fill(old(Bits()), start, count, false) else old(Bits())
    {
      if start + count >= maxBits { return false; }
      for i := 0 to count
        invariant Bits() == Fill(old(Bits()), start, i, false)
      {
        ClearBit(start + i);
      }
      ok := true;
    }

    /** `*(size_t*) &ptr[at] = v` on a little-endian machine. */
    method StoreWord(at: nat, v: nat)
      requires at + 4 <= area.Length && v < 0x1_0000_0000
      modifies area
      ensures area[..] == PutWord(old(area[..]), at, v)
    {
      area[at] := (v % 0x100) as byte;
      area[at + 1] := (v / 0x100 % 0x100) as byte;
      area[at + 2] := (v / 0x1_0000 % 0x100) as byte;
      area[at + 3] := (v / 0x100_0000) as byte;
    }

    method LoadWord(at: nat) returns (v: nat)
      requires at + 4 <= area.Length
      ensures v == GetWord(area[..], at) && v < 0x1_0000_0000
    {
      v := area[at] as nat + 0x100 * (area[at + 1] as nat)
         + 0x1_0000 * (area[at + 2] as nat) + 0x100_0000 * (area[at + 3] as nat);
    }

    /** The part of alloc that marks a run it found and writes the header. */
    method Claim(i: nat, len: nat, required: nat) returns (ok: bool)
      requires Shape() && i < maxBits && len < 0x1_0000_0000
      modifies this`live, bitmap, area
      ensures Shape() && (ok <==> i + required < maxBits)
      ensures ok ==> var a := old(Abs());
        Abs() == Area(Fill(a.bits, i, required, true), PutWord(a.mem, 8 * i, len), a.live + [Block(i, len, required)])
    {
      ok := SetBits(i, required);
      if !ok { return; }
      var ones := CountBits(i, required, true);
      assert required == ones;
      StoreWord(8 * i, len);
      live := live + [Block(i, len, required)];
    }

    /** The loop of alloc: skips a run of clear bits that is too short and the set bits behind it.
        The asserts on the counts hold on every call. */
    method FindRun(required: nat) returns (found: Option<nat>)
      requires Shape()
      ensures found == FirstFit(Bits(), required, 0)
    {
      ghost var bits := Bits();
      var i := 0;
      while i < maxBits
        invariant i <= maxBits
        invariant forall j :: 0 <= j < i ==> !FitsAt(bits, j, required)
      {
        var free := CountBits(i, required, false);
        assert IsRun(bits, i, required, false, free) && free <= required;
        if free == required {
          assert FitsAt(bits, i, required);
          return Some(i);
        }
        NoFitInShortRun(bits, i, free, required);
        i := i + free;
        if i == maxBits { break; }
        var used := CountBits(i, maxBits - i, true);
        assert IsRun(bits, i, maxBits - i, true, used) && used > 0;
        NoFitInOnes(bits, i, used, required);
        i := i + used;
      }
      found := None;
    }

    /** First fit, as specified. `ok == false` is the assert in set_bits. */
    method Alloc(len: nat) returns (ok: bool, p: Option<nat>)
      requires Shape() && len < 0x1_0000_0000
      modifies this`live, bitmap, area
      ensures Shape()
      ensures var r := AllocBitmap.Alloc(old(Abs()), len);
        && (r.NoSpace? ==> ok && p == None && Abs() == old(Abs()))
        && (r.Refused? ==> !ok)
        && (r.Got? ==> ok && p == Some(Pointer(r.block)) && Abs() == r.area)
      ensures var bits, r := old(Bits()), Required(len);
        && (ok && p.None? <==> forall j :: 0 <= j < |bits| ==> !FitsAt(bits, j, r))
        && (!ok <==> exists j: nat :: LeastFit(bits, r, j) && j + r == |bits|)
        && (p.Some? ==> exists j: nat :: LeastFit(bits, r, j) && p.value == 8 * j + 4)
    {
      AllocExactly(Abs(), len);
      var required := Required(len);
      var found := FindRun(required);
      ok, p := true, None;
      if found.Some? {
        ok := Claim(found.value, len, required);
        if ok { p := Some(8 * found.value + 4); }
      }
    }

    /** free with the length the caller believes the block to have; `p` is an offset into the area. */
    method FreeSized(p: int, len: nat) returns (ok: bool)
      requires Shape()
      modifies bitmap
      ensures ok ==> 4 <= p <= area.Length && len == GetWord(area[..], p - 4)
      ensures ok ==> FreeBits(old(Bits()), area[..], p) == Some(Bits())
      ensures !ok ==> Bits() == old(Bits())
      ensures 4 <= p <= area.Length && len == GetWord(area[..], p - 4) ==>
        (ok <==> FreeBits(old(Bits()), area[..], p).Some?)
    {
      if p < 4 || (p - 4) % 8 != 0 || (p - 4) / 8 >= maxBits { return false; }
      var ofs := (p - 4) / 8;
      var header := LoadWord(p - 4);
      if len != header { return false; }
      var required := Required(len);
      var n := CountBits(ofs, required, true);
      if n != required { return false; }
      ok := ClearBits(ofs, required);
    }

    /** free(start), which trusts the header. */
    method Free(p: int) returns (ok: bool)
      requires Shape()
      modifies bitmap
      ensures ok <==> FreeBits(old(Bits()), area[..], p).Some?
      ensures Bits() == if ok then FreeBits(old(Bits()), area[..], p).value else old(Bits())
    {
      if p < 4 || (p - 4) % 8 != 0 || (p - 4) / 8 >= maxBits { return false; }
      var header := LoadWord(p - 4);
      ok := FreeSized(p, header);
    }

    /** free called with the pointer of a live block of a reachable area: no assert fails and exactly
        that block is released. */
    method FreeLive(p: int, ghost i: nat) returns (ok: bool)
      requires Shape() && Runs.Inv(Abs()) && i < |live| && p == Pointer(live[i])
      modifies this`live, bitmap
      ensures Shape() && ok && Abs() == Runs.Free(old(Abs()), i) && Runs.Inv(Abs())
    {
      Runs.FreeIsExact(Abs(), i);
      Runs.FreeKeeps(Abs(), i);
      ok := Free(p);
      live := Runs.RemoveAt(live, i);
    }

    /** The loop of get_info: runs of clear and set bits in turn, the first of which may be empty. */
    method Tally() returns (used: nat, free: nat)
      requires Shape()
      ensures used == Ones(Bits()) && used + free == maxBits
    {
      ghost var bits := Bits();
      var max, i, ones := maxBits, 0, false;
      used, free := 0, 0;
      while i < max
        invariant i <= max == |bits| && used == OnesBelow(bits, i) && used + free == i
        invariant ones && i < max ==> bits[i]
        decreases max - i, !ones
      {
        var n := CountBits(i, max, ones);
        assert IsRun(bits, i, |bits|, ones, n);
        RunEndsWithOther(bits, i, n, ones);
        if !ones { free := free + n; } else { used := used + n; }
        i := i + n;
        ones := !ones;
      }
    }

    method GetInfo() returns (total: nat, used: nat, free: nat)
      requires Shape()
      ensures used == 8 * Ones(Bits()) && total == 8 * maxBits && used + free == total
      ensures Runs.Inv(Abs()) ==> used == 8 * Runs.Granules(live) && (live == [] ==> used == 0)
    {
      used, free := Tally();
      used, free, total := used * 8, free * 8, maxBits * 8;
    }
  }

  /** A run that is not cut off ends at the end or before a bit of the other kind. */
  lemma RunEndsWithOther(bits: seq<bool>, i: nat, n: nat, v: bool)
    requires i < |bits| && IsRun(bits, i, |bits|, v, n)
    ensures i + n < |bits| ==> bits[i + n] == !v
    ensures bits[i] == v ==> n > 0
    ensures OnesBelow(bits, i + n) == OnesBelow(bits, i) + if v then n else 0
  {
    OnesOfRun(bits, i, n, v);
  }

  /** No run of `r` clear bits starts inside a shorter run that ends at a set bit or at the end. */
  lemma NoFitInShortRun(bits: seq<bool>, i: nat, n: nat, r: nat)
    requires IsRun(bits, i, r, false, n) && n < r
    ensures forall j :: i <= j < i + n ==> !FitsAt(bits, j, r)
  {
  }

  lemma NoFitInOnes(bits: seq<bool>, i: nat, n: nat, r: nat)
    requires i + n <= |bits| && r >= 1 && forall k :: i <= k < i + n ==> bits[k]
    ensures forall j :: i <= j < i + n ==> !FitsAt(bits, j, r)
  {
    forall j | i <= j < i + n ensures !FitsAt(bits, j, r) {
      assert bits[j];
    }
  }
}
