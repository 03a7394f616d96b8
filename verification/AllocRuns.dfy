/** What every run of alloc, free and client writes keeps: live blocks never overlap, their headers
    stay intact, and the bitmap says exactly which granules they occupy. */
module AllocRuns {
  import opened Common
  import opened AllocBitmap

  predicate Covers(b: Block, k: nat) {
    b.start <= k < b.start + b.granules
  }

  predicate Disjoint(b: Block, c: Block) {
    b.start + b.granules <= c.start || c.start + c.granules <= b.start
  }

  /** The granules of all live blocks together. */
  function Granules(live: seq<Block>): nat {
    if live == [] then 0 else Granules(live[..|live| - 1]) + live[|live| - 1].granules
  }

  /** The block has room for its header and the bytes asked for, lies inside the area, and its header
      holds its length. */
  ghost predicate BlockOk(a: Area, b: Block) {
    && b.len < 0x1_0000_0000 && b.granules == Required(b.len) && 8 * b.granules >= b.len + 4
    && b.start + b.granules < |a.bits|
    && 8 * b.start + 4 <= |a.mem| && GetWord(a.mem, 8 * b.start) == b.len
  }

  ghost predicate HeadersOk(a: Area) {
    forall i :: 0 <= i < |a.live| ==> BlockOk(a, a.live[i])
  }

  predicate Apart(live: seq<Block>) {
    forall i, j :: 0 <= i < j < |live| ==> Disjoint(live[i], live[j])
  }

  predicate Covered(live: seq<Block>, k: nat) {
    exists i :: 0 <= i < |live| && Covers(live[i], k)
  }

  predicate Marked(bits: seq<bool>, live: seq<Block>) {
    forall k :: 0 <= k < |bits| ==> (bits[k] <==> Covered(live, k))
  }

  ghost predicate Inv(a: Area) {
    && 8 * |a.bits| <= |a.mem|
    && HeadersOk(a) && Apart(a.live) && Marked(a.bits, a.live)
    && Ones(a.bits) == Granules(a.live)
  }

  /** The last bit is never set: alloc refuses a run that ends there. */
  lemma LastBitClear(a: Area)
    requires Inv(a) && a.bits != []
    ensures !a.bits[|a.bits| - 1]
  {
    forall i | 0 <= i < |a.live| ensures !Covers(a.live[i], |a.bits| - 1) {
      assert BlockOk(a, a.live[i]);
    }
  }

  /** A run of clear bits touches no live block. */
  lemma FitIsDisjoint(a: Area, i: nat, len: nat)
    requires Inv(a) && FitsAt(a.bits, i, Required(len)) && Sane(len)
    ensures forall j :: 0 <= j < |a.live| ==> Disjoint(a.live[j], Block(i, len, Required(len)))
  {
    RequiredExactly(len);
    forall j | 0 <= j < |a.live| ensures Disjoint(a.live[j], Block(i, len, Required(len))) {
      assert BlockOk(a, a.live[j]);
      RequiredExactly(a.live[j].len);
      ClearRunIsDisjoint(a.bits, a.live, Block(i, len, Required(len)), j);
    }
  }

  lemma ClearRunIsDisjoint(bits: seq<bool>, live: seq<Block>, c: Block, j: nat)
    requires Marked(bits, live) && FitsAt(bits, c.start, c.granules) && j < |live|
    requires c.granules >= 1 && live[j].granules >= 1 && live[j].start + live[j].granules <= |bits|
    ensures Disjoint(live[j], c)
  {
    forall k | 0 <= k < |bits| && Covers(live[j], k) ensures bits[k] {
      assert Covered(live, k);
    }
    var k := if live[j].start >= c.start then live[j].start else c.start;
    assert Covers(c, k) && k < |bits| ==> !Covers(live[j], k);
  }

  /** Writing a header into free granules leaves the other headers alone. */
  lemma HeadersKept(a: Area, i: nat, len: nat)
    requires Inv(a) && FitsAt(a.bits, i, Required(len)) && Sane(len)
    requires 8 * i + 4 <= |a.mem|
    ensures var m := PutWord(a.mem, 8 * i, len);
      HeadersOk(a.(mem := m))
  {
    FitIsDisjoint(a, i, len);
    WordRoundTrip(a.mem, 8 * i, len);
    RequiredExactly(len);
    var m := PutWord(a.mem, 8 * i, len);
    forall j | 0 <= j < |a.live| ensures BlockOk(a.(mem := m), a.live[j]) {
      var b := a.live[j];
      assert Disjoint(b, Block(i, len, Required(len))) && BlockOk(a, b);
      RequiredExactly(b.len);
    }
  }

  lemma CoveredAppend(live: seq<Block>, b: Block, k: nat)
    ensures Covered(live + [b], k) <==> Covered(live, k) || Covers(b, k)
  {
    if Covers(b, k) {
      assert (live + [b])[|live|] == b;
    }
    if Covered(live, k) {
      var i :| 0 <= i < |live| && Covers(live[i], k);
      assert (live + [b])[i] == live[i];
    }
  }

  lemma MarkedAppend(bits: seq<bool>, live: seq<Block>, b: Block)
    requires Marked(bits, live)
    ensures Marked(Fill(bits, b.start, b.granules, true), live + [b])
  {
    forall k | 0 <= k < |bits| ensures Fill(bits, b.start, b.granules, true)[k] <==> Covered(live + [b], k) {
      CoveredAppend(live, b, k);
    }
  }

  lemma AllocHeaders(a: Area, len: nat)
    requires Inv(a) && Sane(len) && Alloc(a, len).Got?
    ensures HeadersOk(Alloc(a, len).area)
  {
    var a' := Alloc(a, len).area;
    var b := Alloc(a, len).block;
    HeadersKept(a, b.start, len);
    WordRoundTrip(a.mem, 8 * b.start, len);
    RequiredExactly(len);
    forall j | 0 <= j < |a'.live| ensures BlockOk(a', a'.live[j]) {
      if j < |a.live| { assert BlockOk(a.(mem := a'.mem), a.live[j]); }
    }
  }

  lemma AllocKeeps(a: Area, len: nat)
    requires Inv(a) && Sane(len) && Alloc(a, len).Got?
    ensures Inv(Alloc(a, len).area)
  {
    var a' := Alloc(a, len).area;
    var b := Alloc(a, len).block;
    MarkedAppend(a.bits, a.live, b);
    OnesFill(a.bits, b.start, Required(len), true);
    assert a'.live[..|a.live|] == a.live;
    assert Apart(a'.live) by { FitIsDisjoint(a, b.start, len); }
    AllocHeaders(a, len);
  }

  /** For every length a size_t can hold: a block that alloc returns keeps the invariant exactly when
      the length does not wrap around. */
  lemma AllocKeepsExactly(a: Area, len: nat)
    requires Inv(a) && len < 0x1_0000_0000 && Alloc(a, len).Got?
    ensures Inv(Alloc(a, len).area) <==> Sane(len)
  {
    if Sane(len) {
      AllocKeeps(a, len);
    } else {
      RequiredExactly(len);
      assert Alloc(a, len).area.live[|a.live|] == Alloc(a, len).block;
      assert !BlockOk(Alloc(a, len).area, Alloc(a, len).block);
    }
  }

  // ----------------------------------------------------------------- free

  function RemoveAt(live: seq<Block>, i: nat): seq<Block>
    requires i < |live|
  {
    live[..i] + live[i + 1..]
  }

  lemma {:induction false} GranulesRemove(live: seq<Block>, i: nat)
    requires i < |live|
    ensures Granules(RemoveAt(live, i)) == Granules(live) - live[i].granules
    decreases |live|
  {
    var front := live[..|live| - 1];
    if i == |live| - 1 {
      assert RemoveAt(live, i) == front;
    } else {
      GranulesRemove(front, i);
      assert RemoveAt(live, i)[..|live| - 2] == RemoveAt(front, i);
    }
  }

  function Free(a: Area, i: nat): Area
    requires i < |a.live|
  {
    a.(bits := Fill(a.bits, a.live[i].start, a.live[i].granules, false), live := RemoveAt(a.live, i))
  }

  lemma RemovedIsUncovered(live: seq<Block>, i: nat, k: nat)
    requires i < |live| && Apart(live) && Covered(RemoveAt(live, i), k)
    ensures Covered(live, k) && !Covers(live[i], k)
  {
    var rest := RemoveAt(live, i);
    var j :| 0 <= j < |rest| && Covers(rest[j], k);
    var j0 := if j < i then j else j + 1;
    assert rest[j] == live[j0];
    assert if j0 < i then Disjoint(live[j0], live[i]) else Disjoint(live[i], live[j0]);
  }

  lemma CoveredRemove(live: seq<Block>, i: nat, k: nat)
    requires i < |live| && Apart(live)
    ensures Covered(RemoveAt(live, i), k) <==> Covered(live, k) && !Covers(live[i], k)
  {
    if Covered(RemoveAt(live, i), k) { RemovedIsUncovered(live, i, k); }
    if Covered(live, k) && !Covers(live[i], k) {
      var j0 :| 0 <= j0 < |live| && Covers(live[j0], k);
      assert RemoveAt(live, i)[if j0 < i then j0 else j0 - 1] == live[j0];
    }
  }

  lemma MarkedRemove(bits: seq<bool>, live: seq<Block>, i: nat)
    requires Marked(bits, live) && i < |live| && Apart(live)
    ensures Marked(Fill(bits, live[i].start, live[i].granules, false), RemoveAt(live, i))
  {
    forall k | 0 <= k < |bits|
      ensures Fill(bits, live[i].start, live[i].granules, false)[k] <==> Covered(RemoveAt(live, i), k)
    {
      CoveredRemove(live, i, k);
    }
  }

  lemma HeadersRemove(a: Area, i: nat)
    requires HeadersOk(a) && i < |a.live|
    ensures HeadersOk(Free(a, i))
  {
    forall j | 0 <= j < |a.live| - 1 ensures BlockOk(Free(a, i), Free(a, i).live[j]) {
      assert BlockOk(a, a.live[if j < i then j else j + 1]);
    }
  }

  lemma ApartRemove(live: seq<Block>, i: nat)
    requires Apart(live) && i < |live|
    ensures Apart(RemoveAt(live, i))
  {
    var rest := RemoveAt(live, i);
    forall j, k | 0 <= j < k < |rest| ensures Disjoint(rest[j], rest[k]) {
      assert rest[j] == live[if j < i then j else j + 1] && rest[k] == live[if k < i then k else k + 1];
    }
  }

  /** The bits of a live block are all set. */
  lemma LiveBitsSet(a: Area, i: nat)
    requires Inv(a) && i < |a.live|
    ensures var b := a.live[i];
      b.start + b.granules < |a.bits| && forall k :: b.start <= k < b.start + b.granules ==> a.bits[k]
  {
    var b := a.live[i];
    assert BlockOk(a, b);
    forall k | b.start <= k < b.start + b.granules ensures a.bits[k] {
      assert Covers(a.live[i], k) && Covered(a.live, k);
    }
  }

  /** free of a live block passes all its asserts and clears exactly the bits of that block. */
  lemma FreeIsExact(a: Area, i: nat)
    requires Inv(a) && i < |a.live|
    ensures FreeBits(a.bits, a.mem, Pointer(a.live[i])) == Some(Free(a, i).bits)
    ensures forall k :: 0 <= k < |a.bits| ==> Free(a, i).bits[k] == (a.bits[k] && !Covers(a.live[i], k))
  {
    var b := a.live[i];
    assert BlockOk(a, b);
    LiveBitsSet(a, i);
    assert (Pointer(b) - 4) / 8 == b.start;
    assert Required(GetWord(a.mem, Pointer(b) - 4)) == b.granules;
  }

  /** A block that was freed cannot be freed again: the assert on its bits fails. */
  lemma DoubleFreeRefused(a: Area, i: nat)
    requires Inv(a) && i < |a.live|
    ensures FreeBits(Free(a, i).bits, Free(a, i).mem, Pointer(a.live[i])) == None
  {
    var b := a.live[i];
    assert BlockOk(a, b);
    RequiredExactly(b.len);
    assert (Pointer(b) - 4) / 8 == b.start && !Free(a, i).bits[b.start];
  }

  lemma FreeKeeps(a: Area, i: nat)
    requires Inv(a) && i < |a.live|
    ensures Inv(Free(a, i))
  {
    var b := a.live[i];
    GranulesRemove(a.live, i);
    MarkedRemove(a.bits, a.live, i);
    ApartRemove(a.live, i);
    LiveBitsSet(a, i);
    OnesFill(a.bits, b.start, b.granules, false);
    HeadersRemove(a, i);
  }

  // ----------------------------------------------------------------- runs

  /** Ask for `len` bytes; free the i-th live block; store a byte `ofs` bytes into the i-th live block. */
  datatype Event = Malloc(len: nat) | Release(i: nat) | Store(i: nat, ofs: nat, value: byte)

  predicate Enabled(a: Area, e: Event) {
    match e
    case Malloc(len) => len < 0x1_0000_0000
    case Release(i) => i < |a.live|
    case Store(i, ofs, _) => i < |a.live| && ofs < a.live[i].len
  }

  lemma StoreInside(a: Area, i: nat, ofs: nat)
    requires Inv(a) && i < |a.live| && ofs < a.live[i].len
    ensures Pointer(a.live[i]) + ofs < 8 * (a.live[i].start + a.live[i].granules) <= |a.mem|
  {
    assert BlockOk(a, a.live[i]);
    RequiredExactly(a.live[i].len);
  }

  lemma StoreKeeps(a: Area, i: nat, ofs: nat, value: byte)
    requires Inv(a) && i < |a.live| && ofs < a.live[i].len
    requires Pointer(a.live[i]) + ofs < |a.mem|
    ensures Inv(a.(mem := a.mem[Pointer(a.live[i]) + ofs := value]))
  {
    var a' := a.(mem := a.mem[Pointer(a.live[i]) + ofs := value]);
    StoreInside(a, i, ofs);
    forall j | 0 <= j < |a.live| ensures BlockOk(a', a'.live[j]) {
      var b := a.live[j];
      assert BlockOk(a, b);
      RequiredExactly(b.len);
      assert j < i ==> Disjoint(a.live[j], a.live[i]);
      assert i < j ==> Disjoint(a.live[i], a.live[j]);
    }
  }

  /** The event does not hand out a block for a length that wraps around. */
  predicate Harmless(a: Area, e: Event)
    requires 8 * |a.bits| <= |a.mem| && Enabled(a, e)
  {
    e.Malloc? && Alloc(a, e.len).Got? ==> Sane(e.len)
  }

  /** The area after one event; a NULL from alloc changes nothing, a failed assert ends the run. The
      invariant survives exactly the harmless events. */
  ghost function Step(a: Area, e: Event): (r: Option<Area>)
    requires Inv(a) && Enabled(a, e)
    ensures r.Some? ==> (Inv(r.value) <==> Harmless(a, e)) && |r.value.bits| == |a.bits|
    ensures r.None? <==> e.Malloc? && Alloc(a, e.len).Refused?
  {
    match e
    case Malloc(len) =>
      (match Alloc(a, len)
       case NoSpace => Some(a)
       case Refused => None
       case Got(a', _) => AllocKeepsExactly(a, len); Some(a'))
    case Release(i) => FreeKeeps(a, i); Some(Free(a, i))
    case Store(i, ofs, value) =>
      StoreInside(a, i, ofs);
      StoreKeeps(a, i, ofs, value);
      Some(a.(mem := a.mem[Pointer(a.live[i]) + ofs := value]))
  }

  /** Every area a run of harmless events reaches satisfies the invariant; `None` means the run stopped
      early. */
  ghost function Run(a: Area, es: seq<Event>): (r: Option<Area>)
    requires Inv(a)
    ensures r.Some? ==> Inv(r.value) && |r.value.bits| == |a.bits|
  {
    if es == [] then Some(a) else
    var before := Run(a, es[..|es| - 1]);
    var e := es[|es| - 1];
    if before.None? || !Enabled(before.value, e) || !Harmless(before.value, e) then None else Step(before.value, e)
  }

  /** A run goes on through an event exactly when the asserts pass and the invariant survives it. */
  lemma RunGoesOnExactly(a: Area, es: seq<Event>, e: Event)
    requires Inv(a) && Run(a, es).Some? && Enabled(Run(a, es).value, e)
    ensures var r := Step(Run(a, es).value, e);
      && (Run(a, es + [e]).Some? <==> r.Some? && Inv(r.value))
      && (Run(a, es + [e]).Some? ==> Run(a, es + [e]) == r)
  {
    assert (es + [e])[..|es|] == es;
  }

  /** The area right after set_area. */
  function Fresh(mem: seq<byte>): Area {
    var n := |mem| / 64 * 8;
    Area(seq(n, _ => false), mem, [])
  }

  lemma FreshIsInv(mem: seq<byte>)
    ensures Inv(Fresh(mem)) && Fresh(mem).live == [] && Fresh(mem).mem == mem
    ensures var n := |Fresh(mem).bits|; n % 8 == 0 && 8 * n <= |mem| < 8 * n + 64
    ensures forall k :: 0 <= k < |Fresh(mem).bits| ==> !Fresh(mem).bits[k]
  {
    OnesOfRun(Fresh(mem).bits, 0, |Fresh(mem).bits|, false);
  }

  lemma PayloadsApart(a: Area, i: nat, ofs: nat, j: nat, o: nat)
    requires Inv(a) && i < |a.live| && j < |a.live| && i != j && ofs < a.live[i].len && o < a.live[j].len
    ensures Pointer(a.live[i]) + ofs != Pointer(a.live[j]) + o
  {
    StoreInside(a, i, ofs);
    StoreInside(a, j, o);
    assert j < i ==> Disjoint(a.live[j], a.live[i]);
    assert i < j ==> Disjoint(a.live[i], a.live[j]);
  }

  lemma AllocSpares(a: Area, len: nat, i: nat, ofs: nat)
    requires Inv(a) && Sane(len) && Alloc(a, len).Got? && i < |a.live| && ofs < a.live[i].len
    requires Pointer(a.live[i]) + ofs < |a.mem|
    ensures Alloc(a, len).area.mem[Pointer(a.live[i]) + ofs] == a.mem[Pointer(a.live[i]) + ofs]
  {
    var b := Alloc(a, len).block;
    StoreInside(a, i, ofs);
    FitIsDisjoint(a, b.start, len);
    RequiredExactly(len);
    assert Disjoint(a.live[i], b);
    WordRoundTrip(a.mem, 8 * b.start, len);
  }

  lemma StoreSpares(a: Area, j: nat, o: nat, value: byte, i: nat, ofs: nat)
    requires Inv(a) && j < |a.live| && o < a.live[j].len && i < |a.live| && ofs < a.live[i].len && i != j
    ensures Pointer(a.live[i]) + ofs < |a.mem|
    ensures Step(a, Store(j, o, value)).value.mem[Pointer(a.live[i]) + ofs] == a.mem[Pointer(a.live[i]) + ofs]
  {
    StoreInside(a, i, ofs);
    StoreInside(a, j, o);
    PayloadsApart(a, i, ofs, j, o);
  }

  lemma MallocSpares(a: Area, len: nat, i: nat, ofs: nat)
    requires Inv(a) && Enabled(a, Malloc(len)) && Harmless(a, Malloc(len)) && i < |a.live| && ofs < a.live[i].len
    ensures KeepsByte(a, Malloc(len), Pointer(a.live[i]) + ofs)
  {
    StoreInside(a, i, ofs);
    if Alloc(a, len).Got? { AllocSpares(a, len, i, ofs); }
  }

  ghost predicate KeepsByte(a: Area, e: Event, p: nat)
    requires Inv(a) && Enabled(a, e)
  {
    var r := Step(a, e);
    p < |a.mem| && (r.Some? ==> p < |r.value.mem| && r.value.mem[p] == a.mem[p])
  }

  /** Allocating, freeing and storing elsewhere do not touch the bytes of a live block. */
  lemma PayloadKept(a: Area, e: Event, i: nat, ofs: nat)
    requires Inv(a) && Enabled(a, e) && Harmless(a, e) && i < |a.live| && ofs < a.live[i].len
    requires e.Store? ==> e.i != i
    ensures KeepsByte(a, e, Pointer(a.live[i]) + ofs)
  {
    match e
    case Malloc(len) => MallocSpares(a, len, i, ofs);
    case Release(j) => StoreInside(a, i, ofs);
    case Store(j, o, value) => StoreSpares(a, j, o, value, i, ofs);
  }

  /** Once every block is freed, every bit is clear again. */
  lemma AllFreed(a: Area)
    requires Inv(a) && a.live == []
    ensures Ones(a.bits) == 0 && forall k :: 0 <= k < |a.bits| ==> !a.bits[k]
  {
    forall k | 0 <= k < |a.bits| ensures !a.bits[k] {
      assert !Covered(a.live, k);
    }
  }

  /** Why lengths must be sane: a length that wraps to no granules at all is served twice with the
      same block. */
  lemma WrappedBlocksOverlap(mem: seq<byte>)
    requires |mem| >= 64
    ensures var len := 0xffff_fffb;
      var first := Alloc(Fresh(mem), len);
      && first.Got? && 8 * |first.area.bits| <= |first.area.mem|
      && Alloc(first.area, len).Got? && Alloc(first.area, len).block == first.block
  {
    var len := 0xffff_fffb;
    assert Required(len) == 0;
    assert FitsAt(Fresh(mem).bits, 0, 0);
    var first := Alloc(Fresh(mem), len);
    assert FitsAt(first.area.bits, 0, 0);
  }
}
