/** The memory blocks of kernel/block.cpp over one anonymous backing store: splitting, the states
    free, reserved and committed, the mappings a commit makes, and the reference count. */
module MemoryBlocks {
  import opened Common

  datatype State = Free | Reserved | Committed

  /** `kernelAddress` is zero when the block is not mapped into the kernel. */
  datatype Block = Block(base: nat, size: nat, state: State, kind: nat, protect: nat, kernelAddress: nat, coreOfs: nat)

  const MEM_PRIVATE: nat := 0x20000

  // ------------------------------------------------------- one block

  /** The block split leaves behind, and the one it returns. */
  function SplitLow(b: Block, len: nat): Block {
    b.(size := len)
  }

  function SplitHigh(b: Block, len: nat): Block
    requires len <= b.size
  {
    var size := b.size - len;
    Block(b.base + len, size, b.state, b.kind, b.protect,
          if b.kernelAddress != 0 then b.kernelAddress + len else 0, b.coreOfs + b.size - size)
  }

  /** What split asserts of its argument. */
  predicate CanSplit(b: Block, len: nat) {
    0x1000 <= len <= b.size && len % 0x1000 == 0
  }

  predicate Contains(b: Block, a: nat) {
    b.base <= a < b.base + b.size
  }

  /** Everything there is to know about one address. */
  datatype Attributes = Attributes(backing: int, kernel: int, state: State, kind: nat, protect: nat)

  function At(b: Block, a: nat): Attributes {
    var kernelAddress := if b.kernelAddress == 0 then 0 else b.kernelAddress + a - b.base;
    Attributes(b.coreOfs + a - b.base, kernelAddress, b.state, b.kind, b.protect)
  }

  /** What the blocks say about address `a`. */
  function View(bs: seq<Block>, a: nat): Option<Attributes> {
    if bs == [] then None
    else if Contains(bs[|bs| - 1], a) then Some(At(bs[|bs| - 1], a))
    else View(bs[..|bs| - 1], a)
  }

  lemma {:induction false} ViewAppend(xs: seq<Block>, ys: seq<Block>, a: nat)
    ensures View(xs + ys, a) == if View(ys, a).Some? then View(ys, a) else View(xs, a)
  {
    if ys == [] {
      assert xs + ys == xs;
    } else {
      assert (xs + ys)[..|xs + ys| - 1] == xs + ys[..|ys| - 1];
      ViewAppend(xs, ys[..|ys| - 1], a);
    }
  }

  function SplitAt(bs: seq<Block>, i: nat, len: nat): seq<Block>
    requires i < |bs| && len <= bs[i].size
  {
    bs[..i] + [SplitLow(bs[i], len), SplitHigh(bs[i], len)] + bs[i + 1..]
  }

  /** Splitting changes nothing about any address: neither which are covered, nor the backing offset,
      kernel address, state, type and protection of any of them. */
  lemma SplitKeepsView(bs: seq<Block>, i: nat, len: nat, a: nat)
    requires i < |bs| && len <= bs[i].size
    ensures View(SplitAt(bs, i, len), a) == View(bs, a)
  {
    var b, lo, hi := bs[i], SplitLow(bs[i], len), SplitHigh(bs[i], len);
    assert bs == bs[..i] + [b] + bs[i + 1..];
    ViewAppend(bs[..i] + [b], bs[i + 1..], a);
    ViewAppend(bs[..i], [b], a);
    ViewAppend(bs[..i] + [lo, hi], bs[i + 1..], a);
    ViewAppend(bs[..i], [lo, hi], a);
    PairView(lo, hi, a);
    assert View([b], a) == if Contains(b, a) then Some(At(b, a)) else None;
  }

  lemma PairView(lo: Block, hi: Block, a: nat)
    ensures View([lo, hi], a)
         == if Contains(hi, a) then Some(At(hi, a)) else if Contains(lo, a) then Some(At(lo, a)) else None
  {
    assert [lo, hi][..1] == [lo] && [lo][..0] == [];
    assert View([lo], a) == if Contains(lo, a) then Some(At(lo, a)) else None;
  }

  /** Adjacent blocks without gap or overlap from `lo` to `hi`. */
  predicate Tiles(bs: seq<Block>, lo: nat, hi: nat) {
    if bs == [] then lo == hi
    else
      var b := bs[|bs| - 1];
      b.size > 0 && b.base + b.size == hi && Tiles(bs[..|bs| - 1], lo, b.base)
  }

  lemma {:induction false} TilesAppend(xs: seq<Block>, ys: seq<Block>, lo: nat, hi: nat)
    ensures Tiles(xs + ys, lo, hi) <==> exists mid: nat :: Tiles(xs, lo, mid) && Tiles(ys, mid, hi)
  {
    if ys == [] {
      assert xs + ys == xs;
      assert Tiles(xs, lo, hi) ==> Tiles(ys, hi, hi);
    } else {
      var last := ys[|ys| - 1];
      assert (xs + ys)[..|xs + ys| - 1] == xs + ys[..|ys| - 1];
      TilesAppend(xs, ys[..|ys| - 1], lo, last.base);
    }
  }

  lemma SplitKeepsTiles(bs: seq<Block>, i: nat, len: nat, lo: nat, hi: nat)
    requires i < |bs| && 0 < len < bs[i].size && Tiles(bs, lo, hi)
    ensures Tiles(SplitAt(bs, i, len), lo, hi)
  {
    var b, low, high := bs[i], SplitLow(bs[i], len), SplitHigh(bs[i], len);
    assert bs == bs[..i] + [b] + bs[i + 1..];
    TilesAppend(bs[..i] + [b], bs[i + 1..], lo, hi);
    var mid: nat :| Tiles(bs[..i] + [b], lo, mid) && Tiles(bs[i + 1..], mid, hi);
    assert (bs[..i] + [b])[..i] == bs[..i];
    assert (bs[..i] + [low, high])[..i + 1] == bs[..i] + [low] && (bs[..i] + [low])[..i] == bs[..i];
    assert Tiles(bs[..i] + [low], lo, b.base + len);
    assert Tiles(bs[..i] + [low, high], lo, mid);
    TilesAppend(bs[..i] + [low, high], bs[i + 1..], lo, hi);
  }

  // ------------------------------------------------ blocks, mappings, store

  /** The blocks over one backing store in address order, what the kernel and the client have mapped,
      byte by byte (to an offset into the store, for the client with the protection), and the store's
      reference count. `splits` is a history. */
  datatype World = World(
    blocks: seq<Block>,
    kernel: map<nat, int>,
    user: map<nat, (int, nat)>,
    refcount: int,
    deleted: bool,
    splits: nat)

  predicate InRange(a: nat, at: nat, size: nat) {
    at <= a < at + size
  }

  function Range(at: nat, size: nat): set<nat> {
    set a | at <= a < at + size && InRange(a, at, size)
  }

  function Mapped(at: nat, size: nat, ofs: int): map<nat, int> {
    map a | a in Range(at, size) :: ofs + a - at
  }

  function UserMapped(at: nat, size: nat, ofs: int, protect: nat): map<nat, (int, nat)> {
    map a | a in Range(at, size) :: (ofs + a - at, protect)
  }

  function Put(w: World, i: nat, b: Block): World
    requires i < |w.blocks|
  {
    w.(blocks := w.blocks[i := b])
  }

  /** alloc_core_pages: the store's own reference is given up once the block holds one.
      Protection and type are not initialised. */
  function Create(base: nat, size: nat, kind: nat, protect: nat): World {
    World([Block(base, size, Free, kind, protect, 0, 0)], map[], map[], 1 + 1 - 1, false, 0)
  }

  /** split, with the two references corepages::do_split and the constructor take. */
  function Split(w: World, i: nat, len: nat): World
    requires i < |w.blocks| && len <= w.blocks[i].size
  {
    if w.blocks[i].size == len then w
    else w.(blocks := SplitAt(w.blocks, i, len), refcount := w.refcount + 2, splits := w.splits + 1)
  }

  /** commit: `k` is where mmap put the block in the kernel, `r` what mmap in the client returned. */
  function CommitBlock(b: Block, k: nat): Block {
    if b.state == Committed then b else b.(state := Committed, kind := MEM_PRIVATE, kernelAddress := k)
  }

  function CommitKernelMap(kernel: map<nat, int>, b: Block, k: nat): map<nat, int> {
    if b.state == Committed then kernel else kernel + Mapped(k, b.size, b.coreOfs)
  }

  function CommitUserMap(user: map<nat, (int, nat)>, b: Block, r: int): map<nat, (int, nat)> {
    if r == 0 then user + UserMapped(b.base, b.size, b.coreOfs, b.protect) else user
  }

  function Commit(w: World, i: nat, k: nat, r: int): World
    requires i < |w.blocks|
  {
    var b := w.blocks[i];
    Put(w, i, CommitBlock(b, k)).(kernel := CommitKernelMap(w.kernel, b, k), user := CommitUserMap(w.user, b, r))
  }

  function UncommitBlock(b: Block): Block {
    if b.state != Committed then b else b.(state := Reserved, kernelAddress := 0)
  }

  function UncommitKernelMap(kernel: map<nat, int>, b: Block): map<nat, int> {
    if b.state == Committed && b.kernelAddress != 0 then kernel - Range(b.kernelAddress, b.size) else kernel
  }

  function UncommitUserMap(user: map<nat, (int, nat)>, b: Block): map<nat, (int, nat)> {
    if b.state == Committed then user - Range(b.base, b.size) else user
  }

  function Uncommit(w: World, i: nat): World
    requires i < |w.blocks|
  {
    var b := w.blocks[i];
    Put(w, i, UncommitBlock(b)).(kernel := UncommitKernelMap(w.kernel, b), user := UncommitUserMap(w.user, b))
  }

  function ReserveBlock(b: Block): Block {
    if b.state == Reserved then b else b.(state := Reserved, protect := 0, kind := MEM_PRIVATE)
  }

  function UnreserveBlock(b: Block): Block {
    if b.state != Reserved then b else b.(state := Free, protect := 0, kind := 0)
  }

  /** delete of a block, which releases its reference; the store goes with the last one. */
  function Destroy(w: World, i: nat): World
    requires i < |w.blocks|
  {
    w.(blocks := Drop(w.blocks, i), refcount := w.refcount - 1, deleted := w.deleted || w.refcount == 1)
  }

  datatype Event =
    | Splitting(i: nat, len: nat)
    | Committing(i: nat, k: nat, r: int)
    | Uncommitting(i: nat)
    | Reserving(i: nat)
    | Unreserving(i: nat)
    | Protecting(i: nat, protect: nat)
    | Destroying(i: nat)

  /** The asserts of each operation, and that mmap returns a free range when it succeeds. */
  ghost predicate Enabled(w: World, e: Event) {
    && e.i < |w.blocks|
    && match e
       case Splitting(i, len) => CanSplit(w.blocks[i], len)
       case Committing(i, k, r) =>
         r <= 0 && (w.blocks[i].state != Committed ==> k > 0 && w.kernel.Keys !! Range(k, w.blocks[i].size))
       case Uncommitting(_) => true
       case Reserving(i) => w.blocks[i].state != Committed
       case Unreserving(i) => w.blocks[i].state != Committed
       case Protecting(_, _) => true
       case Destroying(i) => w.blocks[i].state == Free
  }

  function Step(w: World, e: Event): World
    requires e.i < |w.blocks| && (e.Splitting? ==> e.len <= w.blocks[e.i].size)
  {
    match e
    case Splitting(i, len) => Split(w, i, len)
    case Committing(i, k, r) => Commit(w, i, k, r)
    case Uncommitting(i) => Uncommit(w, i)
    case Reserving(i) => Put(w, i, ReserveBlock(w.blocks[i]))
    case Unreserving(i) => Put(w, i, UnreserveBlock(w.blocks[i]))
    case Protecting(i, protect) => Put(w, i, w.blocks[i].(protect := protect))
    case Destroying(i) => Destroy(w, i)
  }

  // ---------------------------------------------------------------- invariant

  /** The blocks are whole pages, lie in order without overlap, and each names the part of the store
      that belongs to its addresses. */
  ghost predicate Placed(bs: seq<Block>, origin: nat) {
    && (forall i :: 0 <= i < |bs| ==>
          && bs[i].size > 0 && bs[i].size % 0x1000 == 0
          && bs[i].base >= origin && bs[i].coreOfs == bs[i].base - origin)
    && Ordered(bs)
  }

  ghost predicate Ordered(bs: seq<Block>) {
    forall i, j :: 0 <= i < j < |bs| ==> bs[i].base + bs[i].size <= bs[j].base
  }

  predicate InKernel(b: Block, k: nat) {
    b.kernelAddress != 0 && b.kernelAddress <= k < b.kernelAddress + b.size
  }

  /** In the kernel the block shows its part of the store. */
  ghost predicate Shows(kernel: map<nat, int>, b: Block) {
    forall k :: InKernel(b, k) ==> k in kernel && kernel[k] == b.coreOfs + k - b.kernelAddress
  }

  predicate KernelDisjoint(b: Block, c: Block) {
    b.kernelAddress == 0 || c.kernelAddress == 0
    || b.kernelAddress + b.size <= c.kernelAddress || c.kernelAddress + c.size <= b.kernelAddress
  }

  ghost predicate Held(bs: seq<Block>, k: nat) {
    exists i :: 0 <= i < |bs| && InKernel(bs[i], k)
  }

  /** A block has a kernel address exactly when it is committed, and is mapped there. */
  ghost predicate KernelShown(kernel: map<nat, int>, bs: seq<Block>) {
    forall i :: 0 <= i < |bs| ==> (bs[i].state == Committed <==> bs[i].kernelAddress != 0) && Shows(kernel, bs[i])
  }

  predicate KernelApart(bs: seq<Block>) {
    forall i, j :: 0 <= i < j < |bs| ==> KernelDisjoint(bs[i], bs[j])
  }

  /** The kernel's mappings are those of the committed blocks, all of them and no others, and do not
      overlap. */
  ghost predicate KernelOk(kernel: map<nat, int>, bs: seq<Block>) {
    && KernelShown(kernel, bs) && KernelApart(bs)
    && (forall k :: k in kernel ==> Held(bs, k))
  }

  /** The client sees the same part of the store at an address as the kernel does, and nothing at an
      address that is not committed. */
  ghost predicate UserOk(user: map<nat, (int, nat)>, bs: seq<Block>, origin: nat) {
    && (forall a :: a in user ==> a >= origin && user[a].0 == a - origin)
    && (forall i, a :: 0 <= i < |bs| && Contains(bs[i], a) && bs[i].state != Committed ==> a !in user)
  }

  /** Memory that is not free is private. */
  predicate Typed(bs: seq<Block>) {
    forall i :: 0 <= i < |bs| && bs[i].state != Free ==> bs[i].kind == MEM_PRIVATE
  }

  ghost predicate Inv(w: World, origin: nat) {
    && Typed(w.blocks)
    && Placed(w.blocks, origin) && KernelOk(w.kernel, w.blocks) && UserOk(w.user, w.blocks, origin)
    && w.refcount == |w.blocks| + w.splits && (w.deleted <==> w.refcount == 0)
  }

  // ------------------------------------------------------------- preservation

  /** Where the blocks of a split sequence come from. */
  lemma SplitElements(bs: seq<Block>, i: nat, len: nat)
    requires i < |bs| && len <= bs[i].size
    ensures |SplitAt(bs, i, len)| == |bs| + 1
    ensures forall j :: 0 <= j <= |bs| && j != i && j != i + 1 ==>
      SplitAt(bs, i, len)[j] == bs[if j < i then j else j - 1]
    ensures SplitAt(bs, i, len)[i] == SplitLow(bs[i], len) && SplitAt(bs, i, len)[i + 1] == SplitHigh(bs[i], len)
  {
  }

  lemma SplitOrdered(bs: seq<Block>, i: nat, len: nat)
    requires Ordered(bs) && i < |bs| && 0 < len < bs[i].size
    ensures Ordered(SplitAt(bs, i, len))
  {
    var bs' := SplitAt(bs, i, len);
    SplitElements(bs, i, len);
    forall j, k | 0 <= j < k < |bs'| ensures bs'[j].base + bs'[j].size <= bs'[k].base {
      var j0, k0 := if j <= i then j else j - 1, if k <= i then k else k - 1;
      assert j0 < k0 ==> bs[j0].base + bs[j0].size <= bs[k0].base;
    }
  }

  lemma SplitPlaced(bs: seq<Block>, i: nat, len: nat, origin: nat)
    requires Placed(bs, origin) && i < |bs| && 0 < len < bs[i].size && len % 0x1000 == 0
    ensures Placed(SplitAt(bs, i, len), origin)
  {
    SplitElements(bs, i, len);
    PagesDiffer(bs[i].size, len);
    SplitOrdered(bs, i, len);
  }

  lemma PagesDiffer(m: nat, n: nat)
    requires n <= m && m % 0x1000 == 0 && n % 0x1000 == 0
    ensures (m - n) % 0x1000 == 0
  {
  }

  lemma SplitShown(kernel: map<nat, int>, bs: seq<Block>, i: nat, len: nat)
    requires KernelShown(kernel, bs) && i < |bs| && 0 < len < bs[i].size
    ensures KernelShown(kernel, SplitAt(bs, i, len))
  {
    SplitElements(bs, i, len);
    var b, lo, hi := bs[i], SplitLow(bs[i], len), SplitHigh(bs[i], len);
    assert Shows(kernel, lo) && Shows(kernel, hi) by {
      assert Shows(kernel, b);
      assert forall k :: InKernel(lo, k) || InKernel(hi, k) ==> InKernel(b, k);
    }
  }

  lemma SplitApart(bs: seq<Block>, i: nat, len: nat)
    requires KernelApart(bs) && i < |bs| && 0 < len < bs[i].size
    ensures KernelApart(SplitAt(bs, i, len))
  {
    var bs' := SplitAt(bs, i, len);
    SplitElements(bs, i, len);
    forall j, k | 0 <= j < k < |bs'| ensures KernelDisjoint(bs'[j], bs'[k]) {
      var j0, k0 := if j <= i then j else j - 1, if k <= i then k else k - 1;
      assert j0 < k0 ==> KernelDisjoint(bs[j0], bs[k0]);
    }
  }

  lemma SplitHeld(bs: seq<Block>, i: nat, len: nat, k: nat)
    requires Held(bs, k) && i < |bs| && 0 < len < bs[i].size
    ensures Held(SplitAt(bs, i, len), k)
  {
    SplitElements(bs, i, len);
    var j :| 0 <= j < |bs| && InKernel(bs[j], k);
    var j' := if j < i then j else if j > i then j + 1 else if InKernel(SplitLow(bs[i], len), k) then i else i + 1;
    assert InKernel(SplitAt(bs, i, len)[j'], k);
  }

  lemma SplitUser(user: map<nat, (int, nat)>, bs: seq<Block>, i: nat, len: nat, origin: nat)
    requires UserOk(user, bs, origin) && i < |bs| && 0 < len < bs[i].size
    ensures UserOk(user, SplitAt(bs, i, len), origin)
  {
    var bs' := SplitAt(bs, i, len);
    SplitElements(bs, i, len);
    forall j, a | 0 <= j < |bs'| && Contains(bs'[j], a) && bs'[j].state != Committed ensures a !in user {
      var j0 := if j <= i then j else j - 1;
      assert Contains(bs[j0], a) && bs[j0].state == bs'[j].state;
    }
  }

  lemma SplitKeeps(w: World, i: nat, len: nat, origin: nat)
    requires Inv(w, origin) && i < |w.blocks| && CanSplit(w.blocks[i], len)
    ensures Inv(Split(w, i, len), origin)
  {
    if len < w.blocks[i].size {
      SplitElements(w.blocks, i, len);
      SplitPlaced(w.blocks, i, len, origin);
      SplitShown(w.kernel, w.blocks, i, len);
      SplitApart(w.blocks, i, len);
      forall k | k in w.kernel ensures Held(Split(w, i, len).blocks, k) { SplitHeld(w.blocks, i, len, k); }
      SplitUser(w.user, w.blocks, i, len, origin);
    }
  }

  lemma CommitKernel(kernel: map<nat, int>, bs: seq<Block>, i: nat, k: nat, b: Block)
    requires KernelOk(kernel, bs) && i < |bs| && bs[i].kernelAddress == 0
    requires forall j :: 0 <= j < |bs| ==> bs[j].size > 0
    requires b.base == bs[i].base && b.size == bs[i].size && b.coreOfs == bs[i].coreOfs
    requires b.state == Committed && b.kernelAddress == k > 0 && kernel.Keys !! Range(k, b.size)
    ensures KernelOk(kernel + Mapped(k, b.size, b.coreOfs), bs[i := b])
  {
    var kernel' := kernel + Mapped(k, b.size, b.coreOfs);
    var bs' := bs[i := b];
    forall j | 0 <= j < |bs|
      ensures (bs'[j].state == Committed <==> bs'[j].kernelAddress != 0) && Shows(kernel', bs'[j])
    {
      assert Shows(kernel, bs[j]);
      if j != i { assert forall q :: InKernel(bs[j], q) ==> q in kernel && q !in Range(k, b.size); }
    }
    forall j | 0 <= j < |bs| && j != i ensures KernelDisjoint(b, bs[j]) && KernelDisjoint(bs[j], b) {
      assert Shows(kernel, bs[j]);
      FreshIsDisjoint(kernel, bs[j], b);
    }
    forall q | q in kernel' ensures Held(bs', q) {
      if q in kernel {
        var j :| 0 <= j < |bs| && InKernel(bs[j], q);
        assert InKernel(bs'[j], q);
      } else {
        assert InKernel(bs'[i], q);
      }
    }
  }

  /** A range free of mappings does not meet a block that is mapped. */
  lemma FreshIsDisjoint(kernel: map<nat, int>, c: Block, b: Block)
    requires Shows(kernel, c) && c.size > 0 && b.size > 0 && b.kernelAddress > 0
    requires kernel.Keys !! Range(b.kernelAddress, b.size)
    ensures KernelDisjoint(b, c) && KernelDisjoint(c, b)
  {
    var k := if b.kernelAddress >= c.kernelAddress then b.kernelAddress else c.kernelAddress;
    assert InKernel(c, k) ==> k in kernel;
    assert InRange(k, b.kernelAddress, b.size) ==> k in Range(b.kernelAddress, b.size);
  }

  lemma UncommitKernel(kernel: map<nat, int>, bs: seq<Block>, i: nat, b: Block)
    requires KernelOk(kernel, bs) && i < |bs| && bs[i].kernelAddress != 0
    requires b.size == bs[i].size && b.state != Committed && b.kernelAddress == 0
    ensures KernelOk(kernel - Range(bs[i].kernelAddress, b.size), bs[i := b])
  {
    var gone := Range(bs[i].kernelAddress, b.size);
    var bs' := bs[i := b];
    forall j | 0 <= j < |bs| && j != i ensures KernelDisjoint(bs[j], bs[i]) && Shows(kernel, bs[j]) {
      assert j < i ==> KernelDisjoint(bs[j], bs[i]);
      assert i < j ==> KernelDisjoint(bs[i], bs[j]);
    }
    forall q | q in kernel - gone ensures Held(bs', q) {
      var j :| 0 <= j < |bs| && InKernel(bs[j], q);
      assert j != i ==> InKernel(bs'[j], q);
      assert InKernel(bs[i], q) ==> InRange(q, bs[i].kernelAddress, b.size);
    }
  }

  /** The same addresses, backing and mapping. */
  predicate Alike(b: Block, c: Block) {
    && b == c.(state := b.state, kind := b.kind, protect := b.protect)
    && (b.state == Committed <==> c.state == Committed)
  }

  lemma PutKernel(kernel: map<nat, int>, bs: seq<Block>, i: nat, b: Block)
    requires KernelOk(kernel, bs) && i < |bs| && Alike(b, bs[i])
    ensures KernelOk(kernel, bs[i := b])
  {
    var bs' := bs[i := b];
    assert Shows(kernel, b) by {
      assert Shows(kernel, bs[i]);
      assert forall k :: InKernel(b, k) ==> InKernel(bs[i], k);
    }
    forall j, k | 0 <= j < k < |bs| ensures KernelDisjoint(bs'[j], bs'[k]) {
      assert KernelDisjoint(bs[j], bs[k]);
    }
    forall k | k in kernel ensures Held(bs', k) {
      var j :| 0 <= j < |bs| && InKernel(bs[j], k);
      assert InKernel(bs'[j], k);
    }
  }

  lemma PutUser(user: map<nat, (int, nat)>, bs: seq<Block>, i: nat, b: Block, origin: nat)
    requires UserOk(user, bs, origin) && i < |bs| && Alike(b, bs[i])
    ensures UserOk(user, bs[i := b], origin)
  {
    var bs' := bs[i := b];
    forall j, a | 0 <= j < |bs'| && Contains(bs'[j], a) && bs'[j].state != Committed ensures a !in user {
      assert Contains(bs[j], a);
    }
  }

  lemma PutKeeps(w: World, i: nat, b: Block, origin: nat)
    requires Inv(w, origin) && i < |w.blocks| && Alike(b, w.blocks[i]) && Typed([b])
    ensures Inv(Put(w, i, b), origin)
  {
    PutKernel(w.kernel, w.blocks, i, b);
    PutUser(w.user, w.blocks, i, b, origin);
    assert [b][0] == b;
  }

  lemma CommitUser(user: map<nat, (int, nat)>, bs: seq<Block>, i: nat, b: Block, origin: nat)
    requires UserOk(user, bs, origin) && Placed(bs, origin) && i < |bs|
    requires b.base == bs[i].base && b.size == bs[i].size && b.coreOfs == bs[i].coreOfs && b.state == Committed
    ensures UserOk(user, bs[i := b], origin)
    ensures UserOk(user + UserMapped(b.base, b.size, b.coreOfs, b.protect), bs[i := b], origin)
  {
    var user', bs' := user + UserMapped(b.base, b.size, b.coreOfs, b.protect), bs[i := b];
    forall j, a | 0 <= j < |bs'| && Contains(bs'[j], a) && bs'[j].state != Committed
      ensures a !in user && a !in user'
    {
      assert j != i && Contains(bs[j], a);
      assert j < i ==> bs[j].base + bs[j].size <= bs[i].base;
      assert i < j ==> bs[i].base + bs[i].size <= bs[j].base;
    }
  }

  lemma CommitKeeps(w: World, i: nat, k: nat, r: int, origin: nat)
    requires Inv(w, origin) && Enabled(w, Committing(i, k, r))
    ensures Inv(Commit(w, i, k, r), origin)
  {
    var b := w.blocks[i];
    var b' := CommitBlock(b, k);
    if b.state != Committed { CommitKernel(w.kernel, w.blocks, i, k, b'); }
    CommitUser(w.user, w.blocks, i, b', origin);
    assert w.blocks[i := b] == w.blocks;
  }

  lemma UncommitKeeps(w: World, i: nat, origin: nat)
    requires Inv(w, origin) && i < |w.blocks|
    ensures Inv(Uncommit(w, i), origin)
  {
    var b := w.blocks[i];
    if b.state == Committed {
      var b' := UncommitBlock(b);
      var bs' := w.blocks[i := b'];
      UncommitKernel(w.kernel, w.blocks, i, b');
      forall j, a | 0 <= j < |bs'| && Contains(bs'[j], a) && bs'[j].state != Committed
        ensures a !in w.user - Range(b.base, b.size)
      {
        if j == i { assert InRange(a, b.base, b.size); } else { assert Contains(w.blocks[j], a); }
      }
    } else {
      assert w.blocks[i := b] == w.blocks;
    }
  }

  function Drop(bs: seq<Block>, i: nat): seq<Block>
    requires i < |bs|
  {
    bs[..i] + bs[i + 1..]
  }

  lemma DropPlaced(bs: seq<Block>, i: nat, origin: nat)
    requires Placed(bs, origin) && i < |bs|
    ensures Placed(Drop(bs, i), origin)
  {
    assert forall j :: 0 <= j < |bs| - 1 ==> Drop(bs, i)[j] == bs[if j < i then j else j + 1];
  }

  lemma DropKernel(kernel: map<nat, int>, bs: seq<Block>, i: nat)
    requires KernelOk(kernel, bs) && i < |bs| && bs[i].kernelAddress == 0
    ensures KernelOk(kernel, Drop(bs, i))
  {
    var bs' := Drop(bs, i);
    assert forall j :: 0 <= j < |bs'| ==> bs'[j] == bs[if j < i then j else j + 1];
    assert KernelApart(bs') by { DropApart(bs, i); }
    forall k | k in kernel ensures Held(bs', k) {
      DropHeld(bs, i, k);
    }
  }

  lemma DropApart(bs: seq<Block>, i: nat)
    requires KernelApart(bs) && i < |bs|
    ensures KernelApart(Drop(bs, i))
  {
    var bs' := Drop(bs, i);
    forall j, k | 0 <= j < k < |bs'| ensures KernelDisjoint(bs'[j], bs'[k]) {
      assert KernelDisjoint(bs[if j < i then j else j + 1], bs[if k < i then k else k + 1]);
    }
  }

  lemma DropHeld(bs: seq<Block>, i: nat, k: nat)
    requires Held(bs, k) && i < |bs| && bs[i].kernelAddress == 0
    ensures Held(Drop(bs, i), k)
  {
    var j :| 0 <= j < |bs| && InKernel(bs[j], k);
    assert InKernel(Drop(bs, i)[if j < i then j else j - 1], k);
  }

  lemma DropUser(user: map<nat, (int, nat)>, bs: seq<Block>, i: nat, origin: nat)
    requires UserOk(user, bs, origin) && i < |bs|
    ensures UserOk(user, Drop(bs, i), origin)
  {
    var bs' := Drop(bs, i);
    forall j, a | 0 <= j < |bs'| && Contains(bs'[j], a) && bs'[j].state != Committed ensures a !in user {
      assert Contains(bs[if j < i then j else j + 1], a);
    }
  }

  lemma DestroyKeeps(w: World, i: nat, origin: nat)
    requires Inv(w, origin) && i < |w.blocks| && w.blocks[i].state == Free
    ensures Inv(Destroy(w, i), origin)
  {
    DropPlaced(w.blocks, i, origin);
    DropKernel(w.kernel, w.blocks, i);
    DropUser(w.user, w.blocks, i, origin);
    DropTyped(w.blocks, i);
  }

  lemma DropTyped(bs: seq<Block>, i: nat)
    requires Typed(bs) && i < |bs|
    ensures Typed(Drop(bs, i))
  {
    assert forall j :: 0 <= j < |bs| - 1 ==> Drop(bs, i)[j] == bs[if j < i then j else j + 1];
  }

  /** Every operation that passes its asserts keeps the invariant. */
  lemma StepKeeps(w: World, e: Event, origin: nat)
    requires Inv(w, origin) && Enabled(w, e)
    ensures Inv(Step(w, e), origin)
  {
    match e
    case Splitting(i, len) => SplitKeeps(w, i, len, origin);
    case Committing(i, k, r) => CommitKeeps(w, i, k, r, origin);
    case Uncommitting(i) => UncommitKeeps(w, i, origin);
    case Reserving(i) => PutKeeps(w, i, ReserveBlock(w.blocks[i]), origin);
    case Unreserving(i) => PutKeeps(w, i, UnreserveBlock(w.blocks[i]), origin);
    case Protecting(i, protect) => PutKeeps(w, i, w.blocks[i].(protect := protect), origin);
    case Destroying(i) => DestroyKeeps(w, i, origin);
  }

  // ------------------------------------------------------------- what each operation does

  /** The states of a block: commit, uncommit, reserve and unreserve lead to committed, reserved or left
      alone, reserved, and free. */
  function NextState(s: State, e: Event): State {
    match e
    case Committing(_, _, _) => Committed
    case Uncommitting(_) => if s == Committed then Reserved else s
    case Reserving(_) => Reserved
    case Unreserving(_) => Free
    case _ => s
  }

  /** The protection: it is cleared when a block is reserved or freed, and survives committing. */
  function NextProtect(s: State, protect: nat, e: Event): nat {
    match e
    case Reserving(_) => if s == Free then 0 else protect
    case Unreserving(_) => if s == Reserved then 0 else protect
    case Protecting(_, p) => p
    case _ => protect
  }

  /** Every operation on a whole block leads it to that state with that protection, and to the type that
      belongs to the state; it changes neither its place nor any other block. */
  lemma StateMachine(w: World, e: Event, origin: nat)
    requires Inv(w, origin) && Enabled(w, e) && !e.Splitting? && !e.Destroying?
    ensures var b, bs' := w.blocks[e.i], Step(w, e).blocks;
      && |bs'| == |w.blocks| && (forall j :: 0 <= j < |bs'| && j != e.i ==> bs'[j] == w.blocks[j])
      && bs'[e.i].base == b.base && bs'[e.i].size == b.size && bs'[e.i].coreOfs == b.coreOfs
      && bs'[e.i].state == NextState(b.state, e) && bs'[e.i].protect == NextProtect(b.state, b.protect, e)
      && (bs'[e.i].state != Free ==> bs'[e.i].kind == 0x20000)
      && (b.state == Reserved && bs'[e.i].state == Free ==> bs'[e.i].kind == 0)
      && (e.Committing? && b.state != Committed ==> bs'[e.i].kernelAddress == e.k)
    ensures !e.Committing? && !e.Uncommitting? ==> Step(w, e).kernel == w.kernel && Step(w, e).user == w.user
    ensures e.Committing? && w.blocks[e.i].state == Committed ==>
      Step(w, e).kernel == w.kernel && Step(w, e).blocks == w.blocks
    ensures e.Committing? && e.r != 0 ==> Step(w, e).user == w.user
    ensures e.Uncommitting? && w.blocks[e.i].state != Committed ==> Step(w, e) == w
    ensures Step(w, e).refcount == w.refcount && Step(w, e).deleted == w.deleted && Step(w, e).splits == w.splits
  {
    StepKeeps(w, e, origin);
  }

  /** Deleting a block takes that block away and leaves the others and all mappings. */
  lemma DestroyIsLocal(w: World, i: nat, j: nat)
    requires i < |w.blocks| && j < |w.blocks| - 1
    ensures var w' := Destroy(w, i);
      && |w'.blocks| == |w.blocks| - 1 && w'.blocks[j] == w.blocks[if j < i then j else j + 1]
      && w'.kernel == w.kernel && w'.user == w.user
  {
  }

  /** Committing a reserved block and uncommitting it again restores everything: the block, what the
      kernel maps and what the client maps. */
  lemma CommitThenUncommit(w: World, i: nat, k: nat, r: int, origin: nat)
    requires Inv(w, origin) && Enabled(w, Committing(i, k, r)) && w.blocks[i].state == Reserved
    ensures Uncommit(Commit(w, i, k, r), i) == w
  {
    var b, w' := w.blocks[i], Uncommit(Commit(w, i, k, r), i);
    assert b.kernelAddress == 0;
    MapThenUnmap(w.kernel, k, b.size, b.coreOfs);
    assert w.user.Keys !! Range(b.base, b.size) by {
      assert forall a :: a in Range(b.base, b.size) ==> Contains(b, a);
    }
    assert w.user + UserMapped(b.base, b.size, b.coreOfs, b.protect) - Range(b.base, b.size) == w.user;
    assert w.user - Range(b.base, b.size) == w.user;
    assert w'.blocks == w.blocks;
  }

  lemma MapThenUnmap(kernel: map<nat, int>, k: nat, size: nat, ofs: int)
    requires kernel.Keys !! Range(k, size)
    ensures kernel + Mapped(k, size, ofs) - Range(k, size) == kernel
  {
  }

  // ---------------------------------------------------------------------- runs

  ghost function Run(w: World, es: seq<Event>, origin: nat): (r: Option<World>)
    requires Inv(w, origin)
    ensures r.Some? ==> Inv(r.value, origin)
  {
    if es == [] then Some(w) else
    var before := Run(w, es[..|es| - 1], origin);
    var e := es[|es| - 1];
    if before.None? || !Enabled(before.value, e) then None else
    StepKeeps(before.value, e, origin);
    Some(Step(before.value, e))
  }

  lemma CreateIsInv(base: nat, size: nat, kind: nat, protect: nat)
    requires size > 0 && size % 0x1000 == 0
    ensures Inv(Create(base, size, kind, protect), base)
    ensures Tiles(Create(base, size, kind, protect).blocks, base, base + size)
  {
    var b := Create(base, size, kind, protect).blocks;
    assert b[..0] == [];
  }

  /** Any sequence of splits leaves pieces that tile the original range, and changes nothing about
      any address. */
  lemma {:induction false} SplitsKeepEverything(w: World, es: seq<Event>, origin: nat, lo: nat, hi: nat, a: nat)
    requires Inv(w, origin) && Tiles(w.blocks, lo, hi) && Run(w, es, origin).Some?
    requires forall i :: 0 <= i < |es| ==> es[i].Splitting?
    ensures var w' := Run(w, es, origin).value;
      && Tiles(w'.blocks, lo, hi) && View(w'.blocks, a) == View(w.blocks, a)
      && w'.kernel == w.kernel && w'.user == w.user
  {
    if es != [] {
      SplitsKeepEverything(w, es[..|es| - 1], origin, lo, hi, a);
      var before := Run(w, es[..|es| - 1], origin).value;
      var e := es[|es| - 1];
      if before.blocks[e.i].size != e.len {
        SplitKeepsTiles(before.blocks, e.i, e.len, lo, hi);
        SplitKeepsView(before.blocks, e.i, e.len, a);
      }
    }
  }

  /** The store outlives its blocks, and is freed with the last one only if no block was ever split:
      each split leaves a reference behind that nothing releases. */
  lemma StoreDeletedExactly(w: World, origin: nat)
    requires Inv(w, origin)
    ensures w.deleted <==> w.blocks == [] && w.splits == 0
  {
  }

  /** Uncommitting a block takes away exactly its own mappings. */
  lemma UncommitIsLocal(w: World, i: nat, j: nat, origin: nat)
    requires Inv(w, origin) && i < |w.blocks| && j < |w.blocks| && i != j
    ensures var w' := Uncommit(w, i);
      && w'.blocks[j] == w.blocks[j]
      && (forall k :: InKernel(w.blocks[j], k) ==> k in w.kernel && k in w'.kernel && w'.kernel[k] == w.kernel[k])
      && (forall a :: Contains(w.blocks[j], a) ==>
            (a in w'.user <==> a in w.user) && (a in w.user ==> w'.user[a] == w.user[a]))
      && (forall k :: k in w'.kernel ==> !InKernel(w.blocks[i], k))
      && (w.blocks[i].state == Committed ==> forall a :: Contains(w.blocks[i], a) ==> a !in w'.user)
  {
    var b, c := w.blocks[i], w.blocks[j];
    assert i < j ==> b.base + b.size <= c.base && KernelDisjoint(b, c);
    assert j < i ==> c.base + c.size <= b.base && KernelDisjoint(c, b);
    assert Shows(w.kernel, c);
    assert forall k :: InKernel(b, k) ==> InRange(k, b.kernelAddress, b.size);
    assert forall a :: Contains(b, a) ==> InRange(a, b.base, b.size);
  }

  /** At every address of a committed block the kernel sees the byte of the store that belongs to it;
      where the client has it mapped, it sees the same byte. */
  lemma KernelAndClientAgree(w: World, i: nat, origin: nat, a: nat)
    requires Inv(w, origin) && i < |w.blocks| && w.blocks[i].state == Committed && Contains(w.blocks[i], a)
    ensures var k := w.blocks[i].kernelAddress + a - w.blocks[i].base;
      k in w.kernel && w.kernel[k] == a - origin && (a in w.user ==> w.user[a].0 == w.kernel[k])
  {
    assert Shows(w.kernel, w.blocks[i]);
    assert InKernel(w.blocks[i], w.blocks[i].kernelAddress + a - w.blocks[i].base);
  }

  /** A successful commit maps every address of the block in the client, with its protection. */
  lemma CommitMapsClient(w: World, i: nat, k: nat, origin: nat, a: nat)
    requires Placed(w.blocks, origin) && i < |w.blocks| && Contains(w.blocks[i], a)
    ensures var w' := Commit(w, i, k, 0);
      w'.blocks[i].state == Committed && a in w'.user && w'.user[a] == (a - origin, w.blocks[i].protect)
  {
    assert InRange(a, w.blocks[i].base, w.blocks[i].size);
  }

  /** Committing a block leaves the other blocks alone. */
  lemma CommitIsLocal(w: World, i: nat, k: nat, r: int, j: nat, origin: nat, a: nat)
    requires Placed(w.blocks, origin) && i < |w.blocks| && j < |w.blocks| && i != j && Contains(w.blocks[j], a)
    ensures var w' := Commit(w, i, k, r);
      && w'.blocks[j] == w.blocks[j]
      && (a in w'.user <==> a in w.user) && (a in w.user ==> w'.user[a] == w.user[a])
  {
    var b, c := w.blocks[i], w.blocks[j];
    assert i < j ==> b.base + b.size <= c.base;
    assert j < i ==> c.base + c.size <= b.base;
    assert a !in Range(b.base, b.size);
  }
}
