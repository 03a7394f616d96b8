/** The block, backing store and mapping objects of kernel/block.cpp, updated in place as the
    operations of `MemoryBlocks` say. */
module MemoryBlockObjects {
  import opened MemoryBlocks

  /** anonymous_pages_t. */
  class AnonymousPages {
    var refcount: int
    var deleted: bool

    constructor ()
      ensures refcount == 1 && !deleted
    {
      refcount, deleted := 1, false;
    }

    method AddRef()
      modifies this
      ensures refcount == old(refcount) + 1 && deleted == old(deleted)
    {
      refcount := refcount + 1;
    }

    method Release()
      modifies this
      ensures refcount == old(refcount) - 1 && (deleted <==> old(deleted) || refcount == 0)
    {
      refcount := refcount - 1;
      if refcount == 0 { deleted := true; }
    }
  }

  /** What mmap and munmap did, in the kernel and in one client. */
  class Mappings {
    var kernel: map<nat, int>
    var user: map<nat, (int, nat)>

    constructor ()
      ensures kernel == map[] && user == map[]
    {
      kernel, user := map[], map[];
    }
  }

  /** corepages, without tracer and section. */
  class CorePages {
    var base: nat
    var size: nat
    var state: State
    var kind: nat
    var protect: nat
    var kernelAddress: nat
    var coreOfs: nat
    const backing: AnonymousPages

    ghost function Abs(): Block
      reads this
    {
      Block(base, size, state, kind, protect, kernelAddress, coreOfs)
    }

    /** `kind` and `protect` are whatever the memory held. */
    constructor (address: nat, sz: nat, store: AnonymousPages, someKind: nat, someProtect: nat)
      modifies store
      ensures Abs() == Block(address, sz, Free, someKind, someProtect, 0, 0) && backing == store
      ensures store.refcount == old(store.refcount) + 1 && store.deleted == old(store.deleted)
    {
      base, size, state, kernelAddress, coreOfs := address, sz, Free, 0, 0;
      kind, protect, backing := someKind, someProtect, store;
      new;
      store.AddRef();
    }

    method DoSplit(address: nat, sz: nat, someKind: nat, someProtect: nat) returns (rest: CorePages)
      requires sz <= size
      modifies backing
      ensures fresh(rest) && rest.backing == backing
      ensures rest.Abs() == Block(address, sz, Free, someKind, someProtect, 0, coreOfs + size - sz)
      ensures backing.refcount == old(backing.refcount) + 2 && backing.deleted == old(backing.deleted)
    {
      backing.AddRef();
      rest := new CorePages(address, sz, backing, someKind, someProtect);
      rest.coreOfs := coreOfs + size - sz;
    }

    /** The new block takes over the end of this one; `null` when there is nothing to split off. */
    method Split(len: nat, someKind: nat, someProtect: nat) returns (rest: CorePages?)
      requires CanSplit(Abs(), len) && size % 0x1000 == 0
      modifies this`size, backing
      ensures rest == null <==> old(size) == len
      ensures rest == null ==> Abs() == old(Abs()) && backing.refcount == old(backing.refcount)
      ensures rest != null ==>
        && fresh(rest) && rest.backing == backing
        && Abs() == SplitLow(old(Abs()), len) && rest.Abs() == SplitHigh(old(Abs()), len)
      ensures rest != null ==> backing.refcount == old(backing.refcount) + 2
      ensures backing.deleted == old(backing.deleted)
    {
      if size == len { return null; }
      assert len < size;
      rest := DoSplit(base + len, size - len, someKind, someProtect);
      size := len;
      rest.state := state;
      rest.kind := kind;
      rest.protect := protect;
      if kernelAddress != 0 { rest.kernelAddress := kernelAddress + size; }
      assert size % 0x1000 == 0 && rest.size % 0x1000 == 0;
      assert base < rest.base && base + size == rest.base;
    }

    /** `k1` and `k2` are what mmap returns to the two attempts, zero for a failure; `r` is what mmap in
        the client returns. `ok == false` is a call of die. */
    method Commit(vm: Mappings, k1: nat, k2: nat, r: int) returns (ok: bool)
      modifies this, vm
      ensures ok <==> r <= 0 && (old(state) == Committed || k1 != 0 || k2 != 0)
      ensures ok ==>
        var b, k := old(Abs()), if k1 != 0 then k1 else k2;
        && Abs() == CommitBlock(b, k)
        && vm.kernel == CommitKernelMap(old(vm.kernel), b, k) && vm.user == CommitUserMap(old(vm.user), b, r)
    {
      if state != Committed {
        state := Committed;
        kind := MEM_PRIVATE;
        var k := if k1 != 0 then k1 else k2;
        if k == 0 { return false; }
        kernelAddress := k;
        vm.kernel := vm.kernel + Mapped(k, size, coreOfs);
      }
      if r == 0 { vm.user := vm.user + UserMapped(base, size, coreOfs, protect); }
      ok := r <= 0;
    }

    method Uncommit(vm: Mappings)
      modifies this, vm
      ensures var b := old(Abs());
        && Abs() == UncommitBlock(b)
        && vm.kernel == UncommitKernelMap(old(vm.kernel), b) && vm.user == UncommitUserMap(old(vm.user), b)
    {
      if state != Committed { return; }
      vm.user := vm.user - Range(base, size);
      LocalUnmap(vm);
      state := Reserved;
      kernelAddress := 0;
    }

    method LocalUnmap(vm: Mappings)
      modifies this`kernelAddress, vm`kernel
      ensures kernelAddress == 0
      ensures vm.kernel
           == if old(kernelAddress) == 0 then old(vm.kernel) else old(vm.kernel) - Range(old(kernelAddress), size)
    {
      if kernelAddress != 0 { vm.kernel := vm.kernel - Range(kernelAddress, size); }
      kernelAddress := 0;
    }

    method Reserve()
      requires state != Committed
      modifies this
      ensures Abs() == ReserveBlock(old(Abs()))
    {
      if state == Reserved { return; }
      state, protect, kind := Reserved, 0, MEM_PRIVATE;
    }

    method Unreserve()
      requires state != Committed
      modifies this
      ensures Abs() == UnreserveBlock(old(Abs()))
    {
      if state != Reserved { return; }
      protect, state, kind := 0, Free, 0;
    }

    /** The destructors. */
    method Delete()
      requires state == Free
      modifies backing
      ensures backing.refcount == old(backing.refcount) - 1
      ensures backing.deleted <==> old(backing.deleted) || backing.refcount == 0
    {
      backing.Release();
    }
  }

  /** `fd` is what create_mapping_fd returns; `null` without a mapping. */
  method AllocCorePages(fd: int, address: nat, sz: nat, someKind: nat, someProtect: nat) returns (b: CorePages?)
    ensures b == null <==> fd < 0
    ensures b != null ==> fresh(b) && fresh(b.backing)
    ensures b != null ==>
      var w := Create(address, sz, someKind, someProtect);
      [b.Abs()] == w.blocks && b.backing.refcount == w.refcount && b.backing.deleted == w.deleted
  {
    if fd < 0 { return null; }
    var store := new AnonymousPages();
    b := new CorePages(address, sz, store, someKind, someProtect);
    store.Release();
  }
}
