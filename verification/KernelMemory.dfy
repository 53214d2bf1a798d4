/** The kernel heap and the address spaces on one physical allocator: whatever either does, the other
    stays in order, and no heap object shares a byte with a page table or a user page. */
module KernelMemory {
  import opened BuddyBlocks
  import opened PhysMemory
  import opened PageTables
  import opened AddressSpaces
  import opened UserView
  import opened UserMemory
  import Regions
  import PhysAllocator
  import SlabHeap
  import SlabSpec

  /** No frame of an address space is a block of the heap. */
  ghost predicate Separate(v: SlabHeap.View, y: Layout) {
    forall f :: f in y.tables || f in y.data ==> Block(f, 0) !in SlabHeap.Owned(v)
  }

  lemma OwnedIsLive(v: SlabHeap.View)
    requires SlabHeap.Kept(v)
    ensures SlabHeap.Owned(v) <= v.live
  {
    forall f | f in v.slabs
      ensures Block(f, SlabSpec.Order(v.slabs[f])) in v.live
    {
      assert SlabHeap.SlabOk(v, f);
    }
  }

  /** Address spaces at work leave the heap in order and its frames untouched. */
  lemma PagingLeavesHeap(v: SlabHeap.View, y: Layout, live': set<Block>, y': Layout)
    requires SlabHeap.Kept(v) && Separate(v, y) && OthersKeep(v.live, y, live', y')
    requires forall f :: f in y.tables || f in y.data ==> Block(f, 0) in v.live
    ensures SlabHeap.Kept(v.(live := live')) && Separate(v.(live := live'), y')
  {
    assert Asked(0);
    OwnedIsLive(v);
    forall f | f in v.slabs
      ensures SlabHeap.SlabOk(v.(live := live'), f)
    {
      assert SlabHeap.SlabOk(v, f);
    }
    forall f | Block(f, 0) in SlabHeap.Owned(v)
      ensures Unowned(y', f)
    {
      assert Covers(Block(f, 0), f) && Held(v.live, f);
    }
  }

  /** The frames of heap blocks keep their contents. */
  ghost predicate HeapFramesKeep(v: SlabHeap.View, mem: Memory, mem': Memory) {
    forall f :: Held(SlabHeap.Owned(v), f) ==> FrameAt(mem', f) == FrameAt(mem, f)
  }

  class Kernel {
    const amm: Amm
    const heap: SlabHeap.Heap

    ghost predicate Valid()
      reads amm, heap, amm.phys, heap.phys
    {
      amm.phys == heap.phys && amm.Valid() && heap.Valid() && Separate(heap.V(), amm.View())
    }

    /** Both on an allocator that has just booted. */
    constructor (phys: PhysAllocator.PhysState, kernelRoot: nat)
      requires phys.Sound() && kernelRoot !in phys.managed && (forall f :: f in phys.managed ==> f < FRAMES)
      ensures Valid() && amm.phys == phys
    {
      amm := new Amm(phys, kernelRoot);
      heap := new SlabHeap.Heap(phys);
    }

    /** A heap object and a frame of an address space never overlap. */
    lemma ObjectOffFrames(o: SlabHeap.Obj, f: nat)
      requires Valid() && SlabHeap.Live(heap.V(), o) && (f in amm.tables || f in amm.data)
      ensures SlabHeap.Start(o) + SlabHeap.Length(o) <= f * PAGE || f * PAGE + PAGE <= SlabHeap.Start(o)
    {
      var v, b := heap.V(), SlabHeap.BlockOf(o);
      assert o.Small? ==> SlabHeap.SlabOk(v, o.frame);
      assert b in SlabHeap.Owned(v) && b in v.live;
      PhysAllocator.HeldApart(amm.phys.State(), v.live, amm.phys.managed, b, Block(f, 0));
      SlabHeap.ApartBlocks(o, SlabHeap.Large(Block(f, 0)));
    }

    /** A frame of a heap block belongs to no address space. */
    lemma HeapFrameUnowned(f: nat)
      requires Valid() && Held(SlabHeap.Owned(heap.V()), f)
      ensures Unowned(amm.View(), f)
    {
      var v := heap.V();
      OwnedIsLive(v);
      var b :| b in SlabHeap.Owned(v) && Covers(b, f);
      assert Covers(Block(f, 0), f);
      if !Unowned(amm.View(), f) {
        PhysAllocator.HeldApart(amm.phys.State(), v.live, amm.phys.managed, b, Block(f, 0));
      }
    }

    /** What paging did outside the address spaces. */
    lemma Paged(live: set<Block>, y: Layout, v: SlabHeap.View)
      requires amm.phys == heap.phys && amm.Valid() && SlabHeap.Listed(heap.heads, heap.slabs)
      requires SlabHeap.Kept(v) && v.live == live && Separate(v, y) && heap.V() == v.(live := amm.phys.live)
      requires forall f :: f in y.tables || f in y.data ==> Block(f, 0) in live
      requires OthersKeep(live, y, amm.phys.live, amm.View())
      requires forall f :: Held(SlabHeap.Owned(v), f) ==> Unowned(y, f)
      ensures Valid() && HeapFramesKeep(v, y.mem, amm.mem)
    {
      PagingLeavesHeap(v, y, amm.phys.live, amm.View());
      OwnedIsLive(v);
      HeldMore(SlabHeap.Owned(v), live);
      assert Asked(0);
    }

    method Kmalloc(size: nat) returns (ptr: nat, ghost o: SlabHeap.Obj)
      requires Valid()
      modifies heap, heap.phys`lists, heap.phys`info, heap.phys`freePages, heap.phys`live
      ensures Valid()
      ensures ptr == 0 ==> heap.Unchanged(old(heap.V()), old(heap.heads), old(heap.phys.State()))
      ensures ptr == 0 ==> size == 0 || old(heap.Refuses(size))
      ensures ptr != 0 ==> SlabHeap.Start(o) == ptr && SlabHeap.Snug(size, o)
      ensures ptr != 0 ==> SlabHeap.Granted(old(heap.V()), heap.V(), o, size <= 8 && old(heap.Deceived()))
    {
      ghost var v := heap.V();
      ptr, o := heap.Kmalloc(size);
      HeapLeavesPages(v, heap.V(), amm.View());
    }

    method Kfree(ptr: nat, data: nat, ghost o: SlabHeap.Obj)
      requires Valid() && (ptr != 0 ==> SlabHeap.Start(o) == ptr && SlabHeap.Freeable(heap.V(), o))
      requires ptr != 0 ==> SlabHeap.InFirstPage(o) || 8 <= data <= 4096
      modifies heap, heap.phys`lists, heap.phys`info, heap.phys`freePages, heap.phys`live
      ensures Valid()
      ensures ptr != 0 && SlabHeap.InFirstPage(o) ==> SlabHeap.Drops(old(heap.V()), heap.V(), o)
      ensures ptr == 0 || !SlabHeap.InFirstPage(o) || !SlabHeap.Live(old(heap.V()), o) ==>
        heap.Unchanged(old(heap.V()), old(heap.heads), old(heap.phys.State()))
    {
      ghost var v := heap.V();
      heap.Kfree(ptr, data, o);
      HeapLeavesPages(v, heap.V(), amm.View());
    }

    method VmapCreate() returns (root: nat)
      requires Valid()
      modifies amm`mem, amm`tables, amm`vmaps, amm.phys`lists, amm.phys`info, amm.phys`freePages, amm.phys`live
      ensures Valid() && HeapFramesKeep(old(heap.V()), old(amm.mem), amm.mem)
      ensures root != 0 ==> IsRoot(amm.View(), root)
    {
      ghost var v, live, y := heap.V(), amm.phys.live, amm.View();
      HeapUnowned();
      root := amm.VmapCreate();
      Paged(live, y, v);
    }

    method PageFault(map_: Regions.VMap, addr: nat, write: bool) returns (ok: bool)
      requires Valid() && map_.Valid() && IsRoot(amm.View(), map_.cr3)
      requires addr < USER_TOP || !Allows(map_.contents, addr, write)
      modifies amm`mem, amm`tables, amm`data, amm.phys`lists, amm.phys`info, amm.phys`freePages, amm.phys`live
      ensures Valid() && HeapFramesKeep(old(heap.V()), old(amm.mem), amm.mem)
      ensures ok <==> Allows(map_.contents, addr, write) && !old(amm.Exhausted())
    {
      ghost var v, live, y := heap.V(), amm.phys.live, amm.View();
      HeapUnowned();
      ok := UserMemory.PageFault(amm, map_, addr, write);
      Paged(live, y, v);
    }

    method CopyToUser(current: Regions.VMap?, udst: nat, ksrc: array?<Byte>, n: nat)
      returns (ok: bool, ghost done: nat)
      requires Valid() && (current != null ==> current.Valid() && IsRoot(amm.View(), current.cr3))
      requires (ksrc != null ==> n <= ksrc.Length) && udst + n <= USER_TOP
      modifies amm`mem, amm`tables, amm`data, amm.phys`lists, amm.phys`info, amm.phys`freePages, amm.phys`live
      ensures Valid() && HeapFramesKeep(old(heap.V()), old(amm.mem), amm.mem)
      ensures done <= n && (ok ==> done == n || udst == 0 || ksrc == null)
      ensures current == null || udst == 0 || ksrc == null || n == 0 ==> done == 0
      ensures done == 0 ==> Same(old(UsersOf(amm.View())), UsersOf(amm.View()))
      ensures done > 0 ==> Stored(old(UsersOf(amm.View())), UsersOf(amm.View()), current.cr3, udst, ksrc[..done])
    {
      ghost var v, live, y := heap.V(), amm.phys.live, amm.View();
      HeapUnowned();
      ok, done := UserMemory.CopyToUser(amm, current, udst, ksrc, n);
      Paged(live, y, v);
    }

    method CopyFromUser(current: Regions.VMap?, kdst: array?<Byte>, usrc: nat, n: nat) returns (ok: bool)
      requires Valid() && (current != null ==> current.Valid() && IsRoot(amm.View(), current.cr3))
      requires (kdst != null ==> n <= kdst.Length) && usrc + n <= USER_TOP
      modifies amm`mem, amm`tables, amm`data, amm.phys`lists, amm.phys`info, amm.phys`freePages, amm.phys`live
      modifies if kdst == null then {} else {kdst}
      ensures Valid() && HeapFramesKeep(old(heap.V()), old(amm.mem), amm.mem)
      ensures Same(old(UsersOf(amm.View())), UsersOf(amm.View()))
    {
      ghost var v, live, y := heap.V(), amm.phys.live, amm.View();
      HeapUnowned();
      ok := UserMemory.CopyFromUser(amm, current, kdst, usrc, n);
      Paged(live, y, v);
    }

    lemma HeapUnowned()
      requires Valid()
      ensures forall f :: Held(SlabHeap.Owned(heap.V()), f) ==> Unowned(amm.View(), f)
    {
      forall f | Held(SlabHeap.Owned(heap.V()), f)
        ensures Unowned(amm.View(), f)
      {
        HeapFrameUnowned(f);
      }
    }
  }

  /** The heap at work leaves the frames of address spaces held and apart from its blocks. */
  lemma HeapLeavesPages(v: SlabHeap.View, v': SlabHeap.View, y: Layout)
    requires SlabHeap.Shares(v, v') && Separate(v, y)
    requires forall f :: f in y.tables || f in y.data ==> Block(f, 0) in v.live
    ensures Separate(v', y) && forall f :: f in y.tables || f in y.data ==> Block(f, 0) in v'.live
  {
  }
}
