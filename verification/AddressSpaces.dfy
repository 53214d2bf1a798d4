/** Address spaces at work: page tables are built in place from frames that the physical
    allocator hands out. */
module AddressSpaces {
  import opened PhysMemory
  import opened PageTables
  import BuddyBlocks
  import PhysAllocator

  type Block = BuddyBlocks.Block

  const MAX_VMAPS: nat := 4096

  /** y' has all of y's tables and data frames, with every page of y translated as before and
      every data frame of y holding the same bytes. */
  ghost predicate Extends(y: Layout, y': Layout) {
    && (forall f :: f in y.tables ==> f in y'.tables && y'.tables[f] == y.tables[f])
    && (forall f :: f in y.data ==> f in y'.data && y'.data[f] == y.data[f] && FrameAt(y'.mem, f) == FrameAt(y.mem, f))
    && (forall r, vpn: nat :: IsRoot(y, r) && vpn < USER_PAGES ==> Leaf(y'.mem, r, vpn, 3) == Leaf(y.mem, r, vpn, 3))
  }

  /** The frame lies in one of these blocks. */
  ghost predicate Held(live: set<Block>, f: nat) { exists b :: b in live && BuddyBlocks.Covers(b, f) }

  /** Frames held by others are neither taken over nor written. */
  ghost predicate Spares(live: set<Block>, y: Layout, y': Layout) {
    forall f :: Held(live, f) && Unowned(y, f) ==> Unowned(y', f) && FrameAt(y'.mem, f) == FrameAt(y.mem, f)
  }

  /** Every block taken meanwhile is a frame that now serves as a table: none is lost. */
  ghost predicate SpentOnTables(live: set<Block>, live': set<Block>, tables: map<nat, TableId>) {
    forall b :: b in live' && b !in live ==> b.order == 0 && b.base in tables
  }

  lemma HeldMore(live: set<Block>, live': set<Block>)
    requires live <= live'
    ensures forall f :: Held(live, f) ==> Held(live', f)
  {
  }

  /** A frame held on its own lies in no other held block. */
  lemma HeldOnce(phys: PhysAllocator.PhysState, f: nat)
    requires phys.Sound() && BuddyBlocks.Block(f, 0) in phys.live
    ensures !Held(phys.live - {BuddyBlocks.Block(f, 0)}, f)
  {
    var single := BuddyBlocks.Block(f, 0);
    forall b | b in phys.live - {single}
      ensures !BuddyBlocks.Covers(b, f)
    {
      PhysAllocator.HeldApart(phys.State(), phys.live, phys.managed, b, single);
      assert BuddyBlocks.Covers(single, f);
    }
  }

  /** y' is y with page vpn of `root` mapped to the held frame p, and nothing else changed. */
  ghost predicate Maps(y: Layout, y': Layout, root: nat, vpn: nat, p: nat, prot: nat) {
    && (forall f :: f in y.tables ==> f in y'.tables && y'.tables[f] == y.tables[f])
    && (forall f :: f in y.data ==> f in y'.data && FrameAt(y'.mem, f) == FrameAt(y.mem, f))
    && p in y'.data && FrameAt(y'.mem, p) == FrameAt(y.mem, p)
    && (forall r, v: nat :: IsRoot(y, r) && v < USER_PAGES ==>
          Leaf(y'.mem, r, v, 3) == if r == root && v == vpn then Some(PageEntry(p, prot)) else Leaf(y.mem, r, v, 3))
  }

  lemma MapAfterExtend(a: Layout, b: Layout, c: Layout, root: nat, vpn: nat, p: nat, prot: nat)
    requires Extends(a, b) && Maps(b, c, root, vpn, p, prot) && FrameAt(b.mem, p) == FrameAt(a.mem, p)
    ensures Maps(a, c, root, vpn, p, prot)
  {
  }

  lemma MapLeafMaps(y: Layout, g: nat, p: nat, prot: nat, root: nat, vpn: nat)
    requires Wired(y) && IsRoot(y, root) && vpn < USER_PAGES && Unowned(y, p) && p < FRAMES
    requires OnPath(y, g, root, vpn, 0) && Reaches(y.mem, root, vpn, 3, g, 0)
    ensures Wired(MapLeaf(y, g, Index(vpn, 0), p, prot))
    ensures Maps(y, MapLeaf(y, g, Index(vpn, 0), p, prot), root, vpn, p, prot)
  {
    MapLeafWired(y, g, Index(vpn, 0), p, prot);
    forall r, v: nat | IsRoot(y, r) && v < USER_PAGES
      ensures Leaf(MapLeaf(y, g, Index(vpn, 0), p, prot).mem, r, v, 3)
           == if r == root && v == vpn then Some(PageEntry(p, prot)) else Leaf(y.mem, r, v, 3)
    {
      MapLeafTranslates(y, g, p, prot, root, vpn, r, v);
    }
  }

  lemma MapLeafSpares(live: set<Block>, y0: Layout, y: Layout, g: nat, i: nat, p: nat, prot: nat)
    requires Spares(live, y0, y) && g in y.tables && i < 512 && !Held(live - {BuddyBlocks.Block(p, 0)}, p)
    ensures Spares(live - {BuddyBlocks.Block(p, 0)}, y0, MapLeaf(y, g, i, p, prot))
  {
    HeldMore(live - {BuddyBlocks.Block(p, 0)}, live);
  }

  lemma ExtendsTransitive(a: Layout, b: Layout, c: Layout)
    requires Extends(a, b) && Extends(b, c)
    ensures Extends(a, c)
  {
  }

  /** Zeroing a frame nobody owns extends the layout. */
  lemma ZeroUnowned(y: Layout, p: nat)
    requires Wired(y) && Unowned(y, p)
    ensures Wired(y.(mem := y.mem[p := Zeros(PAGE)])) && Extends(y, y.(mem := y.mem[p := Zeros(PAGE)]))
  {
    var mem' := y.mem[p := Zeros(PAGE)];
    forall r, vpn: nat | IsRoot(y, r) && vpn < USER_PAGES
      ensures Leaf(mem', r, vpn, 3) == Leaf(y.mem, r, vpn, 3)
    {
      RootOnPath(y, r, vpn);
      LeafUntouched(y, mem', r, r, vpn, 3);
    }
    forall f, i | f in y.tables && i < 512
      ensures Entry(mem', f, i) == Entry(y.mem, f, i)
    {
    }
  }

  lemma LinkExtends(y: Layout, g: nat, i: nat, p: nat)
    requires Wired(y) && g in y.tables && y.tables[g].level > 0 && UserSlot(y.tables[g], i)
    requires Unowned(y, p) && p < FRAMES && FrameAt(y.mem, p) == Zeros(PAGE) && !Present(Entry(y.mem, g, i))
    ensures Wired(LinkTable(y, g, i, p)) && Extends(y, LinkTable(y, g, i, p))
  {
    LinkTableWired(y, g, i, p);
    forall r, vpn: nat | IsRoot(y, r) && vpn < USER_PAGES
      ensures Leaf(LinkTable(y, g, i, p).mem, r, vpn, 3) == Leaf(y.mem, r, vpn, 3)
    {
      LinkTableTranslates(y, g, i, p, r, vpn);
    }
  }

  /** Linking a fresh table below slot Index(vpn, level) puts it on the path of that page. */
  lemma LinkOnPath(y: Layout, root: nat, vpn: nat, table: nat, level: nat, p: nat)
    requires Wired(y) && IsRoot(y, root) && vpn < USER_PAGES && 0 < level <= 3
    requires OnPath(y, table, root, vpn, level) && Reaches(y.mem, root, vpn, 3, table, level)
    requires !Present(Entry(y.mem, table, Index(vpn, level)))
    requires Unowned(y, p) && p < FRAMES && FrameAt(y.mem, p) == Zeros(PAGE)
    ensures var z := LinkTable(y, table, Index(vpn, level), p);
      && Wired(z) && Extends(y, z)
      && OnPath(z, p, root, vpn, level - 1) && Reaches(z.mem, root, vpn, 3, p, level - 1)
  {
    var i, v := Index(vpn, level), TableEntry(p);
    var z := LinkTable(y, table, i, p);
    IndexSplits(vpn, level);
    RootOnPath(y, root, vpn);
    LinkExtends(y, table, i, p);
    TableEntryDecodes(p);
    EntryAfterSet(y.mem, table, i, v, table, i);
    ReachesAfterSet(y, table, i, v, root, root, vpn, 3, table, level);
    ReachesNext(z.mem, root, vpn, 3, table, level);
  }

  /** Zeroing an unowned frame leaves paths and empty slots as they were. */
  lemma ZeroKeepsPath(y: Layout, p: nat, root: nat, vpn: nat, table: nat, level: nat)
    requires Wired(y) && Unowned(y, p) && IsRoot(y, root) && vpn < USER_PAGES && level <= 3
    requires OnPath(y, table, root, vpn, level) && Reaches(y.mem, root, vpn, 3, table, level)
    ensures var mem' := y.mem[p := Zeros(PAGE)];
      && Reaches(mem', root, vpn, 3, table, level)
      && Entry(mem', table, Index(vpn, level)) == Entry(y.mem, table, Index(vpn, level))
  {
    RootOnPath(y, root, vpn);
    ReachesUntouched(y, y.mem[p := Zeros(PAGE)], root, root, vpn, 3, table, level);
  }

  /** Everything that creating one missing table does. */
  lemma NewTable(y: Layout, live: set<Block>, root: nat, vpn: nat, table: nat, level: nat, p: nat)
    requires Wired(y) && IsRoot(y, root) && vpn < USER_PAGES && 0 < level <= 3
    requires OnPath(y, table, root, vpn, level) && Reaches(y.mem, root, vpn, 3, table, level)
    requires !Present(Entry(y.mem, table, Index(vpn, level)))
    requires Unowned(y, p) && p < FRAMES && !Held(live, p)
    ensures var z := LinkTable(y.(mem := y.mem[p := Zeros(PAGE)]), table, Index(vpn, level), p);
      && Wired(z) && Extends(y, z) && Spares(live, y, z)
      && OnPath(z, p, root, vpn, level - 1) && Reaches(z.mem, root, vpn, 3, p, level - 1)
  {
    var x := y.(mem := y.mem[p := Zeros(PAGE)]);
    ZeroUnowned(y, p);
    ZeroKeepsPath(y, p, root, vpn, table, level);
    LinkOnPath(x, root, vpn, table, level, p);
    ExtendsTransitive(y, x, LinkTable(x, table, Index(vpn, level), p));
  }

  /** A frame with an empty user half becomes a root without disturbing anything. */
  lemma RootAdded(y: Layout, y': Layout, root: nat)
    requires Wired(y) && Unowned(y, root) && y'.tables == y.tables && y'.data == y.data
    requires forall f :: f != root ==> FrameAt(y'.mem, f) == FrameAt(y.mem, f)
    requires forall i :: 0 <= i < 256 ==> Entry(y'.mem, root, i) == 0
    ensures var z := y'.(tables := y'.tables[root := TableId(root, 3, 0)]);
      && Wired(z) && Extends(y, z) && forall vpn: nat :: vpn < USER_PAGES ==> Translate(z.mem, root, vpn) == None
  {
    var z := y'.(tables := y'.tables[root := TableId(root, 3, 0)]);
    forall r, vpn: nat | IsRoot(y, r) && vpn < USER_PAGES
      ensures Leaf(z.mem, r, vpn, 3) == Leaf(y.mem, r, vpn, 3)
    {
      RootOnPath(y, r, vpn);
      LeafUntouched(y, z.mem, r, r, vpn, 3);
    }
    forall f, i | f in z.tables && UserSlot(z.tables[f], i) && Present(Entry(z.mem, f, i))
      ensures PointsRight(z, z.tables[f], i, Entry(z.mem, f, i))
    {
      assert f != root && Entry(z.mem, f, i) == Entry(y.mem, f, i);
      assert PointsRight(y, y.tables[f], i, Entry(y.mem, f, i));
    }
    forall vpn: nat | vpn < USER_PAGES
      ensures Translate(z.mem, root, vpn) == None
    {
      IndexSplits(vpn, 3);
    }
  }

  class Amm {
    const phys: PhysAllocator.PhysState
    const kernelRoot: nat
    var mem: Memory
    var vmaps: nat
    ghost var tables: map<nat, TableId>
    ghost var data: map<nat, PageId>

    ghost function View(): Layout
      reads this
    {
      Layout(mem, tables, data)
    }

    /** Every table and every data frame is a one-page block held from the allocator. */
    ghost predicate Valid()
      reads this, phys
    {
      && phys.Sound() && kernelRoot !in phys.managed && (forall f :: f in phys.managed ==> f < FRAMES)
      && Wired(View())
      && (forall f :: f in tables || f in data ==> BuddyBlocks.Block(f, 0) in phys.live)
    }

    /** No frame is left. */
    ghost predicate Exhausted()
      reads this, phys
    {
      phys.Exhausted(0)
    }

    /** No address space yet, over an allocator that others may use too. */
    constructor (p: PhysAllocator.PhysState, kernel: nat)
      requires p.Sound() && kernel !in p.managed && (forall f :: f in p.managed ==> f < FRAMES)
      ensures Valid() && phys == p && tables == map[] && data == map[]
    {
      phys, kernelRoot, vmaps := p, kernel, 0;
      mem, tables, data := map[], map[], map[];
    }

    /** Take one frame and clear it. */
    method AllocZeroed() returns (p: nat)
      requires Valid()
      modifies this`mem, phys`lists, phys`info, phys`freePages, phys`live
      ensures Valid() && Extends(old(View()), View())
      ensures p == 0 <==> old(Exhausted())
      ensures p == 0 ==> mem == old(mem) && phys.live == old(phys.live) && Exhausted()
      ensures p != 0 ==> Unowned(View(), p) && p < FRAMES && p in phys.managed
      ensures p != 0 ==>
        BuddyBlocks.Block(p, 0) !in old(phys.live) && phys.live == old(phys.live) + {BuddyBlocks.Block(p, 0)}
      ensures p != 0 ==> !Held(old(phys.live), p)
      ensures p != 0 ==> mem == old(mem)[p := Zeros(PAGE)]
    {
      p := phys.Take(0);
      if p != 0 {
        ZeroUnowned(View(), p);
        HeldOnce(phys, p);
        assert phys.live - {BuddyBlocks.Block(p, 0)} == old(phys.live);
        mem := mem[p := Zeros(PAGE)];
      }
    }

    /** One level of pt_walk_alloc: the table below slot Index(vpn, level), created if absent;
        0 when out of memory. */
    method Descend(root: nat, vpn: nat, table: nat, level: nat) returns (next: nat)
      requires Valid() && IsRoot(View(), root) && vpn < USER_PAGES && 0 < level <= 3
      requires OnPath(View(), table, root, vpn, level) && Reaches(mem, root, vpn, 3, table, level)
      modifies this`mem, this`tables, phys`lists, phys`info, phys`freePages, phys`live
      ensures Valid() && Extends(old(View()), View()) && data == old(data)
      ensures old(phys.live) <= phys.live && Spares(old(phys.live), old(View()), View())
      ensures SpentOnTables(old(phys.live), phys.live, tables)
      ensures next == 0 ==> Exhausted()
      ensures next != 0 ==> OnPath(View(), next, root, vpn, level - 1) && Reaches(mem, root, vpn, 3, next, level - 1)
    {
      if !Present(Entry(mem, table, Index(vpn, level))) {
        next := CreateTable(root, vpn, table, level);
      } else {
        StepOnPath(View(), table, root, vpn, level);
        ReachesNext(mem, root, vpn, 3, table, level);
        next := Target(Entry(mem, table, Index(vpn, level)));
        PhysAllocator.HeldBlock(phys.State(), phys.live, phys.managed, BuddyBlocks.Block(next, 0));
      }
    }

    method CreateTable(root: nat, vpn: nat, table: nat, level: nat) returns (next: nat)
      requires Valid() && IsRoot(View(), root) && vpn < USER_PAGES && 0 < level <= 3
      requires OnPath(View(), table, root, vpn, level) && Reaches(mem, root, vpn, 3, table, level)
      requires !Present(Entry(mem, table, Index(vpn, level)))
      modifies this`mem, this`tables, phys`lists, phys`info, phys`freePages, phys`live
      ensures Valid() && Extends(old(View()), View()) && data == old(data)
      ensures old(phys.live) <= phys.live && Spares(old(phys.live), old(View()), View())
      ensures SpentOnTables(old(phys.live), phys.live, tables)
      ensures next == 0 ==> Exhausted()
      ensures next != 0 ==> OnPath(View(), next, root, vpn, level - 1) && Reaches(mem, root, vpn, 3, next, level - 1)
    {
      ghost var y := View();
      next := AllocZeroed();
      if next != 0 {
        NewTable(y, old(phys.live), root, vpn, table, level, next);
        ghost var z := LinkTable(View(), table, Index(vpn, level), next);
        mem := SetEntry(mem, table, Index(vpn, level), TableEntry(next));
        tables := z.tables;
        assert View() == z;
      }
    }

    /** pt_walk_alloc: the leaf table for a page, with missing levels created; 0 when out of memory. */
    method WalkAlloc(root: nat, vpn: nat) returns (pt: nat)
      requires Valid() && IsRoot(View(), root) && vpn < USER_PAGES
      modifies this`mem, this`tables, phys`lists, phys`info, phys`freePages, phys`live
      ensures Valid() && Extends(old(View()), View()) && data == old(data)
      ensures old(phys.live) <= phys.live && Spares(old(phys.live), old(View()), View())
      ensures SpentOnTables(old(phys.live), phys.live, tables)
      ensures pt == 0 ==> Exhausted()
      ensures pt != 0 ==> OnPath(View(), pt, root, vpn, 0) && Reaches(mem, root, vpn, 3, pt, 0)
    {
      RootOnPath(View(), root, vpn);
      ghost var y0 := View();
      var pdpt := Descend(root, vpn, root, 3);
      if pdpt == 0 {
        return 0;
      }
      ghost var y1 := View();
      var pd := Descend(root, vpn, pdpt, 2);
      ExtendsTransitive(y0, y1, View());
      if pd == 0 {
        return 0;
      }
      ghost var y2 := View();
      pt := Descend(root, vpn, pd, 1);
      ExtendsTransitive(y0, y2, View());
    }

    /** map_page.  It reports nothing; `ok` records whether the page got mapped. */
    method MapPage(root: nat, vpn: nat, frame: nat, prot: nat) returns (ghost ok: bool)
      requires Valid() && IsRoot(View(), root) && vpn < USER_PAGES
      requires Unowned(View(), frame) && frame < FRAMES && BuddyBlocks.Block(frame, 0) in phys.live
      modifies this`mem, this`tables, this`data, phys`lists, phys`info, phys`freePages, phys`live
      ensures Valid()
      ensures ok ==> Maps(old(View()), View(), root, vpn, frame, prot)
      ensures !ok ==> Extends(old(View()), View()) && Exhausted()
      ensures old(phys.live) <= phys.live && Spares(old(phys.live) - {BuddyBlocks.Block(frame, 0)}, old(View()), View())
      ensures SpentOnTables(old(phys.live), phys.live, tables)
    {
      ghost var y0 := View();
      HeldOnce(phys, frame);
      HeldMore(phys.live - {BuddyBlocks.Block(frame, 0)}, phys.live);
      var pt := WalkAlloc(root, vpn);
      if pt == 0 {
        return false;
      }
      ghost var y1 := View();
      ghost var z := MapLeaf(y1, pt, Index(vpn, 0), frame, prot);
      MapLeafMaps(y1, pt, frame, prot, root, vpn);
      MapAfterExtend(y0, y1, z, root, vpn, frame, prot);
      MapLeafSpares(old(phys.live), y0, y1, pt, Index(vpn, 0), frame, prot);
      mem := SetEntry(mem, pt, Index(vpn, 0), PageEntry(frame, prot));
      data := z.data;
      assert View() == z;
      return true;
    }

    /** amm_vmap_create: a new root whose user half is empty and whose kernel half is the kernel's;
        0 when the pool or the memory is exhausted. */
    method VmapCreate() returns (root: nat)
      requires Valid()
      modifies this`mem, this`tables, this`vmaps, phys`lists, phys`info, phys`freePages, phys`live
      ensures Valid() && Extends(old(View()), View())
      ensures root == 0 <==> old(vmaps) >= MAX_VMAPS || old(Exhausted())
      ensures old(phys.live) <= phys.live && Spares(old(phys.live), old(View()), View())
      ensures SpentOnTables(old(phys.live), phys.live, tables)
      ensures vmaps == if old(vmaps) < MAX_VMAPS then old(vmaps) + 1 else old(vmaps)
      ensures root != 0 ==> IsRoot(View(), root) && !IsRoot(old(View()), root)
      ensures root != 0 ==> forall vpn: nat :: vpn < USER_PAGES ==> Translate(mem, root, vpn) == None
      ensures root != 0 ==> forall i :: 256 <= i < 512 ==> Entry(mem, root, i) == Entry(mem, kernelRoot, i)
      ensures FrameAt(mem, kernelRoot) == FrameAt(old(mem), kernelRoot)
    {
      if vmaps >= MAX_VMAPS {
        return 0;
      }
      vmaps := vmaps + 1;
      ghost var y0 := View();
      root := AllocZeroed();
      if root == 0 {
        return;
      }
      ghost var y1 := View();
      CopyKernelHalf(root);
      RootAdded(y1, View(), root);
      tables := tables[root := TableId(root, 3, 0)];
      ExtendsTransitive(y0, y1, View());
    }

    method CopyKernelHalf(root: nat)
      requires root != kernelRoot && FrameAt(mem, root) == Zeros(PAGE)
      modifies this`mem
      ensures forall f :: f != root ==> FrameAt(mem, f) == FrameAt(old(mem), f)
      ensures forall i :: 0 <= i < 256 ==> Entry(mem, root, i) == 0
      ensures forall i :: 256 <= i < 512 ==> Entry(mem, root, i) == Entry(mem, kernelRoot, i)
    {
      forall i: nat | i < 512
        ensures Entry(mem, root, i) == 0
      {
        EntryOfZero(mem, root, i);
      }
      for i := 256 to 512
        invariant forall f :: f != root ==> FrameAt(mem, f) == FrameAt(old(mem), f)
        invariant forall j :: 0 <= j < 512 ==>
          Entry(mem, root, j) == if 256 <= j < i then Entry(mem, kernelRoot, j) else 0
      {
        ghost var before := mem;
        EntryFits(mem, kernelRoot, i);
        mem := SetEntry(mem, root, i, Entry(mem, kernelRoot, i));
        forall j: nat | j < 512
          ensures Entry(mem, root, j) == if j == i then Entry(before, kernelRoot, i) else Entry(before, root, j)
          ensures Entry(mem, kernelRoot, j) == Entry(before, kernelRoot, j)
        {
          EntryAfterSet(before, root, i, Entry(before, kernelRoot, i), root, j);
        }
      }
    }
  }
}
