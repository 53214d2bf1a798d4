/** User memory seen through page tables: lazily backed pages read as zero, demand paging and
    eager population change nothing, and the kernel's copy loops move exactly the bytes asked for. */
module UserMemory {
  import opened PhysMemory
  import opened PageTables
  import opened AddressSpaces
  import opened UserView
  import Regions
  import BuddyBlocks

  /** The byte at a user address; a page without a frame reads as zero. */
  function UserByte(y: Layout, root: nat, va: nat): Byte {
    match Translate(y.mem, root, va / PAGE)
    case None => 0
    case Some(f) => FrameAt(y.mem, f)[va % PAGE]
  }

  ghost function UsersOf(y: Layout): (u: Users)
    ensures forall r :: r in u.roots <==> IsRoot(y, r)
    ensures forall r, va: nat :: u.at(r, va) == UserByte(y, r, va)
  {
    Users(set r | r in y.tables && IsRoot(y, r), (r: nat, va: nat) => UserByte(y, r, va))
  }

  lemma TranslationOwned(y: Layout, r: nat, vpn: nat)
    requires Wired(y) && IsRoot(y, r) && vpn < USER_PAGES && Translate(y.mem, r, vpn).Some?
    ensures var f := Translate(y.mem, r, vpn).value; f in y.data && y.data[f] == PageId(r, vpn)
  {
    RootOnPath(y, r, vpn);
    LeafBelongs(y, r, r, vpn, 3);
  }

  lemma ExtendingIsInvisible(y: Layout, y': Layout)
    requires Wired(y) && Extends(y, y')
    ensures Same(UsersOf(y), UsersOf(y'))
  {
    forall r, va: nat | IsRoot(y, r) && va < USER_TOP
      ensures UserByte(y', r, va) == UserByte(y, r, va)
    {
      if Translate(y.mem, r, va / PAGE).Some? {
        TranslationOwned(y, r, va / PAGE);
      }
    }
  }

  /** Mapping a zeroed frame at a page clears that page and changes no other; where nothing was
      mapped before, nothing changes at all. */
  lemma MappingZeros(y: Layout, y': Layout, root: nat, vpn: nat, p: nat, prot: nat)
    requires Wired(y) && Maps(y, y', root, vpn, p, prot) && p < FRAMES && FrameAt(y.mem, p) == Zeros(PAGE)
    ensures ClearsAtMost(UsersOf(y), UsersOf(y'), root, vpn)
    ensures Translate(y.mem, root, vpn) == None ==> Same(UsersOf(y), UsersOf(y'))
  {
    PageEntryDecodes(p, prot);
    forall r, va: nat | IsRoot(y, r) && va < USER_TOP
      ensures UserByte(y', r, va) == if r == root && va / PAGE == vpn then 0 else UserByte(y, r, va)
    {
      if Translate(y.mem, r, va / PAGE).Some? {
        TranslationOwned(y, r, va / PAGE);
      }
    }
  }

  /** Overwriting part of one data frame is a store into the one page that owns it. */
  lemma StoreInFrame(y: Layout, root: nat, va: nat, bs: seq<Byte>)
    requires Wired(y) && IsRoot(y, root) && va < USER_TOP && Translate(y.mem, root, va / PAGE).Some?
    requires va % PAGE + |bs| <= PAGE
    ensures var y' := y.(mem := Poked(y.mem, Translate(y.mem, root, va / PAGE).value, va % PAGE, bs));
      Wired(y') && Stored(UsersOf(y), UsersOf(y'), root, va, bs)
  {
    var f := Translate(y.mem, root, va / PAGE).value;
    var y' := y.(mem := Poked(y.mem, f, va % PAGE, bs));
    TranslationOwned(y, root, va / PAGE);
    PokedWired(y, f, va % PAGE, bs);
    forall r, a: nat | IsRoot(y, r) && a < USER_TOP
      ensures UserByte(y', r, a) == if r == root && va <= a < va + |bs| then bs[a - va] else UserByte(y, r, a)
    {
      StoredByte(y, root, va / PAGE, va % PAGE, bs, r, a);
    }
  }

  lemma StoredByte(y: Layout, root: nat, vpn: nat, off: nat, bs: seq<Byte>, r: nat, va: nat)
    requires Wired(y) && IsRoot(y, root) && vpn < USER_PAGES && Translate(y.mem, root, vpn).Some?
    requires off + |bs| <= PAGE && IsRoot(y, r) && va < USER_TOP
    ensures var f := Translate(y.mem, root, vpn).value;
      var y' := y.(mem := Poked(y.mem, f, off, bs));
      UserByte(y', r, va) == if r == root && vpn * PAGE + off <= va < vpn * PAGE + off + |bs|
                             then bs[va - (vpn * PAGE + off)] else UserByte(y, r, va)
  {
    var f, v := Translate(y.mem, root, vpn).value, va / PAGE;
    InPage(va, vpn, off, |bs|);
    TranslationOwned(y, root, vpn);
    PokedTranslates(y, f, off, bs, r, v);
    if r == root && v == vpn {
      PokedByte(y.mem, f, off, bs, va % PAGE);
    } else if Translate(y.mem, r, v).Some? {
      TranslationOwned(y, r, v);
    }
  }

  lemma InPage(va: nat, vpn: nat, off: nat, n: nat)
    requires off + n <= PAGE
    ensures vpn * PAGE + off <= va < vpn * PAGE + off + n <==> va / PAGE == vpn && off <= va % PAGE < off + n
    ensures va / PAGE == vpn ==> va - (vpn * PAGE + off) == va % PAGE - off
  {
  }

  lemma PokedTranslates(y: Layout, f: nat, off: nat, bs: seq<Byte>, r: nat, v: nat)
    requires Wired(y) && f in y.data && off + |bs| <= PAGE && IsRoot(y, r) && v < USER_PAGES
    ensures Leaf(Poked(y.mem, f, off, bs), r, v, 3) == Leaf(y.mem, r, v, 3)
  {
    RootOnPath(y, r, v);
    LeafUntouched(y, Poked(y.mem, f, off, bs), r, r, v, 3);
  }

  function Poked(mem: Memory, f: nat, off: nat, bs: seq<Byte>): Memory
    requires off + |bs| <= PAGE
  {
    mem[f := FrameAt(mem, f)[..off] + bs + FrameAt(mem, f)[off + |bs|..]]
  }

  lemma PokedByte(mem: Memory, f: nat, off: nat, bs: seq<Byte>, k: nat)
    requires off + |bs| <= PAGE && k < PAGE
    ensures FrameAt(Poked(mem, f, off, bs), f)[k] == if off <= k < off + |bs| then bs[k - off] else FrameAt(mem, f)[k]
  {
  }

  lemma PokedWired(y: Layout, f: nat, off: nat, bs: seq<Byte>)
    requires Wired(y) && f in y.data && off + |bs| <= PAGE
    ensures Wired(y.(mem := Poked(y.mem, f, off, bs)))
  {
    var z := y.(mem := Poked(y.mem, f, off, bs));
    forall g, i | g in z.tables && UserSlot(z.tables[g], i) && Present(Entry(z.mem, g, i))
      ensures PointsRight(z, z.tables[g], i, Entry(z.mem, g, i))
    {
      assert Entry(z.mem, g, i) == Entry(y.mem, g, i);
      assert PointsRight(y, y.tables[g], i, Entry(y.mem, g, i));
    }
  }

  // ---- Memory that others hold -----------------------------------------------------------------------

  predicate Asked(k: nat) { true }

  /** Blocks held outside these address spaces stay held there and keep their contents; stated behind
      a trigger because most operations only hand it on. */
  ghost predicate OthersKeep(live: set<Block>, y: Layout, live': set<Block>, y': Layout) {
    forall k: nat {:trigger Asked(k)} :: Asked(k) ==> live <= live' && Spares(live, y, y')
  }

  lemma OthersTransitive(l0: set<Block>, y0: Layout, l1: set<Block>, y1: Layout, l2: set<Block>, y2: Layout)
    requires OthersKeep(l0, y0, l1, y1) && OthersKeep(l1, y1, l2, y2)
    ensures OthersKeep(l0, y0, l2, y2)
  {
    assert Asked(0);
  }

  lemma OthersIdle(live: set<Block>, y: Layout)
    ensures OthersKeep(live, y, live, y)
  {
  }

  lemma PokedOthers(live: set<Block>, y: Layout, f: nat, off: nat, bs: seq<Byte>)
    requires f in y.data && off + |bs| <= PAGE
    ensures OthersKeep(live, y, live, y.(mem := Poked(y.mem, f, off, bs)))
  {
  }

  // ---- What is mapped, and what may be ---------------------------------------------------------------

  predicate MappedAt(mem: Memory, root: nat, va: nat) { Translate(mem, root, va / PAGE).Some? }

  /** Every address in [lo, hi) has a frame. */
  ghost predicate MappedRange(mem: Memory, root: nat, lo: nat, hi: nat) {
    forall va: nat :: lo <= va < hi ==> MappedAt(mem, root, va)
  }

  predicate Page(v: nat) { v < USER_PAGES }

  ghost predicate SameMap(mem: Memory, mem': Memory, root: nat) {
    forall v: nat {:trigger Page(v)} :: Page(v) ==> Leaf(mem', root, v, 3) == Leaf(mem, root, v, 3)
  }

  lemma MappedStays(mem: Memory, mem': Memory, root: nat, lo: nat, hi: nat)
    requires SameMap(mem, mem', root) && hi <= USER_TOP
    ensures MappedRange(mem, root, lo, hi) <==> MappedRange(mem', root, lo, hi)
  {
    forall va: nat | lo <= va < hi
      ensures MappedAt(mem, root, va) <==> MappedAt(mem', root, va)
    {
      MappedSame(mem, mem', root, va);
    }
  }

  lemma MappedSame(mem: Memory, mem': Memory, root: nat, va: nat)
    requires SameMap(mem, mem', root) && va < USER_TOP
    ensures MappedAt(mem, root, va) <==> MappedAt(mem', root, va)
  {
    assert Page(va / PAGE);
  }

  ghost predicate PagesMapped(mem: Memory, root: nat, lo: nat, hi: nat) {
    forall v: nat {:trigger Page(v)} :: Page(v) && lo <= v < hi ==> Translate(mem, root, v).Some?
  }

  lemma MappedByPage(mem: Memory, root: nat, base: nat, size: nat)
    requires PagesMapped(mem, root, base / PAGE, (base + size + PAGE - 1) / PAGE) && base + size <= USER_TOP
    ensures MappedRange(mem, root, base, base + size)
  {
    forall va: nat | base <= va < base + size
      ensures MappedAt(mem, root, va)
    {
      assert Page(va / PAGE);
    }
  }

  /** Only page vpn may be mapped differently. */
  ghost predicate Elsewhere(mem: Memory, mem': Memory, root: nat, vpn: nat) {
    forall v: nat {:trigger Page(v)} :: Page(v) && v != vpn ==> Leaf(mem', root, v, 3) == Leaf(mem, root, v, 3)
  }

  /** Pages from vpn on are mapped as before. */
  ghost predicate SameFrom(mem: Memory, mem': Memory, root: nat, vpn: nat) {
    forall v: nat {:trigger Page(v)} :: Page(v) && v >= vpn ==> Leaf(mem', root, v, 3) == Leaf(mem, root, v, 3)
  }

  /** Some region holds the address and lets it be accessed that way. */
  ghost predicate Allows(rs: seq<Regions.Region>, va: nat, write: bool) {
    exists i :: 0 <= i < |rs| && Regions.Holds(rs[i], va) && (write ==> ProtWrite(rs[i].prot))
  }

  /** Accessing a page works if it has a frame already or may be given one; it fails for want of
      permission or of memory. */
  predicate Verdict(ok: bool, mapped: bool, allowed: bool, exhausted: bool) {
    if ok then mapped || allowed else !mapped && (exhausted || !allowed)
  }

  /** In every page of the range, the first address is mapped or may be accessed. */
  ghost predicate Permitted(mem: Memory, root: nat, rs: seq<Regions.Region>, lo: nat, hi: nat, write: bool) {
    forall va: nat :: lo <= va < hi && (va == lo || va % PAGE == 0) ==> MappedAt(mem, root, va) || Allows(rs, va, write)
  }

  lemma PermittedGrows(mem: Memory, root: nat, rs: seq<Regions.Region>, lo: nat, d: nat, chunk: nat, write: bool)
    requires Permitted(mem, root, rs, lo, lo + d, write) && (lo + d) % PAGE + chunk <= PAGE
    requires MappedAt(mem, root, lo + d) || Allows(rs, lo + d, write)
    ensures Permitted(mem, root, rs, lo, lo + d + chunk, write)
  {
    forall va: nat | lo + d < va < lo + d + chunk
      ensures va % PAGE != 0
    {
      InPage(va, (lo + d) / PAGE, (lo + d) % PAGE, chunk);
    }
  }

  /** Writing into a data frame changes no translation. */
  lemma PokedMap(y: Layout, root: nat, vpn: nat, off: nat, bs: seq<Byte>)
    requires Wired(y) && IsRoot(y, root) && vpn < USER_PAGES && Translate(y.mem, root, vpn).Some? && off + |bs| <= PAGE
    ensures SameMap(y.mem, Poked(y.mem, Translate(y.mem, root, vpn).value, off, bs), root)
  {
    var f := Translate(y.mem, root, vpn).value;
    TranslationOwned(y, root, vpn);
    forall v: nat | Page(v)
      ensures Leaf(Poked(y.mem, f, off, bs), root, v, 3) == Leaf(y.mem, root, v, 3)
    {
      PokedTranslates(y, f, off, bs, root, v);
    }
  }

  lemma SameFromNext(m0: Memory, m1: Memory, m2: Memory, root: nat, vpn: nat)
    requires SameFrom(m0, m1, root, vpn) && Elsewhere(m1, m2, root, vpn)
    ensures SameFrom(m0, m2, root, vpn + 1)
  {
  }

  /** The page has a frame, and its entry carries these rights. */
  predicate MappedWith(mem: Memory, root: nat, vpn: nat, prot: nat) {
    Leaf(mem, root, vpn, 3).Some? && Carries(Leaf(mem, root, vpn, 3).value, prot)
  }

  /** Some region holds the address, and the processor lets user mode do to its page what that region
      lets it do and nothing else. */
  ghost predicate ProtectedAs(mem: Memory, root: nat, rs: seq<Regions.Region>, va: nat) {
    exists i :: 0 <= i < |rs| && Regions.Holds(rs[i], va) && Protected(mem, root, va / PAGE, rs[i].prot)
  }

  /** Pages of the range without a frame may have got one, with these rights; all else is mapped as before. */
  ghost predicate BackedWith(mem: Memory, mem': Memory, root: nat, lo: nat, hi: nat, prot: nat) {
    forall v: nat {:trigger Page(v)} :: Page(v) ==>
      || Leaf(mem', root, v, 3) == Leaf(mem, root, v, 3)
      || (lo <= v < hi && Leaf(mem, root, v, 3) == None && MappedWith(mem', root, v, prot))
  }

  lemma BackedNext(m0: Memory, m1: Memory, m2: Memory, root: nat, lo: nat, vpn: nat, prot: nat)
    requires BackedWith(m0, m1, root, lo, vpn, prot) && BackedWith(m1, m2, root, vpn, vpn + 1, prot) && lo <= vpn
    ensures BackedWith(m0, m2, root, lo, vpn + 1, prot)
  {
  }

  // ---- Demand paging -------------------------------------------------------------------------------

  /** Take a cleared frame and map it at a page that has none. */
  method BackPage(amm: Amm, root: nat, vpn: nat, prot: nat) returns (taken: bool)
    requires amm.Valid() && IsRoot(amm.View(), root) && vpn < USER_PAGES
    modifies amm`mem, amm`tables, amm`data, amm.phys`lists, amm.phys`info, amm.phys`freePages, amm.phys`live
    ensures amm.Valid()
    ensures taken <==> !old(amm.Exhausted())
    ensures taken ==> MappedWith(amm.mem, root, vpn, prot) || amm.Exhausted()
    ensures Leaf(amm.mem, root, vpn, 3) == old(Leaf(amm.mem, root, vpn, 3)) || MappedWith(amm.mem, root, vpn, prot)
    ensures !taken ==> amm.Exhausted() && Same(old(UsersOf(amm.View())), UsersOf(amm.View()))
    ensures Elsewhere(old(amm.mem), amm.mem, root, vpn)
    ensures OthersKeep(old(amm.phys.live), old(amm.View()), amm.phys.live, amm.View())
    ensures old(Translate(amm.mem, root, vpn)) == None ==> Same(old(UsersOf(amm.View())), UsersOf(amm.View()))
    ensures ClearsAtMost(old(UsersOf(amm.View())), UsersOf(amm.View()), root, vpn)
  {
    ghost var y0 := amm.View();
    var pa := amm.AllocZeroed();
    ghost var y1 := amm.View();
    ExtendingIsInvisible(y0, y1);
    if pa == 0 {
      return false;
    }
    ghost var l1 := amm.phys.live;
    ghost var ok := amm.MapPage(root, vpn, pa, prot);
    assert l1 - {BuddyBlocks.Block(pa, 0)} == old(amm.phys.live);
    BackedPage(y0, y1, amm.View(), root, vpn, pa, prot, ok);
    return true;
  }

  lemma BackedPage(y0: Layout, y1: Layout, y2: Layout, root: nat, vpn: nat, p: nat, prot: nat, ok: bool)
    requires Wired(y0) && Wired(y1) && Extends(y0, y1) && p < FRAMES && FrameAt(y1.mem, p) == Zeros(PAGE)
    requires IsRoot(y0, root) && vpn < USER_PAGES
    requires if ok then Maps(y1, y2, root, vpn, p, prot) else Extends(y1, y2)
    ensures Translate(y0.mem, root, vpn) == None ==> Same(UsersOf(y0), UsersOf(y2))
    ensures ClearsAtMost(UsersOf(y0), UsersOf(y2), root, vpn)
    ensures Elsewhere(y0.mem, y2.mem, root, vpn)
    ensures if ok then MappedWith(y2.mem, root, vpn, prot) else Leaf(y2.mem, root, vpn, 3) == Leaf(y0.mem, root, vpn, 3)
  {
    PageEntryDecodes(p, prot);
    ExtendingIsInvisible(y0, y1);
    var u0, u1, u2 := UsersOf(y0), UsersOf(y1), UsersOf(y2);
    if ok {
      MappingZeros(y1, y2, root, vpn, p, prot);
      SameThenClears(u0, u1, u2, root, vpn);
    } else {
      ExtendingIsInvisible(y1, y2);
    }
    if Same(u1, u2) {
      SameTransitive(u0, u1, u2);
    }
  }

  /** amm_page_fault.  On a page without a frame it changes no user byte anywhere; it never
      touches any other page. */
  method PageFault(amm: Amm, map_: Regions.VMap, addr: nat, write: bool) returns (ok: bool)
    requires amm.Valid() && map_.Valid() && IsRoot(amm.View(), map_.cr3)
    requires addr < USER_TOP || !Allows(map_.contents, addr, write)
    modifies amm`mem, amm`tables, amm`data, amm.phys`lists, amm.phys`info, amm.phys`freePages, amm.phys`live
    ensures amm.Valid()
    ensures ok <==> Allows(map_.contents, addr, write) && !old(amm.Exhausted())
    ensures ok ==> MappedAt(amm.mem, map_.cr3, addr) || amm.Exhausted()
    ensures ok ==> ProtectedAs(amm.mem, map_.cr3, map_.contents, addr) || amm.Exhausted()
    ensures !ok ==> Same(old(UsersOf(amm.View())), UsersOf(amm.View()))
    ensures !ok ==> amm.Exhausted() || !Allows(map_.contents, addr, write)
    ensures Elsewhere(old(amm.mem), amm.mem, map_.cr3, addr / PAGE)
    ensures OthersKeep(old(amm.phys.live), old(amm.View()), amm.phys.live, amm.View())
    ensures old(Translate(amm.mem, map_.cr3, addr / PAGE)) == None ==>
      Same(old(UsersOf(amm.View())), UsersOf(amm.View()))
    ensures ClearsAtMost(old(UsersOf(amm.View())), UsersOf(amm.View()), map_.cr3, addr / PAGE)
  {
    var r := map_.Find(addr);
    if r == null {
      return false;
    }
    if write && !ProtWrite(r.prot) {
      return false;
    }
    ok := BackPage(amm, map_.cr3, addr / PAGE, r.prot);
    if ok && !amm.Exhausted() {
      LeafProtects(amm.View(), map_.cr3, addr / PAGE, r.prot);
    }
  }

  /** The page behind the range, in 64-bit arithmetic. */
  function EndPage(base: nat, size: nat): nat { (((base + size) % WORD + PAGE - 1) % WORD) / PAGE }

  /** The end of the range wraps around to its start or below. */
  predicate Wraps(base: nat, size: nat) { EndPage(base, size) <= base / PAGE }

  lemma EndsInUserHalf(base: nat, size: nat)
    requires base + size <= USER_TOP
    ensures EndPage(base, size) == (base + size + PAGE - 1) / PAGE <= USER_PAGES
  {
  }

  /** All that backing the pages [lo, hi) does, stated behind a trigger because the loop only hands it on. */
  ghost predicate Populated(live: set<Block>, y: Layout, live': set<Block>, y': Layout, root: nat, lo: nat, hi: nat,
                            prot: nat) {
    forall k: nat {:trigger Asked(k)} :: Asked(k) ==>
      && Same(UsersOf(y), UsersOf(y')) && OthersKeep(live, y, live', y')
      && BackedWith(y.mem, y'.mem, root, lo, hi, prot)
  }

  lemma PopulatedNext(l0: set<Block>, y0: Layout, l1: set<Block>, y1: Layout, l2: set<Block>, y2: Layout, root: nat,
                      lo: nat, vpn: nat, hi: nat, prot: nat)
    requires Populated(l0, y0, l1, y1, root, lo, vpn, prot) && Populated(l1, y1, l2, y2, root, vpn, vpn + 1, prot)
    requires lo <= vpn < hi
    ensures Populated(l0, y0, l2, y2, root, lo, vpn + 1, prot) && Populated(l0, y0, l2, y2, root, lo, hi, prot)
  {
    assert Asked(0);
    SameTransitive(UsersOf(y0), UsersOf(y1), UsersOf(y2));
    OthersTransitive(l0, y0, l1, y1, l2, y2);
    BackedNext(y0.mem, y1.mem, y2.mem, root, lo, vpn, prot);
  }

  lemma PopulatedNone(live: set<Block>, y: Layout, root: nat, lo: nat, hi: nat, prot: nat)
    ensures Populated(live, y, live, y, root, lo, hi, prot)
  {
  }

  /** amm_region_populate: back every page of the range; the answer is the kernel address of its
      first byte, or None.  No user byte changes anywhere. */
  method Populate(amm: Amm, map_: Regions.VMap, base: nat, size: nat, prot: nat) returns (kva: Option<nat>)
    requires amm.Valid() && IsRoot(amm.View(), map_.cr3) && (base + size <= USER_TOP || Wraps(base, size))
    modifies amm`mem, amm`tables, amm`data, amm.phys`lists, amm.phys`info, amm.phys`freePages, amm.phys`live
    ensures amm.Valid()
    ensures Populated(old(amm.phys.live), old(amm.View()), amm.phys.live, amm.View(), map_.cr3, base / PAGE,
                      EndPage(base, size), prot)
    ensures kva == None ==> size == 0 || Wraps(base, size) || amm.Exhausted()
    ensures size == 0 || Wraps(base, size) ==> kva == None
    ensures kva.Some? ==> amm.Exhausted() || MappedRange(amm.mem, map_.cr3, base, base + size)
    ensures kva.Some? ==>
      Translate(amm.mem, map_.cr3, base / PAGE) == Some(kva.value / PAGE) && kva.value % PAGE == base % PAGE
  {
    var first, end := base / PAGE, EndPage(base, size);
    ghost var l0, y0 := amm.phys.live, amm.View();
    PopulatedNone(l0, y0, map_.cr3, first, end, prot);
    if size == 0 || end <= first {
      return None;
    }
    EndsInUserHalf(base, size);
    var done := PopulateLoop(amm, map_.cr3, first, end, prot);
    if !done {
      return None;
    }
    assert Page(first);
    if PagesMapped(amm.mem, map_.cr3, first, end) {
      MappedByPage(amm.mem, map_.cr3, base, size);
    }
    match Translate(amm.mem, map_.cr3, first) {
      case None => return None;
      case Some(f) => return Some(f * PAGE + base % PAGE);
    }
  }

  /** The loop of amm_region_populate. */
  method PopulateLoop(amm: Amm, root: nat, first: nat, end: nat, prot: nat) returns (done: bool)
    requires amm.Valid() && IsRoot(amm.View(), root) && first < end <= USER_PAGES
    modifies amm`mem, amm`tables, amm`data, amm.phys`lists, amm.phys`info, amm.phys`freePages, amm.phys`live
    ensures amm.Valid()
    ensures Populated(old(amm.phys.live), old(amm.View()), amm.phys.live, amm.View(), root, first, end, prot)
    ensures amm.Exhausted() || (done && PagesMapped(amm.mem, root, first, end))
  {
    ghost var l0, y0 := amm.phys.live, amm.View();
    PopulatedNone(l0, y0, root, first, first, prot);
    var vpn := first;
    while vpn < end
      invariant first <= vpn <= end
      invariant amm.Valid() && IsRoot(amm.View(), root)
      invariant amm.Exhausted() || PagesMapped(amm.mem, root, first, vpn)
      invariant Populated(l0, y0, amm.phys.live, amm.View(), root, first, vpn, prot)
    {
      ghost var l1, y1 := amm.phys.live, amm.View();
      var taken := PopulatePage(amm, root, vpn, prot, first);
      PopulatedNext(l0, y0, l1, y1, amm.phys.live, amm.View(), root, first, vpn, end, prot);
      if !taken {
        return false;
      }
      vpn := vpn + 1;
    }
    return true;
  }

  /** One round of amm_region_populate. */
  method PopulatePage(amm: Amm, root: nat, vpn: nat, prot: nat, ghost first: nat) returns (taken: bool)
    requires amm.Valid() && IsRoot(amm.View(), root) && vpn < USER_PAGES && first <= vpn
    requires amm.Exhausted() || PagesMapped(amm.mem, root, first, vpn)
    modifies amm`mem, amm`tables, amm`data, amm.phys`lists, amm.phys`info, amm.phys`freePages, amm.phys`live
    ensures amm.Valid() && IsRoot(amm.View(), root)
    ensures Populated(old(amm.phys.live), old(amm.View()), amm.phys.live, amm.View(), root, vpn, vpn + 1, prot)
    ensures amm.Exhausted() || (taken && PagesMapped(amm.mem, root, first, vpn + 1))
  {
    assert Page(vpn);
    if Translate(amm.mem, root, vpn) != None {
      return true;
    }
    taken := BackPage(amm, root, vpn, prot);
  }

  // ---- The copy loops --------------------------------------------------------------------------------

  /** user_access_page: make sure the page has a frame. */
  method AccessPage(amm: Amm, map_: Regions.VMap, va: nat, forWrite: bool) returns (ok: bool)
    requires amm.Valid() && map_.Valid() && IsRoot(amm.View(), map_.cr3)
    requires va < USER_TOP || !Allows(map_.contents, va, forWrite)
    modifies amm`mem, amm`tables, amm`data, amm.phys`lists, amm.phys`info, amm.phys`freePages, amm.phys`live
    ensures amm.Valid() && Same(old(UsersOf(amm.View())), UsersOf(amm.View()))
    ensures Verdict(ok, old(MappedAt(amm.mem, map_.cr3, va)), Allows(map_.contents, va, forWrite), amm.Exhausted())
    ensures ok ==> MappedAt(amm.mem, map_.cr3, va) || (amm.Exhausted() && !old(MappedAt(amm.mem, map_.cr3, va)))
    ensures ok && !old(MappedAt(amm.mem, map_.cr3, va)) ==>
      ProtectedAs(amm.mem, map_.cr3, map_.contents, va) || amm.Exhausted()
    ensures Elsewhere(old(amm.mem), amm.mem, map_.cr3, va / PAGE)
    ensures OthersKeep(old(amm.phys.live), old(amm.View()), amm.phys.live, amm.View())
  {
    if Translate(amm.mem, map_.cr3, va / PAGE).Some? {
      return true;
    }
    ok := PageFault(amm, map_, va, forWrite);
  }

  predicate Entered(k: nat) { true }

  /** The map's address space is in order; stated behind a trigger because copying only hands it on. */
  ghost predicate Attached(amm: Amm, map_: Regions.VMap)
    reads amm, amm.phys, map_, map_.nodes
  {
    forall k: nat {:trigger Entered(k)} :: Entered(k) ==> amm.Valid() && map_.Valid() && IsRoot(amm.View(), map_.cr3)
  }

  function Min(a: nat, b: nat): nat { if a < b then a else b }

  /** When a copy succeeds, every page of the range was mapped or permitted; when it fails, some page
      was not, or memory ran out before an unmapped page could be backed. */
  ghost predicate Copied(ok: bool, mem: Memory, root: nat, rs: seq<Regions.Region>, lo: nat, hi: nat, write: bool,
                         exhausted: bool) {
    if ok then Permitted(mem, root, rs, lo, hi, write)
    else !Permitted(mem, root, rs, lo, hi, write) || (exhausted && !MappedRange(mem, root, lo, hi))
  }

  /** d bytes of the range are done: so far every page was fit, and the rest is mapped as at first. */
  ghost predicate Advanced(m0: Memory, mem: Memory, root: nat, rs: seq<Regions.Region>, lo: nat, d: nat, n: nat,
                           write: bool) {
    && Permitted(m0, root, rs, lo, lo + d, write)
    && (d < n ==> (d == 0 || (lo + d) % PAGE == 0) && SameFrom(m0, mem, root, (lo + d) / PAGE))
  }

  /** What one round adds to what is known about the whole range. */
  lemma RoundAdvances(m0: Memory, m1: Memory, m2: Memory, root: nat, rs: seq<Regions.Region>, lo: nat, d: nat,
                      chunk: nat, n: nat, write: bool, ok: bool, dry: bool)
    requires d < n && lo + n <= USER_TOP && chunk == Min(PAGE - (lo + d) % PAGE, n - d)
    requires Advanced(m0, m1, root, rs, lo, d, n, write) && Elsewhere(m1, m2, root, (lo + d) / PAGE)
    requires Verdict(ok, MappedAt(m1, root, lo + d), Allows(rs, lo + d, write), dry)
    ensures ok ==> Advanced(m0, m2, root, rs, lo, d + chunk, n, write)
    ensures !ok ==> Copied(ok, m0, root, rs, lo, lo + n, write, dry)
  {
    var vpn := (lo + d) / PAGE;
    assert Page(vpn);
    SameFromNext(m0, m1, m2, root, vpn);
    assert MappedAt(m0, root, lo + d) <==> MappedAt(m1, root, lo + d);
    if ok {
      PermittedGrows(m0, root, rs, lo, d, chunk, write);
      if d + chunk < n {
        NextPage(lo + d);
      }
    }
  }

  lemma NextPage(va: nat)
    ensures (va + (PAGE - va % PAGE)) / PAGE == va / PAGE + 1 && (va + (PAGE - va % PAGE)) % PAGE == 0
  {
  }

  /** copy_to_user.  A null pointer on either side, or n == 0, is an immediate success that copies
      nothing.  Otherwise exactly the first `done` bytes are stored at udst and no other byte of any
      address space changes; on success that is all n. */
  method CopyToUser(amm: Amm, current: Regions.VMap?, udst: nat, ksrc: array?<Byte>, n: nat)
    returns (ok: bool, ghost done: nat)
    requires amm.Valid() && (current != null ==> current.Valid() && IsRoot(amm.View(), current.cr3))
    requires ksrc != null ==> n <= ksrc.Length
    requires udst + n <= USER_TOP
    modifies amm`mem, amm`tables, amm`data, amm.phys`lists, amm.phys`info, amm.phys`freePages, amm.phys`live
    ensures amm.Valid() && done <= n
    ensures current == null || udst == 0 || ksrc == null || n == 0 ==> done == 0
    ensures done > 0 ==> Stored(old(UsersOf(amm.View())), UsersOf(amm.View()), current.cr3, udst, ksrc[..done])
    ensures done == 0 ==> Same(old(UsersOf(amm.View())), UsersOf(amm.View()))
    ensures ok ==> done == n || udst == 0 || ksrc == null
    ensures udst != 0 && ksrc != null && n > 0 && current == null ==> !ok
    ensures udst != 0 && ksrc != null && n > 0 && current != null ==>
      Copied(ok, old(amm.mem), current.cr3, current.contents, udst, udst + n, true, amm.Exhausted())
    ensures udst == 0 || ksrc == null || n == 0 ==> ok
    ensures OthersKeep(old(amm.phys.live), old(amm.View()), amm.phys.live, amm.View())
  {
    done := 0;
    if udst == 0 || ksrc == null || n == 0 {
      return true, 0;
    }
    if current == null {
      return false, 0;
    }
    ok, done := StoreLoop(amm, current, udst, ksrc, n);
    assert Entered(0);
  }

  /** The page-by-page loop of copy_to_user. */
  method StoreLoop(amm: Amm, map_: Regions.VMap, udst: nat, ksrc: array<Byte>, n: nat)
    returns (ok: bool, ghost done: nat)
    requires Attached(amm, map_)
    requires n <= ksrc.Length && udst + n <= USER_TOP
    modifies amm`mem, amm`tables, amm`data, amm.phys`lists, amm.phys`info, amm.phys`freePages, amm.phys`live
    ensures Attached(amm, map_) && done <= n && (ok ==> done == n)
    ensures Stored(old(UsersOf(amm.View())), UsersOf(amm.View()), map_.cr3, udst, ksrc[..done])
    ensures done == 0 ==> Same(old(UsersOf(amm.View())), UsersOf(amm.View()))
    ensures Copied(ok, old(amm.mem), map_.cr3, map_.contents, udst, udst + n, true, amm.Exhausted())
    ensures OthersKeep(old(amm.phys.live), old(amm.View()), amm.phys.live, amm.View())
  {
    ghost var u0, m0, l0, y0 := UsersOf(amm.View()), amm.mem, amm.phys.live, amm.View();
    OthersIdle(l0, y0);
    var d := 0;
    StoredNothing(u0, u0, map_.cr3, udst);
    ok := true;
    while d < n && ok
      invariant 0 <= d <= n && Attached(amm, map_)
      invariant Stored(u0, UsersOf(amm.View()), map_.cr3, udst, ksrc[..d])
      invariant if ok then Advanced(m0, amm.mem, map_.cr3, map_.contents, udst, d, n, true)
                else Copied(false, m0, map_.cr3, map_.contents, udst, udst + n, true, amm.Exhausted())
      invariant OthersKeep(l0, y0, amm.phys.live, amm.View())
      decreases n - d, ok
    {
      ghost var l1, y1 := amm.phys.live, amm.View();
      ok, d := StoreRound(amm, map_, udst, ksrc, d, n, u0, m0);
      OthersTransitive(l0, y0, l1, y1, amm.phys.live, amm.View());
    }
    done := d;
    StoredNothing(u0, UsersOf(amm.View()), map_.cr3, udst);
  }

  /** One round: choose the part that lies in one page and store it. */
  method StoreRound(amm: Amm, map_: Regions.VMap, udst: nat, ksrc: array<Byte>, d: nat, n: nat, ghost u0: Users,
                    ghost m0: Memory)
    returns (ok: bool, next: nat)
    requires Attached(amm, map_) && d < n <= ksrc.Length && udst + n <= USER_TOP
    requires Stored(u0, UsersOf(amm.View()), map_.cr3, udst, ksrc[..d])
    requires Advanced(m0, amm.mem, map_.cr3, map_.contents, udst, d, n, true)
    modifies amm`mem, amm`tables, amm`data, amm.phys`lists, amm.phys`info, amm.phys`freePages, amm.phys`live
    ensures Attached(amm, map_) && next <= n && (if ok then d < next else d == next)
    ensures Stored(u0, UsersOf(amm.View()), map_.cr3, udst, ksrc[..next])
    ensures ok ==> Advanced(m0, amm.mem, map_.cr3, map_.contents, udst, next, n, true)
    ensures !ok ==> Copied(false, m0, map_.cr3, map_.contents, udst, udst + n, true, amm.Exhausted())
    ensures OthersKeep(old(amm.phys.live), old(amm.View()), amm.phys.live, amm.View())
  {
    var va := udst + d;
    var chunk := Min(PAGE - va % PAGE, n - d);
    ghost var m1, head, part := amm.mem, ksrc[..d], ksrc[d..d + chunk];
    assert head + part == ksrc[..d + chunk];
    ok := StoreStep(amm, map_, va, ksrc, d, chunk, udst, head, part, u0);
    RoundAdvances(m0, m1, amm.mem, map_.cr3, map_.contents, udst, d, chunk, n, true, ok, amm.Exhausted());
    next := if ok then d + chunk else d;
  }

  /** One round, extending the bytes `head` already stored; u0 is user memory when the copy began. */
  method StoreStep(amm: Amm, map_: Regions.VMap, va: nat, ksrc: array<Byte>, d: nat, chunk: nat, ghost udst: nat,
                   ghost head: seq<Byte>, ghost part: seq<Byte>, ghost u0: Users)
    returns (ok: bool)
    requires Attached(amm, map_)
    requires va == udst + |head| && va < USER_TOP && va % PAGE + chunk <= PAGE && chunk > 0 && d + chunk <= ksrc.Length
    requires part == ksrc[d..d + chunk] && Stored(u0, UsersOf(amm.View()), map_.cr3, udst, head)
    modifies amm`mem, amm`tables, amm`data, amm.phys`lists, amm.phys`info, amm.phys`freePages, amm.phys`live
    ensures Attached(amm, map_)
    ensures ok ==> Stored(u0, UsersOf(amm.View()), map_.cr3, udst, head + part)
    ensures !ok ==> Stored(u0, UsersOf(amm.View()), map_.cr3, udst, head)
    ensures Verdict(ok, old(MappedAt(amm.mem, map_.cr3, va)), Allows(map_.contents, va, true), amm.Exhausted())
    ensures Elsewhere(old(amm.mem), amm.mem, map_.cr3, va / PAGE)
    ensures OthersKeep(old(amm.phys.live), old(amm.View()), amm.phys.live, amm.View())
  {
    ghost var u1 := UsersOf(amm.View());
    ok := StoreToPage(amm, map_, va, ksrc, d, chunk, part);
    StoredMaybe(u0, u1, UsersOf(amm.View()), map_.cr3, udst, va, head, part, ok);
  }

  lemma StoredMaybe(u: Users, v: Users, w: Users, root: nat, lo: nat, mid: nat, bs: seq<Byte>, cs: seq<Byte>, ok: bool)
    requires mid == lo + |bs| && Stored(u, v, root, lo, bs) && (ok ==> Stored(v, w, root, mid, cs))
    requires (!ok ==> Same(v, w))
    ensures ok ==> Stored(u, w, root, lo, bs + cs)
    ensures !ok ==> Stored(u, w, root, lo, bs)
  {
    if ok {
      StoredThenStored(u, v, w, root, lo, bs, cs);
    } else {
      StoredThenSame(u, v, w, root, lo, bs);
    }
  }

  /** One round of copy_to_user: the part of the copy that lies in one page. */
  method StoreToPage(amm: Amm, map_: Regions.VMap, va: nat, src: array<Byte>, from: nat, chunk: nat,
                     ghost bs: seq<Byte>)
    returns (ok: bool)
    requires Attached(amm, map_)
    requires va < USER_TOP && va % PAGE + chunk <= PAGE && chunk > 0 && from + chunk <= src.Length
    requires bs == src[from..from + chunk]
    modifies amm`mem, amm`tables, amm`data, amm.phys`lists, amm.phys`info, amm.phys`freePages, amm.phys`live
    ensures Attached(amm, map_)
    ensures ok ==> Stored(old(UsersOf(amm.View())), UsersOf(amm.View()), map_.cr3, va, bs)
    ensures !ok ==> Same(old(UsersOf(amm.View())), UsersOf(amm.View()))
    ensures Verdict(ok, old(MappedAt(amm.mem, map_.cr3, va)), Allows(map_.contents, va, true), amm.Exhausted())
    ensures Elsewhere(old(amm.mem), amm.mem, map_.cr3, va / PAGE)
    ensures OthersKeep(old(amm.phys.live), old(amm.View()), amm.phys.live, amm.View())
  {
    assert Entered(0);
    ok := AccessPage(amm, map_, va, true);
    if !ok {
      return;
    }
    var t := Translate(amm.mem, map_.cr3, va / PAGE);
    if t == None {
      return false;
    }
    ghost var u, l1, y1 := UsersOf(amm.View()), amm.phys.live, amm.View();
    WriteFrame(amm, map_.cr3, va, t.value, src, from, chunk);
    OthersTransitive(old(amm.phys.live), old(amm.View()), l1, y1, l1, amm.View());
    SameThenStored(old(UsersOf(amm.View())), u, UsersOf(amm.View()), map_.cr3, va, bs);
  }

  method WriteFrame(amm: Amm, ghost root: nat, va: nat, f: nat, src: array<Byte>, from: nat, chunk: nat)
    requires amm.Valid() && IsRoot(amm.View(), root) && Translate(amm.mem, root, va / PAGE) == Some(f)
    requires va < USER_TOP && va % PAGE + chunk <= PAGE && chunk > 0 && from + chunk <= src.Length
    modifies amm`mem
    ensures amm.Valid() && Stored(old(UsersOf(amm.View())), UsersOf(amm.View()), root, va, src[from..from + chunk])
    ensures SameMap(old(amm.mem), amm.mem, root)
    ensures OthersKeep(amm.phys.live, old(amm.View()), amm.phys.live, amm.View())
  {
    ghost var y, bs := amm.View(), src[from..from + chunk];
    StoreInFrame(y, root, va, bs);
    PokedMap(y, root, va / PAGE, va % PAGE, bs);
    TranslationOwned(y, root, va / PAGE);
    PokedOthers(amm.phys.live, y, f, va % PAGE, bs);
    PokeLoop(amm, f, va % PAGE, src, from, chunk);
    assert amm.View() == y.(mem := Poked(y.mem, f, va % PAGE, bs));
  }

  /** The inner byte loop of copy_to_user, through the kernel's view of frame f. */
  method PokeLoop(amm: Amm, f: nat, off: nat, src: array<Byte>, from: nat, chunk: nat)
    requires off + chunk <= PAGE && from + chunk <= src.Length && chunk > 0
    modifies amm`mem
    ensures amm.mem == Poked(old(amm.mem), f, off, src[from..from + chunk])
  {
    for i := 0 to chunk
      invariant i == 0 ==> amm.mem == old(amm.mem)
      invariant i > 0 ==> amm.mem == Poked(old(amm.mem), f, off, src[from..from + i])
    {
      PokeOne(old(amm.mem), f, off, src[from..from + i], src[from + i]);
      assert src[from..from + i + 1] == src[from..from + i] + [src[from + i]];
      amm.mem := amm.mem[f := FrameAt(amm.mem, f)[off + i := src[from + i]]];
    }
  }

  lemma PokeOne(mem: Memory, f: nat, off: nat, bs: seq<Byte>, b: Byte)
    requires off + |bs| < PAGE
    ensures var fr := if bs == [] then FrameAt(mem, f) else FrameAt(Poked(mem, f, off, bs), f);
      fr[off + |bs| := b] == FrameAt(Poked(mem, f, off, bs + [b]), f)
  {
  }

  /** copy_from_user.  On success the buffer holds the user's bytes; on any outcome no user byte
      changes, although pages may have been given frames. */
  method CopyFromUser(amm: Amm, current: Regions.VMap?, kdst: array?<Byte>, usrc: nat, n: nat) returns (ok: bool)
    requires amm.Valid() && (current != null ==> current.Valid() && IsRoot(amm.View(), current.cr3))
    requires kdst != null ==> n <= kdst.Length
    requires usrc + n <= USER_TOP
    modifies amm`mem, amm`tables, amm`data, amm.phys`lists, amm.phys`info, amm.phys`freePages, amm.phys`live
    modifies if kdst == null then {} else {kdst}
    ensures amm.Valid() && Same(old(UsersOf(amm.View())), UsersOf(amm.View()))
    ensures ok && kdst != null && usrc != 0 && n > 0 ==>
      && current != null && kdst[..n] == Slice(old(UsersOf(amm.View())), current.cr3, usrc, n)
      && kdst[n..] == old(kdst[n..])
    ensures kdst == null || usrc == 0 || n == 0 ==> ok
    ensures OthersKeep(old(amm.phys.live), old(amm.View()), amm.phys.live, amm.View())
    ensures kdst != null && usrc != 0 && n > 0 && current == null ==> !ok
    ensures kdst != null && usrc != 0 && n > 0 && current != null ==>
      Copied(ok, old(amm.mem), current.cr3, current.contents, usrc, usrc + n, false, amm.Exhausted())
  {
    if kdst == null || usrc == 0 || n == 0 {
      return true;
    }
    if current == null {
      return false;
    }
    ok := LoadLoop(amm, current, kdst, usrc, n);
    assert Entered(0);
  }

  /** The page-by-page loop of copy_from_user. */
  method LoadLoop(amm: Amm, map_: Regions.VMap, kdst: array<Byte>, usrc: nat, n: nat) returns (ok: bool)
    requires Attached(amm, map_) && map_.cr3 in UsersOf(amm.View()).roots
    requires n <= kdst.Length && usrc + n <= USER_TOP
    modifies amm`mem, amm`tables, amm`data, amm.phys`lists, amm.phys`info, amm.phys`freePages, amm.phys`live, kdst
    ensures Attached(amm, map_) && Same(old(UsersOf(amm.View())), UsersOf(amm.View()))
    ensures ok ==> kdst[..n] == Slice(old(UsersOf(amm.View())), map_.cr3, usrc, n)
    ensures kdst[n..] == old(kdst[n..])
    ensures Copied(ok, old(amm.mem), map_.cr3, map_.contents, usrc, usrc + n, false, amm.Exhausted())
    ensures OthersKeep(old(amm.phys.live), old(amm.View()), amm.phys.live, amm.View())
  {
    ghost var u0, m0, l0, y0 := UsersOf(amm.View()), amm.mem, amm.phys.live, amm.View();
    OthersIdle(l0, y0);
    var d := 0;
    while d < n
      invariant 0 <= d <= n && Attached(amm, map_) && Same(u0, UsersOf(amm.View()))
      invariant kdst[..d] == Slice(u0, map_.cr3, usrc, d)
      invariant Advanced(m0, amm.mem, map_.cr3, map_.contents, usrc, d, n, false)
      invariant OthersKeep(l0, y0, amm.phys.live, amm.View())
      invariant kdst[n..] == old(kdst[n..])
    {
      ghost var l1, y1 := amm.phys.live, amm.View();
      ok, d := LoadRound(amm, map_, kdst, usrc, d, n, u0, m0);
      OthersTransitive(l0, y0, l1, y1, amm.phys.live, amm.View());
      if !ok {
        return;
      }
    }
    ok := true;
  }

  /** One round: choose the part that lies in one page and load it. */
  method LoadRound(amm: Amm, map_: Regions.VMap, kdst: array<Byte>, usrc: nat, d: nat, n: nat, ghost u0: Users,
                   ghost m0: Memory)
    returns (ok: bool, next: nat)
    requires Attached(amm, map_) && Same(u0, UsersOf(amm.View())) && map_.cr3 in u0.roots
    requires d < n <= kdst.Length && usrc + n <= USER_TOP && kdst[..d] == Slice(u0, map_.cr3, usrc, d)
    requires Advanced(m0, amm.mem, map_.cr3, map_.contents, usrc, d, n, false)
    modifies amm`mem, amm`tables, amm`data, amm.phys`lists, amm.phys`info, amm.phys`freePages, amm.phys`live, kdst
    ensures Attached(amm, map_) && Same(u0, UsersOf(amm.View())) && kdst[n..] == old(kdst[n..]) && d < next <= n
    ensures ok ==>
      && kdst[..next] == Slice(u0, map_.cr3, usrc, next)
      && Advanced(m0, amm.mem, map_.cr3, map_.contents, usrc, next, n, false)
    ensures !ok ==> Copied(false, m0, map_.cr3, map_.contents, usrc, usrc + n, false, amm.Exhausted())
    ensures OthersKeep(old(amm.phys.live), old(amm.View()), amm.phys.live, amm.View())
  {
    var chunk := Min(PAGE - (usrc + d) % PAGE, n - d);
    ghost var m1 := amm.mem;
    ok := LoadStep(amm, map_, kdst, usrc, d, chunk, n, u0);
    RoundAdvances(m0, m1, amm.mem, map_.cr3, map_.contents, usrc, d, chunk, n, false, ok, amm.Exhausted());
    next := d + chunk;
  }

  /** One round, extending the bytes already loaded; u0 is user memory when the copy began. */
  method LoadStep(amm: Amm, map_: Regions.VMap, kdst: array<Byte>, usrc: nat, d: nat, chunk: nat, ghost n: nat,
                  ghost u0: Users)
    returns (ok: bool)
    requires Attached(amm, map_)
    requires Same(u0, UsersOf(amm.View())) && map_.cr3 in u0.roots
    requires usrc + d + chunk <= USER_TOP && (usrc + d) % PAGE + chunk <= PAGE && chunk > 0
    requires d + chunk <= n <= kdst.Length
    requires kdst[..d] == Slice(u0, map_.cr3, usrc, d)
    modifies amm`mem, amm`tables, amm`data, amm.phys`lists, amm.phys`info, amm.phys`freePages, amm.phys`live, kdst
    ensures Attached(amm, map_) && Same(u0, UsersOf(amm.View()))
    ensures ok ==> kdst[..d + chunk] == Slice(u0, map_.cr3, usrc, d + chunk)
    ensures kdst[n..] == old(kdst[n..])
    ensures Verdict(ok, old(MappedAt(amm.mem, map_.cr3, usrc + d)), Allows(map_.contents, usrc + d, false),
                    amm.Exhausted())
    ensures Elsewhere(old(amm.mem), amm.mem, map_.cr3, (usrc + d) / PAGE)
    ensures OthersKeep(old(amm.phys.live), old(amm.View()), amm.phys.live, amm.View())
  {
    ghost var u1, got, root := UsersOf(amm.View()), kdst[..d], map_.cr3;
    ghost var rest := kdst[d + chunk..];
    assert kdst[n..] == rest[n - d - chunk..];
    ok := LoadFromPage(amm, map_, usrc + d, kdst, d, chunk);
    assert kdst[n..] == rest[n - d - chunk..];
    SameTransitive(u0, u1, UsersOf(amm.View()));
    if ok {
      ghost var more := Slice(u0, root, usrc + d, chunk);
      SliceSame(u0, u1, root, usrc + d, chunk);
      SliceAppend(u0, root, usrc, d, chunk);
      assert kdst[..d + chunk] == kdst[..d] + kdst[d..d + chunk] == got + more;
    }
  }

  /** One round of copy_from_user: the part of the copy that lies in one page. */
  method LoadFromPage(amm: Amm, map_: Regions.VMap, va: nat, dst: array<Byte>, at: nat, chunk: nat) returns (ok: bool)
    requires Attached(amm, map_)
    requires va < USER_TOP && va % PAGE + chunk <= PAGE && chunk > 0 && at + chunk <= dst.Length
    modifies amm`mem, amm`tables, amm`data, amm.phys`lists, amm.phys`info, amm.phys`freePages, amm.phys`live, dst
    ensures Attached(amm, map_) && Same(old(UsersOf(amm.View())), UsersOf(amm.View()))
    ensures dst[..at] == old(dst[..at]) && dst[at + chunk..] == old(dst[at + chunk..])
    ensures ok ==> dst[at..at + chunk] == Slice(old(UsersOf(amm.View())), map_.cr3, va, chunk)
    ensures Verdict(ok, old(MappedAt(amm.mem, map_.cr3, va)), Allows(map_.contents, va, false), amm.Exhausted())
    ensures Elsewhere(old(amm.mem), amm.mem, map_.cr3, va / PAGE)
    ensures OthersKeep(old(amm.phys.live), old(amm.View()), amm.phys.live, amm.View())
  {
    assert Entered(0);
    ok := AccessPage(amm, map_, va, false);
    if !ok {
      return;
    }
    var t := Translate(amm.mem, map_.cr3, va / PAGE);
    if t == None {
      return false;
    }
    SliceSame(old(UsersOf(amm.View())), UsersOf(amm.View()), map_.cr3, va, chunk);
    ReadFrame(amm, map_.cr3, va, t.value, dst, at, chunk);
  }

  method ReadFrame(amm: Amm, ghost root: nat, va: nat, f: nat, dst: array<Byte>, at: nat, chunk: nat)
    requires Translate(amm.mem, root, va / PAGE) == Some(f) && va % PAGE + chunk <= PAGE && at + chunk <= dst.Length
    modifies dst
    ensures dst[..at] == old(dst[..at]) && dst[at + chunk..] == old(dst[at + chunk..])
    ensures dst[at..at + chunk] == Slice(UsersOf(amm.View()), root, va, chunk)
  {
    PageBytes(amm.View(), root, va, chunk, f);
    PeekLoop(amm, f, va % PAGE, dst, at, chunk);
  }

  /** Within one page, user bytes are the bytes of its frame. */
  lemma PageBytes(y: Layout, root: nat, va: nat, chunk: nat, f: nat)
    requires va % PAGE + chunk <= PAGE && Translate(y.mem, root, va / PAGE) == Some(f)
    ensures Slice(UsersOf(y), root, va, chunk) == FrameAt(y.mem, f)[va % PAGE..va % PAGE + chunk]
  {
    var u, bs := UsersOf(y), FrameAt(y.mem, f)[va % PAGE..va % PAGE + chunk];
    forall i | 0 <= i < chunk
      ensures Slice(u, root, va, chunk)[i] == bs[i]
    {
      PageByte(y, root, va, i, f);
    }
  }

  lemma PageByte(y: Layout, root: nat, va: nat, i: nat, f: nat)
    requires va % PAGE + i < PAGE && Translate(y.mem, root, va / PAGE) == Some(f)
    ensures UserByte(y, root, va + i) == FrameAt(y.mem, f)[va % PAGE + i]
  {
    InPage(va + i, va / PAGE, va % PAGE, i + 1);
  }

  /** The inner byte loop of copy_from_user. */
  method PeekLoop(amm: Amm, f: nat, off: nat, dst: array<Byte>, at: nat, chunk: nat)
    requires off + chunk <= PAGE && at + chunk <= dst.Length
    modifies dst
    ensures dst[..at] == old(dst[..at]) && dst[at + chunk..] == old(dst[at + chunk..])
    ensures dst[at..at + chunk] == FrameAt(amm.mem, f)[off..off + chunk]
  {
    ghost var frame := FrameAt(amm.mem, f);
    for i := 0 to chunk
      invariant forall k :: 0 <= k < dst.Length ==>
        dst[k] == if at <= k < at + i then frame[off + (k - at)] else old(dst[k])
    {
      dst[at + i] := FrameAt(amm.mem, f)[off + i];
    }
  }
}
