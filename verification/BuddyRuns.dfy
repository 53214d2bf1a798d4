/** Whole runs of the physical allocator: boot-time release of the usable ranges, then any
    sequence of allocations and frees. */
module BuddyRuns {
  import opened Bits
  import opened BuddyBlocks
  import opened BuddySpec
  import opened BuddyProofs

  // ---- Runs ----------------------------------------------------------------------------------

  datatype Op = OpAlloc(order: nat) | OpFree(b: Block)

  /** The allocator together with the blocks its clients hold. */
  datatype World = World(phys: Phys, live: set<Block>)

  /** Clients free only blocks they hold, with the order they were given. */
  ghost predicate Legal(w: World, op: Op) {
    WellFormed(w.phys) && (op.OpFree? ==> op.b in w.live && op.b.order <= MAX_ORDER)
  }

  ghost function Step(w: World, op: Op): (r: World)
    requires Legal(w, op)
    ensures WellFormed(r.phys)
  {
    match op
    case OpAlloc(order) =>
      var a := Alloc(w.phys, order);
      World(a.phys, if a.base == 0 then w.live else w.live + {Block(a.base, order)})
    case OpFree(b) => World(Free(w.phys, b), w.live - {b})
  }

  /** `ops` is a legal run from `first` to `last`. */
  ghost predicate Run(first: World, ops: seq<Op>, last: World)
    decreases |ops|
  {
    if ops == [] then first == last
    else Legal(first, ops[0]) && Run(Step(first, ops[0]), ops[1..], last)
  }

  lemma StepKeeps(w: World, op: Op, m: set<nat>)
    requires Invariant(w.phys, w.live, m) && 0 !in m && Legal(w, op)
    ensures Invariant(Step(w, op).phys, Step(w, op).live, m)
    ensures Coalesced(FreeSet(w.phys)) ==> Coalesced(FreeSet(Step(w, op).phys))
  {
    match op
    case OpAlloc(order) => AllocKeeps(w.phys, w.live, m, order);
    case OpFree(b) =>
      assert w.live - {b} + {b} == w.live;
      FreeKeeps(w.phys, w.live - {b}, m, b);
  }

  /** Over every run, free and live blocks are aligned, pairwise apart and exactly tile the
      managed frames, the metadata of every block head is accurate, and the page counter is the
      sum over the lists; and a fully coalesced allocator stays fully coalesced. */
  lemma {:induction false} RunKeeps(first: World, ops: seq<Op>, last: World, m: set<nat>)
    requires Run(first, ops, last) && Invariant(first.phys, first.live, m) && 0 !in m
    ensures Invariant(last.phys, last.live, m)
    ensures Coalesced(FreeSet(first.phys)) ==> Coalesced(FreeSet(last.phys))
    decreases |ops|
  {
    if ops != [] {
      StepKeeps(first, ops[0], m);
      RunKeeps(Step(first, ops[0]), ops[1..], last, m);
    }
  }

  // ---- Conservation of pages -----------------------------------------------------------------

  ghost function HeldPages(t: set<Block>): nat {
    if t == {} then 0
    else
      var b :| b in t;
      Pow2(b.order) + HeldPages(t - {b})
  }

  lemma {:induction false} HeldPagesRemove(t: set<Block>, b: Block)
    requires b in t
    ensures HeldPages(t) == Pow2(b.order) + HeldPages(t - {b})
    decreases |t|
  {
    var c :| c in t && HeldPages(t) == Pow2(c.order) + HeldPages(t - {c});
    if b != c {
      HeldPagesRemove(t - {c}, b);
      HeldPagesRemove(t - {b}, c);
      assert t - {c} - {b} == t - {b} - {c};
    }
  }

  /** Freeing a block gives back exactly its pages, however far it coalesces. */
  lemma {:induction false} FreeAddsPages(s: Phys, live: set<Block>, m: set<nat>, b: Block)
    requires Consistent(s, live + {b}, m) && LiveMarked(s, live) && b !in live && b.order <= MAX_ORDER
    ensures Free(s, b).freePages == s.freePages + Pow2(b.order)
    decreases MAX_ORDER - b.order
  {
    BuddyTestIsExact(s, live, m, b);
    if b.order < MAX_ORDER && IsFree(s, BuddyOf(b)) {
      CoalesceStep(s, live, m, b);
      FreeAddsPages(Unlink(s, BuddyOf(b)), live, m, ParentOf(b));
    }
  }

  lemma {:induction false} SplitAddsPages(s: Phys, p: Block, order: nat)
    requires WellFormed(s) && order <= p.order <= MAX_ORDER
    ensures Split(s, p, order).freePages == s.freePages + Pow2(p.order) - Pow2(order)
    decreases p.order
  {
    if order < p.order {
      SplitAddsPages(PushFree(s, BuddyOf(LowerHalf(p))), LowerHalf(p), order);
    }
  }

  lemma StepConservesPages(w: World, op: Op, m: set<nat>)
    requires Invariant(w.phys, w.live, m) && 0 !in m && Legal(w, op)
    ensures Step(w, op).phys.freePages + HeldPages(Step(w, op).live) == w.phys.freePages + HeldPages(w.live)
  {
    match op
    case OpAlloc(order) =>
      AllocKeeps(w.phys, w.live, m, order);
      var a := Alloc(w.phys, order);
      if a.base != 0 {
        var o, b := FirstNonEmpty(w.phys, order), Block(a.base, order);
        SplitAddsPages(Pop(w.phys, o), Block(a.base, o), order);
        HeldPagesRemove(w.live + {b}, b);
        assert w.live + {b} - {b} == w.live;
      }
    case OpFree(b) =>
      assert w.live - {b} + {b} == w.live;
      FreeAddsPages(w.phys, w.live - {b}, m, b);
      HeldPagesRemove(w.live, b);
  }

  /** Over every run no page is lost or duplicated. */
  lemma {:induction false} RunConservesPages(first: World, ops: seq<Op>, last: World, m: set<nat>)
    requires Run(first, ops, last) && Invariant(first.phys, first.live, m) && 0 !in m
    ensures last.phys.freePages + HeldPages(last.live) == first.phys.freePages + HeldPages(first.live)
    decreases |ops|
  {
    if ops != [] {
      StepKeeps(first, ops[0], m);
      StepConservesPages(first, ops[0], m);
      RunConservesPages(Step(first, ops[0]), ops[1..], last, m);
    }
  }

  // ---- Returning to an earlier state ---------------------------------------------------------

  /** Freeing everything brings back exactly the initial set of free blocks. */
  lemma RunThatFreesAllRestores(first: World, ops: seq<Op>, last: World, m: set<nat>)
    requires Run(first, ops, last) && Invariant(first.phys, first.live, m) && 0 !in m
    requires Coalesced(FreeSet(first.phys)) && first.live == last.live == {}
    ensures FreeSet(last.phys) == FreeSet(first.phys) && last.phys.freePages == first.phys.freePages
  {
    RunKeeps(first, ops, last, m);
    assert FreeSet(first.phys) + {} == FreeSet(first.phys) && FreeSet(last.phys) + {} == FreeSet(last.phys);
    CoalescedTilingUnique(FreeSet(first.phys), FreeSet(last.phys), m);
    RunConservesPages(first, ops, last, m);
  }

  /** The deallocation algorithm as designed: test list membership, not metadata. */
  function DesignedFree(lists: seq<seq<nat>>, b: Block): seq<seq<nat>>
    requires |lists| == MAX_ORDER + 1 && b.order <= MAX_ORDER
    decreases MAX_ORDER - b.order
  {
    if b.order < MAX_ORDER && BuddyOf(b).base in lists[b.order] then
      DesignedFree(lists[b.order := Without(lists[b.order], BuddyOf(b).base)], ParentOf(b))
    else lists[b.order := [b.base] + lists[b.order]]
  }

  /** amm_phys_free, which reads only metadata, does what the design asks for. */
  lemma {:induction false} FreeMeetsDesign(s: Phys, live: set<Block>, m: set<nat>, b: Block)
    requires Consistent(s, live + {b}, m) && LiveMarked(s, live) && b !in live && b.order <= MAX_ORDER
    ensures Free(s, b).lists == DesignedFree(s.lists, b)
    decreases MAX_ORDER - b.order
  {
    BuddyTestIsExact(s, live, m, b);
    if b.order < MAX_ORDER && IsFree(s, BuddyOf(b)) {
      CoalesceStep(s, live, m, b);
      FreeMeetsDesign(Unlink(s, BuddyOf(b)), live, m, ParentOf(b));
    }
  }

  /** Freeing what a split left over undoes the split. */
  lemma {:induction false} DesignedFreeUndoesSplit(s: Phys, p: Block, order: nat)
    requires WellFormed(s) && order <= p.order <= MAX_ORDER && Aligned(p)
    ensures DesignedFree(Split(s, p, order).lists, Block(p.base, order)) == DesignedFree(s.lists, p)
    decreases p.order
  {
    if order < p.order {
      var l := LowerHalf(p);
      HalvesAreBuddies(p);
      var r := PushFree(s, UpperHalf(p));
      DesignedFreeUndoesSplit(r, l, order);
      var k := l.order;
      assert r.lists[k := Without(r.lists[k], UpperHalf(p).base)] == s.lists;
    } else {
      assert Block(p.base, order) == p;
    }
  }

  /** An allocation followed at once by its free restores every list, in order, provided the
      allocator was fully coalesced. */
  lemma AllocThenFreeRestores(s: Phys, live: set<Block>, m: set<nat>, order: nat)
    requires Invariant(s, live, m) && 0 !in m && Coalesced(FreeSet(s))
    requires Alloc(s, order).base != 0
    ensures order <= MAX_ORDER
    ensures Free(Alloc(s, order).phys, Block(Alloc(s, order).base, order)).lists == s.lists
  {
    AllocKeeps(s, live, m, order);
    var a := Alloc(s, order);
    FreeMeetsDesign(a.phys, live, m, Block(a.base, order));
    var o := FirstNonEmpty(s, order);
    var p := Block(a.base, o);
    PopIsUnlink(s, o);
    assert p in FreeSet(s) + live;
    DesignedFreeUndoesSplit(Pop(s, o), p, order);
    DesignedFreeUndoesPop(s, p);
  }

  /** Freeing the block just taken from a list puts it back, if its buddy is not free. */
  lemma DesignedFreeUndoesPop(s: Phys, p: Block)
    requires WellFormed(s) && Coalesced(FreeSet(s)) && p.order <= MAX_ORDER && s.lists[p.order] != []
    requires s.lists[p.order][0] == p.base
    ensures DesignedFree(Pop(s, p.order).lists, p) == s.lists
  {
    var o := p.order;
    assert IsFree(s, p);
    assert BuddyOf(p).base in s.lists[o][1..] ==> IsFree(s, BuddyOf(p));
    assert [p.base] + s.lists[o][1..] == s.lists[o];
  }
}
