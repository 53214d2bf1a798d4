/** Every run of the physical allocator keeps its invariant; what coalescing guarantees. */
module BuddyProofs {
  import opened Bits
  import opened BuddyBlocks
  import opened BuddySpec

  // ---- List bookkeeping ------------------------------------------------------------------

  lemma {:induction false} ListedPagesGrow(lists: seq<seq<nat>>, o: nat, l: seq<nat>)
    requires o < |lists| && |l| == |lists[o]| + 1
    ensures ListedPages(lists[o := l]) == ListedPages(lists) + Pow2(o)
    decreases |lists|
  {
    var k := |lists| - 1;
    if o == k {
      assert lists[o := l][..k] == lists[..k];
      assert |l| * Pow2(k) == |lists[k]| * Pow2(k) + Pow2(k);
    } else {
      ListedPagesGrow(lists[..k], o, l);
      assert lists[o := l][..k] == lists[..k][o := l];
    }
  }

  lemma ListedPagesShrink(lists: seq<seq<nat>>, o: nat, l: seq<nat>)
    requires o < |lists| && |l| == |lists[o]| - 1
    ensures ListedPages(lists[o := l]) == ListedPages(lists) - Pow2(o)
  {
    ListedPagesGrow(lists[o := l], o, lists[o]);
    assert lists[o := l][o := lists[o]] == lists;
  }

  lemma {:induction false} WithoutRemovesOne(l: seq<nat>, q: nat)
    requires q in l && NoDuplicates(l)
    ensures |Without(l, q)| == |l| - 1 && NoDuplicates(Without(l, q))
    ensures forall x :: x in Without(l, q) <==> x in l && x != q
  {
    if l[0] != q {
      WithoutRemovesOne(l[1..], q);
      assert l == [l[0]] + l[1..];
      assert Without(l, q)[1..] == Without(l[1..], q);
    }
  }

  /** Replacing one list changes which blocks of that one order are free. */
  lemma FreeSetUpdate(s: Phys, r: Phys, o: nat, l: seq<nat>)
    requires o < |s.lists| && r.lists == s.lists[o := l]
    ensures forall b :: b in FreeSet(r) <==> if b.order == o then b.base in l else b in FreeSet(s)
  {
  }

  lemma PushFreeSet(s: Phys, b: Block)
    requires WellFormed(s) && b.order <= MAX_ORDER
    ensures FreeSet(PushFree(s, b)) == FreeSet(s) + {b}
    ensures ListedPages(PushFree(s, b).lists) == ListedPages(s.lists) + Pow2(b.order)
  {
    var l := [b.base] + s.lists[b.order];
    FreeSetUpdate(s, PushFree(s, b), b.order, l);
    ListedPagesGrow(s.lists, b.order, l);
  }

  lemma UnlinkFreeSet(s: Phys, b: Block)
    requires WellFormed(s) && IsFree(s, b) && NoDuplicates(s.lists[b.order])
    ensures FreeSet(Unlink(s, b)) == FreeSet(s) - {b}
    ensures NoDuplicates(Unlink(s, b).lists[b.order])
    ensures ListedPages(Unlink(s, b).lists) == ListedPages(s.lists) - Pow2(b.order)
  {
    var l := Without(s.lists[b.order], b.base);
    WithoutRemovesOne(s.lists[b.order], b.base);
    FreeSetUpdate(s, Unlink(s, b), b.order, l);
    ListedPagesShrink(s.lists, b.order, l);
  }

  lemma TilesHaveDistinctHeads(t: set<Block>, m: set<nat>, b: Block, c: Block)
    requires Tiles(t, m) && b in t && c in t && b != c
    ensures b.base != c.base
  {
    assert Apart(b, c);
  }

  // ---- The four elementary moves -----------------------------------------------------------

  lemma PushMarks(s: Phys, used: set<Block>, m: set<nat>, b: Block)
    requires Consistent(s, used, m) && b in used
    ensures forall c :: IsFree(PushFree(s, b), c) ==> MarkedFree(PushFree(s, b), c.base, c.order)
    ensures forall f :: InfoAt(PushFree(s, b), f).flags % 2 == 1 ==> f in m
  {
    var r, t := PushFree(s, b), FreeSet(s) + used;
    PushFreeSet(s, b);
    assert b in t && Covers(b, b.base);
    forall c | IsFree(r, c)
      ensures MarkedFree(r, c.base, c.order)
    {
      if c != b {
        assert c in FreeSet(r) && c in t;
        TilesHaveDistinctHeads(t, m, b, c);
        assert InfoAt(r, c.base) == InfoAt(s, c.base);
      }
    }
    forall f | InfoAt(r, f).flags % 2 == 1
      ensures f in m
    {
      assert f != b.base ==> InfoAt(r, f) == InfoAt(s, f);
    }
  }

  lemma PushKeepsLiveMarks(s: Phys, used: set<Block>, m: set<nat>, b: Block)
    requires Consistent(s, used, m) && b in used && LiveMarked(s, used - {b})
    ensures b.order <= MAX_ORDER && LiveMarked(PushFree(s, b), used - {b})
  {
    forall c | c in used - {b}
      ensures c.base != b.base
    {
      TilesHaveDistinctHeads(FreeSet(s) + used, m, b, c);
    }
  }

  /** A block in hand goes onto its list. */
  lemma PushKeeps(s: Phys, used: set<Block>, m: set<nat>, b: Block)
    requires Consistent(s, used, m) && b in used
    ensures b.order <= MAX_ORDER && Consistent(PushFree(s, b), used - {b}, m)
    ensures LiveMarked(s, used - {b}) ==> LiveMarked(PushFree(s, b), used - {b})
  {
    var r := PushFree(s, b);
    PushFreeSet(s, b);
    PushMarks(s, used, m, b);
    if LiveMarked(s, used - {b}) {
      PushKeepsLiveMarks(s, used, m, b);
    }
    assert FreeSet(r) + (used - {b}) == FreeSet(s) + used;
    assert b !in FreeSet(s);
    assert r.lists[b.order][1..] == s.lists[b.order];
  }

  /** A listed block is taken off its list and is then in hand. */
  lemma TakeKeeps(s: Phys, used: set<Block>, m: set<nat>, b: Block)
    requires Consistent(s, used, m) && IsFree(s, b)
    ensures Consistent(Unlink(s, b), used + {b}, m)
    ensures Unlink(s, b).info == s.info
  {
    UnlinkFreeSet(s, b);
    assert FreeSet(Unlink(s, b)) + (used + {b}) == FreeSet(s) + used;
  }

  /** Two buddies in hand are one block of the next order. */
  lemma MergeKeeps(s: Phys, used: set<Block>, m: set<nat>, b: Block)
    requires Consistent(s, used, m) && b in used && BuddyOf(b) in used && b.order < MAX_ORDER
    ensures Consistent(s, used - {b, BuddyOf(b)} + {ParentOf(b)}, m)
    ensures ParentOf(b) !in used
  {
    var t := FreeSet(s) + used;
    MergeTiles(t, m, b);
    assert FreeSet(s) + (used - {b, BuddyOf(b)} + {ParentOf(b)}) == t - {b, BuddyOf(b)} + {ParentOf(b)};
  }

  /** A block in hand is its two halves. */
  lemma HalveKeeps(s: Phys, used: set<Block>, m: set<nat>, p: Block)
    requires Consistent(s, used, m) && p in used && p.order > 0
    ensures Consistent(s, used - {p} + {LowerHalf(p), UpperHalf(p)}, m)
    ensures LowerHalf(p) !in used && UpperHalf(p) !in used
  {
    var t := FreeSet(s) + used;
    SplitTile(t, m, p);
    assert FreeSet(s) + (used - {p} + {LowerHalf(p), UpperHalf(p)}) == t - {p} + {LowerHalf(p), UpperHalf(p)};
  }

  // ---- Stale metadata ----------------------------------------------------------------------

  lemma MarkedHeadIsFree(s: Phys, live: set<Block>, m: set<nat>, b: Block, c: Block)
    requires Consistent(s, live + {b}, m) && LiveMarked(s, live)
    requires c in FreeSet(s) + (live + {b}) && c != b && InfoAt(s, c.base).flags % 2 == 1
    ensures IsFree(s, c) && InfoAt(s, c.base).order == c.order
  {
    assert c !in live;
  }

  /** The metadata test of amm_phys_free answers exactly whether the buddy is on the list of
      this order, although frames inside larger blocks keep whatever was last written there. */
  lemma BuddyTestIsExact(s: Phys, live: set<Block>, m: set<nat>, b: Block)
    requires Consistent(s, live + {b}, m) && LiveMarked(s, live) && b !in live
    ensures MarkedFree(s, BuddyOf(b).base, b.order) <==> IsFree(s, BuddyOf(b))
  {
    if MarkedFree(s, BuddyOf(b).base, b.order) {
      ParentHalves(b);
      var c := BuddyFrameIsHead(FreeSet(s) + (live + {b}), m, b);
      MarkedHeadIsFree(s, live, m, b, c);
    }
  }

  // ---- The operations keep the invariant -----------------------------------------------------

  /** One round of the coalescing loop. */
  lemma CoalesceStep(s: Phys, live: set<Block>, m: set<nat>, b: Block)
    requires Consistent(s, live + {b}, m) && LiveMarked(s, live) && b !in live
    requires b.order < MAX_ORDER && IsFree(s, BuddyOf(b))
    ensures Consistent(Unlink(s, BuddyOf(b)), live + {ParentOf(b)}, m)
    ensures LiveMarked(Unlink(s, BuddyOf(b)), live) && ParentOf(b) !in live
    ensures FreeSet(Unlink(s, BuddyOf(b))) == FreeSet(s) - {BuddyOf(b)}
  {
    var q := BuddyOf(b);
    UnlinkFreeSet(s, q);
    TakeKeeps(s, live + {b}, m, q);
    var r := Unlink(s, q);
    MergeKeeps(r, live + {b} + {q}, m, b);
    assert q !in live;
    assert live + {b} + {q} - {b, q} + {ParentOf(b)} == live + {ParentOf(b)};
  }

  /** amm_phys_free keeps the invariant; the freed block leaves the live set. */
  lemma {:induction false} FreeKeeps(s: Phys, live: set<Block>, m: set<nat>, b: Block)
    requires Consistent(s, live + {b}, m) && LiveMarked(s, live) && b !in live
    ensures b.order <= MAX_ORDER && Invariant(Free(s, b), live, m)
    ensures Coalesced(FreeSet(s)) ==> Coalesced(FreeSet(Free(s, b)))
    decreases MAX_ORDER - b.order
  {
    assert b in FreeSet(s) + (live + {b});
    BuddyTestIsExact(s, live, m, b);
    if b.order < MAX_ORDER && IsFree(s, BuddyOf(b)) {
      CoalesceStep(s, live, m, b);
      FreeKeeps(Unlink(s, BuddyOf(b)), live, m, ParentOf(b));
    } else {
      FreeEnd(s, live, m, b);
    }
  }

  /** The coalescing loop ends by listing the merged block. */
  lemma FreeEnd(s: Phys, live: set<Block>, m: set<nat>, b: Block)
    requires Consistent(s, live + {b}, m) && LiveMarked(s, live) && b !in live
    requires b.order == MAX_ORDER || !IsFree(s, BuddyOf(b))
    ensures b.order <= MAX_ORDER && Invariant(PushFree(s, b), live, m)
    ensures Coalesced(FreeSet(s)) ==> Coalesced(FreeSet(PushFree(s, b)))
  {
    PushKeeps(s, live + {b}, m, b);
    assert live + {b} - {b} == live;
    PushFreeSet(s, b);
    if Coalesced(FreeSet(s)) {
      PushCoalesced(FreeSet(s), b);
    }
  }

  lemma PushCoalesced(t: set<Block>, b: Block)
    requires Coalesced(t) && Aligned(b) && (b.order < MAX_ORDER ==> BuddyOf(b) !in t)
    requires forall c :: c in t ==> Aligned(c)
    ensures Coalesced(t + {b})
  {
    ParentHalves(b);
    forall c | c in t + {b} && c.order < MAX_ORDER
      ensures BuddyOf(c) !in t + {b}
    {
      ParentHalves(c);
      HalvesAreBuddies(ParentOf(c));
    }
  }

  /** One round of the splitting loop. */
  lemma SplitStep(s: Phys, live: set<Block>, m: set<nat>, p: Block)
    requires Consistent(s, live + {p}, m) && LiveMarked(s, live) && p !in live
    requires 0 < p.order <= MAX_ORDER
    ensures BuddyOf(LowerHalf(p)) == UpperHalf(p)
    ensures Consistent(PushFree(s, UpperHalf(p)), live + {LowerHalf(p)}, m)
    ensures LiveMarked(PushFree(s, UpperHalf(p)), live) && LowerHalf(p) !in live
    ensures Coalesced(FreeSet(s)) ==> Coalesced(FreeSet(PushFree(s, UpperHalf(p))))
  {
    var l, u := LowerHalf(p), UpperHalf(p);
    assert p in FreeSet(s) + (live + {p});
    HalvesAreBuddies(p);
    HalveKeeps(s, live + {p}, m, p);
    var used := live + {p} - {p} + {l, u};
    assert used == live + {l, u};
    assert LiveMarked(s, live);
    SplitPush(s, live, m, l, u);
    PushFreeSet(s, u);
    if Coalesced(FreeSet(s)) {
      PushCoalesced(FreeSet(s), u);
    }
  }

  lemma SplitPush(s: Phys, live: set<Block>, m: set<nat>, l: Block, u: Block)
    requires Consistent(s, live + {l, u}, m) && LiveMarked(s, live)
    requires l !in live && u !in live && l != u
    ensures u.order <= MAX_ORDER && Consistent(PushFree(s, u), live + {l}, m)
    ensures LiveMarked(PushFree(s, u), live)
  {
    PushKeeps(s, live + {l, u}, m, u);
    assert live + {l, u} - {u} == live + {l};
    forall b | b in live
      ensures b.base != u.base
    {
      TilesHaveDistinctHeads(FreeSet(s) + (live + {l, u}), m, b, u);
    }
  }

  lemma {:induction false} SplitKeeps(s: Phys, live: set<Block>, m: set<nat>, p: Block, order: nat)
    requires Consistent(s, live + {p}, m) && LiveMarked(s, live) && p !in live
    requires order <= p.order <= MAX_ORDER
    ensures Consistent(Split(s, p, order), live + {Block(p.base, order)}, m)
    ensures LiveMarked(Split(s, p, order), live) && Block(p.base, order) !in live
    ensures Coalesced(FreeSet(s)) ==> Coalesced(FreeSet(Split(s, p, order)))
    decreases p.order
  {
    if order < p.order {
      SplitStep(s, live, m, p);
      SplitKeeps(PushFree(s, UpperHalf(p)), live, m, LowerHalf(p), order);
    } else {
      assert Block(p.base, order) == p;
    }
  }

  lemma MarkAllocKeeps(s: Phys, live: set<Block>, m: set<nat>, b: Block)
    requires Consistent(s, live + {b}, m) && LiveMarked(s, live) && b !in live
    ensures Invariant(MarkAlloc(s, b), live + {b}, m)
    ensures FreeSet(MarkAlloc(s, b)) == FreeSet(s)
  {
    var r, t := MarkAlloc(s, b), FreeSet(s) + (live + {b});
    assert FreeSet(r) == FreeSet(s) by {
      forall c: Block ensures IsFree(r, c) <==> IsFree(s, c) {}
    }
    assert Covers(b, b.base);
    forall c | c in t && c != b
      ensures c.base != b.base
    {
      TilesHaveDistinctHeads(t, m, c, b);
    }
  }

  lemma PopIsUnlink(s: Phys, o: nat)
    requires WellFormed(s) && o <= MAX_ORDER && s.lists[o] != []
    ensures Pop(s, o) == Unlink(s, Block(s.lists[o][0], o)) && IsFree(s, Block(s.lists[o][0], o))
  {
  }

  /** amm_phys_alloc keeps the invariant.  A successful call returns a block of exactly the
      requested order that was live before in no part; failure changes nothing. */
  lemma AllocKeeps(s: Phys, live: set<Block>, m: set<nat>, order: nat)
    requires Invariant(s, live, m) && 0 !in m
    ensures var a := Alloc(s, order);
      if a.base == 0 then
        a.phys == s && Exhausted(s, order)
      else
        && Block(a.base, order) !in live
        && Invariant(a.phys, live + {Block(a.base, order)}, m)
        && (Coalesced(FreeSet(s)) ==> Coalesced(FreeSet(a.phys)))
  {
    if order <= MAX_ORDER {
      var o := FirstNonEmpty(s, order);
      if o <= MAX_ORDER {
        var p := Block(s.lists[o][0], o);
        PopIsUnlink(s, o);
        ManagedHead(s, live, m, p);
        AllocFrom(s, live, m, p, order);
      }
    }
  }

  lemma ManagedHead(s: Phys, live: set<Block>, m: set<nat>, p: Block)
    requires Consistent(s, live, m) && IsFree(s, p)
    ensures p.base in m && p !in live && p.order <= MAX_ORDER
  {
    assert p in FreeSet(s) + live && Covers(p, p.base);
  }

  /** Allocation fails exactly when no block is large enough. */
  lemma AllocFailsIff(s: Phys, live: set<Block>, m: set<nat>, order: nat)
    requires Invariant(s, live, m) && 0 !in m
    ensures Alloc(s, order).base == 0 <==> Exhausted(s, order)
  {
    AllocKeeps(s, live, m, order);
    if order <= MAX_ORDER && Alloc(s, order).base != 0 {
      assert s.lists[FirstNonEmpty(s, order)] != [];
    }
  }

  /** What becomes of the list of order k when a block of order o at `base` is cut down to `order`:
      the block leaves its own list, and of each order in between the upper half is left over. */
  function ListAfterCut(l: seq<nat>, base: nat, order: nat, o: nat, k: nat): seq<nat>
    requires k == o ==> l != []
  {
    if k == o then l[1..] else if order <= k < o then [base + Pow2(k)] + l else l
  }

  /** A block of `order` at `base` was cut from the first block on the list of order o, the lowest order
      from `order` up with a block at all. */
  ghost predicate CutFrom(s: Phys, r: Phys, base: nat, order: nat, o: nat) {
    && WellFormed(s) && WellFormed(r) && order <= o <= MAX_ORDER && s.lists[o] != [] && s.lists[o][0] == base
    && (forall k :: order <= k < o ==> s.lists[k] == [])
    && forall k :: 0 <= k <= MAX_ORDER ==> r.lists[k] == ListAfterCut(s.lists[k], base, order, o, k)
  }

  ghost predicate BestFit(s: Phys, r: Phys, base: nat, order: nat) {
    exists o :: CutFrom(s, r, base, order, o)
  }

  lemma {:induction false} SplitList(s: Phys, p: Block, order: nat, k: nat)
    requires WellFormed(s) && order <= p.order <= MAX_ORDER && Aligned(p) && k <= MAX_ORDER
    ensures Split(s, p, order).lists[k]
         == if order <= k < p.order then [p.base + Pow2(k)] + s.lists[k] else s.lists[k]
    decreases p.order
  {
    if order < p.order {
      HalvesAreBuddies(p);
      SplitList(PushFree(s, BuddyOf(LowerHalf(p))), LowerHalf(p), order, k);
    }
  }

  lemma FreeAligned(s: Phys, live: set<Block>, m: set<nat>, b: Block)
    requires Invariant(s, live, m) && IsFree(s, b)
    ensures Aligned(b)
  {
    assert b in FreeSet(s) + live;
  }

  lemma CutLists(s: Phys, order: nat, o: nat)
    requires WellFormed(s) && order <= MAX_ORDER && o == FirstNonEmpty(s, order) <= MAX_ORDER
    requires Aligned(Block(s.lists[o][0], o))
    ensures CutFrom(s, Alloc(s, order).phys, s.lists[o][0], order, o)
  {
    var p := Block(s.lists[o][0], o);
    forall k | 0 <= k <= MAX_ORDER
      ensures Alloc(s, order).phys.lists[k] == ListAfterCut(s.lists[k], p.base, order, o, k)
    {
      SplitList(Pop(s, o), p, order, k);
    }
  }

  /** amm_phys_alloc takes the smallest block that will do, and of those the one freed last. */
  lemma AllocTakes(s: Phys, live: set<Block>, m: set<nat>, order: nat)
    requires Invariant(s, live, m) && Alloc(s, order).base != 0
    ensures BestFit(s, Alloc(s, order).phys, Alloc(s, order).base, order)
  {
    var o := FirstNonEmpty(s, order);
    FreeAligned(s, live, m, Block(s.lists[o][0], o));
    CutLists(s, order, o);
  }

  /** Every other block that was free still is, and no smaller one would have done. */
  lemma CutSparesOthers(s: Phys, r: Phys, base: nat, order: nat, o: nat)
    requires CutFrom(s, r, base, order, o)
    ensures IsFree(s, Block(base, o)) && forall c :: IsFree(s, c) && order <= c.order ==> o <= c.order
    ensures forall c :: IsFree(s, c) && c != Block(base, o) ==> IsFree(r, c)
  {
    forall c | IsFree(s, c) && c != Block(base, o)
      ensures IsFree(r, c)
    {
      if c.order == o {
        var l := s.lists[o];
        var i :| 0 <= i < |l| && l[i] == c.base;
        assert i > 0 && l[1..][i - 1] == c.base;
      }
    }
  }

  /** Held blocks start at different frames. */
  lemma HeadsDiffer(s: Phys, live: set<Block>, m: set<nat>, b: Block)
    requires Invariant(s, live, m) && b in live
    ensures forall c :: c in live && c != b ==> c.base != b.base
  {
    var t := FreeSet(s) + live;
    forall c | c in live && c != b
      ensures c.base != b.base
    {
      TilesHaveDistinctHeads(t, m, c, b);
    }
  }

  /** The first frame of a held block is managed. */
  lemma HeldFrame(s: Phys, live: set<Block>, m: set<nat>, b: Block)
    requires Invariant(s, live, m) && b in live
    ensures b.base in m
  {
    assert b in FreeSet(s) + live && Covers(b, b.base);
  }

  lemma AllocFrom(s: Phys, live: set<Block>, m: set<nat>, p: Block, order: nat)
    requires Invariant(s, live, m) && IsFree(s, p) && p !in live && order <= p.order <= MAX_ORDER
    ensures var b := Block(p.base, order);
      && b !in live
      && Invariant(MarkAlloc(Split(Unlink(s, p), p, order), b), live + {b}, m)
      && (Coalesced(FreeSet(s)) ==> Coalesced(FreeSet(MarkAlloc(Split(Unlink(s, p), p, order), b))))
  {
    TakeKeeps(s, live, m, p);
    UnlinkFreeSet(s, p);
    SplitKeeps(Unlink(s, p), live, m, p, order);
    MarkAllocKeeps(Split(Unlink(s, p), p, order), live, m, Block(p.base, order));
  }

  // ---- Recorded orders ---------------------------------------------------------------------------

  lemma {:induction false} FreeMeta(s: Phys, b: Block)
    requires WellFormed(s) && MetaAligned(s) && Aligned(b) && b.order <= MAX_ORDER
    ensures MetaAligned(Free(s, b))
    decreases MAX_ORDER - b.order
  {
    if b.order < MAX_ORDER && MarkedFree(s, BuddyOf(b).base, b.order) {
      ParentHalves(b);
      FreeMeta(Unlink(s, BuddyOf(b)), ParentOf(b));
    }
  }

  lemma {:induction false} SplitMeta(s: Phys, p: Block, order: nat)
    requires WellFormed(s) && MetaAligned(s) && Aligned(p) && order <= p.order <= MAX_ORDER
    ensures MetaAligned(Split(s, p, order)) && Aligned(Block(p.base, order))
    decreases p.order
  {
    if order < p.order {
      HalvesAreBuddies(p);
      SplitMeta(PushFree(s, BuddyOf(LowerHalf(p))), LowerHalf(p), order);
    }
  }

  lemma AllocMeta(s: Phys, live: set<Block>, m: set<nat>, order: nat)
    requires Invariant(s, live, m) && MetaAligned(s)
    ensures MetaAligned(Alloc(s, order).phys)
  {
    if order <= MAX_ORDER {
      var o := FirstNonEmpty(s, order);
      if o <= MAX_ORDER {
        var p := Block(s.lists[o][0], o);
        assert p in FreeSet(s) + live;
        SplitMeta(Pop(s, o), p, order);
      }
    }
  }

  /** An odd frame never has the order of a pair, or any higher one, recorded. */
  lemma OddFrameIsSingle(s: Phys, f: nat)
    requires MetaAligned(s) && f % 2 == 1
    ensures InfoAt(s, f).order == 0
  {
    var o := InfoAt(s, f).order;
    if o > 0 {
      assert f % Pow2(o) == 0 && Pow2(o) == 2 * Pow2(o - 1);
      EvenDivisor(f, Pow2(o - 1));
    }
  }

  lemma EvenDivisor(f: nat, m: nat)
    requires m > 0 && f % (2 * m) == 0
    ensures f % 2 == 0
  {
    var q := f / (2 * m);
    assert f == 2 * (m * q);
  }
}
