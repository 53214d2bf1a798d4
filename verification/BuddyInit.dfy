/** Boot-time initialisation of the physical allocator from the firmware memory map. */
module BuddyInit {
  import opened Bits
  import opened BuddyBlocks
  import opened BuddySpec
  import opened BuddyProofs

  const PAGE_SIZE: nat := 4096
  const ASD_MEM_FREE: nat := 0

  /** One memory-map entry: base in bytes, length in pages. */
  datatype MemEntry = MemEntry(kind: nat, base: nat, pages: nat)

  /** Frames [first, end). */
  datatype Range = Range(first: nat, end: nat)

  predicate InRange(r: Range, f: nat) {
    r.first <= f < r.end
  }

  ghost function Frames(r: Range): set<nat> {
    set f: nat | r.first <= f < r.end && InRange(r, f)
  }

  /** The whole pages of an entry. */
  function WholePages(e: MemEntry): Range {
    Range((e.base + PAGE_SIZE - 1) / PAGE_SIZE, (e.base + e.pages * PAGE_SIZE) / PAGE_SIZE)
  }

  /** What one entry contributes once the bootstrap pool `bump` is cut out of it. */
  function Usable(e: MemEntry, bump: Range): (r: seq<Range>)
  {
    var w := WholePages(e);
    if e.kind != ASD_MEM_FREE || w.end <= w.first then []
    else if bump.first != 0 && w.first < bump.end && w.end > bump.first then
      (if w.first < bump.first then [Range(w.first, bump.first)] else []) +
      (if w.end > bump.end then [Range(bump.end, w.end)] else [])
    else [w]
  }

  function UsableRanges(map_: seq<MemEntry>, bump: Range): seq<Range> {
    if map_ == [] then [] else Usable(map_[0], bump) + UsableRanges(map_[1..], bump)
  }

  /** The highest order, at most o, that is aligned at `base` and fits in `left` pages. */
  function GreedyOrder(base: nat, left: nat, o: nat): (r: nat)
    requires left > 0
    ensures r <= o && Pow2(r) <= left
    decreases o, base
  {
    if o == 0 || (Pow2(o) <= left && Aligned(Block(base, o))) then o
    else GreedyOrder(base, left, o - 1)
  }

  /** The block that phys_free_range cuts off the front of a range. */
  function FirstBlock(r: Range): (b: Block)
    requires r.first < r.end
    ensures b.base == r.first && End(b) <= r.end && b.order <= MAX_ORDER
  {
    Block(r.first, GreedyOrder(r.first, r.end - r.first, MAX_ORDER))
  }

  lemma {:induction false} GreedyOrderIsHighest(base: nat, left: nat, o: nat)
    requires left > 0
    ensures var r := GreedyOrder(base, left, o);
      Aligned(Block(base, r)) && (r < o ==> !Aligned(Block(base, r + 1)) || Pow2(r + 1) > left)
    decreases o
  {
    if o > 0 && !(Pow2(o) <= left && Aligned(Block(base, o))) {
      GreedyOrderIsHighest(base, left, o - 1);
    }
  }

  lemma FirstBlockIsLargest(r: Range)
    requires r.first < r.end
    ensures var b := FirstBlock(r);
      && Aligned(b)
      && (b.order < MAX_ORDER ==> !Aligned(Block(b.base, b.order + 1)) || b.base + Pow2(b.order + 1) > r.end)
  {
    GreedyOrderIsHighest(r.first, r.end - r.first, MAX_ORDER);
  }

  /** phys_free_range. */
  function FreeRange(s: Phys, r: Range): (t: Phys)
    requires WellFormed(s)
    ensures WellFormed(t)
    decreases r.end - r.first
  {
    if r.end <= r.first then s
    else
      FreeRange(PushFree(s, FirstBlock(r)), Range(End(FirstBlock(r)), r.end))
  }

  function FreeRanges(s: Phys, rs: seq<Range>): (t: Phys)
    requires WellFormed(s)
    ensures WellFormed(t)
    decreases |rs|
  {
    if rs == [] then s else FreeRanges(FreeRange(s, rs[0]), rs[1..])
  }

  const EMPTY: Phys := Phys(seq(MAX_ORDER + 1, _ => []), map[], 0)

  // ---- The greedy cut of one range -------------------------------------------------------------

  ghost function GreedyBlocks(r: Range): set<Block>
    decreases r.end - r.first
  {
    if r.end <= r.first then {}
    else
      {FirstBlock(r)} + GreedyBlocks(Range(End(FirstBlock(r)), r.end))
  }

  /** Each block of the greedy cut lies in the range and could not have been larger. */
  lemma {:induction false} GreedyMaximal(r: Range, b: Block)
    requires b in GreedyBlocks(r)
    ensures r.first <= b.base && End(b) <= r.end
    ensures b.order < MAX_ORDER ==> !Aligned(Block(b.base, b.order + 1)) || b.base + Pow2(b.order + 1) > r.end
    decreases r.end - r.first
  {
    FirstBlockIsLargest(r);
    if b != FirstBlock(r) {
      GreedyMaximal(Range(End(FirstBlock(r)), r.end), b);
    }
  }

  lemma CutFrames(r: Range, b: Block)
    requires b.base == r.first && End(b) <= r.end
    ensures forall f :: f in Frames(r) <==> f in Frames(Range(End(b), r.end)) || Covers(b, f)
    ensures forall f :: Covers(b, f) ==> f !in Frames(Range(End(b), r.end))
  {
  }

  lemma {:induction false} GreedyTiles(r: Range)
    ensures Tiles(GreedyBlocks(r), Frames(r))
    decreases r.end - r.first
  {
    if r.first < r.end {
      var b, rest := FirstBlock(r), Range(End(FirstBlock(r)), r.end);
      GreedyTiles(rest);
      CutFrames(r, b);
      FirstBlockIsLargest(r);
      AddTile(GreedyBlocks(rest), Frames(rest), b, Frames(r));
      assert GreedyBlocks(r) == GreedyBlocks(rest) + {b};
    }
  }

  /** Adding a tile beside a tiling. */
  lemma AddTile(t: set<Block>, m: set<nat>, b: Block, n: set<nat>)
    requires Tiles(t, m) && Aligned(b) && b.order <= MAX_ORDER
    requires forall f :: Covers(b, f) ==> f !in m
    requires forall f :: f in n <==> f in m || Covers(b, f)
    ensures Tiles(t + {b}, n) && b !in t
  {
    assert Covers(b, b.base);
    forall c | c in t
      ensures Apart(b, c) && Apart(c, b)
    {
      assert Covers(c, b.base) || Covers(b, c.base) || Apart(b, c);
      assert Covers(c, c.base);
    }
    forall f | f in n
      ensures CoveredBy(t + {b}, f)
    {
      if f in m {
        assert CoveredBy(t, f);
        var c :| c in t && Covers(c, f);
        assert c in t + {b};
      } else {
        assert b in t + {b};
      }
    }
  }

  lemma ParentStartsLow(b: Block)
    requires Aligned(b)
    ensures var p := ParentOf(b);
      && p.base == LowerHalf(p).base && Aligned(p) && End(UpperHalf(p)) == p.base + Pow2(b.order + 1)
      && ((LowerHalf(p) == b && UpperHalf(p) == BuddyOf(b)) || (LowerHalf(p) == BuddyOf(b) && UpperHalf(p) == b))
  {
    ParentHalves(b);
  }

  lemma GreedyBuddyAbsent(r: Range, b: Block)
    requires b in GreedyBlocks(r) && b.order < MAX_ORDER && Aligned(b)
    ensures BuddyOf(b) !in GreedyBlocks(r)
  {
    ParentStartsLow(b);
    GreedyHalves(r, ParentOf(b), b.order);
  }

  /** Of the two halves of an aligned block the greedy cut takes at most one. */
  lemma GreedyHalves(r: Range, p: Block, order: nat)
    requires Aligned(p) && p.order == order + 1 <= MAX_ORDER && End(UpperHalf(p)) == p.base + Pow2(order + 1)
    ensures LowerHalf(p) in GreedyBlocks(r) ==> UpperHalf(p) !in GreedyBlocks(r)
  {
    var l, u := LowerHalf(p), UpperHalf(p);
    if l in GreedyBlocks(r) {
      GreedyMaximal(r, l);
      assert Block(l.base, l.order + 1) == p;
      if u in GreedyBlocks(r) {
        GreedyMaximal(r, u);
      }
    }
  }

  lemma GreedyCoalesced(r: Range)
    ensures Coalesced(GreedyBlocks(r))
  {
    GreedyTiles(r);
    forall b | b in GreedyBlocks(r) && b.order < MAX_ORDER
      ensures BuddyOf(b) !in GreedyBlocks(r)
    {
      GreedyBuddyAbsent(r, b);
    }
  }

  // ---- All ranges together ---------------------------------------------------------------------

  ghost predicate Disjoint(rs: seq<Range>) {
    forall i, j, f :: 0 <= i < j < |rs| && InRange(rs[i], f) ==> !InRange(rs[j], f)
  }

  ghost function AllFrames(rs: seq<Range>): set<nat> {
    if rs == [] then {} else Frames(rs[0]) + AllFrames(rs[1..])
  }

  ghost function AllGreedy(rs: seq<Range>): set<Block> {
    if rs == [] then {} else GreedyBlocks(rs[0]) + AllGreedy(rs[1..])
  }

  lemma {:induction false} AllFramesMember(rs: seq<Range>, f: nat)
    ensures f in AllFrames(rs) <==> exists i :: 0 <= i < |rs| && InRange(rs[i], f)
  {
    if rs != [] {
      AllFramesMember(rs[1..], f);
      assert InRange(rs[0], f) <==> f in Frames(rs[0]);
      if i :| 0 <= i < |rs[1..]| && InRange(rs[1..][i], f) {
        assert InRange(rs[i + 1], f);
      }
      if i :| 0 < i < |rs| && InRange(rs[i], f) {
        assert InRange(rs[1..][i - 1], f);
      }
    }
  }

  lemma DisjointTail(rs: seq<Range>)
    requires Disjoint(rs) && rs != []
    ensures Disjoint(rs[1..]) && Frames(rs[0]) !! AllFrames(rs[1..])
  {
    forall f | f in Frames(rs[0])
      ensures f !in AllFrames(rs[1..])
    {
      AllFramesMember(rs[1..], f);
    }
    forall i, j, f | 0 <= i < j < |rs[1..]| && InRange(rs[1..][i], f)
      ensures !InRange(rs[1..][j], f)
    {
      assert InRange(rs[i + 1], f);
    }
  }

  /** phys_free_range lists exactly the greedy cut and keeps the allocator consistent. */
  lemma {:induction false} FreeRangeKeeps(s: Phys, m: set<nat>, r: Range)
    requires Consistent(s, {}, m) && m !! Frames(r)
    ensures Consistent(FreeRange(s, r), {}, m + Frames(r))
    ensures FreeSet(FreeRange(s, r)) == FreeSet(s) + GreedyBlocks(r)
    decreases r.end - r.first
  {
    if r.first < r.end {
      var b, rest := FirstBlock(r), Range(End(FirstBlock(r)), r.end);
      var n := AdoptFirst(s, m, r);
      PushFreeSet(s, b);
      FreeRangeKeeps(PushFree(s, b), n, rest);
      assert FreeSet(s) + {b} + GreedyBlocks(rest) == FreeSet(s) + GreedyBlocks(r);
    } else {
      assert Frames(r) == {} && m + Frames(r) == m;
    }
  }

  lemma AdoptFirst(s: Phys, m: set<nat>, r: Range) returns (n: set<nat>)
    requires Consistent(s, {}, m) && m !! Frames(r) && r.first < r.end
    ensures Consistent(PushFree(s, FirstBlock(r)), {}, n)
    ensures n !! Frames(Range(End(FirstBlock(r)), r.end))
    ensures n + Frames(Range(End(FirstBlock(r)), r.end)) == m + Frames(r)
  {
    var b, rest := FirstBlock(r), Range(End(FirstBlock(r)), r.end);
    n := m + (Frames(r) - Frames(rest));
    CutFrames(r, b);
    FirstBlockIsLargest(r);
    AdoptBlock(s, m, b, n);
  }

  lemma AdoptBlock(s: Phys, m: set<nat>, b: Block, n: set<nat>)
    requires Consistent(s, {}, m) && Aligned(b) && b.order <= MAX_ORDER
    requires forall f :: Covers(b, f) ==> f !in m
    requires forall f :: f in n <==> f in m || Covers(b, f)
    ensures Consistent(PushFree(s, b), {}, n)
  {
    assert FreeSet(s) + {} == FreeSet(s);
    AddTile(FreeSet(s), m, b, n);
    assert Consistent(s, {b}, n);
    PushKeeps(s, {b}, n, b);
    assert {b} - {b} == {};
  }

  lemma {:induction false} FreeRangesKeep(s: Phys, m: set<nat>, rs: seq<Range>)
    requires Consistent(s, {}, m) && Disjoint(rs) && m !! AllFrames(rs)
    ensures Consistent(FreeRanges(s, rs), {}, m + AllFrames(rs))
    ensures FreeSet(FreeRanges(s, rs)) == FreeSet(s) + AllGreedy(rs)
    decreases |rs|
  {
    if rs != [] {
      FreeRangeKeeps(s, m, rs[0]);
      DisjointTail(rs);
      FreeRangesKeep(FreeRange(s, rs[0]), m + Frames(rs[0]), rs[1..]);
      assert m + Frames(rs[0]) + AllFrames(rs[1..]) == m + AllFrames(rs);
      assert FreeSet(s) + GreedyBlocks(rs[0]) + AllGreedy(rs[1..]) == FreeSet(s) + AllGreedy(rs);
    } else {
      assert m + AllFrames(rs) == m;
    }
  }

  /** Initialisation establishes the invariant, with no block held. */
  lemma InitEstablishes(rs: seq<Range>)
    requires Disjoint(rs)
    ensures Invariant(FreeRanges(EMPTY, rs), {}, AllFrames(rs))
    ensures FreeSet(FreeRanges(EMPTY, rs)) == AllGreedy(rs)
  {
    EmptyIsConsistent();
    FreeRangesKeep(EMPTY, {}, rs);
    assert {} + AllFrames(rs) == AllFrames(rs);
  }

  lemma EmptyIsConsistent()
    ensures Consistent(EMPTY, {}, {}) && FreeSet(EMPTY) == {}
  {
    EmptyListed(EMPTY.lists);
  }

  lemma {:induction false} EmptyListed(lists: seq<seq<nat>>)
    requires forall o :: 0 <= o < |lists| ==> lists[o] == []
    ensures ListedPages(lists) == 0
  {
    if lists != [] {
      EmptyListed(lists[..|lists| - 1]);
    }
  }

  /** Some block below the top order has one half inside one range and the other in another. */
  ghost predicate Straddles(rs: seq<Range>, i: int, j: int, p: Block) {
    && 0 <= i < |rs| && 0 <= j < |rs| && i != j
    && 0 < p.order <= MAX_ORDER && Aligned(p)
    && Inside(LowerHalf(p), Frames(rs[i])) && Inside(UpperHalf(p), Frames(rs[j]))
  }

  lemma {:induction false} AllGreedyMember(rs: seq<Range>, b: Block)
    ensures b in AllGreedy(rs) <==> exists i :: 0 <= i < |rs| && b in GreedyBlocks(rs[i])
  {
    if rs != [] {
      AllGreedyMember(rs[1..], b);
      if i :| 0 <= i < |rs[1..]| && b in GreedyBlocks(rs[1..][i]) {
        assert b in GreedyBlocks(rs[i + 1]);
      }
      if i :| 0 < i < |rs| && b in GreedyBlocks(rs[i]) {
        assert b in GreedyBlocks(rs[1..][i - 1]);
      }
    }
  }

  /** A half that lies in its own range while its buddy lies in another is cut by the greedy walk. */
  lemma StraddlingHalfIsCut(rs: seq<Range>, i: nat, j: nat, b: Block)
    requires Disjoint(rs) && i < |rs| && j < |rs| && i != j
    requires Aligned(b) && b.order < MAX_ORDER
    requires Inside(b, Frames(rs[i])) && Inside(BuddyOf(b), Frames(rs[j]))
    ensures b in GreedyBlocks(rs[i])
  {
    var q := BuddyOf(b).base;
    assert Covers(BuddyOf(b), q);
    assert InRange(rs[j], q) && !InRange(rs[i], q);
    ParentHalves(b);
    assert Covers(ParentOf(b), q);
    GreedyTiles(rs[i]);
    GreedyCoalesced(rs[i]);
    CoalescedTile(GreedyBlocks(rs[i]), Frames(rs[i]), b);
  }

  lemma StraddleBreaksCoalescing(rs: seq<Range>, i: int, j: int, p: Block)
    requires Disjoint(rs) && Straddles(rs, i, j, p)
    ensures !Coalesced(AllGreedy(rs))
  {
    var l, u := LowerHalf(p), UpperHalf(p);
    HalvesAreBuddies(p);
    StraddlingHalfIsCut(rs, i, j, l);
    StraddlingHalfIsCut(rs, j, i, u);
    AllGreedyMember(rs, l);
    AllGreedyMember(rs, u);
  }

  lemma GreedyInside(r: Range, b: Block)
    requires b in GreedyBlocks(r)
    ensures Aligned(b) && b.order <= MAX_ORDER && Inside(b, Frames(r))
  {
    GreedyTiles(r);
  }

  lemma UncoalescedStraddles(rs: seq<Range>, b: Block) returns (i: int, j: int, p: Block)
    requires b in AllGreedy(rs) && b.order < MAX_ORDER && BuddyOf(b) in AllGreedy(rs)
    ensures Straddles(rs, i, j, p)
  {
    AllGreedyMember(rs, b);
    AllGreedyMember(rs, BuddyOf(b));
    i :| 0 <= i < |rs| && b in GreedyBlocks(rs[i]);
    j :| 0 <= j < |rs| && BuddyOf(b) in GreedyBlocks(rs[j]);
    GreedyInside(rs[i], b);
    GreedyInside(rs[j], BuddyOf(b));
    if i == j {
      GreedyBuddyAbsent(rs[i], b);
      assert false;
    }
    ParentStartsLow(b);
    p := ParentOf(b);
    if LowerHalf(p) != b {
      i, j := j, i;
    }
  }

  /** Boot leaves no two mergeable buddies on the lists exactly when no buddy pair straddles two
      of the usable ranges. */
  lemma InitCoalescedIffNoStraddle(rs: seq<Range>)
    requires Disjoint(rs)
    ensures Coalesced(FreeSet(FreeRanges(EMPTY, rs))) <==> !exists i, j, p :: Straddles(rs, i, j, p)
  {
    InitEstablishes(rs);
    if i, j, p :| Straddles(rs, i, j, p) {
      StraddleBreaksCoalescing(rs, i, j, p);
    }
    if b :| b in AllGreedy(rs) && b.order < MAX_ORDER && BuddyOf(b) in AllGreedy(rs) {
      var i, j, p := UncoalescedStraddles(rs, b);
    }
  }

  // ---- What the memory map makes usable ----------------------------------------------------------

  /** A free entry holds the whole page f. */
  predicate FreePage(e: MemEntry, f: nat) { e.kind == ASD_MEM_FREE && InRange(WholePages(e), f) }

  ghost predicate HasFree(map_: seq<MemEntry>, f: nat) { exists i :: 0 <= i < |map_| && FreePage(map_[i], f) }

  /** The page belongs to the bootstrap pool; a pool that starts at frame 0 is not recognised. */
  predicate Pooled(bump: Range, f: nat) { bump.first != 0 && InRange(bump, f) }

  /** The bootstrap pool is cut from free memory. */
  ghost predicate PoolOf(map_: seq<MemEntry>, pool: Range) {
    pool.first <= pool.end && forall f :: InRange(pool, f) ==> HasFree(map_, f)
  }

  /** No page belongs to two free entries. */
  ghost predicate FreeDisjoint(map_: seq<MemEntry>) {
    forall i, j, f :: 0 <= i < j < |map_| && FreePage(map_[i], f) ==> !FreePage(map_[j], f)
  }

  lemma {:induction false} AllFramesAppend(a: seq<Range>, b: seq<Range>)
    ensures AllFrames(a + b) == AllFrames(a) + AllFrames(b)
  {
    if a == [] {
      assert a + b == b;
    } else {
      assert (a + b)[1..] == a[1..] + b;
      AllFramesAppend(a[1..], b);
    }
  }

  lemma UsableMember(e: MemEntry, bump: Range, f: nat)
    requires bump.first <= bump.end
    ensures f in AllFrames(Usable(e, bump)) <==> FreePage(e, f) && !Pooled(bump, f)
  {
    AllFramesMember(Usable(e, bump), f);
    var w, u := WholePages(e), Usable(e, bump);
    if FreePage(e, f) && !Pooled(bump, f) {
      assert InRange(u[0], f) || InRange(u[|u| - 1], f);
    }
  }

  /** The usable frames are exactly the whole pages of free entries outside the pool. */
  lemma {:induction false} UsableExactly(map_: seq<MemEntry>, bump: Range, f: nat)
    requires bump.first <= bump.end
    ensures f in AllFrames(UsableRanges(map_, bump)) <==> HasFree(map_, f) && !Pooled(bump, f)
    decreases |map_|
  {
    if map_ != [] {
      var rest := map_[1..];
      UsableExactly(rest, bump, f);
      UsableMember(map_[0], bump, f);
      AllFramesAppend(Usable(map_[0], bump), UsableRanges(rest, bump));
      HasFreeCons(map_, f);
    }
  }

  lemma HasFreeCons(map_: seq<MemEntry>, f: nat)
    requires map_ != []
    ensures HasFree(map_, f) <==> FreePage(map_[0], f) || HasFree(map_[1..], f)
  {
    if i :| 0 <= i < |map_[1..]| && FreePage(map_[1..][i], f) {
      assert FreePage(map_[i + 1], f);
    }
    if i :| 0 < i < |map_| && FreePage(map_[i], f) {
      assert FreePage(map_[1..][i - 1], f);
    }
  }

  /** The frames that the allocator manages: the free memory of the map without the pool. */
  ghost function Managed(map_: seq<MemEntry>, pool: Range): (m: set<nat>)
    requires PoolOf(map_, pool) && !HasFree(map_, 0)
    ensures forall f :: f in m <==> HasFree(map_, f) && !InRange(pool, f)
  {
    UsableIsManaged(map_, pool);
    AllFrames(UsableRanges(map_, pool))
  }

  lemma UsableIsManaged(map_: seq<MemEntry>, pool: Range)
    requires PoolOf(map_, pool) && !HasFree(map_, 0)
    ensures forall f :: f in AllFrames(UsableRanges(map_, pool)) <==> HasFree(map_, f) && !InRange(pool, f)
  {
    assert !InRange(pool, 0);
    forall f: nat
      ensures f in AllFrames(UsableRanges(map_, pool)) <==> HasFree(map_, f) && !InRange(pool, f)
    {
      UsableExactly(map_, pool, f);
    }
  }

  lemma DisjointAppend(a: seq<Range>, b: seq<Range>)
    requires Disjoint(a) && Disjoint(b) && AllFrames(a) !! AllFrames(b)
    ensures Disjoint(a + b)
  {
    forall i, j, f | 0 <= i < j < |a + b| && InRange((a + b)[i], f)
      ensures !InRange((a + b)[j], f)
    {
      AllFramesMember(a, f);
      AllFramesMember(b, f);
      if i >= |a| {
        assert InRange(b[i - |a|], f) && (a + b)[j] == b[j - |a|];
      } else {
        assert InRange(a[i], f);
        if j >= |a| {
          assert (a + b)[j] == b[j - |a|];
        }
      }
    }
  }

  lemma UsableApart(map_: seq<MemEntry>, bump: Range)
    requires map_ != [] && FreeDisjoint(map_) && bump.first <= bump.end
    ensures AllFrames(Usable(map_[0], bump)) !! AllFrames(UsableRanges(map_[1..], bump))
  {
    forall f | f in AllFrames(Usable(map_[0], bump))
      ensures f !in AllFrames(UsableRanges(map_[1..], bump))
    {
      UsableMember(map_[0], bump, f);
      UsableExactly(map_[1..], bump, f);
      assert forall i :: 0 <= i < |map_| - 1 ==> map_[1..][i] == map_[i + 1];
    }
  }

  /** Free entries without a page in common make disjoint ranges. */
  lemma {:induction false} UsableDisjoint(map_: seq<MemEntry>, bump: Range)
    requires FreeDisjoint(map_) && bump.first <= bump.end
    ensures Disjoint(UsableRanges(map_, bump))
    decreases |map_|
  {
    if map_ != [] {
      assert forall i, f :: 0 <= i < |map_| - 1 ==> (FreePage(map_[1..][i], f) <==> FreePage(map_[i + 1], f));
      UsableDisjoint(map_[1..], bump);
      UsableApart(map_, bump);
      DisjointAppend(Usable(map_[0], bump), UsableRanges(map_[1..], bump));
    }
  }

  // ---- The bootstrap pool ------------------------------------------------------------------------

  const BUMP_PAGES: nat := 16384
  const MIB_PAGES: nat := 256

  /** The frames of an entry above the first mebibyte. */
  function HighPages(e: MemEntry): Range {
    var w := WholePages(e);
    Range(if w.first < MIB_PAGES then MIB_PAGES else w.first, w.end)
  }

  function HighPool(e: MemEntry): Range { Range(HighPages(e).first, HighPages(e).first + BUMP_PAGES) }

  predicate Roomy(e: MemEntry) { e.kind == ASD_MEM_FREE && HighPages(e).first + BUMP_PAGES <= HighPages(e).end }

  /** The number of whole free pages of an entry. */
  function FreeSize(e: MemEntry): nat {
    var w := WholePages(e);
    if e.kind == ASD_MEM_FREE && w.first < w.end then w.end - w.first else 0
  }

  ghost predicate FirstRoomy(map_: seq<MemEntry>, i: nat) {
    i < |map_| && Roomy(map_[i]) && forall j :: 0 <= j < i ==> !Roomy(map_[j])
  }

  ghost predicate FirstLongest(map_: seq<MemEntry>, i: nat) {
    && i < |map_| && FreeSize(map_[i]) > 0
    && (forall j :: 0 <= j < |map_| ==> FreeSize(map_[j]) <= FreeSize(map_[i]))
    && (forall j :: 0 <= j < i ==> FreeSize(map_[j]) < FreeSize(map_[i]))
  }

  ghost predicate NoneRoomy(map_: seq<MemEntry>) { forall i :: 0 <= i < |map_| ==> !Roomy(map_[i]) }
  ghost predicate NoneFree(map_: seq<MemEntry>) { forall i :: 0 <= i < |map_| ==> FreeSize(map_[i]) == 0 }

  /** What bump_init chooses: 64 MiB from the first entry with that much room above one mebibyte;
      failing that the whole of the first longest free entry; nothing if there is none. */
  ghost predicate Chosen(map_: seq<MemEntry>, pool: Range) {
    || (exists i: nat :: FirstRoomy(map_, i) && pool == HighPool(map_[i]))
    || (NoneRoomy(map_) && exists i: nat :: FirstLongest(map_, i) && pool == WholePages(map_[i]))
    || (NoneFree(map_) && pool == Range(0, 0))
  }

  lemma RoomyIsFree(e: MemEntry)
    requires Roomy(e)
    ensures FreeSize(e) > 0
  {
  }

  /** There is one choice. */
  lemma ChosenOnce(map_: seq<MemEntry>, p: Range, q: Range)
    requires Chosen(map_, p) && Chosen(map_, q)
    ensures p == q
  {
    if i: nat :| FirstRoomy(map_, i) && p == HighPool(map_[i]) {
      RoomyIsFree(map_[i]);
      var j: nat :| FirstRoomy(map_, j) && q == HighPool(map_[j]);
      FirstsAgree(map_, i, j);
    } else if i: nat :| FirstLongest(map_, i) && NoneRoomy(map_) && p == WholePages(map_[i]) {
      var j: nat :| FirstLongest(map_, j) && q == WholePages(map_[j]);
      LongestAgree(map_, i, j);
    } else {
      assert NoneFree(map_) && p == Range(0, 0);
      NoneFreeNoneRoomy(map_);
    }
  }

  lemma FirstsAgree(map_: seq<MemEntry>, i: nat, j: nat)
    requires FirstRoomy(map_, i) && FirstRoomy(map_, j)
    ensures i == j
  {
  }

  lemma LongestAgree(map_: seq<MemEntry>, i: nat, j: nat)
    requires FirstLongest(map_, i) && FirstLongest(map_, j)
    ensures i == j
  {
  }

  lemma NoneFreeNoneRoomy(map_: seq<MemEntry>)
    requires NoneFree(map_)
    ensures NoneRoomy(map_)
  {
    forall i | 0 <= i < |map_|
      ensures !Roomy(map_[i])
    {
      if Roomy(map_[i]) {
        RoomyIsFree(map_[i]);
      }
    }
  }

  lemma ChosenIsPool(map_: seq<MemEntry>, pool: Range)
    requires Chosen(map_, pool)
    ensures PoolOf(map_, pool)
  {
    if i: nat :| FirstRoomy(map_, i) && pool == HighPool(map_[i]) {
      EntryIsPool(map_, i, pool);
    } else if i: nat :| FirstLongest(map_, i) && pool == WholePages(map_[i]) {
      EntryIsPool(map_, i, pool);
    }
  }

  lemma EntryIsPool(map_: seq<MemEntry>, i: nat, pool: Range)
    requires i < |map_| && map_[i].kind == ASD_MEM_FREE && pool.first <= pool.end
    requires WholePages(map_[i]).first <= pool.first && pool.end <= WholePages(map_[i]).end
    ensures PoolOf(map_, pool)
  {
    forall f | InRange(pool, f)
      ensures HasFree(map_, f)
    {
      assert FreePage(map_[i], f);
    }
  }

  /** A pool that starts at frame 0 is handed out again whole: so it is where the only free entry
      starts there and is too short for the first choice. */
  lemma PoolAtZeroReleased(n: nat, pool: Range)
    requires 0 < n < MIB_PAGES + BUMP_PAGES && Chosen([MemEntry(ASD_MEM_FREE, 0, n)], pool)
    ensures pool == Range(0, n) && UsableRanges([MemEntry(ASD_MEM_FREE, 0, n)], pool) == [Range(0, n)]
  {
    var e := MemEntry(ASD_MEM_FREE, 0, n);
    assert WholePages(e) == Range(0, n) && !Roomy(e) && [e][0] == e;
    assert FirstLongest([e], 0);
    ChosenOnce([e], pool, WholePages([e][0]));
    assert Usable(e, Range(0, n)) == [Range(0, n)];
    assert [e][1..] == [];
    assert UsableRanges([], Range(0, n)) == [];
  }

  /** One free page. */
  function OnePage(f: nat): MemEntry { MemEntry(ASD_MEM_FREE, f * PAGE_SIZE, 1) }

  /** 64 MiB at one mebibyte, and two free pages that meet in the middle of a buddy pair. */
  const MEETING: seq<MemEntry> := [MemEntry(ASD_MEM_FREE, MIB_PAGES * PAGE_SIZE, BUMP_PAGES), OnePage(2), OnePage(3)]

  lemma OnePageUsable(f: nat, pool: Range)
    requires f < pool.first
    ensures Usable(OnePage(f), pool) == [Range(f, f + 1)]
  {
    assert WholePages(OnePage(f)) == Range(f, f + 1);
  }

  lemma MeetingUsable(pool: Range)
    requires Chosen(MEETING, pool)
    ensures pool == Range(256, 16640) && UsableRanges(MEETING, pool) == [Range(2, 3), Range(3, 4)]
  {
    var e, a, b := MEETING[0], OnePage(2), OnePage(3);
    assert WholePages(e) == Range(256, 16640) && Roomy(e);
    assert FirstRoomy(MEETING, 0);
    ChosenOnce(MEETING, pool, HighPool(e));
    OnePageUsable(2, pool);
    OnePageUsable(3, pool);
    assert Usable(e, pool) == [];
    assert MEETING[1..] == [a, b] && [a, b][1..] == [b] && [b][1..] == [];
    assert UsableRanges([b], pool) == Usable(b, pool) + UsableRanges([], pool);
    assert UsableRanges([a, b], pool) == Usable(a, pool) + UsableRanges([b], pool);
  }

  lemma PagesTwoAndThreeStraddle()
    ensures Straddles([Range(2, 3), Range(3, 4)], 0, 1, Block(2, 1))
  {
    assert Pow2(1) == 2 && Pow2(0) == 1;
  }

  /** On that map, with the pool that boot chooses, both buddies end up on the lists. */
  lemma MeetingEntriesStayApart(pool: Range)
    requires Chosen(MEETING, pool)
    ensures !Coalesced(FreeSet(FreeRanges(EMPTY, UsableRanges(MEETING, pool))))
  {
    MeetingUsable(pool);
    PagesTwoAndThreeStraddle();
    InitCoalescedIffNoStraddle([Range(2, 3), Range(3, 4)]);
  }

  lemma {:induction false} FreeRangeMeta(s: Phys, r: Range)
    requires WellFormed(s) && MetaAligned(s)
    ensures MetaAligned(FreeRange(s, r))
    decreases r.end - r.first
  {
    if r.first < r.end {
      FirstBlockIsLargest(r);
      FreeRangeMeta(PushFree(s, FirstBlock(r)), Range(End(FirstBlock(r)), r.end));
    }
  }

  lemma {:induction false} FreeRangesMeta(s: Phys, rs: seq<Range>)
    requires WellFormed(s) && MetaAligned(s)
    ensures MetaAligned(FreeRanges(s, rs))
    decreases |rs|
  {
    if rs != [] {
      FreeRangeMeta(s, rs[0]);
      FreeRangesMeta(FreeRange(s, rs[0]), rs[1..]);
    }
  }
}
