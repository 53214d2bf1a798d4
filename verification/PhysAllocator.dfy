/** The physical allocator as the kernel runs it: state updated in place by loops.  Each method
    is proved to compute the matching function of the value-level model. */
module PhysAllocator {
  import opened Bits
  import opened BuddyBlocks
  import B = BuddySpec
  import BuddyInit
  import BuddyProofs

  type Range = BuddyInit.Range

  lemma {:induction false} WithoutAt(l: seq<nat>, q: nat, i: nat)
    requires i < |l| && l[i] == q && q !in l[..i]
    ensures B.Without(l, q) == l[..i] + l[i + 1..]
  {
    if i > 0 {
      assert l[1..][..i - 1] == l[..i][1..];
      WithoutAt(l[1..], q, i - 1);
      assert l[..i] + l[i + 1..] == [l[0]] + (l[1..][..i - 1] + l[1..][i..]);
    }
  }

  predicate Open(k: nat) { true }

  // What the loops of the allocator still have to do, each stated behind a trigger because the
  // loops only hand it on.

  ghost predicate RangeLeft(s: B.Phys, r: Range, goal: B.Phys) {
    forall k: nat {:trigger Open(k)} :: Open(k) ==> B.WellFormed(s) && BuddyInit.FreeRange(s, r) == goal
  }

  lemma RangeStep(s: B.Phys, r: Range, goal: B.Phys, b: Block)
    requires B.WellFormed(s) && r.first < r.end && b == BuddyInit.FirstBlock(r) && RangeLeft(s, r, goal)
    ensures End(b) <= r.end && b.order <= MAX_ORDER
    ensures RangeLeft(B.PushFree(s, b), BuddyInit.Range(End(b), r.end), goal)
  {
    assert Open(0);
  }

  ghost predicate SplitLeft(s: B.Phys, p: Block, order: nat, goal: B.Phys) {
    forall k: nat {:trigger Open(k)} :: Open(k) ==>
      B.WellFormed(s) && order <= p.order <= MAX_ORDER && B.Split(s, p, order) == goal
  }

  lemma SplitStep(s: B.Phys, p: Block, order: nat, goal: B.Phys)
    requires B.WellFormed(s) && order < p.order <= MAX_ORDER && SplitLeft(s, p, order, goal)
    ensures SplitLeft(B.PushFree(s, BuddyOf(LowerHalf(p))), LowerHalf(p), order, goal)
  {
    assert Open(0);
  }

  ghost predicate FreeLeft(s: B.Phys, b: Block, goal: B.Phys) {
    forall k: nat {:trigger Open(k)} :: Open(k) ==> B.WellFormed(s) && b.order <= MAX_ORDER && B.Free(s, b) == goal
  }

  lemma FreeStep(s: B.Phys, b: Block, goal: B.Phys)
    requires B.WellFormed(s) && b.order <= MAX_ORDER && FreeLeft(s, b, goal)
    ensures if b.order < MAX_ORDER && B.MarkedFree(s, BuddyOf(b).base, b.order)
      then FreeLeft(B.Unlink(s, BuddyOf(b)), ParentOf(b), goal) else B.PushFree(s, b) == goal
  {
    assert Open(0);
  }

  ghost function Pages(rs: seq<Range>): nat {
    if rs == [] then 0
    else (if rs[0].first < rs[0].end then rs[0].end - rs[0].first else 0) + Pages(rs[1..])
  }

  lemma {:induction false} FreeRangeCounts(s: B.Phys, r: Range)
    requires B.WellFormed(s)
    ensures BuddyInit.FreeRange(s, r).freePages == s.freePages + if r.first < r.end then r.end - r.first else 0
    decreases r.end - r.first
  {
    if r.first < r.end {
      var b := BuddyInit.FirstBlock(r);
      FreeRangeCounts(B.PushFree(s, b), BuddyInit.Range(End(b), r.end));
    }
  }

  lemma {:induction false} FreeRangesCount(s: B.Phys, rs: seq<Range>)
    requires B.WellFormed(s)
    ensures BuddyInit.FreeRanges(s, rs).freePages == s.freePages + Pages(rs)
    decreases |rs|
  {
    if rs != [] {
      FreeRangeCounts(s, rs[0]);
      FreeRangesCount(BuddyInit.FreeRange(s, rs[0]), rs[1..]);
    }
  }

  /** bump_init. */
  method BumpInit(entries: seq<BuddyInit.MemEntry>) returns (pool: Range)
    ensures BuddyInit.Chosen(entries, pool)
  {
    for i := 0 to |entries|
      invariant forall j :: 0 <= j < i ==> !BuddyInit.Roomy(entries[j])
    {
      if BuddyInit.Roomy(entries[i]) {
        assert BuddyInit.FirstRoomy(entries, i);
        return BuddyInit.HighPool(entries[i]);
      }
    }
    pool := LongestEntry(entries);
  }

  /** The fallback of bump_init. */
  method LongestEntry(entries: seq<BuddyInit.MemEntry>) returns (pool: Range)
    ensures BuddyInit.NoneRoomy(entries) ==> BuddyInit.Chosen(entries, pool)
  {
    pool := BuddyInit.Range(0, 0);
    ghost var at := 0;
    for i := 0 to |entries|
      invariant if pool == BuddyInit.Range(0, 0) then BuddyInit.NoneFree(entries[..i])
                else BuddyInit.FirstLongest(entries[..i], at) && pool == BuddyInit.WholePages(entries[at])
    {
      var w := BuddyInit.WholePages(entries[i]);
      if entries[i].kind == BuddyInit.ASD_MEM_FREE && w.first < w.end && w.end - w.first > pool.end - pool.first {
        pool, at := w, i;
      }
    }
    assert entries[..|entries|] == entries;
  }

  /** The allocator invariant, kept behind a trigger so that it is opened only where it is used. */
  ghost predicate Backed(s: B.Phys, live: set<Block>, m: set<nat>) {
    forall k: nat {:trigger Open(k)} :: Open(k) ==> B.Invariant(s, live, m) && B.MetaAligned(s)
  }

  lemma BootBacked(entries: seq<BuddyInit.MemEntry>, pool: Range)
    requires BuddyInit.FreeDisjoint(entries) && BuddyInit.PoolOf(entries, pool) && !BuddyInit.HasFree(entries, 0)
    ensures var m := BuddyInit.Managed(entries, pool);
      0 !in m && Backed(BuddyInit.FreeRanges(BuddyInit.EMPTY, BuddyInit.UsableRanges(entries, pool)), {}, m)
  {
    var rs := BuddyInit.UsableRanges(entries, pool);
    BuddyInit.UsableDisjoint(entries, pool);
    BuddyInit.InitEstablishes(rs);
    BuddyInit.FreeRangesMeta(BuddyInit.EMPTY, rs);
  }

  class PhysState {
    var lists: seq<seq<nat>>
    var info: map<nat, B.PageInfo>
    var freePages: int
    var totalPages: nat
    ghost var live: set<Block>
    ghost var managed: set<nat>

    ghost function State(): B.Phys
      reads this
    {
      B.Phys(lists, info, freePages)
    }

    ghost predicate Valid()
      reads this
    {
      B.WellFormed(State())
    }

    constructor ()
      ensures Valid() && State() == BuddyInit.EMPTY && totalPages == 0
    {
      lists := seq(MAX_ORDER + 1, _ => []);
      info := map[];
      freePages := 0;
      totalPages := 0;
    }

    function InfoAt(f: nat): B.PageInfo
      reads this
    {
      if f in info then info[f] else B.PageInfo(0, 0, 0)
    }

    method FreeBlock(frame: nat, order: nat)
      requires Valid() && order <= MAX_ORDER
      modifies this`lists, this`info, this`freePages
      ensures Valid() && State() == B.PushFree(old(State()), Block(frame, order))
    {
      lists := lists[order := [frame] + lists[order]];
      info := info[frame := InfoAt(frame).(flags := B.PAGE_FREE, order := order)];
      freePages := freePages + Pow2(order);
    }

    method FreeRange(base: nat, pages: nat)
      requires Valid()
      modifies this`lists, this`info, this`freePages
      ensures Valid() && State() == BuddyInit.FreeRange(old(State()), BuddyInit.Range(base, base + pages))
    {
      ghost var rest := BuddyInit.Range(base, base + pages);
      ghost var goal := BuddyInit.FreeRange(State(), rest);
      var i := 0;
      while i < pages
        invariant i <= pages && Valid()
        invariant rest == BuddyInit.Range(base + i, base + pages) && RangeLeft(State(), rest, goal)
      {
        var order := FittingOrder(base, i, pages);
        ghost var b := Block(base + i, order);
        RangeStep(State(), rest, goal, b);
        rest := BuddyInit.Range(End(b), rest.end);
        FreeBlock(base + i, order);
        i := i + Pow2(order);
      }
      assert Open(0);
    }

    /** The inner loop of phys_free_range: the highest order that fits and is naturally aligned. */
    static method FittingOrder(base: nat, i: nat, pages: nat) returns (order: nat)
      requires i < pages
      ensures Block(base + i, order) == BuddyInit.FirstBlock(BuddyInit.Range(base + i, base + pages))
    {
      order := MAX_ORDER;
      while order > 0
        invariant order <= MAX_ORDER
        invariant BuddyInit.GreedyOrder(base + i, pages - i, order)
               == BuddyInit.GreedyOrder(base + i, pages - i, MAX_ORDER)
      {
        var blockPages := Pow2(order);
        if i + blockPages > pages {
          order := order - 1;
          continue;
        }
        if (base + i) % blockPages != 0 {
          order := order - 1;
          continue;
        }
        break;
      }
    }

    /** amm_phys_init; `bump` is the pool the bootstrap allocator took, empty if there is none. */
    method Init(entries: seq<BuddyInit.MemEntry>, bump: Range)
      requires Valid() && State() == BuddyInit.EMPTY && totalPages == 0
      modifies this`lists, this`info, this`freePages, this`totalPages
      ensures Valid()
      ensures State() == BuddyInit.FreeRanges(BuddyInit.EMPTY, BuddyInit.UsableRanges(entries, bump))
      ensures totalPages == Pages(BuddyInit.UsableRanges(entries, bump)) == freePages
    {
      ghost var all := BuddyInit.UsableRanges(entries, bump);
      FreeRangesCount(BuddyInit.EMPTY, all);
      assert entries[0..] == entries;
      for i := 0 to |entries|
        invariant Valid()
        invariant BuddyInit.FreeRanges(State(), BuddyInit.UsableRanges(entries[i..], bump))
               == BuddyInit.FreeRanges(BuddyInit.EMPTY, all)
        invariant totalPages + Pages(BuddyInit.UsableRanges(entries[i..], bump)) == Pages(all)
      {
        assert entries[i..][0] == entries[i] && entries[i..][1..] == entries[i + 1..];
        InitEntry(entries[i], bump, BuddyInit.UsableRanges(entries[i + 1..], bump));
      }
      assert entries[|entries|..] == [];
    }

    /** Hand one usable range to the lists and count its pages. */
    method Release(first: nat, end: nat, ghost rest: seq<Range>)
      requires Valid() && first < end
      modifies this`lists, this`info, this`freePages, this`totalPages
      ensures Valid()
      ensures BuddyInit.FreeRanges(State(), rest)
           == BuddyInit.FreeRanges(old(State()), [BuddyInit.Range(first, end)] + rest)
      ensures totalPages + Pages(rest) == old(totalPages) + Pages([BuddyInit.Range(first, end)] + rest)
    {
      assert ([BuddyInit.Range(first, end)] + rest)[1..] == rest;
      FreeRange(first, end - first);
      totalPages := totalPages + (end - first);
    }

    /** One round of the initialisation loop; `rest` stands for the entries still to come. */
    method InitEntry(e: BuddyInit.MemEntry, bump: Range, ghost rest: seq<Range>)
      requires Valid()
      modifies this`lists, this`info, this`freePages, this`totalPages
      ensures Valid()
      ensures BuddyInit.FreeRanges(State(), rest)
           == BuddyInit.FreeRanges(old(State()), BuddyInit.Usable(e, bump) + rest)
      ensures totalPages + Pages(rest) == old(totalPages) + Pages(BuddyInit.Usable(e, bump) + rest)
    {
      assert [] + rest == rest;
      if e.kind != BuddyInit.ASD_MEM_FREE {
        return;
      }
      var w := BuddyInit.WholePages(e);
      if w.end <= w.first {
        return;
      }
      ghost var u := BuddyInit.Usable(e, bump);
      if bump.first != 0 && w.first < bump.end && w.end > bump.first {
        ghost var second := if w.end > bump.end then [BuddyInit.Range(bump.end, w.end)] else [];
        if w.first < bump.first {
          assert u + rest == [BuddyInit.Range(w.first, bump.first)] + (second + rest);
          Release(w.first, bump.first, second + rest);
        } else {
          assert u + rest == second + rest;
        }
        if w.end > bump.end {
          assert second + rest == [BuddyInit.Range(bump.end, w.end)] + rest;
          Release(bump.end, w.end, rest);
        } else {
          assert second + rest == rest;
        }
      } else {
        assert u + rest == [w] + rest;
        Release(w.first, w.end, rest);
      }
    }

    /** amm_phys_alloc once the early bump allocator is retired. */
    method Alloc(order: nat) returns (frame: nat)
      requires Valid()
      modifies this`lists, this`info, this`freePages
      ensures Valid()
      ensures B.Allocation(State(), frame) == B.Alloc(old(State()), order)
    {
      if order > MAX_ORDER {
        return 0;
      }
      var o := order;
      while o <= MAX_ORDER
        invariant order <= o <= MAX_ORDER + 1 && State() == old(State())
        invariant B.FirstNonEmpty(State(), o) == B.FirstNonEmpty(State(), order)
      {
        if lists[o] == [] {
          o := o + 1;
          continue;
        }
        frame := lists[o][0];
        lists := lists[o := lists[o][1..]];
        freePages := freePages - Pow2(o);
        SplitDown(frame, o, order);
        info := info[frame := B.PageInfo(B.PAGE_ALLOC, order, 1)];
        return;
      }
      return 0;
    }

    /** The splitting loop of amm_phys_alloc. */
    method SplitDown(frame: nat, from: nat, order: nat)
      requires Valid() && order <= from <= MAX_ORDER
      modifies this`lists, this`info, this`freePages
      ensures Valid() && State() == B.Split(old(State()), Block(frame, from), order)
    {
      var o := from;
      ghost var goal := B.Split(State(), Block(frame, from), order);
      while o > order
        invariant order <= o <= from && Valid() && SplitLeft(State(), Block(frame, o), order, goal)
      {
        SplitStep(State(), Block(frame, o), order, goal);
        o := o - 1;
        var buddy := BitXor(frame, Pow2(o));
        FreeBlock(buddy, o);
      }
      assert Open(0);
    }

    /** amm_phys_free. */
    method Free(frame: nat, order: nat)
      requires Valid() && order <= MAX_ORDER
      modifies this`lists, this`info, this`freePages
      ensures Valid() && State() == B.Free(old(State()), Block(frame, order))
    {
      var p, o := frame, order;
      ghost var goal := B.Free(State(), Block(frame, order));
      while o < MAX_ORDER
        invariant o <= MAX_ORDER && Valid() && FreeLeft(State(), Block(p, o), goal)
      {
        FreeStep(State(), Block(p, o), goal);
        var buddy := BitXor(p, Pow2(o));
        if InfoAt(buddy).flags % 2 != 1 || InfoAt(buddy).order != o {
          break;
        }
        UnlinkBuddy(buddy, o);
        p := if p < buddy then p else buddy;
        o := o + 1;
      }
      FreeStep(State(), Block(p, o), goal);
      FreeBlock(p, o);
    }

    /** The search that takes the buddy off its singly linked list. */
    method UnlinkBuddy(buddy: nat, order: nat)
      requires Valid() && order <= MAX_ORDER
      modifies this`lists, this`freePages
      ensures Valid() && State() == B.Unlink(old(State()), Block(buddy, order))
    {
      var l, i := lists[order], 0;
      while i < |l| && l[i] != buddy
        invariant 0 <= i <= |l| && buddy !in l[..i]
      {
        i := i + 1;
      }
      if i < |l| {
        WithoutAt(l, buddy, i);
        lists := lists[order := l[..i] + l[i + 1..]];
        freePages := freePages - Pow2(order);
      } else {
        assert l[..i] == l;
      }
    }

    // ---- The allocator and what its clients hold ------------------------------------------------

    /** The blocks that clients hold tile the managed frames together with the free ones. */
    ghost predicate Sound()
      reads this
    {
      Valid() && Backed(State(), live, managed) && 0 !in managed
    }

    ghost predicate Exhausted(order: nat)
      reads this
    {
      B.Exhausted(State(), order)
    }

    /** Boot: the memory map, without the pool, becomes the managed memory, and nothing is held. */
    method Boot(entries: seq<BuddyInit.MemEntry>)
      requires Valid() && State() == BuddyInit.EMPTY && totalPages == 0
      requires BuddyInit.FreeDisjoint(entries) && !BuddyInit.HasFree(entries, 0)
      modifies this
      ensures Sound() && live == {} && totalPages == freePages
      ensures exists pool ::
        && BuddyInit.Chosen(entries, pool) && BuddyInit.PoolOf(entries, pool)
        && managed == BuddyInit.Managed(entries, pool)
    {
      var pool := BumpInit(entries);
      BuddyInit.ChosenIsPool(entries, pool);
      Init(entries, pool);
      BootBacked(entries, pool);
      live, managed := {}, BuddyInit.Managed(entries, pool);
    }

    /** amm_phys_alloc, with the block now held. */
    method Take(order: nat) returns (p: nat)
      requires Sound()
      modifies this`lists, this`info, this`freePages, this`live
      ensures Sound()
      ensures p == 0 <==> old(Exhausted(order))
      ensures p == 0 ==> State() == old(State()) && live == old(live)
      ensures p != 0 ==> p in managed && live == old(live) + {Block(p, order)} && Block(p, order) !in old(live)
      ensures p != 0 ==> forall c :: c in old(live) ==> c.base != p
      ensures p != 0 ==> BuddyProofs.BestFit(old(State()), State(), p, order)
    {
      TakeKeeps(State(), live, managed, order);
      p := Alloc(order);
      if p != 0 {
        live := live + {Block(p, order)};
      }
    }

    /** amm_phys_free of a held block with the order recorded for its first page. */
    method Give(page: nat, ghost b: Block)
      requires Sound() && b in live && page == b.base
      modifies this`lists, this`info, this`freePages, this`live
      ensures Sound() && live == old(live) - {b}
    {
      ghost var s := State();
      GiveKeeps(s, live, managed, b);
      Free(page, InfoAt(page).order);
      live := live - {b};
    }
  }

  lemma TakeKeeps(s: B.Phys, live: set<Block>, m: set<nat>, order: nat)
    requires Backed(s, live, m) && 0 !in m
    ensures B.WellFormed(s) && (B.Alloc(s, order).base == 0 <==> B.Exhausted(s, order))
    ensures var a := B.Alloc(s, order);
      if a.base == 0 then a.phys == s
      else
        && Backed(a.phys, live + {Block(a.base, order)}, m)
        && a.base in m && Block(a.base, order) !in live
        && (forall c :: c in live ==> c.base != a.base)
        && BuddyProofs.BestFit(s, a.phys, a.base, order)
  {
    assert Open(0);
    BuddyProofs.AllocKeeps(s, live, m, order);
    BuddyProofs.AllocFailsIff(s, live, m, order);
    BuddyProofs.AllocMeta(s, live, m, order);
    var a := B.Alloc(s, order);
    if a.base != 0 {
      var b := Block(a.base, order);
      BuddyProofs.AllocTakes(s, live, m, order);
      BuddyProofs.HeldFrame(a.phys, live + {b}, m, b);
      BuddyProofs.HeadsDiffer(a.phys, live + {b}, m, b);
    }
  }

  lemma GiveKeeps(s: B.Phys, live: set<Block>, m: set<nat>, b: Block)
    requires Backed(s, live, m) && b in live
    ensures B.WellFormed(s) && B.InfoAt(s, b.base).order == b.order && b.order <= MAX_ORDER
    ensures Backed(B.Free(s, b), live - {b}, m)
  {
    assert Open(0);
    assert live - {b} + {b} == live;
    assert b in B.FreeSet(s) + live;
    BuddyProofs.FreeKeeps(s, live - {b}, m, b);
    BuddyProofs.FreeMeta(s, b);
  }

  /** A held block is marked with its order, is aligned, and lies in managed memory. */
  lemma HeldBlock(s: B.Phys, live: set<Block>, m: set<nat>, b: Block)
    requires Backed(s, live, m) && b in live
    ensures B.InfoAt(s, b.base).order == b.order && Aligned(b) && b.base in m
  {
    assert Open(0);
    assert b in B.FreeSet(s) + live;
    BuddyProofs.HeldFrame(s, live, m, b);
  }

  /** Different held blocks share no frame. */
  lemma HeldApart(s: B.Phys, live: set<Block>, m: set<nat>, b: Block, c: Block)
    requires Backed(s, live, m) && b in live && c in live && b != c
    ensures Apart(b, c)
  {
    assert Open(0);
    assert b in B.FreeSet(s) + live && c in B.FreeSet(s) + live;
  }

  /** An odd frame never has the order of a pair recorded. */
  lemma OddFrameIsSingle(s: B.Phys, live: set<Block>, m: set<nat>, f: nat)
    requires Backed(s, live, m) && f % 2 == 1
    ensures B.InfoAt(s, f).order == 0
  {
    assert Open(0);
    BuddyProofs.OddFrameIsSingle(s, f);
  }
}
