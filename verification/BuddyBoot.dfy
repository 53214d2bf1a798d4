/** From the firmware's memory map to any later moment: boot, then any legal run. */
module BuddyBoot {
  import opened BuddyBlocks
  import opened BuddySpec
  import opened BuddyInit
  import opened BuddyRuns

  /** Some aligned block has its two halves inside two different usable ranges. */
  ghost predicate Straddled(rs: seq<Range>) {
    exists i, j, p :: Straddles(rs, i, j, p)
  }

  /** After boot on a map whose free entries do not overlap, in every reachable state free and held
      blocks tile the free memory outside the pool, and pages are conserved; and unless a buddy
      pair straddles two usable ranges, no two buddies are ever both free, and whenever nothing is
      held the free blocks are again exactly those that the boot code cut. */
  lemma BootThenRun(map_: seq<MemEntry>, pool: Range, ops: seq<Op>, last: World)
    requires FreeDisjoint(map_) && PoolOf(map_, pool) && !HasFree(map_, 0)
    requires Run(World(FreeRanges(EMPTY, UsableRanges(map_, pool)), {}), ops, last)
    ensures Invariant(last.phys, last.live, Managed(map_, pool))
    ensures last.phys.freePages + HeldPages(last.live) == FreeRanges(EMPTY, UsableRanges(map_, pool)).freePages
    ensures var rs := UsableRanges(map_, pool);
      !Straddled(rs) ==> Coalesced(FreeSet(last.phys)) && (last.live == {} ==> FreeSet(last.phys) == AllGreedy(rs))
  {
    var rs, m := UsableRanges(map_, pool), Managed(map_, pool);
    var first := World(FreeRanges(EMPTY, rs), {});
    UsableDisjoint(map_, pool);
    InitEstablishes(rs);
    InitCoalescedIffNoStraddle(rs);
    RunKeeps(first, ops, last, m);
    RunConservesPages(first, ops, last, m);
    if !Straddled(rs) && last.live == {} {
      RunThatFreesAllRestores(first, ops, last, m);
    }
  }
}
