/** The physical allocator as a state machine on values: free lists, page metadata and the
    free-page counter, with the two public operations and the boot-time range release. */
module BuddySpec {
  import opened Bits
  import opened BuddyBlocks

  const PAGE_FREE: nat := 1
  const PAGE_ALLOC: nat := 2

  datatype PageInfo = PageInfo(flags: nat, order: nat, refcount: nat)

  /** `lists[o]` holds the first frames of the free blocks of order o, most recently freed first.
      `info` is the page metadata array; a frame never written reads as zero. */
  datatype Phys = Phys(lists: seq<seq<nat>>, info: map<nat, PageInfo>, freePages: int)

  function InfoAt(s: Phys, f: nat): PageInfo {
    if f in s.info then s.info[f] else PageInfo(0, 0, 0)
  }

  predicate MarkedFree(s: Phys, f: nat, order: nat) {
    InfoAt(s, f).flags % 2 == 1 && InfoAt(s, f).order == order
  }

  predicate WellFormed(s: Phys) {
    |s.lists| == MAX_ORDER + 1
  }

  function PushFree(s: Phys, b: Block): (r: Phys)
    requires WellFormed(s) && b.order <= MAX_ORDER
    ensures WellFormed(r)
  {
    Phys(s.lists[b.order := [b.base] + s.lists[b.order]],
         s.info[b.base := InfoAt(s, b.base).(flags := PAGE_FREE, order := b.order)],
         s.freePages + Pow2(b.order))
  }

  /** The list without its first occurrence of q. */
  function Without(l: seq<nat>, q: nat): seq<nat> {
    if l == [] then [] else if l[0] == q then l[1..] else [l[0]] + Without(l[1..], q)
  }

  function Unlink(s: Phys, b: Block): (r: Phys)
    requires WellFormed(s) && b.order <= MAX_ORDER
    ensures WellFormed(r)
  {
    if b.base in s.lists[b.order] then
      s.(lists := s.lists[b.order := Without(s.lists[b.order], b.base)], freePages := s.freePages - Pow2(b.order))
    else s
  }

  /** amm_phys_free: merge with the buddy while the metadata says it is free at this order. */
  function Free(s: Phys, b: Block): (r: Phys)
    requires WellFormed(s) && b.order <= MAX_ORDER
    ensures WellFormed(r)
    decreases MAX_ORDER - b.order
  {
    if b.order < MAX_ORDER && MarkedFree(s, BuddyOf(b).base, b.order) then
      Free(Unlink(s, BuddyOf(b)), ParentOf(b))
    else PushFree(s, b)
  }

  /** Split p down to the requested order, freeing the upper half at each step. */
  function Split(s: Phys, p: Block, order: nat): (r: Phys)
    requires WellFormed(s) && order <= p.order <= MAX_ORDER
    ensures WellFormed(r)
    decreases p.order
  {
    if p.order == order then s
    else Split(PushFree(s, BuddyOf(LowerHalf(p))), LowerHalf(p), order)
  }

  function MarkAlloc(s: Phys, b: Block): (r: Phys)
    ensures r.lists == s.lists
  {
    s.(info := s.info[b.base := PageInfo(PAGE_ALLOC, b.order, 1)])
  }

  /** The first order at or above o whose list is not empty; MAX_ORDER + 1 if there is none. */
  function FirstNonEmpty(s: Phys, o: nat): (r: nat)
    requires WellFormed(s) && o <= MAX_ORDER + 1
    ensures o <= r <= MAX_ORDER + 1
    ensures r <= MAX_ORDER ==> s.lists[r] != []
    ensures forall k :: o <= k < r ==> s.lists[k] == []
    decreases MAX_ORDER + 1 - o
  {
    if o > MAX_ORDER || s.lists[o] != [] then o else FirstNonEmpty(s, o + 1)
  }

  function Pop(s: Phys, o: nat): (r: Phys)
    requires WellFormed(s) && o <= MAX_ORDER && s.lists[o] != []
    ensures WellFormed(r)
  {
    s.(lists := s.lists[o := s.lists[o][1..]], freePages := s.freePages - Pow2(o))
  }

  datatype Allocation = Allocation(phys: Phys, base: nat)

  /** amm_phys_alloc; base 0 means out of memory. */
  function Alloc(s: Phys, order: nat): (r: Allocation)
    requires WellFormed(s)
    ensures WellFormed(r.phys)
  {
    if order > MAX_ORDER then Allocation(s, 0)
    else
      var o := FirstNonEmpty(s, order);
      if o > MAX_ORDER then Allocation(s, 0)
      else
        var p := s.lists[o][0];
        Allocation(MarkAlloc(Split(Pop(s, o), Block(p, o), order), Block(p, order)), p)
  }

  // ---- The invariant ---------------------------------------------------------------------

  ghost predicate IsFree(s: Phys, b: Block) {
    b.order < |s.lists| && b.base in s.lists[b.order]
  }

  ghost function FreeSet(s: Phys): (r: set<Block>)
    ensures forall b :: b in r <==> IsFree(s, b)
  {
    set o: nat, p: nat | o < |s.lists| && p in s.lists[o] :: Block(p, o)
  }

  ghost predicate NoDuplicates(l: seq<nat>) {
    l == [] || (l[0] !in l[1..] && NoDuplicates(l[1..]))
  }

  /** Sum of 2^order over all listed blocks. */
  ghost function ListedPages(lists: seq<seq<nat>>): nat {
    if lists == [] then 0
    else
      var k := |lists| - 1;
      ListedPages(lists[..k]) + |lists[k]| * Pow2(k)
  }

  /** `used` are the blocks that are on no list; `m` the managed frames. */
  ghost predicate Consistent(s: Phys, used: set<Block>, m: set<nat>) {
    && WellFormed(s)
    && (forall o :: 0 <= o <= MAX_ORDER ==> NoDuplicates(s.lists[o]))
    && FreeSet(s) !! used
    && Tiles(FreeSet(s) + used, m)
    && (forall b :: IsFree(s, b) ==> MarkedFree(s, b.base, b.order))
    && (forall f :: InfoAt(s, f).flags % 2 == 1 ==> f in m)
    && s.freePages == ListedPages(s.lists)
  }

  ghost predicate LiveMarked(s: Phys, live: set<Block>) {
    forall b :: b in live ==> InfoAt(s, b.base) == PageInfo(PAGE_ALLOC, b.order, 1)
  }

  /** What every reachable allocator state satisfies. */
  ghost predicate Invariant(s: Phys, live: set<Block>, m: set<nat>) {
    Consistent(s, live, m) && LiveMarked(s, live)
  }

  /** Whatever order is recorded for a frame, current or stale, a block of that order may start there. */
  ghost predicate MetaAligned(s: Phys) {
    forall f :: f in s.info ==> Aligned(Block(f, s.info[f].order))
  }

  /** No block of this order or a higher one is free. */
  ghost predicate Exhausted(s: Phys, order: nat) {
    forall o :: order <= o <= MAX_ORDER && o < |s.lists| ==> s.lists[o] == []
  }
}
