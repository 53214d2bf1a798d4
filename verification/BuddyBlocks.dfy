/** The geometry of naturally aligned power-of-two blocks, in page frames:
    buddies, parents, and sets of blocks that tile a set of frames. */
module BuddyBlocks {
  import opened Bits

  const MAX_ORDER: nat := 18

  datatype Block = Block(base: nat, order: nat)

  function End(b: Block): nat {
    b.base + Pow2(b.order)
  }

  predicate Aligned(b: Block) {
    b.base % Pow2(b.order) == 0
  }

  predicate Covers(b: Block, f: nat) {
    b.base <= f < End(b)
  }

  predicate Within(b: Block, c: Block) {
    c.base <= b.base && End(b) <= End(c)
  }

  predicate Apart(b: Block, c: Block) {
    End(b) <= c.base || End(c) <= b.base
  }

  function BuddyOf(b: Block): Block {
    Block(BitXor(b.base, Pow2(b.order)), b.order)
  }

  function ParentOf(b: Block): Block {
    var q := BuddyOf(b).base;
    Block(if b.base < q then b.base else q, b.order + 1)
  }

  function LowerHalf(p: Block): Block
    requires p.order > 0
  {
    Block(p.base, p.order - 1)
  }

  function UpperHalf(p: Block): Block
    requires p.order > 0
  {
    Block(p.base + Pow2(p.order - 1), p.order - 1)
  }

  lemma MultipleGap(m: nat, a: int, b: int)
    requires m > 0 && m * a < m * b
    ensures m * a + m <= m * b
  {
    if b <= a {
      MulLe(b, a, m);
      assert false;
    }
    MulLe(a + 1, b, m);
  }

  /** A multiple of a larger power of two is a multiple of every smaller one. */
  lemma AlignedDown(x: nat, k: nat, o: nat) returns (q: nat)
    requires o <= k && x % Pow2(k) == 0
    ensures x == Pow2(o) * q
  {
    Pow2Add(o, k - o);
    var m, n, r := Pow2(o), Pow2(k - o), x / Pow2(k);
    assert x == Pow2(k) * r;
    assert (m * n) * r == m * (n * r);
    MulLe(0, r, n);
    q := n * r;
  }

  /** Two aligned blocks are nested or apart; they never cross. */
  lemma NestedOrApart(b: Block, c: Block)
    requires Aligned(b) && Aligned(c) && b.order <= c.order
    ensures Within(b, c) || Apart(b, c)
  {
    var m := Pow2(b.order);
    var x := AlignedDown(b.base, b.order, b.order);
    var y := AlignedDown(c.base, c.order, b.order);
    Pow2Add(b.order, c.order - b.order);
    var z := y + Pow2(c.order - b.order);
    assert End(c) == m * y + m * Pow2(c.order - b.order) == m * z;
    if b.base < c.base {
      MultipleGap(m, x, y);
    } else if b.base < End(c) {
      MultipleGap(m, x, z);
    }
  }

  lemma EvenMultiple(x: nat, m: nat)
    requires m > 0 && x % (2 * m) == 0
    ensures x % m == 0 && (x / m) % 2 == 0
    ensures (x + m) % m == 0 && ((x + m) / m) % 2 == 1
  {
    var q := x / (2 * m);
    assert x == (2 * m) * q == m * (2 * q);
    assert x + m == m * (2 * q + 1);
    DivUnique(x, m, 2 * q, 0);
    DivUnique(x + m, m, 2 * q + 1, 0);
  }

  lemma EvenOrOddMultiple(x: nat, m: nat)
    requires m > 0 && x % m == 0
    ensures (x / m) % 2 == 0 ==> x % (2 * m) == 0
    ensures (x / m) % 2 == 1 ==> x >= m && (x - m) % (2 * m) == 0
  {
    var h := (x / m) / 2;
    MulLe(0, h, 2 * m);
    if (x / m) % 2 == 0 {
      assert x == m * (2 * h) == (2 * m) * h;
      DivUnique(x, 2 * m, h, 0);
    } else {
      assert x == m * (2 * h + 1) == (2 * m) * h + m;
      DivUnique(x - m, 2 * m, h, 0);
    }
  }

  lemma HalvesFlip(x: nat, o: nat)
    requires x % Pow2(o + 1) == 0
    ensures x % Pow2(o) == 0 && (x + Pow2(o)) % Pow2(o) == 0
    ensures BitXor(x, Pow2(o)) == x + Pow2(o) && BitXor(x + Pow2(o), Pow2(o)) == x
  {
    var m := Pow2(o);
    assert Pow2(o + 1) == 2 * m;
    EvenMultiple(x, m);
    XorOneBit(x, o);
    XorOneBit(x + m, o);
  }

  /** Splitting an aligned block gives two aligned halves that are buddies of each other. */
  lemma HalvesAreBuddies(p: Block)
    requires Aligned(p) && p.order > 0
    ensures Aligned(LowerHalf(p)) && Aligned(UpperHalf(p))
    ensures BuddyOf(LowerHalf(p)) == UpperHalf(p) && BuddyOf(UpperHalf(p)) == LowerHalf(p)
    ensures ParentOf(LowerHalf(p)) == p && ParentOf(UpperHalf(p)) == p
  {
    HalvesFlip(p.base, p.order - 1);
  }

  /** An aligned block is one of the two halves of its aligned parent. */
  lemma ParentHalves(b: Block)
    requires Aligned(b)
    ensures Aligned(ParentOf(b)) && ParentOf(BuddyOf(b)) == ParentOf(b)
    ensures (b == LowerHalf(ParentOf(b)) && BuddyOf(b) == UpperHalf(ParentOf(b)))
         || (b == UpperHalf(ParentOf(b)) && BuddyOf(b) == LowerHalf(ParentOf(b)))
  {
    var m := Pow2(b.order);
    EvenOrOddMultiple(b.base, m);
    var p := Block(if (b.base / m) % 2 == 0 then b.base else b.base - m, b.order + 1);
    assert Pow2(p.order) == 2 * m && Aligned(p);
    HalvesAreBuddies(p);
  }

  // ---- Tilings -------------------------------------------------------------------------

  /** The blocks of `t` are aligned, pairwise apart, and cover exactly the frames of `m`. */
  ghost predicate Tiles(t: set<Block>, m: set<nat>) {
    && (forall b :: b in t ==> Aligned(b) && b.order <= MAX_ORDER)
    && (forall b, c :: b in t && c in t && b != c ==> Apart(b, c))
    && (forall b, f :: b in t && Covers(b, f) ==> f in m)
    && (forall f {:trigger CoveredBy(t, f)} :: f in m ==> CoveredBy(t, f))
  }

  ghost predicate CoveredBy(t: set<Block>, f: nat) {
    exists b :: b in t && Covers(b, f)
  }

  lemma HalvesCover(p: Block)
    requires p.order > 0
    ensures forall f :: Covers(p, f) <==> Covers(LowerHalf(p), f) || Covers(UpperHalf(p), f)
    ensures forall b :: Apart(b, p) ==> Apart(b, LowerHalf(p)) && Apart(b, UpperHalf(p))
    ensures forall b :: Apart(b, LowerHalf(p)) && Apart(b, UpperHalf(p)) ==> Apart(b, p)
    ensures Apart(LowerHalf(p), UpperHalf(p)) && !Apart(LowerHalf(p), p) && !Apart(UpperHalf(p), p)
  {
  }

  /** Replacing a tile by its two halves tiles the same frames. */
  lemma SplitTile(t: set<Block>, m: set<nat>, p: Block)
    requires Tiles(t, m) && p in t && p.order > 0
    ensures Tiles(t - {p} + {LowerHalf(p), UpperHalf(p)}, m)
    ensures LowerHalf(p) !in t && UpperHalf(p) !in t
  {
    HalvesAreBuddies(p);
    HalvesCover(p);
    var l, u := LowerHalf(p), UpperHalf(p);
    var t' := t - {p} + {l, u};
    forall f | f in m
      ensures CoveredBy(t', f)
    {
      assert CoveredBy(t, f);
      var b :| b in t && Covers(b, f);
      assert b != p ==> b in t';
      assert l in t' && u in t';
    }
  }

  /** Replacing two buddy tiles by their parent tiles the same frames. */
  lemma MergeTiles(t: set<Block>, m: set<nat>, b: Block)
    requires Tiles(t, m) && b in t && BuddyOf(b) in t && b.order < MAX_ORDER
    ensures Tiles(t - {b, BuddyOf(b)} + {ParentOf(b)}, m)
    ensures ParentOf(b) !in t
  {
    ParentHalves(b);
    var c, p := BuddyOf(b), ParentOf(b);
    var t' := t - {b, c} + {p};
    assert !Apart(p, b) && p != b;
    forall f | f in m
      ensures CoveredBy(t', f)
    {
      assert CoveredBy(t, f);
      var x :| x in t && Covers(x, f);
      if x == b || x == c {
        assert Covers(p, f);
        assert p in t';
      } else {
        assert x in t';
      }
    }
    forall x, f | x in t' && Covers(x, f)
      ensures f in m
    {
      if x == p {
        assert Covers(b, f) || Covers(c, f);
      }
    }
    forall x, y | x in t' && y in t' && x != y
      ensures Apart(x, y)
    {
      if x == p {
        assert Apart(y, b) && Apart(y, c);
      } else if y == p {
        assert Apart(x, b) && Apart(x, c);
      }
    }
  }

  lemma TileSwallowsParent(b: Block, c: Block)
    requires Aligned(b) && Aligned(c) && b.order < c.order && Covers(c, BuddyOf(b).base)
    ensures Within(b, c) && b != c
  {
    ParentHalves(b);
    NestedOrApart(ParentOf(b), c);
  }

  lemma SmallTileStartsAtBuddy(b: Block, c: Block)
    requires Aligned(b) && Aligned(c) && c.order <= b.order && Covers(c, BuddyOf(b).base)
    ensures c.base == BuddyOf(b).base
  {
    ParentHalves(b);
    HalvesAreBuddies(ParentOf(b));
    NestedOrApart(c, BuddyOf(b));
  }

  /** The geometric heart of coalescing: next to a tile of order o, a managed buddy frame is
      always the first frame of a tile of order at most o.  It can never be the middle of one,
      so metadata left behind in the middle of a block is never consulted. */
  lemma BuddyFrameIsHead(t: set<Block>, m: set<nat>, b: Block) returns (c: Block)
    requires Tiles(t, m) && b in t && BuddyOf(b).base in m
    ensures c in t && c.base == BuddyOf(b).base && c.order <= b.order
  {
    assert CoveredBy(t, BuddyOf(b).base);
    c :| c in t && Covers(c, BuddyOf(b).base);
    if c.order <= b.order {
      SmallTileStartsAtBuddy(b, c);
    } else {
      TileSwallowsParent(b, c);
      assert false;
    }
  }

  // ---- Fully coalesced tilings are unique ------------------------------------------------

  /** No two buddies below the maximum order are both present. */
  ghost predicate Coalesced(t: set<Block>) {
    forall b :: b in t && b.order < MAX_ORDER ==> BuddyOf(b) !in t
  }

  ghost predicate Inside(b: Block, m: set<nat>) {
    forall f :: Covers(b, f) ==> f in m
  }

  lemma {:induction false} CoalescedCovers(t: set<Block>, m: set<nat>, b: Block) returns (c: Block)
    requires Tiles(t, m) && Coalesced(t)
    requires Aligned(b) && b.order <= MAX_ORDER && Inside(b, m)
    ensures c in t && Within(b, c)
    decreases b.order
  {
    assert Covers(b, b.base);
    if b.order == 0 {
      assert CoveredBy(t, b.base);
      c :| c in t && Covers(c, b.base);
    } else {
      HalvesAreBuddies(b);
      var l, u := LowerHalf(b), UpperHalf(b);
      assert Inside(l, m) by {
        forall f | Covers(l, f) ensures f in m { assert Covers(b, f); }
      }
      assert Inside(u, m) by {
        forall f | Covers(u, f) ensures f in m { assert Covers(b, f); }
      }
      c := CoalescedCovers(t, m, l);
      var d := CoalescedCovers(t, m, u);
      if c == l && d == u {
        assert false;
      }
      if c == l {
        c := d;
      }
      LargerTileCovers(b, c);
    }
  }

  /** A block that strictly contains one half of b contains b. */
  lemma LargerTileCovers(b: Block, c: Block)
    requires Aligned(b) && b.order > 0 && Aligned(c)
    requires (Within(LowerHalf(b), c) && c != LowerHalf(b)) || (Within(UpperHalf(b), c) && c != UpperHalf(b))
    ensures Within(b, c)
  {
    if c.order < b.order {
      Pow2Monotone(c.order, b.order - 1);
      if c.order < b.order - 1 {
        Pow2Monotone(c.order, b.order - 2);
      }
      assert false;
    }
    NestedOrApart(b, c);
  }

  /** A fully coalesced tiling consists of the blocks inside m whose parent is not inside m. */
  lemma CoalescedTile(t: set<Block>, m: set<nat>, b: Block)
    requires Tiles(t, m) && Coalesced(t) && Aligned(b) && b.order <= MAX_ORDER
    ensures b in t <==> Inside(b, m) && (b.order == MAX_ORDER || !Inside(ParentOf(b), m))
  {
    if b in t {
      if b.order < MAX_ORDER {
        TileParentOutside(t, m, b);
      }
    } else if Inside(b, m) && (b.order == MAX_ORDER || !Inside(ParentOf(b), m)) {
      MaximalIsTile(t, m, b);
    }
  }

  lemma TileParentOutside(t: set<Block>, m: set<nat>, b: Block)
    requires Tiles(t, m) && Coalesced(t) && b in t && b.order < MAX_ORDER
    ensures !Inside(ParentOf(b), m)
  {
    ParentHalves(b);
    if Inside(ParentOf(b), m) {
      var c := CoalescedCovers(t, m, ParentOf(b));
      assert false;
    }
  }

  lemma MaximalIsTile(t: set<Block>, m: set<nat>, b: Block)
    requires Tiles(t, m) && Coalesced(t) && Aligned(b) && b.order <= MAX_ORDER
    requires Inside(b, m) && (b.order == MAX_ORDER || !Inside(ParentOf(b), m))
    ensures b in t
  {
    var c := CoalescedCovers(t, m, b);
    WithinOrder(b, c);
    if b.order < c.order {
      ParentWithin(b, c);
    }
  }

  /** A block strictly inside another has its parent inside it too. */
  lemma ParentWithin(b: Block, c: Block)
    requires Aligned(b) && Aligned(c) && Within(b, c) && b.order < c.order
    ensures Within(ParentOf(b), c)
  {
    ParentHalves(b);
    NestedOrApart(ParentOf(b), c);
  }

  lemma WithinOrder(b: Block, c: Block)
    requires Within(b, c)
    ensures b.order <= c.order && (b.order == c.order ==> b == c)
  {
    if c.order < b.order {
      Pow2Monotone(c.order, b.order - 1);
      assert false;
    }
  }

  /** Two fully coalesced tilings of the same frames are the same set of blocks. */
  lemma CoalescedTilingUnique(t: set<Block>, u: set<Block>, m: set<nat>)
    requires Tiles(t, m) && Coalesced(t) && Tiles(u, m) && Coalesced(u)
    ensures t == u
  {
    forall b: Block
      ensures b in t <==> b in u
    {
      if Aligned(b) && b.order <= MAX_ORDER {
        CoalescedTile(t, m, b);
        CoalescedTile(u, m, b);
      }
    }
  }
}
