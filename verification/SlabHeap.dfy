/** kmalloc and kfree over slabs and the physical allocator, with what goes wrong in two of the size
    classes: slabs of the smallest count slots they do not have, and kfree does not find the header
    from the third slot of the 2048-byte class. */
module SlabHeap {
  import opened Bits
  import opened BuddyBlocks
  import opened PhysMemory
  import opened SlabSpec
  import BuddySpec
  import PhysAllocator

  /** An object: a slot of a slab, or a whole block. */
  datatype Obj = Small(frame: nat, cls: nat, slot: nat) | Large(b: Block)

  function Start(o: Obj): nat { if o.Small? then Addr(o.frame, o.cls, o.slot) else o.b.base * PAGE }
  function Length(o: Obj): nat { if o.Small? then SizeOf(o.cls) else Pow2(o.b.order) * PAGE }
  function BlockOf(o: Obj): Block { if o.Small? then Block(o.frame, Order(o.cls)) else o.b }

  /** Objects lie inside their blocks. */
  lemma InsideBlock(o: Obj)
    requires o.Small? ==> o.cls < CLASSES && o.slot < Capacity(o.cls)
    ensures var b := BlockOf(o); b.base * PAGE <= Start(o) && Start(o) + Length(o) <= (b.base + Pow2(b.order)) * PAGE
  {
    if o.Small? {
      SlotOffset(o.cls, o.slot);
      assert Pow2(Order(o.cls)) == SlabPages(o.cls);
    }
  }

  predicate Disjoint(o: Obj, p: Obj) { Start(o) + Length(o) <= Start(p) || Start(p) + Length(p) <= Start(o) }

  /** Objects in blocks that are apart are disjoint. */
  lemma ApartBlocks(o: Obj, p: Obj)
    requires o.Small? ==> o.cls < CLASSES && o.slot < Capacity(o.cls)
    requires p.Small? ==> p.cls < CLASSES && p.slot < Capacity(p.cls)
    requires Apart(BlockOf(o), BlockOf(p))
    ensures Disjoint(o, p)
  {
    InsideBlock(o);
    InsideBlock(p);
    var b, c := BlockOf(o), BlockOf(p);
    if End(b) <= c.base {
      MulLe(End(b), c.base, PAGE);
    } else {
      MulLe(End(c), b.base, PAGE);
    }
  }

  lemma SlotsApart(frame: nat, cls: nat, i: nat, j: nat)
    requires i < j
    ensures Disjoint(Small(frame, cls, i), Small(frame, cls, j))
  {
    MulLe(i + 1, j, SizeOf(cls));
    assert SizeOf(cls) * (i + 1) == i * SizeOf(cls) + SizeOf(cls);
  }

  /** The header of a slab of class cls is in order. */
  predicate HeaderOk(h: Header, cls: nat) {
    cls < CLASSES && h.objSize == SizeOf(cls) && h.capacity == Capacity(cls) && Claims(h) && (cls != 0 ==> Counted(h))
  }

  /** Slabs by frame, with their classes and headers, the blocks handed out whole, and the blocks
      held from the physical allocator. */
  datatype View = View(slabs: map<nat, nat>, headers: map<nat, Header>, large: set<Block>, live: set<Block>)

  ghost predicate SlabOk(v: View, f: nat)
    requires f in v.slabs
  {
    f in v.headers && HeaderOk(v.headers[f], v.slabs[f]) && Block(f, Order(v.slabs[f])) in v.live
  }

  ghost predicate Kept(v: View) {
    && v.headers.Keys == v.slabs.Keys
    && (forall f :: f in v.slabs ==> SlabOk(v, f))
    && (forall b :: b in v.large ==> b in v.live && b.base !in v.slabs && b.order >= 1)
  }

  /** The object is in use. */
  ghost predicate Live(v: View, o: Obj) {
    match o
    case Small(f, cls, slot) =>
      && f in v.slabs && f in v.headers && v.slabs[f] == cls
      && slot < Capacity(cls) && slot < |v.headers[f].bits| && v.headers[f].bits[slot]
    case Large(b) => b in v.large
  }

  /** What can be passed to kfree: a live large object, or a slot of a slab, in use or not. */
  ghost predicate Freeable(v: View, o: Obj) {
    match o
    case Small(f, cls, slot) => f in v.slabs && v.slabs[f] == cls && slot < Capacity(cls)
    case Large(b) => b in v.large
  }

  /** Live objects are pairwise disjoint. */
  lemma LiveApart(s: BuddySpec.Phys, m: set<nat>, v: View, o: Obj, p: Obj)
    requires PhysAllocator.Backed(s, v.live, m) && Kept(v) && Live(v, o) && Live(v, p) && o != p
    ensures Disjoint(o, p)
  {
    assert o.Small? ==> SlabOk(v, o.frame);
    assert p.Small? ==> SlabOk(v, p.frame);
    assert BlockOf(o) in v.live && BlockOf(p) in v.live;
    if BlockOf(o) != BlockOf(p) {
      PhysAllocator.HeldApart(s, v.live, m, BlockOf(o), BlockOf(p));
      ApartBlocks(o, p);
    } else if o.slot < p.slot {
      SlotsApart(o.frame, o.cls, o.slot, p.slot);
    } else {
      SlotsApart(o.frame, o.cls, p.slot, o.slot);
    }
  }

  /** No live object reaches into the header of any slab. */
  lemma HeadersApart(s: BuddySpec.Phys, m: set<nat>, v: View, o: Obj, f: nat)
    requires PhysAllocator.Backed(s, v.live, m) && Kept(v) && Live(v, o) && f in v.slabs
    ensures OffHeader(o, f)
  {
    var c := Block(f, Order(v.slabs[f]));
    HeldFor(v, o);
    assert SlabOk(v, f);
    if BlockOf(o) != c {
      PhysAllocator.HeldApart(s, v.live, m, BlockOf(o), c);
      ApartFromHeader(o, c);
    } else if o.Small? {
      SlotBehindHeader(f, o.cls, o.slot);
    }
  }

  /** A live object is where an object may be, in a block of the heap. */
  lemma HeldFor(v: View, o: Obj)
    requires Kept(v) && Live(v, o)
    ensures BlockOf(o) in v.live && (o.Small? ==> o.cls < CLASSES && o.slot < Capacity(o.cls))
    ensures o.Large? ==> o.b.base !in v.slabs
  {
    assert o.Small? ==> SlabOk(v, o.frame);
  }

  lemma SlotBehindHeader(f: nat, cls: nat, slot: nat)
    ensures OffHeader(Small(f, cls, slot), f)
  {
  }

  predicate OffHeader(o: Obj, f: nat) { Start(o) + Length(o) <= f * PAGE || f * PAGE + HEADER <= Start(o) }

  lemma ApartFromHeader(o: Obj, c: Block)
    requires o.Small? ==> o.cls < CLASSES && o.slot < Capacity(o.cls)
    requires Apart(BlockOf(o), c)
    ensures OffHeader(o, c.base)
  {
    InsideBlock(o);
    var b := BlockOf(o);
    if End(b) <= c.base {
      MulLe(End(b), c.base, PAGE);
    } else {
      MulLe(c.base + 1, b.base, PAGE);
    }
  }

  // ---- Changes of the view --------------------------------------------------------------------------------

  /** Exactly o became live. */
  ghost predicate Adds(v: View, v': View, o: Obj) {
    !Live(v, o) && forall x :: Live(v', x) <==> Live(v, x) || x == o
  }

  /** Exactly o is no longer live. */
  ghost predicate Drops(v: View, v': View, o: Obj) {
    forall x :: Live(v', x) <==> Live(v, x) && x != o
  }

  function WithHeader(v: View, f: nat, h: Header): View { v.(headers := v.headers[f := h]) }

  lemma TakeAdds(v: View, f: nat)
    requires Kept(v) && f in v.slabs && f in v.headers && Claims(v.headers[f]) && !Worn(v.headers[f])
    ensures var h := v.headers[f];
      var v' := WithHeader(v, f, Take(h));
      Kept(v') && Adds(v, v', Small(f, v.slabs[f], FirstClear(h, 0)))
  {
    assert SlabOk(v, f);
    var h := v.headers[f];
    TakeCounted(h);
    var v' := WithHeader(v, f, Take(h));
    HeaderSwapped(v, f, Take(v.headers[f]));
  }

  /** A slab of the smallest class that claims room without having any gives slot 0 out again. */
  lemma TakeRepeats(v: View, f: nat)
    requires Kept(v) && f in v.slabs && f in v.headers && v.headers[f].freeCount > 0 && Worn(v.headers[f])
    ensures v.slabs[f] == 0 && FirstClear(v.headers[f], 0) == 0 && Live(v, Small(f, 0, 0))
    ensures var v' := WithHeader(v, f, Take(v.headers[f])); Kept(v') && SameLive(v, v')
  {
    assert SlabOk(v, f);
    TakeWorn(v.headers[f]);
    var v' := WithHeader(v, f, Take(v.headers[f]));
    HeaderSwapped(v, f, Take(v.headers[f]));
  }

  lemma GiveDrops(v: View, f: nat, slot: nat)
    requires Kept(v) && f in v.slabs && f in v.headers && Live(v, Small(f, v.slabs[f], slot))
    ensures var v' := WithHeader(v, f, Give(v.headers[f], slot));
      Kept(v') && Drops(v, v', Small(f, v.slabs[f], slot))
  {
    assert SlabOk(v, f);
    GiveCounted(v.headers[f], slot);
    HeaderSwapped(v, f, Give(v.headers[f], slot));
    BitDrops(v, f, slot);
  }

  /** Another header in order keeps the view in order. */
  lemma HeaderSwapped(v: View, f: nat, h: Header)
    requires Kept(v) && f in v.slabs && HeaderOk(h, v.slabs[f])
    ensures Kept(WithHeader(v, f, h))
  {
    var v' := WithHeader(v, f, h);
    forall g | g in v'.slabs
      ensures SlabOk(v', g)
    {
      assert SlabOk(v, g);
    }
  }

  lemma BitDrops(v: View, f: nat, slot: nat)
    requires f in v.slabs && f in v.headers && Live(v, Small(f, v.slabs[f], slot))
    ensures Drops(v, WithHeader(v, f, Give(v.headers[f], slot)), Small(f, v.slabs[f], slot))
  {
  }

  /** A new, empty slab in a block just obtained. */
  function AddSlab(v: View, f: nat, cls: nat): View {
    View(v.slabs[f := cls], v.headers[f := NewHeader(cls)], v.large, v.live + {Block(f, Order(cls))})
  }

  lemma NewSlabKeeps(v: View, f: nat, cls: nat)
    requires Kept(v) && cls < CLASSES && f !in v.slabs && forall b :: b in v.large ==> b.base != f
    ensures var v' := AddSlab(v, f, cls); Kept(v') && SameLive(v, v') && Usable(v', f, cls) && !Worn(v'.headers[f])
  {
    NewHeaderCounted(cls);
    var v' := AddSlab(v, f, cls);
    forall g | g in v'.slabs
      ensures SlabOk(v', g)
    {
      assert g in v.slabs ==> SlabOk(v, g);
    }
    NewSlabLive(v, f, cls);
  }

  lemma NewSlabLive(v: View, f: nat, cls: nat)
    requires f !in v.slabs
    ensures SameLive(v, AddSlab(v, f, cls))
  {
    var v', h := AddSlab(v, f, cls), NewHeader(cls);
    forall x
      ensures Live(v', x) <==> Live(v, x)
    {
      if x.Small? && x.frame == f && x.slot < |h.bits| {
        assert !h.bits[x.slot];
      }
    }
  }

  lemma ListedGrows(heads: seq<seq<nat>>, slabs: map<nat, nat>, f: nat, cls: nat)
    requires Listed(heads, slabs) && f !in slabs && cls < CLASSES
    ensures Listed(heads[cls := [f] + heads[cls]], slabs[f := cls])
  {
    var heads', slabs' := heads[cls := [f] + heads[cls]], slabs[f := cls];
    forall c, i | 0 <= c < CLASSES && 0 <= i < |heads'[c]|
      ensures ListedIn(slabs', heads'[c][i], c)
    {
      if c != cls {
        assert ListedIn(slabs, heads[c][i], c);
      } else if i > 0 {
        assert ListedIn(slabs, heads[c][i - 1], c);
      }
    }
    forall g | g in slabs'
      ensures OnList(heads', slabs'[g], g)
    {
      assert g == f || OnList(heads, slabs[g], g);
      assert heads'[cls][0] == f && heads'[cls] == [f] + heads[cls];
    }
  }

  lemma LargeAdds(v: View, b: Block)
    requires Kept(v) && b.base !in v.slabs && b.order >= 1 && b !in v.large
    ensures var v' := v.(large := v.large + {b}, live := v.live + {b}); Kept(v') && Adds(v, v', Large(b))
  {
    var v' := v.(large := v.large + {b}, live := v.live + {b});
    forall g | g in v'.slabs
      ensures SlabOk(v', g)
    {
      assert SlabOk(v, g);
    }
  }

  lemma LargeDrops(v: View, b: Block)
    requires Kept(v) && b in v.large
    ensures var v' := v.(large := v.large - {b}, live := v.live - {b}); Kept(v') && Drops(v, v', Large(b))
  {
    var v' := v.(large := v.large - {b}, live := v.live - {b});
    forall g | g in v'.slabs
      ensures SlabOk(v', g)
    {
      assert SlabOk(v, g);
    }
  }

  // ---- The heap --------------------------------------------------------------------------------------------

  /** The lists hold slabs of their own class, and every slab is on one. */
  ghost predicate Listed(heads: seq<seq<nat>>, slabs: map<nat, nat>) {
    && |heads| == CLASSES
    && (forall c, i :: 0 <= c < CLASSES && 0 <= i < |heads[c]| ==> ListedIn(slabs, heads[c][i], c))
    && forall f {:trigger OnList(heads, slabs[f], f)} :: f in slabs ==> OnList(heads, slabs[f], f)
  }

  predicate OnList(heads: seq<seq<nat>>, c: nat, f: nat) { c < |heads| && f in heads[c] }

  predicate ListedIn(slabs: map<nat, nat>, f: nat, c: nat) { f in slabs && slabs[f] == c }

  lemma ListedSlab(v: View, heads: seq<seq<nat>>, cls: nat, i: nat)
    requires Kept(v) && Listed(heads, v.slabs) && cls < CLASSES && i < |heads[cls]|
    ensures var f := heads[cls][i]; f in v.slabs && f in v.headers && v.slabs[f] == cls && v.headers[f].freeCount >= 0
  {
    assert ListedIn(v.slabs, heads[cls][i], cls);
    assert SlabOk(v, heads[cls][i]);
  }

  /** A block just obtained starts where no slab and no large object starts. */
  lemma NewBaseFree(v: View, p: nat)
    requires Kept(v) && forall c :: c in v.live ==> c.base != p
    ensures p !in v.slabs && forall b :: b in v.large ==> b.base != p
  {
    forall f | f in v.slabs
      ensures f != p
    {
      assert SlabOk(v, f);
    }
  }

  // ---- The heap among other holders of memory ----------------------------------------------------------

  /** The blocks that belong to the heap. */
  ghost function Owned(v: View): set<Block> {
    (set f | f in v.slabs :: Block(f, Order(v.slabs[f]))) + v.large
  }

  /** Blocks that others hold are left to them. */
  ghost predicate Shares(v: View, v': View) {
    forall b :: b in v.live && b !in Owned(v) ==> b in v'.live && b !in Owned(v')
  }

  lemma SharesThen(u: View, v: View, w: View)
    requires Shares(u, v) && v.slabs == w.slabs && v.large == w.large && v.live == w.live
    ensures Shares(u, w)
  {
  }

  lemma NewSlabShares(v: View, f: nat, cls: nat)
    requires f !in v.slabs && Block(f, Order(cls)) !in v.live
    ensures Shares(v, AddSlab(v, f, cls))
  {
    var v' := AddSlab(v, f, cls);
    forall b | b in Owned(v') && b !in v.large
      ensures b in Owned(v) || b == Block(f, Order(cls))
    {
      var g :| g in v'.slabs && b == Block(g, Order(v'.slabs[g]));
      assert g != f ==> g in v.slabs && v.slabs[g] == v'.slabs[g];
    }
  }

  lemma SlabAdded(v: View, f: nat, cls: nat)
    requires Kept(v) && cls < CLASSES && Block(f, Order(cls)) !in v.live && forall c :: c in v.live ==> c.base != f
    ensures f !in v.slabs
    ensures var v' := AddSlab(v, f, cls);
      Kept(v') && SameLive(v, v') && Usable(v', f, cls) && !Worn(v'.headers[f]) && Shares(v, v')
  {
    NewBaseFree(v, f);
    NewSlabKeeps(v, f, cls);
    NewSlabShares(v, f, cls);
  }

  /** cls is the smallest class that holds size bytes. */
  predicate FitsClass(size: nat, cls: nat) {
    cls < CLASSES && size <= SizeOf(cls) && (cls > 0 ==> SizeOf(cls - 1) < size)
  }

  /** A block of this order is the smallest that holds size bytes. */
  predicate FitsOrder(size: nat, order: nat) {
    size <= Pow2(order) * PAGE && (order > 0 ==> Pow2(order - 1) * PAGE < size)
  }

  /** The object is as small as any that holds size bytes: a slot of the smallest class that does, or
      beyond all classes the smallest block. */
  predicate Snug(size: nat, o: Obj) {
    if size <= SizeOf(CLASSES - 1) then o.Small? && FitsClass(size, o.cls) else o.Large? && FitsOrder(size, o.b.order)
  }

  function SlotsLeft(headers: map<nat, Header>, f: nat): int { if f in headers then headers[f].freeCount else 0 }

  class Heap {
    const phys: PhysAllocator.PhysState
    var heads: seq<seq<nat>>
    var headers: map<nat, Header>
    ghost var slabs: map<nat, nat>
    ghost var large: set<Block>

    ghost function V(): View
      reads this, phys
    {
      View(slabs, headers, large, phys.live)
    }

    ghost predicate Valid()
      reads this, phys
    {
      phys.Sound() && Kept(V()) && Listed(heads, slabs)
    }

    /** The heap's objects never overlap. */
    lemma ObjectsApart(o: Obj, p: Obj)
      requires Valid() && Live(V(), o) && Live(V(), p) && o != p
      ensures Disjoint(o, p)
    {
      LiveApart(phys.State(), phys.managed, V(), o, p);
    }

    /** No listed slab of the class has a free slot, and there is no memory for another. */
    ghost predicate Full(cls: nat)
      requires Valid() && cls < CLASSES
      reads this, phys
    {
      && (forall i :: 0 <= i < |heads[cls]| ==> SlotsLeft(headers, heads[cls][i]) == 0)
      && phys.Exhausted(Order(cls))
    }

    /** The first listed slab of the smallest class that claims room has none. */
    ghost predicate Deceived()
      requires Valid()
      reads this, phys
    {
      exists i :: 0 <= i < |heads[0]| && FirstClaiming(0, i) && heads[0][i] in headers && Worn(headers[heads[0][i]])
    }

    /** The i-th listed slab of the class is the first that claims room. */
    predicate FirstClaiming(cls: nat, i: nat)
      requires cls < |heads|
      reads this
    {
      && i < |heads[cls]| && SlotsLeft(headers, heads[cls][i]) != 0
      && forall j :: 0 <= j < i ==> SlotsLeft(headers, heads[cls][j]) == 0
    }

    /** There is no room for an object of this size. */
    ghost predicate Refuses(size: nat)
      requires Valid()
      reads this, phys
    {
      if size <= SizeOf(CLASSES - 1) then exists cls: nat :: FitsClass(size, cls) && Full(cls)
      else exists order: nat :: FitsOrder(size, order) && phys.Exhausted(order)
    }

    /** A heap without slabs over an allocator that others may use too. */
    constructor (p: PhysAllocator.PhysState)
      requires p.Sound()
      ensures Valid() && phys == p && Owned(V()) == {} && forall x :: !Live(V(), x)
    {
      phys, heads, headers := p, seq(CLASSES, _ => []), map[];
      slabs, large := map[], {};
    }

    /** slab_class. */
    method SlabClass(size: nat) returns (cls: int)
      ensures cls == -1 <==> size > SizeOf(CLASSES - 1)
      ensures cls != -1 ==> cls >= 0 && FitsClass(size, cls)
    {
      for i := 0 to CLASSES
        invariant i > 0 ==> SizeOf(i - 1) < size
      {
        if size <= SizeOf(i) {
          return i;
        }
      }
      return -1;
    }

    /** The order whose block is the smallest that holds size bytes. */
    method BlockOrder(size: nat) returns (order: nat)
      ensures FitsOrder(size, order)
    {
      order := 0;
      while Pow2(order) * PAGE < size
        invariant order > 0 ==> Pow2(order - 1) * PAGE < size
        decreases size - Pow2(order) * PAGE
      {
        order := order + 1;
      }
    }

    /** The first slab in the list that claims a free slot. */
    method FindSlab(cls: nat) returns (found: bool, f: nat)
      requires Valid() && cls < CLASSES
      ensures found ==> Usable(V(), f, cls) && exists i: nat :: FirstClaiming(cls, i) && heads[cls][i] == f
      ensures !found <==> forall i :: 0 <= i < |heads[cls]| ==> SlotsLeft(headers, heads[cls][i]) == 0
    {
      f := 0;
      for i := 0 to |heads[cls]|
        invariant forall j :: 0 <= j < i ==> SlotsLeft(headers, heads[cls][j]) == 0
      {
        f := heads[cls][i];
        ListedSlab(V(), heads, cls, i);
        if headers[f].freeCount != 0 {
          assert FirstClaiming(cls, i);
          return true, f;
        }
      }
      return false, 0;
    }

    /** slab_new, put at the head of its list; frame 0 when out of memory. */
    method SlabNew(cls: nat) returns (f: nat)
      requires Valid() && cls < CLASSES
      modifies this, phys`lists, phys`info, phys`freePages, phys`live
      ensures Valid() && SameLive(old(V()), V()) && Shares(old(V()), V())
      ensures f == 0 <==> old(phys.Exhausted(Order(cls)))
      ensures f == 0 ==> Unchanged(old(V()), old(heads), old(phys.State()))
      ensures f != 0 ==> Usable(V(), f, cls) && !Worn(headers[f])
      ensures f != 0 ==> heads == old(heads)[cls := [f] + old(heads)[cls]]
    {
      ghost var v := V();
      f := phys.Take(Order(cls));
      if f != 0 {
        SlabAdded(v, f, cls);
        Install(f, cls, v);
      }
    }

    method Install(f: nat, cls: nat, ghost v: View)
      requires Listed(heads, slabs) && cls < CLASSES && f !in slabs
      requires V() == v.(live := v.live + {Block(f, Order(cls))})
      modifies this
      ensures Listed(heads, slabs) && V() == AddSlab(v, f, cls)
      ensures heads == old(heads)[cls := [f] + old(heads)[cls]]
    {
      ListedGrows(heads, slabs, f, cls);
      headers, slabs := headers[f := NewHeader(cls)], slabs[f := cls];
      heads := heads[cls := [f] + heads[cls]];
    }

    /** The bitmap scan of kmalloc. */
    method ScanBitmap(h: Header) returns (slot: nat)
      requires |h.bits| == BITS && h.capacity <= BITS
      ensures slot == FirstClear(h, 0)
    {
      slot := 0;
      for i := 0 to h.capacity
        invariant FirstClear(h, 0) == FirstClear(h, i)
      {
        if !h.bits[i] {
          return i;
        }
      }
    }

    /** kmalloc.  A request of up to 8 bytes may be given an object that is in use, exactly when the
        first slab of its class that claims room has none. */
    method Kmalloc(size: nat) returns (ptr: nat, ghost o: Obj)
      requires Valid()
      modifies this, phys`lists, phys`info, phys`freePages, phys`live
      ensures Valid() && Shares(old(V()), V()) && (size == 0 ==> ptr == 0)
      ensures ptr == 0 ==> Unchanged(old(V()), old(heads), old(phys.State())) && (size == 0 || old(Refuses(size)))
      ensures ptr != 0 ==>
        Start(o) == ptr && Snug(size, o) && Granted(old(V()), V(), o, size <= 8 && old(Deceived()))
    {
      ptr, o := 0, Small(0, 0, 0);
      if size == 0 {
        return;
      }
      var cls := SlabClass(size);
      if cls < 0 {
        ptr, o := LargeAlloc(size);
      } else {
        ptr, o := SmallAlloc(cls);
      }
    }

    method LargeAlloc(size: nat) returns (ptr: nat, ghost o: Obj)
      requires Valid() && size > PAGE
      modifies this`large, phys`lists, phys`info, phys`freePages, phys`live
      ensures Valid() && Shares(old(V()), V())
      ensures ptr == 0 ==> Unchanged(old(V()), old(heads), old(phys.State())) && old(Refuses(size))
      ensures ptr != 0 ==> Start(o) == ptr && Snug(size, o) && Adds(old(V()), V(), o)
    {
      var order := BlockOrder(size);
      ghost var v := V();
      var p := phys.Take(order);
      ptr, o := p * PAGE, Large(Block(p, order));
      if p != 0 {
        NewBaseFree(v, p);
        LargeAdds(v, Block(p, order));
        large := large + {Block(p, order)};
        assert V() == v.(large := v.large + {Block(p, order)}, live := v.live + {Block(p, order)});
      }
    }

    method SmallAlloc(cls: nat) returns (ptr: nat, ghost o: Obj)
      requires Valid() && cls < CLASSES
      modifies this, phys`lists, phys`info, phys`freePages, phys`live
      ensures Valid() && Shares(old(V()), V())
      ensures ptr == 0 <==> old(Full(cls))
      ensures ptr == 0 ==> Unchanged(old(V()), old(heads), old(phys.State()))
      ensures ptr != 0 ==>
        Start(o) == ptr && o.Small? && o.cls == cls && Granted(old(V()), V(), o, cls == 0 && old(Deceived()))
    {
      ptr, o := 0, Small(0, 0, 0);
      var found, f := FindSlab(cls);
      if found {
        ptr, o := TakeSlot(f, cls);
      } else {
        f := SlabNew(cls);
        if f != 0 {
          ghost var v := V();
          ptr, o := TakeSlot(f, cls);
          AddsAfter(old(V()), v, V(), o);
          SharesThen(old(V()), v, V());
        }
      }
    }

    method TakeSlot(f: nat, cls: nat) returns (ptr: nat, ghost o: Obj)
      requires Valid() && Usable(V(), f, cls)
      modifies this`headers
      ensures Valid() && ptr != 0 && Start(o) == ptr && o.Small? && o.cls == cls
      ensures Granted(old(V()), V(), o, old(Worn(headers[f])))
    {
      ghost var v := V();
      var h := headers[f];
      SlotTaken(v, f);
      var slot := ScanBitmap(h);
      headers := headers[f := h.(bits := h.bits[slot := true], freeCount := h.freeCount - 1)];
      assert V() == WithHeader(v, f, Take(h));
      ptr, o := Addr(f, cls, slot), Small(f, cls, slot);
    }

    /** kfree of nothing, of a live large object, or of a slot of a slab, in use or not; `data` is what
        the page it looks at holds in place of a header's object size, if that is no header.  The
        third slot of the 2048-byte class is covered where `data` passes for a size: it stays taken. */
    method Kfree(ptr: nat, data: nat, ghost o: Obj)
      requires Valid() && (ptr != 0 ==> Start(o) == ptr && Freeable(V(), o) && (InFirstPage(o) || 8 <= data <= 4096))
      modifies this, phys`lists, phys`info, phys`freePages, phys`live
      ensures Valid() && Shares(old(V()), V())
      ensures ptr != 0 && InFirstPage(o) ==> Drops(old(V()), V(), o)
      ensures ptr == 0 || !InFirstPage(o) || !Live(old(V()), o) ==> Unchanged(old(V()), old(heads), old(phys.State()))
    {
      if ptr == 0 {
        return;
      }
      var act := DecideOn(ptr, data, o);
      Perform(act, o);
    }

    method DecideOn(ptr: nat, data: nat, ghost o: Obj) returns (act: Decision)
      requires Valid() && Start(o) == ptr && Freeable(V(), o)
      ensures InFirstPage(o) ==> act == Due(o)
      ensures !InFirstPage(o) && 8 <= data <= 4096 ==> act.ClearSlot? && act.page !in headers
    {
      DecidedFor(phys.State(), phys.managed, V(), data, o);
      act := Decide(ptr, data);
    }

    /** What follows the tests. */
    method Perform(act: Decision, ghost o: Obj)
      requires Valid() && Freeable(V(), o)
      requires if InFirstPage(o) then act == Due(o) else act.ClearSlot? && act.page !in headers
      modifies this, phys`lists, phys`info, phys`freePages, phys`live
      ensures Valid() && Shares(old(V()), V()) && (InFirstPage(o) ==> Drops(old(V()), V(), o))
      ensures !InFirstPage(o) || !Live(old(V()), o) ==> Unchanged(old(V()), old(heads), old(phys.State()))
    {
      if act.Release? {
        ReleaseBlock(act.page, o);
      } else {
        FreeSlot(act.page, act.slot, o);
      }
    }

    /** Nothing of the heap or the allocator is different. */
    ghost predicate Unchanged(v: View, hs: seq<seq<nat>>, s: BuddySpec.Phys)
      reads this, phys
    {
      V() == v && heads == hs && phys.State() == s
    }

    /** The tests of kfree. */
    method Decide(ptr: nat, data: nat) returns (act: Decision)
      ensures act == Decided(phys.State(), headers, data, ptr)
    {
      var page := ptr / PAGE;
      var order := phys.InfoAt(page).order;
      if ptr % PAGE == 0 {
        var first := SizeIn(headers, page, data);
        if first >= 8 && first <= 4096 {
          return Release(page, order);
        }
      }
      var s := page;
      if order == 1 && ptr % (2 * PAGE) >= PAGE {
        s := s - 1;
      }
      var size := SizeIn(headers, s, data);
      if size < 8 || size > 4096 {
        return Release(page, order);
      }
      return ClearSlot(s, (ptr - (s * PAGE + HEADER)) / size);
    }

    method FreeSlot(page: int, slot: int, ghost o: Obj)
      requires Valid() && o.Small? && Freeable(V(), o)
      requires if InFirstPage(o) then page == o.frame && slot == o.slot else page !in headers
      modifies this`headers
      ensures Valid() && (InFirstPage(o) ==> Drops(old(V()), V(), o))
      ensures !InFirstPage(o) || !Live(old(V()), o) ==> V() == old(V())
    {
      ghost var v := V();
      SmallFacts(v, o);
      ClearBit(page, slot);
      if InFirstPage(o) {
        assert V() == v.(headers := BitCleared(v.headers, o.frame, o.slot));
        ClearedBit(v, V(), o);
      }
    }

    /** The end of kfree: a slot out of range or already free changes nothing, and what is cleared in
        a page that is no header belongs to some object. */
    method ClearBit(f: int, slot: int)
      requires f in headers ==> |headers[f].bits| == BITS && headers[f].capacity <= BITS
      modifies this`headers
      ensures headers == if f in old(headers) && slot >= 0 then BitCleared(old(headers), f, slot) else old(headers)
    {
      if f in headers {
        var h := headers[f];
        if 0 <= slot < h.capacity && h.bits[slot] {
          headers := headers[f := h.(bits := h.bits[slot := false], freeCount := h.freeCount + 1)];
        }
      }
    }

    /** amm_phys_free with the order recorded for the page. */
    method ReleaseBlock(page: nat, ghost o: Obj)
      requires Valid() && o.Large? && o.b in large && page == o.b.base
      modifies this`large, phys`lists, phys`info, phys`freePages, phys`live
      ensures Valid() && Drops(old(V()), V(), o) && Shares(old(V()), V())
    {
      ghost var v := V();
      LargeDrops(v, o.b);
      phys.Give(page, o.b);
      large := large - {o.b};
      assert V() == v.(large := v.large - {o.b}, live := v.live - {o.b});
    }
  }

  function BitCleared(headers: map<nat, Header>, f: nat, slot: nat): map<nat, Header>
    requires f in headers && |headers[f].bits| == BITS && headers[f].capacity <= BITS
  {
    if slot < headers[f].capacity && headers[f].bits[slot] then headers[f := Give(headers[f], slot)] else headers
  }

  lemma ClearedBit(v: View, v': View, o: Obj)
    requires Kept(v) && o.Small? && Freeable(v, o) && o.frame in v.headers && |v.headers[o.frame].bits| == BITS
    requires v.headers[o.frame].capacity <= BITS
    requires v' == v.(headers := BitCleared(v.headers, o.frame, o.slot))
    ensures Kept(v') && Drops(v, v', o) && (!Live(v, o) ==> v' == v)
  {
    assert SlabOk(v, o.frame);
    if Live(v, o) {
      GiveDrops(v, o.frame, o.slot);
    }
  }

  /** The object starts in the first page of its block. */
  predicate InFirstPage(o: Obj) { o.Small? ==> !(o.cls == 8 && o.slot == 2) }

  /** No pointer makes kfree look one page back: the order of a pair is recorded only for even
      frames, on which the second half of a pair never starts. */
  lemma NeverStepsBack(s: BuddySpec.Phys, live: set<Block>, m: set<nat>, ptr: nat)
    requires PhysAllocator.Backed(s, live, m)
    ensures BuddySpec.InfoAt(s, ptr / PAGE).order == 1 ==> ptr % (2 * PAGE) < PAGE
  {
    if (ptr / PAGE) % 2 == 1 {
      PhysAllocator.OddFrameIsSingle(s, live, m, ptr / PAGE);
    } else {
      EvenFrame(ptr / PAGE, ptr % PAGE);
    }
  }

  /** Where kfree looks for the header of the slab that holds ptr. */
  function HeaderSought(s: BuddySpec.Phys, ptr: nat): int {
    if BuddySpec.InfoAt(s, ptr / PAGE).order == 1 && ptr % (2 * PAGE) >= PAGE then ptr / PAGE - 1 else ptr / PAGE
  }

  /** kfree finds the header of a slot's slab unless it is the third slot of the 2048-byte class, and
      never finds that one's. */
  lemma HeaderFoundIff(s: BuddySpec.Phys, m: set<nat>, v: View, o: Obj)
    requires PhysAllocator.Backed(s, v.live, m) && Kept(v) && Freeable(v, o) && o.Small?
    ensures HeaderSought(s, Start(o)) == o.frame <==> InFirstPage(o)
  {
    NeverStepsBack(s, v.live, m, Start(o));
    assert SlabOk(v, o.frame);
    SlotOffset(o.cls, o.slot);
    if InFirstPage(o) {
      FreeableFacts(v, o);
    } else {
      DivUnique(Start(o), PAGE, o.frame + 1, HEADER);
    }
  }

  /** What kfree does with a pointer: free a block at a page, or clear a bit behind a header. */
  datatype Decision = Release(page: int, order: nat) | ClearSlot(page: int, slot: int)

  function SizeIn(headers: map<nat, Header>, f: int, data: nat): nat {
    if f in headers then headers[f].objSize else data
  }

  function Decided(s: BuddySpec.Phys, headers: map<nat, Header>, data: nat, ptr: nat): Decision {
    var page, h := ptr / PAGE, HeaderSought(s, ptr);
    var order, size := BuddySpec.InfoAt(s, page).order, SizeIn(headers, h, data);
    if ptr % PAGE == 0 && 8 <= SizeIn(headers, page, data) <= 4096 then Release(page, order)
    else if size < 8 || size > 4096 then Release(page, order)
    else ClearSlot(h, (ptr - (h * PAGE + HEADER)) / size)
  }

  /** What it should do with an object. */
  function Due(o: Obj): Decision {
    if o.Small? then ClearSlot(o.frame, o.slot) else Release(o.b.base, o.b.order)
  }

  function Misled(o: Obj, data: nat): Decision
    requires o.Small?
  {
    if 8 <= data <= 4096 then ClearSlot(o.frame + 1, 0) else Release(o.frame + 1, 0)
  }

  /** kfree does what it should for every object but the third slot of the 2048-byte class.  There it
      looks at the second page of the slab, which no header begins: if that holds what passes for a
      size it clears a bit among the bytes of an object, and otherwise it frees that page on its own,
      as a block that nobody holds. */
  lemma DecidedFor(s: BuddySpec.Phys, m: set<nat>, v: View, data: nat, o: Obj)
    requires PhysAllocator.Backed(s, v.live, m) && Kept(v) && Freeable(v, o)
    ensures Decided(s, v.headers, data, Start(o)) == if InFirstPage(o) then Due(o) else Misled(o, data)
    ensures !InFirstPage(o) ==> o.frame + 1 !in v.headers && Block(o.frame + 1, 0) !in v.live
  {
    NeverStepsBack(s, v.live, m, Start(o));
    if o.Large? {
      FreeableFacts(v, o);
      PhysAllocator.HeldBlock(s, v.live, m, o.b);
      DecidedLarge(s, v.headers, data, Start(o), o.b);
    } else if InFirstPage(o) {
      FreeableFacts(v, o);
      SmallFacts(v, o);
      DecidedSmall(s, v.headers, data, o.frame, o.cls, o.slot);
    } else {
      SlabHeld(v, o.frame);
      SecondPage(s, m, v.live, o.frame);
      NewBaseFree(v, o.frame + 1);
      DecidedThird(s, v.headers, data, o);
    }
  }

  lemma SlabHeld(v: View, f: nat)
    requires Kept(v) && f in v.slabs
    ensures Block(f, Order(v.slabs[f])) in v.live
  {
    assert SlabOk(v, f);
  }

  lemma DecidedLarge(s: BuddySpec.Phys, headers: map<nat, Header>, data: nat, ptr: nat, b: Block)
    requires ptr % PAGE == 0 && ptr / PAGE == b.base && BuddySpec.InfoAt(s, b.base).order == b.order
    requires b.base !in headers
    requires HeaderSought(s, ptr) == b.base
    ensures Decided(s, headers, data, ptr) == Release(b.base, b.order)
  {
  }

  lemma DecidedSmall(s: BuddySpec.Phys, headers: map<nat, Header>, data: nat, frame: nat, cls: nat, slot: nat)
    requires var ptr := Addr(frame, cls, slot); ptr / PAGE == frame && ptr % PAGE != 0 && HeaderSought(s, ptr) == frame
    requires frame in headers && cls < CLASSES && headers[frame].objSize == SizeOf(cls)
    ensures Decided(s, headers, data, Addr(frame, cls, slot)) == ClearSlot(frame, slot)
  {
    SlotRecovered(frame, cls, slot, Addr(frame, cls, slot), SizeOf(cls));
  }

  lemma DecidedThird(s: BuddySpec.Phys, headers: map<nat, Header>, data: nat, o: Obj)
    requires o.Small? && !InFirstPage(o) && o.frame + 1 !in headers && BuddySpec.InfoAt(s, o.frame + 1).order == 0
    ensures Decided(s, headers, data, Start(o)) == Misled(o, data)
  {
    DivUnique(Start(o), PAGE, o.frame + 1, HEADER);
  }

  /** The second page of a block of two: no block starts there, and order 0 is recorded for it. */
  lemma SecondPage(s: BuddySpec.Phys, m: set<nat>, live: set<Block>, f: nat)
    requires PhysAllocator.Backed(s, live, m) && Block(f, 1) in live
    ensures BuddySpec.InfoAt(s, f + 1).order == 0 && forall c :: c in live ==> c.base != f + 1
  {
    PhysAllocator.HeldBlock(s, live, m, Block(f, 1));
    PairIsEven(f);
    PhysAllocator.OddFrameIsSingle(s, live, m, f + 1);
    NoneInside(s, m, live, f);
  }

  lemma NoneInside(s: BuddySpec.Phys, m: set<nat>, live: set<Block>, f: nat)
    requires PhysAllocator.Backed(s, live, m) && Block(f, 1) in live
    ensures forall c :: c in live ==> c.base != f + 1
  {
    forall c | c in live
      ensures c.base != f + 1
    {
      if c != Block(f, 1) {
        PhysAllocator.HeldApart(s, live, m, Block(f, 1), c);
        if c.base == f + 1 {
          PairCovers(f, c);
        }
      }
    }
  }

  lemma PairIsEven(f: nat)
    requires Aligned(Block(f, 1))
    ensures f % 2 == 0
  {
    assert Pow2(1) == 2;
  }

  lemma PairCovers(f: nat, c: Block)
    requires c.base == f + 1
    ensures !Apart(Block(f, 1), c)
  {
    assert Pow2(1) == 2;
  }

  /** What kfree reads of the slab that a small object belongs to. */
  lemma SmallFacts(v: View, o: Obj)
    requires Kept(v) && Freeable(v, o) && o.Small?
    ensures o.frame in v.headers && |v.headers[o.frame].bits| == BITS && v.headers[o.frame].capacity <= BITS
    ensures 8 <= v.headers[o.frame].objSize == SizeOf(o.cls) <= 4096 && o.cls < CLASSES
  {
    assert SlabOk(v, o.frame);
  }

  lemma SlotRecovered(frame: nat, cls: nat, slot: nat, ptr: nat, size: nat)
    requires cls < CLASSES && ptr == Addr(frame, cls, slot) && size == SizeOf(cls)
    ensures size > 0 && ptr >= frame * PAGE + HEADER && (ptr - (frame * PAGE + HEADER)) / size == slot
  {
    SlotOfAddr(frame, cls, slot);
  }

  lemma EvenFrame(base: nat, r: nat)
    requires base % 2 == 0 && r < PAGE
    ensures (base * PAGE + r) % (2 * PAGE) == r
  {
    DivUnique(base * PAGE + r, 2 * PAGE, base / 2, r);
  }

  /** What kfree sees of an object's address. */
  lemma FreeableFacts(v: View, o: Obj)
    requires Kept(v) && Freeable(v, o) && InFirstPage(o)
    ensures o.Small? ==> Start(o) % PAGE != 0 && Start(o) / PAGE == o.frame
    ensures o.Large? ==> Start(o) % PAGE == 0 && Start(o) / PAGE == o.b.base
  {
    if o.Small? {
      assert SlabOk(v, o.frame);
      SlotOffset(o.cls, o.slot);
      DivUnique(Start(o), PAGE, o.frame, HEADER + o.slot * SizeOf(o.cls));
    } else {
      DivUnique(Start(o), PAGE, o.b.base, 0);
    }
  }

  /** An object was handed out: a new one, or one in use if there was none left. */
  ghost predicate Granted(v: View, v': View, o: Obj, worn: bool) {
    if worn then Live(v, o) && SameLive(v, v') else Adds(v, v', o)
  }

  lemma SlotTaken(v: View, f: nat)
    requires Kept(v) && f in v.slabs && f in v.headers && v.headers[f].freeCount > 0
    ensures Claims(v.headers[f])
    ensures var h := v.headers[f];
      var v' := WithHeader(v, f, Take(h));
      Kept(v') && Granted(v, v', Small(f, v.slabs[f], FirstClear(h, 0)), Worn(h))
  {
    assert SlabOk(v, f);
    if Worn(v.headers[f]) {
      TakeRepeats(v, f);
    } else {
      TakeAdds(v, f);
    }
  }

  lemma AddsAfter(u: View, v: View, w: View, o: Obj)
    requires SameLive(u, v) && Adds(v, w, o)
    ensures Adds(u, w, o)
  {
  }

  /** A slab of the class with a free slot. */
  ghost predicate Usable(v: View, f: nat, cls: nat) {
    f in v.slabs && v.slabs[f] == cls && f in v.headers && v.headers[f].freeCount > 0
  }

  ghost predicate SameLive(v: View, v': View) {
    forall x :: Live(v', x) <==> Live(v, x)
  }
}
