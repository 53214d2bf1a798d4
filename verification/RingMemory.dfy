/** The ring in its memory: a header and slot_count * slot_size bytes, changed in place. */
module RingMemory {
  import opened Bits
  import opened PhysMemory
  import opened RingProtocol
  import opened RingBuffer

  const MAX_UINT32 := 0xFFFF_FFFF

  function Window(d: seq<Byte>, at: nat, size: nat): Item { if at + size <= |d| then d[at..at + size] else [] }

  function SlotAt(d: seq<Byte>, size: nat, p: nat): Item { Window(d, p * size, size) }

  function Slots(d: seq<Byte>, size: nat, n: nat): seq<Item> {
    seq(n, p requires 0 <= p => SlotAt(d, size, p))
  }

  /** The bytes of `item` laid over d from `base` on. */
  function Patched(d: seq<Byte>, base: nat, item: Item): (r: seq<Byte>)
    requires base + |item| <= |d|
    ensures |r| == |d|
  {
    d[..base] + item + d[base + |item|..]
  }

  lemma SlotInside(p: nat, n: nat, size: nat)
    requires p < n
    ensures p * size + size <= n * size
  {
    MulLe(p + 1, n, size);
  }

  lemma SlotSize(d: seq<Byte>, size: nat, n: nat)
    requires |d| == n * size
    ensures forall p :: 0 <= p < n ==> |Slots(d, size, n)[p]| == size
  {
    forall p | 0 <= p < n
      ensures |Slots(d, size, n)[p]| == size
    {
      SlotInside(p, n, size);
    }
  }

  /** A window of a patched region that starts with the patch or lies beside it. */
  lemma PatchedSlice(d: seq<Byte>, base: nat, item: Item, at: nat, size: nat)
    requires base + size <= |d| && at + size <= |d| && |item| <= size
    requires (at == base || at + size <= base || base + size <= at)
    ensures Patched(d, base, item)[at..at + size]
         == if at == base then item + d[at + |item|..at + size] else d[at..at + size]
  {
    var d' := Patched(d, base, item);
    forall j | 0 <= j < size
      ensures d'[at..at + size][j] == if at == base && j < |item| then item[j] else d[at + j]
    {
      assert d'[at..at + size][j] == d'[at + j];
    }
    if at == base {
      assert d'[at..at + size] == item + d[at + |item|..at + size];
    } else {
      assert d'[at..at + size] == d[at..at + size];
    }
  }

  /** Patching inside one slot changes that slot and no other. */
  lemma PatchedSlots(d: seq<Byte>, size: nat, n: nat, p: nat, item: Item)
    requires |d| == n * size && p < n && |item| <= size
    ensures p * size + size <= |d|
    ensures Slots(Patched(d, p * size, item), size, n) == Slots(d, size, n)[p := Overlay(SlotAt(d, size, p), item)]
  {
    SlotInside(p, n, size);
    var d' := Patched(d, p * size, item);
    forall q | 0 <= q < n
      ensures SlotAt(d', size, q) == if q == p then Overlay(SlotAt(d, size, p), item) else SlotAt(d, size, q)
    {
      PatchedSlot(d, size, n, p, item, q);
    }
  }

  lemma PatchedSlot(d: seq<Byte>, size: nat, n: nat, p: nat, item: Item, q: nat)
    requires |d| == n * size && p < n && |item| <= size && q < n && p * size + size <= |d|
    ensures var d' := Patched(d, p * size, item);
      SlotAt(d', size, q) == if q == p then Overlay(SlotAt(d, size, p), item) else SlotAt(d, size, q)
  {
    SlotInside(q, n, size);
    if q < p {
      SlotInside(q, p, size);
    } else if p < q {
      SlotInside(p, q, size);
    }
    PatchedWindow(d, p * size, item, q * size, size, q == p);
  }

  lemma PatchedWindow(d: seq<Byte>, base: nat, item: Item, at: nat, size: nat, same: bool)
    requires base + size <= |d| && at + size <= |d| && |item| <= size
    requires if same then at == base else at + size <= base || base + size <= at
    ensures Window(Patched(d, base, item), at, size)
         == if same then Overlay(Window(d, base, size), item) else Window(d, at, size)
  {
    PatchedSlice(d, base, item, at, size);
  }

  predicate Open(k: nat) { true }

  /** The data region has n slots of `size` bytes; stated behind a trigger because few proofs need it. */
  ghost predicate Laid(length: nat, n: nat, size: nat) {
    forall k: nat {:trigger Open(k)} :: Open(k) ==> length == n * size
  }

  /** v with the item copied into the slot that idx selects. */
  function Stored(v: Ring, idx: nat, item: Item): (v': Ring)
    requires RingOk(v) && |item| <= v.slotSize
    ensures RingOk(v')
  {
    var p := Place(v, idx);
    v.(slots := v.slots[p := Overlay(v.slots[p], item)])
  }

  lemma PatchIsStored(d: seq<Byte>, v: Ring, n: nat, idx: nat, item: Item, base: nat)
    requires RingOk(v) && n == Pow2(v.k) && |d| == n * v.slotSize && v.slots == Slots(d, v.slotSize, n)
    requires |item| <= v.slotSize
    requires base == BitAnd(idx, n - 1) * v.slotSize
    ensures base + |item| <= |d| && Slots(Patched(d, base, item), v.slotSize, n) == Stored(v, idx, item).slots
  {
    PatchedSlots(d, v.slotSize, n, Place(v, idx), item);
  }

  class RingMemory {
    var slotSize: nat
    var slotCount: nat
    var write: nat
    var read: nat
    const data: array<Byte>
    ghost var k: nat

    ghost function View(): Ring
      reads this, data
    {
      Ring(k, slotSize, write, read, Slots(data[..], slotSize, slotCount))
    }

    ghost predicate Valid()
      reads this, data
    {
      slotCount == Pow2(k) && Laid(data.Length, slotCount, slotSize) && RingOk(View())
    }

    constructor (size: nat, count: nat, ghost log: nat)
      requires count == Pow2(log) && 1 <= log <= 31
      ensures Valid() && fresh(data) && slotSize == size && slotCount == count && Contents(View()) == []
      ensures forall i :: 0 <= i < data.Length ==> data[i] == 0
    {
      slotSize, slotCount, write, read, k := size, count, 0, 0, log;
      data := new Byte[count * size](_ => 0);
      new;
      SlotSize(data[..], size, count);
    }

    /** ringbuf_init: refuses sizes that are no powers of two or too small. */
    static method Init(size: nat, count: nat) returns (rb: RingMemory?)
      requires size <= MAX_UINT32 && count <= MAX_UINT32
      ensures rb != null <==> IsPow2(size) && size >= 8 && IsPow2(count) && count >= 2
      ensures rb != null ==> fresh(rb) && fresh(rb.data) && rb.Valid() && rb.slotSize == size && rb.slotCount == count
      ensures rb != null ==> Contents(rb.View()) == []
    {
      rb := null;
      if !IsPow2(size) || size < 8 || !IsPow2(count) || count < 2 {
        return;
      }
      ghost var log := IsPow2Sound(count);
      LogBounds(log);
      rb := new RingMemory(size, count, log);
    }

    /** memcpy into the data region. */
    method CopyIn(base: nat, item: Item)
      requires base + |item| <= data.Length
      modifies data
      ensures data[..] == Patched(old(data[..]), base, item)
    {
      ghost var d := data[..];
      for j := 0 to |item|
        invariant data[..] == Patched(d, base, item[..j])
      {
        data[base + j] := item[j];
        assert data[..] == Patched(d, base, item[..j])[base + j := item[j]] == Patched(d, base, item[..j + 1]);
      }
      assert item[..|item|] == item;
    }

    /** memcpy out of the data region. */
    method CopyOut(base: nat, size: nat) returns (item: Item)
      requires base + size <= data.Length
      ensures item == data[base..base + size]
    {
      item := [];
      for j := 0 to size
        invariant item == data[base..base + j]
      {
        item := item + [data[base + j]];
      }
    }

    /** Copy the item into the slot that index idx selects. */
    method Store(idx: nat, item: Item, ghost v: Ring)
      requires Valid() && |item| <= slotSize && v == View()
      modifies data
      ensures Valid() && View() == Stored(v, idx, item)
    {
      assert Open(0);
      ghost var d := data[..];
      var p := BitAnd(idx, slotCount - 1);
      var base := p * slotSize;
      PatchIsStored(d, v, slotCount, idx, item, base);
      CopyIn(base, item);
    }

    method Fetch(idx: nat, size: nat, ghost v: Ring) returns (item: Item)
      requires Valid() && size <= slotSize && v == View()
      ensures item == v.slots[Place(v, idx)][..size]
    {
      assert Open(0);
      ghost var q := Place(v, idx);
      var p := BitAnd(idx, slotCount - 1);
      SlotInside(p, slotCount, slotSize);
      item := CopyOut(p * slotSize, size);
      ghost var base := p * slotSize;
      assert v.slots[p] == data[base..base + slotSize];
      assert data[base..base + slotSize][..size] == data[base..base + size];
    }

    /** ringbuf_push. */
    method Push(item: Item) returns (ok: bool)
      requires Valid()
      modifies this`write, data
      ensures Valid() && (View(), ok) == PushOne(old(View()), item)
    {
      ghost var r := View();
      PushAppends(r, item);
      var widx, ridx := write, read;
      if Diff(widx, ridx) == slotCount || |item| > slotSize {
        return false;
      }
      Store(widx, item, r);
      write := Add64(widx, 1);
      assert View() == PushOne(r, item).0;
      return true;
    }

    /** ringbuf_pop. */
    method Pop(size: nat) returns (got: Popped)
      requires Valid()
      modifies this`read
      ensures Valid() && (View(), got) == PopOne(old(View()), size)
    {
      ghost var r := View();
      PopTakes(r, size);
      var ridx, widx := read, write;
      if ridx == widx || size > slotSize {
        return Empty;
      }
      var item := Fetch(ridx, size, r);
      read := Add64(ridx, 1);
      assert View() == PopOne(r, size).0;
      return Got(item);
    }

    /** ringbuf_push_batch stores the index once, and still does exactly what pushing one by one does. */
    method PushBatch(size: nat, items: seq<Item>) returns (n: nat)
      requires Valid() && |items| <= MAX_UINT32 && forall i :: 0 <= i < |items| ==> |items[i]| == size
      modifies this`write, data
      ensures Valid() && (View(), n) == PushEach(old(View()), items)
    {
      ghost var r := View();
      AvailIs(r);
      var widx, ridx := write, read;
      var avail := (slotCount - Diff(widx, ridx) % 0x1_0000_0000) % 0x1_0000_0000;
      n := if avail < |items| then avail else |items|;
      if size > slotSize {
        return 0;
      }
      ghost var v := StoreAll(widx, size, items, n, r);
      write := Add64(widx, n);
      assert View() == v.(write := Add64(widx, n));
      BatchEnd(r, widx, items, n, v);
    }

    /** ringbuf_pop_batch. */
    method PopBatch(size: nat, count: nat) returns (out: seq<Item>)
      requires Valid() && count <= MAX_UINT32
      modifies this`read
      ensures Valid() && (View(), out) == PopEach(old(View()), size, count)
    {
      ghost var r := View();
      AvailIs(r);
      var ridx, widx := read, write;
      var avail := Diff(widx, ridx) % 0x1_0000_0000;
      var n := if avail < count then avail else count;
      if size > slotSize {
        return [];
      }
      out := FetchAll(ridx, size, n, count, r);
      read := Add64(ridx, n);
      assert View() == r.(read := Add64(ridx, n));
      TakeEnd(r, size, count, n, out);
    }

    method FetchAll(ridx: nat, size: nat, n: nat, ghost count: nat, ghost r: Ring) returns (out: seq<Item>)
      requires Valid() && r == View() && ridx == read && size <= slotSize && n <= count && n <= Used(r)
      ensures TakenOut(r, size, count, n, out)
    {
      out := [];
      TakeStart(r, size, count);
      for i := 0 to n
        invariant TakenOut(r, size, count, i, out)
      {
        var idx := Add64(ridx, i);
        TakeStep(r, size, count, i, out, idx);
        var item := Fetch(idx, size, r);
        out := out + [item];
      }
    }

    /** The copy loop of ringbuf_push_batch. */
    method StoreAll(widx: nat, size: nat, items: seq<Item>, n: nat, ghost r: Ring) returns (ghost v: Ring)
      requires Valid() && r == View() && widx == write && size <= slotSize && n <= |items| && Used(r) + n <= Pow2(r.k)
      requires forall i :: 0 <= i < |items| ==> |items[i]| == size
      modifies data
      ensures Valid() && View() == v && Copied(r, widx, items, n, v)
    {
      v := r;
      BatchStart(r, widx, items);
      for i := 0 to n
        invariant Valid() && View() == v && Copied(r, widx, items, i, v)
      {
        BatchStep(r, widx, items, i, v);
        Store(Add64(widx, i), items[i], v);
        v := Stored(v, Add64(widx, i), items[i]);
      }
    }
  }

  /** Taking one by one: i taken so far, `out`, and the rest still to come. */
  ghost predicate TakenOut(r: Ring, size: nat, n: nat, i: nat, out: seq<Item>) {
    forall k: nat {:trigger Open(k)} :: Open(k) ==>
      var g := r.(read := Add64(r.read, i));
      && RingOk(r) && RingOk(g) && i <= n && i <= Used(r) && Used(g) == Used(r) - i
      && (PopEach(g, size, n - i).0, out + PopEach(g, size, n - i).1) == PopEach(r, size, n)
  }

  lemma TakeStart(r: Ring, size: nat, n: nat)
    requires RingOk(r)
    ensures TakenOut(r, size, n, 0, [])
  {
    assert r == r.(read := Add64(r.read, 0));
    assert [] + PopEach(r, size, n).1 == PopEach(r, size, n).1;
  }

  lemma TakeStep(r: Ring, size: nat, n: nat, i: nat, out: seq<Item>, idx: nat)
    requires RingOk(r) && TakenOut(r, size, n, i, out) && i < n && i < Used(r) && size <= r.slotSize
    requires idx == Add64(r.read, i)
    ensures TakenOut(r, size, n, i + 1, out + [r.slots[Place(r, idx)][..size]])
  {
    assert Open(0);
    var g := r.(read := idx);
    var g' := r.(read := Add64(idx, 1));
    CountBounds(ConfigOf(r));
    PopEachStep(g, g', size, n - i);
    TakeOne(r, g, g', size, n, i, out, r.slots[Place(r, idx)][..size]);
  }

  lemma TakeOne(r: Ring, g: Ring, g': Ring, size: nat, n: nat, i: nat, out: seq<Item>, item: Item)
    requires RingOk(r) && RingOk(g) && RingOk(g') && i < n
    requires (PopEach(g, size, n - i).0, out + PopEach(g, size, n - i).1) == PopEach(r, size, n)
    requires PopEach(g, size, n - i) == (PopEach(g', size, n - i - 1).0, [item] + PopEach(g', size, n - i - 1).1)
    ensures (PopEach(g', size, n - (i + 1)).0, out + [item] + PopEach(g', size, n - (i + 1)).1) == PopEach(r, size, n)
  {
    var rest := PopEach(g', size, n - i - 1).1;
    assert out + ([item] + rest) == out + [item] + rest;
  }

  lemma PopEachStep(g: Ring, g': Ring, size: nat, m: nat)
    requires RingOk(g) && Used(g) > 0 && size <= g.slotSize && m > 0 && g' == g.(read := Add64(g.read, 1))
    ensures RingOk(g') && Used(g') == Used(g) - 1
    ensures var (r, rest) := PopEach(g', size, m - 1);
      PopEach(g, size, m) == (r, [g.slots[Place(g, g.read)][..size]] + rest)
  {
    PopTakes(g, size);
    UsedMoves(g.write, g.read);
  }

  lemma TakeEnd(r: Ring, size: nat, n: nat, i: nat, out: seq<Item>)
    requires TakenOut(r, size, n, i, out) && (i == n || i == Used(r))
    ensures var g := r.(read := Add64(r.read, i)); RingOk(r) && RingOk(g) && (g, out) == PopEach(r, size, n)
  {
    assert Open(0);
    var g := r.(read := Add64(r.read, i));
    UsedMoves(g.write, g.read);
    assert PopEach(g, size, n - i) == (g, []);
    assert out + [] == out;
  }

  /** With the first i items copied, storing the index now would be i single pushes. */
  ghost predicate Copied(r: Ring, widx: nat, items: seq<Item>, i: nat, v: Ring) {
    forall k: nat {:trigger Open(k)} :: Open(k) ==>
      var g := v.(write := Add64(widx, i));
      && RingOk(r) && RingOk(v) && RingOk(g) && i <= |items|
      && v.slotSize == r.slotSize && v.k == r.k && v.write == r.write == widx
      && v.read == r.read && Used(g) == Used(r) + i && Counting(i, PushEach(g, items[i..])) == PushEach(r, items)
  }

  lemma BatchStart(r: Ring, widx: nat, items: seq<Item>)
    requires RingOk(r) && widx == r.write
    ensures Copied(r, widx, items, 0, r)
  {
    assert items[0..] == items;
    assert r == r.(write := Add64(widx, 0));
  }

  lemma BatchStep(r: Ring, widx: nat, items: seq<Item>, i: nat, v: Ring)
    requires Copied(r, widx, items, i, v) && RingOk(v) && i < |items| && |items[i]| <= v.slotSize
    requires Used(r) + i < Pow2(r.k)
    ensures Copied(r, widx, items, i + 1, Stored(v, Add64(widx, i), items[i]))
  {
    assert Open(0);
    CountBounds(ConfigOf(r));
    BatchOne(r, items, i, v, Add64(widx, i), Add64(widx, i + 1));
  }

  /** One more item, with the index words before and after as given. */
  lemma BatchOne(r: Ring, items: seq<Item>, i: nat, v: Ring, idx: nat, idx': nat)
    requires RingOk(r) && RingOk(v) && i < |items| && |items[i]| <= v.slotSize && idx' == Add64(idx, 1)
    requires var g := v.(write := idx);
      RingOk(g) && Used(g) < Pow2(g.k) && Counting(i, PushEach(g, items[i..])) == PushEach(r, items)
    ensures var g, v' := v.(write := idx), Stored(v, idx, items[i]);
      var g' := v'.(write := idx');
      RingOk(g') && Used(g') == Used(g) + 1 && Counting(i + 1, PushEach(g', items[i + 1..])) == PushEach(r, items)
  {
    var g := v.(write := idx);
    PushEachStep(g, items, i);
    PushIsStore(g, v, idx, items[i]);
  }

  lemma BatchEnd(r: Ring, widx: nat, items: seq<Item>, n: nat, v: Ring)
    requires Copied(r, widx, items, n, v) && (n == |items| || Used(r) + n == Pow2(r.k))
    ensures var g := v.(write := Add64(widx, n)); RingOk(r) && RingOk(g) && (g, n) == PushEach(r, items)
  {
    assert Open(0);
    BatchDone(r, items, n, v.(write := Add64(widx, n)));
  }

  lemma BatchDone(r: Ring, items: seq<Item>, n: nat, g: Ring)
    requires RingOk(r) && RingOk(g) && n <= |items| && Counting(n, PushEach(g, items[n..])) == PushEach(r, items)
    requires n == |items| || Used(g) == Pow2(g.k)
    ensures (g, n) == PushEach(r, items)
  {
    PushStops(g, items[n..]);
  }

  /** A push is a copy and then a store of the index. */
  lemma PushIsStore(g: Ring, v: Ring, idx: nat, item: Item)
    requires RingOk(v) && RingOk(g) && g == v.(write := idx) && Used(g) < Pow2(g.k) && |item| <= g.slotSize
    ensures PushOne(g, item).0 == Stored(v, idx, item).(write := Add64(idx, 1))
  {
  }

  lemma AvailIs(r: Ring)
    requires RingOk(r)
    ensures (Pow2(r.k) - Used(r) % 0x1_0000_0000) % 0x1_0000_0000 == Pow2(r.k) - Used(r)
    ensures Used(r) % 0x1_0000_0000 == Used(r)
  {
    CountBounds(ConfigOf(r));
  }

  function Counting(i: nat, p: (Ring, nat)): (Ring, nat) { (p.0, i + p.1) }

  lemma PushStops(g: Ring, items: seq<Item>)
    requires RingOk(g) && (items == [] || Used(g) == Pow2(g.k))
    ensures PushEach(g, items) == (g, 0)
  {
  }

  lemma PushEachStep(g: Ring, items: seq<Item>, i: nat)
    requires RingOk(g) && i < |items| && Used(g) < Pow2(g.k) && |items[i]| <= g.slotSize
    ensures var (g', ok) := PushOne(g, items[i]);
      && RingOk(g') && ok && Used(g') == Used(g) + 1
      && PushEach(g, items[i..]) == Counting(1, PushEach(g', items[i + 1..]))
  {
    PushAppends(g, items[i]);
    assert items[i..][1..] == items[i + 1..];
  }

  lemma LogBounds(log: nat)
    requires 2 <= Pow2(log) <= MAX_UINT32
    ensures 1 <= log <= 31
  {
    WordIsPow(8);
    if log >= 32 {
      Pow2Monotone(32, log);
    }
  }
}
