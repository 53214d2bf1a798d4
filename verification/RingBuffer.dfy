/** The ring used by one thread of control at a time: the header checks, the four operations on the
    flat data region, and what they mean as a queue. */
module RingBuffer {
  import opened Bits
  import opened PhysMemory
  import opened RingProtocol

  datatype Popped = Empty | Got(item: Item)

  /** A ring as a value; k is the logarithm of slot_count. */
  datatype Ring = Ring(k: nat, slotSize: nat, write: nat, read: nat, slots: seq<Item>)

  function ConfigOf(r: Ring): Config { Config(r.k, r.slotSize) }

  predicate RingOk(r: Ring) {
    && 1 <= r.k <= 31 && r.write < WORD && r.read < WORD && Diff(r.write, r.read) <= Pow2(r.k)
    && |r.slots| == Pow2(r.k) && forall p :: 0 <= p < |r.slots| ==> |r.slots[p]| == r.slotSize
  }

  function Used(r: Ring): nat { Diff(r.write, r.read) }

  function Place(r: Ring, idx: nat): (p: nat)
    requires RingOk(r)
    ensures p < |r.slots|
  {
    AndLowMask(idx, r.k);
    BitAnd(idx, Pow2(r.k) - 1)
  }

  function Overlay(slot: Item, item: Item): (r: Item)
    requires |item| <= |slot|
    ensures |r| == |slot| && item <= r
  {
    item + slot[|item|..]
  }

  function PushOne(r: Ring, item: Item): (Ring, bool)
    requires RingOk(r)
  {
    if Used(r) == Pow2(r.k) || |item| > r.slotSize then (r, false)
    else
      var p := Place(r, r.write);
      (r.(slots := r.slots[p := Overlay(r.slots[p], item)], write := Add64(r.write, 1)), true)
  }

  function PopOne(r: Ring, size: nat): (Ring, Popped)
    requires RingOk(r)
  {
    if r.read == r.write || size > r.slotSize then (r, Empty)
    else (r.(read := Add64(r.read, 1)), Got(r.slots[Place(r, r.read)][..size]))
  }

  // ---- The ring is a bounded queue --------------------------------------------------------------------

  /** The j-th waiting slot. */
  function Waiting(r: Ring, j: nat): Item
    requires RingOk(r)
  {
    r.slots[Place(r, Add64(r.read, j))]
  }

  function Contents(r: Ring): seq<Item>
    requires RingOk(r)
  {
    seq(Used(r), j requires 0 <= j => Waiting(r, j))
  }

  lemma UsedMoves(w: nat, r: nat)
    requires w < WORD && r < WORD
    ensures Diff(w, r) + 1 < WORD ==> Diff(Add64(w, 1), r) == Diff(w, r) + 1
    ensures Diff(w, r) > 0 ==> Diff(w, Add64(r, 1)) == Diff(w, r) - 1
    ensures Diff(w, r) == 0 <==> w == r
  {
  }

  lemma PlaceIsHome(r: Ring, j: nat)
    requires RingOk(r) && j < WORD
    ensures Place(r, Add64(r.read, j)) == Home(ConfigOf(r), r.read + j)
  {
    assert r.read % WORD == r.read;
    SlotIndexIsHome(ConfigOf(r), r.read, j);
  }

  /** Places of different waiting slots, and of the free slot behind them, differ. */
  lemma PlacesApart(r: Ring, i: nat, j: nat)
    requires RingOk(r) && i < j < Pow2(r.k)
    ensures Place(r, Add64(r.read, i)) != Place(r, Add64(r.read, j))
  {
    CountBounds(ConfigOf(r));
    PlaceIsHome(r, i);
    PlaceIsHome(r, j);
    HomesApart(ConfigOf(r), r.read + i, r.read + j);
  }

  lemma WriteIsBehind(r: Ring)
    requires RingOk(r)
    ensures r.write == Add64(r.read, Used(r))
  {
  }

  /** ringbuf_push fails exactly when the queue is full or the item too large; otherwise it appends
      a slot that starts with the item and disturbs nothing else. */
  lemma PushAppends(r: Ring, item: Item)
    requires RingOk(r)
    ensures var (r', ok) := PushOne(r, item);
      && RingOk(r') && (ok <==> |Contents(r)| < Pow2(r.k) && |item| <= r.slotSize)
      && (!ok ==> r' == r)
      && (ok ==> Appended(r, r', item))
  {
    var (r', ok) := PushOne(r, item);
    if ok {
      CountBounds(ConfigOf(r));
      UsedMoves(r.write, r.read);
      WriteIsBehind(r);
      forall j | 0 <= j < Used(r)
        ensures Waiting(r', j) == Waiting(r, j)
      {
        PlacesApart(r, j, Used(r));
      }
    }
  }

  predicate Appended(r: Ring, r': Ring, item: Item)
    requires RingOk(r) && RingOk(r')
  {
    && |Contents(r')| == |Contents(r)| + 1 && Contents(r')[..|Contents(r)|] == Contents(r)
    && item <= Contents(r')[|Contents(r)|] && r'.read == r.read
  }

  /** ringbuf_pop fails exactly when the queue is empty or the size too large; otherwise it yields
      the front of the queue cut to the size, and the rest of the queue remains. */
  lemma PopTakes(r: Ring, size: nat)
    requires RingOk(r)
    ensures var (r', got) := PopOne(r, size);
      && RingOk(r') && (got.Got? <==> Contents(r) != [] && size <= r.slotSize)
      && (got.Empty? ==> r' == r)
      && (got.Got? ==> got.item == Contents(r)[0][..size] && Contents(r') == Contents(r)[1..])
  {
    UsedMoves(r.write, r.read);
    if r.read != r.write {
      DropFront(r);
    }
  }

  lemma DropFront(r: Ring)
    requires RingOk(r) && r.read != r.write
    ensures var r' := r.(read := Add64(r.read, 1)); RingOk(r') && Contents(r) != [] && Contents(r') == Contents(r)[1..]
    ensures Contents(r)[0] == r.slots[Place(r, r.read)]
  {
    var r' := r.(read := Add64(r.read, 1));
    CountBounds(ConfigOf(r));
    UsedMoves(r.write, r.read);
    assert Add64(r.read, 0) == r.read;
    forall j | 0 <= j < Used(r')
      ensures Waiting(r', j) == Waiting(r, j + 1)
    {
      NextWraps(r.read, j);
    }
  }

  lemma NextWraps(x: nat, j: nat)
    requires x < WORD && j + 1 < WORD
    ensures Add64(Add64(x, 1), j) == Add64(x, j + 1)
  {
  }

  // ---- Repeated single operations ----------------------------------------------------------------------

  /** Push the items one by one until one is refused. */
  function PushEach(r: Ring, items: seq<Item>): (Ring, nat)
    requires RingOk(r)
    decreases items
  {
    if items == [] then (r, 0)
    else
      PushAppends(r, items[0]);
      var (r', ok) := PushOne(r, items[0]);
      if !ok then (r, 0)
      else
        var (r'', n) := PushEach(r', items[1..]);
        (r'', n + 1)
  }

  function PopEach(r: Ring, size: nat, n: nat): (Ring, seq<Item>)
    requires RingOk(r)
    decreases n
  {
    if n == 0 then (r, [])
    else
      PopTakes(r, size);
      var (r', got) := PopOne(r, size);
      if got.Empty? then (r, [])
      else
        var (r'', items) := PopEach(r', size, n - 1);
        (r'', [got.item] + items)
  }

  /** n is zero or a power of two exactly when n and n - 1 share no bit. */
  predicate IsPow2(n: nat) { n != 0 && BitAnd(n, n - 1) == 0 }

  lemma {:induction false} AndSelf(n: nat)
    ensures BitAnd(n, n) == n
  {
    if n > 0 {
      AndSelf(n / 2);
    }
  }

  lemma {:induction false} IsPow2Sound(n: nat) returns (k: nat)
    requires IsPow2(n)
    ensures n == Pow2(k)
    decreases n
  {
    if n == 1 {
      k := 0;
    } else if n % 2 == 0 {
      assert (n - 1) / 2 == n / 2 - 1;
      var j := IsPow2Sound(n / 2);
      k := j + 1;
    } else {
      assert (n - 1) / 2 == n / 2;
      AndSelf(n / 2);
      assert false;
    }
  }

  lemma {:induction false} IsPow2Complete(k: nat)
    ensures IsPow2(Pow2(k))
  {
    if k > 0 {
      IsPow2Complete(k - 1);
      var n := Pow2(k);
      assert (n - 1) / 2 == n / 2 - 1;
    }
  }
}
