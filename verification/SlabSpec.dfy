/** Slabs: size classes, the header's bitmap and counter, and where objects lie. */
module SlabSpec {
  import opened Bits
  import opened PhysMemory

  const CLASSES := 10
  const HEADER := 64
  const BITS := 288

  /** slab_sizes. */
  function SizeOf(cls: nat): nat {
    if cls == 0 then 8 else if cls == 1 then 16 else if cls == 2 then 32 else if cls == 3 then 64
    else if cls == 4 then 128 else if cls == 5 then 256 else if cls == 6 then 512 else if cls == 7 then 1024
    else if cls == 8 then 2048 else 4096
  }

  function Order(cls: nat): nat { if SizeOf(cls) >= 2048 then 1 else 0 }
  function SlabPages(cls: nat): nat { if SizeOf(cls) >= 2048 then 2 else 1 }
  function Room(cls: nat): nat { (SlabPages(cls) * PAGE - HEADER) / SizeOf(cls) }
  function Capacity(cls: nat): nat { if Room(cls) > BITS then BITS else Room(cls) }

  /** The part of the slab header that allocation works on; one boolean per bitmap bit. */
  datatype Header = Header(objSize: nat, capacity: nat, freeCount: int, bits: seq<bool>)

  /** slab_new: the count is taken before the capacity is cut to the bitmap. */
  function NewHeader(cls: nat): Header { Header(SizeOf(cls), Capacity(cls), Room(cls), seq(BITS, _ => false)) }

  /** Clear bits among the first n. */
  function Clear(bits: seq<bool>, n: nat): nat
    requires n <= |bits|
  {
    if n == 0 then 0 else Clear(bits, n - 1) + if bits[n - 1] then 0 else 1
  }

  /** free_count is the number of clear bits. */
  predicate Counted(h: Header) {
    |h.bits| == BITS && h.capacity <= BITS && h.freeCount == Clear(h.bits, h.capacity)
  }

  /** free_count is at least the number of clear bits. */
  predicate Claims(h: Header) {
    |h.bits| == BITS && h.capacity <= BITS && h.freeCount >= Clear(h.bits, h.capacity)
  }

  /** Every slot of the slab is taken. */
  predicate Worn(h: Header) { |h.bits| == BITS && h.capacity <= BITS && Clear(h.bits, h.capacity) == 0 }

  lemma {:induction false} ClearNone(bits: seq<bool>, n: nat)
    requires n <= |bits| && forall i :: 0 <= i < n ==> !bits[i]
    ensures Clear(bits, n) == n
  {
    if n > 0 {
      ClearNone(bits, n - 1);
    }
  }

  /** A new slab counts its slots correctly in every class but the smallest. */
  lemma NewHeaderCounted(cls: nat)
    requires cls < CLASSES
    ensures Claims(NewHeader(cls)) && !Worn(NewHeader(cls)) && (Counted(NewHeader(cls)) <==> cls != 0)
  {
    ClearNone(NewHeader(cls).bits, Capacity(cls));
  }

  /** The first clear bit from i on; slot 0 when there is none. */
  function FirstClear(h: Header, i: nat): (slot: nat)
    requires |h.bits| == BITS && h.capacity <= BITS
    ensures slot < BITS
    decreases h.capacity - i
  {
    if i >= h.capacity then 0 else if !h.bits[i] then i else FirstClear(h, i + 1)
  }

  function Take(h: Header): Header
    requires |h.bits| == BITS && h.capacity <= BITS
  {
    h.(bits := h.bits[FirstClear(h, 0) := true], freeCount := h.freeCount - 1)
  }

  function Give(h: Header, slot: nat): Header
    requires slot < |h.bits|
  {
    h.(bits := h.bits[slot := false], freeCount := h.freeCount + 1)
  }

  lemma {:induction false} ClearUpdate(bits: seq<bool>, n: nat, i: nat, b: bool)
    requires n <= |bits| && i < |bits|
    ensures Clear(bits[i := b], n)
         == Clear(bits, n) + if i < n then (if bits[i] then 1 else 0) - (if b then 1 else 0) else 0
  {
    if n > 0 {
      ClearUpdate(bits, n - 1, i, b);
    }
  }

  lemma {:induction false} FirstClearIs(h: Header, i: nat)
    requires |h.bits| == BITS && h.capacity <= BITS && i <= h.capacity
    requires exists j :: i <= j < h.capacity && !h.bits[j]
    ensures FirstClear(h, i) < h.capacity && !h.bits[FirstClear(h, i)]
    decreases h.capacity - i
  {
    if h.bits[i] {
      FirstClearIs(h, i + 1);
    }
  }

  lemma {:induction false} SomeClear(bits: seq<bool>, n: nat)
    requires n <= |bits| && Clear(bits, n) > 0
    ensures exists j :: 0 <= j < n && !bits[j]
  {
    if bits[n - 1] {
      SomeClear(bits, n - 1);
    }
  }

  lemma {:induction false} AllSet(bits: seq<bool>, n: nat)
    requires n <= |bits| && Clear(bits, n) == 0
    ensures forall i :: 0 <= i < n ==> bits[i]
  {
    if n > 0 {
      AllSet(bits, n - 1);
    }
  }

  /** With no slot left, taking returns slot 0, which is in use, and only the count changes. */
  lemma TakeWorn(h: Header)
    requires Worn(h) && h.capacity > 0 && h.freeCount > 0
    ensures FirstClear(h, 0) == 0 && h.bits[0] && Take(h) == h.(freeCount := h.freeCount - 1)
  {
    AllSet(h.bits, h.capacity);
    NoneClear(h, 0);
    assert h.bits[0 := true] == h.bits;
  }

  /** While there is a clear bit, taking finds a free slot and the count stays as right as it was. */
  lemma TakeCounted(h: Header)
    requires Claims(h) && !Worn(h)
    ensures FirstClear(h, 0) < h.capacity && !h.bits[FirstClear(h, 0)] && Claims(Take(h))
    ensures (Counted(h) ==> Counted(Take(h)))
  {
    SomeClear(h.bits, h.capacity);
    FirstClearIs(h, 0);
    ClearUpdate(h.bits, h.capacity, FirstClear(h, 0), true);
  }

  lemma GiveCounted(h: Header, slot: nat)
    requires Claims(h) && slot < h.capacity && h.bits[slot]
    ensures Claims(Give(h, slot)) && (Counted(h) ==> Counted(Give(h, slot)))
  {
    ClearUpdate(h.bits, h.capacity, slot, false);
  }

  // ---- The class whose count is wrong -------------------------------------------------------------------

  function TakeMany(h: Header, n: nat): (r: Header)
    requires |h.bits| == BITS && h.capacity <= BITS
    ensures |r.bits| == BITS && r.capacity == h.capacity
  {
    if n == 0 then h else Take(TakeMany(h, n - 1))
  }

  lemma {:induction false} FirstClearAt(h: Header, i: nat, n: nat)
    requires |h.bits| == BITS && i <= n < h.capacity <= BITS && !h.bits[n] && forall j :: i <= j < n ==> h.bits[j]
    ensures FirstClear(h, i) == n
    decreases n - i
  {
    if i < n {
      FirstClearAt(h, i + 1, n);
    }
  }

  lemma {:induction false} TakeManyFills(cls: nat, n: nat)
    requires cls < CLASSES && n <= Capacity(cls)
    ensures var h := TakeMany(NewHeader(cls), n);
      h.freeCount == Room(cls) - n && forall i :: 0 <= i < BITS ==> h.bits[i] == (i < n)
    decreases n
  {
    if n > 0 {
      TakeManyFills(cls, n - 1);
      FirstClearAt(TakeMany(NewHeader(cls), n - 1), 0, n - 1);
    }
  }

  lemma {:induction false} NoneClear(h: Header, i: nat)
    requires |h.bits| == BITS && h.capacity <= BITS && forall j :: i <= j < h.capacity ==> h.bits[j]
    ensures FirstClear(h, i) == 0
    decreases h.capacity - i
  {
    if i < h.capacity {
      NoneClear(h, i + 1);
    }
  }

  /** Exactly in the class of objects up to 8 bytes, a full slab still claims free slots; the next
      allocation from it then hands out slot 0 a second time. */
  lemma FullSlabClaimsRoom(cls: nat)
    requires cls < CLASSES
    ensures var full := TakeMany(NewHeader(cls), Capacity(cls));
      (full.freeCount > 0 <==> cls == 0) && full.bits[0] && FirstClear(full, 0) == 0
  {
    TakeManyFills(cls, Capacity(cls));
    NoneClear(TakeMany(NewHeader(cls), Capacity(cls)), 0);
  }

  // ---- Where objects lie -----------------------------------------------------------------------------------

  function Addr(frame: nat, cls: nat, slot: nat): (a: nat)
    ensures a >= HEADER
  {
    frame * PAGE + HEADER + slot * SizeOf(cls)
  }

  /** Offsets of slots: inside the slab's block, never on a page boundary, and in the first page
      except for the third slot of the 2048-byte class. */
  lemma SlotOffset(cls: nat, slot: nat)
    requires cls < CLASSES && slot < Capacity(cls)
    ensures var off := HEADER + slot * SizeOf(cls);
      && off + SizeOf(cls) <= SlabPages(cls) * PAGE && off % PAGE != 0
      && (off < PAGE <==> !(cls == 8 && slot == 2))
  {
  }

  lemma SlotOfAddr(frame: nat, cls: nat, slot: nat)
    requires cls < CLASSES
    ensures (Addr(frame, cls, slot) - (frame * PAGE + HEADER)) / SizeOf(cls) == slot
  {
    DivUnique(slot * SizeOf(cls), SizeOf(cls), slot, 0);
  }
}
