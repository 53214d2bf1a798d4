/** The single-producer single-consumer ring as an interleaved protocol.  Each side loads its own
    index, loads the other side's index, checks, copies byte by byte and then stores its index;
    every such step may be interleaved with steps of the other side, and the load of the other
    side's index may return any value between the last one seen and the current one. */
module RingProtocol {
  import opened Bits
  import opened PhysMemory

  type Item = seq<Byte>

  /** slot_count == 2^k, a 32-bit number. */
  datatype Config = Config(k: nat, slotSize: nat)

  predicate Legal(c: Config) { 1 <= c.k <= 31 }

  function Count(c: Config): nat { Pow2(c.k) }

  /** What the producer is asked for: ringbuf_push of one item or ringbuf_push_batch. */
  datatype Request = One(item: Item) | Many(size: nat, items: seq<Item>)

  /** What the consumer is asked for: ringbuf_pop or ringbuf_pop_batch. */
  datatype Want = Pop(size: nat) | PopMany(size: nat, n: nat)

  datatype Producer =
    | AtRest
    | SawWrite(req: Request, w: nat)
    | SawBoth(req: Request, w: nat, r: nat)
    | Writing(items: seq<Item>, w: nat, i: nat, done: nat)

  datatype Consumer =
    | Resting
    | SawRead(want: Want, r: nat)
    | SawReadWrite(want: Want, r: nat, w: nat)
    | Reading(size: nat, n: nat, r: nat, buf: Item, out: seq<Item>)

  /** write, read and slots are shared memory.  sent and got record what has been published by each
      side, seenR and seenW the newest index of the other side each has observed. */
  datatype State = State(write: nat, read: nat, slots: seq<Item>, prod: Producer, cons: Consumer,
                         sent: seq<Item>, got: seq<Item>, seenR: nat, seenW: nat)

  datatype Action =
    | LoadWrite(req: Request) | LoadRead(newest: nat) | CheckFull | CopyIn | PublishWrite
    | ConsLoadRead(want: Want) | ConsLoadWrite(newest: nat) | CheckEmpty | CopyOut | PublishRead

  /** widx & (slot_count - 1) after the 64-bit addition widx + i. */
  function SlotIndex(c: Config, idx: nat, i: nat): nat { BitAnd(Add64(idx, i), Count(c) - 1) }

  /** Addition and subtraction of 64-bit words. */
  function Add64(x: nat, i: nat): nat { if x + i < WORD then x + i else x + i - WORD }
  function Diff(w: nat, r: nat): nat { if r <= w then w - r else if r <= w + WORD then w + WORD - r else 0 }

  lemma Add64Wraps(x: nat, i: nat)
    requires x < WORD && i < WORD
    ensures Add64(x, i) == (x + i) % WORD
  {
  }

  function RequestItems(req: Request): seq<Item> { if req.One? then [req.item] else req.items }

  predicate WellSized(req: Request) { req.Many? ==> forall i :: 0 <= i < |req.items| ==> |req.items[i]| == req.size }

  /** How many items to copy, unless the request is refused. */
  function Admitted(c: Config, req: Request, w: nat, r: nat): (n: nat)
    ensures n <= |RequestItems(req)|
  {
    match req
    case One(_) => 1
    case Many(size, items) =>
      var avail := (Count(c) - Diff(w, r) % 0x1_0000_0000) % 0x1_0000_0000;
      if avail < |items| then avail else |items|
  }

  /** ringbuf_push gives up when the ring is full; both forms when the items do not fit a slot. */
  predicate PushRefused(c: Config, req: Request, w: nat, r: nat) {
    match req
    case One(item) => Diff(w, r) == Count(c) || |item| > c.slotSize
    case Many(size, _) => size > c.slotSize
  }

  predicate PopRefused(c: Config, want: Want, r: nat, w: nat) {
    want.size > c.slotSize || (want.Pop? && r == w)
  }

  function Taken(c: Config, want: Want, r: nat, w: nat): nat {
    match want
    case Pop(_) => 1
    case PopMany(_, n) =>
      var avail := Diff(w, r) % 0x1_0000_0000;
      if avail < n then avail else n
  }

  predicate Enabled(c: Config, s: State, a: Action) {
    match a
    case LoadWrite(req) => s.prod.AtRest? && WellSized(req)
    case LoadRead(newest) => s.prod.SawWrite? && s.seenR <= newest <= |s.got|
    case CheckFull => s.prod.SawBoth?
    case CopyIn => s.prod.Writing? && s.prod.i < |s.prod.items|
    case PublishWrite => s.prod.Writing? && s.prod.i == |s.prod.items|
    case ConsLoadRead(_) => s.cons.Resting?
    case ConsLoadWrite(newest) => s.cons.SawRead? && s.seenW <= newest <= |s.sent|
    case CheckEmpty => s.cons.SawReadWrite?
    case CopyOut => s.cons.Reading? && |s.cons.out| < s.cons.n
    case PublishRead => s.cons.Reading? && |s.cons.out| == s.cons.n
  }

  function Byted(slot: Item, j: nat, b: Byte): Item { if j < |slot| then slot[j := b] else slot }

  function ByteAt(slots: seq<Item>, p: nat, j: nat): Byte { if p < |slots| && j < |slots[p]| then slots[p][j] else 0 }

  function CopyInStep(c: Config, s: State): State
    requires s.prod.Writing? && s.prod.i < |s.prod.items|
  {
    var Writing(items, w, i, done) := s.prod;
    var p := SlotIndex(c, w, i);
    if done < |items[i]| then
      s.(slots := if p < |s.slots| then s.slots[p := Byted(s.slots[p], done, items[i][done])] else s.slots,
         prod := Writing(items, w, i, done + 1))
    else s.(prod := Writing(items, w, i + 1, 0))
  }

  function CopyOutStep(c: Config, s: State): State
    requires s.cons.Reading?
  {
    var Reading(size, n, r, buf, out) := s.cons;
    if |buf| < size then s.(cons := Reading(size, n, r, buf + [ByteAt(s.slots, SlotIndex(c, r, |out|), |buf|)], out))
    else s.(cons := Reading(size, n, r, [], out + [buf]))
  }

  function Step(c: Config, s: State, a: Action): State
    requires Enabled(c, s, a)
  {
    match a
    case LoadWrite(req) => s.(prod := SawWrite(req, s.write))
    case LoadRead(newest) => s.(prod := SawBoth(s.prod.req, s.prod.w, newest % WORD), seenR := newest)
    case CheckFull =>
      var n := Admitted(c, s.prod.req, s.prod.w, s.prod.r);
      if PushRefused(c, s.prod.req, s.prod.w, s.prod.r) then s.(prod := AtRest)
      else s.(prod := Writing(RequestItems(s.prod.req)[..n], s.prod.w, 0, 0))
    case CopyIn => CopyInStep(c, s)
    case PublishWrite => s.(write := Add64(s.prod.w, |s.prod.items|), sent := s.sent + s.prod.items, prod := AtRest)
    case ConsLoadRead(want) => s.(cons := SawRead(want, s.read))
    case ConsLoadWrite(newest) => s.(cons := SawReadWrite(s.cons.want, s.cons.r, newest % WORD), seenW := newest)
    case CheckEmpty =>
      var n := Taken(c, s.cons.want, s.cons.r, s.cons.w);
      if PopRefused(c, s.cons.want, s.cons.r, s.cons.w) then s.(cons := Resting)
      else s.(cons := Reading(s.cons.want.size, n, s.cons.r, [], []))
    case CopyOut => CopyOutStep(c, s)
    case PublishRead => s.(read := Add64(s.cons.r, s.cons.n), got := s.got + s.cons.out, cons := Resting)
  }

  // ---- The invariant ---------------------------------------------------------------------------------

  function Home(c: Config, idx: nat): (p: nat)
    ensures p < Count(c)
  {
    idx % Count(c)
  }

  predicate Holds(slot: Item, item: Item) { item <= slot }

  predicate Agree(x: Item, y: Item) {
    forall j :: 0 <= j < |x| && j < |y| ==> x[j] == y[j]
  }

  predicate Indices(c: Config, s: State) {
    && s.write == |s.sent| % WORD && s.read == |s.got| % WORD
    && s.seenR <= |s.got| <= s.seenW <= |s.sent| <= s.seenR + Count(c)
  }

  predicate SlotsOk(c: Config, s: State) {
    |s.slots| == Count(c) && forall p :: 0 <= p < |s.slots| ==> |s.slots[p]| == c.slotSize
  }

  predicate History(s: State) {
    |s.got| <= |s.sent| && forall i :: 0 <= i < |s.got| ==> Agree(s.got[i], s.sent[i])
  }

  /** Items published and not yet taken stand in their slots. */
  predicate Live(c: Config, s: State)
    requires SlotsOk(c, s)
  {
    forall i :: |s.got| <= i < |s.sent| ==> Holds(s.slots[Home(c, i)], s.sent[i])
  }

  predicate ProdWriting(c: Config, s: State)
    requires SlotsOk(c, s) && s.prod.Writing?
  {
    var Writing(items, w, i, done) := s.prod;
    && w == |s.sent| % WORD && i <= |items| && |s.sent| + |items| <= s.seenR + Count(c)
    && (forall j :: 0 <= j < |items| ==> |items[j]| <= c.slotSize)
    && (i < |items| ==> done <= |items[i]| && Holds(s.slots[Home(c, |s.sent| + i)], items[i][..done]))
    && (forall j :: 0 <= j < i ==> Holds(s.slots[Home(c, |s.sent| + j)], items[j]))
  }

  predicate ProdOk(c: Config, s: State)
    requires SlotsOk(c, s)
  {
    match s.prod
    case AtRest => true
    case SawWrite(req, w) => WellSized(req) && w == |s.sent| % WORD
    case SawBoth(req, w, r) => WellSized(req) && w == |s.sent| % WORD && r == s.seenR % WORD
    case Writing(_, _, _, _) => ProdWriting(c, s)
  }

  predicate ConsReading(c: Config, s: State)
    requires SlotsOk(c, s) && s.cons.Reading?
  {
    var Reading(size, n, r, buf, out) := s.cons;
    && r == |s.got| % WORD && |out| <= n && |s.got| + n <= s.seenW && |buf| <= size && size <= c.slotSize
    && (|out| < n ==> Holds(s.slots[Home(c, |s.got| + |out|)], buf))
    && (forall j :: 0 <= j < |out| ==> Holds(s.slots[Home(c, |s.got| + j)], out[j]))
  }

  predicate ConsOk(c: Config, s: State)
    requires SlotsOk(c, s)
  {
    match s.cons
    case Resting => true
    case SawRead(_, r) => r == |s.got| % WORD
    case SawReadWrite(_, r, w) => r == |s.got| % WORD && w == s.seenW % WORD
    case Reading(_, _, _, _, _) => ConsReading(c, s)
  }

  predicate Inv(c: Config, s: State) {
    Indices(c, s) && SlotsOk(c, s) && History(s) && Live(c, s) && ProdOk(c, s) && ConsOk(c, s)
  }

  // ---- Index arithmetic ---------------------------------------------------------------------------------

  lemma PowDouble(a: nat, v: nat)
    requires Pow2(a) == v
    ensures Pow2(2 * a) == v * v
  {
    Pow2Add(a, a);
  }

  lemma WordIsPow(e: nat)
    requires e == 8
    ensures WORD == Pow2(8 * e) && Pow2(4 * e) == 0x1_0000_0000
  {
    assert Pow2(e) == 256;
    PowDouble(e, 0x100);
    PowDouble(2 * e, 0x1_0000);
    PowDouble(4 * e, 0x1_0000_0000);
  }

  lemma ModMod(x: nat, m: nat, d: nat)
    requires m > 0 && d > 0
    ensures (x % (d * m)) % m == x % m
  {
    var q, r := x / (d * m), x % (d * m);
    var q', r' := r / m, r % m;
    assert x == (d * m) * q + r && r == m * q' + r';
    assert x == m * (d * q + q') + r' by {
      assert (d * m) * q == m * (d * q);
      assert m * (d * q + q') == m * (d * q) + m * q';
    }
    DivUnique(x, m, d * q + q', r');
  }

  /** The masked, wrapped index is the position modulo the number of slots. */
  lemma SlotIndexIsHome(c: Config, total: nat, i: nat)
    requires Legal(c) && i < WORD
    ensures SlotIndex(c, total % WORD, i) == Home(c, total + i)
  {
    var n := Count(c);
    Add64Wraps(total % WORD, i);
    AndLowMask((total % WORD + i) % WORD, c.k);
    WordIsPow(8);
    Pow2Add(64 - c.k, c.k);
    ModMod(total % WORD + i, n, Pow2(64 - c.k));
    ModMod(total, n, Pow2(64 - c.k));
    AddMod(total, total % WORD, i, n);
  }

  lemma AddMod(x: nat, y: nat, i: nat, n: nat)
    requires n > 0 && x % n == y % n
    ensures (x + i) % n == (y + i) % n
  {
    var d := (x + i) / n;
    assert x == n * (x / n) + x % n && y == n * (y / n) + y % n && x + i == n * d + (x + i) % n;
    assert y + i == n * (d + y / n - x / n) + (x + i) % n by {
      assert n * (d + y / n - x / n) == n * d + n * (y / n) - n * (x / n);
    }
    DivUnique(y + i, n, d + y / n - x / n, (x + i) % n);
  }

  lemma DiffMod(w: nat, r: nat)
    requires w < WORD && r < WORD
    ensures Diff(w, r) == (w - r) % WORD
  {
  }

  lemma DiffIsDistance(a: nat, b: nat)
    requires b <= a && a - b < WORD
    ensures Diff(a % WORD, b % WORD) == a - b
  {
    DiffMod(a % WORD, b % WORD);
    var qa, qb := a / WORD, b / WORD;
    assert a == WORD * qa + a % WORD && b == WORD * qb + b % WORD;
    assert a % WORD - b % WORD == WORD * (qb - qa) + (a - b) by {
      assert WORD * (qb - qa) == WORD * qb - WORD * qa;
    }
    DivUnique(a % WORD - b % WORD, WORD, qb - qa, a - b);
  }

  /** Positions less than a whole ring apart live in different slots. */
  lemma HomesApart(c: Config, a: nat, b: nat)
    requires a < b < a + Count(c)
    ensures Home(c, a) != Home(c, b)
  {
    var n := Count(c);
    if a % n == b % n {
      assert a == n * (a / n) + a % n && b == n * (b / n) + b % n;
      assert b - a == n * (b / n - a / n) by {
        assert n * (b / n - a / n) == n * (b / n) - n * (a / n);
      }
      if b / n - a / n >= 1 {
        MulLe(1, b / n - a / n, n);
      } else {
        MulLe(b / n - a / n, 0, n);
      }
      assert false;
    }
  }

  lemma CountBounds(c: Config)
    requires Legal(c)
    ensures 2 <= Count(c) <= 0x8000_0000
  {
    Pow2Monotone(1, c.k);
    Pow2Monotone(c.k, 31);
    Pow2Add(16, 15);
    assert Pow2(1) == 2 && Pow2(15) == 0x8000 && Pow2(16) == 0x1_0000;
  }

  // ---- Every step keeps the invariant ---------------------------------------------------------------------

  /** The producer admits no more than the occupancy it has observed leaves room for; a single push
      is refused exactly when that occupancy is full or the item too large. */
  lemma AdmittedFits(c: Config, req: Request, total: nat, seen: nat)
    requires Legal(c) && WellSized(req) && seen <= total <= seen + Count(c)
    ensures req.One? ==>
      (PushRefused(c, req, total % WORD, seen % WORD) <==> total == seen + Count(c) || |req.item| > c.slotSize)
    ensures !PushRefused(c, req, total % WORD, seen % WORD) ==>
      var n := Admitted(c, req, total % WORD, seen % WORD);
      total + n <= seen + Count(c) && forall j :: 0 <= j < n ==> |RequestItems(req)[j]| <= c.slotSize
  {
    CountBounds(c);
    DiffIsDistance(total, seen);
  }

  lemma TakenFits(c: Config, want: Want, total: nat, seen: nat)
    requires Legal(c) && total <= seen <= total + Count(c)
    ensures want.Pop? ==> (PopRefused(c, want, total % WORD, seen % WORD) <==> total == seen || want.size > c.slotSize)
    ensures !PopRefused(c, want, total % WORD, seen % WORD) ==>
      total + Taken(c, want, total % WORD, seen % WORD) <= seen && want.size <= c.slotSize
  {
    CountBounds(c);
    DiffIsDistance(seen, total);
    DiffZero(total, seen);
  }

  lemma DiffZero(a: nat, b: nat)
    requires a <= b && b - a < WORD
    ensures a % WORD == b % WORD <==> a == b
  {
    DiffIsDistance(b, a);
  }

  lemma LoadsKeep(c: Config, s: State, a: Action)
    requires Legal(c) && Inv(c, s) && Enabled(c, s, a)
    requires (a.LoadWrite? || a.LoadRead? || a.ConsLoadRead? || a.ConsLoadWrite?)
    ensures Inv(c, Step(c, s, a))
  {
  }

  lemma CheckFullKeeps(c: Config, s: State)
    requires Legal(c) && Inv(c, s) && s.prod.SawBoth?
    ensures Inv(c, Step(c, s, CheckFull))
  {
    AdmittedFits(c, s.prod.req, |s.sent|, s.seenR);
  }

  lemma CheckEmptyKeeps(c: Config, s: State)
    requires Legal(c) && Inv(c, s) && s.cons.SawReadWrite?
    ensures Inv(c, Step(c, s, CheckEmpty))
  {
    TakenFits(c, s.cons.want, |s.got|, s.seenW);
    var s' := Step(c, s, CheckEmpty);
    ProdUnmoved(c, s, s');
    assert ConsOk(c, s');
  }

  /** The slot being written belongs to no published or taken item. */
  lemma WritingSlotIsFree(c: Config, s: State, idx: nat)
    requires Legal(c) && Inv(c, s) && s.prod.Writing? && s.prod.i < |s.prod.items|
    requires |s.got| <= idx < |s.sent| + s.prod.i
    ensures Home(c, idx) != Home(c, |s.sent| + s.prod.i)
  {
    HomesApart(c, idx, |s.sent| + s.prod.i);
  }

  lemma ByteCopied(slot: Item, item: Item, done: nat)
    requires done < |item| <= |slot| && Holds(slot, item[..done])
    ensures |Byted(slot, done, item[done])| == |slot| && Holds(Byted(slot, done, item[done]), item[..done + 1])
  {
    var slot' := Byted(slot, done, item[done]);
    forall j | 0 <= j < done + 1
      ensures item[..done + 1][j] == slot'[j]
    {
      assert j < done ==> item[..done][j] == slot[j];
    }
  }

  lemma CopyInKeeps(c: Config, s: State)
    requires Legal(c) && Inv(c, s) && s.prod.Writing? && s.prod.i < |s.prod.items|
    ensures Inv(c, CopyInStep(c, s))
  {
    CountBounds(c);
    SlotIndexIsHome(c, |s.sent|, s.prod.i);
    if s.prod.done < |s.prod.items[s.prod.i]| {
      WriteKeepsLive(c, s);
      WriteKeepsProd(c, s);
      WriteKeepsCons(c, s);
    } else {
      NextItemKeeps(c, s);
    }
  }

  lemma NextItemKeeps(c: Config, s: State)
    requires Inv(c, s) && s.prod.Writing? && s.prod.i < |s.prod.items| && s.prod.done == |s.prod.items[s.prod.i]|
    ensures Inv(c, CopyInStep(c, s))
  {
    var s' := CopyInStep(c, s);
    NextItemWriting(c, s);
    ConsUnmoved(c, s, s');
  }

  /** What the consumer relies on does not involve the producer. */
  lemma ConsUnmoved(c: Config, s: State, s': State)
    requires SlotsOk(c, s) && Live(c, s) && ConsOk(c, s) && s'.slots == s.slots && s'.cons == s.cons
    requires s'.got == s.got && s'.sent == s.sent && s'.seenW == s.seenW
    ensures SlotsOk(c, s') && Live(c, s') && ConsOk(c, s')
  {
  }

  lemma NextItemWriting(c: Config, s: State)
    requires SlotsOk(c, s) && s.prod.Writing? && ProdWriting(c, s) && s.prod.i < |s.prod.items|
    requires s.prod.done == |s.prod.items[s.prod.i]|
    ensures ProdWriting(c, s.(prod := s.prod.(i := s.prod.i + 1, done := 0)))
  {
    var Writing(items, w, i, done) := s.prod;
    assert items[i][..done] == items[i];
    if i + 1 < |items| {
      assert items[i + 1][..0] == [];
    }
  }

  predicate AtByte(c: Config, s: State) {
    && Legal(c) && Inv(c, s) && s.prod.Writing? && s.prod.i < |s.prod.items| && s.prod.done < |s.prod.items[s.prod.i]|
    && SlotIndex(c, s.prod.w, s.prod.i) == Home(c, |s.sent| + s.prod.i)
  }

  lemma WriteKeepsLive(c: Config, s: State)
    requires AtByte(c, s)
    ensures var s' := CopyInStep(c, s); SlotsOk(c, s') && Live(c, s')
  {
    var s' := CopyInStep(c, s);
    ByteCopied(s.slots[Home(c, |s.sent| + s.prod.i)], s.prod.items[s.prod.i], s.prod.done);
    forall k | |s.got| <= k < |s.sent|
      ensures Holds(s'.slots[Home(c, k)], s.sent[k])
    {
      WritingSlotIsFree(c, s, k);
    }
  }

  lemma WriteKeepsProd(c: Config, s: State)
    requires AtByte(c, s)
    ensures var s' := CopyInStep(c, s); SlotsOk(c, s') && ProdOk(c, s')
  {
    var s', i := CopyInStep(c, s), s.prod.i;
    ByteCopied(s.slots[Home(c, |s.sent| + i)], s.prod.items[i], s.prod.done);
    forall j | 0 <= j < i
      ensures Holds(s'.slots[Home(c, |s.sent| + j)], s.prod.items[j])
    {
      WritingSlotIsFree(c, s, |s.sent| + j);
    }
  }

  lemma WriteKeepsCons(c: Config, s: State)
    requires AtByte(c, s)
    ensures var s' := CopyInStep(c, s); SlotsOk(c, s') && ConsOk(c, s')
  {
    var s' := CopyInStep(c, s);
    assert SlotsOk(c, s');
    if s.cons.Reading? {
      forall idx | |s.got| <= idx < |s.got| + s.cons.n
        ensures s'.slots[Home(c, idx)] == s.slots[Home(c, idx)]
      {
        WritingSlotIsFree(c, s, idx);
      }
      ReadingUnmoved(c, s, s');
    }
  }

  /** What the consumer relies on are the slots it reads. */
  lemma ReadingUnmoved(c: Config, s: State, s': State)
    requires SlotsOk(c, s) && SlotsOk(c, s') && s.cons.Reading? && ConsReading(c, s)
    requires s'.cons == s.cons && s'.got == s.got && s'.seenW == s.seenW
    requires forall idx :: |s.got| <= idx < |s.got| + s.cons.n ==> s'.slots[Home(c, idx)] == s.slots[Home(c, idx)]
    ensures ConsReading(c, s')
  {
  }

  lemma CopyOutKeeps(c: Config, s: State)
    requires Legal(c) && Inv(c, s) && s.cons.Reading? && |s.cons.out| < s.cons.n
    ensures Inv(c, CopyOutStep(c, s))
  {
    var Reading(size, n, r, buf, out) := s.cons;
    CountBounds(c);
    SlotIndexIsHome(c, |s.got|, |out|);
    if |buf| < size {
      ByteOutKeeps(c, s, s.slots[Home(c, |s.got| + |out|)][|buf|]);
    } else {
      ItemOutKeeps(c, s);
    }
  }

  lemma ByteOutKeeps(c: Config, s: State, b: Byte)
    requires Inv(c, s) && s.cons.Reading? && |s.cons.out| < s.cons.n && |s.cons.buf| < s.cons.size
    requires b == s.slots[Home(c, |s.got| + |s.cons.out|)][|s.cons.buf|]
    ensures Inv(c, s.(cons := s.cons.(buf := s.cons.buf + [b])))
  {
    var s' := s.(cons := s.cons.(buf := s.cons.buf + [b]));
    var slot := s.slots[Home(c, |s.got| + |s.cons.out|)];
    assert s.cons.buf == slot[..|s.cons.buf|];
    assert s'.cons.buf == slot[..|s.cons.buf| + 1];
    assert ConsReading(c, s');
  }

  lemma ItemOutKeeps(c: Config, s: State)
    requires Inv(c, s) && s.cons.Reading? && |s.cons.out| < s.cons.n
    ensures Inv(c, s.(cons := s.cons.(buf := [], out := s.cons.out + [s.cons.buf])))
  {
    var s' := s.(cons := s.cons.(buf := [], out := s.cons.out + [s.cons.buf]));
    ItemOutReading(c, s);
    ProdUnmoved(c, s, s');
  }

  lemma ItemOutReading(c: Config, s: State)
    requires SlotsOk(c, s) && s.cons.Reading? && ConsReading(c, s) && |s.cons.out| < s.cons.n
    ensures ConsReading(c, s.(cons := s.cons.(buf := [], out := s.cons.out + [s.cons.buf])))
  {
  }

  lemma WrappedSum(total: nat, n: nat)
    requires n < WORD
    ensures Add64(total % WORD, n) == (total + n) % WORD
  {
    Add64Wraps(total % WORD, n);
    AddMod(total % WORD, total, n, WORD);
  }

  lemma PublishWriteLive(c: Config, s: State, s': State)
    requires Inv(c, s) && s.prod.Writing? && s.prod.i == |s.prod.items|
    requires s'.slots == s.slots && s'.got == s.got && s'.sent == s.sent + s.prod.items
    ensures SlotsOk(c, s') && Live(c, s') && History(s')
  {
    forall k | |s.got| <= k < |s'.sent|
      ensures Holds(s'.slots[Home(c, k)], s'.sent[k])
    {
      if k >= |s.sent| {
        assert s'.sent[k] == s.prod.items[k - |s.sent|];
        assert Holds(s.slots[Home(c, |s.sent| + (k - |s.sent|))], s.prod.items[k - |s.sent|]);
      }
    }
  }

  lemma PublishWriteKeeps(c: Config, s: State)
    requires Legal(c) && Inv(c, s) && s.prod.Writing? && s.prod.i == |s.prod.items|
    ensures Inv(c, Step(c, s, PublishWrite))
  {
    var s' := Step(c, s, PublishWrite);
    PublishWriteLive(c, s, s');
    PublishWriteIndices(c, s, s');
    assert ConsOk(c, s');
  }

  lemma PublishWriteIndices(c: Config, s: State, s': State)
    requires Legal(c) && Inv(c, s) && s.prod.Writing?
    requires s' == Step(c, s.(prod := s.prod.(i := |s.prod.items|)), PublishWrite)
    ensures Indices(c, s')
  {
    CountBounds(c);
    WrappedSum(|s.sent|, |s.prod.items|);
  }

  lemma PublishReadKeeps(c: Config, s: State)
    requires Legal(c) && Inv(c, s) && s.cons.Reading? && |s.cons.out| == s.cons.n
    ensures Inv(c, Step(c, s, PublishRead))
  {
    CountBounds(c);
    WrappedSum(|s.got|, s.cons.n);
    ReadPublished(c, s, s.got + s.cons.out);
  }

  lemma ReadPublished(c: Config, s: State, got': seq<Item>)
    requires Inv(c, s) && s.cons.Reading? && |s.cons.out| == s.cons.n && got' == s.got + s.cons.out
    ensures Inv(c, s.(read := |got'| % WORD, got := got', cons := Resting))
  {
    TakenAgree(c, s);
    ProdUnmoved(c, s, s.(read := |got'| % WORD, got := got', cons := Resting));
  }

  /** What the producer relies on does not involve the consumer. */
  lemma ProdUnmoved(c: Config, s: State, s': State)
    requires SlotsOk(c, s) && ProdOk(c, s) && s'.slots == s.slots && s'.prod == s.prod && s'.sent == s.sent
    requires s'.seenR == s.seenR
    ensures SlotsOk(c, s') && ProdOk(c, s')
  {
  }

  lemma TakenAgree(c: Config, s: State)
    requires SlotsOk(c, s) && History(s) && Live(c, s) && s.cons.Reading? && ConsReading(c, s)
    requires |s.cons.out| == s.cons.n && s.seenW <= |s.sent|
    ensures History(s.(got := s.got + s.cons.out))
  {
    var got' := s.got + s.cons.out;
    forall k | 0 <= k < |got'|
      ensures Agree(got'[k], s.sent[k])
    {
      if k >= |s.got| {
        var j := k - |s.got|;
        assert got'[k] == s.cons.out[j] && Holds(s.slots[Home(c, |s.got| + j)], s.cons.out[j]);
        assert Holds(s.slots[Home(c, k)], s.sent[k]);
      }
    }
  }

  lemma StepKeeps(c: Config, s: State, a: Action)
    requires Legal(c) && Inv(c, s) && Enabled(c, s, a)
    ensures Inv(c, Step(c, s, a))
  {
    match a
    case CheckFull => CheckFullKeeps(c, s);
    case CopyIn => CopyInKeeps(c, s);
    case PublishWrite => PublishWriteKeeps(c, s);
    case CheckEmpty => CheckEmptyKeeps(c, s);
    case CopyOut => CopyOutKeeps(c, s);
    case PublishRead => PublishReadKeeps(c, s);
    case _ => LoadsKeep(c, s, a);
  }

  // ---- Every interleaving ----------------------------------------------------------------------------------

  /** After ringbuf_init. */
  predicate Initial(c: Config, s: State) {
    && s.write == s.read == s.seenR == s.seenW == 0 && s.sent == s.got == []
    && s.prod.AtRest? && s.cons.Resting? && SlotsOk(c, s)
  }

  ghost predicate Runs(c: Config, s: State, actions: seq<Action>, s': State)
    decreases actions
  {
    if actions == [] then s == s'
    else Enabled(c, s, actions[0]) && Runs(c, Step(c, s, actions[0]), actions[1..], s')
  }

  lemma {:induction false} RunKeeps(c: Config, s: State, actions: seq<Action>, s': State)
    requires Legal(c) && Inv(c, s) && Runs(c, s, actions, s')
    ensures Inv(c, s')
    decreases actions
  {
    if actions != [] {
      StepKeeps(c, s, actions[0]);
      RunKeeps(c, Step(c, s, actions[0]), actions[1..], s');
    }
  }

  /** The producer is copying into one slot while the consumer copies out of another. */
  predicate BothCopy(s: State) {
    && s.prod.Writing? && s.prod.i < |s.prod.items|
    && s.cons.Reading? && |s.cons.out| < s.cons.n
  }

  /** In every interleaving: the occupancy computed from the wrapped indices is the true one and at
      most slot_count; every popped item carries the bytes of the item pushed at the same position;
      and the two sides never copy in the same slot at once. */
  lemma EveryInterleaving(c: Config, s: State, actions: seq<Action>, s': State)
    requires Legal(c) && Initial(c, s) && Runs(c, s, actions, s')
    ensures |s'.got| <= |s'.sent| <= |s'.got| + Count(c) && Diff(s'.write, s'.read) == |s'.sent| - |s'.got|
    ensures forall i :: 0 <= i < |s'.got| ==> Agree(s'.got[i], s'.sent[i])
    ensures BothCopy(s') ==> SlotIndex(c, s'.prod.w, s'.prod.i) != SlotIndex(c, s'.cons.r, |s'.cons.out|)
  {
    RunKeeps(c, s, actions, s');
    CountBounds(c);
    DiffIsDistance(|s'.sent|, |s'.got|);
    if BothCopy(s') {
      SlotIndexIsHome(c, |s'.sent|, s'.prod.i);
      SlotIndexIsHome(c, |s'.got|, |s'.cons.out|);
      WritingSlotIsFree(c, s', |s'.got| + |s'.cons.out|);
    }
  }

  /** What was popped is a prefix of what was pushed exactly when every pop asked for the size of the
      item at its turn. */
  lemma PoppedIsPrefix(c: Config, s: State, actions: seq<Action>, s': State)
    requires Legal(c) && Initial(c, s) && Runs(c, s, actions, s')
    ensures |s'.got| <= |s'.sent|
    ensures s'.got <= s'.sent <==> forall i :: 0 <= i < |s'.got| ==> |s'.got[i]| == |s'.sent[i]|
  {
    EveryInterleaving(c, s, actions, s');
    forall i | 0 <= i < |s'.got| && |s'.got[i]| == |s'.sent[i]|
      ensures s'.got[i] == s'.sent[i]
    {
      assert Agree(s'.got[i], s'.sent[i]);
    }
  }
}
