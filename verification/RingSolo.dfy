/** The sequential operations as runs of the protocol: a push is the producer's steps with nothing in
    between, a pop the consumer's. */
module RingSolo {
  import opened RingProtocol
  import opened RingBuffer

  /** The shared memory of a protocol state. */
  function RingOf(c: Config, s: State): Ring { Ring(c.k, c.slotSize, s.write, s.read, s.slots) }

  lemma RingOfOk(c: Config, s: State)
    requires Legal(c) && Inv(c, s)
    ensures RingOk(RingOf(c, s))
  {
    CountBounds(c);
    DiffIsDistance(|s.sent|, |s.got|);
  }

  lemma {:induction false} RunsAppend(c: Config, s: State, a: seq<Action>, t: State, b: seq<Action>, u: State)
    requires Runs(c, s, a, t) && Runs(c, t, b, u)
    ensures Runs(c, s, a + b, u)
    decreases a
  {
    if a == [] {
      assert a + b == b;
    } else {
      assert (a + b)[1..] == a[1..] + b && (a + b)[0] == a[0];
      RunsAppend(c, Step(c, s, a[0]), a[1..], t, b, u);
    }
  }

  lemma OneStep(c: Config, s: State, a: Action)
    requires Enabled(c, s, a)
    ensures Runs(c, s, [a], Step(c, s, a))
  {
    assert [a][1..] == [];
  }

  lemma ThreeSteps(c: Config, s: State, x: Action, y: Action, z: Action)
    requires Enabled(c, s, x) && Enabled(c, Step(c, s, x), y) && Enabled(c, Step(c, Step(c, s, x), y), z)
    ensures Runs(c, s, [x, y, z], Step(c, Step(c, Step(c, s, x), y), z))
  {
    OneStep(c, Step(c, Step(c, s, x), y), z);
    assert [x, y, z][1..] == [y, z] && [y, z][1..] == [z];
  }

  // ---- Pushing ---------------------------------------------------------------------------------------------

  /** With the first j bytes of the item copied into slot p. */
  function PartCopied(s: State, item: Item, p: nat, j: nat): State
    requires p < |s.slots| && j <= |item| <= |s.slots[p]| && s.prod.Writing?
  {
    s.(slots := s.slots[p := Overlay(s.slots[p], item[..j])], prod := s.prod.(done := j))
  }

  lemma ByteOverlaid(slot: Item, item: Item, j: nat)
    requires j < |item| <= |slot|
    ensures Byted(Overlay(slot, item[..j]), j, item[j]) == Overlay(slot, item[..j + 1])
  {
  }

  lemma ByteStep(c: Config, s: State, item: Item, p: nat, j: nat)
    requires s.prod.Writing? && s.prod == Writing([item], s.prod.w, 0, 0) && p == SlotIndex(c, s.prod.w, 0) < |s.slots|
    requires j < |item| <= |s.slots[p]|
    ensures Step(c, PartCopied(s, item, p, j), CopyIn) == PartCopied(s, item, p, j + 1)
  {
    ByteOverlaid(s.slots[p], item, j);
  }

  /** From j bytes on, the rest of the copy. */
  lemma {:induction false} CopyInRuns(c: Config, s: State, item: Item, p: nat, j: nat)
    requires s.prod.Writing? && s.prod == Writing([item], s.prod.w, 0, 0) && p == SlotIndex(c, s.prod.w, 0) < |s.slots|
    requires j <= |item| <= |s.slots[p]|
    ensures Runs(c, PartCopied(s, item, p, j), seq(|item| - j, _ => CopyIn), PartCopied(s, item, p, |item|))
    decreases |item| - j
  {
    var todo := seq(|item| - j, _ => CopyIn);
    if j < |item| {
      ByteStep(c, s, item, p, j);
      CopyInRuns(c, s, item, p, j + 1);
      assert todo[1..] == seq(|item| - (j + 1), _ => CopyIn);
    }
  }

  predicate ProducerOnly(actions: seq<Action>) {
    forall i :: 0 <= i < |actions| ==>
      var a := actions[i];
      a.LoadWrite? || a.LoadRead? || a.CheckFull? || a.CopyIn? || a.PublishWrite?
  }

  /** The state after an accepted push. */
  function Pushed(s: State, item: Item, p: nat): State
    requires p < |s.slots| && |item| <= |s.slots[p]|
  {
    s.(slots := s.slots[p := Overlay(s.slots[p], item)], write := Add64(s.write, 1),
       sent := s.sent + [item], seenR := |s.got|)
  }

  lemma StoreRuns(c: Config, s: State, item: Item, p: nat) returns (actions: seq<Action>)
    requires s.prod.Writing? && s.prod == Writing([item], s.prod.w, 0, 0) && p == SlotIndex(c, s.prod.w, 0) < |s.slots|
    requires |item| <= |s.slots[p]|
    ensures ProducerOnly(actions)
    ensures Runs(c, s, actions, s.(slots := s.slots[p := Overlay(s.slots[p], item)], prod := AtRest,
                                   write := Add64(s.prod.w, 1), sent := s.sent + [item]))
  {
    var copied := PartCopied(s, item, p, |item|);
    var next := copied.(prod := Writing([item], s.prod.w, 1, 0));
    assert PartCopied(s, item, p, 0) == s by {
      assert item[..0] == [] && Overlay(s.slots[p], []) == s.slots[p];
      assert s.slots[p := s.slots[p]] == s.slots;
    }
    CopyInRuns(c, s, item, p, 0);
    OneStep(c, copied, CopyIn);
    OneStep(c, next, PublishWrite);
    var copies := seq(|item| - 0, _ => CopyIn);
    RunsAppend(c, copied, [CopyIn], next, [PublishWrite], Step(c, next, PublishWrite));
    RunsAppend(c, s, copies, copied, [CopyIn] + [PublishWrite], Step(c, next, PublishWrite));
    assert item[..|item|] == item;
    actions := copies + ([CopyIn] + [PublishWrite]);
  }

  /** ringbuf_push is the producer's steps: from any state of the protocol in which the producer is
      idle, whatever the consumer is doing, they lead to the ring that PushOne computes. */
  lemma PushIsRun(c: Config, s: State, item: Item) returns (actions: seq<Action>, s': State)
    requires Legal(c) && Inv(c, s) && s.prod.AtRest?
    ensures ProducerOnly(actions) && Runs(c, s, actions, s') && s'.prod.AtRest? && s'.cons == s.cons
    ensures RingOk(RingOf(c, s))
    ensures var (r, ok) := PushOne(RingOf(c, s), item);
      RingOf(c, s') == r && s'.sent == (if ok then s.sent + [item] else s.sent) && s'.got == s.got
  {
    RingOfOk(c, s);
    var r := RingOf(c, s);
    PushChecked(c, s, item);
    actions := [LoadWrite(One(item)), LoadRead(|s.got|), CheckFull];
    if PushOne(r, item).1 {
      var checked := s.(prod := Writing([item], s.write, 0, 0), seenR := |s.got|);
      var p := Place(r, r.write);
      assert SlotIndex(c, s.write, 0) == p;
      var more := StoreRuns(c, checked, item, p);
      s' := Pushed(s, item, p);
      RunsAppend(c, s, actions, checked, more, s');
      actions := actions + more;
    } else {
      s' := s.(seenR := |s.got|);
    }
  }

  /** The loads and the check, with the other side's index up to date. */
  lemma PushChecked(c: Config, s: State, item: Item)
    requires Legal(c) && Inv(c, s) && s.prod.AtRest?
    ensures var refused := Diff(s.write, s.read) == Count(c) || |item| > c.slotSize;
      Runs(c, s, [LoadWrite(One(item)), LoadRead(|s.got|), CheckFull],
           s.(prod := if refused then AtRest else Writing([item], s.write, 0, 0), seenR := |s.got|))
  {
    ThreeSteps(c, s, LoadWrite(One(item)), LoadRead(|s.got|), CheckFull);
    assert [item][..1] == [item];
  }

  // ---- Popping ---------------------------------------------------------------------------------------------

  predicate ConsumerOnly(actions: seq<Action>) {
    forall i :: 0 <= i < |actions| ==>
      var a := actions[i];
      a.ConsLoadRead? || a.ConsLoadWrite? || a.CheckEmpty? || a.CopyOut? || a.PublishRead?
  }

  /** With the first j bytes of slot p read. */
  function PartRead(s: State, p: nat, j: nat): State
    requires p < |s.slots| && j <= |s.slots[p]| && s.cons.Reading?
  {
    s.(cons := s.cons.(buf := s.slots[p][..j]))
  }

  lemma ByteReadStep(c: Config, s: State, size: nat, p: nat, j: nat)
    requires s.cons.Reading? && s.cons == Reading(size, 1, s.cons.r, [], [])
    requires p == SlotIndex(c, s.cons.r, 0) < |s.slots| && j < size <= |s.slots[p]|
    ensures Step(c, PartRead(s, p, j), CopyOut) == PartRead(s, p, j + 1)
  {
    assert s.slots[p][..j] + [s.slots[p][j]] == s.slots[p][..j + 1];
  }

  lemma {:induction false} CopyOutRuns(c: Config, s: State, size: nat, p: nat, j: nat)
    requires s.cons.Reading? && s.cons == Reading(size, 1, s.cons.r, [], [])
    requires p == SlotIndex(c, s.cons.r, 0) < |s.slots| && j <= size <= |s.slots[p]|
    ensures Runs(c, PartRead(s, p, j), seq(size - j, _ => CopyOut), PartRead(s, p, size))
    decreases size - j
  {
    var todo := seq(size - j, _ => CopyOut);
    if j < size {
      ByteReadStep(c, s, size, p, j);
      CopyOutRuns(c, s, size, p, j + 1);
      assert todo[1..] == seq(size - (j + 1), _ => CopyOut);
    }
  }

  lemma FetchRuns(c: Config, s: State, size: nat, p: nat) returns (actions: seq<Action>)
    requires s.cons.Reading? && s.cons == Reading(size, 1, s.cons.r, [], [])
    requires p == SlotIndex(c, s.cons.r, 0) < |s.slots| && size <= |s.slots[p]|
    ensures ConsumerOnly(actions)
    ensures Runs(c, s, actions, s.(cons := Resting, read := Add64(s.cons.r, 1), got := s.got + [s.slots[p][..size]]))
  {
    var item := s.slots[p][..size];
    var read := PartRead(s, p, size);
    var next := s.(cons := Reading(size, 1, s.cons.r, [], [item]));
    assert PartRead(s, p, 0) == s;
    CopyOutRuns(c, s, size, p, 0);
    OneStep(c, read, CopyOut);
    OneStep(c, next, PublishRead);
    var copies := seq(size - 0, _ => CopyOut);
    RunsAppend(c, read, [CopyOut], next, [PublishRead], Step(c, next, PublishRead));
    RunsAppend(c, s, copies, read, [CopyOut] + [PublishRead], Step(c, next, PublishRead));
    actions := copies + ([CopyOut] + [PublishRead]);
  }

  /** ringbuf_pop is the consumer's steps, whatever the producer is doing. */
  lemma PopIsRun(c: Config, s: State, size: nat) returns (actions: seq<Action>, s': State)
    requires Legal(c) && Inv(c, s) && s.cons.Resting?
    ensures ConsumerOnly(actions) && Runs(c, s, actions, s') && s'.cons.Resting? && s'.prod == s.prod
    ensures RingOk(RingOf(c, s))
    ensures var (r, got) := PopOne(RingOf(c, s), size);
      RingOf(c, s') == r && s'.got == (if got.Got? then s.got + [got.item] else s.got) && s'.sent == s.sent
  {
    RingOfOk(c, s);
    var r := RingOf(c, s);
    PopChecked(c, s, size);
    actions := [ConsLoadRead(Pop(size)), ConsLoadWrite(|s.sent|), CheckEmpty];
    if PopOne(r, size).1.Got? {
      var checked := s.(cons := Reading(size, 1, s.read, [], []), seenW := |s.sent|);
      var p := Place(r, r.read);
      assert SlotIndex(c, s.read, 0) == p;
      var more := FetchRuns(c, checked, size, p);
      s' := s.(read := Add64(s.read, 1), got := s.got + [s.slots[p][..size]], seenW := |s.sent|);
      RunsAppend(c, s, actions, checked, more, s');
      actions := actions + more;
    } else {
      s' := s.(seenW := |s.sent|);
    }
  }

  lemma PopChecked(c: Config, s: State, size: nat)
    requires Legal(c) && Inv(c, s) && s.cons.Resting?
    ensures var refused := size > c.slotSize || s.read == s.write;
      Runs(c, s, [ConsLoadRead(Pop(size)), ConsLoadWrite(|s.sent|), CheckEmpty],
           s.(cons := if refused then Resting else Reading(size, 1, s.read, [], []), seenW := |s.sent|))
  {
    ThreeSteps(c, s, ConsLoadRead(Pop(size)), ConsLoadWrite(|s.sent|), CheckEmpty);
  }
}
