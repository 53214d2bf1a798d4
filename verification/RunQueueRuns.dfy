/** Work stealing, and every run of the scheduler's queue operations. */
module RunQueueRuns {
  import opened RunQueueSpec

  // ---- Stealing --------------------------------------------------------------------------------------

  function Victimised(s: Queues, v: nat): Class
    requires Sized(s) && v < s.cpus
  {
    if Line(s, v, Batch) != [] then Batch else Intr
  }

  /** One round of the loop in sched_steal: the head of the batch line, else of the interactive one. */
  function MoveOne(s: Queues, v: nat, me: nat): (s': Queues)
    requires Ok(s) && v < s.cpus && me < s.cpus && v != me && Light(s, v) > 0
    ensures Ok(s') && s'.cpus == s.cpus && |s'.pcbs| == |s.pcbs| && Light(s', v) == Light(s, v) - 1
  {
    var q := Slot(v, Victimised(s, v));
    var p := s.slots[q][0];
    OneLine(s, q, p);
    LeaveKeeps(s, q);
    ArriveKeeps(Leave(s, q), p, me);
    Arrive(Leave(s, q), p, me)
  }

  function MoveMany(s: Queues, v: nat, me: nat, n: nat): Queues
    requires Ok(s) && v < s.cpus && me < s.cpus && v != me && n <= Light(s, v)
    decreases n
  {
    if n == 0 then s else MoveMany(MoveOne(s, v, me), v, me, n - 1)
  }

  lemma MoveFirst(s: Queues, v: nat, me: nat, n: nat, left: nat)
    requires Ok(s) && v < s.cpus && me < s.cpus && v != me && 0 < n <= Light(s, v) && left == n - 1
    ensures left <= Light(MoveOne(s, v, me), v)
    ensures MoveMany(s, v, me, n) == MoveMany(MoveOne(s, v, me), v, me, left)
  {
  }

  function Steal(s: Queues, me: nat): Queues
    requires Ok(s) && me < s.cpus
  {
    var (v, load) := Busiest(s, me, s.cpus);
    if load <= Light(s, me) + STEAL_THRESHOLD then s else MoveMany(s, v, me, load / 2)
  }

  predicate SameSizes(s: Queues, s': Queues) {
    Sized(s) && Sized(s') && s'.cpus == s.cpus && |s'.pcbs| == |s.pcbs|
  }

  /** Dropping n elements in all from the fronts of two lines, the first line first. */
  predicate FrontsDropped(x: seq<nat>, y: seq<nat>, x': seq<nat>, y': seq<nat>, n: nat)
    requires n <= |x| + |y|
  {
    if n <= |x| then x' == x[n..] && y' == y else x' == [] && y' == y[n - |x|..]
  }

  lemma DropOneMore(x: seq<nat>, y: seq<nat>, x1: seq<nat>, y1: seq<nat>, x2: seq<nat>, y2: seq<nat>, n: nat)
    requires n < |x| + |y| && FrontsDropped(x, y, x1, y1, 1) && FrontsDropped(x1, y1, x2, y2, n)
    ensures FrontsDropped(x, y, x2, y2, n + 1)
  {
    if 0 < |x| && n < |x| {
      assert x[1..][n..] == x[n + 1..];
    } else if |x| == 0 {
      assert y[1..][n..] == y[n + 1..];
    }
  }

  /** The victim's batch line loses its first processes, then its interactive line does. */
  predicate VictimLines(s: Queues, s': Queues, v: nat, n: nat)
    requires SameSizes(s, s') && v < s.cpus && n <= Light(s, v)
  {
    FrontsDropped(Line(s, v, Batch), Line(s, v, Intr), Line(s', v, Batch), Line(s', v, Intr), n)
  }

  /** The thief's lines grow by n processes in all. */
  ghost predicate ThiefLines(s: Queues, s': Queues, me: nat, n: nat)
    requires SameSizes(s, s') && me < s.cpus
  {
    && Light(s', me) == Light(s, me) + n
    && (forall p: nat :: p in Line(s, me, Intr) ==> p in Line(s', me, Intr))
    && (forall p: nat :: p in Line(s, me, Batch) ==> p in Line(s', me, Batch))
  }

  predicate OtherLines(s: Queues, s': Queues, v: nat, me: nat)
    requires SameSizes(s, s')
  {
    var moving := {Slot(v, Batch), Slot(v, Intr), Slot(me, Batch), Slot(me, Intr)};
    forall q :: 0 <= q < |s.slots| && q !in moving ==> s'.slots[q] == s.slots[q]
  }

  ghost predicate SameQueued(s: Queues, s': Queues) {
    forall p: nat :: Queued(s', p) <==> Queued(s, p)
  }

  /** Only processes of v move, and they move to me; class and key stay. */
  predicate Rehomed(s: Queues, s': Queues, v: nat, me: nat)
    requires SameSizes(s, s')
  {
    forall p :: 0 <= p < |s.pcbs| ==>
      s'.pcbs[p] == s.pcbs[p] || (s.pcbs[p].cpu == v && s'.pcbs[p] == s.pcbs[p].(cpu := me))
  }

  /** What moving n processes from v to me amounts to. */
  ghost predicate Moved(s: Queues, s': Queues, v: nat, me: nat, n: nat)
    requires Sized(s) && v < s.cpus && me < s.cpus && n <= Light(s, v)
  {
    && SameSizes(s, s') && VictimLines(s, s', v, n) && ThiefLines(s, s', me, n)
    && OtherLines(s, s', v, me) && SameQueued(s, s') && Rehomed(s, s', v, me)
  }

  lemma MoveOneMoves(s: Queues, v: nat, me: nat)
    requires Ok(s) && v < s.cpus && me < s.cpus && v != me && Light(s, v) > 0
    ensures Moved(s, MoveOne(s, v, me), v, me, 1)
  {
    var c := Victimised(s, v);
    var q, home := Slot(v, c), Slot(me, c);
    var p := s.slots[q][0];
    OneLine(s, q, p);
    var mid := Leave(s, q);
    LeaveQueued(s, q);
    ArriveQueued(mid, p, me);
    var s' := Arrive(mid, p, me);
    assert SameQueued(s, s');
    assert s.pcbs[p].cls == c && s.pcbs[p].cpu == v;
    assert s'.slots == s.slots[q := s.slots[q][1..]][home := Place(s.slots[home], p, PrioOf(s'.pcbs))];
    forall x: nat
      ensures x in s.slots[home] ==> x in s'.slots[home]
    {
      PlaceMembers(s.slots[home], p, PrioOf(s'.pcbs), x);
    }
    PlaceMembers(s.slots[home], p, PrioOf(s'.pcbs), p);
    MoveOneLines(s, s', v, me, c);
  }

  lemma MoveOneLines(s: Queues, s': Queues, v: nat, me: nat, c: Class)
    requires SameSizes(s, s') && v < s.cpus && me < s.cpus && v != me && Light(s, v) > 0 && c == Victimised(s, v)
    requires s'.slots[Slot(v, c)] == s.slots[Slot(v, c)][1..] && |s'.slots[Slot(me, c)]| == |s.slots[Slot(me, c)]| + 1
    requires forall x: nat :: x in s.slots[Slot(me, c)] ==> x in s'.slots[Slot(me, c)]
    requires forall q :: 0 <= q < |s.slots| && q != Slot(v, c) && q != Slot(me, c) ==> s'.slots[q] == s.slots[q]
    ensures VictimLines(s, s', v, 1) && ThiefLines(s, s', me, 1) && OtherLines(s, s', v, me)
  {
  }

  lemma MovedThen(s: Queues, a: Queues, b: Queues, v: nat, me: nat, n: nat)
    requires Sized(s) && v < s.cpus && me < s.cpus && v != me && n < Light(s, v)
    requires Moved(s, a, v, me, 1) && n <= Light(a, v) && Moved(a, b, v, me, n)
    ensures Moved(s, b, v, me, n + 1)
  {
    DropOneMore(Line(s, v, Batch), Line(s, v, Intr), Line(a, v, Batch), Line(a, v, Intr),
                Line(b, v, Batch), Line(b, v, Intr), n);
  }

  lemma {:induction false} MoveManyMoves(s: Queues, v: nat, me: nat, n: nat)
    requires Ok(s) && v < s.cpus && me < s.cpus && v != me && n <= Light(s, v)
    ensures Ok(MoveMany(s, v, me, n)) && Moved(s, MoveMany(s, v, me, n), v, me, n)
    decreases n
  {
    if n > 0 {
      var a := MoveOne(s, v, me);
      MoveManyMoves(a, v, me, n - 1);
      MoveManyStep(s, a, MoveMany(a, v, me, n - 1), v, me, n);
    }
  }

  lemma MoveManyStep(s: Queues, a: Queues, b: Queues, v: nat, me: nat, n: nat)
    requires Ok(s) && v < s.cpus && me < s.cpus && v != me && 0 < n <= Light(s, v) && a == MoveOne(s, v, me)
    requires Moved(a, b, v, me, n - 1)
    ensures Moved(s, b, v, me, n)
  {
    MoveOneMoves(s, v, me);
    MovedThen(s, a, b, v, me, n - 1);
  }

  /** Some other CPU is over the threshold. */
  ghost predicate WorthStealing(s: Queues, me: nat)
    requires Sized(s) && me < s.cpus
  {
    exists cpu :: 0 <= cpu < s.cpus && cpu != me && Light(s, cpu) > Light(s, me) + STEAL_THRESHOLD
  }

  /** If another CPU is over the threshold, exactly half of the stealable processes of a busiest one
      move; otherwise nothing does. */
  lemma StealMovesHalf(s: Queues, me: nat)
    requires Ok(s) && me < s.cpus
    ensures Ok(Steal(s, me)) && SameQueued(s, Steal(s, me)) && Steal(s, me).cpus == s.cpus
    ensures |Steal(s, me).pcbs| == |s.pcbs|
    ensures forall cpu :: 0 <= cpu < s.cpus ==> Line(Steal(s, me), cpu, Rt) == Line(s, cpu, Rt)
    ensures if WorthStealing(s, me) then HalfTaken(s, Steal(s, me), me) else Steal(s, me) == s
  {
    var (v, load) := Busiest(s, me, s.cpus);
    forall i | 0 <= i < s.cpus && i != me
      ensures Light(s, i) <= load
    {
      BusiestIsBusiest(s, me, s.cpus, i);
    }
    if load > Light(s, me) + STEAL_THRESHOLD {
      MoveManyMoves(s, v, me, load / 2);
      assert TakenFrom(s, Steal(s, me), me, v);
    }
  }

  ghost predicate TakenFrom(s: Queues, s': Queues, me: nat, v: nat)
    requires Sized(s) && me < s.cpus
  {
    && v < s.cpus && v != me && Light(s, v) > Light(s, me) + STEAL_THRESHOLD
    && (forall i :: 0 <= i < s.cpus && i != me ==> Light(s, i) <= Light(s, v))
    && Moved(s, s', v, me, Light(s, v) / 2)
  }

  ghost predicate HalfTaken(s: Queues, s': Queues, me: nat)
    requires Sized(s) && me < s.cpus
  {
    exists v: nat :: TakenFrom(s, s', me, v)
  }

  // ---- Runs --------------------------------------------------------------------------------------------

  datatype Op = Ready(p: nat) | Reschedule(cpu: nat) | Balance(cpu: nat) | Retune(p: nat, cls: Class, priority: int)

  /** A process is made ready only when it is not waiting; class and key change only then, too. */
  ghost predicate Legal(s: Queues, op: Op) {
    match op
    case Ready(p) => p < |s.pcbs| && !Queued(s, p)
    case Reschedule(cpu) => cpu < s.cpus
    case Balance(cpu) => cpu < s.cpus
    case Retune(p, _, _) => p < |s.pcbs| && !Queued(s, p)
  }

  ghost function Step(s: Queues, op: Op): Queues
    requires Ok(s) && Legal(s, op)
  {
    match op
    case Ready(p) => Enqueue(s, p)
    case Reschedule(cpu) => Dequeue(s, cpu)
    case Balance(cpu) => Steal(s, cpu)
    case Retune(p, c, k) => s.(pcbs := s.pcbs[p := s.pcbs[p].(cls := c, priority := k)])
  }

  lemma StepKeeps(s: Queues, op: Op)
    requires Ok(s) && Legal(s, op)
    ensures Ok(Step(s, op))
    ensures forall p: nat :: Queued(Step(s, op), p) <==> (Queued(s, p) && !PicksNow(s, op, p)) || op == Ready(p)
  {
    match op
    case Ready(p) => ArriveQueued(s, p, Target(s, p));
    case Reschedule(cpu) => DequeuePicksFirst(s, cpu);
    case Balance(cpu) => StealMovesHalf(s, cpu);
    case Retune(p, _, _) => RetuneKeeps(s, op);
  }

  lemma RetuneKeeps(s: Queues, op: Op)
    requires Ok(s) && Legal(s, op) && op.Retune?
    ensures Ok(Step(s, op)) && Step(s, op).slots == s.slots && SameQueued(s, Step(s, op))
  {
    var s' := Step(s, op);
    forall q | 0 <= q < |s.slots|
      ensures LineOk(s', q)
    {
      assert LineOk(s, q) && !Waits(s, q, op.p);
      forall i | 0 <= i < |s.slots[q]|
        ensures Same(s, s', s.slots[q][i])
      {
        assert Belongs(s, q, s.slots[q][i]);
      }
      LineSame(s, s', q);
    }
    forall p: nat
      ensures Queued(s', p) <==> Queued(s, p)
    {
      if Queued(s, p) {
        var q: nat :| q < |s.slots| && Waits(s, q, p);
        assert Waits(s', q, p);
      }
      if Queued(s', p) {
        var q: nat :| q < |s.slots| && Waits(s', q, p);
        assert Waits(s, q, p);
      }
    }
  }

  predicate PicksNow(s: Queues, op: Op, p: nat)
    requires Sized(s)
  {
    op.Reschedule? && op.cpu < s.cpus && Picked(s, op.cpu) == Process(p)
  }

  ghost predicate LegalRun(s: Queues, ops: seq<Op>)
    requires Ok(s)
    decreases ops
  {
    ops == [] || (Legal(s, ops[0]) && Ok(Step(s, ops[0])) && LegalRun(Step(s, ops[0]), ops[1..]))
  }

  ghost function Run(s: Queues, ops: seq<Op>): Queues
    requires Ok(s) && LegalRun(s, ops)
    decreases ops
  {
    if ops == [] then s else Run(Step(s, ops[0]), ops[1..])
  }

  function One(b: bool): nat { if b then 1 else 0 }

  function Readied(ops: seq<Op>, p: nat): nat {
    if ops == [] then 0 else One(ops[0] == Ready(p)) + Readied(ops[1..], p)
  }

  ghost function Ran(s: Queues, ops: seq<Op>, p: nat): nat
    requires Ok(s) && LegalRun(s, ops)
    decreases ops
  {
    if ops == [] then 0 else One(PicksNow(s, ops[0], p)) + Ran(Step(s, ops[0]), ops[1..], p)
  }

  ghost function Pending(s: Queues, p: nat): nat { One(Queued(s, p)) }

  /** Over every run no process is lost or duplicated: each readying is matched by one pick, except
      for those still waiting. */
  lemma {:induction false} RunAccounts(s: Queues, ops: seq<Op>, p: nat)
    requires Ok(s) && LegalRun(s, ops)
    ensures Ok(Run(s, ops))
    ensures Pending(s, p) + Readied(ops, p) == Ran(s, ops, p) + Pending(Run(s, ops), p)
    decreases ops
  {
    if ops != [] {
      StepKeeps(s, ops[0]);
      PickedWaits(s, ops[0], p);
      RunAccounts(Step(s, ops[0]), ops[1..], p);
    }
  }

  lemma PickedWaits(s: Queues, op: Op, p: nat)
    requires Ok(s) && Legal(s, op)
    ensures PicksNow(s, op, p) ==> Queued(s, p)
  {
    if PicksNow(s, op, p) {
      DequeuePicksFirst(s, op.cpu);
      var r, i, b := Slot(op.cpu, Rt), Slot(op.cpu, Intr), Slot(op.cpu, Batch);
      assert Waits(s, r, p) || Waits(s, i, p) || Waits(s, b, p);
    }
  }

  // ---- Nobody overtakes ------------------------------------------------------------------------------------

  ghost predicate Ahead(s: Queues, q: nat, a: nat, b: nat)
    requires Ok(s)
  {
    && q < |s.slots| && Waits(s, q, a) && Waits(s, q, b)
    && a < |s.pcbs| && b < |s.pcbs| && Earlier(s, a, b)
  }

  /** a waits in line q before every step and at the end. */
  ghost predicate Stays(s: Queues, ops: seq<Op>, q: nat, a: nat)
    requires Ok(s) && LegalRun(s, ops)
    decreases ops
  {
    && q < |s.slots| && Waits(s, q, a)
    && (ops != [] ==> Stays(Step(s, ops[0]), ops[1..], q, a))
  }

  /** As long as a stays in its line, so does everyone behind it: nobody behind a is picked or
      stolen before a. */
  lemma {:induction false} NoOvertaking(s: Queues, ops: seq<Op>, q: nat, a: nat, b: nat)
    requires Ok(s) && LegalRun(s, ops) && Ahead(s, q, a, b) && Stays(s, ops, q, a)
    ensures Stays(s, ops, q, b)
    decreases ops
  {
    if ops != [] {
      StepKeepsAhead(s, ops[0], q, a, b);
      NoOvertaking(Step(s, ops[0]), ops[1..], q, a, b);
    }
  }

  lemma StepKeepsAhead(s: Queues, op: Op, q: nat, a: nat, b: nat)
    requires Ok(s) && Legal(s, op) && Ok(Step(s, op)) && Ahead(s, q, a, b)
    requires q < |Step(s, op).slots| && Waits(Step(s, op), q, a)
    ensures Ahead(Step(s, op), q, a, b)
  {
    OneLine(s, q, a);
    OneLine(s, q, b);
    match op
    case Ready(p) => ArriveKeepsAhead(s, p, Target(s, p), q, a, b);
    case Reschedule(cpu) =>
      if Picked(s, cpu).Process? {
        var class_ := if Line(s, cpu, Rt) != [] then Rt else if Line(s, cpu, Intr) != [] then Intr else Batch;
        LeaveKeepsAhead(s, Slot(cpu, class_), q, a, b);
      }
    case Balance(cpu) => StealKeepsAhead(s, cpu, q, a, b);
    case Retune(p, _, _) =>
  }

  lemma ArriveKeepsAhead(s: Queues, p: nat, cpu: nat, q: nat, a: nat, b: nat)
    requires Ok(s) && p < |s.pcbs| && cpu < s.cpus && !Queued(s, p) && Ahead(s, q, a, b) && Queued(s, a) && Queued(s, b)
    ensures Ok(Arrive(s, p, cpu)) && Ahead(Arrive(s, p, cpu), q, a, b)
  {
    ArriveKeeps(s, p, cpu);
    var home := Slot(cpu, s.pcbs[p].cls);
    PlaceMembers(s.slots[home], p, PrioOf(Arrive(s, p, cpu).pcbs), a);
    PlaceMembers(s.slots[home], p, PrioOf(Arrive(s, p, cpu).pcbs), b);
  }

  lemma LeaveKeepsAhead(s: Queues, r: nat, q: nat, a: nat, b: nat)
    requires Ok(s) && r < |s.slots| && s.slots[r] != [] && Ahead(s, q, a, b) && Waits(Leave(s, r), q, a)
    ensures Ok(Leave(s, r)) && Ahead(Leave(s, r), q, a, b)
  {
    LeaveKeeps(s, r);
    if r == q {
      SuffixKeeps(s, q, 1, a, b);
    }
  }

  /** A suffix of a line that holds a holds everyone behind a. */
  lemma SuffixKeeps(s: Queues, q: nat, d: nat, a: nat, b: nat)
    requires Ok(s) && Ahead(s, q, a, b) && d <= |s.slots[q]| && a in s.slots[q][d..]
    ensures b in s.slots[q][d..]
  {
    var line := s.slots[q];
    assert LineOk(s, q);
    var i :| 0 <= i < |line| - d && line[d..][i] == a;
    var j :| 0 <= j < |line| && line[j] == b;
    assert line[d + i] == a;
    assert line[d..][j - d] == b;
  }

  lemma StealKeepsAhead(s: Queues, me: nat, q: nat, a: nat, b: nat)
    requires Ok(s) && me < s.cpus && Ahead(s, q, a, b) && Ok(Steal(s, me))
    requires q < |Steal(s, me).slots| && Waits(Steal(s, me), q, a)
    ensures Ahead(Steal(s, me), q, a, b)
  {
    OneLine(Steal(s, me), q, a);
    var (v, load) := Busiest(s, me, s.cpus);
    if load > Light(s, me) + STEAL_THRESHOLD {
      MoveKeepsAhead(s, v, me, load / 2, q, a, b);
    }
  }

  lemma {:induction false} MoveKeepsAhead(s: Queues, v: nat, me: nat, n: nat, q: nat, a: nat, b: nat)
    requires Ok(s) && v < s.cpus && me < s.cpus && v != me && n <= Light(s, v) && Ahead(s, q, a, b)
    requires var s' := MoveMany(s, v, me, n); Ok(s') && Belongs(s', q, a)
    ensures Ahead(MoveMany(s, v, me, n), q, a, b)
    decreases n
  {
    if n > 0 {
      NotMoved(s, v, me, n, q, a);
      MoveOneKeepsAhead(s, v, me, q, a, b);
      MoveKeepsAhead(MoveOne(s, v, me), v, me, n - 1, q, a, b);
    }
  }

  /** A process that still belongs to its line at the end is not the one moved now. */
  lemma NotMoved(s: Queues, v: nat, me: nat, n: nat, q: nat, a: nat)
    requires Ok(s) && v < s.cpus && me < s.cpus && v != me && 0 < n <= Light(s, v) && q < |s.slots| && Waits(s, q, a)
    requires var s' := MoveMany(s, v, me, n); Ok(s') && Belongs(s', q, a)
    ensures a != Line(s, v, Victimised(s, v))[0]
  {
    var r := Slot(v, Victimised(s, v));
    OneLine(s, q, a);
    OneLine(s, r, s.slots[r][0]);
    MoveManyMoves(MoveOne(s, v, me), v, me, n - 1);
  }

  lemma MoveOneKeepsAhead(s: Queues, v: nat, me: nat, q: nat, a: nat, b: nat)
    requires Ok(s) && v < s.cpus && me < s.cpus && v != me && Light(s, v) > 0 && Ahead(s, q, a, b)
    requires a != Line(s, v, Victimised(s, v))[0]
    ensures Ahead(MoveOne(s, v, me), q, a, b)
  {
    var r := Slot(v, Victimised(s, v));
    var p := s.slots[r][0];
    OneLine(s, r, p);
    LeaveKeeps(s, r);
    LeaveKeepsAhead(s, r, q, a, b);
    var mid := Leave(s, r);
    OneLine(mid, q, a);
    OneLine(mid, q, b);
    ArriveKeepsAhead(mid, p, me, q, a, b);
  }
}
