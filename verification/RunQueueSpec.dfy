/** The scheduler's run queues as values: what sched_enqueue, sched_dequeue and sched_steal do to
    the order in which processes wait, and what holds over every run of them. */
module RunQueueSpec {
  import opened RedBlack

  datatype Class = Rt | Intr | Batch
  datatype Pcb = Pcb(cls: Class, priority: int, cpu: nat)
  datatype Next = Idle | Process(id: nat)

  const MAX_CPUS := 64
  const MAX_PROCS := 4096
  const STEAL_THRESHOLD := 2

  /** slots[3 * cpu + rank] is the waiting line of one class on one CPU, first to run first.
      arrived[p] is the moment p joined the line it stands in. */
  datatype Queues = Queues(cpus: nat, slots: seq<seq<nat>>, pcbs: seq<Pcb>, arrived: seq<nat>, now: nat)

  function Rank(c: Class): nat { match c case Rt => 0 case Intr => 1 case Batch => 2 }
  function Slot(cpu: nat, c: Class): nat { 3 * cpu + Rank(c) }
  function PrioOf(pcbs: seq<Pcb>): nat -> int { (p: nat) => if p < |pcbs| then pcbs[p].priority else 0 }

  /** Lower priority number first; among equals, the earlier arrival. */
  predicate Earlier(s: Queues, a: nat, b: nat)
    requires a < |s.pcbs| == |s.arrived| && b < |s.pcbs|
  {
    || s.pcbs[a].priority < s.pcbs[b].priority
    || (s.pcbs[a].priority == s.pcbs[b].priority && s.arrived[a] < s.arrived[b])
  }

  predicate Sized(s: Queues) {
    && 0 < s.cpus <= MAX_CPUS && |s.slots| == 3 * s.cpus && |s.arrived| == |s.pcbs| <= MAX_PROCS + 1
  }

  /** Everyone in line q belongs there: the process names the class and the CPU of the line. */
  predicate Belongs(s: Queues, q: nat, p: nat)
    requires Sized(s)
  {
    p < |s.pcbs| && Slot(s.pcbs[p].cpu, s.pcbs[p].cls) == q && s.arrived[p] < s.now
  }

  ghost predicate LineOk(s: Queues, q: nat)
    requires Sized(s) && q < |s.slots|
  {
    && (forall i :: 0 <= i < |s.slots[q]| ==> Belongs(s, q, s.slots[q][i]))
    && (forall i, j :: 0 <= i < j < |s.slots[q]| ==> Earlier(s, s.slots[q][i], s.slots[q][j]))
  }

  ghost predicate Ok(s: Queues) {
    Sized(s) && forall q :: 0 <= q < |s.slots| ==> LineOk(s, q)
  }

  predicate Waits(s: Queues, q: nat, p: nat)
    requires q < |s.slots|
  {
    p in s.slots[q]
  }

  ghost predicate Queued(s: Queues, p: nat) {
    exists q: nat :: q < |s.slots| && Waits(s, q, p)
  }

  lemma OneLine(s: Queues, q: nat, p: nat)
    requires Ok(s) && q < |s.slots| && Waits(s, q, p)
    ensures Belongs(s, q, p) && Queued(s, p)
  {
    assert LineOk(s, q);
  }

  // ---- Joining and leaving a line ----------------------------------------------------------------

  /** In front of the first strictly larger key. */
  function Place(line: seq<nat>, z: nat, prio: nat -> int): seq<nat> {
    if line == [] || prio(z) < prio(line[0]) then [z] + line
    else [line[0]] + Place(line[1..], z, prio)
  }

  function PlaceIndex(line: seq<nat>, z: nat, prio: nat -> int): (k: nat)
    ensures k <= |line|
  {
    if line == [] || prio(z) < prio(line[0]) then 0 else 1 + PlaceIndex(line[1..], z, prio)
  }

  lemma {:induction false} PlaceSplits(line: seq<nat>, z: nat, prio: nat -> int)
    ensures var k := PlaceIndex(line, z, prio);
      && Place(line, z, prio) == line[..k] + [z] + line[k..]
      && AllAtMost(line[..k], prio(z), prio) && (k < |line| ==> prio(z) < prio(line[k]))
    decreases line
  {
    if line != [] && prio(z) >= prio(line[0]) {
      PlaceSplits(line[1..], z, prio);
      var k, j := PlaceIndex(line, z, prio), PlaceIndex(line[1..], z, prio);
      assert line[..k] == [line[0]] + line[1..][..j] && line[k..] == line[1..][j..];
    }
  }

  /** The tree's insertion is this insertion into the line. */
  lemma InsertIsPlace(t: Tree, z: nat, prio: nat -> int)
    requires Sorted(InOrder(t), prio)
    ensures InOrder(Insert(t, z, prio(z), prio)) == Place(InOrder(t), z, prio)
  {
    var line := InOrder(t);
    InsertOrder(t, z, prio(z), prio);
    var k: nat :| SplitAt(line, k, prio(z), prio)
      && InOrder(Insert(t, z, prio(z), prio)) == line[..k] + [z] + line[k..];
    PlaceSplits(line, z, prio);
    var j := PlaceIndex(line, z, prio);
    SplitUnique(line, j, k, prio(z), prio);
  }

  lemma SplitUnique(line: seq<nat>, j: nat, k: nat, key: int, prio: nat -> int)
    requires j <= |line| && AllAtMost(line[..j], key, prio) && (j < |line| ==> key < prio(line[j]))
    requires SplitAt(line, k, key, prio)
    ensures j == k
  {
    forall i | 0 <= i < j
      ensures prio(line[i]) <= key
    {
      assert line[..j][i] == line[i];
    }
    forall i | 0 <= i < |line|
      ensures if i < k then prio(line[i]) <= key else key < prio(line[i])
    {
      assert if i < k then line[..k][i] == line[i] else line[k..][i - k] == line[i];
    }
    if k < |line| {
      assert key < prio(line[k]);
    }
  }

  function Arrive(s: Queues, p: nat, cpu: nat): Queues
    requires Sized(s) && p < |s.pcbs| && cpu < s.cpus
  {
    var pcbs := s.pcbs[p := s.pcbs[p].(cpu := cpu)];
    var q := Slot(cpu, s.pcbs[p].cls);
    s.(slots := s.slots[q := Place(s.slots[q], p, PrioOf(pcbs))], pcbs := pcbs,
       arrived := s.arrived[p := s.now], now := s.now + 1)
  }

  function Leave(s: Queues, q: nat): Queues
    requires q < |s.slots| && s.slots[q] != []
  {
    s.(slots := s.slots[q := s.slots[q][1..]])
  }

  lemma ArriveKeeps(s: Queues, p: nat, cpu: nat)
    requires Ok(s) && p < |s.pcbs| && cpu < s.cpus && !Queued(s, p)
    ensures Ok(Arrive(s, p, cpu))
  {
    var s' := Arrive(s, p, cpu);
    var home := Slot(cpu, s.pcbs[p].cls);
    forall q | 0 <= q < |s'.slots|
      ensures LineOk(s', q)
    {
      assert LineOk(s, q);
      assert !Waits(s, q, p);
      if q == home {
        ArriveHome(s, p, cpu);
      } else {
        LineSame(s, s', q);
      }
    }
  }

  /** A line none of whose members changed is as good as before. */
  lemma LineSame(s: Queues, s': Queues, q: nat)
    requires Sized(s) && Sized(s') && |s'.pcbs| == |s.pcbs| && |s'.slots| == |s.slots| && s.now <= s'.now
    requires q < |s.slots|
    requires LineOk(s, q) && s'.slots[q] == s.slots[q]
    requires forall i :: 0 <= i < |s.slots[q]| ==> Same(s, s', s.slots[q][i])
    ensures LineOk(s', q)
  {
    var line := s.slots[q];
    forall i | 0 <= i < |line|
      ensures Belongs(s', q, line[i])
    {
      assert Belongs(s, q, line[i]) && Same(s, s', line[i]);
    }
    forall i, j | 0 <= i < j < |line|
      ensures Earlier(s', line[i], line[j])
    {
      assert Belongs(s, q, line[i]) && Same(s, s', line[i]) && Belongs(s, q, line[j]) && Same(s, s', line[j]);
    }
  }

  predicate Same(s: Queues, s': Queues, p: nat) {
    && p < |s.pcbs| && |s.pcbs| == |s'.pcbs| == |s.arrived| == |s'.arrived|
    && s'.pcbs[p] == s.pcbs[p] && s'.arrived[p] == s.arrived[p]
  }

  /** The newcomer stands behind every key not above its own, which all arrived before. */
  lemma ArriveHome(s: Queues, p: nat, cpu: nat)
    requires Sized(s) && p < |s.pcbs| && cpu < s.cpus
    requires var q := Slot(cpu, s.pcbs[p].cls); LineOk(s, q) && !Waits(s, q, p)
    ensures LineOk(Arrive(s, p, cpu), Slot(cpu, s.pcbs[p].cls))
  {
    var s', q := Arrive(s, p, cpu), Slot(cpu, s.pcbs[p].cls);
    var line, prio := s.slots[q], PrioOf(s'.pcbs);
    PlaceSplits(line, p, prio);
    var k := PlaceIndex(line, p, prio);
    forall i | 0 <= i < |line|
      ensures Beside(s, s', q, p, line[i], i < k)
    {
      Neighbour(s, p, cpu, q, k, i);
    }
    JoinedLine(s, s', q, p, k);
  }

  /** x, of line q, is untouched and stands before or after p. */
  predicate Beside(s: Queues, s': Queues, q: nat, p: nat, x: nat, before: bool)
    requires Sized(s') && p < |s'.pcbs|
  {
    Belongs(s', q, x) && Same(s, s', x) && if before then Earlier(s', x, p) else Earlier(s', p, x)
  }

  lemma Neighbour(s: Queues, p: nat, cpu: nat, q: nat, k: nat, i: nat)
    requires Sized(s) && p < |s.pcbs| && cpu < s.cpus && q == Slot(cpu, s.pcbs[p].cls) && LineOk(s, q)
    requires !Waits(s, q, p)
    requires i < |s.slots[q]| && k <= |s.slots[q]|
    requires var prio := PrioOf(Arrive(s, p, cpu).pcbs);
      AllAtMost(s.slots[q][..k], prio(p), prio) && (k < |s.slots[q]| ==> prio(p) < prio(s.slots[q][k]))
    ensures Beside(s, Arrive(s, p, cpu), q, p, s.slots[q][i], i < k)
  {
    var line := s.slots[q];
    assert Belongs(s, q, line[i]) && line[i] != p;
    if i < k {
      assert line[..k][i] == line[i];
    } else if i > k {
      assert Belongs(s, q, line[k]) && line[k] != p && Earlier(s, line[k], line[i]);
    }
  }

  lemma JoinedLine(s: Queues, s': Queues, q: nat, p: nat, k: nat)
    requires Sized(s) && Sized(s') && q < |s.slots| == |s'.slots| && k <= |s.slots[q]| && LineOk(s, q)
    requires Belongs(s', q, p)
    requires s'.slots[q] == s.slots[q][..k] + [p] + s.slots[q][k..]
    requires forall i :: 0 <= i < |s.slots[q]| ==> Beside(s, s', q, p, s.slots[q][i], i < k)
    ensures LineOk(s', q)
  {
    var line, line' := s.slots[q], s'.slots[q];
    assert forall i :: 0 <= i < |line'| ==> line'[i] == if i < k then line[i] else if i == k then p else line[i - 1];
    forall i, j | 0 <= i < j < |line'|
      ensures Earlier(s', line'[i], line'[j])
    {
      if i != k && j != k {
        var a, b := if i < k then i else i - 1, if j < k then j else j - 1;
        assert Earlier(s, line[a], line[b]) && Same(s, s', line[a]) && Same(s, s', line[b]);
      }
    }
  }

  lemma LeaveKeeps(s: Queues, q: nat)
    requires Ok(s) && q < |s.slots| && s.slots[q] != []
    ensures Ok(Leave(s, q)) && !Queued(Leave(s, q), s.slots[q][0])
  {
    var s', p := Leave(s, q), s.slots[q][0];
    forall r | 0 <= r < |s'.slots|
      ensures LineOk(s', r) && !Waits(s', r, p)
    {
      LeaveLine(s, q, r);
    }
  }

  lemma LeaveLine(s: Queues, q: nat, r: nat)
    requires Ok(s) && q < |s.slots| && s.slots[q] != [] && r < |s.slots|
    ensures var s' := Leave(s, q); Sized(s') && LineOk(s', r) && !Waits(s', r, s.slots[q][0])
  {
    var s', p := Leave(s, q), s.slots[q][0];
    assert LineOk(s, r) && LineOk(s, q);
    if r == q {
      var line := s'.slots[q];
      forall i | 0 <= i < |line|
        ensures Belongs(s', q, line[i]) && line[i] != p
      {
        assert line[i] == s.slots[q][i + 1] && Belongs(s, q, s.slots[q][i + 1]) && Earlier(s, p, s.slots[q][i + 1]);
      }
      forall i, j | 0 <= i < j < |line|
        ensures Earlier(s', line[i], line[j])
      {
        assert Earlier(s, s.slots[q][i + 1], s.slots[q][j + 1]);
      }
    } else {
      assert Belongs(s, q, p);
      forall i | 0 <= i < |s.slots[r]|
        ensures s.slots[r][i] != p && Same(s, s', s.slots[r][i])
      {
        assert Belongs(s, r, s.slots[r][i]);
      }
      LineSame(s, s', r);
    }
  }

  // ---- The three operations ------------------------------------------------------------------------

  function Line(s: Queues, cpu: nat, c: Class): seq<nat>
    requires Sized(s) && cpu < s.cpus
  {
    s.slots[Slot(cpu, c)]
  }

  function Load(s: Queues, cpu: nat): nat
    requires Sized(s) && cpu < s.cpus
  {
    |Line(s, cpu, Rt)| + |Line(s, cpu, Intr)| + |Line(s, cpu, Batch)|
  }

  /** The load that stealing looks at. */
  function Light(s: Queues, cpu: nat): nat
    requires Sized(s) && cpu < s.cpus
  {
    |Line(s, cpu, Intr)| + |Line(s, cpu, Batch)|
  }

  /** The first CPU of smallest load among the first n. */
  function LeastLoaded(s: Queues, n: nat): (r: nat)
    requires Sized(s) && 0 < n <= s.cpus
    ensures r < n
  {
    if n == 1 then 0
    else
      var r := LeastLoaded(s, n - 1);
      if Load(s, n - 1) < Load(s, r) then n - 1 else r
  }

  lemma {:induction false} LeastLoadedIsLeast(s: Queues, n: nat, i: nat)
    requires Sized(s) && i < n <= s.cpus
    ensures var r := LeastLoaded(s, n); Load(s, r) <= Load(s, i) && (i < r ==> Load(s, r) < Load(s, i))
    decreases n
  {
    if n > 1 {
      LeastLoadedIsLeast(s, n - 1, if i == n - 1 then 0 else i);
    }
  }

  /** The largest stealable load on a CPU other than `me` among the first n, and the first such CPU. */
  function Busiest(s: Queues, me: nat, n: nat): (r: (nat, nat))
    requires Sized(s) && n <= s.cpus
    ensures r.1 > 0 ==> r.0 < n && r.0 != me && Light(s, r.0) == r.1
  {
    if n == 0 then (0, 0)
    else
      var r := Busiest(s, me, n - 1);
      if n - 1 != me && Light(s, n - 1) > r.1 then (n - 1, Light(s, n - 1)) else r
  }

  lemma {:induction false} BusiestIsBusiest(s: Queues, me: nat, n: nat, i: nat)
    requires Sized(s) && i < n <= s.cpus && i != me
    ensures var r := Busiest(s, me, n); Light(s, i) <= r.1 && (i < r.0 && r.1 > 0 ==> Light(s, i) < r.1)
    decreases n
  {
    if i < n - 1 {
      BusiestIsBusiest(s, me, n - 1, i);
    }
  }

  function Target(s: Queues, p: nat): (cpu: nat)
    requires Sized(s) && p < |s.pcbs|
    ensures cpu < s.cpus
  {
    if s.pcbs[p].cpu < s.cpus then s.pcbs[p].cpu else LeastLoaded(s, s.cpus)
  }

  function Enqueue(s: Queues, p: nat): Queues
    requires Sized(s) && p < |s.pcbs|
  {
    Arrive(s, p, Target(s, p))
  }

  function Picked(s: Queues, cpu: nat): Next
    requires Sized(s) && cpu < s.cpus
  {
    if Line(s, cpu, Rt) != [] then Process(Line(s, cpu, Rt)[0])
    else if Line(s, cpu, Intr) != [] then Process(Line(s, cpu, Intr)[0])
    else if Line(s, cpu, Batch) != [] then Process(Line(s, cpu, Batch)[0])
    else Idle
  }

  function Dequeue(s: Queues, cpu: nat): Queues
    requires Sized(s) && cpu < s.cpus
  {
    if Line(s, cpu, Rt) != [] then Leave(s, Slot(cpu, Rt))
    else if Line(s, cpu, Intr) != [] then Leave(s, Slot(cpu, Intr))
    else if Line(s, cpu, Batch) != [] then Leave(s, Slot(cpu, Batch))
    else s
  }

  /** a runs before b: more urgent class, then smaller key, then earlier arrival. */
  predicate RunsBefore(s: Queues, a: nat, b: nat)
    requires a < |s.pcbs| == |s.arrived| && b < |s.pcbs|
  {
    || Rank(s.pcbs[a].cls) < Rank(s.pcbs[b].cls)
    || (s.pcbs[a].cls == s.pcbs[b].cls && Earlier(s, a, b))
  }

  predicate WaitsOn(s: Queues, cpu: nat, p: nat)
    requires Sized(s) && cpu < s.cpus
  {
    p in Line(s, cpu, Rt) || p in Line(s, cpu, Intr) || p in Line(s, cpu, Batch)
  }

  /** sched_dequeue takes exactly the process that runs before all others waiting on the CPU, and
      hands out the idle process exactly when none waits. */
  lemma DequeuePicksFirst(s: Queues, cpu: nat)
    requires Ok(s) && cpu < s.cpus
    ensures Picked(s, cpu).Idle? <==> forall p: nat :: !WaitsOn(s, cpu, p)
    ensures Picked(s, cpu).Process? ==> First(s, cpu, Picked(s, cpu).id)
    ensures Ok(Dequeue(s, cpu)) && Dequeue(s, cpu).pcbs == s.pcbs
    ensures forall p: nat :: Queued(Dequeue(s, cpu), p) <==> Queued(s, p) && Picked(s, cpu) != Process(p)
  {
    var r, i, b := Slot(cpu, Rt), Slot(cpu, Intr), Slot(cpu, Batch);
    assert LineOk(s, r) && LineOk(s, i) && LineOk(s, b);
    if s.slots[r] != [] {
      HeadFirst(s, cpu, Rt);
      LeaveQueued(s, r);
    } else if s.slots[i] != [] {
      HeadFirst(s, cpu, Intr);
      LeaveQueued(s, i);
    } else if s.slots[b] != [] {
      HeadFirst(s, cpu, Batch);
      LeaveQueued(s, b);
    }
  }

  ghost predicate First(s: Queues, cpu: nat, p: nat)
    requires Ok(s) && cpu < s.cpus
  {
    && p < |s.pcbs| && WaitsOn(s, cpu, p)
    && forall x: nat :: WaitsOn(s, cpu, x) && x != p ==> x < |s.pcbs| && RunsBefore(s, p, x)
  }

  lemma HeadFirst(s: Queues, cpu: nat, c: Class)
    requires Ok(s) && cpu < s.cpus && Line(s, cpu, c) != []
    requires c == Rt || Line(s, cpu, Rt) == []
    requires c == Batch ==> Line(s, cpu, Intr) == []
    ensures First(s, cpu, Line(s, cpu, c)[0])
  {
    var line := Line(s, cpu, c);
    assert LineOk(s, Slot(cpu, c)) && LineOk(s, Slot(cpu, Intr)) && LineOk(s, Slot(cpu, Batch));
    assert Belongs(s, Slot(cpu, c), line[0]);
    forall x: nat | WaitsOn(s, cpu, x) && x != line[0]
      ensures x < |s.pcbs| && RunsBefore(s, line[0], x)
    {
      if x in line {
        var k :| 0 <= k < |line| && line[k] == x;
        assert Belongs(s, Slot(cpu, c), line[k]) && Earlier(s, line[0], line[k]);
      } else if x in Line(s, cpu, Intr) {
        OneLine(s, Slot(cpu, Intr), x);
      } else {
        OneLine(s, Slot(cpu, Batch), x);
      }
    }
  }

  lemma LeaveQueued(s: Queues, q: nat)
    requires Ok(s) && q < |s.slots| && s.slots[q] != []
    ensures Ok(Leave(s, q))
    ensures forall p: nat :: Queued(Leave(s, q), p) <==> Queued(s, p) && p != s.slots[q][0]
  {
    LeaveKeeps(s, q);
    var s' := Leave(s, q);
    forall p: nat
      ensures Queued(s', p) <==> Queued(s, p) && p != s.slots[q][0]
    {
      if Queued(s, p) && p != s.slots[q][0] {
        var r: nat :| r < |s.slots| && Waits(s, r, p);
        assert Waits(s', r, p);
      }
      if Queued(s', p) {
        var r: nat :| r < |s'.slots| && Waits(s', r, p);
        assert Waits(s, r, p);
      }
    }
  }

  /** The CPU the process names, if there is one of that number; else the first one that no other
      undercuts. */
  ghost predicate HomeFor(s: Queues, p: nat, c: nat) {
    && Sized(s) && p < |s.pcbs| && c < s.cpus
    && if s.pcbs[p].cpu < s.cpus then c == s.pcbs[p].cpu
       else forall i :: 0 <= i < s.cpus ==> Load(s, c) <= Load(s, i) && (i < c ==> Load(s, c) < Load(s, i))
  }

  /** sched_enqueue puts the process on its home CPU, into the line of its class, behind every key not
      above its own; nothing else about any process or any line changes. */
  lemma EnqueueGoesHome(s: Queues, p: nat)
    requires Ok(s) && p < |s.pcbs| && !Queued(s, p)
    ensures var r := Enqueue(s, p);
      var c := r.pcbs[p].cpu;
      && HomeFor(s, p, c) && Ok(r) && r.cpus == s.cpus && r.pcbs == s.pcbs[p := s.pcbs[p].(cpu := c)]
      && exists k :: JoinsAt(s, r, Slot(c, s.pcbs[p].cls), p, k)
  {
    var c, r := Target(s, p), Enqueue(s, p);
    ArriveKeeps(s, p, c);
    forall i | 0 <= i < s.cpus && s.pcbs[p].cpu >= s.cpus
      ensures Load(s, c) <= Load(s, i) && (i < c ==> Load(s, c) < Load(s, i))
    {
      LeastLoadedIsLeast(s, s.cpus, i);
    }
    var q := Slot(c, s.pcbs[p].cls);
    PlaceSplits(s.slots[q], p, PrioOf(r.pcbs));
    assert JoinsAt(s, r, q, p, PlaceIndex(s.slots[q], p, PrioOf(r.pcbs)));
  }

  /** Line q of r is that of s with p at position k, in front of the first larger key; other lines are equal. */
  ghost predicate JoinsAt(s: Queues, r: Queues, q: nat, p: nat, k: nat) {
    && q < |s.slots| == |r.slots| && k <= |s.slots[q]|
    && r.slots == s.slots[q := s.slots[q][..k] + [p] + s.slots[q][k..]]
    && (forall i :: 0 <= i < k ==> PrioOf(s.pcbs)(s.slots[q][i]) <= PrioOf(s.pcbs)(p))
    && (k < |s.slots[q]| ==> PrioOf(s.pcbs)(p) < PrioOf(s.pcbs)(s.slots[q][k]))
  }

  lemma {:induction false} PlaceMembers(line: seq<nat>, z: nat, prio: nat -> int, p: nat)
    ensures p in Place(line, z, prio) <==> p in line || p == z
    ensures |Place(line, z, prio)| == |line| + 1
  {
    PlaceSplits(line, z, prio);
    var k := PlaceIndex(line, z, prio);
    assert line == line[..k] + line[k..];
  }

  lemma ArriveQueued(s: Queues, p: nat, cpu: nat)
    requires Ok(s) && p < |s.pcbs| && cpu < s.cpus && !Queued(s, p)
    ensures Ok(Arrive(s, p, cpu))
    ensures forall x: nat :: Queued(Arrive(s, p, cpu), x) <==> Queued(s, x) || x == p
  {
    ArriveKeeps(s, p, cpu);
    var s', q := Arrive(s, p, cpu), Slot(cpu, s.pcbs[p].cls);
    forall x: nat
      ensures Queued(s', x) <==> Queued(s, x) || x == p
    {
      PlaceMembers(s.slots[q], p, PrioOf(s'.pcbs), x);
      if Queued(s, x) {
        var r: nat :| r < |s.slots| && Waits(s, r, x);
        assert Waits(s', r, x);
      }
      if Queued(s', x) {
        var r: nat :| r < |s'.slots| && Waits(s', r, x);
        assert r == q || Waits(s, r, x);
        assert r == q && x != p ==> Waits(s, q, x);
      }
      assert Waits(s', q, p) by {
        PlaceMembers(s.slots[q], p, PrioOf(s'.pcbs), p);
      }
    }
  }
}
