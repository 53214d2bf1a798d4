/** The run queues as the kernel keeps them: one pool of linked tree nodes, and per CPU three tree
    roots with their counts.  Every operation is proved to do what its counterpart on waiting
    lines does. */
module RunQueue {
  import opened Finite
  import opened RedBlack
  import opened RbLinks
  import opened RbTree
  import opened RunQueueSpec
  import opened RunQueueRuns

  predicate Shown(k: nat) { true }

  function Lines(trees: seq<Tree>): seq<seq<nat>> {
    seq(|trees|, i requires 0 <= i < |trees| => InOrder(trees[i]))
  }

  ghost predicate Planted(ns: Nodes, root: Ptr, count: nat, t: Tree) {
    Shape(ns, root, Top, t) && count == |InOrder(t)|
  }

  ghost predicate Linked(ns: Nodes, roots: seq<Ptr>, counts: seq<nat>, trees: seq<Tree>) {
    && |roots| == |counts| == |trees|
    && forall q :: 0 <= q < |trees| ==> Planted(ns, roots[q], counts[q], trees[q])
  }

  lemma {:induction false} IdsAreMembers(t: Tree, x: nat)
    ensures x in Ids(t) <==> x in InOrder(t)
  {
    if t.Node? {
      IdsAreMembers(t.left, x);
      IdsAreMembers(t.right, x);
    }
  }

  /** Different lines hold different nodes. */
  lemma TreesApart(s: Queues, trees: seq<Tree>, q: nat, r: nat)
    requires Ok(s) && s.slots == Lines(trees) && q < |trees| && r < |trees| && q != r
    ensures Ids(trees[q]) !! Ids(trees[r])
  {
    forall x | x in Ids(trees[q])
      ensures x !in Ids(trees[r])
    {
      IdsAreMembers(trees[q], x);
      IdsAreMembers(trees[r], x);
      OneLine(s, q, x);
      if Waits(s, r, x) {
        OneLine(s, r, x);
      }
    }
  }

  lemma NotInAnyTree(s: Queues, trees: seq<Tree>, p: nat)
    requires s.slots == Lines(trees) && !Queued(s, p)
    ensures forall q :: 0 <= q < |trees| ==> p !in Ids(trees[q])
  {
    forall q | 0 <= q < |trees|
      ensures p !in Ids(trees[q])
    {
      IdsAreMembers(trees[q], p);
      assert !Waits(s, q, p);
    }
  }

  /** Rewriting the nodes of one tree leaves the others planted. */
  lemma Replant(ns: Nodes, ns': Nodes, roots: seq<Ptr>, counts: seq<nat>, trees: seq<Tree>, q: nat, root: Ptr,
                count: nat, t: Tree, ids: set<nat>)
    requires Linked(ns, roots, counts, trees) && q < |trees| && Planted(ns', root, count, t) && Touches(ns, ns', ids)
    requires forall r :: 0 <= r < |trees| && r != q ==> Ids(trees[r]) !! ids
    ensures Linked(ns', roots[q := root], counts[q := count], trees[q := t])
  {
    forall r | 0 <= r < |trees| && r != q
      ensures Planted(ns', roots[r], counts[r], trees[r])
    {
      assert Planted(ns, roots[r], counts[r], trees[r]);
      OutsideFrame(ns, ns', roots[r], Top, trees[r]);
    }
  }

  lemma LineSorted(s: Queues, q: nat, pcbs: seq<Pcb>)
    requires Ok(s) && q < |s.slots| && |pcbs| == |s.pcbs|
    requires forall i :: 0 <= i < |pcbs| ==> pcbs[i].priority == s.pcbs[i].priority
    ensures Sorted(s.slots[q], PrioOf(pcbs))
  {
    assert LineOk(s, q);
    var line := s.slots[q];
    forall i, j | 0 <= i < j < |line|
      ensures PrioOf(pcbs)(line[i]) <= PrioOf(pcbs)(line[j])
    {
      assert Belongs(s, q, line[i]) && Belongs(s, q, line[j]) && Earlier(s, line[i], line[j]);
    }
  }

  /** The counts are the lengths of the lines. */
  ghost predicate Counted(s: Queues, cpus: nat, counts: seq<nat>) {
    Sized(s) && cpus == s.cpus && |counts| == |s.slots| && forall q :: 0 <= q < |counts| ==> counts[q] == |s.slots[q]|
  }

  class Scheduler {
    const pool: NodePool
    var cpus: nat
    var pcbs: seq<Pcb>
    var roots: seq<Ptr>
    var counts: seq<nat>
    ghost var trees: seq<Tree>
    ghost var arrived: seq<nat>
    ghost var now: nat

    ghost function View(): Queues
      reads this
    {
      Queues(cpus, Lines(trees), pcbs, arrived, now)
    }

    ghost predicate Valid()
      reads this, pool
    {
      Linked(pool.nodes, roots, counts, trees) && |pool.nodes| == |pcbs| && Ok(View())
    }

    /** sched_init: empty lines on every CPU. */
    constructor (cpuCount: nat, procs: seq<Pcb>)
      requires 0 < cpuCount && |procs| <= MAX_PROCS + 1
      ensures Valid() && fresh(pool) && pcbs == procs && cpus == if cpuCount > MAX_CPUS then MAX_CPUS else cpuCount
      ensures View().slots == seq(3 * cpus, _ => [])
    {
      pool := new NodePool(|procs|);
      var n := if cpuCount > MAX_CPUS then MAX_CPUS else cpuCount;
      cpus, pcbs := n, procs;
      roots, counts := seq(3 * n, _ => Null), seq(3 * n, _ => 0);
      trees := seq(3 * n, _ => Nil);
      arrived := seq(|procs|, _ => 0);
      now := 0;
    }

    /** Put p, which waits nowhere, on the given CPU. */
    method Admit(p: nat, cpu: nat)
      requires Valid() && p < |pcbs| && cpu < cpus && !Queued(View(), p)
      modifies this, pool
      ensures Valid() && View() == Arrive(old(View()), p, cpu)
    {
      ghost var s := View();
      ArriveKeeps(s, p, cpu);
      NotInAnyTree(s, trees, p);
      pcbs := pcbs[p := pcbs[p].(cpu := cpu)];
      var q := Slot(cpu, pcbs[p].cls);
      LineSorted(s, q, pcbs);
      InsertIsPlace(trees[q], p, PrioOf(pcbs));
      PlaceMembers(s.slots[q], p, PrioOf(pcbs), p);
      Graft(q, p, s);
      arrived, now := arrived[p := now], now + 1;
      assert View() == Arrive(s, p, cpu);
    }

    method Graft(q: nat, p: nat, ghost s: Queues)
      requires Linked(pool.nodes, roots, counts, trees) && Ok(s) && s.slots == Lines(trees) && q < |trees|
      requires p < |pool.nodes| == |pcbs| && forall r :: 0 <= r < |trees| ==> p !in Ids(trees[r])
      requires var t := RedBlack.Insert(trees[q], p, pcbs[p].priority, PrioOf(pcbs));
        |InOrder(t)| == |InOrder(trees[q])| + 1
      modifies this`roots, this`counts, this`trees, pool
      ensures Linked(pool.nodes, roots, counts, trees) && |pool.nodes| == old(|pool.nodes|)
      ensures trees == old(trees)[q := RedBlack.Insert(old(trees)[q], p, pcbs[p].priority, PrioOf(pcbs))]
    {
      assert Planted(pool.nodes, roots[q], counts[q], trees[q]);
      ghost var ids := Ids(trees[q]) + {p};
      forall r | 0 <= r < |trees| && r != q
        ensures Ids(trees[r]) !! ids
      {
        TreesApart(s, trees, r, q);
      }
      ghost var before := pool.nodes;
      var root := pool.Insert(roots[q], p, pcbs[p].priority, PrioOf(pcbs), trees[q]);
      ghost var t := RedBlack.Insert(trees[q], p, pcbs[p].priority, PrioOf(pcbs));
      Replant(before, pool.nodes, roots, counts, trees, q, root, counts[q] + 1, t, ids);
      roots, counts, trees := roots[q := root], counts[q := counts[q] + 1], trees[q := t];
    }

    /** rb_leftmost of line q. */
    method Head(q: nat) returns (p: nat)
      requires Valid() && q < |counts| && counts[q] > 0
      ensures View().slots[q] != [] && p == View().slots[q][0]
    {
      assert Planted(pool.nodes, roots[q], counts[q], trees[q]);
      var n := pool.Leftmost(roots[q], trees[q]);
      p := n.id;
    }

    /** rb_remove_node of the first process of line q. */
    method Expel(q: nat, p: nat)
      requires Valid() && q < |counts| && View().slots[q] != [] && p == View().slots[q][0]
      modifies this`roots, this`counts, this`trees, pool
      ensures Valid() && View() == Leave(old(View()), q)
    {
      ghost var s := View();
      LeaveKeeps(s, q);
      assert Planted(pool.nodes, roots[q], counts[q], trees[q]);
      ghost var c, sub, t := MinCtx(trees[q], Top), MinSub(trees[q]), trees[q];
      FocusMin(pool.nodes, roots[q], Top, t);
      MinCtxIds(t, Top);
      MinPlug(t, Top);
      MinFirst(t);
      forall r | 0 <= r < |trees| && r != q
        ensures Ids(trees[r]) !! Ids(t)
      {
        TreesApart(s, trees, r, q);
      }
      ghost var before := pool.nodes;
      var root := pool.RemoveNode(roots[q], p, c, sub);
      Replant(before, pool.nodes, roots, counts, trees, q, root, counts[q] - 1, Blacken(WithoutMin(t)), Ids(t));
      roots, counts, trees := roots[q := root], counts[q := counts[q] - 1], trees[q := Blacken(WithoutMin(t))];
      assert View() == Leave(s, q);
    }

    /** sched_enqueue: the process's own CPU if it names one, else the first least loaded. */
    method Enqueue(p: nat)
      requires Valid() && p < |pcbs| && !Queued(View(), p)
      modifies this, pool
      ensures Valid() && View() == RunQueueSpec.Enqueue(old(View()), p) && HomeFor(old(View()), p, pcbs[p].cpu)
    {
      EnqueueGoesHome(View(), p);
      var cpu := pcbs[p].cpu;
      if cpu >= cpus {
        CountsFit();
        cpu := FindLeastLoaded(View());
      }
      Admit(p, cpu);
    }

    method FindLeastLoaded(ghost s: Queues) returns (cpu: nat)
      requires Counted(s, cpus, counts) && forall i :: 0 <= i < cpus ==> Load(s, i) < 0xFFFF_FFFF
      ensures cpu == LeastLoaded(s, cpus)
    {
      var minLoad := 0xFFFF_FFFF;
      cpu := 0;
      for i := 0 to cpus
        invariant i == 0 ==> cpu == 0 && minLoad == 0xFFFF_FFFF
        invariant i > 0 ==> cpu == LeastLoaded(s, i) && minLoad == Load(s, cpu)
      {
        var load := counts[Slot(i, Rt)] + counts[Slot(i, Intr)] + counts[Slot(i, Batch)];
        assert load == Load(s, i);
        if load < minLoad {
          minLoad, cpu := load, i;
        }
      }
    }

    lemma CountsFit()
      requires Valid()
      ensures Counted(View(), cpus, counts) && forall i :: 0 <= i < cpus ==> Load(View(), i) < 0xFFFF_FFFF
    {
      forall q | 0 <= q < |counts|
        ensures counts[q] == |View().slots[q]|
      {
        assert Planted(pool.nodes, roots[q], counts[q], trees[q]);
      }
      forall i | 0 <= i < cpus
        ensures Load(View(), i) < 0xFFFF_FFFF
      {
        LoadFits(View(), i);
      }
    }

    /** sched_dequeue. */
    method Dequeue(cpu: nat) returns (next: Next)
      requires Valid() && cpu < cpus
      modifies this`roots, this`counts, this`trees, pool
      ensures Valid() && View() == RunQueueSpec.Dequeue(old(View()), cpu) && next == Picked(old(View()), cpu)
    {
      CountsFit();
      next := Idle;
      if counts[Slot(cpu, Rt)] > 0 {
        var p := Head(Slot(cpu, Rt));
        Expel(Slot(cpu, Rt), p);
        next := Process(p);
      } else if counts[Slot(cpu, Intr)] > 0 {
        var p := Head(Slot(cpu, Intr));
        Expel(Slot(cpu, Intr), p);
        next := Process(p);
      } else if counts[Slot(cpu, Batch)] > 0 {
        var p := Head(Slot(cpu, Batch));
        Expel(Slot(cpu, Batch), p);
        next := Process(p);
      }
    }

    /** sched_steal. */
    method Steal(me: nat)
      requires Valid() && me < cpus
      modifies this, pool
      ensures Valid() && View() == RunQueueRuns.Steal(old(View()), me)
    {
      ghost var s := View();
      CountsFit();
      var victim, maxLoad := FindBusiest(me, s);
      var myLoad := counts[Slot(me, Intr)] + counts[Slot(me, Batch)];
      assert myLoad == Light(s, me);
      if maxLoad > myLoad + STEAL_THRESHOLD {
        var toMove := (counts[Slot(victim, Intr)] + counts[Slot(victim, Batch)]) / 2;
        assert toMove == Light(s, victim) / 2;
        TransferMany(victim, me, toMove);
      }
    }

    method FindBusiest(me: nat, ghost s: Queues) returns (victim: nat, maxLoad: nat)
      requires Counted(s, cpus, counts)
      ensures (victim, maxLoad) == Busiest(s, me, cpus)
    {
      victim, maxLoad := 0, 0;
      for i := 0 to cpus
        invariant (victim, maxLoad) == Busiest(s, me, i)
      {
        if i != me {
          var load := counts[Slot(i, Intr)] + counts[Slot(i, Batch)];
          assert load == Light(s, i);
          if load > maxLoad {
            maxLoad, victim := load, i;
          }
        }
      }
    }

    method TransferMany(victim: nat, me: nat, toMove: nat)
      requires Valid() && victim < cpus && me < cpus && victim != me && toMove <= Light(View(), victim)
      modifies this, pool
      ensures Valid() && View() == MoveMany(old(View()), victim, me, toMove)
    {
      ghost var goal := MoveMany(View(), victim, me, toMove);
      assert StillToMove(victim, me, toMove, goal);
      ghost var left := TransferLoop(victim, me, toMove, goal);
      assert Shown(0);
    }

    method TransferLoop(victim: nat, me: nat, toMove: nat, ghost goal: Queues) returns (ghost left: int)
      requires StillToMove(victim, me, toMove, goal)
      modifies this, pool
      ensures left == 0 && StillToMove(victim, me, left, goal)
    {
      left := toMove;
      var i := 0;
      while i < toMove
        invariant 0 <= left && i + left == toMove && StillToMove(victim, me, left, goal)
      {
        left := TransferNext(victim, me, left, goal);
        i := i + 1;
      }
    }

    method TransferNext(victim: nat, me: nat, ghost n: nat, ghost goal: Queues) returns (ghost left: nat)
      requires 0 < n && StillToMove(victim, me, n, goal)
      modifies this, pool
      ensures left == n - 1 && StillToMove(victim, me, left, goal)
    {
      left := n - 1;
      TransferLeft(victim, me, n, left, goal);
      Transfer(victim, me);
      Settle(victim, me, left, goal);
    }

    lemma TransferLeft(victim: nat, me: nat, n: nat, left: nat, goal: Queues)
      requires 0 < n && left == n - 1 && StillToMove(victim, me, n, goal)
      ensures Valid() && victim < cpus && me < cpus && victim != me && Light(View(), victim) > 0
      ensures var s := MoveOne(View(), victim, me); left <= Light(s, victim) && MoveMany(s, victim, me, left) == goal
    {
      assert Shown(0);
      MoveFirst(View(), victim, me, n, left);
    }

    lemma Settle(victim: nat, me: nat, left: nat, goal: Queues)
      requires Valid() && victim < cpus && me < cpus && victim != me
      requires left <= Light(View(), victim) && MoveMany(View(), victim, me, left) == goal
      ensures StillToMove(victim, me, left, goal)
    {
    }

    /** Moving n more processes ends in `goal`; stated behind a trigger because the loop only hands
        it on. */
    ghost predicate StillToMove(victim: nat, me: nat, n: int, goal: Queues)
      reads this, pool
    {
      forall k: nat {:trigger Shown(k)} :: Shown(k) ==>
        && Valid() && victim < cpus && me < cpus && victim != me
        && 0 <= n <= Light(View(), victim) && MoveMany(View(), victim, me, n) == goal
    }

    /** One process from the victim to this CPU, the tree chosen by the process's class. */
    method Transfer(victim: nat, me: nat)
      requires Valid() && victim < cpus && me < cpus && victim != me && Light(View(), victim) > 0
      modifies this, pool
      ensures Valid() && cpus == old(cpus) && View() == MoveOne(old(View()), victim, me)
    {
      ghost var s := View();
      CountsFit();
      var p;
      if counts[Slot(victim, Batch)] > 0 {
        p := Head(Slot(victim, Batch));
      } else {
        p := Head(Slot(victim, Intr));
      }
      ghost var q := Slot(victim, Victimised(s, victim));
      OneLine(s, q, p);
      LeaveKeeps(s, q);
      if pcbs[p].cls == Batch {
        Expel(Slot(victim, Batch), p);
      } else {
        Expel(Slot(victim, Intr), p);
      }
      Admit(p, me);
    }
  }

  lemma LoadFits(s: Queues, cpu: nat)
    requires Ok(s) && cpu < s.cpus
    ensures Load(s, cpu) < 0xFFFF_FFFF
  {
    LineShort(s, Slot(cpu, Rt));
    LineShort(s, Slot(cpu, Intr));
    LineShort(s, Slot(cpu, Batch));
  }

  lemma LineShort(s: Queues, q: nat)
    requires Ok(s) && q < |s.slots|
    ensures |s.slots[q]| <= |s.pcbs|
  {
    assert LineOk(s, q);
    var line := s.slots[q];
    forall i, j | 0 <= i < j < |line|
      ensures line[i] != line[j]
    {
      assert Earlier(s, line[i], line[j]);
    }
    forall i | 0 <= i < |line|
      ensures line[i] < |s.pcbs|
    {
      assert Belongs(s, q, line[i]);
    }
    DistinctShort(line, |s.pcbs|);
  }

  lemma {:induction false} MinPlug(t: Tree, c: Ctx)
    requires t.Node?
    ensures Plug(MinCtx(t, c), Removed(MinSub(t))) == Plug(c, WithoutMin(t))
    decreases t
  {
    if t.left.Node? {
      MinPlug(t.left, InLeft(c, t.id, t.red, t.right));
    }
  }
}
