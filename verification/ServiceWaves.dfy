/** compute_waves: sweeps that give a service its wave once all its dependencies have one, until
    nothing changes; and the launch order that follows. */
module ServiceWaves {
  import opened Finite
  import opened ServiceGraph

  // ---- What the sweeps keep --------------------------------------------------------------------------

  /** Service i comes right after the latest of its dependencies. */
  ghost predicate Layered(services: seq<Service>, w: seq<int>, i: nat)
    requires |w| == |services| && i < |w|
  {
    && (forall k :: 0 <= k < |w| && DependsOn(services, i, k) ==> 0 <= w[k] < w[i])
    && (w[i] > 0 ==> exists k :: 0 <= k < |w| && DependsOn(services, i, k) && w[k] == w[i] - 1)
  }

  ghost predicate Settled(services: seq<Service>, w: seq<int>) {
    && |w| == |services|
    && (forall i :: 0 <= i < |w| ==> w[i] >= -1)
    && (forall i {:trigger Layered(services, w, i)} :: 0 <= i < |w| && w[i] >= 0 ==> Layered(services, w, i))
  }

  /** Waves drop along every chain from a service that has one. */
  lemma {:induction false} Descends(services: seq<Service>, w: seq<int>, p: seq<nat>, j: nat)
    requires Settled(services, w) && Chain(services, p) && j < |p| && w[p[0]] >= 0
    ensures 0 <= w[p[j]] <= w[p[0]] - j
    decreases j
  {
    if j > 0 {
      Descends(services, w, p, j - 1);
      assert Layered(services, w, p[j - 1]) && DependsOn(services, p[j - 1], p[j]);
    }
  }

  /** From a service of wave v there is a chain down through every earlier wave. */
  lemma {:induction false} Staircase(services: seq<Service>, w: seq<int>, i: nat) returns (p: seq<nat>)
    requires Settled(services, w) && i < |w| && w[i] >= 0
    ensures ChainFrom(services, i, p) && |p| == w[i] + 1 && forall j :: 0 <= j < |p| ==> w[p[j]] == w[i] - j
    decreases w[i]
  {
    assert Layered(services, w, i);
    if w[i] == 0 {
      p := [i];
    } else {
      var k :| 0 <= k < |w| && DependsOn(services, i, k) && w[k] == w[i] - 1;
      var q := Staircase(services, w, k);
      ChainPush(services, i, q);
      p := [i] + q;
    }
  }

  lemma SettledIsDepth(services: seq<Service>, w: seq<int>, i: nat)
    requires Settled(services, w) && i < |w| && w[i] >= 0
    ensures Depth(services, i, w[i]) && w[i] < |services|
  {
    var p := Staircase(services, w, i);
    assert ChainFrom(services, i, p) && |p| == w[i] + 1;
    forall q | ChainFrom(services, i, q)
      ensures |q| <= w[i] + 1
    {
      Descends(services, w, q, |q| - 1);
    }
    DistinctShort(p, |services|);
  }

  /** A service without a wave has a dependency without one. */
  ghost predicate Stuck(services: seq<Service>, w: seq<int>, i: nat)
    requires |w| == |services| && i < |w|
  {
    w[i] < 0 ==> exists k :: 0 <= k < |w| && DependsOn(services, i, k) && w[k] < 0
  }

  lemma {:induction false} StuckChain(services: seq<Service>, w: seq<int>, i: nat, n: nat) returns (p: seq<nat>)
    requires |w| == |services| && i < |w| && w[i] < 0 && forall k :: 0 <= k < |w| ==> Stuck(services, w, k)
    ensures ChainFrom(services, i, p) && |p| == n + 1
    decreases n
  {
    if n == 0 {
      p := [i];
    } else {
      assert Stuck(services, w, i);
      var k :| 0 <= k < |w| && DependsOn(services, i, k) && w[k] < 0;
      var q := StuckChain(services, w, k, n - 1);
      ChainPush(services, i, q);
      p := [i] + q;
    }
  }

  /** When no sweep helps any more, some service is left without a wave exactly if there is a cycle. */
  lemma LeftoverIffCyclic(services: seq<Service>, w: seq<int>)
    requires Settled(services, w) && forall k :: 0 <= k < |w| ==> Stuck(services, w, k)
    ensures Cyclic(services) <==> exists i :: 0 <= i < |w| && w[i] < 0
  {
    if i :| 0 <= i < |w| && w[i] < 0 {
      var p := StuckChain(services, w, i, |services|);
      LongChainCycles(services, p);
    }
    if Cyclic(services) && forall i :: 0 <= i < |w| ==> w[i] >= 0 {
      var p :| Cycle(services, p);
      CycleUnsettled(services, w, p);
      assert false;
    }
  }

  lemma CycleUnsettled(services: seq<Service>, w: seq<int>, p: seq<nat>)
    requires Settled(services, w) && Cycle(services, p)
    ensures w[p[0]] < 0
  {
    if w[p[0]] >= 0 {
      Descends(services, w, p, |p| - 1);
      LinkDrops(services, w, p[|p| - 1], p[0]);
    }
  }

  lemma LinkDrops(services: seq<Service>, w: seq<int>, i: nat, k: nat)
    requires Settled(services, w) && DependsOn(services, i, k) && w[i] >= 0
    ensures w[k] < w[i]
  {
    assert Layered(services, w, i);
  }

  function Unresolved(w: seq<int>): nat {
    if w == [] then 0 else (if w[0] < 0 then 1 else 0) + Unresolved(w[1..])
  }

  lemma {:induction false} ResolveOne(w: seq<int>, i: nat, v: int)
    requires i < |w| && w[i] < 0 <= v
    ensures Unresolved(w[i := v]) == Unresolved(w) - 1
    decreases w
  {
    if i == 0 {
      assert w[i := v][1..] == w[1..];
    } else {
      ResolveOne(w[1..], i - 1, v);
      assert w[i := v][1..] == w[1..][i - 1 := v];
    }
  }

  /** The largest wave so far. */
  ghost predicate Highest(w: seq<int>, m: int) {
    && m >= 0 && (forall i :: 0 <= i < |w| ==> w[i] <= m)
    && (m > 0 ==> Inhabited(w, m))
  }

  lemma HighestGrows(w: seq<int>, i: nat, v: int, m: int)
    requires Highest(w, m) && i < |w| && w[i] < 0 <= v
    ensures Highest(w[i := v], if v > m then v else m)
  {
    var w' := w[i := v];
    assert w'[i] == v;
    if m > 0 {
      var j :| 0 <= j < |w| && w[j] == m;
      assert w'[j] == m;
    }
  }

  predicate Inhabited(w: seq<int>, v: int) { exists i :: 0 <= i < |w| && w[i] == v }

  /** Giving i the wave after its latest dependency keeps the order. */
  lemma ResolveKeeps(services: seq<Service>, w: seq<int>, i: nat, m: int)
    requires Settled(services, w) && i < |w| && w[i] < 0 && m >= -1
    requires forall k :: 0 <= k < |w| && DependsOn(services, i, k) ==> 0 <= w[k] <= m
    requires m >= 0 ==> exists k :: 0 <= k < |w| && DependsOn(services, i, k) && w[k] == m
    ensures Settled(services, w[i := m + 1])
  {
    var w' := w[i := m + 1];
    forall j | 0 <= j < |w'| && w'[j] >= 0
      ensures Layered(services, w', j)
    {
      if j == i {
        assert !DependsOn(services, i, i);
      } else {
        assert Layered(services, w, j);
        assert !DependsOn(services, j, i);
      }
    }
  }

  /** What examining a service's dependencies finds out: all have waves and the latest is m, or not. */
  ghost predicate Examined(services: seq<Service>, w: seq<int>, i: nat, n: nat, m: int)
    requires |w| == |services| && i < |w| && n <= |services[i].deps|
  {
    && m >= -1
    && (forall j :: 0 <= j < n && Known(services, services[i].deps[j]).At? ==>
          0 <= w[Known(services, services[i].deps[j]).index] <= m)
    && (m >= 0 ==> exists k :: 0 <= k < |w| && DependsOn(services, i, k) && w[k] == m)
  }

  class ServiceManager {
    const services: seq<Service>
    const wave: array<int>
    const isNew: array<bool>

    /** A table of services, none of them launched yet. */
    constructor (table: seq<Service>)
      requires |table| <= MAX_SERVICES
      ensures Valid() && services == table && fresh(wave) && fresh(isNew)
      ensures forall i :: 0 <= i < MAX_SERVICES ==> isNew[i]
    {
      services := table;
      wave := new int[MAX_SERVICES](_ => -1);
      isNew := new bool[MAX_SERVICES](_ => true);
    }

    ghost predicate Valid() {
      |services| <= MAX_SERVICES && wave.Length == MAX_SERVICES && isNew.Length == MAX_SERVICES
    }

    ghost function Waves(): seq<int>
      requires Valid()
      reads wave
    {
      wave[..|services|]
    }

    /** The dependency loop of compute_waves. */
    method Examine(i: nat) returns (allDone: bool, maxDep: int)
      requires Valid() && i < |services| && Settled(services, Waves())
      ensures allDone ==> Examined(services, Waves(), i, |services[i].deps|, maxDep)
      ensures !allDone ==> exists k :: 0 <= k < |services| && DependsOn(services, i, k) && wave[k] < 0
    {
      var deps := services[i].deps;
      maxDep := -1;
      for j := 0 to |deps|
        invariant Examined(services, Waves(), i, j, maxDep)
      {
        var dep := Known(services, deps[j]);
        if dep.At? {
          var di := dep.index;
          assert Waves()[di] == wave[di] && DependsOn(services, i, di);
          if wave[di] < 0 {
            return false, maxDep;
          }
          if wave[di] > maxDep {
            maxDep := wave[di];
          }
        }
      }
      allDone := true;
    }

    /** One pass over all services. */
    method Sweep(high: int) returns (changed: bool, high': int)
      requires Valid() && Settled(services, Waves()) && Highest(Waves(), high)
      modifies wave
      ensures Settled(services, Waves()) && Highest(Waves(), high')
      ensures changed ==> Unresolved(Waves()) < old(Unresolved(Waves()))
      ensures !changed ==> Waves() == old(Waves()) && forall i :: 0 <= i < |services| ==> Stuck(services, Waves(), i)
    {
      changed, high' := false, high;
      for i := 0 to |services|
        invariant Settled(services, Waves()) && Highest(Waves(), high')
        invariant changed ==> Unresolved(Waves()) < old(Unresolved(Waves()))
        invariant !changed ==> Waves() == old(Waves()) && forall j :: 0 <= j < i ==> Stuck(services, Waves(), j)
      {
        var here;
        here, high' := Visit(i, high');
        changed := changed || here;
      }
    }

    /** Give service i a wave if it has none and all its dependencies have one. */
    method Visit(i: nat, high: int) returns (changed: bool, high': int)
      requires Valid() && i < |services| && Settled(services, Waves()) && Highest(Waves(), high)
      modifies wave
      ensures Settled(services, Waves()) && Highest(Waves(), high')
      ensures changed ==> Unresolved(Waves()) < old(Unresolved(Waves()))
      ensures !changed ==> Waves() == old(Waves()) && Stuck(services, Waves(), i)
    {
      ghost var w := Waves();
      changed, high' := false, high;
      if wave[i] < 0 {
        var allDone, maxDep := Examine(i);
        if allDone {
          Resolved(services, w, i, maxDep, high);
          wave[i] := ToInt8(maxDep + 1);
          assert Waves() == w[i := maxDep + 1];
          if wave[i] > high {
            high' := wave[i];
          }
          changed := true;
        } else {
          var k :| 0 <= k < |services| && DependsOn(services, i, k) && wave[k] < 0;
          assert w[k] < 0;
        }
      }
    }

    /** Passes until nothing changes. */
    method Settle() returns (maxWave: int)
      requires Valid()
      modifies wave
      ensures Settled(services, Waves()) && Highest(Waves(), maxWave) && maxWave >= 0
      ensures forall i :: 0 <= i < |services| ==> Stuck(services, Waves(), i)
    {
      for i := 0 to |services|
        invariant forall j :: 0 <= j < i ==> wave[j] == -1
      {
        wave[i] := -1;
      }
      maxWave := 0;
      var changed := true;
      while changed
        invariant Settled(services, Waves()) && Highest(Waves(), maxWave)
        invariant !changed ==> forall i :: 0 <= i < |services| ==> Stuck(services, Waves(), i)
        decreases Unresolved(Waves()), changed
      {
        changed, maxWave := Sweep(maxWave);
      }
    }

    /** compute_waves. */
    method ComputeWaves() returns (count: int)
      requires Valid()
      modifies wave
      ensures count >= -1 && (count == -1 <==> Cyclic(services))
      ensures count != -1 ==> forall i :: 0 <= i < |services| ==> 0 <= wave[i] < count && Depth(services, i, wave[i])
      ensures count != -1 && |services| > 0 ==> forall v :: 0 <= v < count ==> Inhabited(Waves(), v)
      ensures Settled(services, Waves())
    {
      var maxWave := Settle();
      LeftoverIffCyclic(services, Waves());
      for i := 0 to |services|
        invariant forall j :: 0 <= j < i ==> wave[j] >= 0
      {
        if wave[i] < 0 {
          assert Waves()[i] < 0;
          return -1;
        }
      }
      count := maxWave + 1;
      FinalWaves(services, Waves(), maxWave);
    }

    /** launch_wave: attempt the services of wave v that are still new; an attempted service no
        longer is. */
    method LaunchWave(v: int) returns (tried: seq<nat>)
      requires Valid()
      modifies isNew
      ensures tried == Only(old(isNew[..]), Wave(Waves(), v, |services|))
      ensures forall i :: 0 <= i < MAX_SERVICES ==> isNew[i] == (old(isNew[i]) && !(i < |services| && wave[i] == v))
    {
      tried := [];
      ghost var before, w := isNew[..], Waves();
      for i := 0 to |services|
        invariant tried == Only(before, Wave(w, v, i))
        invariant forall j :: 0 <= j < MAX_SERVICES ==>
          isNew[j] == (before[j] && !(j < i && w[j] == v))
      {
        OnlyWaveStep(before, w, v, i);
        if wave[i] == v && isNew[i] {
          isNew[i] := false;
          tried := tried + [i];
        }
      }
    }

    /** Every wave in turn. */
    method LaunchAll(count: nat) returns (tried: seq<nat>)
      requires Valid()
      modifies isNew
      ensures tried == Only(old(isNew[..]), LaunchOrder(Waves(), count))
    {
      tried := [];
      for v := 0 to count
        invariant tried == Only(old(isNew[..]), LaunchOrder(Waves(), v))
        invariant forall i :: 0 <= i < MAX_SERVICES ==>
          isNew[i] == (old(isNew[i]) && !(i < |services| && 0 <= wave[i] < v))
      {
        ghost var unseen := isNew[..];
        var more := LaunchWave(v);
        OnlySame(old(isNew[..]), unseen, Waves(), v, |services|);
        OnlyAppend(old(isNew[..]), LaunchOrder(Waves(), v), Wave(Waves(), v, |services|));
        tried := tried + more;
      }
    }

    /** The boot sequence over services that are all new: nothing is attempted if dependencies form a
        cycle; otherwise every service is attempted once, after everything it depends on. */
    method Boot() returns (ok: bool, tried: seq<nat>)
      requires Valid() && forall i :: 0 <= i < |services| ==> isNew[i]
      modifies wave, isNew
      ensures ok <==> !Cyclic(services)
      ensures !ok ==> tried == []
      ensures ok ==> Permutes(tried, |services|) && DepsFirst(services, tried)
    {
      tried := [];
      var count := ComputeWaves();
      ok := count >= 0;
      if ok {
        tried := LaunchAll(count);
        LaunchedAll(services, Waves(), count, old(isNew[..]), tried);
      }
    }
  }

  /** Assignment to a signed 8-bit variable. */
  function ToInt8(x: int): int { if x % 256 < 128 then x % 256 else x % 256 - 256 }

  lemma Resolved(services: seq<Service>, w: seq<int>, i: nat, m: int, high: int)
    requires Settled(services, w) && |services| <= MAX_SERVICES && Highest(w, high) && i < |w| && w[i] < 0
    requires Examined(services, w, i, |services[i].deps|, m)
    ensures var w' := w[i := m + 1];
      && Settled(services, w') && Highest(w', if m + 1 > high then m + 1 else high) && Unresolved(w') < Unresolved(w)
      && ToInt8(m + 1) == m + 1
  {
    ResolvedSettles(services, w, i, m);
    ResolveOne(w, i, m + 1);
    HighestGrows(w, i, m + 1, high);
  }

  lemma ResolvedSettles(services: seq<Service>, w: seq<int>, i: nat, m: int)
    requires Settled(services, w) && i < |w| && w[i] < 0 && Examined(services, w, i, |services[i].deps|, m)
    ensures Settled(services, w[i := m + 1]) && m + 1 < |services|
  {
    ExaminedAll(services, w, i, m);
    ResolveKeeps(services, w, i, m);
    WaveSmall(services, w[i := m + 1], i);
  }

  lemma WaveSmall(services: seq<Service>, w: seq<int>, i: nat)
    requires Settled(services, w) && i < |w| && w[i] >= 0
    ensures w[i] < |services|
  {
    SettledIsDepth(services, w, i);
  }

  lemma ExaminedAll(services: seq<Service>, w: seq<int>, i: nat, m: int)
    requires |w| == |services| && i < |w| && Examined(services, w, i, |services[i].deps|, m)
    ensures forall k :: 0 <= k < |w| && DependsOn(services, i, k) ==> 0 <= w[k] <= m
  {
  }

  lemma FinalWaves(services: seq<Service>, w: seq<int>, m: int)
    requires Settled(services, w) && Highest(w, m) && forall i :: 0 <= i < |w| ==> w[i] >= 0
    ensures forall i :: 0 <= i < |w| ==> Depth(services, i, w[i]) && w[i] <= m
    ensures |w| > 0 ==> forall v :: 0 <= v <= m ==> Inhabited(w, v)
  {
    forall i | 0 <= i < |w|
      ensures Depth(services, i, w[i])
    {
      SettledIsDepth(services, w, i);
    }
    if |w| > 0 {
      assert m == 0 ==> w[0] == 0;
      var top :| 0 <= top < |w| && w[top] == m;
      var p := Staircase(services, w, top);
      forall v | 0 <= v <= m
        ensures Inhabited(w, v)
      {
        assert w[p[m - v]] == v;
      }
    }
  }

  // ---- Launching -------------------------------------------------------------------------------------

  /** The services of one wave, in table order: what launch_wave attempts. */
  function Wave(w: seq<int>, v: int, n: nat): seq<nat>
    requires n <= |w|
  {
    if n == 0 then [] else Wave(w, v, n - 1) + if w[n - 1] == v then [n - 1] else []
  }

  /** All waves up to v, one after the other. */
  function LaunchOrder(w: seq<int>, v: nat): seq<nat> {
    if v == 0 then [] else LaunchOrder(w, v - 1) + Wave(w, v - 1, |w|)
  }

  /** The members of an order that are still new, in the same order. */
  function Only(unseen: seq<bool>, order: seq<nat>): seq<nat> {
    if order == [] then []
    else
      var x := order[|order| - 1];
      Only(unseen, order[..|order| - 1]) + if x < |unseen| && unseen[x] then [x] else []
  }

  lemma OnlySnoc(unseen: seq<bool>, order: seq<nat>, x: nat)
    ensures Only(unseen, order + [x]) == Only(unseen, order) + if x < |unseen| && unseen[x] then [x] else []
  {
    assert (order + [x])[..|order|] == order;
  }

  lemma OnlyWaveStep(unseen: seq<bool>, w: seq<int>, v: int, i: nat)
    requires i < |w| <= |unseen|
    ensures Only(unseen, Wave(w, v, i + 1)) == Only(unseen, Wave(w, v, i)) + if w[i] == v && unseen[i] then [i] else []
  {
    var before := Wave(w, v, i);
    if w[i] == v {
      assert Wave(w, v, i + 1) == before + [i];
      OnlySnoc(unseen, before, i);
    } else {
      assert Wave(w, v, i + 1) == before;
    }
  }

  lemma {:induction false} OnlyAppend(unseen: seq<bool>, a: seq<nat>, b: seq<nat>)
    ensures Only(unseen, a + b) == Only(unseen, a) + Only(unseen, b)
    decreases b
  {
    if b == [] {
      assert a + b == a;
    } else {
      var n := |b| - 1;
      assert a + b == a + b[..n] + [b[n]] && b == b[..n] + [b[n]];
      OnlyAppend(unseen, a, b[..n]);
      OnlySnoc(unseen, a + b[..n], b[n]);
    }
  }

  lemma {:induction false} OnlyOfNew(unseen: seq<bool>, order: seq<nat>)
    requires forall i :: 0 <= i < |order| ==> order[i] < |unseen| && unseen[order[i]]
    ensures Only(unseen, order) == order
    decreases order
  {
    if order != [] {
      OnlyOfNew(unseen, order[..|order| - 1]);
      assert order == order[..|order| - 1] + [order[|order| - 1]];
    }
  }

  /** Earlier waves do not touch the services of this one. */
  lemma {:induction false} OnlySame(unseen: seq<bool>, unseen': seq<bool>, w: seq<int>, v: nat, n: nat)
    requires n <= |w| <= |unseen| == |unseen'|
    requires forall i :: 0 <= i < |w| && w[i] == v ==> unseen'[i] == unseen[i]
    ensures Only(unseen', Wave(w, v, n)) == Only(unseen, Wave(w, v, n))
    decreases n
  {
    if n > 0 {
      OnlySame(unseen, unseen', w, v, n - 1);
      OnlyWaveStep(unseen, w, v, n - 1);
      OnlyWaveStep(unseen', w, v, n - 1);
    }
  }

  /** Each number below n exactly once. */
  ghost predicate Permutes(order: seq<nat>, n: nat) {
    && (forall x: nat :: x < n <==> x in order)
    && Distinct(order)
  }

  predicate Distinct(order: seq<nat>) { forall a, b :: 0 <= a < b < |order| ==> order[a] != order[b] }

  /** Whatever a service depends on stands before it. */
  ghost predicate DepsFirst(services: seq<Service>, order: seq<nat>) {
    forall pos, k :: 0 <= pos < |order| && DependsOn(services, order[pos], k) ==> k in order[..pos]
  }

  lemma LaunchedAll(services: seq<Service>, w: seq<int>, count: nat, unseen: seq<bool>, tried: seq<nat>)
    requires Settled(services, w) && |w| <= |unseen| && forall i :: 0 <= i < |w| ==> 0 <= w[i] < count && unseen[i]
    requires tried == Only(unseen, LaunchOrder(w, count))
    ensures Permutes(tried, |services|) && DepsFirst(services, tried)
  {
    var order := LaunchOrder(w, count);
    LaunchedMembers(w, count);
    OnlyOfNew(unseen, order);
    LaunchDistinct(w, count);
    forall pos, k | 0 <= pos < |order| && DependsOn(services, order[pos], k)
      ensures k in order[..pos]
    {
      DependenciesFirst(services, w, count, pos, k);
    }
  }

  lemma LaunchedMembers(w: seq<int>, count: nat)
    requires forall i :: 0 <= i < |w| ==> 0 <= w[i] < count
    ensures forall x: nat :: x < |w| <==> x in LaunchOrder(w, count)
    ensures forall i :: 0 <= i < |LaunchOrder(w, count)| ==> LaunchOrder(w, count)[i] < |w|
  {
    var order := LaunchOrder(w, count);
    forall x: nat
      ensures x in order <==> x < |w|
    {
      LaunchMembers(w, count, x);
    }
    forall i | 0 <= i < |order|
      ensures order[i] < |w|
    {
      assert order[i] in order;
    }
  }

  lemma {:induction false} WaveDistinct(w: seq<int>, v: int, n: nat)
    requires n <= |w|
    ensures Distinct(Wave(w, v, n))
    decreases n
  {
    if n > 0 {
      WaveDistinct(w, v, n - 1);
      WaveMembers(w, v, n - 1, n - 1);
    }
  }

  lemma {:induction false} LaunchDistinct(w: seq<int>, v: nat)
    ensures Distinct(LaunchOrder(w, v))
    decreases v
  {
    if v > 0 {
      var before, last := LaunchOrder(w, v - 1), Wave(w, v - 1, |w|);
      LaunchDistinct(w, v - 1);
      WaveDistinct(w, v - 1, |w|);
      forall x | x in before
        ensures x !in last
      {
        WaveIsNew(w, v - 1, x);
      }
      DistinctAppend(before, last);
    }
  }

  lemma WaveIsNew(w: seq<int>, v: nat, x: nat)
    requires x in LaunchOrder(w, v)
    ensures x !in Wave(w, v, |w|)
  {
    LaunchMembers(w, v, x);
    WaveMembers(w, v, |w|, x);
  }

  lemma DistinctAppend(a: seq<nat>, b: seq<nat>)
    requires Distinct(a) && Distinct(b) && forall x :: x in a ==> x !in b
    ensures Distinct(a + b)
  {
    forall i, j | 0 <= i < j < |a + b|
      ensures (a + b)[i] != (a + b)[j]
    {
      if i < |a| <= j {
        assert a[i] in a && b[j - |a|] in b;
      }
    }
  }

  lemma {:induction false} WaveMembers(w: seq<int>, v: int, n: nat, x: nat)
    requires n <= |w|
    ensures x in Wave(w, v, n) <==> x < n && w[x] == v
    decreases n
  {
    if n > 0 {
      WaveMembers(w, v, n - 1, x);
    }
  }

  lemma InEither(whole: seq<nat>, a: seq<nat>, b: seq<nat>, x: nat)
    requires whole == a + b
    ensures x in whole <==> x in a || x in b
  {
  }

  lemma LaunchMembers(w: seq<int>, v: nat, x: nat)
    ensures x in LaunchOrder(w, v) <==> x < |w| && 0 <= w[x] < v
  {
    if pos :| 0 <= pos < |LaunchOrder(w, v)| && LaunchOrder(w, v)[pos] == x {
      LaunchedHasWave(w, v, pos);
    } else if x < |w| && 0 <= w[x] < v {
      WaveIsLaunched(w, v, x);
    }
  }

  lemma {:induction false} WaveIsLaunched(w: seq<int>, v: nat, x: nat)
    requires x < |w| && 0 <= w[x] < v
    ensures x in LaunchOrder(w, v)
    decreases v
  {
    var before, last := LaunchOrder(w, v - 1), Wave(w, v - 1, |w|);
    if w[x] == v - 1 {
      WaveMembers(w, v - 1, |w|, x);
    } else {
      WaveIsLaunched(w, v - 1, x);
    }
    InEither(LaunchOrder(w, v), before, last, x);
  }

  lemma {:induction false} LaunchedHasWave(w: seq<int>, v: nat, pos: nat)
    requires pos < |LaunchOrder(w, v)|
    ensures var x := LaunchOrder(w, v)[pos]; x < |w| && 0 <= w[x] < v
    decreases v
  {
    var before := LaunchOrder(w, v - 1);
    if pos < |before| {
      LaunchedHasWave(w, v - 1, pos);
    } else {
      WaveAt(w, v - 1, |w|, pos - |before|);
    }
  }

  lemma {:induction false} WaveAt(w: seq<int>, v: int, n: nat, i: nat)
    requires n <= |w| && i < |Wave(w, v, n)|
    ensures var x := Wave(w, v, n)[i]; x < n && w[x] == v
    decreases n
  {
    if i < |Wave(w, v, n - 1)| {
      WaveAt(w, v, n - 1, i);
    }
  }

  /** Every service is attempted after all of its dependencies: whatever stands at a position of
      the launch order, its dependencies stand at earlier ones. */
  lemma {:induction false} DependenciesFirst(services: seq<Service>, w: seq<int>, v: nat, pos: nat, k: nat)
    requires Settled(services, w) && (forall i :: 0 <= i < |w| ==> w[i] >= 0) && pos < |LaunchOrder(w, v)|
    requires LaunchOrder(w, v)[pos] < |services| && DependsOn(services, LaunchOrder(w, v)[pos], k)
    ensures k in LaunchOrder(w, v)[..pos]
    decreases v
  {
    var before := LaunchOrder(w, v - 1);
    var order := LaunchOrder(w, v);
    if pos < |before| {
      DependenciesFirst(services, w, v - 1, pos, k);
      assert order[..pos] == before[..pos];
    } else {
      var x := order[pos];
      assert x == Wave(w, v - 1, |w|)[pos - |before|];
      WaveMembers(w, v - 1, |w|, x);
      LinkDrops(services, w, x, k);
      LaunchMembers(w, v - 1, k);
      assert before <= order[..pos];
    }
  }

  // ---- Table order does not matter ----------------------------------------------------------------------

  /** b lists the services of a in another order: service i of a is service at[i] of b. */
  ghost predicate Reordered(a: seq<Service>, b: seq<Service>, at: seq<nat>) {
    && |at| == |a| == |b|
    && (forall i :: 0 <= i < |a| ==> at[i] < |b| && b[at[i]] == a[i])
    && (forall i, j :: 0 <= i < j < |b| ==> b[i].name != b[j].name)
  }

  lemma ReorderedKnown(a: seq<Service>, b: seq<Service>, at: seq<nat>, dep: string)
    requires Reordered(a, b, at) && Known(a, dep).At?
    ensures Known(b, dep) == At(at[Known(a, dep).index])
  {
    var k := Known(a, dep).index;
    assert b[at[k]].name == dep;
  }

  lemma ReorderedDepends(a: seq<Service>, b: seq<Service>, at: seq<nat>, i: nat, k: nat)
    requires Reordered(a, b, at) && DependsOn(a, i, k)
    ensures DependsOn(b, at[i], at[k])
  {
    var j :| 0 <= j < |a[i].deps| && Names(a, a[i].deps[j], k);
    ReorderedKnown(a, b, at, a[i].deps[j]);
    assert b[at[i]].deps[j] == a[i].deps[j];
  }

  function Renamed(p: seq<nat>, at: seq<nat>): seq<nat>
    requires forall i :: 0 <= i < |p| ==> p[i] < |at|
  {
    seq(|p|, i requires 0 <= i < |p| => at[p[i]])
  }

  lemma ReorderedChain(a: seq<Service>, b: seq<Service>, at: seq<nat>, i: nat, p: seq<nat>)
    requires Reordered(a, b, at) && ChainFrom(a, i, p)
    ensures i < |at| && ChainFrom(b, at[i], Renamed(p, at))
  {
    var q := Renamed(p, at);
    forall x, y | 0 <= x < |q| && y == x + 1 && y < |q|
      ensures DependsOn(b, q[x], q[y])
    {
      ReorderedDepends(a, b, at, p[x], p[y]);
    }
  }

  /** The depth, and so the wave, of a service does not depend on where it stands in the table. */
  lemma OrderIrrelevant(a: seq<Service>, b: seq<Service>, at: seq<nat>, from: seq<nat>, i: nat, d: nat, e: nat)
    requires Reordered(a, b, at) && Reordered(b, a, from) && i < |a|
    requires Depth(a, i, d) && Depth(b, at[i], e)
    ensures d == e
  {
    var p :| ChainFrom(a, i, p) && |p| == d + 1;
    ReorderedChain(a, b, at, i, p);
    var q :| ChainFrom(b, at[i], q) && |q| == e + 1;
    ReorderedChain(b, a, from, at[i], q);
    assert from[at[i]] == i by {
      assert a[from[at[i]]].name == b[at[i]].name == a[i].name;
    }
  }
}
