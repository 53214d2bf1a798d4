/** Services and their dependencies as a graph: chains, cycles, and the depth of a service. */
module ServiceGraph {
  import opened Finite

  datatype Service = Service(name: string, deps: seq<string>)
  datatype Found = Missing | At(index: nat)

  const MAX_SERVICES := 64

  /** svc_find: the first service of that name. */
  function Find(services: seq<Service>, name: string): (r: Found)
    ensures r.At? ==> r.index < |services| && services[r.index].name == name
    ensures r.At? ==> forall i :: 0 <= i < r.index ==> services[i].name != name
    ensures r.Missing? ==> forall i :: 0 <= i < |services| ==> services[i].name != name
  {
    FindFrom(services, name, 0)
  }

  function FindFrom(services: seq<Service>, name: string, from: nat): (r: Found)
    requires from <= |services|
    ensures r.At? ==> from <= r.index < |services| && services[r.index].name == name
    ensures r.At? ==> forall i :: from <= i < r.index ==> services[i].name != name
    ensures r.Missing? ==> forall i :: from <= i < |services| ==> services[i].name != name
    decreases |services| - from
  {
    if from == |services| then Missing
    else if services[from].name == name then At(from)
    else FindFrom(services, name, from + 1)
  }

  /** k is the service that a dependency names: the first of that name, and never the kernel. */
  predicate Names(services: seq<Service>, dep: string, k: nat) {
    && dep != "kernel" && k < |services| && services[k].name == dep
    && forall i :: 0 <= i < k ==> services[i].name != dep
  }

  /** The service a dependency names, unless it is the kernel or unknown. */
  function Known(services: seq<Service>, dep: string): (r: Found)
    ensures forall k: nat :: Names(services, dep, k) <==> r == At(k)
  {
    if dep == "kernel" then Missing else Find(services, dep)
  }

  /** i depends on k. */
  predicate DependsOn(services: seq<Service>, i: nat, k: nat) {
    && i < |services| && k < |services|
    && exists j :: 0 <= j < |services[i].deps| && Names(services, services[i].deps[j], k)
  }

  // ---- Chains and cycles -----------------------------------------------------------------------------

  /** Each service depends on the next. */
  ghost predicate Chain(services: seq<Service>, p: seq<nat>) {
    && (forall i :: 0 <= i < |p| ==> p[i] < |services|)
    && (forall i, j :: 0 <= i < |p| && j == i + 1 && j < |p| ==> DependsOn(services, p[i], p[j]))
  }

  ghost predicate Cycle(services: seq<Service>, p: seq<nat>) {
    |p| > 0 && Chain(services, p) && DependsOn(services, p[|p| - 1], p[0])
  }

  ghost predicate Cyclic(services: seq<Service>) {
    exists p :: Cycle(services, p)
  }

  /** The longest chain of dependencies from i has d links. */
  ghost predicate Depth(services: seq<Service>, i: nat, d: nat) {
    && (exists p :: ChainFrom(services, i, p) && |p| == d + 1)
    && (forall p :: ChainFrom(services, i, p) ==> |p| <= d + 1)
  }

  ghost predicate ChainFrom(services: seq<Service>, i: nat, p: seq<nat>) {
    |p| > 0 && p[0] == i && Chain(services, p)
  }

  lemma ChainPush(services: seq<Service>, i: nat, p: seq<nat>)
    requires i < |services| && Chain(services, p) && (|p| > 0 ==> DependsOn(services, i, p[0]))
    ensures Chain(services, [i] + p)
  {
    var q := [i] + p;
    forall a, b | 0 <= a < |q| && b == a + 1 && b < |q|
      ensures DependsOn(services, q[a], q[b])
    {
      if a > 0 {
        assert q[a] == p[a - 1] && q[b] == p[a - 1 + 1];
      }
    }
  }

  lemma ChainPart(services: seq<Service>, p: seq<nat>, a: nat, b: nat)
    requires Chain(services, p) && a <= b <= |p|
    ensures Chain(services, p[a..b])
  {
    var q := p[a..b];
    forall i, j | 0 <= i < |q| && j == i + 1 && j < |q|
      ensures DependsOn(services, q[i], q[j])
    {
      assert q[i] == p[a + i] && q[j] == p[a + i + 1];
    }
  }

  /** A chain longer than the table revisits a service, and so closes a cycle. */
  lemma LongChainCycles(services: seq<Service>, p: seq<nat>)
    requires Chain(services, p) && |p| > |services|
    ensures Cyclic(services)
  {
    if forall i, j :: 0 <= i < j < |p| ==> p[i] != p[j] {
      DistinctShort(p, |services|);
    }
    var i, j :| 0 <= i < j < |p| && p[i] == p[j];
    ChainPart(services, p, i, j);
    var c := p[i..j];
    assert c[|c| - 1] == p[j - 1] && DependsOn(services, p[j - 1], p[j]);
    assert Cycle(services, c);
  }
}
