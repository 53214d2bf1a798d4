/** The address-sorted, doubly linked region list of an address space. */
module Regions {

  const WORD: nat := 0x1_0000_0000_0000_0000
  const MAX_REGIONS: nat := 1024 * 16

  datatype Region = Region(base: nat, size: nat, prot: nat, kind: int, fd: int)

  predicate Holds(r: Region, addr: nat) {
    r.base <= addr < r.base + r.size
  }

  predicate Intersects(r: Region, base: nat, size: nat) {
    base < r.base + r.size && r.base < base + size
  }

  /** Regions are non-empty, do not wrap, and lie strictly one after the other. */
  ghost predicate Sorted(rs: seq<Region>) {
    && (forall i :: 0 <= i < |rs| ==> 0 < rs[i].size && rs[i].base + rs[i].size < WORD)
    && (forall i, j :: 0 <= i < j < |rs| ==> rs[i].base + rs[i].size <= rs[j].base)
  }

  /** Some region has an address in common with [base, base + size). */
  ghost predicate Meets(rs: seq<Region>, base: nat, size: nat) {
    exists i :: 0 <= i < |rs| && Intersects(rs[i], base, size)
  }

  /** Where a new region goes: before the first region with a base not below it. */
  ghost predicate InsertPoint(rs: seq<Region>, base: nat, k: nat) {
    && k <= |rs|
    && (forall i :: 0 <= i < k ==> rs[i].base < base)
    && (forall i :: k <= i < |rs| ==> base < rs[i].base)
  }

  /** In a sorted list bases increase, and a base that meets no region is new. */
  lemma SortedBases(rs: seq<Region>, base: nat, size: nat)
    requires Sorted(rs) && !Meets(rs, base, size) && size > 0
    ensures forall i, j :: 0 <= i < j < |rs| ==> rs[i].base < rs[j].base
    ensures forall i :: 0 <= i < |rs| ==> rs[i].base != base
  {
    forall i | 0 <= i < |rs|
      ensures rs[i].base != base
    {
      assert !Intersects(rs[i], base, size);
    }
  }

  lemma InsertKeepsSorted(rs: seq<Region>, r: Region, k: nat)
    requires Sorted(rs) && InsertPoint(rs, r.base, k)
    requires 0 < r.size && r.base + r.size < WORD
    requires !Meets(rs, r.base, r.size)
    ensures Sorted(rs[..k] + [r] + rs[k..])
  {
  }

  lemma RemoveKeepsSorted(rs: seq<Region>, k: nat)
    requires Sorted(rs) && k < |rs|
    ensures Sorted(rs[..k] + rs[k + 1..])
  {
  }

  class VRegion {
    var base: nat
    var size: nat
    var prot: nat
    var kind: int
    var fd: int
    var prev: VRegion?
    var next: VRegion?

    constructor ()
      ensures base == 0 && size == 0 && prot == 0 && kind == 0 && fd == -1 && prev == null && next == null
    {
      base, size, prot, kind, fd, prev, next := 0, 0, 0, 0, -1, null, null;
    }

    function Value(): Region
      reads `base, `size, `prot, `kind, `fd
    {
      Region(base, size, prot, kind, fd)
    }
  }

  /** The static pool regions are drawn from; entries are never returned to it. */
  class RegionPool {
    var used: nat

    constructor ()
      ensures used == 0
    {
      used := 0;
    }

    method Draw(base: nat, size: nat, prot: nat, kind: int, fd: int) returns (r: VRegion?)
      modifies this
      ensures r == null <==> old(used) >= MAX_REGIONS
      ensures r == null ==> used == old(used)
      ensures r != null ==> fresh(r) && used == old(used) + 1 && r.prev == null && r.next == null
      ensures r != null ==> r.Value() == Region(base, size, prot, kind, fd)
    {
      if used >= MAX_REGIONS {
        return null;
      }
      used := used + 1;
      r := new VRegion();
      r.base, r.size, r.prot, r.kind, r.fd := base, size, prot, kind, fd;
    }
  }

  /** Links in both directions agree with the sequence of nodes, which are all distinct. */
  ghost predicate Chain(head: VRegion?, nodes: seq<VRegion>)
    reads nodes`prev, nodes`next
  {
    && head == (if nodes == [] then null else nodes[0])
    && (nodes != [] ==> nodes[0].prev == null && nodes[|nodes| - 1].next == null)
    && (forall i, j :: 0 <= i < j < |nodes| && j == i + 1 ==> nodes[i].next == nodes[j] && nodes[j].prev == nodes[i])
    && (forall i, j :: 0 <= i < j < |nodes| ==> nodes[i] != nodes[j])
  }

  ghost predicate Mirrors(nodes: seq<VRegion>, contents: seq<Region>)
    reads nodes`base, nodes`size, nodes`prot, nodes`kind, nodes`fd
  {
    |nodes| == |contents| && forall i :: 0 <= i < |nodes| ==> nodes[i].Value() == contents[i]
  }

  lemma MirrorsCut(nodes: seq<VRegion>, contents: seq<Region>, k: nat)
    requires Mirrors(nodes, contents) && k < |nodes|
    ensures Mirrors(nodes[..k] + nodes[k + 1..], contents[..k] + contents[k + 1..])
  {
  }

  lemma MirrorsInsert(nodes: seq<VRegion>, contents: seq<Region>, nr: VRegion, k: nat)
    requires Mirrors(nodes, contents) && k <= |nodes|
    ensures Mirrors(nodes[..k] + [nr] + nodes[k..], contents[..k] + [nr.Value()] + contents[k..])
  {
  }

  class VMap {
    var head: VRegion?
    var cr3: nat
    var regionCount: nat
    ghost var nodes: seq<VRegion>
    ghost var contents: seq<Region>

    constructor (root: nat)
      ensures Valid() && contents == [] && cr3 == root
    {
      head, cr3, regionCount, nodes, contents := null, root, 0, [], [];
    }

    ghost predicate Valid()
      reads this, nodes
    {
      Chain(head, nodes) && Mirrors(nodes, contents) && regionCount == |nodes| && Sorted(contents)
    }

    /** The early exit of the search loses nothing: the answer is about all regions. */
    method Overlaps(base: nat, size: nat) returns (found: bool)
      requires Valid() && base < WORD && size < WORD
      ensures found <==> size != 0 && (base + size >= WORD || Meets(contents, base, size))
    {
      if size == 0 {
        return false;
      }
      var end := (base + size) % WORD;
      if end <= base {
        return true;
      }
      var r := head;
      ghost var k := 0;
      while r != null
        invariant 0 <= k <= |nodes| && r == if k == |nodes| then null else nodes[k]
        invariant forall i :: 0 <= i < k ==> !Intersects(contents[i], base, size)
        decreases |nodes| - k
      {
        assert r.Value() == contents[k];
        var rEnd := (r.base + r.size) % WORD;
        if rEnd <= r.base {
          return true;
        }
        if base < rEnd && end > r.base {
          assert Intersects(contents[k], base, size);
          return true;
        }
        if r.base >= end {
          assert forall i :: k < i < |nodes| ==> contents[k].base < contents[i].base;
          break;
        }
        r := r.next;
        k := k + 1;
      }
      return false;
    }

    /** The early exit of the search loses nothing. */
    method Find(addr: nat) returns (r: VRegion?)
      requires Valid()
      ensures r != null ==> r in nodes && r.Value() in contents && Holds(r.Value(), addr)
      ensures r == null ==> forall i :: 0 <= i < |contents| ==> !Holds(contents[i], addr)
    {
      r := head;
      ghost var k := 0;
      while r != null
        invariant 0 <= k <= |nodes| && r == if k == |nodes| then null else nodes[k]
        invariant forall i :: 0 <= i < k ==> !Holds(contents[i], addr)
        decreases |nodes| - k
      {
        assert r.Value() == contents[k];
        if addr >= r.base && addr < r.base + r.size {
          return;
        }
        if r.base > addr {
          assert forall i :: k < i < |nodes| ==> contents[k].base < contents[i].base;
          return null;
        }
        r := r.next;
        k := k + 1;
      }
    }

    /** Succeeds exactly when the region is non-empty, does not wrap, meets no other region and
        the pool is not exhausted; then the region is inserted at its place and nothing else
        changes. */
    method Add(pool: RegionPool, base: nat, size: nat, prot: nat, kind: int, fd: int)
      returns (ok: bool, ghost k: nat)
      requires Valid() && base < WORD && size < WORD
      modifies this, nodes, pool
      ensures Valid() && cr3 == old(cr3)
      ensures ok <==>
        size != 0 && base + size < WORD && !old(Meets(contents, base, size)) && old(pool.used) < MAX_REGIONS
      ensures !ok ==> nodes == old(nodes) && contents == old(contents)
      ensures ok ==> InsertPoint(old(contents), base, k)
      ensures ok ==> contents == old(contents)[..k] + [Region(base, size, prot, kind, fd)] + old(contents)[k..]
    {
      k := 0;
      if size == 0 {
        return false, k;
      }
      var clash := Overlaps(base, size);
      if clash {
        return false, k;
      }
      var nr := pool.Draw(base, size, prot, kind, fd);
      if nr == null {
        return false, k;
      }
      k := Place(nr);
      ok := true;
    }

    /** Insert an initialised region at its place and count it. */
    method Place(nr: VRegion) returns (ghost k: nat)
      requires Valid() && nr !in nodes && nr.prev == null && nr.next == null
      requires 0 < nr.size && nr.base + nr.size < WORD && !Meets(contents, nr.base, nr.size)
      modifies this`head, this`nodes, this`regionCount, this`contents, nr`prev, nr`next, nodes`prev, nodes`next
      ensures Valid() && InsertPoint(old(contents), nr.base, k)
      ensures contents == old(contents)[..k] + [nr.Value()] + old(contents)[k..]
    {
      ghost var rs, r := contents, nr.Value();
      regionCount := regionCount + 1;
      k := LinkIn(nr);
      InsertKeepsSorted(rs, r, k);
    }

    /** The pointer surgery of an insertion. */
    method LinkIn(nr: VRegion) returns (ghost k: nat)
      requires Chain(head, nodes) && nr !in nodes && nr.prev == null && nr.next == null
      requires Mirrors(nodes, contents) && Sorted(contents)
      requires 0 < nr.size && nr.base + nr.size < WORD && !Meets(contents, nr.base, nr.size)
      modifies this`head, this`nodes, this`contents, nr`prev, nr`next, nodes`prev, nodes`next
      ensures Chain(head, nodes) && Mirrors(nodes, contents) && |nodes| == |old(nodes)| + 1
      ensures InsertPoint(old(contents), nr.base, k)
      ensures contents == old(contents)[..k] + [nr.Value()] + old(contents)[k..]
    {
      SortedBases(contents, nr.base, nr.size);
      if head == null || head.base > nr.base {
        k := 0;
        assert nodes != [] ==> nodes[0].Value() == contents[0];
        LinkFirst(nr);
      } else {
        var cur := head;
        k := 1;
        while cur.next != null && cur.next.base < nr.base
          invariant 1 <= k <= |nodes| && cur == nodes[k - 1]
          invariant forall i :: 0 <= i < k ==> contents[i].base < nr.base
          decreases |nodes| - k
        {
          assert cur.next == nodes[k] && nodes[k].Value() == contents[k];
          cur := cur.next;
          k := k + 1;
        }
        assert k < |nodes| ==> cur.next == nodes[k] && nodes[k].Value() == contents[k];
        SpliceAfter(cur, nr, k);
      }
    }

    method LinkFirst(nr: VRegion)
      requires Chain(head, nodes) && Mirrors(nodes, contents) && nr !in nodes && nr.prev == null && nr.next == null
      modifies this`head, this`nodes, this`contents, nr`next, nodes`prev
      ensures Chain(head, nodes) && Mirrors(nodes, contents) && |nodes| == |old(nodes)| + 1
      ensures contents == [nr.Value()] + old(contents)
    {
      contents := [nr.Value()] + contents;
      nr.next := head;
      if head != null {
        head.prev := nr;
      }
      head := nr;
      nodes := [nr] + nodes;
    }

    method SpliceAfter(cur: VRegion, nr: VRegion, ghost k: nat)
      requires Chain(head, nodes) && Mirrors(nodes, contents) && nr !in nodes && 1 <= k <= |nodes|
      requires cur == nodes[k - 1]
      modifies this`nodes, this`contents, nr`next, nr`prev, nodes`prev, nodes`next
      ensures Chain(head, nodes) && Mirrors(nodes, contents) && |nodes| == |old(nodes)| + 1
      ensures contents == old(contents)[..k] + [nr.Value()] + old(contents)[k..]
    {
      MirrorsInsert(nodes, contents, nr, k);
      contents := contents[..k] + [nr.Value()] + contents[k..];
      LinkAfter(cur, nr, k);
    }

    method LinkAfter(cur: VRegion, nr: VRegion, ghost k: nat)
      requires Chain(head, nodes) && nr !in nodes && 1 <= k <= |nodes| && cur == nodes[k - 1]
      modifies this`nodes, nr`next, nr`prev, nodes`prev, nodes`next
      ensures Chain(head, nodes) && nodes == old(nodes)[..k] + [nr] + old(nodes)[k..]
    {
      assert k < |nodes| ==> cur.next == nodes[k];
      nr.next := cur.next;
      nr.prev := cur;
      if cur.next != null {
        cur.next.prev := nr;
      }
      cur.next := nr;
      nodes := nodes[..k] + [nr] + nodes[k..];
    }

    method LinkOut(r: VRegion, ghost k: nat)
      requires Chain(head, nodes) && k < |nodes| && r == nodes[k]
      modifies this`head, this`nodes, nodes`prev, nodes`next
      ensures Chain(head, nodes) && nodes == old(nodes)[..k] + old(nodes)[k + 1..]
    {
      assert k > 0 ==> r.prev == nodes[k - 1];
      assert k + 1 < |nodes| ==> r.next == nodes[k + 1];
      if r.prev != null {
        r.prev.next := r.next;
      } else {
        head := r.next;
      }
      if r.next != null {
        r.next.prev := r.prev;
      }
      nodes := nodes[..k] + nodes[k + 1..];
    }

    /** Removes the region with this base, if there is one, and nothing else. */
    method Remove(base: nat) returns (ok: bool, ghost k: nat)
      requires Valid()
      modifies this, nodes
      ensures Valid() && cr3 == old(cr3)
      ensures ok <==> exists i :: 0 <= i < |old(contents)| && old(contents)[i].base == base
      ensures !ok ==> nodes == old(nodes) && contents == old(contents)
      ensures ok ==> k < |old(contents)| && old(contents)[k].base == base
      ensures ok ==> contents == old(contents)[..k] + old(contents)[k + 1..]
    {
      var r := head;
      k := 0;
      while r != null && r.base != base
        invariant 0 <= k <= |nodes| && r == if k == |nodes| then null else nodes[k]
        invariant forall i :: 0 <= i < k ==> contents[i].base != base
        decreases |nodes| - k
      {
        assert r.Value() == contents[k];
        assert k + 1 < |nodes| ==> r.next == nodes[k + 1];
        r := r.next;
        k := k + 1;
      }
      if r == null {
        return false, k;
      }
      TakeOut(r, k);
      ok := true;
    }

    method TakeOut(r: VRegion, ghost k: nat)
      requires Valid() && k < |nodes| && r == nodes[k]
      modifies this`head, this`nodes, this`regionCount, this`contents, nodes`prev, nodes`next
      ensures Valid() && contents == old(contents)[..k] + old(contents)[k + 1..]
    {
      RemoveKeepsSorted(contents, k);
      MirrorsCut(nodes, contents, k);
      contents := contents[..k] + contents[k + 1..];
      regionCount := regionCount - 1;
      LinkOut(r, k);
    }
  }
}
