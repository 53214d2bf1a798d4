/** Address spaces as their users see them: a set of spaces, each a function from addresses to
    bytes.  Stores, and what composes from them. */
module UserView {
  import opened PhysMemory

  const USER_TOP: nat := 0x8000_0000_0000

  datatype Users = Users(roots: set<nat>, at: (nat, nat) -> Byte)

  /** In v the bytes `bs` are stored at lo in the space `root`; every other byte of every space is
      as in u. */
  ghost predicate Stored(u: Users, v: Users, root: nat, lo: nat, bs: seq<Byte>) {
    && u.roots <= v.roots
    && forall r, va: nat {:trigger v.at(r, va)} :: r in u.roots && va < USER_TOP ==>
         v.at(r, va) == if r == root && lo <= va < lo + |bs| then bs[va - lo] else u.at(r, va)
  }

  ghost predicate Same(u: Users, v: Users) {
    && u.roots <= v.roots
    && forall r, va: nat {:trigger v.at(r, va)} :: r in u.roots && va < USER_TOP ==> v.at(r, va) == u.at(r, va)
  }

  /** Every byte is as before, except that one page of one space may have been cleared. */
  ghost predicate ClearsAtMost(u: Users, v: Users, root: nat, vpn: nat) {
    && u.roots <= v.roots
    && forall r, va: nat {:trigger v.at(r, va)} :: r in u.roots && va < USER_TOP ==>
         v.at(r, va) == u.at(r, va) || (r == root && va / PAGE == vpn && v.at(r, va) == 0)
  }

  lemma StoredNothing(u: Users, v: Users, root: nat, lo: nat)
    ensures Same(u, v) <==> Stored(u, v, root, lo, [])
  {
  }

  lemma StoredThenStored(u: Users, v: Users, w: Users, root: nat, lo: nat, bs: seq<Byte>, cs: seq<Byte>)
    requires Stored(u, v, root, lo, bs) && Stored(v, w, root, lo + |bs|, cs)
    ensures Stored(u, w, root, lo, bs + cs)
  {
    forall r, va: nat | r in u.roots && va < USER_TOP
      ensures w.at(r, va) == if r == root && lo <= va < lo + |bs + cs| then (bs + cs)[va - lo] else u.at(r, va)
    {
      var x := v.at(r, va);
    }
  }

  lemma StoredThenSame(u: Users, v: Users, w: Users, root: nat, lo: nat, bs: seq<Byte>)
    requires Stored(u, v, root, lo, bs) && Same(v, w)
    ensures Stored(u, w, root, lo, bs)
  {
    StoredNothing(v, w, root, lo + |bs|);
    StoredThenStored(u, v, w, root, lo, bs, []);
    assert bs + [] == bs;
  }

  lemma SameThenStored(u: Users, v: Users, w: Users, root: nat, lo: nat, bs: seq<Byte>)
    requires Same(u, v) && Stored(v, w, root, lo, bs)
    ensures Stored(u, w, root, lo, bs)
  {
    StoredNothing(u, v, root, lo);
    StoredThenStored(u, v, w, root, lo, [], bs);
    assert [] + bs == bs;
  }

  lemma SameTransitive(u: Users, v: Users, w: Users)
    requires Same(u, v) && Same(v, w)
    ensures Same(u, w)
  {
    forall r, va: nat | r in u.roots && va < USER_TOP
      ensures w.at(r, va) == u.at(r, va)
    {
      var x := v.at(r, va);
    }
  }

  lemma SameThenClears(u: Users, v: Users, w: Users, root: nat, vpn: nat)
    requires Same(u, v) && ClearsAtMost(v, w, root, vpn)
    ensures ClearsAtMost(u, w, root, vpn)
  {
    forall r, va: nat | r in u.roots && va < USER_TOP
      ensures w.at(r, va) == u.at(r, va) || (r == root && va / PAGE == vpn && w.at(r, va) == 0)
    {
      var x := v.at(r, va);
    }
  }

  /** The bytes [lo, lo + n) of a space. */
  function Slice(u: Users, root: nat, lo: nat, n: nat): (bs: seq<Byte>)
    ensures |bs| == n && forall i :: 0 <= i < n ==> bs[i] == u.at(root, lo + i)
  {
    seq<Byte>(n, i requires 0 <= i < n => u.at(root, lo + i))
  }

  lemma SliceAppend(u: Users, root: nat, lo: nat, d: nat, n: nat)
    ensures Slice(u, root, lo, d) + Slice(u, root, lo + d, n) == Slice(u, root, lo, d + n)
  {
  }

  lemma SliceSame(u: Users, v: Users, root: nat, lo: nat, n: nat)
    requires Same(u, v) && root in u.roots && lo + n <= USER_TOP
    ensures Slice(v, root, lo, n) == Slice(u, root, lo, n)
  {
  }

  /** What was stored is read back, across any page boundaries and after any amount of demand
      paging in between. */
  lemma StoredIsReadBack(u: Users, v: Users, w: Users, root: nat, lo: nat, bs: seq<Byte>)
    requires Stored(u, v, root, lo, bs) && Same(v, w) && root in u.roots && lo + |bs| <= USER_TOP
    ensures Slice(w, root, lo, |bs|) == bs
  {
    StoredThenSame(u, v, w, root, lo, bs);
    forall i | 0 <= i < |bs|
      ensures Slice(w, root, lo, |bs|)[i] == bs[i]
    {
      assert w.at(root, lo + i) == bs[lo + i - lo];
    }
  }

  /** Bytes outside the stored range are read as before. */
  lemma SliceElsewhere(u: Users, v: Users, root: nat, lo: nat, bs: seq<Byte>, a: nat, n: nat)
    requires Stored(u, v, root, lo, bs) && root in u.roots && a + n <= USER_TOP
    requires a + n <= lo || lo + |bs| <= a
    ensures Slice(v, root, a, n) == Slice(u, root, a, n)
  {
    forall i | 0 <= i < n
      ensures Slice(v, root, a, n)[i] == Slice(u, root, a, n)[i]
    {
      assert v.at(root, a + i) == u.at(root, a + i);
    }
  }
}
