/** The initial user stack of section 3.4.1 of the System V AMD64 psABI, up to the auxiliary vector,
    as bytes of an address space: strings, pointer words, and what stays put while more is pushed
    below. */
module StackLayout {
  import opened PhysMemory
  import opened UserView

  const STACK_TOP: nat := 0x7FFF_0000_0000

  /** A C string: no NUL inside. */
  type CStr = s: seq<Byte> | 0 !in s witness []

  function WordAt(u: Users, root: nat, a: nat): nat { Le(Slice(u, root, a, 8)) }

  /** The string s stands at p, intact and NUL-terminated. */
  predicate StringAt(u: Users, root: nat, p: nat, s: CStr) {
    Slice(u, root, p, |s| + 1) == s + [0]
  }

  /** Only bytes of `root` in [lo, hi) may differ. */
  ghost predicate Confined(u: Users, v: Users, root: nat, lo: nat, hi: nat) {
    && u.roots <= v.roots
    && forall r, va: nat {:trigger v.at(r, va)} :: r in u.roots && va < USER_TOP && !(r == root && lo <= va < hi) ==>
         v.at(r, va) == u.at(r, va)
  }

  lemma StoredIsConfined(u: Users, v: Users, root: nat, lo: nat, bs: seq<Byte>)
    requires Stored(u, v, root, lo, bs)
    ensures Confined(u, v, root, lo, lo + |bs|)
  {
  }

  lemma ConfinedThen(u: Users, v: Users, w: Users, root: nat, lo: nat, mid: nat, hi: nat)
    requires Confined(u, v, root, mid, hi) && Confined(v, w, root, lo, mid) && lo <= mid <= hi
    ensures Confined(u, w, root, lo, hi)
  {
    forall r, va: nat | r in u.roots && va < USER_TOP && !(r == root && lo <= va < hi)
      ensures w.at(r, va) == u.at(r, va)
    {
      var x := v.at(r, va);
    }
  }

  lemma ConfinedSlice(u: Users, v: Users, root: nat, lo: nat, hi: nat, a: nat, n: nat)
    requires Confined(u, v, root, lo, hi) && root in u.roots && hi <= a && a + n <= USER_TOP
    ensures Slice(v, root, a, n) == Slice(u, root, a, n)
  {
    forall i | 0 <= i < n
      ensures Slice(v, root, a, n)[i] == Slice(u, root, a, n)[i]
    {
      assert v.at(root, a + i) == u.at(root, a + i);
    }
  }

  // ---- Strings and words on the stack ------------------------------------------------------------

  /** The string s stands at p, between lo and the top of the stack. */
  predicate Standing(u: Users, root: nat, lo: nat, p: nat, s: CStr) {
    lo <= p && p + |s| + 1 <= STACK_TOP && StringAt(u, root, p, s)
  }

  predicate Strings(u: Users, root: nat, lo: nat, ss: seq<CStr>, ptrs: seq<nat>) {
    |ptrs| == |ss| && forall i :: 0 <= i < |ss| ==> Standing(u, root, lo, ptrs[i], ss[i])
  }

  /** The words ws stand from sp upward. */
  predicate Words(u: Users, root: nat, sp: nat, ws: seq<nat>) {
    sp + 8 * |ws| <= STACK_TOP && forall i :: 0 <= i < |ws| ==> WordAt(u, root, sp + 8 * i) == ws[i]
  }

  lemma StringsStay(u: Users, v: Users, root: nat, lo: nat, hi: nat, ss: seq<CStr>, ptrs: seq<nat>)
    requires Strings(u, root, hi, ss, ptrs) && Confined(u, v, root, lo, hi) && root in u.roots && lo <= hi
    ensures Strings(v, root, lo, ss, ptrs)
  {
    forall i | 0 <= i < |ss|
      ensures Standing(v, root, lo, ptrs[i], ss[i])
    {
      assert Standing(u, root, hi, ptrs[i], ss[i]);
      ConfinedSlice(u, v, root, lo, hi, ptrs[i], |ss[i]| + 1);
    }
  }

  lemma WordsStay(u: Users, v: Users, root: nat, lo: nat, hi: nat, ws: seq<nat>)
    requires Words(u, root, hi, ws) && Confined(u, v, root, lo, hi) && root in u.roots
    ensures Words(v, root, hi, ws)
  {
    forall i | 0 <= i < |ws|
      ensures WordAt(v, root, hi + 8 * i) == ws[i]
    {
      ConfinedSlice(u, v, root, lo, hi, hi + 8 * i, 8);
      assert WordAt(u, root, hi + 8 * i) == ws[i];
    }
  }

  lemma WordsJoin(u: Users, root: nat, sp: nat, ws: seq<nat>, more: seq<nat>)
    requires Words(u, root, sp, ws) && Words(u, root, sp + 8 * |ws|, more)
    ensures Words(u, root, sp, ws + more)
  {
    forall i | 0 <= i < |ws + more|
      ensures WordAt(u, root, sp + 8 * i) == (ws + more)[i]
    {
      if i >= |ws| {
        assert WordAt(u, root, sp + 8 * |ws| + 8 * (i - |ws|)) == more[i - |ws|];
      } else {
        assert WordAt(u, root, sp + 8 * i) == ws[i];
      }
    }
  }

  lemma WordOnTop(u: Users, root: nat, sp: nat, above: nat, w: nat, ws: seq<nat>)
    requires Words(u, root, sp, [w]) && Words(u, root, above, ws) && above == sp + 8
    ensures Words(u, root, sp, [w] + ws)
  {
    assert above == sp + 8 * |[w]|;
    WordsJoin(u, root, sp, [w], ws);
  }

  // ---- The text of the strings ------------------------------------------------------------------------

  function Size(ss: seq<CStr>): nat { if ss == [] then 0 else |ss[0]| + 1 + Size(ss[1..]) }

  /** The strings one after the other, each with its terminator. */
  function Text(ss: seq<CStr>): (bs: seq<Byte>)
    ensures |bs| == Size(ss)
  {
    if ss == [] then [] else ss[0] + [0] + Text(ss[1..])
  }

  lemma {:induction false} TextAppend(a: seq<CStr>, b: seq<CStr>)
    ensures Text(a + b) == Text(a) + Text(b)
    decreases a
  {
    if a == [] {
      assert a + b == b;
    } else {
      assert (a + b)[1..] == a[1..] + b;
      TextAppend(a[1..], b);
      assert a[0] + [0] + (Text(a[1..]) + Text(b)) == a[0] + [0] + Text(a[1..]) + Text(b);
    }
  }

  predicate Nulls(bs: seq<Byte>, m: nat) { forall k :: 0 <= k < m && k < |bs| ==> bs[k] == 0 }

  predicate Empties(ss: seq<CStr>, m: nat) { forall i :: 0 <= i < m && i < |ss| ==> ss[i] == [] }

  /** The first m bytes of the text are null exactly when the first m strings are empty. */
  lemma {:induction false} NullText(ss: seq<CStr>, m: nat)
    ensures Nulls(Text(ss), m) <==> Empties(ss, m)
    decreases ss, m
  {
    if m > 0 && ss != [] {
      if ss[0] != [] {
        FirstNotNull(ss[0], Text(ss[1..]), m);
        assert !Empties(ss, m);
      } else {
        TextOfEmpty(ss);
        NullText(ss[1..], m - 1);
        NullShift(Text(ss[1..]), m);
        EmptyShift(ss[1..], m);
      }
    }
  }

  lemma TextOfEmpty(ss: seq<CStr>)
    requires ss != [] && ss[0] == []
    ensures Text(ss) == [0] + Text(ss[1..]) && ss == [[]] + ss[1..]
  {
    var rest := Text(ss[1..]);
    assert [] + [0] + rest == [0] + rest;
  }

  lemma FirstNotNull(s: CStr, rest: seq<Byte>, m: nat)
    requires s != [] && m > 0
    ensures !Nulls(s + [0] + rest, m)
  {
    assert s[0] in s && (s + [0] + rest)[0] == s[0];
  }

  lemma NullShift(t: seq<Byte>, m: nat)
    requires 0 < m
    ensures Nulls([0] + t, m) <==> Nulls(t, m - 1)
  {
    var s := [0] + t;
    if Nulls(s, m) {
      forall k | 0 <= k < m - 1 && k < |t|
        ensures t[k] == 0
      {
        assert s[k + 1] == t[k];
      }
    }
  }

  lemma EmptyShift(rest: seq<CStr>, m: nat)
    requires 0 < m
    ensures Empties([[]] + rest, m) <==> Empties(rest, m - 1)
  {
    var ss := [[]] + rest;
    if Empties(ss, m) {
      forall i | 0 <= i < m - 1 && i < |rest|
        ensures rest[i] == []
      {
        assert ss[i + 1] == rest[i];
      }
    }
  }

  predicate Spelled(k: nat) { true }

  /** These bytes stand at p; stated behind a trigger because pushing only hands it on. */
  ghost predicate TextAt(u: Users, root: nat, p: nat, bs: seq<Byte>) {
    p + |bs| <= STACK_TOP && forall k: nat {:trigger Spelled(k)} :: Spelled(k) ==> Slice(u, root, p, |bs|) == bs
  }

  lemma TextGrows(u: Users, root: nat, p: nat, q: nat, a: seq<Byte>, b: seq<Byte>)
    requires Slice(u, root, p, |a|) == a && TextAt(u, root, q, b) && q == p + |a|
    ensures TextAt(u, root, p, a + b)
  {
    assert Spelled(0);
    SliceAppend(u, root, p, |a|, |b|);
  }

  // ---- What a process finds at entry ----------------------------------------------------------------

  /** argc, the argument pointers, NULL, the environment pointers, NULL; sp on a 16-byte boundary. */
  ghost predicate EntryStack(u: Users, root: nat, sp: nat, args: seq<CStr>, envs: seq<CStr>) {
    && sp % 16 == 0
    && WordAt(u, root, sp) == |args|
    && (forall i :: 0 <= i < |args| ==> PointerTo(u, root, sp + 8 + 8 * i, args[i]))
    && WordAt(u, root, sp + 8 + 8 * |args|) == 0
    && (forall i :: 0 <= i < |envs| ==> PointerTo(u, root, sp + 16 + 8 * |args| + 8 * i, envs[i]))
    && WordAt(u, root, sp + 16 + 8 * |args| + 8 * |envs|) == 0
  }

  /** The word above the environment's NULL, where the ABI has the auxiliary vector begin. */
  function AuxWord(u: Users, root: nat, sp: nat, args: seq<CStr>, envs: seq<CStr>): nat {
    WordAt(u, root, sp + 24 + 8 * |args| + 8 * |envs|)
  }

  predicate PointerTo(u: Users, root: nat, a: nat, s: CStr) { StringAt(u, root, WordAt(u, root, a), s) }

  lemma LayoutIsEntryStack(u: Users, root: nat, sp: nat, lo: nat, args: seq<CStr>, envs: seq<CStr>, argp: seq<nat>,
                           envp: seq<nat>)
    requires sp % 16 == 0 && Words(u, root, sp, [|args|] + argp + [0] + envp + [0])
    requires Strings(u, root, lo, args, argp) && Strings(u, root, lo, envs, envp)
    ensures EntryStack(u, root, sp, args, envs)
  {
    var ws := [|args|] + argp + [0] + envp + [0];
    assert WordAt(u, root, sp + 8 * 0) == ws[0];
    forall i | 0 <= i < |args|
      ensures PointerTo(u, root, sp + 8 + 8 * i, args[i])
    {
      assert WordAt(u, root, sp + 8 * (i + 1)) == ws[i + 1] == argp[i];
      assert Standing(u, root, lo, argp[i], args[i]);
    }
    assert WordAt(u, root, sp + 8 * (1 + |args|)) == ws[1 + |args|];
    forall i | 0 <= i < |envs|
      ensures PointerTo(u, root, sp + 16 + 8 * |args| + 8 * i, envs[i])
    {
      assert WordAt(u, root, sp + 8 * (2 + |args| + i)) == ws[2 + |args| + i] == envp[i];
      assert Standing(u, root, lo, envp[i], envs[i]);
    }
    assert WordAt(u, root, sp + 8 * (2 + |args| + |envs|)) == ws[2 + |args| + |envs|];
  }
}
