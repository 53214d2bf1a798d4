/** exec's stack builder: strings and pointer words pushed downward through a page map whose pages
    are already backed. */
module UserStack {
  import opened PhysMemory
  import opened PageTables
  import opened AddressSpaces
  import opened UserView
  import opened UserMemory
  import opened StackLayout

  const LIST_MAX := 63

  /** The address space is in order; stated behind a trigger because pushing only hands it on. */
  ghost predicate Ready(amm: Amm, root: nat)
    reads amm, amm.phys
  {
    forall k: nat {:trigger Entered(k)} :: Entered(k) ==> amm.Valid() && IsRoot(amm.View(), root)
  }

  /** One memcpy of vm_copy_to_user: bytes into the page at va. */
  method CopyChunk(amm: Amm, root: nat, va: nat, f: nat, bs: seq<Byte>)
    requires Ready(amm, root) && Translate(amm.mem, root, va / PAGE) == Some(f)
    requires va < USER_TOP && va % PAGE + |bs| <= PAGE
    modifies amm`mem
    ensures Ready(amm, root) && SameMap(old(amm.mem), amm.mem, root)
    ensures Stored(old(UsersOf(amm.View())), UsersOf(amm.View()), root, va, bs)
  {
    assert Entered(0);
    ghost var y := amm.View();
    StoreInFrame(y, root, va, bs);
    PokedMap(y, root, va / PAGE, va % PAGE, bs);
    amm.mem := Poked(amm.mem, f, va % PAGE, bs);
    assert amm.View() == y.(mem := Poked(y.mem, f, va % PAGE, bs));
  }

  /** vm_copy_to_user: succeeds exactly when every page is present, and then stores all of src. */
  method VmCopyToUser(amm: Amm, root: nat, dst: nat, src: seq<Byte>) returns (ok: bool)
    requires Ready(amm, root) && dst + |src| <= USER_TOP
    modifies amm`mem
    ensures Ready(amm, root) && SameMap(old(amm.mem), amm.mem, root)
    ensures ok <==> MappedRange(old(amm.mem), root, dst, dst + |src|)
    ensures ok ==> Stored(old(UsersOf(amm.View())), UsersOf(amm.View()), root, dst, src)
    ensures Confined(old(UsersOf(amm.View())), UsersOf(amm.View()), root, dst, dst + |src|)
  {
    ghost var u0, m0 := UsersOf(amm.View()), amm.mem;
    var d := 0;
    StoredNothing(u0, u0, root, dst);
    ok := true;
    while d < |src| && ok
      invariant d <= |src| && Ready(amm, root) && SameMap(m0, amm.mem, root)
      invariant Stored(u0, UsersOf(amm.View()), root, dst, src[..d])
      invariant MappedRange(m0, root, dst, dst + d) && (ok || !MappedRange(m0, root, dst, dst + |src|))
      decreases |src| - d, ok
    {
      var chunk := Min(PAGE - (dst + d) % PAGE, |src| - d);
      assert src[..d] + src[d..d + chunk] == src[..d + chunk];
      RangeStep(m0, root, dst, d, chunk, |src|);
      ok := CopyRound(amm, root, dst + d, src[d..d + chunk], dst, src[..d], u0, m0);
      if ok {
        d := d + chunk;
      }
    }
    StoredIsConfined(u0, UsersOf(amm.View()), root, dst, src[..d]);
    assert d == |src| ==> src[..d] == src;
  }

  /** One round, extending the bytes already stored; u0 and m0 are from when the copy began. */
  method CopyRound(amm: Amm, root: nat, va: nat, part: seq<Byte>, ghost dst: nat, ghost head: seq<Byte>,
                   ghost u0: Users, ghost m0: Memory)
    returns (ok: bool)
    requires Ready(amm, root) && SameMap(m0, amm.mem, root) && va < USER_TOP && va % PAGE + |part| <= PAGE
    requires va == dst + |head| && Stored(u0, UsersOf(amm.View()), root, dst, head)
    modifies amm`mem
    ensures Ready(amm, root) && SameMap(m0, amm.mem, root) && (ok <==> MappedAt(m0, root, va))
    ensures ok ==> Stored(u0, UsersOf(amm.View()), root, dst, head + part)
    ensures !ok ==> Stored(u0, UsersOf(amm.View()), root, dst, head)
  {
    ghost var u1 := UsersOf(amm.View());
    MappedSame(m0, amm.mem, root, va);
    var t := Translate(amm.mem, root, va / PAGE);
    ok := t != None;
    if ok {
      CopyChunk(amm, root, va, t.value, part);
    }
    StoredMaybe(u0, u1, UsersOf(amm.View()), root, dst, va, head, part, ok);
  }

  lemma RangeStep(mem: Memory, root: nat, dst: nat, d: nat, chunk: nat, n: nat)
    requires MappedRange(mem, root, dst, dst + d) && (dst + d) % PAGE + chunk <= PAGE && d + chunk <= n && chunk > 0
    ensures MappedAt(mem, root, dst + d) ==> MappedRange(mem, root, dst, dst + d + chunk)
    ensures !MappedAt(mem, root, dst + d) ==> !MappedRange(mem, root, dst, dst + n)
  {
    if MappedAt(mem, root, dst + d) {
      SamePage(mem, root, dst + d, chunk);
    }
  }

  lemma SamePage(mem: Memory, root: nat, va: nat, n: nat)
    requires MappedAt(mem, root, va) && va % PAGE + n <= PAGE
    ensures MappedRange(mem, root, va, va + n)
  {
    forall x: nat | va <= x < va + n
      ensures MappedAt(mem, root, x)
    {
      assert x / PAGE == va / PAGE;
    }
  }

  // ---- Pushing ------------------------------------------------------------------------------------------

  predicate Shown(k: nat) { true }

  /** What one or more pushes from sp down to sp' do besides storing their bytes: they write only
      below sp, and move no page.  The detail stands behind a trigger. */
  ghost predicate Pushed(u: Users, u': Users, mem: Memory, mem': Memory, root: nat, sp': nat, sp: nat) {
    && sp' <= sp && root in u.roots && root in u'.roots
    && forall k: nat {:trigger Shown(k)} :: Shown(k) ==> Confined(u, u', root, sp', sp) && SameMap(mem, mem', root)
  }

  lemma PushedNothing(u: Users, mem: Memory, root: nat, sp: nat)
    requires root in u.roots
    ensures Pushed(u, u, mem, mem, root, sp, sp)
  {
  }

  lemma PushedThen(u: Users, v: Users, w: Users, m0: Memory, m1: Memory, m2: Memory, root: nat, lo: nat, mid: nat,
                   hi: nat)
    requires Pushed(u, v, m0, m1, root, mid, hi) && Pushed(v, w, m1, m2, root, lo, mid)
    ensures Pushed(u, w, m0, m2, root, lo, hi)
  {
    assert Shown(0);
    ConfinedThen(u, v, w, root, lo, mid, hi);
  }

  lemma PushedMaps(u: Users, v: Users, mem: Memory, mem': Memory, root: nat, lo: nat, hi: nat, a: nat, b: nat)
    requires Pushed(u, v, mem, mem', root, lo, hi) && b <= USER_TOP
    ensures MappedRange(mem, root, a, b) <==> MappedRange(mem', root, a, b)
  {
    assert Shown(0);
    MappedStays(mem, mem', root, a, b);
  }

  lemma PushedStrings(u: Users, v: Users, mem: Memory, mem': Memory, root: nat, lo: nat, hi: nat, ss: seq<CStr>,
                      ptrs: seq<nat>)
    requires Pushed(u, v, mem, mem', root, lo, hi) && Strings(u, root, hi, ss, ptrs)
    ensures Strings(v, root, lo, ss, ptrs)
  {
    assert Shown(0);
    StringsStay(u, v, root, lo, hi, ss, ptrs);
  }

  lemma PushedText(u: Users, v: Users, mem: Memory, mem': Memory, root: nat, lo: nat, hi: nat, p: nat, bs: seq<Byte>)
    requires Pushed(u, v, mem, mem', root, lo, hi) && TextAt(u, root, p, bs) && hi <= p
    ensures TextAt(v, root, p, bs)
  {
    assert Shown(0) && Spelled(0);
    ConfinedSlice(u, v, root, lo, hi, p, |bs|);
  }

  lemma PushedWords(u: Users, v: Users, mem: Memory, mem': Memory, root: nat, lo: nat, hi: nat, ws: seq<nat>)
    requires Pushed(u, v, mem, mem', root, lo, hi) && Words(u, root, hi, ws)
    ensures Words(v, root, hi, ws)
  {
    assert Shown(0);
    WordsStay(u, v, root, lo, hi, ws);
  }

  /** push_user_bytes. */
  method PushBytes(amm: Amm, root: nat, sp: nat, bs: seq<Byte>) returns (ok: bool, sp': nat)
    requires Ready(amm, root) && |bs| <= sp <= STACK_TOP
    modifies amm`mem
    ensures Ready(amm, root) && sp' == sp - |bs| && (ok <==> MappedRange(old(amm.mem), root, sp', sp))
    ensures Pushed(old(UsersOf(amm.View())), UsersOf(amm.View()), old(amm.mem), amm.mem, root, sp', sp)
    ensures ok ==> Slice(UsersOf(amm.View()), root, sp', |bs|) == bs
  {
    assert Entered(0);
    sp' := sp - |bs|;
    ghost var u := UsersOf(amm.View());
    ok := VmCopyToUser(amm, root, sp', bs);
    if ok {
      ghost var v := UsersOf(amm.View());
      StoredIsReadBack(u, v, v, root, sp', bs);
    }
  }

  /** push_user_u64. */
  method PushWord(amm: Amm, root: nat, sp: nat, w: nat) returns (ok: bool, sp': nat)
    requires Ready(amm, root) && 8 <= sp <= STACK_TOP && w < WORD
    modifies amm`mem
    ensures Ready(amm, root) && sp' == sp - 8 && (ok <==> MappedRange(old(amm.mem), root, sp', sp))
    ensures Pushed(old(UsersOf(amm.View())), UsersOf(amm.View()), old(amm.mem), amm.mem, root, sp', sp)
    ensures ok ==> Words(UsersOf(amm.View()), root, sp', [w])
  {
    var bs := Bytes(w, 8);
    WordBytes(w);
    ok, sp' := PushBytes(amm, root, sp, bs);
    if ok {
      OneWord(UsersOf(amm.View()), root, sp', bs, w);
    }
  }

  lemma WordBytes(w: nat)
    requires w < WORD
    ensures |Bytes(w, 8)| == 8 && Le(Bytes(w, 8)) == w
  {
    assert Pow256(8) == WORD;
    LoadAfterStore(w, 8);
  }

  lemma OneWord(u: Users, root: nat, sp: nat, bs: seq<Byte>, w: nat)
    requires |bs| == 8 && Slice(u, root, sp, 8) == bs && Le(bs) == w && sp + 8 <= STACK_TOP
    ensures Words(u, root, sp, [w])
  {
    assert WordAt(u, root, sp + 8 * 0) == w;
  }

  lemma SizeSplit(ss: seq<CStr>, i: nat)
    requires i < |ss|
    ensures Size(ss[i..]) == |ss[i]| + 1 + Size(ss[i + 1..])
  {
    assert ss[i..][0] == ss[i] && ss[i..][1..] == ss[i + 1..];
  }

  lemma TextSplit(ss: seq<CStr>, i: nat, above: seq<Byte>)
    requires i < |ss|
    ensures Text(ss[i..]) + above == ss[i] + [0] + (Text(ss[i + 1..]) + above)
  {
    var s, t := ss[i] + [0], Text(ss[i + 1..]);
    assert ss[i..][0] == ss[i] && ss[i..][1..] == ss[i + 1..];
    assert s + t + above == s + (t + above);
  }

  lemma {:induction false} SizeSuffix(ss: seq<CStr>, i: nat)
    requires i <= |ss|
    ensures Size(ss[i..]) <= Size(ss)
    decreases |ss|, i
  {
    if i == 0 {
      assert ss[0..] == ss;
    } else {
      assert ss[i..] == ss[1..][i - 1..];
      SizeSuffix(ss[1..], i - 1);
    }
  }

  /** One string below the strings already pushed. */
  method PushString(amm: Amm, root: nat, sp: nat, s: CStr, ghost rest: seq<CStr>, ghost ptrs: seq<nat>,
                    ghost above: seq<Byte>)
    returns (ok: bool, sp': nat)
    requires Ready(amm, root) && |s| + 1 <= sp <= STACK_TOP && Strings(UsersOf(amm.View()), root, sp, rest, ptrs)
    requires TextAt(UsersOf(amm.View()), root, sp, above)
    modifies amm`mem
    ensures Ready(amm, root) && sp' == sp - |s| - 1 && (ok <==> MappedRange(old(amm.mem), root, sp', sp))
    ensures Pushed(old(UsersOf(amm.View())), UsersOf(amm.View()), old(amm.mem), amm.mem, root, sp', sp)
    ensures ok ==> Strings(UsersOf(amm.View()), root, sp', [s] + rest, [sp'] + ptrs)
    ensures ok ==> TextAt(UsersOf(amm.View()), root, sp', s + [0] + above)
  {
    ghost var u, m := UsersOf(amm.View()), amm.mem;
    ok, sp' := PushBytes(amm, root, sp, s + [0]);
    ghost var v := UsersOf(amm.View());
    PushedStrings(u, v, m, amm.mem, root, sp', sp, rest, ptrs);
    PushedText(u, v, m, amm.mem, root, sp', sp, sp, above);
    if ok {
      StringsGrow(v, root, sp', s, rest, ptrs);
      TextGrows(v, root, sp', sp, s + [0], above);
    }
  }

  lemma StringsGrow(u: Users, root: nat, sp: nat, s: CStr, rest: seq<CStr>, ptrs: seq<nat>)
    requires Strings(u, root, sp, rest, ptrs) && Slice(u, root, sp, |s| + 1) == s + [0] && sp + |s| + 1 <= STACK_TOP
    ensures Strings(u, root, sp, [s] + rest, [sp] + ptrs)
  {
    forall i | 0 <= i < |rest| + 1
      ensures Standing(u, root, sp, ([sp] + ptrs)[i], ([s] + rest)[i])
    {
      if i > 0 {
        assert Standing(u, root, sp, ptrs[i - 1], rest[i - 1]);
      }
    }
  }

  /** The string loops of build_user_stack_vm: last string first. */
  method PushStrings(amm: Amm, root: nat, sp: nat, ss: seq<CStr>, ghost above: seq<Byte>)
    returns (ok: bool, sp': nat, ptrs: seq<nat>)
    requires Ready(amm, root) && Size(ss) <= sp <= STACK_TOP && root in UsersOf(amm.View()).roots
    requires TextAt(UsersOf(amm.View()), root, sp, above)
    modifies amm`mem
    ensures Ready(amm, root) && (ok ==> sp' == sp - Size(ss) && Strings(UsersOf(amm.View()), root, sp', ss, ptrs))
    ensures Pushed(old(UsersOf(amm.View())), UsersOf(amm.View()), old(amm.mem), amm.mem, root, sp', sp)
    ensures MappedRange(old(amm.mem), root, sp - Size(ss), sp) ==> ok
    ensures ok ==> TextAt(UsersOf(amm.View()), root, sp', Text(ss) + above)
  {
    ghost var u0, m0 := UsersOf(amm.View()), amm.mem;
    sp', ptrs, ok := sp, [], true;
    PushedNothing(u0, m0, root, sp);
    assert ss[|ss|..] == [] && [] + above == above;
    var i := |ss|;
    while i > 0 && ok
      invariant 0 <= i <= |ss| && Ready(amm, root) && Pushed(u0, UsersOf(amm.View()), m0, amm.mem, root, sp', sp)
      invariant ok ==> sp' == sp - Size(ss[i..]) && Strings(UsersOf(amm.View()), root, sp', ss[i..], ptrs)
      invariant MappedRange(m0, root, sp - Size(ss), sp) ==> ok
      invariant ok ==> TextAt(UsersOf(amm.View()), root, sp', Text(ss[i..]) + above)
      decreases i, ok
    {
      ghost var u, m, top := UsersOf(amm.View()), amm.mem, sp';
      SizeSplit(ss, i - 1);
      SizeSuffix(ss, i - 1);
      assert ss[i - 1..] == [ss[i - 1]] + ss[i..];
      TextSplit(ss, i - 1, above);
      PushedMaps(u0, u, m0, m, root, sp', sp, sp' - |ss[i - 1]| - 1, sp');
      ok, sp' := PushString(amm, root, sp', ss[i - 1], ss[i..], ptrs, Text(ss[i..]) + above);
      PushedThen(u0, u, UsersOf(amm.View()), m0, m, amm.mem, root, sp', top, sp);
      if ok {
        i, ptrs := i - 1, [sp'] + ptrs;
      }
    }
    assert ss[0..] == ss;
  }

  // ---- The pointer section --------------------------------------------------------------------------------

  /** Where a chain of pushes that began at `top` in (u0, m0) stands, with words ws at sp. */
  ghost predicate Chain(amm: Amm, root: nat, u0: Users, m0: Memory, top: nat, sp: nat, ws: seq<nat>)
    reads amm, amm.phys
  {
    && Ready(amm, root) && Pushed(u0, UsersOf(amm.View()), m0, amm.mem, root, sp, top) && top <= STACK_TOP
    && Words(UsersOf(amm.View()), root, sp, ws)
  }

  predicate Pointers(ps: seq<nat>) { forall i :: 0 <= i < |ps| ==> ps[i] < WORD }

  method PushWordOn(amm: Amm, root: nat, sp: nat, w: nat, ghost u0: Users, ghost m0: Memory, ghost top: nat,
                    ghost ws: seq<nat>)
    returns (ok: bool, sp': nat)
    requires Chain(amm, root, u0, m0, top, sp, ws) && 8 <= sp && w < WORD
    modifies amm`mem
    ensures sp' == sp - 8 && (ok ==> Chain(amm, root, u0, m0, top, sp', [w] + ws))
    ensures !ok ==> !MappedRange(m0, root, sp', sp)
    ensures Ready(amm, root) && Pushed(u0, UsersOf(amm.View()), m0, amm.mem, root, sp', top)
  {
    ghost var u, m := UsersOf(amm.View()), amm.mem;
    ok, sp' := PushWord(amm, root, sp, w);
    ghost var v := UsersOf(amm.View());
    PushedMaps(u0, u, m0, m, root, sp, top, sp', sp);
    PushedThen(u0, u, v, m0, m, amm.mem, root, sp', sp, top);
    PushedWords(u, v, m, amm.mem, root, sp', sp, ws);
    if ok {
      WordOnTop(v, root, sp', sp, w, ws);
    }
  }

  /** A pointer loop of build_user_stack_vm: last pointer first. */
  method PushWords(amm: Amm, root: nat, sp: nat, ps: seq<nat>, ghost u0: Users, ghost m0: Memory, ghost top: nat,
                   ghost ws: seq<nat>)
    returns (ok: bool, sp': nat)
    requires Chain(amm, root, u0, m0, top, sp, ws) && 8 * |ps| <= sp && Pointers(ps)
    modifies amm`mem
    ensures ok ==> sp' == sp - 8 * |ps| && Chain(amm, root, u0, m0, top, sp', ps + ws)
    ensures !ok ==> !MappedRange(m0, root, sp - 8 * |ps|, sp)
    ensures Ready(amm, root) && Pushed(u0, UsersOf(amm.View()), m0, amm.mem, root, sp', top)
  {
    sp', ok := sp, true;
    var i := |ps|;
    assert ps[|ps|..] + ws == ws;
    while i > 0 && ok
      invariant 0 <= i <= |ps| && Ready(amm, root) && Pushed(u0, UsersOf(amm.View()), m0, amm.mem, root, sp', top)
      invariant ok ==> sp' == sp - 8 * (|ps| - i) && Chain(amm, root, u0, m0, top, sp', ps[i..] + ws)
      invariant !ok ==> !MappedRange(m0, root, sp - 8 * |ps|, sp)
      decreases i, ok
    {
      assert ps[i - 1..] + ws == [ps[i - 1]] + (ps[i..] + ws);
      ok, sp' := PushWordOn(amm, root, sp', ps[i - 1], u0, m0, top, ps[i..] + ws);
      if ok {
        i := i - 1;
      }
    }
    assert ps[0..] == ps;
  }

  function Cut(ss: seq<CStr>): seq<CStr> { if |ss| > LIST_MAX then ss[..LIST_MAX] else ss }

  function AlignDown(sp: nat): nat { sp - sp % 16 }

  function Padding(a: nat, e: nat): seq<nat> { if (a + e + 3) % 2 != 0 then [0] else [] }

  /** The words below the strings: argc, argument pointers, NULL, environment pointers, NULL, padding. */
  function Frame(argp: seq<nat>, envp: seq<nat>): seq<nat> {
    [|argp|] + argp + [0] + envp + [0] + Padding(|argp|, |envp|)
  }

  /** Where the stack pointer ends up. */
  function Bottom(args: seq<CStr>, envs: seq<CStr>): int {
    AlignDown(if Size(envs) + Size(args) <= STACK_TOP then STACK_TOP - Size(envs) - Size(args) else 0)
    - 8 * (|args| + |envs| + 3 + |Padding(|args|, |envs|)|)
  }

  lemma NotMappedWider(mem: Memory, root: nat, a: nat, b: nat, lo: nat, hi: nat)
    requires !MappedRange(mem, root, a, b) && lo <= a && b <= hi
    ensures !MappedRange(mem, root, lo, hi)
  {
  }

  /** A NULL and, below it, the pointers of one list. */
  method PushList(amm: Amm, root: nat, sp: nat, ps: seq<nat>, ghost u0: Users, ghost m0: Memory, ghost top: nat,
                  ghost ws: seq<nat>)
    returns (ok: bool, sp': nat)
    requires Chain(amm, root, u0, m0, top, sp, ws) && 8 * |ps| + 8 <= sp && Pointers(ps)
    modifies amm`mem
    ensures ok ==> sp' == sp - 8 * |ps| - 8 && Chain(amm, root, u0, m0, top, sp', ps + [0] + ws)
    ensures !ok ==> !MappedRange(m0, root, sp - 8 * |ps| - 8, sp)
    ensures Ready(amm, root) && Pushed(u0, UsersOf(amm.View()), m0, amm.mem, root, sp', top)
  {
    ok, sp' := PushWordOn(amm, root, sp, 0, u0, m0, top, ws);
    if !ok {
      NotMappedWider(m0, root, sp - 8, sp, sp - 8 * |ps| - 8, sp);
      return;
    }
    assert ps + ([0] + ws) == ps + [0] + ws;
    ok, sp' := PushWords(amm, root, sp', ps, u0, m0, top, [0] + ws);
    if !ok {
      NotMappedWider(m0, root, sp - 8 * |ps| - 8, sp - 8, sp - 8 * |ps| - 8, sp);
    }
  }

  /** Steps 4 to 7 of build_user_stack_vm, from an aligned sp. */
  method PushFrame(amm: Amm, root: nat, sp: nat, argp: seq<nat>, envp: seq<nat>) returns (ok: bool, sp': nat)
    requires Ready(amm, root) && root in UsersOf(amm.View()).roots && sp <= STACK_TOP && 8 * |Frame(argp, envp)| <= sp
    requires |argp| < WORD && Pointers(argp) && Pointers(envp)
    modifies amm`mem
    ensures ok ==> sp' == sp - 8 * |Frame(argp, envp)| && Words(UsersOf(amm.View()), root, sp', Frame(argp, envp))
    ensures !ok ==> !MappedRange(old(amm.mem), root, sp - 8 * |Frame(argp, envp)|, sp)
    ensures Ready(amm, root)
    ensures Pushed(old(UsersOf(amm.View())), UsersOf(amm.View()), old(amm.mem), amm.mem, root, sp', sp)
  {
    ghost var u0, m0, pad := UsersOf(amm.View()), amm.mem, Padding(|argp|, |envp|);
    ghost var low := sp - 8 * |Frame(argp, envp)|;
    PushedNothing(u0, m0, root, sp);
    assert pad + [] == pad;
    sp', ok := sp, true;
    if (|argp| + |envp| + 3) % 2 != 0 {
      ok, sp' := PushWordOn(amm, root, sp, 0, u0, m0, sp, []);
      if !ok {
        NotMappedWider(m0, root, sp - 8, sp, low, sp);
        return;
      }
    }
    ok, sp' := PushLists(amm, root, sp', argp, envp, u0, m0, sp, pad);
    if !ok {
      NotMappedWider(m0, root, low, sp - 8 * |pad|, low, sp);
    }
  }

  lemma Flattened(argp: seq<nat>, envp: seq<nat>, ws: seq<nat>)
    ensures [|argp|] + (argp + [0] + (envp + [0] + ws)) == [|argp|] + argp + [0] + envp + [0] + ws
  {
  }

  method PushLists(amm: Amm, root: nat, sp: nat, argp: seq<nat>, envp: seq<nat>, ghost u0: Users, ghost m0: Memory,
                   ghost top: nat, ghost ws: seq<nat>)
    returns (ok: bool, sp': nat)
    requires Chain(amm, root, u0, m0, top, sp, ws) && 8 * (|argp| + |envp| + 3) <= sp && |argp| < WORD
    requires Pointers(argp) && Pointers(envp)
    modifies amm`mem
    ensures ok ==>
      && sp' == sp - 8 * (|argp| + |envp| + 3)
      && Chain(amm, root, u0, m0, top, sp', [|argp|] + argp + [0] + envp + [0] + ws)
    ensures !ok ==> !MappedRange(m0, root, sp - 8 * (|argp| + |envp| + 3), sp)
    ensures Ready(amm, root) && Pushed(u0, UsersOf(amm.View()), m0, amm.mem, root, sp', top)
  {
    ghost var low, ws1 := sp - 8 * (|argp| + |envp| + 3), envp + [0] + ws;
    ok, sp' := PushList(amm, root, sp, envp, u0, m0, top, ws);
    if !ok {
      NotMappedWider(m0, root, sp - 8 * |envp| - 8, sp, low, sp);
      return;
    }
    var sp1 := sp';
    ok, sp' := PushList(amm, root, sp1, argp, u0, m0, top, ws1);
    if !ok {
      NotMappedWider(m0, root, low + 8, sp1, low, sp);
      return;
    }
    ghost var ws2 := argp + [0] + ws1;
    Flattened(argp, envp, ws);
    ok, sp' := PushWordOn(amm, root, sp', |argp|, u0, m0, top, ws2);
    if !ok {
      NotMappedWider(m0, root, low, low + 8, low, sp);
    }
  }

  /** Steps 1 and 2: environment strings, then argument strings below them. */
  method PushBoth(amm: Amm, root: nat, args: seq<CStr>, envs: seq<CStr>)
    returns (ok: bool, sp: nat, argp: seq<nat>, envp: seq<nat>)
    requires Ready(amm, root) && root in UsersOf(amm.View()).roots && Size(args) + Size(envs) <= STACK_TOP
    modifies amm`mem
    ensures Ready(amm, root)
    ensures Pushed(old(UsersOf(amm.View())), UsersOf(amm.View()), old(amm.mem), amm.mem, root, sp, STACK_TOP)
    ensures ok ==> sp == STACK_TOP - Size(envs) - Size(args) && TextAt(UsersOf(amm.View()), root, sp, Text(args + envs))
    ensures ok ==>
      Strings(UsersOf(amm.View()), root, sp, args, argp) && Strings(UsersOf(amm.View()), root, sp, envs, envp)
    ensures !ok ==> !MappedRange(old(amm.mem), root, STACK_TOP - Size(envs) - Size(args), STACK_TOP)
  {
    ghost var u0, m0, low := UsersOf(amm.View()), amm.mem, STACK_TOP - Size(envs) - Size(args);
    argp := [];
    TextAppend(args, envs);
    assert Text(envs) + [] == Text(envs);
    ok, sp, envp := PushStrings(amm, root, STACK_TOP, envs, []);
    if !ok {
      NotMappedWider(m0, root, STACK_TOP - Size(envs), STACK_TOP, low, STACK_TOP);
      return;
    }
    ghost var u1, m1 := UsersOf(amm.View()), amm.mem;
    var mid := sp;
    PushedMaps(u0, u1, m0, m1, root, mid, STACK_TOP, low, mid);
    ok, sp, argp := PushStrings(amm, root, mid, args, Text(envs));
    PushedThen(u0, u1, UsersOf(amm.View()), m0, m1, amm.mem, root, sp, mid, STACK_TOP);
    PushedStrings(u1, UsersOf(amm.View()), m1, amm.mem, root, sp, mid, envs, envp);
    if !ok {
      NotMappedWider(m0, root, low, mid, low, STACK_TOP);
    }
  }

  lemma StringsLower(u: Users, root: nat, lo: nat, hi: nat, ss: seq<CStr>, ptrs: seq<nat>)
    requires Strings(u, root, hi, ss, ptrs) && lo <= hi
    ensures Strings(u, root, lo, ss, ptrs) && Pointers(ptrs)
  {
    forall i | 0 <= i < |ss|
      ensures Standing(u, root, lo, ptrs[i], ss[i]) && ptrs[i] < WORD
    {
      assert Standing(u, root, hi, ptrs[i], ss[i]);
    }
  }

  lemma PushedIdle(u: Users, mem: Memory, root: nat, lo: nat, hi: nat)
    requires root in u.roots && lo <= hi
    ensures Pushed(u, u, mem, mem, root, lo, hi)
  {
  }

  /** build_user_stack_vm: zero when a page of the stack is missing; otherwise the entry stack of
      the ABI up to the auxiliary vector, with both lists cut to 63, and nothing outside it changed.
      No auxiliary vector is pushed: the word where it would begin is null if the two lists have an
      even number of members together, and what stood or was pushed there if not. */
  method BuildUserStack(amm: Amm, root: nat, argv: seq<CStr>, envv: seq<CStr>) returns (sp: nat)
    requires Ready(amm, root) && root in UsersOf(amm.View()).roots
    requires Size(Cut(argv)) + Size(Cut(envv)) + 2048 <= STACK_TOP
    modifies amm`mem
    ensures sp != 0 ==>
      sp == Bottom(Cut(argv), Cut(envv)) && EntryStack(UsersOf(amm.View()), root, sp, Cut(argv), Cut(envv))
    ensures sp != 0 ==> AuxFate(old(UsersOf(amm.View())), UsersOf(amm.View()), root, sp, Cut(argv), Cut(envv))
    ensures sp != 0 ==> Confined(old(UsersOf(amm.View())), UsersOf(amm.View()), root, sp, STACK_TOP)
    ensures Ready(amm, root) && Confined(old(UsersOf(amm.View())), UsersOf(amm.View()), root, 0, STACK_TOP)
    ensures sp == 0 ==> !MappedRange(old(amm.mem), root, Bottom(Cut(argv), Cut(envv)), STACK_TOP)
  {
    var args, envs := Cut(argv), Cut(envv);
    ghost var u0, m0, low := UsersOf(amm.View()), amm.mem, Bottom(args, envs);
    var ok, sp1, argp, envp := PushBoth(amm, root, args, envs);
    if !ok {
      NotMappedWider(m0, root, STACK_TOP - Size(envs) - Size(args), STACK_TOP, low, STACK_TOP);
      PushedConfined(u0, UsersOf(amm.View()), m0, amm.mem, root, sp1);
      return 0;
    }
    BottomFits(args, envs);
    sp := PushPointers(amm, root, sp1, args, envs, argp, envp, u0, m0);
  }

  lemma BottomFits(args: seq<CStr>, envs: seq<CStr>)
    requires |args| <= LIST_MAX && |envs| <= LIST_MAX && Size(args) + Size(envs) + 2048 <= STACK_TOP
    ensures var sp := STACK_TOP - Size(envs) - Size(args);
      0 < Bottom(args, envs) <= AlignDown(sp) <= sp
  {
  }

  /** Steps 3 to 7, with the strings standing at sp1. */
  method PushPointers(amm: Amm, root: nat, sp1: nat, ghost args: seq<CStr>, ghost envs: seq<CStr>, argp: seq<nat>,
                      envp: seq<nat>,
                      ghost u0: Users, ghost m0: Memory)
    returns (sp: nat)
    requires Ready(amm, root) && Pushed(u0, UsersOf(amm.View()), m0, amm.mem, root, sp1, STACK_TOP)
    requires Strings(UsersOf(amm.View()), root, sp1, args, argp) && Strings(UsersOf(amm.View()), root, sp1, envs, envp)
    requires |args| <= LIST_MAX && sp1 == STACK_TOP - Size(envs) - Size(args)
    requires 0 < Bottom(args, envs) <= AlignDown(sp1)
    requires TextAt(UsersOf(amm.View()), root, sp1, Text(args + envs))
    modifies amm`mem
    ensures sp != 0 ==> sp == Bottom(args, envs) && EntryStack(UsersOf(amm.View()), root, sp, args, envs)
    ensures sp != 0 ==> AuxFate(u0, UsersOf(amm.View()), root, sp, args, envs)
    ensures sp != 0 ==> Confined(u0, UsersOf(amm.View()), root, sp, STACK_TOP)
    ensures Ready(amm, root) && Confined(u0, UsersOf(amm.View()), root, 0, STACK_TOP)
    ensures sp == 0 ==> !MappedRange(m0, root, Bottom(args, envs), STACK_TOP)
  {
    ghost var u1, m1, low := UsersOf(amm.View()), amm.mem, Bottom(args, envs);
    var sp2 := AlignDown(sp1);
    StringsLower(u1, root, sp2, sp1, args, argp);
    StringsLower(u1, root, sp2, sp1, envs, envp);
    PushedIdle(u1, m1, root, sp2, sp1);
    PushedThen(u0, u1, u1, m0, m1, m1, root, sp2, sp1, STACK_TOP);
    PushedMaps(u0, u1, m0, m1, root, sp1, STACK_TOP, low, sp2);
    var ok, low' := PushFrame(amm, root, sp2, argp, envp);
    ghost var u2, m2 := UsersOf(amm.View()), amm.mem;
    PushedThen(u0, u1, u2, m0, m1, m2, root, low', sp2, STACK_TOP);
    PushedConfined(u0, u2, m0, m2, root, low');
    if ok {
      Concluded(u0, u1, u2, m0, m1, m2, root, low', sp1, sp2, args, envs, argp, envp);
      return low';
    }
    NotMappedWider(m0, root, low, sp2, low, STACK_TOP);
    return 0;
  }

  /** The eight bytes from the 16-byte boundary below the strings on: memory from before up to the
      strings, and then their text. */
  ghost function AuxBytes(u: Users, root: nat, args: seq<CStr>, envs: seq<CStr>): (bs: seq<Byte>)
    requires args + envs != [] && Size(args + envs) <= STACK_TOP
    ensures |bs| == 8
  {
    var text := Text(args + envs);
    var sp1 := STACK_TOP - |text|;
    seq<Byte>(8, k requires 0 <= k < 8 => ByteAbove(u, root, text, sp1, AlignDown(sp1) + k))
  }

  function ByteAbove(u: Users, root: nat, text: seq<Byte>, sp1: nat, a: nat): Byte {
    if a < sp1 then u.at(root, a) else if a < sp1 + |text| then text[a - sp1] else 0
  }

  /** The word where an auxiliary vector would begin, with u the memory before. */
  ghost predicate AuxFate(u: Users, v: Users, root: nat, sp: nat, args: seq<CStr>, envs: seq<CStr>) {
    if (|args| + |envs|) % 2 == 0 then AuxWord(v, root, sp, args, envs) == 0
    else Size(args + envs) <= STACK_TOP && AuxWord(v, root, sp, args, envs) == Le(AuxBytes(u, root, args, envs))
  }

  lemma {:induction false} LeNull(bs: seq<Byte>)
    ensures Le(bs) == 0 <==> Nulls(bs, |bs|)
  {
    if bs != [] {
      LeNull(bs[1..]);
      assert bs == [bs[0]] + bs[1..];
      if bs[0] == 0 {
        NullShift(bs[1..], |bs|);
      }
    }
  }

  /** With an odd number of members, the word is null exactly when those eight bytes are. */
  lemma AuxNullIff(u: Users, v: Users, root: nat, sp: nat, args: seq<CStr>, envs: seq<CStr>)
    requires AuxFate(u, v, root, sp, args, envs) && (|args| + |envs|) % 2 == 1
    ensures AuxWord(v, root, sp, args, envs) == 0 <==> Nulls(AuxBytes(u, root, args, envs), 8)
  {
    LeNull(AuxBytes(u, root, args, envs));
  }

  /** On a stack that was all zero, the word is null exactly when the lists have an even number of
      members together, or the strings begin in the upper half of their 16 bytes, or as many strings
      as there are bytes up to the middle are empty. */
  lemma AuxOnFreshStack(u: Users, v: Users, root: nat, sp: nat, args: seq<CStr>, envs: seq<CStr>)
    requires AuxFate(u, v, root, sp, args, envs) && Size(args + envs) <= STACK_TOP
    requires forall a: nat :: a < STACK_TOP ==> u.at(root, a) == 0
    ensures var ss, r := args + envs, (STACK_TOP - Size(args + envs)) % 16;
      AuxWord(v, root, sp, args, envs) == 0 <==> |ss| % 2 == 0 || r >= 8 || Empties(ss, 8 - r)
  {
    var ss, r := args + envs, (STACK_TOP - Size(args + envs)) % 16;
    if |ss| % 2 != 0 {
      var bs := AuxBytes(u, root, args, envs);
      LeNull(bs);
      FreshBytes(u, root, Text(ss), STACK_TOP - Size(ss), bs, r);
      if r < 8 {
        NullText(ss, 8 - r);
        NullTail(bs, Text(ss), r);
      }
    }
  }

  lemma FreshBytes(u: Users, root: nat, text: seq<Byte>, sp1: nat, bs: seq<Byte>, r: nat)
    requires text != [] && sp1 + |text| == STACK_TOP && r == sp1 % 16 && |bs| == 8
    requires forall k :: 0 <= k < 8 ==> bs[k] == ByteAbove(u, root, text, sp1, AlignDown(sp1) + k)
    requires forall a: nat :: a < STACK_TOP ==> u.at(root, a) == 0
    ensures if r >= 8 then Nulls(bs, 8) else 8 <= r + |text| && forall k :: 0 <= k < 8 ==>
      bs[k] == if k < r then 0 else text[k - r]
  {
    BoundaryBelowTop(sp1);
  }

  lemma NullTail(bs: seq<Byte>, text: seq<Byte>, r: nat)
    requires |bs| == 8 && r < 8 <= r + |text|
    requires forall k :: 0 <= k < 8 ==> bs[k] == if k < r then 0 else text[k - r]
    ensures Nulls(bs, 8) <==> Nulls(text, 8 - r)
  {
    if Nulls(bs, 8) {
      forall k | 0 <= k < 8 - r
        ensures text[k] == 0
      {
        assert bs[r + k] == text[k];
      }
    }
  }

  lemma Concluded(u0: Users, u1: Users, v: Users, m0: Memory, m1: Memory, m2: Memory, root: nat, sp: nat, sp1: nat,
                  sp2: nat,
                  args: seq<CStr>, envs: seq<CStr>, argp: seq<nat>, envp: seq<nat>)
    requires Pushed(u0, u1, m0, m1, root, sp1, STACK_TOP) && Pushed(u1, v, m1, m2, root, sp, sp2)
    requires Strings(u1, root, sp2, args, argp) && Strings(u1, root, sp2, envs, envp)
    requires Words(v, root, sp, Frame(argp, envp)) && sp == sp2 - 8 * |Frame(argp, envp)| && sp2 == AlignDown(sp1)
    requires sp1 == STACK_TOP - Size(envs) - Size(args) && TextAt(u1, root, sp1, Text(args + envs))
    ensures EntryStack(v, root, sp, args, envs) && AuxFate(u0, v, root, sp, args, envs)
  {
    AlignedDown(sp1);
    Finished(u1, v, m1, m2, root, sp, sp2, args, envs, argp, envp);
    AuxSettled(u0, u1, v, m0, m1, m2, root, sp, sp1, sp2, args, envs, argp, envp);
  }

  lemma AuxSettled(u0: Users, u1: Users, v: Users, m0: Memory, m1: Memory, m2: Memory, root: nat, sp: nat, sp1: nat,
                   sp2: nat,
                   args: seq<CStr>, envs: seq<CStr>, argp: seq<nat>, envp: seq<nat>)
    requires Pushed(u0, u1, m0, m1, root, sp1, STACK_TOP) && Pushed(u1, v, m1, m2, root, sp, sp2)
    requires Words(v, root, sp, Frame(argp, envp)) && |argp| == |args| && |envp| == |envs|
    requires sp == sp2 - 8 * |Frame(argp, envp)| && sp1 == STACK_TOP - Size(envs) - Size(args) && sp2 == AlignDown(sp1)
    requires TextAt(u1, root, sp1, Text(args + envs))
    ensures AuxFate(u0, v, root, sp, args, envs)
  {
    if (|args| + |envs|) % 2 == 0 {
      AuxPadding(v, root, sp, args, envs, argp, envp);
    } else {
      SizeAppend(args, envs);
      FrameSize(argp, envp);
      AuxOdd(u0, u1, v, m0, m1, m2, root, sp, sp1, sp2, args, envs);
    }
  }

  lemma SizeAppend(a: seq<CStr>, b: seq<CStr>)
    ensures Size(a + b) == Size(a) + Size(b)
  {
    TextAppend(a, b);
    assert |Text(a + b)| == |Text(a)| + |Text(b)|;
  }

  lemma AuxOdd(u0: Users, u1: Users, v: Users, m0: Memory, m1: Memory, m2: Memory, root: nat, sp: nat, sp1: nat,
               sp2: nat,
               args: seq<CStr>, envs: seq<CStr>)
    requires Pushed(u0, u1, m0, m1, root, sp1, STACK_TOP) && Pushed(u1, v, m1, m2, root, sp, sp2)
    requires args + envs != [] && sp2 == AlignDown(sp1) == sp + 8 * (|args| + |envs| + 3)
    requires sp1 == STACK_TOP - Size(args + envs) && TextAt(u1, root, sp1, Text(args + envs))
    ensures AuxWord(v, root, sp, args, envs) == Le(AuxBytes(u0, root, args, envs))
  {
    AuxSlice(u0, u1, v, m0, m1, m2, root, sp, sp1, sp2, args, envs);
    AuxAddress(v, root, sp, sp2, args, envs);
  }

  lemma AlignedDown(sp: nat)
    ensures AlignDown(sp) % 16 == 0
  {
  }

  lemma AuxAddress(v: Users, root: nat, sp: nat, a: nat, args: seq<CStr>, envs: seq<CStr>)
    requires a == sp + 8 * (|args| + |envs| + 3)
    ensures AuxWord(v, root, sp, args, envs) == WordAt(v, root, a)
  {
    assert sp + 24 + 8 * |args| + 8 * |envs| == a;
  }

  lemma FrameSize(argp: seq<nat>, envp: seq<nat>)
    ensures |Frame(argp, envp)| == |argp| + |envp| + if (|argp| + |envp|) % 2 == 0 then 4 else 3
  {
  }

  lemma AuxPadding(v: Users, root: nat, sp: nat, args: seq<CStr>, envs: seq<CStr>, argp: seq<nat>, envp: seq<nat>)
    requires Words(v, root, sp, Frame(argp, envp)) && |argp| == |args| && |envp| == |envs| && (|args| + |envs|) % 2 == 0
    ensures AuxWord(v, root, sp, args, envs) == 0
  {
    var i := |args| + |envs| + 3;
    assert Frame(argp, envp)[i] == 0;
    assert WordAt(v, root, sp + 8 * i) == Frame(argp, envp)[i];
    AuxAddress(v, root, sp, sp + 8 * i, args, envs);
  }

  lemma AuxSlice(u0: Users, u1: Users, v: Users, m0: Memory, m1: Memory, m2: Memory, root: nat, sp: nat, sp1: nat,
                 sp2: nat,
                 args: seq<CStr>, envs: seq<CStr>)
    requires Pushed(u0, u1, m0, m1, root, sp1, STACK_TOP) && Pushed(u1, v, m1, m2, root, sp, sp2)
    requires args + envs != [] && sp2 == AlignDown(sp1)
    requires sp1 == STACK_TOP - Size(args + envs) && TextAt(u1, root, sp1, Text(args + envs))
    ensures Slice(v, root, sp2, 8) == AuxBytes(u0, root, args, envs)
  {
    assert Shown(0);
    BoundaryBelowTop(sp1);
    var bs, w := AuxBytes(u0, root, args, envs), Slice(v, root, sp2, 8);
    forall k | 0 <= k < 8
      ensures w[k] == bs[k]
    {
      AuxByte(u0, u1, v, root, sp, sp1, Text(args + envs), sp2 + k);
    }
  }

  lemma BoundaryBelowTop(sp1: nat)
    requires sp1 < STACK_TOP
    ensures AlignDown(sp1) + 16 <= STACK_TOP
  {
  }

  lemma AuxByte(u0: Users, u1: Users, v: Users, root: nat, sp: nat, sp1: nat, text: seq<Byte>, a: nat)
    requires Confined(u0, u1, root, sp1, STACK_TOP) && Confined(u1, v, root, sp, AlignDown(sp1))
    requires root in u0.roots && root in u1.roots && TextAt(u1, root, sp1, text) && AlignDown(sp1) <= a < sp1 + |text|
    ensures v.at(root, a) == ByteAbove(u0, root, text, sp1, a)
  {
    assert v.at(root, a) == u1.at(root, a);
    assert Spelled(0);
    if a >= sp1 {
      assert Slice(u1, root, sp1, |text|)[a - sp1] == u1.at(root, sp1 + (a - sp1));
    }
  }

  lemma Finished(u: Users, v: Users, mem: Memory, mem': Memory, root: nat, sp: nat, top: nat,
                 args: seq<CStr>, envs: seq<CStr>, argp: seq<nat>, envp: seq<nat>)
    requires Pushed(u, v, mem, mem', root, sp, top) && Strings(u, root, top, args, argp)
    requires Strings(u, root, top, envs, envp)
    requires Words(v, root, sp, Frame(argp, envp)) && top == sp + 8 * |Frame(argp, envp)| && top % 16 == 0
    ensures EntryStack(v, root, sp, args, envs)
  {
    PushedStrings(u, v, mem, mem', root, sp, top, args, argp);
    PushedStrings(u, v, mem, mem', root, sp, top, envs, envp);
    FrameIsEntryStack(v, root, sp, top, args, envs, argp, envp);
  }

  lemma PushedConfined(u: Users, v: Users, mem: Memory, mem': Memory, root: nat, sp: nat)
    requires Pushed(u, v, mem, mem', root, sp, STACK_TOP)
    ensures Confined(u, v, root, sp, STACK_TOP) && Confined(u, v, root, 0, STACK_TOP)
  {
    assert Shown(0);
  }

  lemma FrameIsEntryStack(u: Users, root: nat, sp: nat, top: nat, args: seq<CStr>, envs: seq<CStr>, argp: seq<nat>,
                          envp: seq<nat>)
    requires Words(u, root, sp, Frame(argp, envp)) && top == sp + 8 * |Frame(argp, envp)| && top % 16 == 0
    requires Strings(u, root, sp, args, argp) && Strings(u, root, sp, envs, envp)
    ensures EntryStack(u, root, sp, args, envs)
  {
    var ws, pad := [|argp|] + argp + [0] + envp + [0], Padding(|argp|, |envp|);
    assert Frame(argp, envp) == ws + pad && |ws| == |argp| + |envp| + 3;
    assert sp % 16 == 0;
    WordsFirst(u, root, sp, ws, pad);
    LayoutIsEntryStack(u, root, sp, sp, args, envs, argp, envp);
  }

  lemma WordsFirst(u: Users, root: nat, sp: nat, ws: seq<nat>, more: seq<nat>)
    requires Words(u, root, sp, ws + more)
    ensures Words(u, root, sp, ws)
  {
    forall i | 0 <= i < |ws|
      ensures WordAt(u, root, sp + 8 * i) == ws[i]
    {
      assert WordAt(u, root, sp + 8 * i) == (ws + more)[i];
    }
  }
}
