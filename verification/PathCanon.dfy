/** vfs_canonicalize as written: a working copy cut in place, a stack of offsets into it, and the
    output rebuilt character by character. */
module PathCanon {
  import opened PathSpec

  const NUL := '\0'

  /** The C string at offset o. */
  function Str(w: seq<char>, o: nat): string
    decreases |w| - o
  {
    if o >= |w| || w[o] == NUL then [] else [w[o]] + Str(w, o + 1)
  }

  lemma {:induction false} StrIs(w: seq<char>, o: nat, e: nat)
    requires o <= e < |w| && w[e] == NUL && NUL !in w[o..e]
    ensures Str(w, o) == w[o..e]
    decreases e - o
  {
    if o < e {
      assert w[o] in w[o..e];
      assert w[o..e] == [w[o]] + w[o + 1..e];
      StrIs(w, o + 1, e);
    }
  }

  /** Writes behind the end of a string do not change it. */
  lemma {:induction false} StrFrame(w: seq<char>, w': seq<char>, o: nat, p: nat)
    requires |w'| == |w| && p <= |w| && w'[..p] == w[..p] && o + |Str(w, o)| < p
    ensures Str(w', o) == Str(w, o)
    decreases |w| - o
  {
    assert o < p ==> w'[..p][o] == w[..p][o];
    if o < |w| && w[o] != NUL {
      StrFrame(w, w', o + 1, p);
    }
  }

  function Names(w: seq<char>, stk: seq<nat>): seq<string> {
    seq(|stk|, i requires 0 <= i < |stk| => Str(w, stk[i]))
  }

  /** Every stacked component ends at or before p. */
  predicate Behind(w: seq<char>, stk: seq<nat>, p: nat) {
    forall i :: 0 <= i < |stk| ==> stk[i] + |Str(w, stk[i])| <= p
  }

  /** The part of the path from p on is still as given. */
  predicate Ahead(w: seq<char>, path: string, p: nat) {
    |path| < |w| && p <= |path| && w[p..|path|] == path[p..] && w[|path|] == NUL && NUL !in path
  }

  // ---- Splitting off one component ------------------------------------------------------------------------

  lemma Cleft(s: string, p: nat, q: nat)
    requires p <= q <= |s| && (q < |s| ==> s[q] == '/')
    ensures s[p..] == if q < |s| then s[p..q] + "/" + s[q + 1..] else s[p..q]
  {
  }

  lemma SplitCons(a: string, b: string)
    requires '/' !in a
    ensures Split(a + "/" + b) == [a] + Split(b)
  {
    SplitPlain(a);
    SplitAppend(a, b);
  }

  /** What the walk of the rest becomes once the first component has been applied. */
  lemma WalkFirst(stack: seq<string>, s: string, c: string, rest: string)
    requires '/' !in c && s == (if |c| < |s| then c + "/" + rest else c) && (|c| >= |s| ==> rest == "")
    ensures Walk(stack, Split(s)) ==
      if !Skipped(c) && c != ".." && |stack| >= DEPTH_MAX then None else Walk(Apply(stack, c), Split(rest))
  {
    if |c| < |s| {
      SplitCons(c, rest);
      assert ([c] + Split(rest))[1..] == Split(rest);
    } else {
      SplitPlain(c);
      assert [c][1..] == [] && [""][1..] == [];
      var stack' := Apply(stack, c);
      assert Walk(stack', [""]) == Some(stack');
    }
  }

  /** Skipping a leading slash. */
  lemma WalkSlash(stack: seq<string>, s: string)
    requires |s| > 0 && s[0] == '/'
    ensures Walk(stack, Split(s)) == Walk(stack, Split(s[1..]))
  {
    assert s == "" + "/" + s[1..];
    WalkFirst(stack, s, "", s[1..]);
  }

  method CopyIn(path: string) returns (work: array<char>)
    requires |path| < PATH_MAX && NUL !in path
    ensures fresh(work) && work.Length == PATH_MAX && Ahead(work[..], path, 0)
  {
    work := new char[PATH_MAX](_ => NUL);
    for i := 0 to |path|
      invariant work[..i] == path[..i]
      invariant forall j :: |path| <= j < PATH_MAX ==> work[j] == NUL
    {
      work[i] := path[i];
    }
    assert work[..][0..|path|] == work[..|path|] && path[0..] == path[..|path|];
  }

  /** The end of the component that starts at p. */
  method Scan(work: array<char>, path: string, p: nat) returns (q: nat)
    requires Ahead(work[..], path, p)
    ensures p <= q <= |path| && '/' !in path[p..q] && (q < |path| ==> path[q] == '/')
    ensures work[q] == if q < |path| then '/' else NUL
  {
    q := p;
    while work[q] != NUL && work[q] != '/'
      invariant p <= q <= |path| && '/' !in path[p..q]
      decreases |path| - q
    {
      assert work[..][p..|path|][q - p] == path[p..][q - p];
      q := q + 1;
    }
    if q < |path| {
      assert work[..][p..|path|][q - p] == path[p..][q - p];
    }
  }

  lemma {:induction false} StrEnd(w: seq<char>, o: nat)
    requires o + |Str(w, o)| < |w|
    ensures w[o + |Str(w, o)|] == NUL
    decreases |w| - o
  {
    if w[o] != NUL {
      StrEnd(w, o + 1);
    }
  }

  /** The three tests on the first characters of a component. */
  lemma Classified(w: seq<char>, o: nat)
    requires o + |Str(w, o)| < |w|
    ensures o < |w| && (Skipped(Str(w, o)) <==> w[o] == NUL || (w[o] == '.' && o + 1 < |w| && w[o + 1] == NUL))
    ensures Str(w, o) == ".." <==> w[o] == '.' && o + 1 < |w| && w[o + 1] == '.' && o + 2 < |w| && w[o + 2] == NUL
  {
    StrEnd(w, o);
    CharsOf(w, o);
    var c := Str(w, o);
    assert |c| > 0 ==> w[o + 0] == c[0];
    assert |c| > 1 ==> w[o + 1] == c[1];
    assert |c| > 2 ==> w[o + 2] == c[2];
    assert c == "." <==> |c| == 1 && c[0] == '.';
    assert c == ".." <==> |c| == 2 && c[0] == '.' && c[1] == '.';
  }

  lemma {:induction false} CharsOf(w: seq<char>, o: nat)
    requires o + |Str(w, o)| <= |w|
    ensures forall i :: 0 <= i < |Str(w, o)| ==> w[o + i] == Str(w, o)[i] != NUL
    decreases |w| - o
  {
    if o < |w| && w[o] != NUL {
      CharsOf(w, o + 1);
      forall i | 0 <= i < |Str(w, o)|
        ensures w[o + i] == Str(w, o)[i] != NUL
      {
        if i > 0 {
          assert w[o + 1 + (i - 1)] == Str(w, o + 1)[i - 1];
        }
      }
    }
  }

  /** Cutting at q, at or behind p, leaves the stacked components alone. */
  lemma CutKeepsNames(w: seq<char>, w': seq<char>, stk: seq<nat>, p: nat)
    requires |w'| == |w| && p < |w| && w'[..p] == w[..p] && w[p] != NUL && Behind(w, stk, p)
    ensures Names(w', stk) == Names(w, stk) && Behind(w', stk, p)
  {
    forall i | 0 <= i < |stk|
      ensures Str(w', stk[i]) == Str(w, stk[i])
    {
      if stk[i] + |Str(w, stk[i])| == p {
        StrEnd(w, stk[i]);
      }
      StrFrame(w, w', stk[i], p);
    }
  }

  /** Find the component at p, cut it off, and step behind it. */
  method Cut(work: array<char>, path: string, p: nat, ghost stk: seq<nat>) returns (p': nat, ghost q: nat)
    requires Ahead(work[..], path, p) && p < |path| && Behind(work[..], stk, p)
    modifies work
    ensures p <= q <= |path| && '/' !in path[p..q] && (q < |path| ==> path[q] == '/')
    ensures p' == if q < |path| then q + 1 else q
    ensures Ahead(work[..], path, p') && Str(work[..], p) == path[p..q] && q < work.Length
    ensures Names(work[..], stk) == old(Names(work[..], stk)) && Behind(work[..], stk, p)
  {
    ghost var w := work[..];
    var e := Scan(work, path, p);
    q := e;
    p' := e;
    assert w[p..|path|][0] == path[p..][0];
    assert path[p] in path;
    assert path[p..e] == w[p..e] by {
      assert w[p..|path|][..e - p] == w[p..e] && path[p..][..e - p] == path[p..e];
    }
    if work[e] == '/' {
      work[e] := NUL;
      p' := e + 1;
    }
    ghost var w' := work[..];
    assert w'[p..e] == w[p..e] && w'[..p] == w[..p];
    assert NUL !in w'[p..e];
    StrIs(w', p, e);
    CutKeepsNames(w, w', stk, p);
    assert w'[p'..|path|] == w[p..|path|][p' - p..] == path[p..][p' - p..] == path[p'..];
  }

  /** One round of the component loop. */
  method TakeComponent(work: array<char>, path: string, stk: array<nat>, p: nat, top: nat)
    returns (ok: bool, p': nat, top': nat)
    requires Ahead(work[..], path, p) && p < |path| && top <= DEPTH_MAX < stk.Length && Behind(work[..], stk[..top], p)
    modifies work, stk
    ensures p < p' <= |path| || p' == |path|
    ensures var before, rest := old(Names(work[..], stk[..top])), Split(path[p..]);
      if ok then
        && top' <= DEPTH_MAX && Ahead(work[..], path, p') && Behind(work[..], stk[..top'], p')
        && Walk(before, rest) == Walk(Names(work[..], stk[..top']), Split(path[p'..]))
      else Walk(before, rest) == None
  {
    ghost var names := Names(work[..], stk[..top]);
    ghost var q;
    p', q := Cut(work, path, p, stk[..top]);
    ghost var w, c := work[..], path[p..q];
    WalkOn(names, path, p, q, p');
    Classified(w, p);
    if work[p] == NUL || (work[p] == '.' && work[p + 1] == NUL) {
      return true, p', top;
    } else if work[p] == '.' && work[p + 1] == '.' && work[p + 2] == NUL {
      top' := if top > 0 then top - 1 else top;
      PoppedNames(w, stk[..top], stk[..top'], p, p');
      return true, p', top';
    }
    if top >= DEPTH_MAX {
      return false, p', top;
    }
    stk[top] := p;
    Pushed(w, old(stk[..top]), stk[..top + 1], p, p');
    return true, p', top + 1;
  }

  lemma PoppedNames(w: seq<char>, stk: seq<nat>, stk': seq<nat>, p: nat, p': nat)
    requires stk' == (if stk == [] then [] else stk[..|stk| - 1]) && Behind(w, stk, p) && p <= p'
    ensures Names(w, stk') == Apply(Names(w, stk), "..") && Behind(w, stk', p')
  {
  }

  lemma Pushed(w: seq<char>, stk: seq<nat>, stk': seq<nat>, p: nat, p': nat)
    requires stk' == stk + [p] && Behind(w, stk, p) && p + |Str(w, p)| <= p'
    ensures Names(w, stk') == Names(w, stk) + [Str(w, p)] && Behind(w, stk', p')
  {
  }

  lemma WalkOn(names: seq<string>, path: string, p: nat, q: nat, p': nat)
    requires p <= q <= |path| && '/' !in path[p..q] && (q < |path| ==> path[q] == '/')
    requires p' == if q < |path| then q + 1 else q
    ensures var c := path[p..q];
      Walk(names, Split(path[p..])) ==
      if !Skipped(c) && c != ".." && |names| >= DEPTH_MAX then None else Walk(Apply(names, c), Split(path[p'..]))
  {
    Cleft(path, p, q);
    WalkFirst(names, path[p..], path[p..q], path[p'..]);
  }

  lemma SkipSlash(w: seq<char>, path: string, p: nat)
    requires Ahead(w, path, p) && w[p] == '/'
    ensures Ahead(w, path, p + 1) && Walk([], Split(path[p..])) == Walk([], Split(path[p + 1..]))
  {
    assert w[p..|path|][0] == path[p..][0];
    WalkSlash([], path[p..]);
    assert path[p..][1..] == path[p + 1..];
    assert w[p + 1..|path|] == w[p..|path|][1..];
  }

  /** The component loop. */
  method Components(work: array<char>, path: string, stk: array<nat>) returns (ok: bool, top: nat)
    requires Ahead(work[..], path, 0) && DEPTH_MAX < stk.Length
    modifies work, stk
    ensures !ok ==> Walk([], Split(path)) == None
    ensures ok ==> top <= stk.Length && Behind(work[..], stk[..top], |path|) && |path| < work.Length
    ensures ok ==> Walk([], Split(path)) == Some(Names(work[..], stk[..top]))
  {
    var p := 0;
    assert path[0..] == path;
    while work[p] == '/'
      invariant Ahead(work[..], path, p) && Walk([], Split(path)) == Walk([], Split(path[p..]))
      decreases |path| - p
    {
      SkipSlash(work[..], path, p);
      p := p + 1;
    }
    top, ok := 0, true;
    assert Names(work[..], stk[..0]) == [];
    while work[p] != NUL && ok
      invariant ok ==> Ahead(work[..], path, p) && top <= DEPTH_MAX && Behind(work[..], stk[..top], p)
      invariant ok ==> Walk([], Split(path)) == Walk(Names(work[..], stk[..top]), Split(path[p..]))
      invariant !ok ==> p < work.Length && Walk([], Split(path)) == None
      decreases |path| - p, ok
    {
      ok, p, top := TakeComponent(work, path, stk, p, top);
    }
    if ok {
      AtEnd(work[..], path, p, Names(work[..], stk[..top]));
    }
  }

  lemma AtEnd(w: seq<char>, path: string, p: nat, names: seq<string>)
    requires Ahead(w, path, p) && w[p] == NUL
    ensures p == |path| && Walk(names, Split(path[p..])) == Some(names)
  {
    AheadChar(w, path, p);
    assert path[p..] == "";
    assert [""][1..] == [];
  }

  lemma AheadChar(w: seq<char>, path: string, p: nat)
    requires Ahead(w, path, p)
    ensures p < |path| ==> w[p] == path[p] != NUL
  {
    if p < |path| {
      assert w[p..|path|][0] == path[p..][0];
      assert path[p] in path;
    }
  }

  // ---- Rebuilding the path ---------------------------------------------------------------------------------

  lemma {:induction false} JoinSnoc(stack: seq<string>, c: string)
    ensures Join(stack + [c]) == if stack == [] then c else Join(stack) + "/" + c
    decreases stack
  {
    if |stack| >= 1 {
      var more := stack + [c];
      assert more[1..] == stack[1..] + [c] && more[0] == stack[0];
      JoinSnoc(stack[1..], c);
      var head, rest := stack[0] + "/", Join(stack[1..]);
      assert |stack| > 1 ==> head + (rest + "/" + c) == head + rest + "/" + c;
    }
  }

  lemma RenderNext(names: seq<string>, i: nat)
    requires i < |names|
    ensures Render(names[..i + 1]) == Render(names[..i]) + (if i > 0 then "/" else "") + names[i]
  {
    assert names[..i + 1] == names[..i] + [names[i]];
    JoinSnoc(names[..i], names[i]);
  }

  method Put(out: array<char>, pos: nat, s: string)
    requires pos + |s| <= out.Length
    modifies out
    ensures out[..pos + |s|] == old(out[..pos]) + s
    ensures forall i :: pos + |s| <= i < out.Length ==> out[i] == old(out[i])
  {
    for j := 0 to |s|
      invariant forall i :: pos + j <= i < out.Length ==> out[i] == old(out[i])
      invariant out[..pos + j] == old(out[..pos]) + s[..j]
    {
      out[pos + j] := s[j];
    }
  }

  /** One component, with a slash in front of it unless it is the first. */
  method PutComponent(out: array<char>, pos: nat, i: nat, s: string) returns (pos': nat)
    requires pos + |s| + 1 < out.Length
    modifies out
    ensures pos' == pos + (if i > 0 then 1 else 0) + |s|
    ensures out[..pos'] == old(out[..pos]) + (if i > 0 then "/" else "") + s
    ensures forall k :: pos' <= k < out.Length ==> out[k] == old(out[k])
  {
    pos' := pos;
    if i > 0 {
      out[pos'] := '/';
      pos' := pos' + 1;
    }
    Put(out, pos', s);
    pos' := pos' + |s|;
  }

  method Rebuild(out: array<char>, size: nat, names: seq<string>) returns (ok: bool)
    requires 0 < size <= out.Length && (names == [] ==> 2 <= out.Length)
    modifies out
    ensures ok <==> Fits(names, 0, 1, size)
    ensures ok ==>
      |Render(names)| < out.Length && out[..|Render(names)|] == Render(names) && out[|Render(names)|] == NUL
    ensures forall i :: size <= i < out.Length ==> out[i] == if names == [] && i == 1 then NUL else old(out[i])
  {
    out[0] := '/';
    var pos := 1;
    assert names[..0] == [] && out[..1] == "/";
    for i := 0 to |names|
      invariant 1 <= pos && (if i == 0 then pos == 1 else pos + 1 <= size) && out[..pos] == Render(names[..i])
      invariant forall k :: size <= k < out.Length ==> out[k] == old(out[k])
      invariant Fits(names, 0, 1, size) <==> Fits(names, i, pos, size)
    {
      if pos + |names[i]| + 2 > size {
        return false;
      }
      RenderNext(names, i);
      pos := PutComponent(out, pos, i, names[i]);
    }
    assert names[..|names|] == names;
    out[pos] := NUL;
    return true;
  }

  /** vfs_canonicalize; `out` is the memory that starts with the output buffer.  Nothing behind the
      buffer is written, but for the terminator of "/" if the buffer is a single byte. */
  method Canonicalize(path: Option<string>, out: array<char>, size: nat) returns (ok: bool)
    requires size <= out.Length
    requires (path.Some? ==> NUL !in path.value && (Overruns(path.value, size) ==> size < out.Length))
    modifies out
    ensures ok <==> path.Some? && Canon(path.value, size).Some?
    ensures ok ==> var r := Canon(path.value, size).value; |r| < out.Length && out[..|r|] == r && out[|r|] == NUL
    ensures var over := path.Some? && Overruns(path.value, size);
      forall i :: size <= i < out.Length ==> out[i] == if over && i == 1 then NUL else old(out[i])
  {
    if path.None? || size == 0 || |path.value| >= PATH_MAX {
      return false;
    }
    if Overruns(path.value, size) {
      EmptyAccepted(path.value, size);
    }
    WalkIsFold([], Split(path.value));
    var work := CopyIn(path.value);
    var stk := new nat[PATH_MAX / 2];
    var top;
    ok, top := Components(work, path.value, stk);
    if !ok {
      return false;
    }
    var names := Gather(work, stk, top);
    ok := Rebuild(out, size, names);
  }

  /** The strings that the stacked offsets lead to, as strlen and memcpy see them. */
  method Gather(work: array<char>, stk: array<nat>, top: nat) returns (names: seq<string>)
    requires top <= stk.Length && Behind(work[..], stk[..top], work.Length)
    ensures names == Names(work[..], stk[..top])
  {
    names := [];
    for i := 0 to top
      invariant names == Names(work[..], stk[..i])
    {
      var s := ReadString(work, stk[i]);
      names := names + [s];
      assert stk[..i + 1] == stk[..i] + [stk[i]];
    }
  }

  method ReadString(work: array<char>, o: nat) returns (s: string)
    ensures s == Str(work[..], o)
  {
    s := "";
    var e := o;
    while e < work.Length && work[e] != NUL
      invariant o <= e && s + Str(work[..], e) == Str(work[..], o)
      decreases work.Length - e
    {
      s := s + [work[e]];
      e := e + 1;
    }
  }
}
