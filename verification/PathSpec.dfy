/** Canonical paths: components folded over a stack, and the laws of the result. */
module PathSpec {

  const PATH_MAX := 256
  const DEPTH_MAX := 127

  datatype Option<T> = None | Some(value: T)

  // ---- Components --------------------------------------------------------------------------------------

  /** The pieces of s between slashes; there is always at least one. */
  function Split(s: string): (r: seq<string>)
    ensures |r| > 0
  {
    if s == "" then [""]
    else
      var rest := Split(s[1..]);
      if s[0] == '/' then [""] + rest else [[s[0]] + rest[0]] + rest[1..]
  }

  predicate Skipped(c: string) { c == "" || c == "." }
  predicate Proper(c: string) { !Skipped(c) && c != ".." && '/' !in c }

  function Apply(stack: seq<string>, c: string): seq<string> {
    if Skipped(c) then stack
    else if c == ".." then (if stack == [] then [] else stack[..|stack| - 1])
    else stack + [c]
  }

  function Fold(stack: seq<string>, comps: seq<string>): seq<string>
    decreases comps
  {
    if comps == [] then stack else Fold(Apply(stack, comps[0]), comps[1..])
  }

  /** The fold, refusing to push on a full stack. */
  function Walk(stack: seq<string>, comps: seq<string>): Option<seq<string>>
    decreases comps
  {
    if comps == [] then Some(stack)
    else if !Skipped(comps[0]) && comps[0] != ".." && |stack| >= DEPTH_MAX then None
    else Walk(Apply(stack, comps[0]), comps[1..])
  }

  function Join(stack: seq<string>): string {
    if stack == [] then "" else if |stack| == 1 then stack[0] else stack[0] + "/" + Join(stack[1..])
  }

  function Render(stack: seq<string>): string { "/" + Join(stack) }

  /** The reconstruction's size check, component by component, from output position pos. */
  predicate Fits(stack: seq<string>, i: nat, pos: nat, size: nat)
    requires i <= |stack|
    decreases |stack| - i
  {
    || i == |stack|
    || (&& pos + |stack[i]| + 2 <= size
        && Fits(stack, i + 1, pos + (if i > 0 then 1 else 0) + |stack[i]|, size))
  }

  /** vfs_canonicalize as a function. */
  function Canon(path: string, size: nat): Option<string> {
    if size == 0 || |path| >= PATH_MAX then None
    else
      match Walk([], Split(path))
      case None => None
      case Some(stack) => if Fits(stack, 0, 1, size) then Some(Render(stack)) else None
  }

  // ---- Folding and splitting ---------------------------------------------------------------------------

  lemma {:induction false} WalkIsFold(stack: seq<string>, comps: seq<string>)
    ensures Walk(stack, comps).Some? ==> Walk(stack, comps).value == Fold(stack, comps)
    decreases comps
  {
    if comps != [] {
      WalkIsFold(Apply(stack, comps[0]), comps[1..]);
    }
  }

  lemma {:induction false} FoldAppend(stack: seq<string>, a: seq<string>, b: seq<string>)
    ensures Fold(stack, a + b) == Fold(Fold(stack, a), b)
    decreases a
  {
    if a == [] {
      assert a + b == b;
    } else {
      assert (a + b)[1..] == a[1..] + b;
      FoldAppend(Apply(stack, a[0]), a[1..], b);
    }
  }

  lemma {:induction false} SplitAppend(p: string, q: string)
    ensures Split(p + "/" + q) == Split(p) + Split(q)
    decreases p
  {
    if p == "" {
      assert p + "/" + q == "/" + q;
      assert ("/" + q)[1..] == q;
    } else {
      assert (p + "/" + q)[1..] == p[1..] + "/" + q;
      SplitAppend(p[1..], q);
    }
  }

  lemma {:induction false} SplitPlain(c: string)
    requires '/' !in c
    ensures Split(c) == [c]
    decreases c
  {
    if c != "" {
      SplitPlain(c[1..]);
      assert c == [c[0]] + c[1..];
    }
  }

  predicate AllProper(stack: seq<string>) { forall i :: 0 <= i < |stack| ==> Proper(stack[i]) }

  lemma {:induction false} SplitJoin(stack: seq<string>)
    requires AllProper(stack)
    ensures Split(Join(stack)) == if stack == [] then [""] else stack
    decreases stack
  {
    if |stack| == 1 {
      SplitPlain(stack[0]);
      assert stack == [stack[0]];
    } else if |stack| > 1 {
      SplitJoin(stack[1..]);
      SplitAppend(stack[0], Join(stack[1..]));
      SplitPlain(stack[0]);
      assert stack == [stack[0]] + stack[1..];
    }
  }

  lemma {:induction false} FoldProper(stack: seq<string>, more: seq<string>)
    requires AllProper(more)
    ensures Fold(stack, more) == stack + more
    decreases more
  {
    if more == [] {
      assert stack + more == stack;
    } else {
      FoldProper(stack + [more[0]], more[1..]);
      assert stack + [more[0]] + more[1..] == stack + more;
    }
  }

  predicate NoSlashes(comps: seq<string>) { forall i :: 0 <= i < |comps| ==> '/' !in comps[i] }

  lemma {:induction false} SplitNoSlashes(s: string)
    ensures NoSlashes(Split(s))
    decreases s
  {
    if s != "" {
      SplitNoSlashes(s[1..]);
    }
  }

  lemma {:induction false} FoldAllProper(stack: seq<string>, comps: seq<string>)
    requires AllProper(stack) && NoSlashes(comps)
    ensures AllProper(Fold(stack, comps))
    decreases comps
  {
    if comps != [] {
      FoldAllProper(Apply(stack, comps[0]), comps[1..]);
    }
  }

  /** Splitting a rendered stack and folding it again gives the stack back. */
  lemma RenderRoundTrip(stack: seq<string>)
    requires AllProper(stack)
    ensures Fold([], Split(Render(stack))) == stack
    ensures Split(Render(stack)) == [""] + (if stack == [] then [""] else stack)
  {
    var comps := Split(Render(stack));
    assert Render(stack)[1..] == Join(stack);
    SplitJoin(stack);
    assert comps == [""] + Split(Join(stack));
    assert comps[1..] == Split(Join(stack));
    if stack != [] {
      FoldProper([], stack);
      assert [] + stack == stack;
    } else {
      assert Fold([], [""]) == [];
    }
  }

  // ---- Laws of the canonical path -------------------------------------------------------------------------

  function Meaning(path: string): seq<string> { Fold([], Split(path)) }

  lemma MeaningProper(path: string)
    ensures AllProper(Meaning(path))
  {
    SplitNoSlashes(path);
    FoldAllProper([], Split(path));
  }

  /** A success is the rendered fold: absolute, and free of empty, "." and ".." components. */
  lemma CanonIsFold(path: string, size: nat)
    requires Canon(path, size).Some?
    ensures Canon(path, size).value == Render(Meaning(path)) && AllProper(Meaning(path))
    ensures var out := Canon(path, size).value;
      && |out| > 0 && out[0] == '/' && Split(out)[0] == ""
      && Split(out)[1..] == if Meaning(path) == [] then [""] else Meaning(path)
  {
    WalkIsFold([], Split(path));
    MeaningProper(path);
    RenderRoundTrip(Meaning(path));
  }

  lemma {:induction false} WalkDepth(stack: seq<string>, comps: seq<string>)
    requires |stack| <= DEPTH_MAX && Walk(stack, comps).Some?
    ensures |Walk(stack, comps).value| <= DEPTH_MAX
    decreases comps
  {
    if comps != [] {
      WalkDepth(Apply(stack, comps[0]), comps[1..]);
    }
  }

  lemma {:induction false} WalkProper(stack: seq<string>, more: seq<string>)
    requires AllProper(more) && |stack| + |more| <= DEPTH_MAX
    ensures Walk(stack, more) == Some(stack + more)
    decreases more
  {
    if more == [] {
      assert stack + more == stack;
    } else {
      WalkProper(stack + [more[0]], more[1..]);
      assert stack + [more[0]] + more[1..] == stack + more;
    }
  }

  lemma WalkRendered(stack: seq<string>)
    requires AllProper(stack) && |stack| <= DEPTH_MAX
    ensures Walk([], Split(Render(stack))) == Some(stack)
  {
    RenderRoundTrip(stack);
    var comps := Split(Render(stack));
    if stack == [] {
      assert comps[1..] == [""] && Walk([], comps) == Walk([], [""]);
      assert [""][1..] == [];
    } else {
      assert comps[1..] == stack;
      WalkProper([], stack);
      assert [] + stack == stack;
    }
  }

  // ---- How long the result is ---------------------------------------------------------------------------------

  /** The length of the components, each with the slash in front of it. */
  function Len(comps: seq<string>): nat {
    if comps == [] then 0 else |comps[0]| + 1 + Len(comps[1..])
  }

  lemma {:induction false} LenSplit(s: string)
    ensures Len(Split(s)) == |s| + 1
    decreases s
  {
    if s != "" {
      LenSplit(s[1..]);
      var rest := Split(s[1..]);
      if s[0] == '/' {
        assert ([""] + rest)[1..] == rest;
      } else {
        assert ([[s[0]] + rest[0]] + rest[1..])[1..] == rest[1..];
      }
    }
  }

  lemma {:induction false} LenAppend(a: seq<string>, c: string)
    ensures Len(a + [c]) == Len(a) + |c| + 1
    decreases a
  {
    if a != [] {
      assert (a + [c])[1..] == a[1..] + [c];
      LenAppend(a[1..], c);
    }
  }

  lemma LenApply(stack: seq<string>, c: string)
    requires '/' !in c
    ensures Len(Apply(stack, c)) <= Len(stack) + |c| + 1
    ensures Len(Apply(stack, c)) == Len(stack) + |c| + 1 <==> Proper(c)
  {
    if Proper(c) {
      LenAppend(stack, c);
    } else if c == ".." && stack != [] {
      var last := |stack| - 1;
      assert stack == stack[..last] + [stack[last]];
      LenAppend(stack[..last], stack[last]);
    }
  }

  /** Folding never makes anything longer, and keeps the length exactly when nothing is dropped. */
  lemma {:induction false} LenFold(stack: seq<string>, comps: seq<string>)
    requires NoSlashes(comps)
    ensures Len(Fold(stack, comps)) <= Len(stack) + Len(comps)
    ensures Len(Fold(stack, comps)) == Len(stack) + Len(comps) <==> AllProper(comps)
    decreases comps
  {
    if comps != [] {
      LenApply(stack, comps[0]);
      LenFold(Apply(stack, comps[0]), comps[1..]);
      assert AllProper(comps) <==> Proper(comps[0]) && AllProper(comps[1..]) by {
        assert comps == [comps[0]] + comps[1..];
      }
    }
  }

  lemma {:induction false} LenJoin(stack: seq<string>)
    ensures |Join(stack)| + 1 == if stack == [] then 1 else Len(stack)
    decreases stack
  {
    if |stack| > 1 {
      LenJoin(stack[1..]);
    }
  }

  /** The path is as long as a path may be and none of its components can be dropped: since it does
      not start with a slash, its canonical form is one character longer. */
  predicate Brimming(path: string) { |path| == PATH_MAX - 1 && AllProper(Split(path)) }

  lemma OverlongIffBrimming(path: string)
    requires |path| < PATH_MAX
    ensures |Render(Meaning(path))| >= PATH_MAX <==> Brimming(path)
  {
    LenSplit(path);
    SplitNoSlashes(path);
    LenFold([], Split(path));
    LenJoin(Meaning(path));
  }

  /** Canonicalising again gives the same path, unless the path was brimming. */
  lemma CanonIdempotent(path: string, size: nat)
    requires Canon(path, size).Some?
    ensures Canon(Canon(path, size).value, size) == Canon(path, size) <==> !Brimming(path)
  {
    CanonIsFold(path, size);
    WalkIsFold([], Split(path));
    WalkDepth([], Split(path));
    WalkRendered(Meaning(path));
    OverlongIffBrimming(path);
  }

  /** A name of 255 letters is accepted, but not its canonical form. */
  lemma IdempotenceFails()
    ensures var path := seq(PATH_MAX - 1, _ => 'a');
      Canon(path, PATH_MAX + 2) == Some("/" + path) && Canon("/" + path, PATH_MAX + 2) == None
  {
    var path := seq(PATH_MAX - 1, _ => 'a');
    SplitPlain(path);
    assert [path][1..] == [] && [] + [path] == [path] && |path| == PATH_MAX - 1;
    assert Walk([], [path]) == Walk([path], []) == Some([path]);
    assert Fits([path], 1, 1 + |path|, PATH_MAX + 2) && Fits([path], 0, 1, PATH_MAX + 2);
  }

  /** The rebuilding check in closed form: room for the path and its terminator, and for one byte
      more when there is a single component. */
  lemma FitsIff(stack: seq<string>, size: nat)
    requires AllProper(stack) && stack != []
    ensures Fits(stack, 0, 1, size) <==> |Render(stack)| + (if |stack| == 1 then 2 else 1) <= size
  {
    LenJoin(stack);
    if |stack| > 1 {
      FitsRest(stack, 1, 1 + |stack[0]|, size);
      LenPositive(stack[1..]);
    }
  }

  lemma LenPositive(stack: seq<string>)
    requires AllProper(stack) && stack != []
    ensures Len(stack) >= 2
  {
    assert Proper(stack[0]);
  }

  lemma {:induction false} FitsRest(stack: seq<string>, i: nat, pos: nat, size: nat)
    requires 0 < i < |stack|
    ensures Fits(stack, i, pos, size) <==> pos + Len(stack[i..]) + 1 <= size
    decreases |stack| - i
  {
    assert stack[i..][0] == stack[i] && stack[i..][1..] == stack[i + 1..];
    if i + 1 < |stack| {
      FitsRest(stack, i + 1, pos + 1 + |stack[i]|, size);
    } else {
      assert stack[i + 1..] == [];
    }
  }

  /** With a buffer no longer than a path may be, as in every call of the kernel, canonicalising
      again always gives the same path. */
  lemma CanonIdempotentWithin(path: string, size: nat)
    requires Canon(path, size).Some? && size <= PATH_MAX
    ensures Canon(Canon(path, size).value, size) == Canon(path, size)
  {
    CanonIdempotent(path, size);
    CanonIsFold(path, size);
    WalkIsFold([], Split(path));
    OverlongIffBrimming(path);
    if Meaning(path) != [] {
      FitsIff(Meaning(path), size);
    }
  }

  // ---- When the terminator falls outside ----------------------------------------------------------------------

  /** Emptying a stack takes a ".." for each of its components. */
  lemma {:induction false} EmptyingIsLong(stack: seq<string>, comps: seq<string>)
    requires Fold(stack, comps) == []
    ensures Len(comps) >= 3 * |stack|
    decreases comps
  {
    if comps != [] {
      EmptyingIsLong(Apply(stack, comps[0]), comps[1..]);
    }
  }

  lemma {:induction false} OverflowThenEmptyIsLong(stack: seq<string>, comps: seq<string>)
    requires Walk(stack, comps) == None && Fold(stack, comps) == []
    ensures Len(comps) >= 3 * (DEPTH_MAX + 1)
    decreases comps
  {
    if !Skipped(comps[0]) && comps[0] != ".." && |stack| >= DEPTH_MAX {
      EmptyingIsLong(stack + [comps[0]], comps[1..]);
    } else {
      OverflowThenEmptyIsLong(Apply(stack, comps[0]), comps[1..]);
    }
  }

  /** A path whose components cancel out is accepted whenever it is short enough to be read. */
  lemma EmptyAccepted(path: string, size: nat)
    requires 0 < size && |path| < PATH_MAX && Meaning(path) == []
    ensures Canon(path, size) == Some("/")
  {
    LenSplit(path);
    if Walk([], Split(path)) == None {
      OverflowThenEmptyIsLong([], Split(path));
    }
    WalkIsFold([], Split(path));
    assert Render([]) == "/";
  }

  /** The path means the root, and the buffer holds a single byte. */
  predicate Overruns(path: string, size: nat) {
    size == 1 && |path| < PATH_MAX && Meaning(path) == []
  }

  /** A success needs more room than the size it was given exactly when the path means the root and
      the size is one. */
  lemma OverrunIff(path: string, size: nat)
    ensures Canon(path, size).Some? && |Canon(path, size).value| + 1 > size <==> Overruns(path, size)
  {
    if Canon(path, size).Some? {
      CanonIsFold(path, size);
      WalkIsFold([], Split(path));
      if Meaning(path) != [] {
        FitsIff(Meaning(path), size);
      }
    }
    if Overruns(path, size) {
      EmptyAccepted(path, size);
    }
  }

  lemma RootOverrunsOneByte()
    ensures Overruns("/", 1) && Canon("/", 1) == Some("/")
  {
    assert Split("/") == [""] + Split("/"[1..]) && "/"[1..] == "";
    assert ["", ""][1..] == [""] && [""][1..] == [];
    assert Fold([], ["", ""]) == Fold([], [""]) == Fold([], []);
    EmptyAccepted("/", 1);
  }

  // ---- What a path means, and when it is accepted ---------------------------------------------------------------

  /** What one more component does to the meaning of a path. */
  lemma MeaningSteps(p: string, c: string)
    requires '/' !in c
    ensures c == "" || c == "." ==> Meaning(p + "/" + c) == Meaning(p)
    ensures c == ".." && Meaning(p) == [] ==> Meaning(p + "/" + c) == []
    ensures c == ".." && Meaning(p) != [] ==> exists last :: Meaning(p) == Meaning(p + "/" + c) + [last]
    ensures Proper(c) ==> Meaning(p + "/" + c) == Meaning(p) + [c]
  {
    SplitAppend(p, c);
    SplitPlain(c);
    FoldAppend([], Split(p), [c]);
    var m := Meaning(p);
    assert Meaning(p + "/" + c) == Fold(m, [c]) == Fold(Apply(m, c), [c][1..]) == Apply(m, c);
    if c == ".." && m != [] {
      assert m == m[..|m| - 1] + [m[|m| - 1]];
    }
  }

  /** A name followed by ".." is no name at all, and a path without slashes means what it does from the root. */
  lemma MeaningCancels(p: string, c: string)
    requires Proper(c)
    ensures Meaning(p + "/" + c + "/..") == Meaning(p) && Meaning(c) == [c] == Meaning("/" + c)
  {
    MeaningSteps(p, c);
    MeaningSteps(p + "/" + c, "..");
    var up := Meaning(p + "/" + c + "/" + "..");
    assert p + "/" + c + "/.." == p + "/" + c + "/" + "..";
    var last :| Meaning(p) + [c] == up + [last];
    assert up == (up + [last])[..|up|] == (Meaning(p) + [c])[..|up|] == Meaning(p);
    SplitPlain(c);
    assert [c][1..] == [] && [] + [c] == [c] && Meaning(c) == Fold(Apply([], c), []);
    assert Split("") == [""] && [""][1..] == [] && Meaning("") == Fold([], []) == [];
    MeaningSteps("", c);
    assert "" + "/" + c == "/" + c;
  }

  /** No prefix of the components leaves more than DEPTH_MAX names behind. */
  ghost predicate Shallow(stack: seq<string>, comps: seq<string>) {
    forall k :: 0 <= k <= |comps| ==> |Fold(stack, comps[..k])| <= DEPTH_MAX
  }

  lemma {:induction false} WalkIff(stack: seq<string>, comps: seq<string>)
    requires |stack| <= DEPTH_MAX
    ensures Walk(stack, comps).Some? <==> Shallow(stack, comps)
    decreases comps
  {
    if comps == [] {
      assert comps[..0] == [];
    } else {
      ShallowSteps(stack, comps);
      var next := Apply(stack, comps[0]);
      if |next| <= DEPTH_MAX {
        WalkIff(next, comps[1..]);
      }
    }
  }

  lemma ShallowSteps(stack: seq<string>, comps: seq<string>)
    requires |stack| <= DEPTH_MAX && comps != []
    ensures var next := Apply(stack, comps[0]);
      Shallow(stack, comps) <==> |next| <= DEPTH_MAX && Shallow(next, comps[1..])
  {
    var next, rest := Apply(stack, comps[0]), comps[1..];
    forall k | 1 <= k <= |comps|
      ensures Fold(stack, comps[..k]) == Fold(next, rest[..k - 1])
    {
      assert comps[..k][0] == comps[0] && comps[..k][1..] == rest[..k - 1];
    }
    assert Fold(stack, comps[..0]) == stack;
    if Shallow(stack, comps) {
      assert Fold(stack, comps[..1]) == Fold(next, rest[..0]) == next;
      forall k | 0 <= k <= |rest|
        ensures |Fold(next, rest[..k])| <= DEPTH_MAX
      {
        assert |Fold(stack, comps[..k + 1])| <= DEPTH_MAX;
      }
    }
    if |next| <= DEPTH_MAX && Shallow(next, rest) {
      forall k | 0 <= k <= |comps|
        ensures |Fold(stack, comps[..k])| <= DEPTH_MAX
      {
        assert k == 0 || |Fold(next, rest[..k - 1])| <= DEPTH_MAX;
      }
    }
  }

  /** vfs_canonicalize succeeds exactly when there is a buffer, the path is short enough, it never goes
      too deep, and the result fits; the root needs no room. */
  lemma CanonAccepts(path: string, size: nat)
    ensures Canon(path, size).Some? <==>
      && size > 0 && |path| < PATH_MAX && Shallow([], Split(path))
      && (Meaning(path) == [] || |Render(Meaning(path))| + (if |Meaning(path)| == 1 then 2 else 1) <= size)
  {
    WalkIff([], Split(path));
    WalkIsFold([], Split(path));
    MeaningProper(path);
    if Meaning(path) != [] {
      FitsIff(Meaning(path), size);
    }
  }

  /** Canonicalising a prefix first changes nothing. */
  lemma CanonOfPrefix(p: string, q: string, cp: string, size: nat, size': nat, size'': nat)
    requires Canon(p, size) == Some(cp) && Canon(p + "/" + q, size').Some? && Canon(cp + "/" + q, size'').Some?
    ensures Canon(p + "/" + q, size').value == Canon(cp + "/" + q, size'').value
  {
    CanonIsFold(p, size);
    CanonIsFold(p + "/" + q, size');
    CanonIsFold(cp + "/" + q, size'');
    RenderRoundTrip(Meaning(p));
    SplitAppend(p, q);
    SplitAppend(cp, q);
    FoldAppend([], Split(p), Split(q));
    FoldAppend([], Split(cp), Split(q));
  }
}
