/** Red-black trees as values: the run queue's tree, a position inside it, the insertion fixup and
    the removal the scheduler performs, and what they do to order and balance. */
module RedBlack {
  import opened Bits

  /** A node is identified by the process that owns it. */
  datatype Tree = Nil | Node(left: Tree, id: nat, red: bool, right: Tree)

  /** The surroundings of a subtree: InLeft when it hangs as the left child of `id`. */
  datatype Ctx = Top
               | InLeft(up: Ctx, id: nat, red: bool, sibling: Tree)
               | InRight(up: Ctx, id: nat, red: bool, sibling: Tree)

  function Plug(c: Ctx, t: Tree): Tree
    decreases c
  {
    match c
    case Top => t
    case InLeft(up, id, red, r) => Plug(up, Node(t, id, red, r))
    case InRight(up, id, red, l) => Plug(up, Node(l, id, red, t))
  }

  function InOrder(t: Tree): seq<nat> {
    match t
    case Nil => []
    case Node(l, id, _, r) => InOrder(l) + [id] + InOrder(r)
  }

  function Before(c: Ctx): seq<nat> {
    match c
    case Top => []
    case InLeft(up, _, _, _) => Before(up)
    case InRight(up, id, _, l) => Before(up) + (InOrder(l) + [id])
  }

  function After(c: Ctx): seq<nat> {
    match c
    case Top => []
    case InLeft(up, id, _, r) => [id] + InOrder(r) + After(up)
    case InRight(up, _, _, _) => After(up)
  }

  lemma {:induction false} PlugOrder(c: Ctx, t: Tree)
    ensures InOrder(Plug(c, t)) == Before(c) + InOrder(t) + After(c)
    decreases c
  {
    match c
    case Top =>
    case InLeft(up, id, red, r) => PlugOrder(up, Node(t, id, red, r));
    case InRight(up, id, red, l) =>
      PlugOrder(up, Node(l, id, red, t));
      assert Before(up) + (InOrder(l) + [id] + InOrder(t)) == Before(up) + (InOrder(l) + [id]) + InOrder(t);
  }

  predicate IsRed(t: Tree) { t.Node? && t.red }

  function Blacken(t: Tree): (r: Tree)
    ensures InOrder(r) == InOrder(t)
  {
    match t
    case Nil => Nil
    case Node(l, id, _, r) => Node(l, id, false, r)
  }

  // ---- Insertion -----------------------------------------------------------------------------

  /** Where the descent of rb_insert ends: left of larger keys, right of smaller or equal ones. */
  function InsertPoint(t: Tree, key: int, prio: nat -> int, c: Ctx): Ctx
    decreases t
  {
    match t
    case Nil => c
    case Node(l, id, red, r) =>
      if key < prio(id) then InsertPoint(l, key, prio, InLeft(c, id, red, r))
      else InsertPoint(r, key, prio, InRight(c, id, red, l))
  }

  /** rb_insert_fixup without the final recolouring of the root: t hangs in c and is red.
      Red uncle: recolour and go on from the grandparent.  Black uncle: rotate and stop. */
  function FixUp(c: Ctx, t: Tree): Tree
    requires t.Node?
    decreases c
  {
    if c.Top? || !c.red || c.up.Top? then Plug(c, t)
    else if IsRed(c.up.sibling) then FixUp(c.up.up, Recoloured(c, t))
    else Plug(c.up.up, Rotated(c, t))
  }

  /** The recoloured grandparent. */
  function Recoloured(c: Ctx, t: Tree): (r: Tree)
    requires !c.Top? && !c.up.Top?
    ensures r.Node? && r.id == c.up.id && r.red
  {
    var p := if c.InLeft? then Node(t, c.id, false, c.sibling) else Node(c.sibling, c.id, false, t);
    var u := Blacken(c.up.sibling);
    if c.up.InLeft? then Node(p, c.up.id, true, u) else Node(u, c.up.id, true, p)
  }

  /** Black uncle: one or two rotations put a black node on top of two red ones. */
  function Rotated(c: Ctx, t: Tree): Tree
    requires t.Node? && !c.Top? && !c.up.Top?
  {
    var g, u := c.up.id, c.up.sibling;
    match (c, c.up)
    case (InLeft(_, p, _, pr), InLeft(_, _, _, _)) => Node(t, p, false, Node(pr, g, true, u))
    case (InRight(_, p, _, pl), InLeft(_, _, _, _)) =>
      Node(Node(pl, p, true, t.left), t.id, false, Node(t.right, g, true, u))
    case (InRight(_, p, _, pl), InRight(_, _, _, _)) => Node(Node(u, g, true, pl), p, false, t)
    case (InLeft(_, p, _, pr), InRight(_, _, _, _)) =>
      Node(Node(u, g, true, t.left), t.id, false, Node(t.right, p, true, pr))
  }

  function Insert(t: Tree, z: nat, key: int, prio: nat -> int): Tree {
    Blacken(FixUp(InsertPoint(t, key, prio, Top), Node(Nil, z, true, Nil)))
  }

  // ---- Order -----------------------------------------------------------------------------------

  /** In-order traversal with an accumulator: the nodes of t followed by `rest`. */
  ghost function Flat(t: Tree, rest: seq<nat>): seq<nat>
    decreases t
  {
    match t
    case Nil => rest
    case Node(l, id, _, r) => Flat(l, [id] + Flat(r, rest))
  }

  lemma {:induction false} FlatIsInOrder(t: Tree, rest: seq<nat>)
    ensures Flat(t, rest) == InOrder(t) + rest
    decreases t
  {
    match t
    case Nil =>
    case Node(l, id, _, r) =>
      FlatIsInOrder(r, rest);
      FlatIsInOrder(l, [id] + Flat(r, rest));
      assert InOrder(l) + ([id] + (InOrder(r) + rest)) == InOrder(l) + [id] + InOrder(r) + rest;
  }

  lemma SameFlatSameOrder(t: Tree, u: Tree)
    requires Flat(t, []) == Flat(u, [])
    ensures InOrder(t) == InOrder(u)
  {
    FlatIsInOrder(t, []);
    FlatIsInOrder(u, []);
    assert InOrder(t) + [] == InOrder(t) && InOrder(u) + [] == InOrder(u);
  }

  /** Subtrees with the same order are interchangeable in any surroundings. */
  lemma PlugSameOrder(c: Ctx, t: Tree, u: Tree)
    requires InOrder(t) == InOrder(u)
    ensures InOrder(Plug(c, t)) == InOrder(Plug(c, u))
  {
    PlugOrder(c, t);
    PlugOrder(c, u);
  }

  function Parent(c: Ctx, t: Tree): Tree
    requires !c.Top?
  {
    if c.InLeft? then Node(t, c.id, c.red, c.sibling) else Node(c.sibling, c.id, c.red, t)
  }

  function Grandparent(c: Ctx, t: Tree): Tree
    requires !c.Top? && !c.up.Top?
  {
    Parent(c.up, Parent(c, t))
  }

  lemma RotatedOrder(c: Ctx, t: Tree)
    requires t.Node? && !c.Top? && !c.up.Top?
    ensures InOrder(Rotated(c, t)) == InOrder(Grandparent(c, t))
  {
    var r, g := Rotated(c, t), Grandparent(c, t);
    var p := Parent(c, t);
    match (c, c.up) {
      case (InLeft(_, _, _, _), InLeft(_, _, _, _)) =>
        FlatNode(p, [g.id] + Flat(g.right, []));
      case (InRight(_, _, _, _), InLeft(_, _, _, _)) =>
        var rest := [g.id] + Flat(g.right, []);
        FlatNode(p, rest);
        FlatNode(t, rest);
        FlatNode(r.left, [t.id] + Flat(r.right, []));
      case (InRight(_, _, _, _), InRight(_, _, _, _)) =>
        FlatNode(r.left, [r.id] + Flat(t, []));
      case (InLeft(_, _, _, _), InRight(_, _, _, _)) =>
        var rest := [p.id] + Flat(p.right, []);
        FlatNode(t, rest);
        FlatNode(r.left, [t.id] + Flat(r.right, []));
    }
    SameFlatSameOrder(r, g);
  }

  lemma FlatNode(t: Tree, rest: seq<nat>)
    requires t.Node?
    ensures Flat(t, rest) == Flat(t.left, [t.id] + Flat(t.right, rest))
  {
  }

  lemma RecolouredOrder(c: Ctx, t: Tree)
    requires !c.Top? && !c.up.Top?
    ensures InOrder(Recoloured(c, t)) == InOrder(Grandparent(c, t))
  {
  }

  /** The fixup never changes the in-order sequence. */
  lemma {:induction false} FixUpOrder(c: Ctx, t: Tree)
    requires t.Node?
    ensures InOrder(FixUp(c, t)) == InOrder(Plug(c, t))
    decreases c
  {
    if c.Top? || !c.red || c.up.Top? {
    } else if IsRed(c.up.sibling) {
      FixUpOrder(c.up.up, Recoloured(c, t));
      RecolouredOrder(c, t);
      PlugSameOrder(c.up.up, Recoloured(c, t), Grandparent(c, t));
    } else {
      RotatedOrder(c, t);
      PlugSameOrder(c.up.up, Rotated(c, t), Grandparent(c, t));
    }
  }

  ghost predicate Sorted(s: seq<nat>, prio: nat -> int) {
    forall i, j :: 0 <= i < j < |s| ==> prio(s[i]) <= prio(s[j])
  }

  ghost predicate AllAtMost(s: seq<nat>, key: int, prio: nat -> int) {
    forall i :: 0 <= i < |s| ==> prio(s[i]) <= key
  }

  ghost predicate AllAbove(s: seq<nat>, key: int, prio: nat -> int) {
    forall i :: 0 <= i < |s| ==> key < prio(s[i])
  }

  /** The descent splits a sorted tree exactly between the keys at most `key` and those above. */
  lemma {:induction false} InsertPointSplits(t: Tree, key: int, prio: nat -> int, c: Ctx)
    requires Sorted(InOrder(t), prio) && AllAtMost(Before(c), key, prio) && AllAbove(After(c), key, prio)
    ensures var d := InsertPoint(t, key, prio, c);
      Plug(d, Nil) == Plug(c, t) && AllAtMost(Before(d), key, prio) && AllAbove(After(d), key, prio)
    decreases t
  {
    match t
    case Nil =>
    case Node(l, id, red, r) =>
      SortedParts(InOrder(l), id, InOrder(r), prio);
      if key < prio(id) {
        InsertPointSplits(l, key, prio, InLeft(c, id, red, r));
      } else {
        InsertPointSplits(r, key, prio, InRight(c, id, red, l));
      }
  }

  lemma SortedParts(l: seq<nat>, id: nat, r: seq<nat>, prio: nat -> int)
    requires Sorted(l + [id] + r, prio)
    ensures Sorted(l, prio) && Sorted(r, prio) && AllAtMost(l, prio(id), prio)
    ensures forall i :: 0 <= i < |r| ==> prio(id) <= prio(r[i])
  {
    var s := l + [id] + r;
    assert s[|l|] == id;
    forall i | 0 <= i < |l|
      ensures l[i] == s[i] && prio(l[i]) <= prio(id)
    {
    }
    forall i | 0 <= i < |r|
      ensures r[i] == s[|l| + 1 + i] && prio(id) <= prio(r[i])
    {
    }
  }

  /** Inserting after all equal keys. */
  ghost predicate StablyInserted(s: seq<nat>, s': seq<nat>, z: nat, key: int, prio: nat -> int) {
    exists k: nat :: SplitAt(s, k, key, prio) && s' == s[..k] + [z] + s[k..]
  }

  ghost predicate SplitAt(s: seq<nat>, k: nat, key: int, prio: nat -> int) {
    k <= |s| && AllAtMost(s[..k], key, prio) && AllAbove(s[k..], key, prio)
  }

  /** rb_insert puts the new node after all keys not above its own and moves nothing else. */
  lemma InsertOrder(t: Tree, z: nat, key: int, prio: nat -> int)
    requires Sorted(InOrder(t), prio)
    ensures StablyInserted(InOrder(t), InOrder(Insert(t, z, key, prio)), z, key, prio)
  {
    var c := InsertPoint(t, key, prio, Top);
    InsertPointSplits(t, key, prio, Top);
    FixUpOrder(c, Node(Nil, z, true, Nil));
    PlugOrder(c, Node(Nil, z, true, Nil));
    PlugOrder(c, Nil);
    var s, k := InOrder(t), |Before(c)|;
    assert s == Before(c) + After(c);
    assert s[..k] == Before(c) && s[k..] == After(c);
    assert SplitAt(s, k, key, prio);
  }

  // ---- Balance ---------------------------------------------------------------------------------

  /** Every path down has h black nodes, and no red node has a red child. */
  predicate Balanced(t: Tree, h: nat) {
    match t
    case Nil => h == 0
    case Node(l, _, red, r) =>
      if red then Balanced(l, h) && Balanced(r, h) && !IsRed(l) && !IsRed(r)
      else h > 0 && Balanced(l, h - 1) && Balanced(r, h - 1)
  }

  ghost predicate RedBlackTree(t: Tree) {
    !IsRed(t) && exists h :: Balanced(t, h)
  }

  predicate RedParent(c: Ctx) { !c.Top? && c.red }

  /** What surrounds a subtree of black height h in a balanced tree. */
  predicate BalancedCtx(c: Ctx, h: nat)
    decreases c
  {
    c.Top? ||
    (&& Balanced(c.sibling, h)
     && if c.red then !IsRed(c.sibling) && !RedParent(c.up) && BalancedCtx(c.up, h) else BalancedCtx(c.up, h + 1))
  }

  predicate BlackTop(c: Ctx) {
    c.Top? || (if c.up.Top? then !c.red else BlackTop(c.up))
  }

  lemma {:induction false} PlugBalanced(c: Ctx, t: Tree, h: nat) returns (h': nat)
    requires BalancedCtx(c, h) && Balanced(t, h) && !(IsRed(t) && RedParent(c))
    ensures Balanced(Plug(c, t), h')
    decreases c
  {
    if c.Top? {
      h' := h;
    } else {
      h' := PlugBalanced(c.up, Parent(c, t), if c.red then h else h + 1);
    }
  }

  lemma {:induction false} UnplugBalanced(c: Ctx, t: Tree, h: nat) returns (h': nat)
    requires Balanced(Plug(c, t), h)
    ensures BalancedCtx(c, h') && Balanced(t, h') && !(IsRed(t) && RedParent(c))
    decreases c
  {
    if c.Top? {
      h' := h;
    } else {
      var k := UnplugBalanced(c.up, Parent(c, t), h);
      h' := if c.red then k else k - 1;
    }
  }

  lemma {:induction false} BlackRootBlackTop(c: Ctx, t: Tree)
    requires !IsRed(Plug(c, t))
    ensures BlackTop(c)
    decreases c
  {
    if !c.Top? {
      BlackRootBlackTop(c.up, Parent(c, t));
    }
  }

  lemma {:induction false} PlugRootBlack(c: Ctx, t: Tree)
    requires BlackTop(c) && !c.Top?
    ensures !IsRed(Plug(c, t))
    decreases c
  {
    if !c.up.Top? {
      PlugRootBlack(c.up, Parent(c, t));
    }
  }

  /** The fixup restores the red-black rules above a red node, blackening the root at most. */
  lemma {:induction false} FixUpBalanced(c: Ctx, t: Tree, h: nat) returns (h': nat)
    requires BalancedCtx(c, h) && Balanced(t, h) && IsRed(t) && BlackTop(c)
    ensures Balanced(Blacken(FixUp(c, t)), h')
    decreases c
  {
    if c.Top? {
      h' := h + 1;
    } else if !c.red {
      h' := PlugBalanced(c, t, h);
      PlugRootBlack(c, t);
    } else if IsRed(c.up.sibling) {
      h' := FixUpBalanced(c.up.up, Recoloured(c, t), h + 1);
    } else {
      h' := PlugBalanced(c.up.up, Rotated(c, t), h + 1);
      if !c.up.up.Top? {
        PlugRootBlack(c.up.up, Rotated(c, t));
      }
    }
  }

  /** rb_insert turns a red-black tree into a red-black tree. */
  lemma InsertBalanced(t: Tree, z: nat, key: int, prio: nat -> int)
    requires RedBlackTree(t)
    ensures RedBlackTree(Insert(t, z, key, prio))
  {
    var c := InsertPoint(t, key, prio, Top);
    InsertPointPlugs(t, key, prio, Top);
    var h :| Balanced(t, h);
    var k := UnplugBalanced(c, Nil, h);
    BlackRootBlackTop(c, Nil);
    var h' := FixUpBalanced(c, Node(Nil, z, true, Nil), k);
  }

  lemma {:induction false} InsertPointPlugs(t: Tree, key: int, prio: nat -> int, c: Ctx)
    ensures Plug(InsertPoint(t, key, prio, c), Nil) == Plug(c, t)
    decreases t
  {
    match t
    case Nil =>
    case Node(l, id, red, r) =>
      if key < prio(id) {
        InsertPointPlugs(l, key, prio, InLeft(c, id, red, r));
      } else {
        InsertPointPlugs(r, key, prio, InRight(c, id, red, l));
      }
  }

  function Height(t: Tree): nat {
    match t
    case Nil => 0
    case Node(l, _, _, r) => 1 + if Height(l) > Height(r) then Height(l) else Height(r)
  }

  lemma {:induction false} BalancedBounds(t: Tree, h: nat)
    requires Balanced(t, h)
    ensures Height(t) <= 2 * h + (if IsRed(t) then 1 else 0)
    ensures Pow2(h) <= |InOrder(t)| + 1
    decreases t
  {
    if t.Node? {
      var k := if t.red then h else h - 1;
      BalancedBounds(t.left, k);
      BalancedBounds(t.right, k);
    }
  }

  /** A red-black tree of n nodes has height at most 2 log2(n + 1). */
  lemma HeightBound(t: Tree, n: nat)
    requires RedBlackTree(t) && |InOrder(t)| == n
    ensures Pow2(Height(t)) <= (n + 1) * (n + 1)
  {
    var h: nat :| Balanced(t, h);
    BalancedBounds(t, h);
    Pow2Monotone(Height(t), 2 * h);
    SquareBound(h, n + 1);
  }

  lemma SquareBound(h: nat, m: nat)
    requires Pow2(h) <= m
    ensures Pow2(2 * h) <= m * m
  {
    Pow2Add(h, h);
    MulLe(Pow2(h), m, Pow2(h));
    MulLe(Pow2(h), m, m);
  }

  /** The tree after inserting a sequence of processes into an empty queue. */
  function InsertAll(zs: seq<nat>, prio: nat -> int): Tree {
    if zs == [] then Nil
    else Insert(InsertAll(zs[..|zs| - 1], prio), zs[|zs| - 1], prio(zs[|zs| - 1]), prio)
  }

  lemma {:induction false} InsertOnlyBalanced(zs: seq<nat>, prio: nat -> int)
    ensures RedBlackTree(InsertAll(zs, prio)) && |InOrder(InsertAll(zs, prio))| == |zs|
    decreases |zs|
  {
    if zs == [] {
      assert Balanced(Nil, 0);
    } else {
      var n := |zs| - 1;
      var t := InsertAll(zs[..n], prio);
      InsertOnlyBalanced(zs[..n], prio);
      InsertBalanced(t, zs[n], prio(zs[n]), prio);
      InsertGrows(t, zs[n], prio(zs[n]), prio);
    }
  }

  lemma InsertGrows(t: Tree, z: nat, key: int, prio: nat -> int)
    ensures |InOrder(Insert(t, z, key, prio))| == |InOrder(t)| + 1
  {
    var c := InsertPoint(t, key, prio, Top);
    InsertPointPlugs(t, key, prio, Top);
    FixUpOrder(c, Node(Nil, z, true, Nil));
    PlugOrder(c, Node(Nil, z, true, Nil));
    PlugOrder(c, Nil);
  }

  /** After n insertions and no removal, every search path has at most 2 log2(n + 1) nodes. */
  lemma InsertOnlyHeight(zs: seq<nat>, prio: nat -> int, t: Tree, n: nat)
    requires t == InsertAll(zs, prio) && n == |zs|
    ensures Pow2(Height(t)) <= (n + 1) * (n + 1)
  {
    InsertOnlyBalanced(zs, prio);
    HeightBound(t, n);
  }

  // ---- Removal -----------------------------------------------------------------------------------

  function MinId(t: Tree): nat
    requires t.Node?
  {
    if t.left.Nil? then t.id else MinId(t.left)
  }

  function WithoutMin(t: Tree): Tree
    requires t.Node?
  {
    if t.left.Nil? then t.right else Node(WithoutMin(t.left), t.id, t.red, t.right)
  }

  /** What rb_remove_node leaves in place of the subtree t whose root it removes. */
  function Removed(t: Tree): Tree
    requires t.Node?
  {
    if t.left.Nil? then t.right
    else if t.right.Nil? then t.left
    else Node(t.left, MinId(t.right), t.red, WithoutMin(t.right))
  }

  lemma {:induction false} MinFirst(t: Tree)
    requires t.Node?
    ensures InOrder(t) == [MinId(t)] + InOrder(WithoutMin(t))
    decreases t
  {
    if t.left.Node? {
      MinFirst(t.left);
    }
  }

  lemma RemovedIsRest(t: Tree)
    requires t.Node?
    ensures InOrder(Removed(t)) == InOrder(t.left) + InOrder(t.right)
  {
    if t.left.Node? && t.right.Node? {
      MinFirst(t.right);
    }
  }

  lemma Regroup(b: seq<nat>, l: seq<nat>, x: seq<nat>, r: seq<nat>, a: seq<nat>)
    ensures b + (l + x + r) + a == (b + l) + x + (r + a)
    ensures b + (l + r) + a == (b + l) + (r + a)
  {
  }

  /** rb_remove_node deletes exactly the node it is given. */
  lemma RemovedOrder(c: Ctx, t: Tree)
    requires t.Node?
    ensures InOrder(Plug(c, t)) == (Before(c) + InOrder(t.left)) + [t.id] + (InOrder(t.right) + After(c))
    ensures InOrder(Plug(c, Removed(t))) == (Before(c) + InOrder(t.left)) + (InOrder(t.right) + After(c))
  {
    PlugOrder(c, t);
    PlugOrder(c, Removed(t));
    RemovedIsRest(t);
    Regroup(Before(c), InOrder(t.left), [t.id], InOrder(t.right), After(c));
  }

  /** What the node leaves behind is still sorted. */
  lemma RemovedSorted(c: Ctx, t: Tree, prio: nat -> int)
    requires t.Node? && Sorted(InOrder(Plug(c, t)), prio)
    ensures Sorted(InOrder(Blacken(Plug(c, Removed(t)))), prio)
  {
    RemovedOrder(c, t);
    GapSorted(Before(c) + InOrder(t.left), t.id, InOrder(t.right) + After(c), prio);
  }

  lemma GapSorted(a: seq<nat>, x: nat, b: seq<nat>, prio: nat -> int)
    requires Sorted(a + [x] + b, prio)
    ensures Sorted(a + b, prio)
  {
    var s, t := a + [x] + b, a + b;
    forall i, j | 0 <= i < j < |t|
      ensures prio(t[i]) <= prio(t[j])
    {
      var k, l := if i < |a| then i else i + 1, if j < |a| then j else j + 1;
      assert t[i] == s[k] && t[j] == s[l];
    }
  }
}
