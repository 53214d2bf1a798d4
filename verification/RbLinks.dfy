/** Run-queue trees as the kernel stores them: nodes with parent, left and right links, embedded in
    a process table.  When a table of linked nodes represents a tree, and which writes keep it so. */
module RbLinks {
  import opened RedBlack

  datatype Ptr = Null | Ref(id: nat)
  datatype RbNode = RbNode(parent: Ptr, left: Ptr, right: Ptr, red: bool)
  type Nodes = seq<RbNode>

  function RootPtr(t: Tree): Ptr { if t.Nil? then Null else Ref(t.id) }
  function ParentPtr(c: Ctx): Ptr { if c.Top? then Null else Ref(c.id) }

  /** The nodes of t are linked as t, below `parent`. */
  predicate TreeAt(ns: Nodes, parent: Ptr, t: Tree)
    decreases t
  {
    t.Nil? ||
    (&& t.id < |ns| && ns[t.id] == RbNode(parent, RootPtr(t.left), RootPtr(t.right), t.red)
     && TreeAt(ns, Ref(t.id), t.left) && TreeAt(ns, Ref(t.id), t.right))
  }

  /** The surroundings c are linked up to `root`, with `hole` where the subtree hangs. */
  predicate CtxAt(ns: Nodes, root: Ptr, c: Ctx, hole: Ptr)
    decreases c
  {
    if c.Top? then root == hole
    else
      && c.id < |ns| && ns[c.id] == CtxNode(c, hole)
      && TreeAt(ns, Ref(c.id), c.sibling) && CtxAt(ns, root, c.up, Ref(c.id))
  }

  function CtxNode(c: Ctx, hole: Ptr): RbNode
    requires !c.Top?
  {
    if c.InLeft? then RbNode(ParentPtr(c.up), hole, RootPtr(c.sibling), c.red)
    else RbNode(ParentPtr(c.up), RootPtr(c.sibling), hole, c.red)
  }

  function Ids(t: Tree): set<nat> {
    if t.Nil? then {} else Ids(t.left) + {t.id} + Ids(t.right)
  }

  function CtxIds(c: Ctx): set<nat> {
    if c.Top? then {} else CtxIds(c.up) + {c.id} + Ids(c.sibling)
  }

  predicate Distinct(t: Tree) {
    t.Nil? ||
    (&& t.id !in Ids(t.left) && t.id !in Ids(t.right) && Ids(t.left) !! Ids(t.right)
     && Distinct(t.left) && Distinct(t.right))
  }

  predicate CtxDistinct(c: Ctx) {
    c.Top? ||
    (&& c.id !in CtxIds(c.up) && c.id !in Ids(c.sibling) && CtxIds(c.up) !! Ids(c.sibling)
     && CtxDistinct(c.up) && Distinct(c.sibling))
  }

  /** The table represents the tree Plug(c, t) with distinct nodes. */
  predicate Shape(ns: Nodes, root: Ptr, c: Ctx, t: Tree) {
    && CtxAt(ns, root, c, RootPtr(t)) && TreeAt(ns, ParentPtr(c), t)
    && CtxDistinct(c) && Distinct(t) && CtxIds(c) !! Ids(t)
  }

  ghost predicate Touches(ns: Nodes, ns': Nodes, ids: set<nat>) {
    |ns'| == |ns| && forall i :: 0 <= i < |ns| && i !in ids ==> ns'[i] == ns[i]
  }

  /** Moving the focus to a child or back to the parent changes nothing. */
  lemma FocusLeft(ns: Nodes, root: Ptr, c: Ctx, t: Tree)
    requires t.Node?
    ensures Shape(ns, root, c, t) <==> Shape(ns, root, InLeft(c, t.id, t.red, t.right), t.left)
  {
  }

  lemma FocusRight(ns: Nodes, root: Ptr, c: Ctx, t: Tree)
    requires t.Node?
    ensures Shape(ns, root, c, t) <==> Shape(ns, root, InRight(c, t.id, t.red, t.left), t.right)
  {
  }

  // ---- Writes elsewhere, and the two elementary writes ----------------------------------------------

  lemma {:induction false} TreeFrame(ns: Nodes, ns': Nodes, p: Ptr, t: Tree)
    requires TreeAt(ns, p, t) && |ns'| == |ns| && forall i :: i in Ids(t) && i < |ns| ==> ns'[i] == ns[i]
    ensures TreeAt(ns', p, t)
    decreases t
  {
    if t.Node? {
      TreeFrame(ns, ns', Ref(t.id), t.left);
      TreeFrame(ns, ns', Ref(t.id), t.right);
    }
  }

  lemma {:induction false} CtxFrame(ns: Nodes, ns': Nodes, root: Ptr, c: Ctx, hole: Ptr)
    requires CtxAt(ns, root, c, hole) && |ns'| == |ns| && forall i :: i in CtxIds(c) && i < |ns| ==> ns'[i] == ns[i]
    ensures CtxAt(ns', root, c, hole)
    decreases c
  {
    if !c.Top? {
      TreeFrame(ns, ns', Ref(c.id), c.sibling);
      CtxFrame(ns, ns', root, c.up, Ref(c.id));
    }
  }

  /** Rewriting the parent link of a subtree's root re-hangs the subtree. */
  lemma Reparent(ns: Nodes, ns': Nodes, p: Ptr, q: Ptr, t: Tree)
    requires TreeAt(ns, p, t) && Distinct(t) && |ns'| == |ns|
    requires t.Node? ==> ns'[t.id] == ns[t.id].(parent := q)
    requires t.Node? ==> forall i :: (i in Ids(t.left) || i in Ids(t.right)) && i < |ns| ==> ns'[i] == ns[i]
    ensures TreeAt(ns', q, t)
  {
    if t.Node? {
      TreeFrame(ns, ns', Ref(t.id), t.left);
      TreeFrame(ns, ns', Ref(t.id), t.right);
    }
  }

  /** Rewriting the link into the hole plugs the hole with something else. */
  lemma Rehole(ns: Nodes, ns': Nodes, root: Ptr, root': Ptr, c: Ctx, hole: Ptr, hole': Ptr)
    requires CtxAt(ns, root, c, hole) && CtxDistinct(c) && |ns'| == |ns|
    requires if c.Top? then root' == hole' else root' == root && ns'[c.id] == CtxNode(c, hole')
    requires forall i :: i in CtxIds(c) && (c.Top? || i != c.id) && i < |ns| ==> ns'[i] == ns[i]
    ensures CtxAt(ns', root', c, hole')
  {
    if !c.Top? {
      TreeFrame(ns, ns', Ref(c.id), c.sibling);
      CtxFrame(ns, ns', root, c.up, Ref(c.id));
    }
  }

  // ---- Rotations --------------------------------------------------------------------------------------

  /** The link into the hole, in the parent's node or in the root pointer, now names `hole`. */
  predicate Relinked(ns': Nodes, root: Ptr, root': Ptr, c: Ctx, hole: Ptr)
    requires !c.Top? ==> c.id < |ns'|
  {
    if c.Top? then root' == hole else root' == root && ns'[c.id] == CtxNode(c, hole)
  }

  /** Only nodes x and y, the root of b and the parent of the hole may differ. */
  ghost predicate OnlyRelinked(ns: Nodes, ns': Nodes, x: nat, y: nat, b: Tree, c: Ctx) {
    && |ns'| == |ns| && x < |ns| && y < |ns| && (b.Node? ==> b.id < |ns|) && (!c.Top? ==> c.id < |ns|)
    && forall i :: 0 <= i < |ns| && i != x && i != y && Ref(i) != RootPtr(b) && Ref(i) != ParentPtr(c) ==>
         ns'[i] == ns[i]
  }

  /** Subtrees a, b, d, nodes x, y between them, and the surroundings c share no node. */
  predicate AllApart(c: Ctx, a: Tree, x: nat, b: Tree, y: nat, d: Tree) {
    && CtxDistinct(c) && Distinct(a) && Distinct(b) && Distinct(d) && x != y
    && x !in Ids(a) && x !in Ids(b) && x !in Ids(d) && x !in CtxIds(c)
    && y !in Ids(a) && y !in Ids(b) && y !in Ids(d) && y !in CtxIds(c)
    && Ids(a) !! Ids(b) && Ids(a) !! Ids(d) && Ids(b) !! Ids(d)
    && Ids(a) !! CtxIds(c) && Ids(b) !! CtxIds(c) && Ids(d) !! CtxIds(c)
  }

  lemma RightLeaning(c: Ctx, a: Tree, x: nat, rx: bool, b: Tree, y: nat, ry: bool, d: Tree)
    ensures var t := Node(a, x, rx, Node(b, y, ry, d));
      CtxDistinct(c) && Distinct(t) && CtxIds(c) !! Ids(t) <==> AllApart(c, a, x, b, y, d)
    ensures Ids(Node(a, x, rx, Node(b, y, ry, d))) == Ids(a) + {x} + Ids(b) + {y} + Ids(d)
  {
    var u := Node(b, y, ry, d);
    assert Ids(u) == Ids(b) + {y} + Ids(d);
    assert Distinct(u) <==> y !in Ids(b) && y !in Ids(d) && Ids(b) !! Ids(d) && Distinct(b) && Distinct(d);
  }

  lemma LeftLeaning(c: Ctx, a: Tree, x: nat, rx: bool, b: Tree, y: nat, ry: bool, d: Tree)
    ensures var t := Node(Node(a, x, rx, b), y, ry, d);
      CtxDistinct(c) && Distinct(t) && CtxIds(c) !! Ids(t) <==> AllApart(c, a, x, b, y, d)
    ensures Ids(Node(Node(a, x, rx, b), y, ry, d)) == Ids(a) + {x} + Ids(b) + {y} + Ids(d)
  {
    var u := Node(a, x, rx, b);
    assert Ids(u) == Ids(a) + {x} + Ids(b);
    assert Distinct(u) <==> x !in Ids(a) && x !in Ids(b) && Ids(a) !! Ids(b) && Distinct(a) && Distinct(b);
  }

  lemma LeftRotationShape(ns: Nodes, ns': Nodes, root: Ptr, root': Ptr, c: Ctx,
                          a: Tree, x: nat, rx: bool, b: Tree, y: nat, ry: bool, d: Tree)
    requires Shape(ns, root, c, Node(a, x, rx, Node(b, y, ry, d))) && OnlyRelinked(ns, ns', x, y, b, c)
    requires ns'[x] == RbNode(Ref(y), RootPtr(a), RootPtr(b), rx)
    requires ns'[y] == RbNode(ParentPtr(c), Ref(x), RootPtr(d), ry)
    requires b.Node? ==> ns'[b.id] == ns[b.id].(parent := Ref(x))
    requires Relinked(ns', root, root', c, Ref(y))
    ensures Shape(ns', root', c, Node(Node(a, x, rx, b), y, ry, d))
  {
    RightLeaning(c, a, x, rx, b, y, ry, d);
    LeftLeaning(c, a, x, rx, b, y, ry, d);
    assert TreeAt(ns, Ref(x), Node(b, y, ry, d));
    RehungAround(ns, ns', root, root', c, Ref(x), Ref(y), x, b, y);
    RehungBeside(ns, ns', Ref(x), c, x, b, y, a);
    RehungBeside(ns, ns', Ref(y), c, x, b, y, d);
    RehungMiddle(ns, ns', c, x, b, y);
    Reparent(ns, ns', Ref(y), Ref(x), b);
    assert TreeAt(ns', Ref(y), Node(a, x, rx, b));
  }

  lemma RightRotationShape(ns: Nodes, ns': Nodes, root: Ptr, root': Ptr, c: Ctx,
                           a: Tree, y: nat, ry: bool, b: Tree, x: nat, rx: bool, d: Tree)
    requires Shape(ns, root, c, Node(Node(a, y, ry, b), x, rx, d)) && OnlyRelinked(ns, ns', x, y, b, c)
    requires ns'[x] == RbNode(Ref(y), RootPtr(b), RootPtr(d), rx)
    requires ns'[y] == RbNode(ParentPtr(c), RootPtr(a), Ref(x), ry)
    requires b.Node? ==> ns'[b.id] == ns[b.id].(parent := Ref(x))
    requires Relinked(ns', root, root', c, Ref(y))
    ensures Shape(ns', root', c, Node(a, y, ry, Node(b, x, rx, d)))
  {
    LeftLeaning(c, a, y, ry, b, x, rx, d);
    RightLeaning(c, a, y, ry, b, x, rx, d);
    assert TreeAt(ns, Ref(x), Node(a, y, ry, b));
    RehungAround(ns, ns', root, root', c, Ref(x), Ref(y), x, b, y);
    RehungBeside(ns, ns', Ref(x), c, x, b, y, d);
    RehungBeside(ns, ns', Ref(y), c, x, b, y, a);
    RehungMiddle(ns, ns', c, x, b, y);
    Reparent(ns, ns', Ref(y), Ref(x), b);
    assert TreeAt(ns', Ref(y), Node(b, x, rx, d));
  }

  /** A rotation at x and y leaves other subtrees alone. */
  lemma RehungBeside(ns: Nodes, ns': Nodes, p: Ptr, c: Ctx, x: nat, b: Tree, y: nat, t: Tree)
    requires OnlyRelinked(ns, ns', x, y, b, c) && TreeAt(ns, p, t)
    requires x !in Ids(t) && y !in Ids(t) && Ids(t) !! Ids(b) && Ids(t) !! CtxIds(c)
    ensures TreeAt(ns', p, t)
  {
    RootIn(b);
    CtxRootIn(c);
    TreeFrame(ns, ns', p, t);
  }

  lemma RehungAround(ns: Nodes, ns': Nodes, root: Ptr, root': Ptr, c: Ctx, hole: Ptr, hole': Ptr, x: nat, b: Tree,
                     y: nat)
    requires CtxAt(ns, root, c, hole) && CtxDistinct(c)
    requires OnlyRelinked(ns, ns', x, y, b, c) && Relinked(ns', root, root', c, hole')
    requires x !in CtxIds(c) && y !in CtxIds(c) && Ids(b) !! CtxIds(c)
    ensures CtxAt(ns', root', c, hole')
  {
    RootIn(b);
    Rehole(ns, ns', root, root', c, hole, hole');
  }

  lemma RehungMiddle(ns: Nodes, ns': Nodes, c: Ctx, x: nat, b: Tree, y: nat)
    requires Distinct(b) && x !in Ids(b) && y !in Ids(b) && Ids(b) !! CtxIds(c) && OnlyRelinked(ns, ns', x, y, b, c)
    ensures b.Node? ==> forall i :: (i in Ids(b.left) || i in Ids(b.right)) && i < |ns| ==> ns'[i] == ns[i]
  {
    CtxRootIn(c);
    if b.Node? {
      forall i | 0 <= i < |ns| && (i in Ids(b.left) || i in Ids(b.right))
        ensures ns'[i] == ns[i]
      {
        assert i in Ids(b) && i != b.id;
      }
    }
  }

  lemma CtxRootIn(c: Ctx)
    ensures !c.Top? ==> c.id in CtxIds(c)
  {
  }

  lemma RootIn(t: Tree)
    ensures t.Node? ==> t.id in Ids(t)
  {
  }

  /** The node above the hole has the subtree on the side the surroundings say, and on no other. */
  lemma WhichSide(ns: Nodes, root: Ptr, c: Ctx, t: Tree)
    requires Shape(ns, root, c, t) && t.Node? && !c.Top?
    ensures c.id < |ns| && c.id != t.id
    ensures ns[c.id].left == Ref(t.id) <==> c.InLeft?
    ensures ns[c.id].right == Ref(t.id) <==> c.InRight?
  {
  }

  // ---- Colours, and moving the focus up -----------------------------------------------------------------

  function AllIds(c: Ctx, t: Tree): set<nat> { CtxIds(c) + Ids(t) }

  function Painted(t: Tree, red: bool): (r: Tree)
    requires t.Node?
    ensures Ids(r) == Ids(t)
  {
    Node(t.left, t.id, red, t.right)
  }

  lemma PaintShape(ns: Nodes, root: Ptr, c: Ctx, t: Tree, red: bool)
    requires Shape(ns, root, c, t) && t.Node?
    ensures t.id < |ns| && Shape(ns[t.id := ns[t.id].(red := red)], root, c, Painted(t, red))
  {
    var ns' := ns[t.id := ns[t.id].(red := red)];
    RootIn(t);
    TreeFrame(ns, ns', Ref(t.id), t.left);
    TreeFrame(ns, ns', Ref(t.id), t.right);
    CtxFrame(ns, ns', root, c, Ref(t.id));
  }

  lemma FocusUp(ns: Nodes, root: Ptr, c: Ctx, t: Tree)
    requires !c.Top?
    ensures Shape(ns, root, c, t) <==> Shape(ns, root, c.up, Parent(c, t))
    ensures AllIds(c, t) == AllIds(c.up, Parent(c, t))
    ensures Plug(c, t) == Plug(c.up, Parent(c, t))
  {
  }

  /** The surroundings of the sibling of t. */
  function SiblingCtx(c: Ctx, t: Tree): Ctx
    requires !c.Top?
  {
    if c.InLeft? then InRight(c.up, c.id, c.red, t) else InLeft(c.up, c.id, c.red, t)
  }

  lemma FocusSibling(ns: Nodes, root: Ptr, c: Ctx, t: Tree)
    requires !c.Top?
    ensures Shape(ns, root, c, t) <==> Shape(ns, root, SiblingCtx(c, t), c.sibling)
    ensures AllIds(c, t) == AllIds(SiblingCtx(c, t), c.sibling)
    ensures Plug(c, t) == Plug(SiblingCtx(c, t), c.sibling)
  {
  }

  /** Any focus is as good as looking at the whole tree from the top. */
  lemma {:induction false} FocusTop(ns: Nodes, root: Ptr, c: Ctx, t: Tree)
    ensures Shape(ns, root, c, t) <==> Shape(ns, root, Top, Plug(c, t))
    ensures AllIds(c, t) == Ids(Plug(c, t)) && (t.Node? ==> Plug(c, t).Node?)
    decreases c
  {
    if !c.Top? {
      FocusUp(ns, root, c, t);
      FocusTop(ns, root, c.up, Parent(c, t));
    }
  }

  /** Writes to nodes outside the tree do not matter. */
  lemma OutsideFrame(ns: Nodes, ns': Nodes, root: Ptr, c: Ctx, t: Tree)
    requires Shape(ns, root, c, t) && |ns'| == |ns| && forall i :: i in AllIds(c, t) && i < |ns| ==> ns'[i] == ns[i]
    ensures Shape(ns', root, c, t)
  {
    CtxFrame(ns, ns', root, c, RootPtr(t));
    TreeFrame(ns, ns', ParentPtr(c), t);
  }

  // ---- A new leaf, and a node's place taken by another subtree --------------------------------------------

  lemma LeafShape(ns: Nodes, ns': Nodes, root: Ptr, root': Ptr, c: Ctx, z: nat)
    requires Shape(ns, root, c, Nil) && z !in CtxIds(c) && OnlyRelinked(ns, ns', z, z, Nil, c)
    requires ns'[z] == RbNode(ParentPtr(c), Null, Null, true) && Relinked(ns', root, root', c, Ref(z))
    ensures Shape(ns', root', c, Node(Nil, z, true, Nil)) && AllIds(c, Node(Nil, z, true, Nil)) == CtxIds(c) + {z}
  {
    Rehole(ns, ns', root, root', c, Null, Ref(z));
  }

  /** The subtree s, which hangs below z, moves up into the place of z. */
  lemma TransplantShape(ns: Nodes, ns': Nodes, root: Ptr, root': Ptr, c: Ctx, z: nat, s: Tree)
    requires CtxAt(ns, root, c, Ref(z)) && CtxDistinct(c) && TreeAt(ns, Ref(z), s) && Distinct(s)
    requires CtxIds(c) !! Ids(s) && z !in CtxIds(c) && z !in Ids(s)
    requires OnlyRelinked(ns, ns', z, z, s, c) && Relinked(ns', root, root', c, RootPtr(s))
    requires s.Node? ==> ns'[s.id] == ns[s.id].(parent := ParentPtr(c))
    ensures Shape(ns', root', c, s)
  {
    RehungAround(ns, ns', root, root', c, Ref(z), RootPtr(s), z, s, z);
    RehungMiddle(ns, ns', c, z, s, z);
    Reparent(ns, ns', Ref(z), ParentPtr(c), s);
  }

  /** z still stands in its place with left subtree l; y is out of the tree and holds r on its right. */
  ghost predicate Detached(ns: Nodes, root: Ptr, c: Ctx, l: Tree, z: nat, red: bool, y: nat, r: Tree) {
    && AllApart(c, l, z, Nil, y, r) && CtxAt(ns, root, c, Ref(z)) && TreeAt(ns, Ref(z), l) && TreeAt(ns, Ref(y), r)
    && z < |ns| && ns[z].parent == ParentPtr(c) && ns[z].left == RootPtr(l) && ns[z].red == red
    && y < |ns| && ns[y].right == RootPtr(r)
  }

  lemma TakePlaceShape(ns: Nodes, ns': Nodes, root: Ptr, root': Ptr, c: Ctx, l: Tree, z: nat, red: bool, y: nat,
                       r: Tree)
    requires Detached(ns, root, c, l, z, red, y, r) && OnlyRelinked(ns, ns', z, y, l, c)
    requires Relinked(ns', root, root', c, Ref(y)) && ns'[y] == RbNode(ParentPtr(c), RootPtr(l), RootPtr(r), red)
    requires l.Node? ==> ns'[l.id] == ns[l.id].(parent := Ref(y))
    ensures Shape(ns', root', c, Node(l, y, red, r))
  {
    RehungAround(ns, ns', root, root', c, Ref(z), Ref(y), z, l, y);
    RehungBeside(ns, ns', Ref(y), c, z, l, y, r);
    RehungMiddle(ns, ns', c, z, l, y);
    Reparent(ns, ns', Ref(z), Ref(y), l);
  }

  // ---- The leftmost node -----------------------------------------------------------------------------------

  function MinCtx(t: Tree, c: Ctx): Ctx
    requires t.Node?
    decreases t
  {
    if t.left.Nil? then c else MinCtx(t.left, InLeft(c, t.id, t.red, t.right))
  }

  function MinSub(t: Tree): (r: Tree)
    requires t.Node?
    ensures r.Node? && r.left.Nil? && r.id == MinId(t)
  {
    if t.left.Nil? then t else MinSub(t.left)
  }

  lemma {:induction false} FocusMin(ns: Nodes, root: Ptr, c: Ctx, t: Tree)
    requires t.Node?
    ensures Shape(ns, root, c, t) <==> Shape(ns, root, MinCtx(t, c), MinSub(t))
    ensures Shape(ns, root, c, WithoutMin(t)) <==> Shape(ns, root, MinCtx(t, c), MinSub(t).right)
    decreases t
  {
    if t.left.Node? {
      var c' := InLeft(c, t.id, t.red, t.right);
      FocusUp(ns, root, c', t.left);
      FocusUp(ns, root, c', WithoutMin(t.left));
      FocusMin(ns, root, c', t.left);
    }
  }

  lemma {:induction false} MinIds(t: Tree)
    requires t.Node?
    ensures Ids(t) == Ids(WithoutMin(t)) + {MinId(t)}
    ensures Distinct(t) ==> Distinct(WithoutMin(t)) && MinId(t) !in Ids(WithoutMin(t))
    decreases t
  {
    if t.left.Node? {
      MinIds(t.left);
    }
  }

  lemma {:induction false} MinCtxIds(t: Tree, c: Ctx)
    requires t.Node?
    ensures AllIds(MinCtx(t, c), MinSub(t)) == AllIds(c, t)
    ensures t.left.Node? ==> MinCtx(t, c).InLeft?
    decreases t
  {
    if t.left.Node? {
      MinCtxIds(t.left, InLeft(c, t.id, t.red, t.right));
    }
  }
}
