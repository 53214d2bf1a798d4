/** The red-black tree routines of the scheduler, rewiring linked nodes in place.  Every routine is
    given, as ghost arguments, the tree its nodes represent, and is proved to leave the tree that
    the value-level operation computes. */
module RbTree {
  import opened RedBlack
  import opened RbLinks

  lemma LeftFacts(ns: Nodes, root: Ptr, c: Ctx, a: Tree, x: nat, rx: bool, b: Tree, y: nat, ry: bool, d: Tree)
    requires Shape(ns, root, c, Node(a, x, rx, Node(b, y, ry, d)))
    ensures x < |ns| && y < |ns| && x != y
    ensures ns[x] == RbNode(ParentPtr(c), RootPtr(a), Ref(y), rx) && ns[y] == RbNode(Ref(x), RootPtr(b), RootPtr(d), ry)
    ensures b.Node? ==> b.id < |ns| && b.id != x && b.id != y
    ensures !c.Top? ==>
      c.id < |ns| && c.id != x && c.id != y && (b.Node? ==> c.id != b.id) && ns[c.id] == CtxNode(c, Ref(x))
    ensures !c.Top? ==> (ns[c.id].left == Ref(x) <==> c.InLeft?)
  {
    RightLeaning(c, a, x, rx, b, y, ry, d);
    assert TreeAt(ns, Ref(x), Node(b, y, ry, d));
    assert TreeAt(ns, Ref(y), b);
    RootIn(b);
    CtxRootIn(c);
    if !c.Top? {
      RootIn(c.sibling);
    }
  }

  lemma RightFacts(ns: Nodes, root: Ptr, c: Ctx, a: Tree, y: nat, ry: bool, b: Tree, x: nat, rx: bool, d: Tree)
    requires Shape(ns, root, c, Node(Node(a, y, ry, b), x, rx, d))
    ensures x < |ns| && y < |ns| && x != y
    ensures ns[x] == RbNode(ParentPtr(c), Ref(y), RootPtr(d), rx) && ns[y] == RbNode(Ref(x), RootPtr(a), RootPtr(b), ry)
    ensures b.Node? ==> b.id < |ns| && b.id != x && b.id != y
    ensures !c.Top? ==>
      c.id < |ns| && c.id != x && c.id != y && (b.Node? ==> c.id != b.id) && ns[c.id] == CtxNode(c, Ref(x))
    ensures !c.Top? ==> (ns[c.id].right == Ref(x) <==> c.InRight?)
  {
    LeftLeaning(c, a, y, ry, b, x, rx, d);
    assert TreeAt(ns, Ref(x), Node(a, y, ry, b));
    assert TreeAt(ns, Ref(y), b);
    RootIn(b);
    CtxRootIn(c);
    if !c.Top? {
      RootIn(c.sibling);
    }
  }

  class NodePool {
    var nodes: Nodes

    constructor (n: nat)
      ensures |nodes| == n
    {
      nodes := seq(n, _ => RbNode(Null, Null, Null, false));
    }

    /** Make the link that led to x lead to `heir` instead. */
    method ReplaceChild(root: Ptr, x: nat, heir: Ptr) returns (root': Ptr)
      requires x < |nodes| && (nodes[x].parent.Ref? ==> nodes[x].parent.id < |nodes|)
      modifies this
      ensures root' == if old(nodes)[x].parent.Null? then heir else root
      ensures nodes == if old(nodes)[x].parent.Null? then old(nodes) else
        var p := old(nodes)[x].parent.id;
        var n := old(nodes)[p];
        old(nodes)[p := if n.left == Ref(x) then n.(left := heir) else n.(right := heir)]
    {
      root' := root;
      if nodes[x].parent.Null? {
        root' := heir;
      } else {
        var p := nodes[x].parent.id;
        if nodes[p].left == Ref(x) {
          nodes := nodes[p := nodes[p].(left := heir)];
        } else {
          nodes := nodes[p := nodes[p].(right := heir)];
        }
      }
    }

    /** The same, looking at the right child first. */
    method ReplaceChildMirrored(root: Ptr, x: nat, heir: Ptr) returns (root': Ptr)
      requires x < |nodes| && (nodes[x].parent.Ref? ==> nodes[x].parent.id < |nodes|)
      modifies this
      ensures root' == if old(nodes)[x].parent.Null? then heir else root
      ensures nodes == if old(nodes)[x].parent.Null? then old(nodes) else
        var p := old(nodes)[x].parent.id;
        var n := old(nodes)[p];
        old(nodes)[p := if n.right == Ref(x) then n.(right := heir) else n.(left := heir)]
    {
      root' := root;
      if nodes[x].parent.Null? {
        root' := heir;
      } else {
        var p := nodes[x].parent.id;
        if nodes[p].right == Ref(x) {
          nodes := nodes[p := nodes[p].(right := heir)];
        } else {
          nodes := nodes[p := nodes[p].(left := heir)];
        }
      }
    }

    /** rb_rotate_left at x; the tree's root pointer is passed in and handed back. */
    method RotateLeft(root: Ptr, x: nat, ghost c: Ctx, ghost a: Tree, ghost rx: bool, ghost b: Tree, ghost y: nat,
                      ghost ry: bool, ghost d: Tree)
      returns (root': Ptr)
      requires Shape(nodes, root, c, Node(a, x, rx, Node(b, y, ry, d)))
      modifies this
      ensures Shape(nodes, root', c, Node(Node(a, x, rx, b), y, ry, d))
      ensures OnlyRelinked(old(nodes), nodes, x, y, b, c)
    {
      LeftFacts(nodes, root, c, a, x, rx, b, y, ry, d);
      root' := SpinLeft(root, x, y, RootPtr(b), ParentPtr(c));
      LeftRotationShape(old(nodes), nodes, root, root', c, a, x, rx, b, y, ry, d);
    }

    /** The link writes of rb_rotate_left: x has right child yy, whose left child is m, and parent p. */
    method SpinLeft(root: Ptr, x: nat, ghost yy: nat, ghost m: Ptr, ghost p: Ptr) returns (root': Ptr)
      requires x < |nodes| && yy < |nodes| && x != yy && nodes[x].right == Ref(yy) && nodes[yy].left == m
      requires nodes[x].parent == p
      requires m.Ref? ==> m.id < |nodes| && m.id != x && m.id != yy
      requires p.Ref? ==> p.id < |nodes| && p.id != x && p.id != yy && p != m
      modifies this
      ensures |nodes| == |old(nodes)|
      ensures nodes[x] == old(nodes)[x].(parent := Ref(yy), right := m)
      ensures nodes[yy] == old(nodes)[yy].(parent := p, left := Ref(x))
      ensures m.Ref? ==> nodes[m.id] == old(nodes)[m.id].(parent := Ref(x))
      ensures p.Ref? ==>
        var n := old(nodes)[p.id];
        nodes[p.id] == if n.left == Ref(x) then n.(left := Ref(yy)) else n.(right := Ref(yy))
      ensures root' == if p.Null? then Ref(yy) else root
      ensures forall i :: 0 <= i < |nodes| && i != x && i != yy && Ref(i) != m && Ref(i) != p ==>
        nodes[i] == old(nodes)[i]
    {
      var y := nodes[x].right.id;
      nodes := nodes[x := nodes[x].(right := nodes[y].left)];
      if nodes[y].left.Ref? {
        var l := nodes[y].left.id;
        nodes := nodes[l := nodes[l].(parent := Ref(x))];
      }
      nodes := nodes[y := nodes[y].(parent := nodes[x].parent)];
      root' := ReplaceChild(root, x, Ref(y));
      nodes := nodes[y := nodes[y].(left := Ref(x))];
      nodes := nodes[x := nodes[x].(parent := Ref(y))];
    }

    /** rb_rotate_right at x. */
    method RotateRight(root: Ptr, x: nat, ghost c: Ctx, ghost a: Tree, ghost y: nat, ghost ry: bool, ghost b: Tree,
                       ghost rx: bool, ghost d: Tree)
      returns (root': Ptr)
      requires Shape(nodes, root, c, Node(Node(a, y, ry, b), x, rx, d))
      modifies this
      ensures Shape(nodes, root', c, Node(a, y, ry, Node(b, x, rx, d)))
      ensures OnlyRelinked(old(nodes), nodes, x, y, b, c)
    {
      RightFacts(nodes, root, c, a, y, ry, b, x, rx, d);
      root' := SpinRight(root, x, y, RootPtr(b), ParentPtr(c));
      RightRotationShape(old(nodes), nodes, root, root', c, a, y, ry, b, x, rx, d);
    }

    /** The link writes of rb_rotate_right: x has left child yy, whose right child is m, and parent p. */
    method SpinRight(root: Ptr, x: nat, ghost yy: nat, ghost m: Ptr, ghost p: Ptr) returns (root': Ptr)
      requires x < |nodes| && yy < |nodes| && x != yy && nodes[x].left == Ref(yy) && nodes[yy].right == m
      requires nodes[x].parent == p
      requires m.Ref? ==> m.id < |nodes| && m.id != x && m.id != yy
      requires p.Ref? ==> p.id < |nodes| && p.id != x && p.id != yy && p != m
      modifies this
      ensures |nodes| == |old(nodes)|
      ensures nodes[x] == old(nodes)[x].(parent := Ref(yy), left := m)
      ensures nodes[yy] == old(nodes)[yy].(parent := p, right := Ref(x))
      ensures m.Ref? ==> nodes[m.id] == old(nodes)[m.id].(parent := Ref(x))
      ensures p.Ref? ==>
        var n := old(nodes)[p.id];
        nodes[p.id] == if n.right == Ref(x) then n.(right := Ref(yy)) else n.(left := Ref(yy))
      ensures root' == if p.Null? then Ref(yy) else root
      ensures forall i :: 0 <= i < |nodes| && i != x && i != yy && Ref(i) != m && Ref(i) != p ==>
        nodes[i] == old(nodes)[i]
    {
      var y := nodes[x].left.id;
      nodes := nodes[x := nodes[x].(left := nodes[y].right)];
      if nodes[y].right.Ref? {
        var r := nodes[y].right.id;
        nodes := nodes[r := nodes[r].(parent := Ref(x))];
      }
      nodes := nodes[y := nodes[y].(parent := nodes[x].parent)];
      root' := ReplaceChildMirrored(root, x, Ref(y));
      nodes := nodes[y := nodes[y].(right := Ref(x))];
      nodes := nodes[x := nodes[x].(parent := Ref(y))];
    }

    /** Recolour one node. */
    method Paint(root: Ptr, x: nat, red: bool, ghost c: Ctx, ghost t: Tree)
      requires Shape(nodes, root, c, t) && t.Node? && t.id == x
      modifies this
      ensures Shape(nodes, root, c, Painted(t, red))
      ensures Touches(old(nodes), nodes, AllIds(c, t))
    {
      PaintShape(nodes, root, c, t, red);
      RootIn(t);
      nodes := nodes[x := nodes[x].(red := red)];
    }

    /** Red uncle u: parent p and uncle turn black, grandparent g red. */
    method RecolourStep(root: Ptr, p: nat, u: nat, g: nat, ghost c: Ctx, ghost t: Tree)
      requires Shape(nodes, root, c, t) && !c.Top? && !c.up.Top? && c.up.sibling.Node?
      requires p == c.id && g == c.up.id && u == c.up.sibling.id
      modifies this
      ensures Shape(nodes, root, c.up.up, Recoloured(c, t)) && AllIds(c.up.up, Recoloured(c, t)) == AllIds(c, t)
      ensures Touches(old(nodes), nodes, AllIds(c, t))
    {
      FocusUp(nodes, root, c, t);
      Paint(root, p, false, c.up, Parent(c, t));
      ghost var parent := Painted(Parent(c, t), false);
      FocusSibling(nodes, root, c.up, parent);
      ghost var around, uncle := SiblingCtx(c.up, parent), c.up.sibling;
      Paint(root, u, false, around, uncle);
      FocusUp(nodes, root, around, Painted(uncle, false));
      FocusUp(nodes, root, c.up, parent);
      Paint(root, g, true, c.up.up, Parent(around, Painted(uncle, false)));
    }

    /** Parent on the left of the grandparent: rotate an inner grandchild z outward first. */
    method StraightenLeft(root: Ptr, z: nat, ghost c: Ctx, ghost t: Tree)
      returns (root': Ptr, z': nat, ghost c': Ctx, ghost t': Tree)
      requires Shape(nodes, root, c, t) && t.Node? && z == t.id && !c.Top? && c.red && c.up.InLeft?
      modifies this
      ensures Shape(nodes, root', c', t') && t'.Node? && z' == t'.id && c'.InLeft? && c'.up == c.up
      ensures Rotated(c, t) == RaisedLeft(c', t') && AllIds(c', t') == AllIds(c, t)
      ensures Touches(old(nodes), nodes, AllIds(c, t))
    {
      z', root', c', t' := z, root, c, t;
      var p := nodes[z].parent.id;
      WhichSide(nodes, root, c, t);
      if nodes[p].right == Ref(z) {
        z' := p;
        FocusUp(nodes, root, c, t);
        root' := RotateLeft(root, p, c.up, c.sibling, c.red, t.left, t.id, t.red, t.right);
        c', t' := InLeft(c.up, t.id, t.red, t.right), Node(c.sibling, p, c.red, t.left);
        FocusUp(nodes, root', c', t');
        SpinIds(old(nodes), nodes, c, t, p, t.id, t.left);
      }
    }

    /** Parent p and its left child on the left of g: p turns black, g red and goes down to the right. */
    method RaiseLeft(root: Ptr, p: nat, g: nat, ghost c: Ctx, ghost t: Tree) returns (root': Ptr)
      requires Shape(nodes, root, c, t) && c.InLeft? && c.up.InLeft? && p == c.id && g == c.up.id
      modifies this
      ensures Shape(nodes, root', c.up.up, RaisedLeft(c, t)) && AllIds(c.up.up, RaisedLeft(c, t)) == AllIds(c, t)
      ensures Touches(old(nodes), nodes, AllIds(c, t))
    {
      FocusUp(nodes, root, c, t);
      Paint(root, p, false, c.up, Parent(c, t));
      ghost var parent := Painted(Parent(c, t), false);
      FocusUp(nodes, root, c.up, parent);
      Paint(root, g, true, c.up.up, Parent(c.up, parent));
      ghost var before := nodes;
      root' := RotateRight(root, g, c.up.up, t, p, false, c.sibling, true, c.up.sibling);
      RaiseIds(before, nodes, c, t, g, p, c.sibling);
    }

    /** Parent on the right of the grandparent: rotate an inner grandchild z outward first. */
    method StraightenRight(root: Ptr, z: nat, ghost c: Ctx, ghost t: Tree)
      returns (root': Ptr, z': nat, ghost c': Ctx, ghost t': Tree)
      requires Shape(nodes, root, c, t) && t.Node? && z == t.id && !c.Top? && c.red && c.up.InRight?
      modifies this
      ensures Shape(nodes, root', c', t') && t'.Node? && z' == t'.id && c'.InRight? && c'.up == c.up
      ensures Rotated(c, t) == RaisedRight(c', t') && AllIds(c', t') == AllIds(c, t)
      ensures Touches(old(nodes), nodes, AllIds(c, t))
    {
      z', root', c', t' := z, root, c, t;
      var p := nodes[z].parent.id;
      WhichSide(nodes, root, c, t);
      if nodes[p].left == Ref(z) {
        z' := p;
        FocusUp(nodes, root, c, t);
        root' := RotateRight(root, p, c.up, t.left, t.id, t.red, t.right, c.red, c.sibling);
        c', t' := InRight(c.up, t.id, t.red, t.left), Node(t.right, p, c.red, c.sibling);
        FocusUp(nodes, root', c', t');
        SpinIds(old(nodes), nodes, c, t, p, t.id, t.right);
      }
    }

    /** Parent p and its right child on the right of g: p turns black, g red and goes down to the left. */
    method RaiseRight(root: Ptr, p: nat, g: nat, ghost c: Ctx, ghost t: Tree) returns (root': Ptr)
      requires Shape(nodes, root, c, t) && c.InRight? && c.up.InRight? && p == c.id && g == c.up.id
      modifies this
      ensures Shape(nodes, root', c.up.up, RaisedRight(c, t)) && AllIds(c.up.up, RaisedRight(c, t)) == AllIds(c, t)
      ensures Touches(old(nodes), nodes, AllIds(c, t))
    {
      FocusUp(nodes, root, c, t);
      Paint(root, p, false, c.up, Parent(c, t));
      ghost var parent := Painted(Parent(c, t), false);
      FocusUp(nodes, root, c.up, parent);
      Paint(root, g, true, c.up.up, Parent(c.up, parent));
      ghost var before := nodes;
      root' := RotateLeft(root, g, c.up.up, c.up.sibling, true, c.sibling, p, false, t);
      RaiseIds(before, nodes, c, t, g, p, c.sibling);
    }

    /** rb_insert_fixup: from a red node z in the tree Plug(c0, t0). */
    method InsertFixup(root: Ptr, z0: nat, ghost c0: Ctx, ghost t0: Tree) returns (root': Ptr)
      requires Shape(nodes, root, c0, t0) && t0.Node? && t0.id == z0
      modifies this
      ensures Shape(nodes, root', Top, Blacken(FixUp(c0, t0)))
      ensures Ids(Blacken(FixUp(c0, t0))) == AllIds(c0, t0)
      ensures Touches(old(nodes), nodes, AllIds(c0, t0))
    {
      var z := z0;
      root' := root;
      ghost var c, t := c0, t0;
      AboveFacts(nodes, root', c, t);
      while nodes[z].parent.Ref? && nodes[nodes[z].parent.id].red
        invariant Shape(nodes, root', c, t) && t.Node? && t.id == z && FixUp(c, t) == FixUp(c0, t0)
        invariant AllIds(c, t) == AllIds(c0, t0) && Touches(old(nodes), nodes, AllIds(c0, t0))
        invariant Above(nodes, c, t)
        decreases Depth(c)
      {
        var p := nodes[z].parent.id;
        if nodes[p].parent.Null? {
          break;
        }
        root', z, c, t := FixupRound(root', z, nodes[p].parent.id, c, t);
        AboveFacts(nodes, root', c, t);
      }
      FocusTop(nodes, root', c, t);
      Paint(root', root'.id, false, Top, Plug(c, t));
    }

    /** One round of the loop: recolour and climb to g, or rotate and stop. */
    method FixupRound(root: Ptr, z: nat, g: nat, ghost c: Ctx, ghost t: Tree)
      returns (root': Ptr, z': nat, ghost c': Ctx, ghost t': Tree)
      requires Shape(nodes, root, c, t) && t.Node? && z == t.id && !c.Top? && c.red && !c.up.Top? && g == c.up.id
      requires Above(nodes, c, t)
      modifies this
      ensures Shape(nodes, root', c', t') && t'.Node? && z' == t'.id && FixUp(c', t') == FixUp(c, t)
      ensures AllIds(c', t') == AllIds(c, t) && Depth(c') < Depth(c) && Touches(old(nodes), nodes, AllIds(c, t))
    {
      var p := nodes[z].parent.id;
      var y := if nodes[g].left == Ref(p) then nodes[g].right else nodes[g].left;
      assert Depth(c) == 2 + Depth(c.up.up);
      if y.Ref? && nodes[y.id].red {
        RecolourStep(root, p, y.id, g, c, t);
        root', z', c', t' := root, g, c.up.up, Recoloured(c, t);
      } else {
        root', z', c', t' := RotateStep(root, z, g, c, t);
      }
    }

    /** Black uncle: the rotations of one round, after which z has a black parent. */
    method RotateStep(root: Ptr, z: nat, g: nat, ghost c: Ctx, ghost t: Tree)
      returns (root': Ptr, z': nat, ghost c': Ctx, ghost t': Tree)
      requires Shape(nodes, root, c, t) && t.Node? && z == t.id && !c.Top? && c.red && !c.up.Top? && g == c.up.id
      requires Above(nodes, c, t)
      modifies this
      ensures Shape(nodes, root', c', t') && t'.Node? && z' == t'.id && !c'.Top? && c'.up == c.up.up && !c'.red
      ensures Plug(c', t') == Plug(c.up.up, Rotated(c, t)) && AllIds(c', t') == AllIds(c, t)
      ensures Touches(old(nodes), nodes, AllIds(c, t))
    {
      var p := nodes[z].parent.id;
      if nodes[g].left == Ref(p) {
        root', z', c', t' := StraightenLeft(root, z, c, t);
        AboveFacts(nodes, root', c', t');
        root' := RaiseLeft(root', nodes[z'].parent.id, g, c', t');
        c' := InLeft(c.up.up, c'.id, false, Node(c'.sibling, g, true, c.up.sibling));
      } else {
        root', z', c', t' := StraightenRight(root, z, c, t);
        AboveFacts(nodes, root', c', t');
        root' := RaiseRight(root', nodes[z'].parent.id, g, c', t');
        c' := InRight(c.up.up, c'.id, false, Node(c.up.sibling, g, true, c'.sibling));
      }
      FocusUp(nodes, root', c', t');
    }

    /** rb_insert: z goes after every node whose key is smaller or equal. */
    method Insert(root: Ptr, z: nat, key: int, prio: nat -> int, ghost t: Tree) returns (root': Ptr)
      requires Shape(nodes, root, Top, t) && z < |nodes| && z !in Ids(t)
      modifies this
      ensures Shape(nodes, root', Top, RedBlack.Insert(t, z, key, prio))
      ensures Ids(RedBlack.Insert(t, z, key, prio)) == Ids(t) + {z}
      ensures Touches(old(nodes), nodes, Ids(t) + {z})
    {
      nodes := nodes[z := RbNode(Null, Null, Null, true)];
      OutsideFrame(old(nodes), nodes, root, Top, t);
      var parent;
      ghost var c;
      parent, c := Descend(root, key, prio, t);
      ghost var before := nodes;
      nodes := nodes[z := RbNode(parent, Null, Null, true)];
      OutsideFrame(before, nodes, root, c, Nil);
      root' := LinkLeaf(root, z, key, prio, c);
      root' := InsertFixup(root', z, c, Node(Nil, z, true, Nil));
    }

    /** The search loop of rb_insert: the parent of the new leaf. */
    method Descend(root: Ptr, key: int, prio: nat -> int, ghost t: Tree) returns (parent: Ptr, ghost c: Ctx)
      requires Shape(nodes, root, Top, t)
      ensures c == InsertPoint(t, key, prio, Top) && parent == ParentPtr(c) && Shape(nodes, root, c, Nil)
      ensures CtxIds(c) == Ids(t) && (!c.Top? ==> (c.InLeft? <==> key < prio(c.id)))
    {
      var x := root;
      parent, c := Null, Top;
      ghost var s := t;
      while x.Ref?
        invariant Shape(nodes, root, c, s) && x == RootPtr(s) && parent == ParentPtr(c)
        invariant InsertPoint(s, key, prio, c) == InsertPoint(t, key, prio, Top) && AllIds(c, s) == Ids(t)
        invariant !c.Top? ==> (c.InLeft? <==> key < prio(c.id))
        decreases s
      {
        parent := x;
        if key < prio(x.id) {
          x := nodes[x.id].left;
          FocusLeft(nodes, root, c, s);
          c, s := InLeft(c, s.id, s.red, s.right), s.left;
        } else {
          x := nodes[x.id].right;
          FocusRight(nodes, root, c, s);
          c, s := InRight(c, s.id, s.red, s.left), s.right;
        }
      }
    }

    method LinkLeaf(root: Ptr, z: nat, key: int, prio: nat -> int, ghost c: Ctx) returns (root': Ptr)
      requires Shape(nodes, root, c, Nil) && z < |nodes| && z !in CtxIds(c)
      requires nodes[z] == RbNode(ParentPtr(c), Null, Null, true) && (!c.Top? ==> (c.InLeft? <==> key < prio(c.id)))
      modifies this
      ensures Shape(nodes, root', c, Node(Nil, z, true, Nil)) && AllIds(c, Node(Nil, z, true, Nil)) == CtxIds(c) + {z}
      ensures Touches(old(nodes), nodes, CtxIds(c) + {z})
    {
      root' := root;
      CtxRootIn(c);
      if nodes[z].parent.Null? {
        root' := Ref(z);
      } else {
        var p := nodes[z].parent.id;
        if key < prio(p) {
          nodes := nodes[p := nodes[p].(left := Ref(z))];
        } else {
          nodes := nodes[p := nodes[p].(right := Ref(z))];
        }
      }
      LeafShape(old(nodes), nodes, root, root', c, z);
    }

    /** rb_leftmost: the first node in order, or null for an empty tree. */
    method Leftmost(root: Ptr, ghost t: Tree) returns (y: Ptr)
      requires Shape(nodes, root, Top, t)
      ensures y == if InOrder(t) == [] then Null else Ref(InOrder(t)[0])
    {
      if root.Null? {
        return Null;
      }
      MinFirst(t);
      var n := Smallest(root, root.id, Top, t);
      return Ref(n);
    }

    /** The walk to the left, which also finds a successor: the leftmost node below n. */
    method Smallest(root: Ptr, n: nat, ghost c: Ctx, ghost t: Tree) returns (y: nat)
      requires Shape(nodes, root, c, t) && t.Node? && t.id == n
      ensures y == MinId(t)
    {
      y := n;
      ghost var d, s := c, t;
      while nodes[y].left.Ref?
        invariant Shape(nodes, root, d, s) && s.Node? && s.id == y && MinId(s) == MinId(t)
        decreases s
      {
        y := nodes[y].left.id;
        FocusLeft(nodes, root, d, s);
        d, s := InLeft(d, s.id, s.red, s.right), s.left;
      }
    }

    /** rb_remove_node: z, wherever it stands, leaves the tree. */
    method RemoveNode(root: Ptr, z: nat, ghost c: Ctx, ghost t: Tree) returns (root': Ptr)
      requires Shape(nodes, root, c, t) && t.Node? && t.id == z
      modifies this
      ensures Shape(nodes, root', Top, Blacken(Plug(c, Removed(t))))
      ensures z < |nodes| && nodes[z].left == nodes[z].right == nodes[z].parent == Null
      ensures Ids(Blacken(Plug(c, Removed(t)))) == AllIds(c, t) - {z} && z in AllIds(c, t)
      ensures Touches(old(nodes), nodes, AllIds(c, t))
    {
      RootIn(t);
      RemovedIds(c, t);
      root' := Unhook(root, z, c, t);
      ghost var s := Removed(t);
      FocusTop(nodes, root', c, s);
      if root'.Ref? {
        Paint(root', root'.id, false, Top, Plug(c, s));
      }
      ghost var before := nodes;
      nodes := nodes[z := nodes[z].(left := Null, right := Null, parent := Null)];
      OutsideFrame(before, nodes, root', Top, Blacken(Plug(c, s)));
    }

    method Unhook(root: Ptr, z: nat, ghost c: Ctx, ghost t: Tree) returns (root': Ptr)
      requires Shape(nodes, root, c, t) && t.Node? && t.id == z
      modifies this
      ensures Shape(nodes, root', c, Removed(t)) && Touches(old(nodes), nodes, AllIds(c, t))
    {
      if nodes[z].left.Null? {
        root' := Transplant(root, z, nodes[z].right, c, t.right);
      } else if nodes[z].right.Null? {
        root' := Transplant(root, z, nodes[z].left, c, t.left);
      } else {
        root' := Succeed(root, z, c, t);
      }
    }

    /** Put the only subtree below z in its place. */
    method Transplant(root: Ptr, z: nat, heir: Ptr, ghost c: Ctx, ghost s: Tree) returns (root': Ptr)
      requires CtxAt(nodes, root, c, Ref(z)) && CtxDistinct(c) && TreeAt(nodes, Ref(z), s) && Distinct(s)
      requires heir == RootPtr(s)
      requires CtxIds(c) !! Ids(s) && z !in CtxIds(c) && z !in Ids(s) && z < |nodes| && nodes[z].parent == ParentPtr(c)
      modifies this
      ensures Shape(nodes, root', c, s) && Touches(old(nodes), nodes, AllIds(c, s))
    {
      CtxRootIn(c);
      RootIn(s);
      HoleSide(nodes, root, c, z);
      root' := ReplaceChild(root, z, heir);
      if heir.Ref? {
        nodes := nodes[heir.id := nodes[heir.id].(parent := nodes[z].parent)];
      }
      TransplantShape(old(nodes), nodes, root, root', c, z, s);
    }

    /** Both subtrees present: the successor y of z takes its place and its colour. */
    method Succeed(root: Ptr, z: nat, ghost c: Ctx, ghost t: Tree) returns (root': Ptr)
      requires Shape(nodes, root, c, t) && t.Node? && t.id == z && t.left.Node? && t.right.Node?
      modifies this
      ensures Shape(nodes, root', c, Removed(t)) && Touches(old(nodes), nodes, AllIds(c, t))
    {
      ghost var around := InRight(c, z, t.red, t.left);
      FocusRight(nodes, root, c, t);
      var y := Smallest(root, nodes[z].right.id, around, t.right);
      SuccessorFacts(nodes, root, c, t);
      MinIds(t.right);
      if nodes[y].parent != Ref(z) {
        DetachSuccessor(root, z, y, c, t.left, t.red, t.right);
      }
      root' := TakePlace(root, z, y, c, t.left, t.red, WithoutMin(t.right));
    }

    /** Cut y, the leftmost node of r but not its root, out of r and hang the rest of r on its right. */
    method DetachSuccessor(root: Ptr, z: nat, y: nat, ghost c: Ctx, ghost l: Tree, ghost red: bool, ghost r: Tree)
      requires Shape(nodes, root, InRight(c, z, red, l), r) && r.Node? && r.left.Node? && y == MinId(r)
      modifies this
      ensures Detached(nodes, root, c, l, z, red, y, WithoutMin(r))
      ensures Touches(old(nodes), nodes, AllIds(InRight(c, z, red, l), r))
    {
      ghost var cz := InRight(c, z, red, l);
      FocusMin(nodes, root, cz, r);
      MinCtxIds(r, cz);
      MinIds(r);
      CutMin(y, root, MinCtx(r, cz), MinSub(r).right, MinSub(r).red);
      FocusMin(nodes, root, cz, r);
      ghost var before := nodes;
      RootIn(r);
      nodes := nodes[y := nodes[y].(right := nodes[z].right)];
      var top := nodes[y].right.id;
      nodes := nodes[top := nodes[top].(parent := Ref(y))];
      DetachedShape(before, nodes, root, c, l, z, red, y, WithoutMin(r));
    }

    /** y hangs on the left of its parent and has no left child: its right subtree replaces it. */
    method CutMin(y: nat, ghost root: Ptr, ghost c: Ctx, ghost s: Tree, ghost red: bool)
      requires Shape(nodes, root, c, Node(Nil, y, red, s)) && c.InLeft?
      modifies this
      ensures Shape(nodes, root, c, s) && Touches(old(nodes), nodes, AllIds(c, s)) && y !in AllIds(c, s) && y < |nodes|
    {
      var x := nodes[y].right;
      CtxRootIn(c);
      RootIn(s);
      assert TreeAt(nodes, Ref(y), s);
      if x.Ref? {
        nodes := nodes[x.id := nodes[x.id].(parent := nodes[y].parent)];
      }
      var p := nodes[y].parent.id;
      nodes := nodes[p := nodes[p].(left := x)];
      TransplantShape(old(nodes), nodes, root, root, c, y, s);
    }

    method TakePlace(root: Ptr, z: nat, y: nat, ghost c: Ctx, ghost l: Tree, ghost red: bool, ghost r: Tree)
      returns (root': Ptr)
      requires Detached(nodes, root, c, l, z, red, y, r)
      modifies this
      ensures Shape(nodes, root', c, Node(l, y, red, r)) && Touches(old(nodes), nodes, AllIds(c, l) + {y})
    {
      CtxRootIn(c);
      RootIn(l);
      HoleSide(nodes, root, c, z);
      root' := ReplaceChild(root, z, Ref(y));
      nodes := nodes[y := nodes[y].(parent := nodes[z].parent, left := nodes[z].left)];
      if nodes[y].left.Ref? {
        var l := nodes[y].left.id;
        nodes := nodes[l := nodes[l].(parent := Ref(y))];
      }
      nodes := nodes[y := nodes[y].(red := nodes[z].red)];
      TakePlaceShape(old(nodes), nodes, root, root', c, l, z, red, y, r);
    }
  }

  /** Two reds in a row on the left, rotated so that a black node tops them. */
  function RaisedLeft(c: Ctx, t: Tree): Tree
    requires c.InLeft? && c.up.InLeft?
  {
    Node(t, c.id, false, Node(c.sibling, c.up.id, true, c.up.sibling))
  }

  function RaisedRight(c: Ctx, t: Tree): Tree
    requires c.InRight? && c.up.InRight?
  {
    Node(Node(c.up.sibling, c.up.id, true, c.sibling), c.id, false, t)
  }

  function Depth(c: Ctx): nat { if c.Top? then 0 else 1 + Depth(c.up) }

  /** What the two nodes above t say, when they exist. */
  predicate Above(ns: Nodes, c: Ctx, t: Tree)
    requires t.Node?
  {
    && t.id < |ns| && ns[t.id].parent == ParentPtr(c)
    && (!c.Top? ==>
          && c.id < |ns| && ns[c.id].red == c.red && ns[c.id].parent == ParentPtr(c.up)
          && (!c.up.Top? ==>
                && c.up.id < |ns| && (ns[c.up.id].left == Ref(c.id) <==> c.up.InLeft?)
                && RootPtr(c.up.sibling) == (if c.up.InLeft? then ns[c.up.id].right else ns[c.up.id].left)
                && (c.up.sibling.Node? ==> c.up.sibling.id < |ns| && ns[c.up.sibling.id].red == c.up.sibling.red)))
  }

  lemma AboveFacts(ns: Nodes, root: Ptr, c: Ctx, t: Tree)
    requires Shape(ns, root, c, t) && t.Node?
    ensures Above(ns, c, t)
  {
    if !c.Top? {
      FocusUp(ns, root, c, t);
      if !c.up.Top? {
        WhichSide(ns, root, c.up, Parent(c, t));
      }
    }
  }

  lemma SpinIds(ns: Nodes, ns': Nodes, c: Ctx, t: Tree, x: nat, y: nat, b: Tree)
    requires !c.Top? && t.Node? && OnlyRelinked(ns, ns', x, y, b, c.up) && x == c.id && y == t.id
    requires (b == t.left || b == t.right)
    ensures Touches(ns, ns', AllIds(c, t))
  {
    RootIn(b);
    CtxRootIn(c);
    CtxRootIn(c.up);
    RootIn(t);
  }

  lemma RaiseIds(ns: Nodes, ns': Nodes, c: Ctx, t: Tree, x: nat, y: nat, b: Tree)
    requires !c.Top? && !c.up.Top? && OnlyRelinked(ns, ns', x, y, b, c.up.up) && x == c.up.id && y == c.id
    requires b == c.sibling
    ensures Touches(ns, ns', AllIds(c, t))
  {
    RootIn(b);
    CtxRootIn(c);
    CtxRootIn(c.up);
    CtxRootIn(c.up.up);
  }

  /** The link into the hole at z sits on the side the surroundings say, and on no other. */
  lemma HoleSide(ns: Nodes, root: Ptr, c: Ctx, z: nat)
    requires CtxAt(ns, root, c, Ref(z)) && z !in CtxIds(c)
    ensures !c.Top? ==> c.id < |ns| && (ns[c.id].left == Ref(z) <==> c.InLeft?)
  {
    if !c.Top? {
      RootIn(c.sibling);
    }
  }

  lemma RemovedIds(c: Ctx, t: Tree)
    requires t.Node? && Distinct(t) && CtxIds(c) !! Ids(t)
    ensures AllIds(c, Removed(t)) == AllIds(c, t) - {t.id}
  {
    if t.right.Node? {
      MinIds(t.right);
    }
  }

  lemma SuccessorFacts(ns: Nodes, root: Ptr, c: Ctx, t: Tree)
    requires Shape(ns, root, c, t) && t.Node? && t.right.Node?
    ensures MinId(t.right) < |ns| && (ns[MinId(t.right)].parent == Ref(t.id) <==> t.right.left.Nil?)
    ensures t.right.left.Nil? ==> Detached(ns, root, c, t.left, t.id, t.red, MinId(t.right), WithoutMin(t.right))
  {
    var cz := InRight(c, t.id, t.red, t.left);
    FocusRight(ns, root, c, t);
    FocusMin(ns, root, cz, t.right);
    if t.right.left.Node? {
      MinParent(t.right, cz);
    } else {
      RightLeaning(c, t.left, t.id, t.red, Nil, t.right.id, t.right.red, t.right.right);
    }
  }

  /** Below the root of t, the parent of the leftmost node is a node of t. */
  lemma {:induction false} MinParent(t: Tree, c: Ctx)
    requires t.Node? && t.left.Node?
    ensures !MinCtx(t, c).Top? && MinCtx(t, c).id in Ids(t)
    decreases t
  {
    if t.left.left.Node? {
      MinParent(t.left, InLeft(c, t.id, t.red, t.right));
    }
  }

  lemma DetachedShape(ns: Nodes, ns': Nodes, root: Ptr, c: Ctx, l: Tree, z: nat, red: bool, y: nat, r: Tree)
    requires Shape(ns, root, InRight(c, z, red, l), r) && r.Node? && y < |ns| && y !in AllIds(InRight(c, z, red, l), r)
    requires ns' == ns[y := ns[y].(right := Ref(r.id))][r.id := ns[r.id].(parent := Ref(y))]
    ensures Detached(ns', root, c, l, z, red, y, r)
  {
    RootIn(r);
    CtxFrame(ns, ns', root, c, Ref(z));
    TreeFrame(ns, ns', Ref(z), l);
    Reparent(ns, ns', Ref(z), Ref(y), r);
  }
}
