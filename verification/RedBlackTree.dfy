/**
  The red-black tree of src/common/systree.h in place: nodes with left, right and parent links and a
  colour, rewritten by rotations and by the recolouring loops.

  `mem` is a copy of all the fields, kept in step by every assignment. The methods carry the position
  they work at as ghost arguments and are proved to do to the fields what the functions of RedBlack do
  to the tree.
 */
module RedBlackTree {
  import opened Ordering
  import opened RedBlack
  import M = RedBlackMemory

  class RbTree {
    var root: Node?

    ghost var mem: M.Memory
    ghost var nodes: set<Node>
    ghost var tree: Tree

    ghost predicate Within(n: Node?)
      reads this`nodes
    {
      n == null || n in nodes
    }

    /** The copy agrees with the fields, and links stay inside the set of nodes. */
    ghost predicate Sync()
      reads this, nodes
    {
      && root == mem.root && Within(root)
      && (forall n :: n in nodes ==>
            && M.Get(mem, n) == M.Cell(n.left, n.right, n.parent, n.red)
            && Within(n.left) && Within(n.right) && Within(n.parent))
    }

    method SetLeft(n: Node, x: Node?)
      requires Sync() && n in nodes && Within(x)
      modifies n`left, this`mem
      ensures Sync() && mem == M.SetLeft(old(mem), n, x)
    {
      n.left := x;
      mem := M.SetLeft(mem, n, x);
    }

    method SetRight(n: Node, x: Node?)
      requires Sync() && n in nodes && Within(x)
      modifies n`right, this`mem
      ensures Sync() && mem == M.SetRight(old(mem), n, x)
    {
      n.right := x;
      mem := M.SetRight(mem, n, x);
    }

    method SetParent(n: Node, x: Node?)
      requires Sync() && n in nodes && Within(x)
      modifies n`parent, this`mem
      ensures Sync() && mem == M.SetParent(old(mem), n, x)
    {
      n.parent := x;
      mem := M.SetParent(mem, n, x);
    }

    method SetRed(n: Node, red: bool)
      requires Sync() && n in nodes
      modifies n`red, this`mem
      ensures Sync() && mem == M.SetRed(old(mem), n, red)
    {
      n.red := red;
      mem := M.SetRed(mem, n, red);
    }

    /** The link that leads from parent, or from the root, to elm leads to x instead. */
    method Relink(parent: Node?, elm: Node, x: Node?)
      requires Sync() && Within(parent) && Within(x)
      modifies this`root, this`mem, nodes
      ensures Sync() && mem == M.Relink(old(mem), parent, elm, x)
    {
      if parent != null {
        if parent.left == elm {
          SetLeft(parent, x);
        } else {
          SetRight(parent, x);
        }
      } else {
        root := x;
        mem := mem.(root := x);
      }
    }

    method RotateLeft(elm: Node)
      requires Sync() && elm in nodes && elm.right != null
      modifies this`root, this`mem, nodes
      ensures M.Get(old(mem), elm).right != null
      ensures Sync() && mem == M.RotateLeft(old(mem), elm)
    {
      var tmp := elm.right;
      SetRight(elm, tmp.left);
      if tmp.left != null {
        SetParent(tmp.left, elm);
      }
      SetParent(tmp, elm.parent);
      Relink(elm.parent, elm, tmp);
      SetLeft(tmp, elm);
      SetParent(elm, tmp);
    }

    method RotateRight(elm: Node)
      requires Sync() && elm in nodes && elm.left != null
      modifies this`root, this`mem, nodes
      ensures M.Get(old(mem), elm).left != null
      ensures Sync() && mem == M.RotateRight(old(mem), elm)
    {
      var tmp := elm.left;
      SetLeft(elm, tmp.right);
      if tmp.right != null {
        SetParent(tmp.right, elm);
      }
      SetParent(tmp, elm.parent);
      Relink(elm.parent, elm, tmp);
      SetRight(tmp, elm);
      SetParent(elm, tmp);
    }

    /** The nodes of the tree at this position are the nodes of the copy. */
    ghost predicate At(c: Context, t: Tree)
      reads this, nodes
    {
      Sync() && M.At(mem, c, t) && nodes == M.AllNodes(c, t)
    }

    /** Recolour the node at the focus, or a child of it. */
    method Paint(n: Node, red: bool, ghost c: Context, ghost t: Tree)
      requires At(c, t) && t.Bin? && t.node == n
      modifies this`mem, nodes
      ensures At(c, t.(red := red))
    {
      M.SetRedAt(mem, c, t, red);
      M.SameNodes(t, t.(red := red));
      SetRed(n, red);
    }

    method PaintLeft(n: Node, red: bool, ghost c: Context, ghost t: Tree)
      requires At(c, t) && t.Bin? && t.left.Bin? && t.left.node == n
      modifies this`mem, nodes
      ensures At(c, t.(left := t.left.(red := red)))
    {
      M.SetRedLeftAt(mem, c, t, red);
      M.SameNodes(t.left, t.left.(red := red));
      SetRed(n, red);
    }

    method PaintRight(n: Node, red: bool, ghost c: Context, ghost t: Tree)
      requires At(c, t) && t.Bin? && t.right.Bin? && t.right.node == n
      modifies this`mem, nodes
      ensures At(c, t.(right := t.right.(red := red)))
    {
      M.SetRedRightAt(mem, c, t, red);
      M.SameNodes(t.right, t.right.(red := red));
      SetRed(n, red);
    }

    /** RB_ROTATE_LEFT and RB_ROTATE_RIGHT at the focus. */
    method TurnLeft(x: Node, ghost c: Context, ghost t: Tree)
      requires At(c, t) && t.Bin? && t.node == x && t.right.Bin?
      modifies this`root, this`mem, nodes
      ensures At(c, Bin(Bin(t.left, x, t.red, t.right.left), t.right.node, t.right.red, t.right.right))
    {
      ghost var Bin(a, _, r0, Bin(b, y, r1, d)) := t;
      M.RotateLeftAt(mem, c, a, x, r0, b, y, r1, d);
      RotateContents(a, x, b, y, d, r0, r1, r0, r1);
      M.SameNodes(t, Bin(Bin(a, x, r0, b), y, r1, d));
      RotateLeft(x);
    }

    method TurnRight(y: Node, ghost c: Context, ghost t: Tree)
      requires At(c, t) && t.Bin? && t.node == y && t.left.Bin?
      modifies this`root, this`mem, nodes
      ensures At(c, Bin(t.left.left, t.left.node, t.left.red, Bin(t.left.right, y, t.red, t.right)))
    {
      ghost var Bin(Bin(a, x, r0, b), _, r1, d) := t;
      M.RotateRightAt(mem, c, a, x, r0, b, y, r1, d);
      RotateContents(a, x, b, y, d, r0, r1, r0, r1);
      M.SameNodes(t, Bin(a, x, r0, Bin(b, y, r1, d)));
      RotateRight(y);
    }

    /** The focus moves up or down; nothing is written. */
    lemma Up(c: Context, t: Tree)
      requires At(c, t) && !c.Top?
      ensures At(c.up, Zip(c, t))
    {
      M.AtZip(mem, c, t);
      M.AllNodesZip(c, t);
    }

    lemma Down(c: Context, t: Tree)
      requires !c.Top? && At(c.up, Zip(c, t))
      ensures At(c, t)
    {
      M.AtZip(mem, c, t);
      M.AllNodesZip(c, t);
    }

    // -------------------------------------------------------------------------------------------
    // RB_INSERT_COLOR
    // -------------------------------------------------------------------------------------------

    /** A node on the inner side of its parent changes places with it; g is the grandparent's subtree. */
    method StraightenLeft(elm0: Node, parent0: Node, gparent: Node, ghost c: Context, ghost t: Tree)
      returns (elm: Node, parent: Node, ghost g: Tree)
      requires At(c, t) && t.Bin? && t.red && t.node == elm0
      requires RedTop(c) && c.node == parent0 && c.up.InLeft? && c.up.node == gparent
      modifies this`root, this`mem, nodes
      ensures At(c.up.up, g) && g.Bin? && g.node == gparent && g.right == c.up.right
      ensures g.left.Bin? && g.left.red && g.left.node == parent
      ensures g.left.left.Bin? && g.left.left.red && g.left.left.node == elm
      ensures c.InLeft? ==> g.left == Zip(c, t)
      ensures c.InRight? ==> g.left == Bin(Bin(c.left, parent0, true, t.left), elm0, true, t.right)
    {
      M.InnerField(mem, c, t);
      ParentField(c, t);
      elm, parent := elm0, parent0;
      g := Zip(c, t);
      Up(c, t);
      if parent.right == elm {
        TurnLeft(parent, c.up, g);
        var tmp := parent;
        parent := elm;
        elm := tmp;
        g := Bin(Bin(c.left, parent0, true, t.left), elm0, true, t.right);
      }
      Up(c.up, g);
      g := Zip(c.up, g);
    }

    /** Black uncle: the parent turns black, the grandparent red and goes down on the other side. */
    method FinishLeft(parent: Node, gparent: Node, ghost c: Context, ghost g: Tree)
      requires At(c, g) && g.Bin? && g.node == gparent && g.left.Bin? && g.left.node == parent && g.left.left.Bin?
      modifies this`root, this`mem, nodes
      ensures At(InLeft(c, parent, false, Bin(g.left.right, gparent, true, g.right)), g.left.left)
    {
      PaintLeft(parent, false, c, g);
      ghost var g1 := g.(left := g.left.(red := false));
      Paint(gparent, true, c, g1);
      TurnRight(gparent, c, g1.(red := true));
      Down(InLeft(c, parent, false, Bin(g.left.right, gparent, true, g.right)), g.left.left);
    }

    /** One round of the loop when the parent is a left child. */
    method InsertRoundLeft(elm0: Node, parent0: Node, gparent: Node, ghost c: Context, ghost t: Tree)
      returns (elm: Node, ghost c': Context, ghost t': Tree)
      requires At(c, t) && t.Bin? && t.red && t.node == elm0 && Rooted(c)
      requires RedTop(c) && c.node == parent0 && c.up.InLeft? && c.up.node == gparent
      modifies this`root, this`mem, nodes
      ensures At(c', t') && t'.Bin? && t'.red && t'.node == elm && Rooted(c')
      ensures AfterInsertColor(c', t') == AfterInsertColor(c, t)
      ensures Depth(c') < Depth(c)
    {
      assert Rooted(c.up) && Rooted(c.up.up);
      ghost var InLeft(up, _, gred, u) := c.up;
      UncleField(c, t);
      var tmp := gparent.right;
      if tmp != null && tmp.red {
        Up(c, t);
        Up(c.up, Zip(c, t));
        ghost var g := Zip(c.up, Zip(c, t));
        PaintRight(tmp, false, up, g);
        g := g.(right := Blacken(u));
        PaintLeft(parent0, false, up, g);
        g := g.(left := Blacken(g.left));
        Paint(gparent, true, up, g);
        return gparent, up, g.(red := true);
      }
      var parent; ghost var g;
      elm, parent, g := StraightenLeft(elm0, parent0, gparent, c, t);
      FinishLeft(parent, gparent, up, g);
      c' := InLeft(up, parent, false, Bin(g.left.right, gparent, true, u));
      t' := g.left.left;
    }

    method StraightenRight(elm0: Node, parent0: Node, gparent: Node, ghost c: Context, ghost t: Tree)
      returns (elm: Node, parent: Node, ghost g: Tree)
      requires At(c, t) && t.Bin? && t.red && t.node == elm0
      requires RedTop(c) && c.node == parent0 && c.up.InRight? && c.up.node == gparent
      modifies this`root, this`mem, nodes
      ensures At(c.up.up, g) && g.Bin? && g.node == gparent && g.left == c.up.left
      ensures g.right.Bin? && g.right.red && g.right.node == parent
      ensures g.right.right.Bin? && g.right.right.red && g.right.right.node == elm
      ensures c.InRight? ==> g.right == Zip(c, t)
      ensures c.InLeft? ==> g.right == Bin(t.left, elm0, true, Bin(t.right, parent0, true, c.right))
    {
      LeftField(c, t);
      ParentField(c, t);
      elm, parent := elm0, parent0;
      g := Zip(c, t);
      Up(c, t);
      if parent.left == elm {
        TurnRight(parent, c.up, g);
        var tmp := parent;
        parent := elm;
        elm := tmp;
        g := Bin(t.left, elm0, true, Bin(t.right, parent0, true, c.right));
      }
      Up(c.up, g);
      g := Zip(c.up, g);
    }

    method FinishRight(parent: Node, gparent: Node, ghost c: Context, ghost g: Tree)
      requires At(c, g) && g.Bin? && g.node == gparent && g.right.Bin? && g.right.node == parent && g.right.right.Bin?
      modifies this`root, this`mem, nodes
      ensures At(InRight(Bin(g.left, gparent, true, g.right.left), parent, false, c), g.right.right)
    {
      PaintRight(parent, false, c, g);
      ghost var g1 := g.(right := g.right.(red := false));
      Paint(gparent, true, c, g1);
      TurnLeft(gparent, c, g1.(red := true));
      Down(InRight(Bin(g.left, gparent, true, g.right.left), parent, false, c), g.right.right);
    }

    /** One round of the loop when the parent is a right child. */
    method InsertRoundRight(elm0: Node, parent0: Node, gparent: Node, ghost c: Context, ghost t: Tree)
      returns (elm: Node, ghost c': Context, ghost t': Tree)
      requires At(c, t) && t.Bin? && t.red && t.node == elm0 && Rooted(c)
      requires RedTop(c) && c.node == parent0 && c.up.InRight? && c.up.node == gparent
      modifies this`root, this`mem, nodes
      ensures At(c', t') && t'.Bin? && t'.red && t'.node == elm && Rooted(c')
      ensures AfterInsertColor(c', t') == AfterInsertColor(c, t)
      ensures Depth(c') < Depth(c)
    {
      assert Rooted(c.up) && Rooted(c.up.up);
      ghost var InRight(u, _, gred, up) := c.up;
      UncleField(c, t);
      var tmp := gparent.left;
      if tmp != null && tmp.red {
        Up(c, t);
        Up(c.up, Zip(c, t));
        ghost var g := Zip(c.up, Zip(c, t));
        PaintLeft(tmp, false, up, g);
        g := g.(left := Blacken(u));
        PaintRight(parent0, false, up, g);
        g := g.(right := Blacken(g.right));
        Paint(gparent, true, up, g);
        return gparent, up, g.(red := true);
      }
      var parent; ghost var g;
      elm, parent, g := StraightenRight(elm0, parent0, gparent, c, t);
      FinishRight(parent, gparent, up, g);
      c' := InRight(Bin(u, gparent, true, g.right.left), parent, false, up);
      t' := g.right.right;
    }

    /** The uncle hangs off the other side of the grandparent. */
    lemma UncleField(c: Context, t: Tree)
      requires At(c, t) && !c.Top? && !c.up.Top?
      ensures c.up.node in nodes
      ensures (if c.up.InLeft? then c.up.node.right else c.up.node.left) == M.Ptr(Sibling(c.up))
      ensures Sibling(c.up).Bin? ==> Sibling(c.up).node in nodes && Sibling(c.up).node.red == Sibling(c.up).red
    {
      Up(c, t);
      Up(c.up, Zip(c, t));
    }

    method InsertColor(elm0: Node, ghost c0: Context, ghost t0: Tree)
      requires At(c0, t0) && t0.Bin? && t0.red && t0.node == elm0 && Rooted(c0)
      modifies this`root, this`mem, nodes
      ensures At(Top, AfterInsertColor(c0, t0))
    {
      var elm := elm0;
      ghost var c, t := c0, t0;
      var parent := elm.parent;
      while parent != null && parent.red
        invariant At(c, t) && t.Bin? && t.red && t.node == elm && Rooted(c) && parent == elm.parent
        invariant AfterInsertColor(c, t) == AfterInsertColor(c0, t0)
        invariant nodes == old(nodes)
        decreases Depth(c)
      {
        ParentField(c, t);
        assert Rooted(c.up);
        Up(c, t);
        ParentField(c.up, Zip(c, t));
        var gparent := parent.parent;
        Down(c, t);
        if parent == gparent.left {
          LeftField(c.up, Zip(c, t));
          elm, c, t := InsertRoundLeft(elm, parent, gparent, c, t);
        } else {
          elm, c, t := InsertRoundRight(elm, parent, gparent, c, t);
        }
        parent := elm.parent;
      }
      ParentField(c, t);
      ToRoot(c, t);
      Paint(root, false, Top, Plug(c, t));
    }

    /** What the fields say about the position. */
    lemma ParentField(c: Context, t: Tree)
      requires At(c, t) && t.Bin?
      ensures t.node in nodes && t.node.parent == M.ParentOf(c)
      ensures !c.Top? ==> c.node in nodes && c.node.red == c.red
    {
    }

    lemma LeftField(c: Context, t: Tree)
      requires At(c, t) && t.Bin? && !c.Top?
      ensures c.node.left == t.node <==> c.InLeft?
    {
      assert c.node in nodes;
      M.LeftField(mem, c, t);
    }

    lemma ToRoot(c: Context, t: Tree)
      requires At(c, t)
      ensures At(Top, Plug(c, t)) && root == M.Ptr(Plug(c, t))
    {
      M.AtPlug(mem, c, t);
      M.PlugNodes(c, t);
    }

    // -------------------------------------------------------------------------------------------
    // RB_REMOVE_COLOR
    // -------------------------------------------------------------------------------------------

    /** The sibling and the colour of its children, as the loop reads them. */
    lemma SiblingField(c: Context, t: Tree)
      requires At(c, t) && !c.Top? && Sibling(c).Bin?
      ensures c.node in nodes && (if c.InLeft? then c.node.right else c.node.left) == Sibling(c).node
      ensures var s := Sibling(c);
              && s.node in nodes && s.node.red == s.red
              && s.node.left == M.Ptr(s.left) && s.node.right == M.Ptr(s.right)
              && (s.left.Bin? ==> s.left.node in nodes && s.left.node.red == s.left.red)
              && (s.right.Bin? ==> s.right.node in nodes && s.right.node.red == s.right.red)
    {
      var s := Sibling(c);
      assert M.Shape(mem, s, c.node);
      assert M.Shape(mem, s.left, s.node) && M.Shape(mem, s.right, s.node);
      M.TopIn(s);
      M.TopIn(s.left);
      M.TopIn(s.right);
    }

    method RedSiblingLeft(parent: Node, tmp: Node, ghost c: Context, ghost t: Tree)
      requires At(c, t) && c.InLeft? && c.node == parent && c.right.Bin? && c.right.node == tmp
      modifies this`root, this`mem, nodes
      ensures At(RedSiblingStep(c), t)
    {
      ghost var InLeft(up, _, red, Bin(l, s, _, r)) := c;
      ghost var z := Zip(c, t);
      Up(c, t);
      PaintRight(tmp, false, up, z);
      z := Bin(t, parent, red, Bin(l, s, false, r));
      Paint(parent, true, up, z);
      TurnLeft(parent, up, z.(red := true));
      Down(InLeft(up, s, false, r), Bin(t, parent, true, l));
      Down(RedSiblingStep(c), t);
    }

    /** The sibling's near child is red and its far child is not: the near child becomes the sibling. */
    method LiftNearLeft(parent: Node, tmp: Node, ghost c: Context, ghost t: Tree)
      requires At(c, t) && c.InLeft? && c.node == parent && c.right.Bin? && c.right.node == tmp && c.right.left.Bin?
      modifies this`root, this`mem, nodes
      ensures var l := c.right.left;
              At(c.(right := Bin(l.left, l.node, false, Bin(l.right, tmp, true, c.right.right))), t)
    {
      ghost var InLeft(up, _, red, Bin(l, s, sred, r)) := c;
      ghost var low := InRight(t, parent, red, up);
      Up(c, t);
      Down(low, c.right);
      SubField(low, c.right);
      var oleft := tmp.left;
      if oleft != null {
        PaintLeft(oleft, false, low, c.right);
      }
      ghost var l' := l.(red := false);
      Paint(tmp, true, low, Bin(l', s, sred, r));
      TurnRight(tmp, low, Bin(l', s, true, r));
      ghost var s' := Bin(l.left, l.node, false, Bin(l.right, tmp, true, r));
      Up(low, s');
      Down(c.(right := s'), t);
    }

    lemma SubField(c: Context, t: Tree)
      requires At(c, t) && t.Bin?
      ensures t.node in nodes && t.node.left == M.Ptr(t.left) && t.node.right == M.Ptr(t.right) && t.node.red == t.red
    {
    }

    /** The far child is red: the sibling goes up in the parent's colour and everything balances. */
    method LiftFarLeft(parent: Node, tmp: Node, ghost c: Context, ghost t: Tree)
      requires At(c, t) && c.InLeft? && c.node == parent && c.right.Bin? && c.right.node == tmp
      modifies this`root, this`mem, nodes
      ensures At(c.up, Bin(Bin(t, parent, false, c.right.left), tmp, c.red, Blacken(c.right.right)))
    {
      ghost var InLeft(up, _, red, Bin(l, s, _, r)) := c;
      ghost var z := Zip(c, t);
      Up(c, t);
      SubField(up, z);
      PaintRight(tmp, parent.red, up, z);
      z := Bin(t, parent, red, Bin(l, s, red, r));
      Paint(parent, false, up, z);
      z := z.(red := false);
      ghost var low := InRight(t, parent, false, up);
      Down(low, z.right);
      SubField(low, z.right);
      if tmp.right != null {
        PaintRight(tmp.right, false, low, z.right);
      }
      Up(low, Bin(l, s, red, Blacken(r)));
      TurnLeft(parent, up, Bin(t, parent, false, Bin(l, s, red, Blacken(r))));
    }

    /** A child of the sibling on the right is red: the far one, or it is made so first. */
    method LiftLeft(parent: Node, tmp0: Node, ghost c: Context, ghost t: Tree)
      requires At(c, t) && c.InLeft? && c.node == parent && c.right.Bin? && c.right.node == tmp0 && !GoesOn(c)
      modifies this`root, this`mem, nodes
      ensures At(c.up, BlackSiblingStep(c, t))
    {
      SiblingField(c, t);
      var tmp := tmp0;
      ghost var c1 := c;
      if tmp.right == null || !tmp.right.red {
        LiftNearLeft(parent, tmp, c, t);
        c1 := c.(right := Bin(c.right.left.left, c.right.left.node, false,
                              Bin(c.right.left.right, tmp, true, c.right.right)));
        SiblingField(c1, t);
        tmp := parent.right;
      }
      LiftFarLeft(parent, tmp, c1, t);
    }

    /** One round with a black sibling on the right; true if the loop goes on at the parent. */
    method BlackSiblingLeft(parent: Node, tmp: Node, ghost c: Context, ghost t: Tree) returns (more: bool)
      requires At(c, t) && c.InLeft? && c.node == parent && c.right.Bin? && c.right.node == tmp
      modifies this`root, this`mem, nodes
      ensures At(c.up, BlackSiblingStep(c, t))
      ensures more == GoesOn(c)
    {
      SiblingField(c, t);
      if (tmp.left == null || !tmp.left.red) && (tmp.right == null || !tmp.right.red) {
        Up(c, t);
        PaintRight(tmp, true, c.up, Zip(c, t));
        return true;
      }
      LiftLeft(parent, tmp, c, t);
      return false;
    }

    method RedSiblingRight(parent: Node, tmp: Node, ghost c: Context, ghost t: Tree)
      requires At(c, t) && c.InRight? && c.node == parent && c.left.Bin? && c.left.node == tmp
      modifies this`root, this`mem, nodes
      ensures At(RedSiblingStep(c), t)
    {
      ghost var InRight(Bin(l, s, _, r), _, red, up) := c;
      ghost var z := Zip(c, t);
      Up(c, t);
      PaintLeft(tmp, false, up, z);
      z := Bin(Bin(l, s, false, r), parent, red, t);
      Paint(parent, true, up, z);
      TurnRight(parent, up, z.(red := true));
      Down(InRight(l, s, false, up), Bin(r, parent, true, t));
      Down(RedSiblingStep(c), t);
    }

    method LiftNearRight(parent: Node, tmp: Node, ghost c: Context, ghost t: Tree)
      requires At(c, t) && c.InRight? && c.node == parent && c.left.Bin? && c.left.node == tmp && c.left.right.Bin?
      modifies this`root, this`mem, nodes
      ensures var r := c.left.right;
              At(c.(left := Bin(Bin(c.left.left, tmp, true, r.left), r.node, false, r.right)), t)
    {
      ghost var InRight(Bin(l, s, sred, r), _, red, up) := c;
      ghost var low := InLeft(up, parent, red, t);
      Up(c, t);
      Down(low, c.left);
      SubField(low, c.left);
      var oright := tmp.right;
      if oright != null {
        PaintRight(oright, false, low, c.left);
      }
      ghost var r' := r.(red := false);
      Paint(tmp, true, low, Bin(l, s, sred, r'));
      TurnLeft(tmp, low, Bin(l, s, true, r'));
      ghost var s' := Bin(Bin(l, tmp, true, r.left), r.node, false, r.right);
      Up(low, s');
      Down(c.(left := s'), t);
    }

    method LiftFarRight(parent: Node, tmp: Node, ghost c: Context, ghost t: Tree)
      requires At(c, t) && c.InRight? && c.node == parent && c.left.Bin? && c.left.node == tmp
      modifies this`root, this`mem, nodes
      ensures At(c.up, Bin(Blacken(c.left.left), tmp, c.red, Bin(c.left.right, parent, false, t)))
    {
      ghost var InRight(Bin(l, s, _, r), _, red, up) := c;
      ghost var z := Zip(c, t);
      Up(c, t);
      SubField(up, z);
      PaintLeft(tmp, parent.red, up, z);
      z := Bin(Bin(l, s, red, r), parent, red, t);
      Paint(parent, false, up, z);
      z := z.(red := false);
      ghost var low := InLeft(up, parent, false, t);
      Down(low, z.left);
      SubField(low, z.left);
      if tmp.left != null {
        PaintLeft(tmp.left, false, low, z.left);
      }
      Up(low, Bin(Blacken(l), s, red, r));
      TurnRight(parent, up, Bin(Bin(Blacken(l), s, red, r), parent, false, t));
    }

    method LiftRight(parent: Node, tmp0: Node, ghost c: Context, ghost t: Tree)
      requires At(c, t) && c.InRight? && c.node == parent && c.left.Bin? && c.left.node == tmp0 && !GoesOn(c)
      modifies this`root, this`mem, nodes
      ensures At(c.up, BlackSiblingStep(c, t))
    {
      SiblingField(c, t);
      var tmp := tmp0;
      ghost var c1 := c;
      if tmp.left == null || !tmp.left.red {
        LiftNearRight(parent, tmp, c, t);
        c1 := c.(left := Bin(Bin(c.left.left, tmp, true, c.left.right.left), c.left.right.node, false,
                             c.left.right.right));
        SiblingField(c1, t);
        tmp := parent.left;
      }
      LiftFarRight(parent, tmp, c1, t);
    }

    /** One round with a black sibling on the left; true if the loop goes on at the parent. */
    method BlackSiblingRight(parent: Node, tmp: Node, ghost c: Context, ghost t: Tree) returns (more: bool)
      requires At(c, t) && c.InRight? && c.node == parent && c.left.Bin? && c.left.node == tmp
      modifies this`root, this`mem, nodes
      ensures At(c.up, BlackSiblingStep(c, t))
      ensures more == GoesOn(c)
    {
      SiblingField(c, t);
      if (tmp.left == null || !tmp.left.red) && (tmp.right == null || !tmp.right.red) {
        Up(c, t);
        PaintLeft(tmp, true, c.up, Zip(c, t));
        return true;
      }
      LiftRight(parent, tmp, c, t);
      return false;
    }

    /** The hole is at the root, or on the left of its parent, exactly when the fields say so. */
    lemma HoleField(c: Context, t: Tree)
      requires At(c, t)
      ensures c.Top? <==> M.Ptr(t) == root
      ensures !c.Top? && Sibling(c).Bin? ==> c.node in nodes && (c.InLeft? <==> c.node.left == M.Ptr(t))
    {
      M.HoleField(mem, c, t);
    }

    /** One round of the loop: to a black sibling first if need be. */
    method RemoveRound(parent: Node, elm: Node?, ghost c: Context, ghost t: Tree, ghost h: nat)
      returns (more: bool, ghost c': Context)
      requires At(c, t) && RemoveState(c, t, h) && !c.Top? && !IsRed(t)
      requires c.node == parent && M.Ptr(t) == elm
      modifies this`root, this`mem, nodes
      ensures !c'.Top? && RemoveState(c', t, h) && !IsRed(Sibling(c')) && c'.node == parent && Sibling(c').Bin?
      ensures AfterBlackSibling(c', t, h) == AfterRemoveColor(c, t, h)
      ensures At(c'.up, BlackSiblingStep(c', t)) && more == GoesOn(c')
      ensures 2 * Depth(c'.up) + (if c'.red then 0 else 1) < 2 * Depth(c) + 1
    {
      c' := c;
      SiblingExists(c, t, h);
      HoleField(c, t);
      SiblingField(c, t);
      var tmp;
      if parent.left == elm {
        tmp := parent.right;
        if tmp.red {
          RedSiblingBalanced(c, t, h);
          RedSiblingLeft(parent, tmp, c, t);
          c' := RedSiblingStep(c);
          SiblingExists(c', t, h);
          SiblingField(c', t);
          tmp := parent.right;
        }
        more := BlackSiblingLeft(parent, tmp, c', t);
      } else {
        tmp := parent.left;
        if tmp.red {
          RedSiblingBalanced(c, t, h);
          RedSiblingRight(parent, tmp, c, t);
          c' := RedSiblingStep(c);
          SiblingExists(c', t, h);
          SiblingField(c', t);
          tmp := parent.left;
        }
        more := BlackSiblingRight(parent, tmp, c', t);
      }
    }

    /** A round of the loop and what the next one starts from */
    method RemoveTurn(parent: Node, elm: Node?, ghost c: Context, ghost t: Tree, ghost h: nat)
      returns (more: bool, parent': Node?, elm': Node?, ghost c': Context, ghost t': Tree, ghost h': nat)
      requires At(c, t) && RemoveState(c, t, h) && !c.Top? && !IsRed(t)
      requires c.node == parent && M.Ptr(t) == elm
      modifies this`root, this`mem, nodes
      ensures At(c', t') && parent' == M.ParentOf(c') && elm' == M.Ptr(t')
      ensures more ==> RemoveState(c', t', h') && AfterRemoveColor(c', t', h') == AfterRemoveColor(c, t, h)
      ensures !more ==> Plug(c', Blacken(t')) == AfterRemoveColor(c, t, h)
      ensures more ==> 2 * Depth(c') + (if IsRed(t') then 0 else 1) < 2 * Depth(c) + 1
    {
      ghost var c1;
      more, c1 := RemoveRound(parent, elm, c, t, h);
      ghost var n := BlackSiblingStep(c1, t);
      NextRemove(c1, t, h);
      h' := if c1.red then h else h + 1;
      if more {
        c', t' := c1.up, n;
        elm' := parent;
        ParentField(c', t');
        parent' := elm'.parent;
      } else {
        c', t' := RootedAt(c1.up, n);
        elm', parent' := root, null;
      }
    }

    method RemoveColor(parent0: Node?, elm0: Node?, ghost c0: Context, ghost t0: Tree, ghost h0: nat)
      requires At(c0, t0) && RemoveState(c0, t0, h0)
      requires parent0 == M.ParentOf(c0) && elm0 == M.Ptr(t0)
      modifies this`root, this`mem, nodes
      ensures At(Top, AfterRemoveColor(c0, t0, h0))
    {
      var parent, elm, more := parent0, elm0, true;
      ghost var c, t, h := c0, t0, h0;
      HoleField(c, t);
      while more && (elm == null || !elm.red) && elm != root
        invariant At(c, t) && parent == M.ParentOf(c) && elm == M.Ptr(t) && (c.Top? <==> elm == root)
        invariant more ==> RemoveState(c, t, h) && AfterRemoveColor(c, t, h) == AfterRemoveColor(c0, t0, h0)
        invariant !more ==> Plug(c, Blacken(t)) == AfterRemoveColor(c0, t0, h0)
        invariant nodes == old(nodes)
        decreases more, 2 * Depth(c) + if IsRed(t) then 0 else 1
      {
        more, parent, elm, c, t, h := RemoveTurn(parent, elm, c, t, h);
        HoleField(c, t);
      }
      assert Plug(c, Blacken(t)) == AfterRemoveColor(c0, t0, h0);
      PaintTop(elm, c, t);
    }

    lemma RootedAt(c: Context, t: Tree) returns (c': Context, t': Tree)
      requires At(c, t)
      ensures c' == Top && t' == Plug(c, t) && At(c', t') && M.Ptr(t') == root
    {
      ToRoot(c, t);
      c', t' := Top, Plug(c, t);
    }

    method PaintTop(elm: Node?, ghost c: Context, ghost t: Tree)
      requires At(c, t) && elm == M.Ptr(t)
      modifies this`mem, nodes
      ensures At(Top, Plug(c, Blacken(t)))
    {
      if elm != null {
        Paint(elm, false, c, t);
      }
      ToRoot(c, Blacken(t));
    }

    // -------------------------------------------------------------------------------------------
    // The operations
    // -------------------------------------------------------------------------------------------

    /** A red-black tree in search order, spelt out by the fields. */
    ghost predicate Valid()
      reads this, nodes
    {
      At(Top, tree) && IsRedBlack(tree) && Sorted(Inorder(tree))
    }

    /** The nodes of the tree in order. */
    ghost function Elements(): seq<Node>
      reads this
    {
      Inorder(tree)
    }

    constructor ()
      ensures Valid() && Elements() == [] && nodes == {}
    {
      root := null;
      mem, nodes, tree := M.Memory(null, map[]), {}, Leaf;
    }

    lemma ElementsAt(c: Context, t: Tree)
      requires Plug(c, t) == tree
      ensures Elements() == Contents(c, t)
    {
      InorderPlug(c, t);
    }

    lemma PositionOf(c: Context, t: Tree)
      requires At(Top, tree) && Plug(c, t) == tree
      ensures At(c, t)
    {
      M.AtPlug(mem, c, t);
      M.PlugNodes(c, t);
    }

    /** The node with this key, or null. */
    method Find(key: string) returns (r: Node?)
      requires Valid()
      ensures r == null <==> forall n :: n in Elements() ==> n.key != key
      ensures r != null ==> r in Elements() && r.key == key
    {
      var tmp := root;
      ghost var c, t := Top, tree;
      while tmp != null
        invariant Plug(c, t) == tree && tmp == M.Ptr(t) && Around(c, key)
        decreases t
      {
        PositionOf(c, t);
        ElementsAt(c, t);
        SubField(c, t);
        var comp := Compare(key, tmp.key);
        CompareFlip(key, tmp.key);
        CompareEqual(key, tmp.key);
        if comp < 0 {
          AroundLeft(c, t, key);
          tmp := tmp.left;
          c, t := InLeft(c, t.node, t.red, t.right), t.left;
        } else if comp > 0 {
          AroundRight(c, t, key);
          tmp := tmp.right;
          c, t := InRight(t.left, t.node, t.red, c), t.right;
        } else {
          return tmp;
        }
      }
      ElementsAt(c, t);
      NotAmong(c, key);
      return null;
    }

    /** The loop of RB_INSERT: the node with the key of elm, or the hole where elm belongs. */
    method Descend(elm: Node) returns (found: Node?, parent: Node?, comp: int, ghost c: Context)
      requires Valid()
      ensures found != null ==> found in Elements() && found.key == elm.key
      ensures found == null ==> Plug(c, Leaf) == tree && Around(c, elm.key) && parent == M.ParentOf(c)
      ensures found == null && parent != null ==> (c.InLeft? <==> comp < 0)
    {
      var tmp := root;
      ghost var t := tree;
      c, parent, comp := Top, null, 0;
      while tmp != null
        invariant Plug(c, t) == tree && tmp == M.Ptr(t) && Around(c, elm.key) && parent == M.ParentOf(c)
        invariant parent != null ==> (c.InLeft? <==> comp < 0)
        decreases t
      {
        PositionOf(c, t);
        ElementsAt(c, t);
        SubField(c, t);
        parent := tmp;
        comp := Compare(elm.key, parent.key);
        CompareFlip(elm.key, parent.key);
        CompareEqual(elm.key, parent.key);
        if comp < 0 {
          AroundLeft(c, t, elm.key);
          tmp := tmp.left;
          c, t := InLeft(c, t.node, t.red, t.right), t.left;
        } else if comp > 0 {
          AroundRight(c, t, elm.key);
          tmp := tmp.right;
          c, t := InRight(t.left, t.node, t.red, c), t.right;
        } else {
          found := tmp;
          return;
        }
      }
      found := null;
    }

    /** RB_SET and the link from the parent: elm fills the hole as a red leaf. */
    method Attach(elm: Node, parent: Node?, comp: int, ghost c: Context)
      requires At(c, Leaf) && elm !in nodes && parent == M.ParentOf(c)
      requires parent != null ==> (c.InLeft? <==> comp < 0)
      modifies this`root, this`mem, this`nodes, nodes, elm
      ensures At(c, Bin(Leaf, elm, true, Leaf)) && nodes == old(nodes) + {elm}
    {
      ghost var m := mem;
      elm.parent := parent;
      elm.left, elm.right := null, null;
      elm.red := true;
      nodes := nodes + {elm};
      mem := M.Put(mem, elm, M.Cell(null, null, parent, true));
      if parent != null {
        if comp < 0 {
          SetLeft(parent, elm);
        } else {
          SetRight(parent, elm);
        }
      } else {
        root := elm;
        mem := mem.(root := elm);
      }
      M.AttachAt(m, c, elm);
    }

    method InsertAt(elm: Node, parent: Node?, comp: int, ghost c: Context, ghost h: nat)
      requires At(c, Leaf) && elm !in nodes && parent == M.ParentOf(c)
      requires parent != null ==> (c.InLeft? <==> comp < 0)
      requires Rooted(c) && InsertState(c, Bin(Leaf, elm, true, Leaf), h)
      requires Sorted(Before(c) + [elm] + After(c))
      modifies this, nodes, elm
      ensures Valid() && Elements() == Before(c) + [elm] + After(c) && nodes == old(nodes) + {elm}
    {
      ghost var t := Bin(Leaf, elm, true, Leaf);
      Attach(elm, parent, comp, c);
      InsertColor(elm, c, t);
      tree := AfterInsertColor(c, t);
      InsertedLeaf(c, elm, h);
    }

    /** Puts elm in its place unless a node with its key is there; that node, or null. */
    method Insert(elm: Node) returns (r: Node?)
      requires Valid() && elm !in nodes
      modifies this, nodes, elm
      ensures Valid()
      ensures r == null <==> forall n :: n in old(Elements()) ==> n.key != elm.key
      ensures r != null ==> r in old(Elements()) && r.key == elm.key
      ensures r != null ==> Elements() == old(Elements()) && nodes == old(nodes)
      ensures r == null ==> OneMore(old(Elements()), elm, Elements()) && nodes == old(nodes) + {elm}
    {
      var parent, comp;
      ghost var c;
      r, parent, comp, c := Descend(elm);
      if r == null {
        ghost var h := InsertPosition(c, elm);
        OneMoreAt(Before(c), elm, After(c));
        InsertAt(elm, parent, comp, c, h);
      }
    }

    /** What the hole found by the loop of RB_INSERT promises. */
    lemma InsertPosition(c: Context, elm: Node) returns (h: nat)
      requires Valid() && Plug(c, Leaf) == tree && Around(c, elm.key)
      ensures At(c, Leaf) && Rooted(c) && InsertState(c, Bin(Leaf, elm, true, Leaf), h)
      ensures Elements() == Before(c) + After(c) && Sorted(Before(c) + [elm] + After(c))
      ensures forall n :: n in Elements() ==> n.key != elm.key
    {
      PositionOf(c, Leaf);
      ElementsAt(c, Leaf);
      NotAmong(c, elm.key);
      SortedInsert(c, elm);
      h := UnplugBalanced(c, Leaf);
      BalancedRooted(c, h);
    }

    /** A node with at most one child gives way to that child. */
    method Splice(elm: Node, child: Node?, ghost c: Context, ghost t: Tree)
      requires At(c, t) && t.Bin? && t.node == elm && (t.left.Leaf? || t.right.Leaf?)
      requires child == M.Ptr(OnlyChild(t))
      modifies this`root, this`mem, nodes
      ensures Sync() && M.At(mem, c, OnlyChild(t)) && M.AllNodes(c, OnlyChild(t)) == nodes - {elm}
    {
      SubField(c, t);
      M.SpliceAt(mem, c, t);
      var parent := elm.parent;
      if child != null {
        SetParent(child, parent);
      }
      Relink(parent, elm, child);
    }

    /** (elm)->field = (old)->field */
    method CopyFields(elm: Node, from: Node)
      requires Sync() && elm in nodes && from in nodes
      modifies elm, this`mem
      ensures Sync() && mem == M.Put(old(mem), elm, M.Get(old(mem), from))
    {
      elm.left, elm.right, elm.parent, elm.red := from.left, from.right, from.parent, from.red;
      mem := M.Put(mem, elm, M.Get(mem, from));
    }

    /** The links to old_ lead to elm instead. */
    method Redirect(old_: Node, elm: Node)
      requires Sync() && elm in nodes && old_ in nodes && elm != old_ && old_.left != null && old_.parent != old_
      modifies this`root, this`mem, nodes
      ensures M.Get(old(mem), old_).left != null
      ensures Sync() && mem == M.Redirect(old(mem), old_, elm)
    {
      Relink(old_.parent, old_, elm);
      SetParent(old_.left, elm);
      if old_.right != null {
        SetParent(old_.right, elm);
      }
    }

    /** elm, which is no longer linked to, takes over the fields of old_ and the links to it. */
    method Replace(old_: Node, elm: Node, ghost c: Context, ghost t: Tree)
      requires Sync() && M.At(mem, c, t) && M.AllNodes(c, t) == nodes - {elm} && elm in nodes
      requires t.Bin? && t.node == old_ && t.left.Bin?
      modifies this`root, this`mem, this`nodes, nodes
      ensures At(c, t.(node := elm)) && nodes == old(nodes) - {old_}
    {
      assert old_ in nodes && old_ != elm;
      if !c.Top? {
        M.ContextNodeApart(c, t);
      }
      M.ReplaceAt(mem, c, t, elm);
      CopyFields(elm, old_);
      Redirect(old_, elm);
      Forget(old_, c, t.(node := elm));
    }

    /** A node that the position does not reach leaves the set of nodes. */
    ghost method Forget(n: Node, c: Context, t: Tree)
      requires Sync() && M.At(mem, c, t) && M.AllNodes(c, t) == nodes - {n}
      modifies this`nodes
      ensures At(c, t) && nodes == old(nodes) - {n}
    {
      M.AtClosed(mem, c, t);
      nodes := nodes - {n};
    }

    /** The leftmost node of the right subtree of old_, at the end of an all-left way down. */
    method Successor(old_: Node, ghost c: Context, ghost t: Tree) returns (elm: Node, ghost rel: Context, ghost s: Tree)
      requires At(c, t) && t.Bin? && t.node == old_ && t.right.Bin?
      ensures M.AllLeft(rel) && s.Bin? && s.node == elm && s.left.Leaf?
      ensures Plug(rel, s) == t.right
      ensures At(M.Graft(rel, InRight(t.left, old_, t.red, c)), s)
    {
      ghost var base := InRight(t.left, old_, t.red, c);
      SubField(c, t);
      Down(base, t.right);
      elm, rel, s := old_.right, Top, t.right;
      SubField(base, s);
      var left := elm.left;
      while left != null
        invariant M.AllLeft(rel) && s.Bin? && s.node == elm && left == M.Ptr(s.left) && Plug(rel, s) == t.right
        invariant At(M.Graft(rel, base), s)
        decreases s
      {
        elm := left;
        Down(InLeft(M.Graft(rel, base), s.node, s.red, s.right), s.left);
        rel, s := InLeft(rel, s.node, s.red, s.right), s.left;
        SubField(M.Graft(rel, base), s);
        left := elm.left;
      }
    }

    /** Removal of a node with two children: its successor is spliced out and takes its place. */
    method ReplaceBySuccessor(old_: Node, ghost c: Context, ghost t: Tree)
      returns (parent: Node?, child: Node?, red: bool, ghost c': Context, ghost rel: Context, ghost s: Tree)
      requires At(c, t) && t.Bin? && t.node == old_ && t.left.Bin? && t.right.Bin?
      modifies this`root, this`mem, this`nodes, nodes
      ensures M.AllLeft(rel) && s.Bin? && s.left.Leaf? && Plug(rel, s) == t.right && red == s.red
      ensures c' == M.Graft(rel, InRight(t.left, s.node, t.red, c))
      ensures At(c', s.right) && parent == M.ParentOf(c') && child == M.Ptr(s.right)
      ensures nodes == old(nodes) - {old_}
    {
      var elm;
      elm, rel, s := Successor(old_, c, t);
      ghost var base, base' := InRight(t.left, old_, t.red, c), InRight(t.left, elm, t.red, c);
      ghost var z := Bin(t.left, old_, t.red, Plug(rel, s.right));
      SubField(M.Graft(rel, base), s);
      ParentField(M.Graft(rel, base), s);
      child := elm.right;
      parent := elm.parent;
      red := elm.red;
      M.AtGraft(mem, rel, base, s);
      OutsideContext(M.Graft(rel, base), s);
      Splice(elm, child, M.Graft(rel, base), s);
      M.AtGraft(mem, rel, base, s.right);
      M.AtZip(mem, base, Plug(rel, s.right));
      M.AllNodesZip(base, Plug(rel, s.right));
      if parent == old_ {
        parent := elm;
      }
      Replace(old_, elm, c, z);
      c' := M.Graft(rel, base');
      M.AtZip(mem, base', Plug(rel, s.right));
      M.AllNodesZip(base', Plug(rel, s.right));
      M.AtGraft(mem, rel, base', s.right);
    }

    lemma OutsideContext(c: Context, t: Tree)
      requires At(c, t) && t.Bin?
      ensures t.node in nodes && !c.Top? ==> c.node != t.node
    {
      if !c.Top? {
        M.ContextNodeApart(c, t);
      }
    }

    /** The end of RB_REMOVE: recolour if the node spliced out was black. */
    method FinishRemove(parent: Node?, child: Node?, red: bool, ghost c: Context, ghost s: Tree, ghost h: nat)
      requires At(c, s) && parent == M.ParentOf(c) && child == M.Ptr(s)
      requires if red then IsRedBlack(Plug(c, s)) else RemoveState(c, s, h)
      requires Sorted(Contents(c, s))
      modifies this, nodes
      ensures Valid() && Elements() == Contents(c, s) && nodes == old(nodes)
    {
      if !red {
        RemoveColor(parent, child, c, s, h);
        tree := AfterRemoveColor(c, s, h);
        RemoveColorBalanced(c, s, h);
        RemoveColorInorder(c, s, h);
      } else {
        ToRoot(c, s);
        tree := Plug(c, s);
        InorderPlug(c, s);
      }
    }

    /** RB_REMOVE of a node with at most one child. */
    method RemoveSimple(elm: Node, ghost c: Context, ghost t: Tree)
      requires Valid() && Plug(c, t) == tree && t.Bin? && t.node == elm && (t.left.Leaf? || t.right.Leaf?)
      modifies this, nodes
      ensures Valid() && OneMore(Elements(), elm, old(Elements())) && nodes == old(nodes) - {elm}
    {
      PositionOf(c, t);
      ElementsAt(c, t);
      ghost var h := UnplugBalanced(c, t);
      ghost var s := OnlyChild(t);
      SpliceBalanced(c, t, h);
      SpliceContents(c, t);
      SubField(c, t);
      ParentField(c, t);
      var child;
      if elm.left == null {
        child := elm.right;
      } else {
        child := elm.left;
      }
      var parent, red := elm.parent, elm.red;
      Splice(elm, child, c, t);
      Forget(elm, c, s);
      FinishRemove(parent, child, red, c, s, if h == 0 then 0 else h - 1);
    }

    /** RB_REMOVE of a node with two children. */
    method RemoveFull(elm: Node, ghost c: Context, ghost t: Tree)
      requires Valid() && Plug(c, t) == tree && t.Bin? && t.node == elm && t.left.Bin? && t.right.Bin?
      modifies this, nodes
      ensures Valid() && OneMore(Elements(), elm, old(Elements())) && nodes == old(nodes) - {elm}
    {
      PositionOf(c, t);
      ElementsAt(c, t);
      var parent, child, red;
      ghost var c', rel, s;
      parent, child, red, c', rel, s := ReplaceBySuccessor(elm, c, t);
      ghost var h := M.SuccessorBalanced(c, t, rel, s);
      M.SuccessorContents(c, t, rel, s);
      FinishRemove(parent, child, red, c', s.right, h);
    }

    /** Takes elm out of the tree and returns it. */
    method Remove(elm: Node) returns (r: Node)
      requires Valid() && elm in Elements()
      modifies this, nodes
      ensures Valid() && r == elm
      ensures OneMore(Elements(), elm, old(Elements())) && nodes == old(nodes) - {elm}
    {
      ghost var c, t := Locate(tree, elm);
      PositionOf(c, t);
      SubField(c, t);
      if elm.left == null || elm.right == null {
        RemoveSimple(elm, c, t);
      } else {
        RemoveFull(elm, c, t);
      }
      r := elm;
    }

    // -------------------------------------------------------------------------------------------
    // Traversal
    // -------------------------------------------------------------------------------------------

    /** RB_MIN for a negative val, RB_MAX otherwise. */
    method MinMax(val: int) returns (r: Node?)
      requires Valid()
      ensures r == null <==> Elements() == []
      ensures r != null ==> r == if val < 0 then Elements()[0] else Elements()[|Elements()| - 1]
    {
      var tmp := root;
      ghost var c, t := Top, tree;
      r := null;
      while tmp != null
        invariant Plug(c, t) == tree && tmp == M.Ptr(t) && r == M.ParentOf(c)
        invariant if val < 0 then M.AllLeft(c) else M.AllRight(c)
        decreases t
      {
        PositionOf(c, t);
        SubField(c, t);
        r := tmp;
        if val < 0 {
          tmp := tmp.left;
          c, t := InLeft(c, t.node, t.red, t.right), t.left;
        } else {
          tmp := tmp.right;
          c, t := InRight(t.left, t.node, t.red, c), t.right;
        }
      }
      ElementsAt(c, t);
      if val < 0 {
        M.AllLeftBefore(c);
      } else {
        M.AllRightAfter(c);
      }
    }

    /** The leftmost node on the right of elm */
    method NextBelow(elm0: Node, ghost c: Context, ghost t: Tree) returns (elm: Node)
      requires At(c, t) && t.Bin? && t.node == elm0 && t.right.Bin?
      ensures Inorder(t.right) != [] && elm == Inorder(t.right)[0]
    {
      ghost var base := InRight(t.left, elm0, t.red, c);
      SubField(c, t);
      Down(base, t.right);
      ghost var rel, s := Top, t.right;
      elm := elm0.right;
      SubField(base, s);
      while elm.left != null
        invariant M.AllLeft(rel) && s.Bin? && s.node == elm && Plug(rel, s) == t.right
        invariant At(M.Graft(rel, base), s)
        decreases s
      {
        SubField(M.Graft(rel, base), s);
        elm := elm.left;
        Down(InLeft(M.Graft(rel, base), s.node, s.red, s.right), s.left);
        rel, s := InLeft(rel, s.node, s.red, s.right), s.left;
      }
      SubField(M.Graft(rel, base), s);
      InorderPlug(rel, s);
      M.AllLeftBefore(rel);
    }

    /** The first node on the way up that elm is on the left of */
    method NextAbove(elm0: Node, ghost c0: Context, ghost t0: Tree) returns (r: Node?)
      requires At(c0, t0) && t0.Bin? && t0.node == elm0
      ensures r == if After(c0) == [] then null else After(c0)[0]
    {
      var elm := elm0;
      ghost var c, t := c0, t0;
      ParentField(c, t);
      if !c.Top? {
        LeftField(c, t);
      }
      if elm.parent != null && elm == elm.parent.left {
        return elm.parent;
      }
      while elm.parent != null && elm == elm.parent.right
        invariant At(c, t) && t.Bin? && t.node == elm && After(c) == After(c0)
        decreases Depth(c)
      {
        ParentField(c, t);
        InnerField(c, t);
        elm := elm.parent;
        Up(c, t);
        c, t := c.up, Zip(c, t);
      }
      ParentField(c, t);
      if !c.Top? {
        InnerField(c, t);
      }
      r := elm.parent;
    }

    /** The node after elm, or null. */
    method Next(elm: Node, ghost i: nat) returns (r: Node?)
      requires Valid() && i < |Elements()| && Elements()[i] == elm
      ensures r == if i + 1 < |Elements()| then Elements()[i + 1] else null
    {
      ghost var c, t := Locate(tree, elm);
      PositionOf(c, t);
      ElementsAt(c, t);
      SubField(c, t);
      PlaceOf(c, t, i);
      if elm.right != null {
        r := NextBelow(elm, c, t);
      } else {
        r := NextAbove(elm, c, t);
      }
    }

    lemma InnerField(c: Context, t: Tree)
      requires At(c, t) && t.Bin? && !c.Top?
      ensures c.node.right == t.node <==> c.InRight?
    {
      assert c.node in nodes;
      M.InnerField(mem, c, t);
    }

    lemma PlaceOf(c: Context, t: Tree, i: nat)
      requires Valid() && Plug(c, t) == tree && t.Bin? && i < |Elements()| && Elements()[i] == t.node
      ensures i == |Before(c) + Inorder(t.left)|
      ensures Elements()[i + 1..] == Inorder(t.right) + After(c)
    {
      ElementsAt(c, t);
      ContentsBin(c, t);
      SplitAt(Before(c) + Inorder(t.left), t.node, Inorder(t.right) + After(c));
      SortedDistinct(Elements(), i, |Before(c) + Inorder(t.left)|);
    }
  }
}
