/**
  The memory of a red-black tree: for every node its four fields, and the root. The functions are the
  assignments of src/common/systree.h; the lemmas say which tree the fields spell out afterwards.

  `At (m, c, t)` says that the fields of m, followed from the root, spell out the tree t at the end of
  the way down c.
 */
module RedBlackMemory {
  import opened RedBlack

  datatype Cell = Cell(left: Node?, right: Node?, parent: Node?, red: bool)

  datatype Memory = Memory(root: Node?, cells: map<Node, Cell>)

  const EMPTY: Cell := Cell(null, null, null, false)

  function Get(m: Memory, n: Node): Cell {
    if n in m.cells then m.cells[n] else EMPTY
  }

  function Put(m: Memory, n: Node, cell: Cell): Memory {
    m.(cells := m.cells[n := cell])
  }

  // ---------------------------------------------------------------------------------------------
  // What the fields spell out
  // ---------------------------------------------------------------------------------------------

  function Nodes(t: Tree): set<Node> {
    if t.Leaf? then {} else Nodes(t.left) + {t.node} + Nodes(t.right)
  }

  function ContextNodes(c: Context): set<Node> {
    if c.Top? then {} else Nodes(Sibling(c)) + {c.node} + ContextNodes(c.up)
  }

  function Ptr(t: Tree): Node? {
    if t.Leaf? then null else t.node
  }

  function ParentOf(c: Context): Node? {
    if c.Top? then null else c.node
  }

  function RootOf(c: Context, hole: Node?): Node? {
    if c.Top? then hole else RootOf(c.up, c.node)
  }

  predicate Shape(m: Memory, t: Tree, parent: Node?) {
    t.Leaf? ||
    (Get(m, t.node) == Cell(Ptr(t.left), Ptr(t.right), parent, t.red)
     && Shape(m, t.left, t.node) && Shape(m, t.right, t.node))
  }

  /** The fields of the last node on the way down, if the hole is filled by this node. */
  function Frame(c: Context, hole: Node?): Cell
    requires !c.Top?
  {
    if c.InLeft? then Cell(hole, Ptr(c.right), ParentOf(c.up), c.red)
    else Cell(Ptr(c.left), hole, ParentOf(c.up), c.red)
  }

  predicate ContextShape(m: Memory, c: Context, hole: Node?) {
    c.Top? ||
    (Get(m, c.node) == Frame(c, hole) && Shape(m, Sibling(c), c.node) && ContextShape(m, c.up, c.node))
  }

  predicate Distinct(t: Tree) {
    t.Leaf? ||
    (t.node !in Nodes(t.left) && t.node !in Nodes(t.right) && Nodes(t.left) !! Nodes(t.right)
     && Distinct(t.left) && Distinct(t.right))
  }

  predicate DistinctContext(c: Context) {
    c.Top? ||
    (c.node !in Nodes(Sibling(c)) && c.node !in ContextNodes(c.up) && Nodes(Sibling(c)) !! ContextNodes(c.up)
     && Distinct(Sibling(c)) && DistinctContext(c.up))
  }

  /** No node occurs twice. */
  predicate Apart(c: Context, t: Tree) {
    Distinct(t) && DistinctContext(c) && Nodes(t) !! ContextNodes(c)
  }

  predicate At(m: Memory, c: Context, t: Tree) {
    && Apart(c, t)
    && m.root == RootOf(c, Ptr(t))
    && ContextShape(m, c, Ptr(t))
    && Shape(m, t, ParentOf(c))
  }

  /** Moving the focus up or down one step. */
  lemma AtZip(m: Memory, c: Context, t: Tree)
    requires !c.Top?
    ensures At(m, c, t) <==> At(m, c.up, Zip(c, t))
  {
    var z := Zip(c, t);
    assert Nodes(z) == Nodes(t) + {c.node} + Nodes(Sibling(c));
    assert ContextNodes(c) == Nodes(Sibling(c)) + {c.node} + ContextNodes(c.up);
    ApartZip(c, t);
  }

  lemma ApartZip(c: Context, t: Tree)
    requires !c.Top?
    ensures Apart(c, t) <==> Apart(c.up, Zip(c, t))
  {
    var z := Zip(c, t);
    assert Nodes(z) == Nodes(t) + {c.node} + Nodes(Sibling(c));
    assert ContextNodes(c) == Nodes(Sibling(c)) + {c.node} + ContextNodes(c.up);
    assert Distinct(z) <==> c.node !in Nodes(t) && c.node !in Nodes(Sibling(c)) && Nodes(t) !! Nodes(Sibling(c))
                            && Distinct(t) && Distinct(Sibling(c));
  }

  lemma {:induction false} ShapeFrame(m: Memory, m': Memory, t: Tree, parent: Node?)
    requires Shape(m, t, parent)
    requires forall n :: n in Nodes(t) ==> Get(m', n) == Get(m, n)
    ensures Shape(m', t, parent)
  {
    if t.Bin? {
      ShapeFrame(m, m', t.left, t.node);
      ShapeFrame(m, m', t.right, t.node);
    }
  }

  lemma {:induction false} ContextFrame(m: Memory, m': Memory, c: Context, hole: Node?)
    requires ContextShape(m, c, hole)
    requires forall n :: n in ContextNodes(c) ==> Get(m', n) == Get(m, n)
    ensures ContextShape(m', c, hole)
  {
    if !c.Top? {
      ShapeFrame(m, m', Sibling(c), c.node);
      ContextFrame(m, m', c.up, c.node);
    }
  }

  /** The root of the subtree has a new parent or colour and nothing below it has changed. */
  lemma ShapeTop(m: Memory, m': Memory, t: Tree, parent: Node?, parent': Node?, red: bool)
    requires t.Bin? && Distinct(t) && Shape(m, t, parent)
    requires forall n :: n in Nodes(t) && n != t.node ==> Get(m', n) == Get(m, n)
    requires Get(m', t.node) == Get(m, t.node).(parent := parent', red := red)
    ensures Shape(m', t.(red := red), parent')
  {
    ShapeFrame(m, m', t.left, t.node);
    ShapeFrame(m, m', t.right, t.node);
  }

  /** The link into the hole has changed and nothing else of the context. */
  lemma ContextTop(m: Memory, m': Memory, c: Context, hole: Node?, hole': Node?)
    requires DistinctContext(c) && ContextShape(m, c, hole)
    requires forall n :: n in ContextNodes(c) && n != ParentOf(c) ==> Get(m', n) == Get(m, n)
    requires !c.Top? ==> Get(m', c.node) == Frame(c, hole')
    ensures ContextShape(m', c, hole')
  {
    if !c.Top? {
      ShapeFrame(m, m', Sibling(c), c.node);
      ContextFrame(m, m', c.up, c.node);
    }
  }

  // ---------------------------------------------------------------------------------------------
  // Assignments
  // ---------------------------------------------------------------------------------------------

  function SetLeft(m: Memory, n: Node, x: Node?): Memory { Put(m, n, Get(m, n).(left := x)) }

  function SetRight(m: Memory, n: Node, x: Node?): Memory { Put(m, n, Get(m, n).(right := x)) }

  function SetParent(m: Memory, n: Node, x: Node?): Memory { Put(m, n, Get(m, n).(parent := x)) }

  function SetRed(m: Memory, n: Node, red: bool): Memory { Put(m, n, Get(m, n).(red := red)) }

  /** The link that leads from parent, or from the root, to elm leads to x instead. */
  function Relink(m: Memory, parent: Node?, elm: Node, x: Node?): Memory {
    if parent == null then m.(root := x)
    else if Get(m, parent).left == elm then SetLeft(m, parent, x)
    else SetRight(m, parent, x)
  }

  function RotateLeft(m: Memory, elm: Node): Memory
    requires Get(m, elm).right != null
  {
    var tmp := Get(m, elm).right;
    var m := SetRight(m, elm, Get(m, tmp).left);
    var m := if Get(m, tmp).left == null then m else SetParent(m, Get(m, tmp).left, elm);
    var m := SetParent(m, tmp, Get(m, elm).parent);
    var m := Relink(m, Get(m, elm).parent, elm, tmp);
    var m := SetLeft(m, tmp, elm);
    SetParent(m, elm, tmp)
  }

  function RotateRight(m: Memory, elm: Node): Memory
    requires Get(m, elm).left != null
  {
    var tmp := Get(m, elm).left;
    var m := SetLeft(m, elm, Get(m, tmp).right);
    var m := if Get(m, tmp).right == null then m else SetParent(m, Get(m, tmp).right, elm);
    var m := SetParent(m, tmp, Get(m, elm).parent);
    var m := Relink(m, Get(m, elm).parent, elm, tmp);
    var m := SetRight(m, tmp, elm);
    SetParent(m, elm, tmp)
  }

  /** A rotation has brought `top` above `low` and the subtree b between them under `low`. */
  predicate RotatedPair(m: Memory, m': Memory, top: Node, low: Node, topCell: Cell, lowCell: Cell, b: Node?) {
    && Get(m', top) == topCell
    && Get(m', low) == lowCell
    && (b != null ==> Get(m', b) == Get(m, b).(parent := low))
  }

  /** The link from above leads to `top` instead of `low`; all other nodes are as before. */
  predicate RotatedRest(m: Memory, m': Memory, top: Node, low: Node, b: Node?, up: Node?, others: set<Node>) {
    && m'.root == (if up == null then top else m.root)
    && (up != null ==>
          Get(m', up) == if Get(m, up).left == low then Get(m, up).(left := top) else Get(m, up).(right := top))
    && (forall n :: n in others && n != top && n != low && n != b && n != up ==> Get(m', n) == Get(m, n))
  }

  predicate Rotated(m: Memory, m': Memory, top: Node, low: Node, topCell: Cell, lowCell: Cell, b: Node?, up: Node?,
                    others: set<Node>)
  {
    RotatedPair(m, m', top, low, topCell, lowCell, b) && RotatedRest(m, m', top, low, b, up, others)
  }

  lemma RotateLeftPair(m: Memory, x: Node, y: Node, b: Node?, up: Node?)
    requires Get(m, x).right == y && Get(m, y).left == b && Get(m, x).parent == up
    requires x != y && b != x && b != y && up != x && up != y && (up == b ==> b == null)
    ensures RotatedPair(m, RotateLeft(m, x), y, x, Get(m, y).(left := x, parent := up),
                        Get(m, x).(right := b, parent := y), b)
  {
  }

  lemma RotateLeftLinks(m: Memory, x: Node, y: Node, b: Node?, up: Node?)
    requires Get(m, x).right == y && Get(m, y).left == b && Get(m, x).parent == up
    requires x != y && b != x && b != y && up != x && up != y && (up == b ==> b == null)
    ensures RotatedRest(m, RotateLeft(m, x), y, x, b, up, {})
  {
  }

  lemma RotateLeftOthers(m: Memory, x: Node, y: Node, b: Node?, up: Node?, n: Node)
    requires Get(m, x).right == y && Get(m, y).left == b && Get(m, x).parent == up
    requires x != y && b != x && b != y && up != x && up != y && (up == b ==> b == null)
    requires n != x && n != y && n != b && n != up
    ensures Get(RotateLeft(m, x), n) == Get(m, n)
  {
  }

  lemma RotateLeftRest(m: Memory, x: Node, y: Node, b: Node?, up: Node?, others: set<Node>)
    requires Get(m, x).right == y && Get(m, y).left == b && Get(m, x).parent == up
    requires x != y && b != x && b != y && up != x && up != y && (up == b ==> b == null)
    ensures RotatedRest(m, RotateLeft(m, x), y, x, b, up, others)
  {
    RotateLeftLinks(m, x, y, b, up);
    forall n | n in others && n != y && n != x && n != b && n != up ensures Get(RotateLeft(m, x), n) == Get(m, n) {
      RotateLeftOthers(m, x, y, b, up, n);
    }
  }

  lemma RotateRightPair(m: Memory, x: Node, y: Node, b: Node?, up: Node?)
    requires Get(m, y).left == x && Get(m, x).right == b && Get(m, y).parent == up
    requires x != y && b != x && b != y && up != x && up != y && (up == b ==> b == null)
    ensures RotatedPair(m, RotateRight(m, y), x, y, Get(m, x).(right := y, parent := up),
                        Get(m, y).(left := b, parent := x), b)
  {
  }

  lemma RotateRightLinks(m: Memory, x: Node, y: Node, b: Node?, up: Node?)
    requires Get(m, y).left == x && Get(m, x).right == b && Get(m, y).parent == up
    requires x != y && b != x && b != y && up != x && up != y && (up == b ==> b == null)
    ensures RotatedRest(m, RotateRight(m, y), x, y, b, up, {})
  {
  }

  lemma RotateRightOthers(m: Memory, x: Node, y: Node, b: Node?, up: Node?, n: Node)
    requires Get(m, y).left == x && Get(m, x).right == b && Get(m, y).parent == up
    requires x != y && b != x && b != y && up != x && up != y && (up == b ==> b == null)
    requires n != x && n != y && n != b && n != up
    ensures Get(RotateRight(m, y), n) == Get(m, n)
  {
  }

  lemma RotateRightRest(m: Memory, x: Node, y: Node, b: Node?, up: Node?, others: set<Node>)
    requires Get(m, y).left == x && Get(m, x).right == b && Get(m, y).parent == up
    requires x != y && b != x && b != y && up != x && up != y && (up == b ==> b == null)
    ensures RotatedRest(m, RotateRight(m, y), x, y, b, up, others)
  {
    RotateRightLinks(m, x, y, b, up);
    forall n | n in others && n != y && n != x && n != b && n != up ensures Get(RotateRight(m, y), n) == Get(m, n) {
      RotateRightOthers(m, x, y, b, up, n);
    }
  }

  /** What a rotation needs to know about the nodes involved. */
  lemma RotateNodes(c: Context, a: Tree, x: Node, r0: bool, b: Tree, y: Node, r1: bool, d: Tree)
    ensures var p, q := Bin(a, x, r0, Bin(b, y, r1, d)), Bin(Bin(a, x, r0, b), y, r1, d);
            && Nodes(p) == Nodes(q) == Nodes(a) + {x} + Nodes(b) + {y} + Nodes(d)
            && (Apart(c, p) <==> Apart(c, q))
  {
    var p, q := Bin(a, x, r0, Bin(b, y, r1, d)), Bin(Bin(a, x, r0, b), y, r1, d);
    assert Nodes(p.right) == Nodes(b) + {y} + Nodes(d);
    assert Nodes(q.left) == Nodes(a) + {x} + Nodes(b);
    assert Distinct(p.right) <==> y !in Nodes(b) && y !in Nodes(d) && Nodes(b) !! Nodes(d) && Distinct(b) && Distinct(d);
    assert Distinct(q.left) <==> x !in Nodes(a) && x !in Nodes(b) && Nodes(a) !! Nodes(b) && Distinct(a) && Distinct(b);
  }

  lemma TopIn(t: Tree)
    ensures t.Bin? ==> t.node in Nodes(t)
  {
  }

  lemma ContextNodeApart(c: Context, t: Tree)
    requires Apart(c, t) && !c.Top?
    ensures c.node !in Nodes(t)
  {
    assert c.node in ContextNodes(c);
  }

  lemma DistinctParts(a: Tree, x: Node, r0: bool, b: Tree, y: Node, r1: bool, d: Tree)
    requires Distinct(Bin(a, x, r0, Bin(b, y, r1, d)))
    ensures Distinct(a) && Distinct(b) && Distinct(d) && x != y
    ensures x !in Nodes(a) && x !in Nodes(b) && x !in Nodes(d)
    ensures y !in Nodes(a) && y !in Nodes(b) && y !in Nodes(d)
    ensures Nodes(a) !! Nodes(b) && Nodes(a) !! Nodes(d) && Nodes(b) !! Nodes(d)
  {
    var p := Bin(b, y, r1, d);
    assert Distinct(p) && Nodes(p) == Nodes(b) + {y} + Nodes(d);
  }

  lemma RotateApart(c: Context, a: Tree, x: Node, r0: bool, b: Tree, y: Node, r1: bool, d: Tree)
    requires Apart(c, Bin(a, x, r0, Bin(b, y, r1, d)))
    ensures Distinct(a) && Distinct(b) && Distinct(d) && x != y
    ensures x !in Nodes(a) && x !in Nodes(b) && x !in Nodes(d)
    ensures y !in Nodes(a) && y !in Nodes(b) && y !in Nodes(d)
    ensures Nodes(a) !! Nodes(b) && Nodes(a) !! Nodes(d) && Nodes(b) !! Nodes(d)
    ensures !c.Top? ==> c.node !in Nodes(a) && c.node !in Nodes(b) && c.node !in Nodes(d) && c.node != x && c.node != y
  {
    var t := Bin(a, x, r0, Bin(b, y, r1, d));
    DistinctParts(a, x, r0, b, y, r1, d);
    RotateNodes(c, a, x, r0, b, y, r1, d);
    if !c.Top? {
      ContextNodeApart(c, t);
    }
  }

  lemma RotatedContext(m: Memory, m': Memory, c: Context, t: Tree, top: Node)
    requires At(m, c, t) && t.Bin? && top in Nodes(t)
    requires forall n :: n in ContextNodes(c) && n != ParentOf(c) ==> Get(m', n) == Get(m, n)
    requires c.Top? ==> m'.root == top
    requires !c.Top? ==> m'.root == m.root
    requires !c.Top? ==> Get(m', c.node) == if Get(m, c.node).left == t.node then Get(m, c.node).(left := top)
                                            else Get(m, c.node).(right := top)
    ensures ContextShape(m', c, top) && m'.root == RootOf(c, top)
  {
    if !c.Top? {
      assert c.InRight? ==> Ptr(c.left) != t.node by {
        assert c.InRight? && c.left.Bin? ==> c.left.node in Nodes(c.left);
        assert c.InRight? ==> Nodes(c.left) <= ContextNodes(c);
      }
    }
    ContextTop(m, m', c, t.node, top);
  }

  lemma RotatedLeftAt(m: Memory, m': Memory, c: Context,
                      a: Tree, x: Node, r0: bool, b: Tree, y: Node, r1: bool, d: Tree)
    requires At(m, c, Bin(a, x, r0, Bin(b, y, r1, d)))
    requires Rotated(m, m', y, x, Cell(x, Ptr(d), ParentOf(c), r1), Cell(Ptr(a), Ptr(b), y, r0), Ptr(b), ParentOf(c),
                     Nodes(a) + Nodes(b) + Nodes(d) + ContextNodes(c))
    ensures At(m', c, Bin(Bin(a, x, r0, b), y, r1, d))
  {
    var t := Bin(a, x, r0, Bin(b, y, r1, d));
    RotateNodes(c, a, x, r0, b, y, r1, d);
    RotateApart(c, a, x, r0, b, y, r1, d);
    assert Shape(m, t.right, x);
    TopIn(b);
    RotatedContext(m, m', c, t, y);
    ShapeFrame(m, m', a, x);
    ShapeFrame(m, m', d, y);
    if b.Bin? {
      ShapeTop(m, m', b, y, x, b.red);
    }
    assert Shape(m', Bin(a, x, r0, b), y);
  }

  lemma RotatedRightAt(m: Memory, m': Memory, c: Context,
                       a: Tree, x: Node, r0: bool, b: Tree, y: Node, r1: bool, d: Tree)
    requires At(m, c, Bin(Bin(a, x, r0, b), y, r1, d))
    requires Rotated(m, m', x, y, Cell(Ptr(a), y, ParentOf(c), r0), Cell(Ptr(b), Ptr(d), x, r1), Ptr(b), ParentOf(c),
                     Nodes(a) + Nodes(b) + Nodes(d) + ContextNodes(c))
    ensures At(m', c, Bin(a, x, r0, Bin(b, y, r1, d)))
  {
    var t := Bin(Bin(a, x, r0, b), y, r1, d);
    RotateNodes(c, a, x, r0, b, y, r1, d);
    RotateApart(c, a, x, r0, b, y, r1, d);
    assert Shape(m, t.left, y);
    TopIn(b);
    RotatedContext(m, m', c, t, x);
    ShapeFrame(m, m', a, x);
    ShapeFrame(m, m', d, y);
    if b.Bin? {
      ShapeTop(m, m', b, x, y, b.red);
    }
    assert Shape(m', Bin(b, y, r1, d), x);
  }

  lemma RotateLeftAt(m: Memory, c: Context, a: Tree, x: Node, r0: bool, b: Tree, y: Node, r1: bool, d: Tree)
    requires At(m, c, Bin(a, x, r0, Bin(b, y, r1, d)))
    ensures Get(m, x).right == y
    ensures At(RotateLeft(m, x), c, Bin(Bin(a, x, r0, b), y, r1, d))
  {
    RotateApart(c, a, x, r0, b, y, r1, d);
    assert Shape(m, Bin(b, y, r1, d), x);
    TopIn(b);
    RotateLeftPair(m, x, y, Ptr(b), ParentOf(c));
    RotateLeftRest(m, x, y, Ptr(b), ParentOf(c), Nodes(a) + Nodes(b) + Nodes(d) + ContextNodes(c));
    RotatedLeftAt(m, RotateLeft(m, x), c, a, x, r0, b, y, r1, d);
  }

  lemma RotateRightAt(m: Memory, c: Context, a: Tree, x: Node, r0: bool, b: Tree, y: Node, r1: bool, d: Tree)
    requires At(m, c, Bin(Bin(a, x, r0, b), y, r1, d))
    ensures Get(m, y).left == x
    ensures At(RotateRight(m, y), c, Bin(a, x, r0, Bin(b, y, r1, d)))
  {
    RotateNodes(c, a, x, r0, b, y, r1, d);
    RotateApart(c, a, x, r0, b, y, r1, d);
    assert Shape(m, Bin(a, x, r0, b), y);
    TopIn(b);
    RotateRightPair(m, x, y, Ptr(b), ParentOf(c));
    RotateRightRest(m, x, y, Ptr(b), ParentOf(c), Nodes(a) + Nodes(b) + Nodes(d) + ContextNodes(c));
    RotatedRightAt(m, RotateRight(m, y), c, a, x, r0, b, y, r1, d);
  }

  /** Recolouring a node. */
  lemma SetRedAt(m: Memory, c: Context, t: Tree, red: bool)
    requires At(m, c, t) && t.Bin?
    ensures At(SetRed(m, t.node, red), c, t.(red := red))
  {
    var m' := SetRed(m, t.node, red);
    ShapeTop(m, m', t, ParentOf(c), ParentOf(c), red);
    ContextFrame(m, m', c, t.node);
  }

  lemma SetRedLeftAt(m: Memory, c: Context, t: Tree, red: bool)
    requires At(m, c, t) && t.Bin? && t.left.Bin?
    ensures At(SetRed(m, t.left.node, red), c, t.(left := t.left.(red := red)))
  {
    var low := InLeft(c, t.node, t.red, t.right);
    AtZip(m, low, t.left);
    SetRedAt(m, low, t.left, red);
    AtZip(SetRed(m, t.left.node, red), low, t.left.(red := red));
  }

  lemma SetRedRightAt(m: Memory, c: Context, t: Tree, red: bool)
    requires At(m, c, t) && t.Bin? && t.right.Bin?
    ensures At(SetRed(m, t.right.node, red), c, t.(right := t.right.(red := red)))
  {
    var low := InRight(t.left, t.node, t.red, c);
    AtZip(m, low, t.right);
    SetRedAt(m, low, t.right, red);
    AtZip(SetRed(m, t.right.node, red), low, t.right.(red := red));
  }

  // ---------------------------------------------------------------------------------------------
  // The set of nodes
  // ---------------------------------------------------------------------------------------------

  function AllNodes(c: Context, t: Tree): set<Node> {
    Nodes(t) + ContextNodes(c)
  }

  lemma AllNodesZip(c: Context, t: Tree)
    requires !c.Top?
    ensures AllNodes(c.up, Zip(c, t)) == AllNodes(c, t)
  {
  }

  lemma {:induction false} NodesInorder(t: Tree)
    ensures Nodes(t) == set n | n in Inorder(t)
  {
    if t.Bin? {
      NodesInorder(t.left);
      NodesInorder(t.right);
    }
  }

  lemma SameNodes(t: Tree, t': Tree)
    requires Inorder(t) == Inorder(t')
    ensures Nodes(t) == Nodes(t')
  {
    NodesInorder(t);
    NodesInorder(t');
  }

  lemma {:induction false} PlugNodes(c: Context, t: Tree)
    ensures Nodes(Plug(c, t)) == AllNodes(c, t)
  {
    if !c.Top? {
      AllNodesZip(c, t);
      PlugNodes(c.up, Zip(c, t));
    }
  }

  lemma {:induction false} AtPlug(m: Memory, c: Context, t: Tree)
    ensures At(m, c, t) <==> At(m, Top, Plug(c, t))
  {
    if !c.Top? {
      AtZip(m, c, t);
      AtPlug(m, c.up, Zip(c, t));
    }
  }

  /** A node is its parent's left child exactly when the way down went left. */
  lemma LeftField(m: Memory, c: Context, t: Tree)
    requires At(m, c, t) && t.Bin? && !c.Top?
    ensures Get(m, c.node).left == t.node <==> c.InLeft?
  {
    if c.InRight? {
      TopIn(c.left);
      assert Nodes(c.left) <= ContextNodes(c);
    }
  }

  lemma InnerField(m: Memory, c: Context, t: Tree)
    requires At(m, c, t) && t.Bin? && !c.Top?
    ensures Get(m, c.node).right == t.node <==> c.InRight?
  {
    if c.InLeft? {
      TopIn(c.right);
      assert Nodes(c.right) <= ContextNodes(c);
    }
  }

  lemma {:induction false} RootIn(m: Memory, c: Context, t: Tree)
    requires !c.Top?
    ensures RootOf(c, Ptr(t)) != null && RootOf(c, Ptr(t)) in ContextNodes(c)
  {
    if !c.up.Top? {
      RootIn(m, c.up, Zip(c, t));
    }
  }

  /** Whether the hole is the root or a left child can be read off the fields. */
  lemma HoleField(m: Memory, c: Context, t: Tree)
    requires At(m, c, t)
    ensures c.Top? <==> Ptr(t) == m.root
    ensures !c.Top? && Sibling(c).Bin? ==> (c.InLeft? <==> Get(m, c.node).left == Ptr(t))
  {
    TopIn(t);
    if !c.Top? {
      RootIn(m, c, t);
      TopIn(Sibling(c));
      assert Nodes(Sibling(c)) <= ContextNodes(c);
    }
  }

  // ---------------------------------------------------------------------------------------------
  // Taking a node out
  // ---------------------------------------------------------------------------------------------

  predicate Inside(x: Node?, ns: set<Node>) {
    x == null || x in ns
  }

  /** Links stay inside the set. */
  ghost predicate Closed(m: Memory, ns: set<Node>) {
    forall n :: n in ns ==> Inside(Get(m, n).left, ns) && Inside(Get(m, n).right, ns) && Inside(Get(m, n).parent, ns)
  }

  lemma {:induction false} ShapeLinks(m: Memory, t: Tree, parent: Node?, n: Node)
    requires Shape(m, t, parent) && n in Nodes(t)
    ensures Inside(Get(m, n).left, Nodes(t)) && Inside(Get(m, n).right, Nodes(t))
    ensures n != t.node ==> Inside(Get(m, n).parent, Nodes(t))
    ensures n == t.node ==> Get(m, n).parent == parent
  {
    TopIn(t.left);
    TopIn(t.right);
    if n in Nodes(t.left) {
      ShapeLinks(m, t.left, t.node, n);
    } else if n in Nodes(t.right) {
      ShapeLinks(m, t.right, t.node, n);
    }
  }

  /** The nodes of a position link only to each other. */
  lemma {:induction false} AtClosed(m: Memory, c: Context, t: Tree)
    requires At(m, c, t)
    ensures Closed(m, AllNodes(c, t)) && Inside(m.root, AllNodes(c, t))
  {
    if c.Top? {
      forall n | n in Nodes(t)
        ensures Inside(Get(m, n).left, Nodes(t)) && Inside(Get(m, n).right, Nodes(t)) && Inside(Get(m, n).parent, Nodes(t))
      {
        ShapeLinks(m, t, null, n);
      }
      TopIn(t);
      assert AllNodes(c, t) == Nodes(t);
    } else {
      AtZip(m, c, t);
      AllNodesZip(c, t);
      AtClosed(m, c.up, Zip(c, t));
    }
  }

  /** A node with at most one child gives way to that child. */
  function Splice(m: Memory, elm: Node, child: Node?): Memory {
    var parent := Get(m, elm).parent;
    var m := if child == null then m else SetParent(m, child, parent);
    Relink(m, parent, elm, child)
  }

  lemma SpliceAt(m: Memory, c: Context, t: Tree)
    requires At(m, c, t) && t.Bin? && (t.left.Leaf? || t.right.Leaf?)
    ensures At(Splice(m, t.node, Ptr(OnlyChild(t))), c, OnlyChild(t))
    ensures AllNodes(c, OnlyChild(t)) == AllNodes(c, t) - {t.node}
  {
    var child := OnlyChild(t);
    var m' := Splice(m, t.node, Ptr(child));
    TopIn(child);
    assert Nodes(t) == Nodes(child) + {t.node};
    if !c.Top? {
      ContextNodeApart(c, t);
      LeftField(m, c, t);
    }
    ContextTop(m, m', c, t.node, Ptr(child));
    if child.Bin? {
      ShapeTop(m, m', child, t.node, ParentOf(c), child.red);
    }
  }

  /** The links to old_ lead to elm instead. */
  function Redirect(m: Memory, old_: Node, elm: Node): Memory
    requires Get(m, old_).left != null
  {
    var m' := Relink(m, Get(m, old_).parent, old_, elm);
    var m' := SetParent(m', Get(m, old_).left, elm);
    if Get(m, old_).right == null then m' else SetParent(m', Get(m, old_).right, elm)
  }

  /** elm takes over all the fields of old_, and the links to it. */
  function Replace(m: Memory, old_: Node, elm: Node): Memory
    requires Get(m, old_).left != null && elm != old_
  {
    Redirect(Put(m, elm, Get(m, old_)), old_, elm)
  }

  lemma ReplaceAt(m: Memory, c: Context, t: Tree, elm: Node)
    requires At(m, c, t) && t.Bin? && t.left.Bin? && elm !in AllNodes(c, t)
    ensures Get(m, t.node).left != null
    ensures At(Replace(m, t.node, elm), c, t.(node := elm))
    ensures AllNodes(c, t.(node := elm)) == AllNodes(c, t) - {t.node} + {elm}
  {
    var m' := Replace(m, t.node, elm);
    TopIn(t.left);
    TopIn(t.right);
    assert Nodes(t) == Nodes(t.left) + {t.node} + Nodes(t.right);
    if !c.Top? {
      ContextNodeApart(c, t);
      LeftField(m, c, t);
      assert c.node in ContextNodes(c);
    }
    ReplaceCells(m, c, t, elm);
    ContextTop(m, m', c, t.node, elm);
    ShapeTop(m, m', t.left, t.node, elm, t.left.red);
    if t.right.Bin? {
      ShapeTop(m, m', t.right, t.node, elm, t.right.red);
    }
  }

  lemma ReplaceCells(m: Memory, c: Context, t: Tree, elm: Node)
    requires At(m, c, t) && t.Bin? && t.left.Bin? && elm !in AllNodes(c, t)
    ensures var m' := Replace(m, t.node, elm);
            && Get(m', elm) == Get(m, t.node)
            && Get(m', t.left.node) == Get(m, t.left.node).(parent := elm)
            && (t.right.Bin? ==> Get(m', t.right.node) == Get(m, t.right.node).(parent := elm))
            && m'.root == (if c.Top? then elm else m.root)
            && (!c.Top? ==> Get(m', c.node) == Frame(c, elm))
            && (forall n :: n in AllNodes(c, t) && n != t.left.node && n != Ptr(t.right) && n != ParentOf(c) ==>
                  Get(m', n) == Get(m, n))
  {
    TopIn(t.left);
    TopIn(t.right);
    assert Nodes(t) == Nodes(t.left) + {t.node} + Nodes(t.right);
    if !c.Top? {
      ContextNodeApart(c, t);
      LeftField(m, c, t);
      assert c.node in ContextNodes(c);
    }
  }

  // ---------------------------------------------------------------------------------------------
  // The way down from one node to another
  // ---------------------------------------------------------------------------------------------

  /** First down base, then down rel. */
  function Graft(rel: Context, base: Context): Context {
    match rel
    case Top => base
    case InLeft(up, n, red, r) => InLeft(Graft(up, base), n, red, r)
    case InRight(l, n, red, up) => InRight(l, n, red, Graft(up, base))
  }

  lemma {:induction false} AtGraft(m: Memory, rel: Context, base: Context, t: Tree)
    ensures At(m, Graft(rel, base), t) <==> At(m, base, Plug(rel, t))
    ensures AllNodes(Graft(rel, base), t) == AllNodes(base, Plug(rel, t))
    ensures Plug(Graft(rel, base), t) == Plug(base, Plug(rel, t))
  {
    if !rel.Top? {
      AtZip(m, Graft(rel, base), t);
      AllNodesZip(Graft(rel, base), t);
      AtGraft(m, rel.up, base, Zip(rel, t));
    }
  }

  /** Every step goes left. */
  predicate AllLeft(c: Context) {
    c.Top? || (c.InLeft? && AllLeft(c.up))
  }

  lemma {:induction false} GraftContents(rel: Context, base: Context)
    requires AllLeft(rel)
    ensures Before(Graft(rel, base)) == Before(base)
    ensures After(Graft(rel, base)) == After(rel) + After(base)
  {
    if !rel.Top? {
      GraftContents(rel.up, base);
    }
  }

  lemma {:induction false} GraftBalanced(rel: Context, base: Context, base': Context, h: nat)
    requires BalancedAround(Graft(rel, base), h)
    requires !base.Top? && !base'.Top? && base.red == base'.red
    requires forall k :: BalancedAround(base, k) ==> BalancedAround(base', k)
    ensures BalancedAround(Graft(rel, base'), h)
  {
    if !rel.Top? {
      GraftBalanced(rel.up, base, base', if rel.red then h else h + 1);
    }
  }

  /** A new red leaf fills the hole. */
  lemma AttachAt(m: Memory, c: Context, elm: Node)
    requires At(m, c, Leaf) && elm !in ContextNodes(c)
    ensures var m1 := Put(m, elm, Cell(null, null, ParentOf(c), true));
            At(if c.Top? then m1.(root := elm)
               else if c.InLeft? then SetLeft(m1, c.node, elm) else SetRight(m1, c.node, elm),
               c, Bin(Leaf, elm, true, Leaf))
  {
    var m1 := Put(m, elm, Cell(null, null, ParentOf(c), true));
    var m' := if c.Top? then m1.(root := elm)
              else if c.InLeft? then SetLeft(m1, c.node, elm) else SetRight(m1, c.node, elm);
    assert !c.Top? ==> c.node in ContextNodes(c);
    ContextTop(m, m', c, null, elm);
  }

  predicate AllRight(c: Context) {
    c.Top? || (c.InRight? && AllRight(c.up))
  }

  lemma {:induction false} AllLeftBefore(c: Context)
    requires AllLeft(c)
    ensures Before(c) == []
    ensures !c.Top? ==> After(c) != [] && After(c)[0] == c.node
  {
    if !c.Top? {
      AllLeftBefore(c.up);
    }
  }

  lemma {:induction false} AllRightAfter(c: Context)
    requires AllRight(c)
    ensures After(c) == []
    ensures !c.Top? ==> Before(c) != [] && Before(c)[|Before(c)| - 1] == c.node
  {
    if !c.Top? {
      AllRightAfter(c.up);
    }
  }

  /** What splicing out the successor leaves is balanced, or one black node short below its context. */
  lemma SuccessorBalanced(c: Context, t: Tree, rel: Context, s: Tree) returns (h: nat)
    requires IsRedBlack(Plug(c, t)) && t.Bin? && s.Bin? && s.left.Leaf? && Plug(rel, s) == t.right
    ensures var c' := Graft(rel, InRight(t.left, s.node, t.red, c));
            if s.red then IsRedBlack(Plug(c', s.right)) else RemoveState(c', s.right, h)
  {
    var base, base' := InRight(t.left, t.node, t.red, c), InRight(t.left, s.node, t.red, c);
    AtGraft(Memory(null, map[]), rel, base, s);
    var k := UnplugBalanced(Graft(rel, base), s);
    forall j | BalancedAround(base, j) ensures BalancedAround(base', j) {
    }
    GraftBalanced(rel, base, base', k);
    var c' := Graft(rel, base');
    h := if k == 0 then 0 else k - 1;
    if s.red {
      PlugBalanced(c', s.right, k);
    }
  }

  lemma Regroup(x: seq<Node>, n: Node, q: seq<Node>, u: seq<Node>, v: seq<Node>)
    ensures (x + [n]) + q + (u + v) == x + (([n] + q + u) + v)
  {
  }

  /** With the successor in its place the nodes around the replaced one are as before. */
  lemma SuccessorOrder(c: Context, t: Tree, rel: Context, s: Tree)
    requires t.Bin? && s.Bin? && s.left.Leaf? && Plug(rel, s) == t.right && AllLeft(rel)
    ensures Contents(Graft(rel, InRight(t.left, s.node, t.red, c)), s.right)
         == Before(c) + Inorder(t.left) + (Inorder(t.right) + After(c))
  {
    InorderPlug(rel, s);
    AllLeftBefore(rel);
    GraftContents(rel, InRight(t.left, s.node, t.red, c));
    assert Inorder(t.right) == [s.node] + Inorder(s.right) + After(rel);
    Regroup(Before(c) + Inorder(t.left), s.node, Inorder(s.right), After(rel), After(c));
  }

  /** Taking the successor's place leaves out exactly the node replaced. */
  lemma SuccessorContents(c: Context, t: Tree, rel: Context, s: Tree)
    requires t.Bin? && s.Bin? && s.left.Leaf? && Plug(rel, s) == t.right && AllLeft(rel) && Sorted(Contents(c, t))
    ensures var c' := Graft(rel, InRight(t.left, s.node, t.red, c));
            Sorted(Contents(c', s.right)) && OneMore(Contents(c', s.right), t.node, Contents(c, t))
  {
    var x := Before(c) + Inorder(t.left);
    var y := Inorder(t.right) + After(c);
    SuccessorOrder(c, t, rel, s);
    ContentsBin(c, t);
    OneMoreAt(x, t.node, y);
    SortedRemove(x, t.node, y);
  }
}
