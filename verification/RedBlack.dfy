/**
  The red-black tree of src/common/systree.h as a value: what the links, parents and colours of the
  nodes spell out, and what the two recolouring loops do to it.

  A position in a tree is a pair of a context (the way up to the root, with everything that hangs off
  it) and the subtree below. The recolouring loops walk up, so AfterInsertColor and AfterRemoveColor recurse on
  the context.
 */
module RedBlack {
  import opened Ordering
  import opened Powers

  class Node {
    const key: string
    const value: string
    var left: Node?
    var right: Node?
    var parent: Node?
    var red: bool

    constructor (key: string, value: string)
      ensures this.key == key && this.value == value
    {
      this.key, this.value := key, value;
      left, right, parent, red := null, null, null, false;
    }
  }

  datatype Tree = Leaf | Bin(left: Tree, node: Node, red: bool, right: Tree)

  /** A tree with a hole in it. */
  datatype Context =
    | Top
    | InLeft(up: Context, node: Node, red: bool, right: Tree)
    | InRight(left: Tree, node: Node, red: bool, up: Context)

  function Plug(c: Context, t: Tree): Tree {
    match c
    case Top => t
    case InLeft(up, n, red, r) => Plug(up, Bin(t, n, red, r))
    case InRight(l, n, red, up) => Plug(up, Bin(l, n, red, t))
  }

  function Inorder(t: Tree): seq<Node> {
    if t.Leaf? then [] else Inorder(t.left) + [t.node] + Inorder(t.right)
  }

  /** The nodes that come before the hole. */
  function Before(c: Context): seq<Node> {
    match c
    case Top => []
    case InLeft(up, _, _, _) => Before(up)
    case InRight(l, n, _, up) => Before(up) + Inorder(l) + [n]
  }

  /** The nodes that come after the hole. */
  function After(c: Context): seq<Node> {
    match c
    case Top => []
    case InLeft(up, n, _, r) => [n] + Inorder(r) + After(up)
    case InRight(_, _, _, up) => After(up)
  }

  lemma {:induction false} InorderPlug(c: Context, t: Tree)
    ensures Inorder(Plug(c, t)) == Before(c) + Inorder(t) + After(c)
  {
    match c
    case Top =>
    case InLeft(up, n, red, r) => InorderPlug(up, Bin(t, n, red, r));
    case InRight(l, n, red, up) => InorderPlug(up, Bin(l, n, red, t));
  }

  // ---------------------------------------------------------------------------------------------
  // Colours
  // ---------------------------------------------------------------------------------------------

  predicate IsRed(t: Tree) {
    t.Bin? && t.red
  }

  /** Valid below this point, with h black nodes on every way down and no red node with a red child. */
  predicate Balanced(t: Tree, h: nat) {
    match t
    case Leaf => h == 0
    case Bin(l, _, red, r) =>
      if red then !IsRed(l) && !IsRed(r) && Balanced(l, h) && Balanced(r, h)
      else h > 0 && Balanced(l, h - 1) && Balanced(r, h - 1)
  }

  predicate RedTop(c: Context) {
    !c.Top? && c.red
  }

  /** Valid around a hole that is to be filled with a valid black-topped tree of black height h. */
  predicate BalancedAround(c: Context, h: nat) {
    match c
    case Top => true
    case InLeft(up, _, red, r) =>
      && Balanced(r, h)
      && (red ==> !IsRed(r) && !up.Top? && !up.red)
      && BalancedAround(up, if red then h else h + 1)
    case InRight(l, _, red, up) =>
      && Balanced(l, h)
      && (red ==> !IsRed(l) && !up.Top? && !up.red)
      && BalancedAround(up, if red then h else h + 1)
  }

  function BlackHeight(t: Tree): nat {
    if t.Leaf? then 0 else BlackHeight(t.left) + if t.red then 0 else 1
  }

  /** A red-black tree: black at the root, no red child of a red node, equal black heights. */
  predicate IsRedBlack(t: Tree) {
    !IsRed(t) && Balanced(t, BlackHeight(t))
  }

  lemma {:induction false} BalancedHeight(t: Tree, h: nat)
    requires Balanced(t, h)
    ensures BlackHeight(t) == h
  {
    if t.Bin? {
      BalancedHeight(t.left, if t.red then h else h - 1);
    }
  }

  function Blacken(t: Tree): Tree {
    if t.Leaf? then t else t.(red := false)
  }

  lemma {:induction false} PlugBalanced(c: Context, t: Tree, h: nat)
    requires BalancedAround(c, h) && Balanced(t, h)
    requires IsRed(t) ==> !c.Top? && !c.red
    ensures IsRedBlack(Plug(c, t))
  {
    match c
    case Top => BalancedHeight(t, h);
    case InLeft(up, n, red, r) => PlugBalanced(up, Bin(t, n, red, r), if red then h else h + 1);
    case InRight(l, n, red, up) => PlugBalanced(up, Bin(l, n, red, t), if red then h else h + 1);
  }

  /** The other way round: a red-black tree is valid at and around every position. */
  lemma {:induction false} UnplugBalanced(c: Context, t: Tree) returns (h: nat)
    requires IsRedBlack(Plug(c, t))
    ensures Balanced(t, h) && BalancedAround(c, h)
    ensures IsRed(t) ==> !c.Top? && !c.red
  {
    match c
    case Top => h := BlackHeight(t);
    case InLeft(up, n, red, r) =>
      var h1 := UnplugBalanced(up, Bin(t, n, red, r));
      h := if red then h1 else h1 - 1;
    case InRight(l, n, red, up) =>
      var h1 := UnplugBalanced(up, Bin(l, n, red, t));
      h := if red then h1 else h1 - 1;
  }

  // ---------------------------------------------------------------------------------------------
  // Height
  // ---------------------------------------------------------------------------------------------

  function Height(t: Tree): nat {
    if t.Leaf? then 0
    else 1 + if Height(t.left) > Height(t.right) then Height(t.left) else Height(t.right)
  }

  lemma {:induction false} BlackHeightBound(t: Tree, h: nat)
    requires Balanced(t, h)
    ensures Pow2(h) <= |Inorder(t)| + 1
    ensures Height(t) <= 2 * h + if IsRed(t) then 1 else 0
  {
    if t.Bin? {
      BlackHeightBound(t.left, if t.red then h else h - 1);
      BlackHeightBound(t.right, if t.red then h else h - 1);
    }
  }

  lemma SquareMonotone(a: nat, b: nat)
    requires a <= b
    ensures a * a <= b * b
  {
    assert a * a <= a * b <= b * b;
  }

  /** The height of a red-black tree of n nodes is at most 2 lg (n + 1). */
  lemma HeightBound(t: Tree)
    requires IsRedBlack(t)
    ensures Pow2(Height(t)) <= (|Inorder(t)| + 1) * (|Inorder(t)| + 1)
  {
    var h := BlackHeight(t);
    BlackHeightBound(t, h);
    Pow2Monotone(Height(t), h + h);
    Pow2Sum(h, h);
    SquareMonotone(Pow2(h), |Inorder(t)| + 1);
  }

  // ---------------------------------------------------------------------------------------------
  // RB_INSERT_COLOR
  // ---------------------------------------------------------------------------------------------

  /** The root is black. */
  predicate Rooted(c: Context) {
    c.Top? || if c.up.Top? then !c.red else Rooted(c.up)
  }

  lemma {:induction false} BalancedRooted(c: Context, h: nat)
    requires BalancedAround(c, h)
    ensures Rooted(c)
  {
    if !c.Top? {
      BalancedRooted(c.up, if c.red then h else h + 1);
    }
  }

  /**
    What one round of the loop makes of the grandparent's subtree: red at the top if the uncle was red
    and the loop goes on there, black at the top if a rotation has ended it.
   */
  function InsertStep(c: Context, t: Tree): Tree
    requires RedTop(c) && !c.up.Top? && t.Bin?
  {
    match c
    case InLeft(InLeft(_, g, _, u), p, _, s) =>
      if IsRed(u) then Bin(Bin(t, p, false, s), g, true, Blacken(u))
      else Bin(t, p, false, Bin(s, g, true, u))
    case InRight(s, p, _, InLeft(_, g, _, u)) =>
      if IsRed(u) then Bin(Bin(s, p, false, t), g, true, Blacken(u))
      else Bin(Bin(s, p, true, t.left), t.node, false, Bin(t.right, g, true, u))
    case InRight(s, p, _, InRight(u, g, _, _)) =>
      if IsRed(u) then Bin(Blacken(u), g, true, Bin(s, p, false, t))
      else Bin(Bin(u, g, true, s), p, false, t)
    case InLeft(InRight(u, g, _, _), p, _, s) =>
      if IsRed(u) then Bin(Blacken(u), g, true, Bin(t, p, false, s))
      else Bin(Bin(u, g, true, t.left), t.node, false, Bin(t.right, p, true, s))
  }

  /** The tree after the loop, entered with a red node t.node in context c. */
  function AfterInsertColor(c: Context, t: Tree): Tree
    requires Rooted(c) && t.Bin?
  {
    if !RedTop(c) then Blacken(Plug(c, t))
    else
      assert Rooted(c.up) && Rooted(c.up.up);
      var n := InsertStep(c, t);
      if n.red then AfterInsertColor(c.up.up, n) else Blacken(Plug(c.up.up, n))
  }

  lemma InsertStepInorder(c: Context, t: Tree)
    requires RedTop(c) && !c.up.Top? && t.Bin?
    ensures Inorder(InsertStep(c, t)) == Inorder(Zip(c.up, Zip(c, t)))
  {
    match c
    case InLeft(InLeft(_, g, _, u), p, _, s) =>
      BlackenInorder(u);
      RotateContents(t, p, s, g, u, false, true, false, true);
    case InRight(s, p, _, InLeft(_, g, _, u)) =>
      BlackenInorder(u);
      DoubleRotateContents(s, p, t.left, t.node, t.right, g, u,
                           [c.red, t.red, c.up.red, true, false, true, false, false, false]);
    case InRight(s, p, _, InRight(u, g, _, _)) =>
      BlackenInorder(u);
      RotateContents(u, g, s, p, t, true, false, c.up.red, c.red);
    case InLeft(InRight(u, g, _, _), p, _, s) =>
      BlackenInorder(u);
      DoubleRotateContents(u, g, t.left, t.node, t.right, p, s,
                           [false, false, false, true, false, true, c.up.red, t.red, c.red]);
  }

  lemma BlackenInorder(t: Tree)
    ensures Inorder(Blacken(t)) == Inorder(t)
  {
  }

  /** A valid context around a subtree whose red root may still offend its parent. */
  predicate InsertState(c: Context, t: Tree, h: nat) {
    && t.Bin? && t.red
    && Balanced(t, h)
    && BalancedAround(c, h)
  }

  lemma FinishInsert(c: Context, t: Tree, h: nat)
    requires BalancedAround(c, h) && Balanced(t, h) && !RedTop(c)
    ensures IsRedBlack(Blacken(Plug(c, t)))
  {
    if c.Top? {
      BalancedHeight(Blacken(t), if IsRed(t) then h + 1 else h);
    } else {
      PlugBalanced(c, t, h);
    }
  }

  lemma InsertStepBalanced(c: Context, t: Tree, h: nat)
    requires RedTop(c) && InsertState(c, t, h)
    ensures !c.up.Top? && Balanced(InsertStep(c, t), h + 1) && BalancedAround(c.up.up, h + 1)
  {
    assert BalancedAround(c.up, h);
  }

  lemma {:induction false} InsertColorBalanced(c: Context, t: Tree, h: nat)
    requires Rooted(c) && InsertState(c, t, h)
    ensures IsRedBlack(AfterInsertColor(c, t))
  {
    if !RedTop(c) {
      FinishInsert(c, t, h);
    } else {
      assert Rooted(c.up) && Rooted(c.up.up);
      InsertStepBalanced(c, t, h);
      if InsertStep(c, t).red {
        InsertColorBalanced(c.up.up, InsertStep(c, t), h + 1);
      } else {
        PlugBalanced(c.up.up, InsertStep(c, t), h + 1);
      }
    }
  }

  /** What the whole tree holds, in order, when t fills the hole. */
  function Contents(c: Context, t: Tree): seq<Node> {
    Before(c) + Inorder(t) + After(c)
  }

  /** The frame of the context and its hole, as one subtree. */
  function Zip(c: Context, t: Tree): Tree
    requires !c.Top?
  {
    if c.InLeft? then Bin(t, c.node, c.red, c.right) else Bin(c.left, c.node, c.red, t)
  }

  lemma ZipContents(c: Context, t: Tree)
    requires !c.Top?
    ensures Contents(c.up, Zip(c, t)) == Contents(c, t)
  {
  }

  lemma RotateContents(a: Tree, x: Node, b: Tree, y: Node, d: Tree, r0: bool, r1: bool, r2: bool, r3: bool)
    ensures Inorder(Bin(Bin(a, x, r0, b), y, r1, d)) == Inorder(Bin(a, x, r2, Bin(b, y, r3, d)))
  {
  }

  /** Left-right and right-left double rotations. */
  lemma DoubleRotateContents(a: Tree, x: Node, b: Tree, y: Node, d: Tree, z: Node, e: Tree, r: seq<bool>)
    requires |r| == 9
    ensures Inorder(Bin(Bin(a, x, r[0], Bin(b, y, r[1], d)), z, r[2], e))
         == Inorder(Bin(Bin(a, x, r[3], b), y, r[4], Bin(d, z, r[5], e)))
         == Inorder(Bin(a, x, r[6], Bin(Bin(b, y, r[7], d), z, r[8], e)))
  {
    RotateContents(a, x, Bin(b, y, r[1], d), z, e, r[0], r[2], r[6], r[8]);
    RotateContents(a, x, b, y, Bin(d, z, r[5], e), r[3], r[4], r[6], r[8]);
    RotateContents(b, y, d, z, e, r[1], r[8], r[8], r[5]);
    RotateContents(b, y, d, z, e, r[7], r[8], r[8], r[5]);
  }

  lemma PlugContents(c: Context, t: Tree)
    ensures Inorder(Plug(c, t)) == Inorder(Blacken(Plug(c, t))) == Contents(c, t)
  {
    InorderPlug(c, t);
  }

  lemma SameInorder(c: Context, t: Tree, t': Tree)
    requires Inorder(t) == Inorder(t')
    ensures Contents(c, t) == Contents(c, t')
  {
  }

  lemma {:induction false} InsertColorInorder(c: Context, t: Tree)
    requires Rooted(c) && t.Bin?
    ensures Inorder(AfterInsertColor(c, t)) == Contents(c, t)
  {
    if !RedTop(c) {
      PlugContents(c, t);
    } else {
      assert Rooted(c.up) && Rooted(c.up.up);
      ZipContents(c, t);
      ZipContents(c.up, Zip(c, t));
      var n := InsertStep(c, t);
      InsertStepInorder(c, t);
      SameInorder(c.up.up, Zip(c.up, Zip(c, t)), n);
      if n.red {
        InsertColorInorder(c.up.up, n);
      } else {
        PlugContents(c.up.up, n);
      }
    }
  }

  // ---------------------------------------------------------------------------------------------
  // RB_REMOVE_COLOR
  // ---------------------------------------------------------------------------------------------

  function Depth(c: Context): nat {
    if c.Top? then 0 else 1 + Depth(c.up)
  }

  function Sibling(c: Context): Tree
    requires !c.Top?
  {
    if c.InLeft? then c.right else c.left
  }

  /** A red sibling goes up and its near child becomes the sibling. */
  function RedSiblingStep(c: Context): Context
    requires !c.Top? && Sibling(c).Bin?
  {
    match c
    case InLeft(up, p, _, Bin(l, s, _, r)) => InLeft(InLeft(up, s, false, r), p, true, l)
    case InRight(Bin(l, s, _, r), p, _, up) => InRight(r, p, true, InRight(l, s, false, up))
  }

  /** The sibling can be made red, which moves the missing black up to the parent. */
  predicate GoesOn(c: Context)
    requires !c.Top? && Sibling(c).Bin?
  {
    !IsRed(Sibling(c).left) && !IsRed(Sibling(c).right)
  }

  /** What one round makes of the parent's subtree when the sibling is black. */
  function BlackSiblingStep(c: Context, t: Tree): Tree
    requires !c.Top? && Sibling(c).Bin?
  {
    match c
    case InLeft(_, p, red, Bin(l, s, _, r)) =>
      if !IsRed(l) && !IsRed(r) then Bin(t, p, red, Bin(l, s, true, r))
      else if !IsRed(r) then Bin(Bin(t, p, false, l.left), l.node, red, Bin(l.right, s, false, r))
      else Bin(Bin(t, p, false, l), s, red, Blacken(r))
    case InRight(Bin(l, s, _, r), p, red, _) =>
      if !IsRed(l) && !IsRed(r) then Bin(Bin(l, s, true, r), p, red, t)
      else if !IsRed(l) then Bin(Bin(l, s, false, r.left), r.node, red, Bin(r.right, p, false, t))
      else Bin(Blacken(l), s, red, Bin(r, p, false, t))
  }

  /** One black node short of h + 1, which a red root could make up by turning black. */
  predicate Short(t: Tree, h: nat) {
    if IsRed(t) then Balanced(Blacken(t), h + 1) else Balanced(t, h)
  }

  predicate RemoveState(c: Context, t: Tree, h: nat) {
    BalancedAround(c, h + 1) && Short(t, h)
  }

  lemma RedSiblingBalanced(c: Context, t: Tree, h: nat)
    requires RemoveState(c, t, h) && !c.Top? && IsRed(Sibling(c))
    ensures RemoveState(RedSiblingStep(c), t, h) && !IsRed(Sibling(RedSiblingStep(c)))
  {
  }

  lemma SiblingExists(c: Context, t: Tree, h: nat)
    requires RemoveState(c, t, h) && !c.Top?
    ensures Sibling(c).Bin?
  {
  }

  /** The context in which the sibling is black. */
  function WithBlackSibling(c: Context): Context
    requires !c.Top? && Sibling(c).Bin?
  {
    if IsRed(Sibling(c)) then RedSiblingStep(c) else c
  }

  lemma BlackSiblingBalanced(c: Context, t: Tree, h: nat)
    requires RemoveState(c, t, h) && !c.Top? && !IsRed(t) && !IsRed(Sibling(c)) && Sibling(c).Bin?
    ensures GoesOn(c) ==> RemoveState(c.up, BlackSiblingStep(c, t), if c.red then h else h + 1)
    ensures GoesOn(c) ==> BlackSiblingStep(c, t).red == c.red
    ensures !GoesOn(c) ==> Balanced(BlackSiblingStep(c, t), if c.red then h + 1 else h + 2)
    ensures !GoesOn(c) ==> BalancedAround(c.up, if c.red then h + 1 else h + 2)
    ensures IsRed(BlackSiblingStep(c, t)) ==> !c.up.Top? && !c.up.red
  {
    var n := BlackSiblingStep(c, t);
    assert Balanced(Sibling(c).left, h) && Balanced(Sibling(c).right, h);
    assert !GoesOn(c) ==> Balanced(n.left, h + 1) && Balanced(n.right, h + 1);
  }

  /** The tree after the loop, entered with a subtree that is one black node short. */
  function AfterRemoveColor(c: Context, t: Tree, h: nat): Tree
    requires RemoveState(c, t, h)
    decreases 2 * Depth(c) + (if IsRed(t) then 0 else 1), 0
  {
    if c.Top? || IsRed(t) then Plug(c, Blacken(t))
    else
      SiblingExists(c, t, h);
      if IsRed(Sibling(c)) then RedSiblingBalanced(c, t, h); AfterBlackSibling(WithBlackSibling(c), t, h)
      else AfterBlackSibling(c, t, h)
  }

  function AfterBlackSibling(c: Context, t: Tree, h: nat): Tree
    requires RemoveState(c, t, h) && !c.Top? && !IsRed(t) && !IsRed(Sibling(c))
    decreases 2 * Depth(c.up) + (if c.red then 0 else 1), 1
  {
    SiblingExists(c, t, h);
    BlackSiblingBalanced(c, t, h);
    var n := BlackSiblingStep(c, t);
    if GoesOn(c) then AfterRemoveColor(c.up, n, if c.red then h else h + 1)
    else Blacken(Plug(c.up, n))
  }

  /** What a round with a black sibling leaves to be done. */
  lemma NextRemove(c: Context, t: Tree, h: nat)
    requires RemoveState(c, t, h) && !c.Top? && !IsRed(t) && !IsRed(Sibling(c)) && Sibling(c).Bin?
    ensures var n, k := BlackSiblingStep(c, t), if c.red then h else h + 1;
            if GoesOn(c) then
              n.node == c.node && RemoveState(c.up, n, k) && AfterBlackSibling(c, t, h) == AfterRemoveColor(c.up, n, k)
            else AfterBlackSibling(c, t, h) == Blacken(Plug(c.up, n))
    ensures GoesOn(c) ==> BlackSiblingStep(c, t).red == c.red
  {
    BlackSiblingBalanced(c, t, h);
  }

  lemma {:induction false} RemoveColorBalanced(c: Context, t: Tree, h: nat)
    requires RemoveState(c, t, h)
    ensures IsRedBlack(AfterRemoveColor(c, t, h))
    decreases 2 * Depth(c) + (if IsRed(t) then 0 else 1), 0
  {
    if IsRed(t) {
      PlugBalanced(c, Blacken(t), h + 1);
    } else if c.Top? {
      BalancedHeight(t, h);
    } else {
      SiblingExists(c, t, h);
      if IsRed(Sibling(c)) {
        RedSiblingBalanced(c, t, h);
      }
      RemoveBlackBalanced(WithBlackSibling(c), t, h);
    }
  }

  lemma {:induction false} RemoveBlackBalanced(c: Context, t: Tree, h: nat)
    requires RemoveState(c, t, h) && !c.Top? && !IsRed(t) && !IsRed(Sibling(c))
    ensures IsRedBlack(AfterBlackSibling(c, t, h))
    decreases 2 * Depth(c.up) + (if c.red then 0 else 1), 1
  {
    SiblingExists(c, t, h);
    BlackSiblingBalanced(c, t, h);
    var n := BlackSiblingStep(c, t);
    if GoesOn(c) {
      RemoveColorBalanced(c.up, n, if c.red then h else h + 1);
    } else {
      PlugBalanced(c.up, n, if c.red then h + 1 else h + 2);
    }
  }

  lemma RedSiblingInorder(c: Context, t: Tree)
    requires !c.Top? && Sibling(c).Bin?
    ensures var c' := RedSiblingStep(c); Inorder(Zip(c'.up, Zip(c', t))) == Inorder(Zip(c, t))
  {
    match c
    case InLeft(up, p, red, Bin(l, s, red', r)) => RotateContents(t, p, l, s, r, true, false, red, red');
    case InRight(Bin(l, s, red', r), p, red, up) => RotateContents(l, s, r, p, t, red', red, false, true);
  }

  lemma BlackSiblingInorder(c: Context, t: Tree)
    requires !c.Top? && Sibling(c).Bin?
    ensures Inorder(BlackSiblingStep(c, t)) == Inorder(Zip(c, t))
  {
    match c
    case InLeft(_, p, red, Bin(l, s, red', r)) =>
      BlackenInorder(r);
      RotateContents(t, p, l, s, r, false, red, red, red');
      if IsRed(l) {
        DoubleRotateContents(t, p, l.left, l.node, l.right, s, r,
                             [false, false, false, false, red, false, red, l.red, red']);
      }
    case InRight(Bin(l, s, red', r), p, red, _) =>
      BlackenInorder(l);
      RotateContents(l, s, r, p, t, red', red, red, false);
      if IsRed(r) {
        DoubleRotateContents(l, s, r.left, r.node, r.right, p, t,
                             [red', r.red, red, false, red, false, false, false, false]);
      }
  }

  lemma {:induction false} RemoveColorInorder(c: Context, t: Tree, h: nat)
    requires RemoveState(c, t, h)
    ensures Inorder(AfterRemoveColor(c, t, h)) == Contents(c, t)
    decreases 2 * Depth(c) + (if IsRed(t) then 0 else 1), 0
  {
    if c.Top? || IsRed(t) {
      BlackenInorder(t);
      PlugContents(c, Blacken(t));
    } else {
      SiblingExists(c, t, h);
      ZipContents(c, t);
      if IsRed(Sibling(c)) {
        var c' := RedSiblingStep(c);
        RedSiblingBalanced(c, t, h);
        RedSiblingInorder(c, t);
        ZipContents(c', t);
        ZipContents(c'.up, Zip(c', t));
        SameInorder(c.up, Zip(c, t), Zip(c'.up, Zip(c', t)));
        RemoveBlackInorder(c', t, h);
      } else {
        RemoveBlackInorder(c, t, h);
      }
    }
  }

  lemma {:induction false} RemoveBlackInorder(c: Context, t: Tree, h: nat)
    requires RemoveState(c, t, h) && !c.Top? && !IsRed(t) && !IsRed(Sibling(c))
    ensures Inorder(AfterBlackSibling(c, t, h)) == Contents(c, t)
    decreases 2 * Depth(c.up) + (if c.red then 0 else 1), 1
  {
    SiblingExists(c, t, h);
    BlackSiblingBalanced(c, t, h);
    BlackSiblingInorder(c, t);
    var n := BlackSiblingStep(c, t);
    ZipContents(c, t);
    SameInorder(c.up, Zip(c, t), n);
    if GoesOn(c) {
      RemoveColorInorder(c.up, n, if c.red then h else h + 1);
    } else {
      PlugContents(c.up, n);
    }
  }

  // ---------------------------------------------------------------------------------------------
  // Search order
  // ---------------------------------------------------------------------------------------------

  predicate Sorted(ns: seq<Node>) {
    forall i, j :: 0 <= i < j < |ns| ==> Less(ns[i].key, ns[j].key)
  }

  /** Everything before the hole is less than the key and everything after it greater. */
  predicate Around(c: Context, key: string) {
    && (forall n :: n in Before(c) ==> Less(n.key, key))
    && (forall n :: n in After(c) ==> Less(key, n.key))
  }

  lemma ContentsBin(c: Context, t: Tree)
    requires t.Bin?
    ensures Contents(c, t) == (Before(c) + Inorder(t.left)) + [t.node] + (Inorder(t.right) + After(c))
  {
  }

  lemma SplitAt(a: seq<Node>, n: Node, b: seq<Node>)
    ensures (a + [n] + b)[|a|] == n && (a + [n] + b)[|a| + 1..] == b
  {
  }

  lemma SortedSplit(a: seq<Node>, n: Node, b: seq<Node>)
    requires Sorted(a + [n] + b)
    ensures forall x :: x in a ==> Less(x.key, n.key)
    ensures forall x :: x in b ==> Less(n.key, x.key)
  {
    var s := a + [n] + b;
    assert s[|a|] == n;
    forall x | x in a ensures Less(x.key, n.key) {
      var i :| 0 <= i < |a| && a[i] == x;
      assert s[i] == x;
    }
    forall x | x in b ensures Less(n.key, x.key) {
      var i :| 0 <= i < |b| && b[i] == x;
      assert s[|a| + 1 + i] == x;
    }
  }

  lemma AroundLeft(c: Context, t: Tree, key: string)
    requires t.Bin? && Around(c, key) && Sorted(Contents(c, t)) && Less(key, t.node.key)
    ensures Around(InLeft(c, t.node, t.red, t.right), key)
  {
    ContentsBin(c, t);
    SortedSplit(Before(c) + Inorder(t.left), t.node, Inorder(t.right) + After(c));
    forall n | n in After(InLeft(c, t.node, t.red, t.right)) ensures Less(key, n.key) {
      if n != t.node {
        assert n in Inorder(t.right) + After(c);
        LessTransitive(key, t.node.key, n.key);
      }
    }
  }

  lemma AroundRight(c: Context, t: Tree, key: string)
    requires t.Bin? && Around(c, key) && Sorted(Contents(c, t)) && Less(t.node.key, key)
    ensures Around(InRight(t.left, t.node, t.red, c), key)
  {
    ContentsBin(c, t);
    SortedSplit(Before(c) + Inorder(t.left), t.node, Inorder(t.right) + After(c));
    forall n | n in Before(InRight(t.left, t.node, t.red, c)) ensures Less(n.key, key) {
      if n != t.node {
        assert n in Before(c) + Inorder(t.left);
        LessTransitive(n.key, t.node.key, key);
      }
    }
  }

  /** A node at a hole that its key fits keeps the order. */
  lemma SortedInsert(c: Context, elm: Node)
    requires Sorted(Contents(c, Leaf)) && Around(c, elm.key)
    ensures Sorted(Before(c) + [elm] + After(c))
  {
    var old_, new_ := Contents(c, Leaf), Before(c) + [elm] + After(c);
    assert old_ == Before(c) + After(c);
    var k := |Before(c)|;
    forall i, j | 0 <= i < j < |new_| ensures Less(new_[i].key, new_[j].key) {
      assert i < k ==> new_[i] == old_[i] && new_[i] in Before(c);
      assert j < k ==> new_[j] == old_[j];
      assert i > k ==> new_[i] == old_[i - 1];
      assert j > k ==> new_[j] == old_[j - 1] && new_[j] in After(c);
    }
  }

  lemma SortedRemove(a: seq<Node>, n: Node, b: seq<Node>)
    requires Sorted(a + [n] + b)
    ensures Sorted(a + b)
  {
    var s, r := a + [n] + b, a + b;
    forall i, j | 0 <= i < j < |r| ensures Less(r[i].key, r[j].key) {
      assert r[i] == s[if i < |a| then i else i + 1];
      assert r[j] == s[if j < |a| then j else j + 1];
    }
  }

  lemma SortedDistinct(ns: seq<Node>, i: nat, j: nat)
    requires Sorted(ns) && i < |ns| && j < |ns| && ns[i].key == ns[j].key
    ensures i == j
  {
    CompareEqual(ns[i].key, ns[j].key);
  }

  /** The place of a node in the tree. */
  lemma {:induction false} Locate(t: Tree, n: Node) returns (c: Context, s: Tree)
    requires n in Inorder(t)
    ensures Plug(c, s) == t && s.Bin? && s.node == n
  {
    if t.node == n {
      c, s := Top, t;
    } else if n in Inorder(t.left) {
      c, s := Locate(t.left, n);
      c := PlugUnder(c, s, InLeft(Top, t.node, t.red, t.right));
    } else {
      c, s := Locate(t.right, n);
      c := PlugUnder(c, s, InRight(t.left, t.node, t.red, Top));
    }
  }

  lemma {:induction false} PlugUnder(c: Context, s: Tree, base: Context) returns (c': Context)
    ensures Plug(c', s) == Plug(base, Plug(c, s))
  {
    match c
    case Top => c' := base;
    case InLeft(up, n, red, r) =>
      var up' := PlugUnder(up, Bin(s, n, red, r), base);
      c' := InLeft(up', n, red, r);
    case InRight(l, n, red, up) =>
      var up' := PlugUnder(up, Bin(l, n, red, s), base);
      c' := InRight(l, n, red, up');
  }

  lemma NotAmong(c: Context, key: string)
    requires Around(c, key)
    ensures forall n :: n in Contents(c, Leaf) ==> n.key != key
  {
    forall n | n in Contents(c, Leaf) ensures n.key != key {
      assert n in Before(c) || n in After(c);
      CompareEqual(n.key, key);
      CompareEqual(key, n.key);
    }
  }

  /** b is a with n put in somewhere. */
  predicate OneMore(a: seq<Node>, n: Node, b: seq<Node>) {
    exists i :: 0 <= i <= |a| && b == a[..i] + [n] + a[i..]
  }

  lemma OneMoreAt(x: seq<Node>, n: Node, y: seq<Node>)
    ensures OneMore(x + y, n, x + [n] + y)
  {
    var a := x + y;
    assert a[..|x|] == x && a[|x|..] == y;
  }

  /** The tree with a new leaf, after recolouring. */
  lemma InsertedLeaf(c: Context, elm: Node, h: nat)
    requires Rooted(c) && InsertState(c, Bin(Leaf, elm, true, Leaf), h)
    requires Sorted(Before(c) + [elm] + After(c))
    ensures var t := AfterInsertColor(c, Bin(Leaf, elm, true, Leaf));
            IsRedBlack(t) && Inorder(t) == Before(c) + [elm] + After(c) && Sorted(Inorder(t))
  {
    var t := Bin(Leaf, elm, true, Leaf);
    InsertColorBalanced(c, t, h);
    InsertColorInorder(c, t);
    assert Inorder(t) == [elm];
  }

  function OnlyChild(t: Tree): Tree
    requires t.Bin? && (t.left.Leaf? || t.right.Leaf?)
  {
    if t.left.Leaf? then t.right else t.left
  }

  /** What splicing out leaves is balanced, or one black node short below its context. */
  lemma SpliceBalanced(c: Context, t: Tree, h: nat)
    requires Balanced(t, h) && BalancedAround(c, h) && (IsRed(t) ==> !c.Top? && !c.red)
    requires t.Bin? && (t.left.Leaf? || t.right.Leaf?)
    ensures if t.red then IsRedBlack(Plug(c, OnlyChild(t))) else h > 0 && RemoveState(c, OnlyChild(t), h - 1)
  {
    if t.red {
      PlugBalanced(c, OnlyChild(t), h);
    }
  }

  lemma SpliceContents(c: Context, t: Tree)
    requires t.Bin? && (t.left.Leaf? || t.right.Leaf?) && Sorted(Contents(c, t))
    ensures Sorted(Contents(c, OnlyChild(t))) && OneMore(Contents(c, OnlyChild(t)), t.node, Contents(c, t))
  {
    var x, y := Before(c) + Inorder(t.left), Inorder(t.right) + After(c);
    ContentsBin(c, t);
    assert Contents(c, OnlyChild(t)) == x + y;
    OneMoreAt(x, t.node, y);
    SortedRemove(x, t.node, y);
  }
}
