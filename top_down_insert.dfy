/**
 * Insert's top-down rebalancing on the value view: `HandleReorient`
 * (red_black_tree.cpp:331-364) and one turn of Insert's descent loop
 * (red_black_tree.cpp:48-62). The lemmas show that every turn keeps the tree
 * ordered and red-black, and that an ancestor pointer left stale by a rotation
 * is never the one a later rotation uses.
 */
module TopDownInsert {
  import opened RbSpec
  import opened TreeZipper

  /** The test at red_black_tree.cpp:54: both children present and red. */
  predicate HasTwoRedChildren(t: Tree)
  {
    t.Node? && IsRed(t.left) && IsRed(t.right)
  }

  /** A node whose children are both black or null. */
  predicate Quiet(t: Tree)
  {
    t.Node? && IsBlack(t.left) && IsBlack(t.right)
  }

  /** Lines 334-339: the children of the node, where present, are painted black. */
  function FlipChildren(t: Tree): (r: Tree)
    requires t.Node?
    ensures r.Node? && r.color == t.color && Inorder(r) == Inorder(t)
  {
    Node(t.color, Blacken(t.left), t.key, t.value, Blacken(t.right))
  }

  /** A red parent is never the root, so a grandparent exists whenever the parent is red. */
  predicate RedParentHasGrandparent(ctx: seq<Frame>)
  {
    ctx != [] && ctx[|ctx| - 1].color == Red ==> |ctx| >= 2
  }

  /** Lines 353-354 then 359-362 (double rotation): `x` rises above `p` and `g` and is painted black. */
  function DoubleRotation(g: Frame, p: Frame, x: Tree): Tree
    requires x.Node?
  {
    var g' := g.(color := Red);
    if p.toLeft then Node(Black, Attach(g', x.left), x.key, x.value, Attach(p, x.right))
    else Node(Black, Attach(p, x.left), x.key, x.value, Attach(g', x.right))
  }

  /**
   * Lines 344-363 for a red node `x` under a non-empty path: nothing more if the
   * parent is black; otherwise the grandparent turns red and a single rotation
   * (parent rises, painted black) or a double rotation (`x` rises, painted black)
   * is chosen by comparing keys as the source does. The focus stays on `x`.
   */
  function Rebalance(ctx: seq<Frame>, x: Tree): Zip
    requires ctx != [] && x.Node? && RedParentHasGrandparent(ctx)
  {
    var n := |ctx|;
    var p := ctx[n - 1];
    if p.color != Red then Zip(ctx, x)
    else
      var g := ctx[n - 2];
      if (p.key < g.key) != (x.key < p.key) then Zip(ctx[..n - 2], DoubleRotation(g, p, x))
      else Zip(ctx[..n - 2] + [Frame(Black, p.key, p.value, p.toLeft, Attach(g.(color := Red), p.other))], x)
  }

  /** `HandleReorient(ggp, gp, p, node)`: flip the children, stop at the root, else paint the node red and rebalance. */
  function Reorient(z: Zip): Zip
    requires z.focus.Node? && RedParentHasGrandparent(z.ctx)
  {
    var x := FlipChildren(z.focus);
    if z.ctx == [] then Zip([], x) else Rebalance(z.ctx, x.(color := Red))
  }

  /** Line 61 and the ancestor shift of lines 58-60: continue to the child on `key`'s side. */
  function Descend(z: Zip, key: int): Zip
    requires z.focus.Node?
  {
    var toLeft := key < z.focus.key;
    Zip(z.ctx + [FrameOf(z.focus, toLeft)], Child(z.focus, toLeft))
  }

  /** Nodes the search for `key` still visits below (and including) the focus. */
  function PathLen(t: Tree, key: int): nat
  {
    if t.Empty? then 0
    else if key == t.key then 1
    else 1 + PathLen(if key < t.key then t.left else t.right, key)
  }

  /**
   * The invariant at the head of Insert's loop: the tree is ordered and
   * red-black, the path is the search path of `key`, a red parent has a black
   * sibling unless the current node is quiet, and a red current node has a
   * black sibling unless the child the search enters next is quiet.
   */
  predicate DescentInv(z: Zip, key: int)
  {
    var ctx, cur, n := z.ctx, z.focus, |z.ctx|;
    Ordered(Whole(z)) && IsRedBlack(Whole(z)) && OnPath(ctx, key) &&
    (n >= 1 && ctx[n - 1].color == Red ==> n >= 2 && (IsBlack(ctx[n - 2].other) || Quiet(cur))) &&
    (n >= 1 && IsRed(cur) && cur.key != key ==> IsBlack(ctx[n - 1].other) || Quiet(Child(cur, key < cur.key)))
  }

  /** One turn of the loop for a node whose key is not `key`: reorient a 4-node, then descend. */
  function Step(z: Zip, key: int): Zip
    requires z.focus.Node? && RedParentHasGrandparent(z.ctx)
  {
    var z1 := if HasTwoRedChildren(z.focus) then Reorient(z) else z;
    Descend(z1, key)
  }

  // ----- proofs ---------------------------------------------------------------------

  lemma DescentInvGrandparent(z: Zip, key: int)
    requires DescentInv(z, key)
    ensures RedParentHasGrandparent(z.ctx)
  {
  }

  /** In an ordered tree the key comparisons of line 352 tell the sides the path takes. */
  lemma WindowSides(ctx: seq<Frame>, x: Tree)
    requires |ctx| >= 2 && x.Node? && Ordered(Plug(ctx, x))
    ensures ctx[|ctx| - 1].key < ctx[|ctx| - 2].key <==> ctx[|ctx| - 2].toLeft
    ensures x.key < ctx[|ctx| - 1].key <==> ctx[|ctx| - 1].toLeft
  {
    var n := |ctx|;
    var g, p := ctx[n - 2], ctx[n - 1];
    PlugTwo(ctx, x);
    PlugOrdered(ctx[..n - 2], Attach(g, Attach(p, x)));
    AttachSide(g, Attach(p, x));
    AttachSide(p, x);
    RootInInorder(Attach(p, x));
    RootInInorder(x);
  }

  /** The double rotation of a zig-zag window keeps its pairs in order. */
  lemma DoubleInorder(g: Frame, p: Frame, x: Tree)
    requires x.Node? && g.toLeft != p.toLeft
    ensures Inorder(DoubleRotation(g, p, x)) == Inorder(Attach(g, Attach(p, x)))
  {
    if p.toLeft {
      DoubleInorderLeft(g, p, x);
    } else {
      DoubleInorderRight(g, p, x);
    }
  }

  /** `DoubleInorder` when `x` is the right child of a left child. */
  lemma DoubleInorderLeft(g: Frame, p: Frame, x: Tree)
    requires x.Node? && !g.toLeft && p.toLeft
    ensures Inorder(DoubleRotation(g, p, x)) == Inorder(Attach(g, Attach(p, x)))
  {
    var a, b := Inorder(x.left), Inorder(x.right);
    var eg, ep, ex := [Entry(g.key, g.value)], [Entry(p.key, p.value)], [Entry(x.key, x.value)];
    var og, op := Inorder(g.other), Inorder(p.other);
    assert Inorder(x) == a + ex + b;
    assert Inorder(Attach(p, x)) == Inorder(x) + ep + op;
    calc {
      Inorder(DoubleRotation(g, p, x));
      (og + eg + a) + ex + (b + ep + op);
      og + eg + ((a + ex + b) + ep + op);
      Inorder(Attach(g, Attach(p, x)));
    }
  }

  /** `DoubleInorder` when `x` is the left child of a right child. */
  lemma DoubleInorderRight(g: Frame, p: Frame, x: Tree)
    requires x.Node? && g.toLeft && !p.toLeft
    ensures Inorder(DoubleRotation(g, p, x)) == Inorder(Attach(g, Attach(p, x)))
  {
    var a, b := Inorder(x.left), Inorder(x.right);
    var eg, ep, ex := [Entry(g.key, g.value)], [Entry(p.key, p.value)], [Entry(x.key, x.value)];
    var og, op := Inorder(g.other), Inorder(p.other);
    assert Inorder(x) == a + ex + b;
    assert Inorder(Attach(p, x)) == op + ep + Inorder(x);
    calc {
      Inorder(DoubleRotation(g, p, x));
      (op + ep + a) + ex + (b + eg + og);
      ((op + ep + (a + ex + b)) + eg + og);
      Inorder(Attach(g, Attach(p, x)));
    }
  }

  /** The single rotation of a straight window keeps its pairs in order. */
  lemma SingleInorder(g: Frame, p: Frame, x: Tree)
    requires g.toLeft == p.toLeft
    ensures Inorder(Attach(Frame(Black, p.key, p.value, p.toLeft, Attach(g.(color := Red), p.other)), x))
         == Inorder(Attach(g, Attach(p, x)))
  {
  }

  /** Rebalancing only recolours and rotates: the pairs read in order do not change. */
  lemma RebalanceInorder(ctx: seq<Frame>, x: Tree)
    requires ctx != [] && x.Node? && RedParentHasGrandparent(ctx) && Ordered(Plug(ctx, x))
    ensures Inorder(Whole(Rebalance(ctx, x))) == Inorder(Plug(ctx, x))
  {
    var n := |ctx|;
    var p := ctx[n - 1];
    if p.color == Red {
      var g := ctx[n - 2];
      var c0 := ctx[..n - 2];
      WindowSides(ctx, x);
      PlugTwo(ctx, x);
      var win := Attach(g, Attach(p, x));
      if (p.key < g.key) != (x.key < p.key) {
        DoubleInorder(g, p, x);
        ReplaceInorder(c0, win, DoubleRotation(g, p, x));
      } else {
        var top := Frame(Black, p.key, p.value, p.toLeft, Attach(g.(color := Red), p.other));
        SingleInorder(g, p, x);
        PlugSnoc(c0, top, x);
        ReplaceInorder(c0, win, Attach(top, x));
      }
    }
  }

  /** The window a red `x` forms under its red parent `p` and black grandparent `g`, whose other children are black. */
  predicate RedRedWindow(g: Frame, p: Frame, x: Tree)
  {
    x.Node? && x.color == Red && IsBlack(x.left) && IsBlack(x.right) && RedRule(x) &&
    p.color == Red && IsBlack(p.other) && RedRule(p.other) &&
    g.color == Black && IsBlack(g.other) && RedRule(g.other) &&
    Balanced(Attach(g, Attach(p, x)))
  }

  /** Both rotations of such a window are red-black subtrees of the window's black height with a black top. */
  lemma RotationsRedBlack(g: Frame, p: Frame, x: Tree)
    requires RedRedWindow(g, p, x)
    ensures var d := DoubleRotation(g, p, x);
      Balanced(d) && RedRule(d) && !IsRed(d) && BlackHeight(d) == BlackHeight(Attach(g, Attach(p, x)))
    ensures var s := Attach(Frame(Black, p.key, p.value, p.toLeft, Attach(g.(color := Red), p.other)), x);
      Balanced(s) && RedRule(s) && !IsRed(s) && BlackHeight(s) == BlackHeight(Attach(g, Attach(p, x)))
  {
    var h := BlackHeight(x);
    assert Balanced(Attach(p, x)) && Balanced(x) && Balanced(p.other) && Balanced(g.other);
    assert BlackHeight(Attach(p, x)) == h && BlackHeight(p.other) == h;
    assert BlackHeight(g.other) == h && BlackHeight(x.left) == h && BlackHeight(x.right) == h;
    assert BlackHeight(Attach(g, Attach(p, x))) == h + 1;
  }

  /**
   * Rebalancing a red node with black children under a path that is red-black
   * for a black focus gives a red-black tree, provided a red parent has a black
   * sibling (the uncle of `x`).
   */
  lemma RebalanceRedBlack(ctx: seq<Frame>, x: Tree)
    requires ctx != [] && x.Node? && x.color == Red && IsBlack(x.left) && IsBlack(x.right) && RedRule(x)
    requires ctx[0].color == Black && RedCtx(ctx, false, false) && Balanced(Plug(ctx, x))
    requires ctx[|ctx| - 1].color == Red ==> |ctx| >= 2 && IsBlack(ctx[|ctx| - 2].other)
    ensures RedParentHasGrandparent(ctx)
    ensures IsRedBlack(Whole(Rebalance(ctx, x)))
  {
    var n := |ctx|;
    var p := ctx[n - 1];
    if p.color != Red {
      PlugBalanced(ctx, x);
      PlugRed(ctx, x);
      PlugRoot(ctx, x);
    } else {
      RebalanceRedBlackRed(ctx, x);
    }
  }

  lemma RebalanceRedBlackRed(ctx: seq<Frame>, x: Tree)
    requires ctx != [] && x.Node? && x.color == Red && IsBlack(x.left) && IsBlack(x.right) && RedRule(x)
    requires ctx[0].color == Black && RedCtx(ctx, false, false) && Balanced(Plug(ctx, x))
    requires ctx[|ctx| - 1].color == Red && |ctx| >= 2 && IsBlack(ctx[|ctx| - 2].other)
    ensures IsRedBlack(Whole(Rebalance(ctx, x)))
  {
    var n := |ctx|;
    var g, p := ctx[n - 2], ctx[n - 1];
    var c0 := ctx[..n - 2];
    assert ctx[..n - 1][..n - 2] == c0;
    assert RedCtx(ctx[..n - 1], true, false);
    assert RedCtx(c0, false, false);
    PlugTwo(ctx, x);
    var win := Attach(g, Attach(p, x));
    PlugBalanced(c0, win);
    RotationsRedBlack(g, p, x);
    var t := Rebalance(ctx, x).focus;
    if (p.key < g.key) == (x.key < p.key) {
      var top := Frame(Black, p.key, p.value, p.toLeft, Attach(g.(color := Red), p.other));
      PlugSnoc(c0, top, x);
      t := Attach(top, x);
    }
    assert Whole(Rebalance(ctx, x)) == Plug(c0, t);
    ReplaceBalanced(c0, win, t);
    PlugRed(c0, t);
    if c0 != [] { PlugRoot(c0, t); }
  }

  // ----- one turn of the loop -----------------------------------------------------

  /** Splitting a node into its frame and the child the descent enters gives the node back. */
  lemma DescendWhole(z: Zip, key: int)
    requires z.focus.Node?
    ensures Whole(Descend(z, key)) == Whole(z)
  {
    var d := key < z.focus.key;
    PlugSnoc(z.ctx, FrameOf(z.focus, d), Child(z.focus, d));
  }

  /** A 4-node after the colour flip of lines 334-339, painted red (line 344). */
  lemma FlipFacts(x: Tree)
    requires HasTwoRedChildren(x) && RedRule(x) && Balanced(x)
    ensures FlipChildren(x).Node?
    ensures var x' := FlipChildren(x).(color := Red);
      RedRule(x') && Balanced(x') && BlackHeight(x') == BlackHeight(x) && Inorder(x') == Inorder(x) &&
      Quiet(x'.left) && Quiet(x'.right) && IsBlack(x'.left) && IsBlack(x'.right) && x.color == Black
    ensures var x' := FlipChildren(x);
      RedRule(x') && Balanced(x') && Inorder(x') == Inorder(x) && x'.color == Black
  {
  }

  /** A turn at a node that is not a 4-node only moves down. */
  lemma StepPlain(z: Zip, key: int)
    requires DescentInv(z, key) && z.focus.Node? && z.focus.key != key && !HasTwoRedChildren(z.focus)
    ensures DescentInv(Descend(z, key), key) && Whole(Descend(z, key)) == Whole(z)
    ensures PathLen(Descend(z, key).focus, key) < PathLen(z.focus, key)
  {
    DescendWhole(z, key);
  }

  /** A 4-node at the root only has its children flipped black. */
  lemma StepRoot(z: Zip, key: int)
    requires DescentInv(z, key) && z.focus.Node? && z.focus.key != key && HasTwoRedChildren(z.focus) && z.ctx == []
    ensures DescentInv(Step(z, key), key) && Inorder(Whole(Step(z, key))) == Inorder(Whole(z))
    ensures PathLen(Step(z, key).focus, key) < PathLen(z.focus, key)
  {
    var x := z.focus;
    assert Whole(z) == x;
    FlipFacts(x);
    var z1 := Zip([], FlipChildren(x));
    assert Whole(z1) == FlipChildren(x);
    DescendWhole(z1, key);
  }

  /** A 4-node under a black parent is flipped and painted red; the next node is quiet. */
  lemma StepBlackParent(z: Zip, key: int)
    requires DescentInv(z, key) && z.focus.Node? && z.focus.key != key && HasTwoRedChildren(z.focus)
    requires z.ctx != [] && z.ctx[|z.ctx| - 1].color == Black
    ensures DescentInv(Step(z, key), key) && Inorder(Whole(Step(z, key))) == Inorder(Whole(z))
    ensures PathLen(Step(z, key).focus, key) < PathLen(z.focus, key)
  {
    var ctx, x := z.ctx, z.focus;
    PlugBalanced(ctx, x);
    PlugRed(ctx, x);
    PlugRoot(ctx, x);
    FlipFacts(x);
    var x' := FlipChildren(x).(color := Red);
    var z1 := Zip(ctx, x');
    assert Reorient(z) == z1;
    ReplaceBalanced(ctx, x, x');
    ReplaceInorder(ctx, x, x');
    RedCtxRecolor(ctx, false, true, false);
    PlugRed(ctx, x');
    PlugRoot(ctx, x');
    PlugOrdered(ctx, x);
    DescendWhole(z1, key);
  }

  /** The red-parent case reaches the rotation lemmas: the uncle of a 4-node under a red parent is black. */
  lemma RedParentFacts(z: Zip, key: int)
    requires DescentInv(z, key) && z.focus.Node? && HasTwoRedChildren(z.focus)
    requires z.ctx != [] && z.ctx[|z.ctx| - 1].color == Red
    ensures var ctx, x := z.ctx, z.focus; var x' := FlipChildren(x).(color := Red);
      |ctx| >= 2 && IsRedBlack(Whole(Reorient(z))) && Inorder(Whole(Reorient(z))) == Inorder(Whole(z)) &&
      Reorient(z) == Rebalance(ctx, x') && x'.left == Blacken(x.left) && x'.right == Blacken(x.right) &&
      Quiet(x'.left) && Quiet(x'.right) &&
      (ctx[|ctx| - 1].key < ctx[|ctx| - 2].key <==> ctx[|ctx| - 2].toLeft) &&
      (x.key < ctx[|ctx| - 1].key <==> ctx[|ctx| - 1].toLeft)
  {
    var ctx, x := z.ctx, z.focus;
    PlugBalanced(ctx, x);
    PlugRed(ctx, x);
    PlugRoot(ctx, x);
    PlugOrdered(ctx, x);
    FlipFacts(x);
    var x' := FlipChildren(x).(color := Red);
    ReplaceBalanced(ctx, x, x');
    ReplaceInorder(ctx, x, x');
    assert Inorder(Plug(ctx, x')) == Inorder(Whole(z));
    assert Ordered(Plug(ctx, x'));
    RebalanceRedBlack(ctx, x');
    RebalanceInorder(ctx, x');
    WindowSides(ctx, x);
  }

  /** Lines 359-363 on a straight window: the parent rises; the next node, a flipped child, is quiet. */
  lemma StepSingle(z: Zip, key: int)
    requires DescentInv(z, key) && z.focus.Node? && z.focus.key != key && HasTwoRedChildren(z.focus)
    requires z.ctx != [] && z.ctx[|z.ctx| - 1].color == Red
    requires |z.ctx| >= 2 && (z.ctx[|z.ctx| - 1].key < z.ctx[|z.ctx| - 2].key) == (z.focus.key < z.ctx[|z.ctx| - 1].key)
    ensures DescentInv(Step(z, key), key) && Inorder(Whole(Step(z, key))) == Inorder(Whole(z))
    ensures PathLen(Step(z, key).focus, key) < PathLen(z.focus, key) && Quiet(Step(z, key).focus)
  {
    RedParentFacts(z, key);
    var ctx, x, n := z.ctx, z.focus, |z.ctx|;
    var x' := FlipChildren(x).(color := Red);
    var p, g := ctx[n - 1], ctx[n - 2];
    var top := Frame(Black, p.key, p.value, p.toLeft, Attach(g.(color := Red), p.other));
    var z1 := Zip(ctx[..n - 2] + [top], x');
    StepSingleShape(z, key);
    DescendWhole(z1, key);
    var d := key < x.key;
    var z2 := Zip(z1.ctx + [FrameOf(x', d)], Child(x', d));
    assert Quiet(z2.focus) && !IsRed(z2.focus);
    assert OnPath(z2.ctx, key) by {
      assert forall i :: 0 <= i < n - 2 ==> z2.ctx[i] == ctx[i];
      assert z2.ctx[n - 2] == top && z2.ctx[n - 1] == FrameOf(x', d);
    }
  }

  /** On a straight window the parent rises over the reoriented node, and the step descends into one of its flipped children. */
  lemma StepSingleShape(z: Zip, key: int)
    requires z.focus.Node? && HasTwoRedChildren(z.focus) && |z.ctx| >= 2 && z.ctx[|z.ctx| - 1].color == Red
    requires z.focus.key != key && (z.ctx[|z.ctx| - 1].key < z.ctx[|z.ctx| - 2].key) == (z.focus.key < z.ctx[|z.ctx| - 1].key)
    ensures var ctx, x, n := z.ctx, z.focus, |z.ctx|;
      var x' := FlipChildren(x).(color := Red);
      var p, g := ctx[n - 1], ctx[n - 2];
      var top := Frame(Black, p.key, p.value, p.toLeft, Attach(g.(color := Red), p.other));
      var d := key < x.key;
      Reorient(z) == Zip(ctx[..n - 2] + [top], x') &&
      Step(z, key) == Zip(ctx[..n - 2] + [top] + [FrameOf(x', d)], Child(x', d))
  {
  }

  /** Lines 352-363 on a zig-zag window: the node rises above both; the next node is red, over a quiet child. */
  lemma StepDouble(z: Zip, key: int)
    requires DescentInv(z, key) && z.focus.Node? && z.focus.key != key && HasTwoRedChildren(z.focus)
    requires z.ctx != [] && z.ctx[|z.ctx| - 1].color == Red
    requires |z.ctx| >= 2 && (z.ctx[|z.ctx| - 1].key < z.ctx[|z.ctx| - 2].key) != (z.focus.key < z.ctx[|z.ctx| - 1].key)
    ensures DescentInv(Step(z, key), key) && Inorder(Whole(Step(z, key))) == Inorder(Whole(z))
    ensures var c := Step(z, key).focus;
      PathLen(c, key) == PathLen(z.focus, key) && c.Node? && !HasTwoRedChildren(c) && Quiet(Child(c, key < c.key))
  {
    StepDoubleInv(z, key);
    StepDoubleFocus(z, key);
  }

  /** The invariant half of `StepDouble`. */
  lemma StepDoubleInv(z: Zip, key: int)
    requires DescentInv(z, key) && z.focus.Node? && z.focus.key != key && HasTwoRedChildren(z.focus)
    requires z.ctx != [] && z.ctx[|z.ctx| - 1].color == Red
    requires |z.ctx| >= 2 && (z.ctx[|z.ctx| - 1].key < z.ctx[|z.ctx| - 2].key) != (z.focus.key < z.ctx[|z.ctx| - 1].key)
    ensures DescentInv(Step(z, key), key) && Inorder(Whole(Step(z, key))) == Inorder(Whole(z))
  {
    RedParentFacts(z, key);
    var z1 := Reorient(z);
    DescendWhole(z1, key);
    var n := |z.ctx|;
    assert OnPath(z1.ctx, key) by {
      assert z1.ctx == z.ctx[..n - 2];
    }
    assert OnPath(z.ctx, key);
    assert z.ctx[n - 1].toLeft ==> key < z.ctx[n - 1].key;
    assert !z.ctx[n - 1].toLeft ==> z.ctx[n - 1].key < key;
    assert z.ctx[n - 2].toLeft ==> key < z.ctx[n - 2].key;
    assert !z.ctx[n - 2].toLeft ==> z.ctx[n - 2].key < key;
  }

  /** The focus half of `StepDouble`: the risen node's child on the side of `key` is red over quiet children. */
  lemma StepDoubleFocus(z: Zip, key: int)
    requires DescentInv(z, key) && z.focus.Node? && z.focus.key != key && HasTwoRedChildren(z.focus)
    requires z.ctx != [] && z.ctx[|z.ctx| - 1].color == Red
    requires |z.ctx| >= 2 && (z.ctx[|z.ctx| - 1].key < z.ctx[|z.ctx| - 2].key) != (z.focus.key < z.ctx[|z.ctx| - 1].key)
    ensures var c := Step(z, key).focus;
      PathLen(c, key) == PathLen(z.focus, key) && c.Node? && !HasTwoRedChildren(c) && Quiet(Child(c, key < c.key))
  {
    RedParentFacts(z, key);
    var n := |z.ctx|;
    assert OnPath(z.ctx, key);
    assert z.ctx[n - 1].toLeft ==> key < z.ctx[n - 1].key;
    assert !z.ctx[n - 1].toLeft ==> z.ctx[n - 1].key < key;
  }

  /** Every turn keeps the invariant and the pairs, and moves down or, after a double rotation, off a 4-node. */
  lemma StepKeepsInv(z: Zip, key: int)
    requires DescentInv(z, key) && z.focus.Node? && z.focus.key != key
    ensures RedParentHasGrandparent(z.ctx)
    ensures var z' := Step(z, key);
      DescentInv(z', key) && Inorder(Whole(z')) == Inorder(Whole(z)) &&
      (PathLen(z'.focus, key) < PathLen(z.focus, key) ||
       (PathLen(z'.focus, key) == PathLen(z.focus, key) && HasTwoRedChildren(z.focus) && !HasTwoRedChildren(z'.focus)))
  {
    var ctx, n := z.ctx, |z.ctx|;
    if !HasTwoRedChildren(z.focus) {
      StepPlain(z, key);
    } else if ctx == [] {
      StepRoot(z, key);
    } else if ctx[n - 1].color == Black {
      StepBlackParent(z, key);
    } else if (ctx[n - 1].key < ctx[n - 2].key) != (z.focus.key < ctx[n - 1].key) {
      StepDouble(z, key);
    } else {
      StepSingle(z, key);
    }
  }

  // ----- stale ancestor pointers ----------------------------------------------------

  /**
   * How many of the pointers `parent_node`, `grand_parent_node`,
   * `grand_grand_parent_node` point at the real ancestors of `node` after the
   * shift of lines 58-60. A rotation leaves the grandparent (single) or the
   * grandparent and the parent (double) pointing at nodes no longer above.
   */
  function NextSync(z: Zip, sync: nat): nat
    requires z.focus.Node? && RedParentHasGrandparent(z.ctx)
  {
    var n := |z.ctx|;
    if HasTwoRedChildren(z.focus) && n > 0 && z.ctx[n - 1].color == Red then
      (if (z.ctx[n - 1].key < z.ctx[n - 2].key) != (z.focus.key < z.ctx[n - 1].key) then 1 else 2)
    else if sync < 3 then sync + 1 else 3
  }

  /**
   * While some ancestor pointers are stale, `node` is not a 4-node (so
   * HandleReorient is not called on it) and not null (so the final
   * HandleReorient of line 74 is not reached); with only the parent pointer
   * right, the next node is quiet as well.
   */
  predicate StaleSafe(z: Zip, key: int, sync: nat)
  {
    1 <= sync <= 3 &&
    (sync < 3 ==> z.focus.Node? && !HasTwoRedChildren(z.focus)) &&
    (sync == 1 ==> z.focus.Node? && Quiet(Child(z.focus, key < z.focus.key)))
  }

  /** Stale pointers are never used: a rotation, which reads the grandparent and great-grandparent, happens only in sync. */
  lemma StepSync(z: Zip, key: int, sync: nat)
    requires DescentInv(z, key) && z.focus.Node? && z.focus.key != key && StaleSafe(z, key, sync)
    ensures RedParentHasGrandparent(z.ctx)
    ensures StaleSafe(Step(z, key), key, NextSync(z, sync))
    ensures HasTwoRedChildren(z.focus) ==> sync == 3
  {
    var ctx, n := z.ctx, |z.ctx|;
    if HasTwoRedChildren(z.focus) && n > 0 && ctx[n - 1].color == Red {
      if (ctx[n - 1].key < ctx[n - 2].key) != (z.focus.key < ctx[n - 1].key) {
        StepDouble(z, key);
      } else {
        StepSingle(z, key);
      }
    }
  }

  // ----- the whole insertion ----------------------------------------------------------

  /** Lines 64-74: a red leaf hung below the last node of the path, then reoriented. */
  function AttachLeaf(ctx: seq<Frame>, key: int, value: int): Zip
    requires ctx != [] && RedParentHasGrandparent(ctx)
  {
    Reorient(Zip(ctx, Node(Red, Empty, key, value, Empty)))
  }

  /** A pair whose key lies strictly between the two halves of a sorted sequence fits between them as a new key. */
  lemma InsertBetween(b: seq<Entry>, a: seq<Entry>, key: int, value: int)
    requires Sorted(b + a)
    requires forall i :: 0 <= i < |b| ==> b[i].key < key
    requires forall i :: 0 <= i < |a| ==> key < a[i].key
    ensures Sorted(b + [Entry(key, value)] + a)
    ensures key !in MapOf(b + a) && MapOf(b + [Entry(key, value)] + a) == MapOf(b + a)[key := value]
  {
    var e := [Entry(key, value)];
    SortedSplit(b, a);
    SortedJoin(b, e);
    SortedJoin(b + e, a);
    MapOfAppend(b, a);
    MapOfAppend(b + e, a);
    MapOfAppend(b, e);
    MapOfSingle(Entry(key, value));
    MapOfKeys(b, key);
    MapOfKeys(a, key);
  }

  /** A key the search did not meet is new: hanging it in and reorienting gives a red-black tree holding one more pair. */
  lemma AttachLeafCorrect(z: Zip, key: int, value: int)
    requires DescentInv(z, key) && z.focus.Empty? && z.ctx != []
    ensures RedParentHasGrandparent(z.ctx)
    ensures var t := Whole(AttachLeaf(z.ctx, key, value));
      Ordered(t) && IsRedBlack(t) && key !in Content(Whole(z)) && Content(t) == Content(Whole(z))[key := value]
  {
    var ctx := z.ctx;
    var leaf := Node(Red, Empty, key, value, Empty);
    AttachLeafRedBlack(z, key, value);
    var b, a := Before(ctx), After(ctx);
    PlugInorder(ctx, Empty);
    PlugInorder(ctx, leaf);
    OnPathBounds(ctx, Empty, key);
    assert Inorder(Whole(z)) == b + a;
    assert Inorder(Plug(ctx, leaf)) == b + [Entry(key, value)] + a;
    InsertBetween(b, a, key, value);
    RebalanceInorder(ctx, leaf);
  }

  lemma AttachLeafRedBlack(z: Zip, key: int, value: int)
    requires DescentInv(z, key) && z.focus.Empty? && z.ctx != []
    ensures RedParentHasGrandparent(z.ctx)
    ensures AttachLeaf(z.ctx, key, value) == Rebalance(z.ctx, Node(Red, Empty, key, value, Empty))
    ensures IsRedBlack(Whole(AttachLeaf(z.ctx, key, value)))
  {
    var ctx := z.ctx;
    var leaf := Node(Red, Empty, key, value, Empty);
    PlugBalanced(ctx, Empty);
    PlugRed(ctx, Empty);
    PlugRoot(ctx, Empty);
    ReplaceBalanced(ctx, Empty, leaf);
    RebalanceRedBlack(ctx, leaf);
  }

  /**
   * Insert's loop from a descent state to its end: the new key is attached where
   * the search falls off the tree (or becomes the black root of an empty tree),
   * and a key met on the way leaves the pairs as they are.
   */
  function InsertLoop(z: Zip, key: int, value: int): (r: (Tree, bool))
    requires DescentInv(z, key)
    ensures Ordered(r.0) && IsRedBlack(r.0)
    ensures r.1 <==> key !in Content(Whole(z))
    ensures Content(r.0) == if r.1 then Content(Whole(z))[key := value] else Content(Whole(z))
    decreases PathLen(z.focus, key), if HasTwoRedChildren(z.focus) then 1 else 0
  {
    if z.focus.Empty? && z.ctx == [] then
      (Node(Black, Empty, key, value, Empty), true)
    else if z.focus.Empty? then
      AttachLeafCorrect(z, key, value);
      (Whole(AttachLeaf(z.ctx, key, value)), true)
    else if z.focus.key == key then
      PlugOrdered(z.ctx, z.focus);
      OrderedNode(z.focus, key);
      OnPathContent(z.ctx, z.focus, key);
      (Whole(z), false)
    else
      StepKeepsInv(z, key);
      InsertLoop(Step(z, key), key, value)
  }

  /** `Insert(key, value)`: a new key is stored with its value and the tree stays red-black; an existing key is refused. */
  function Insert(t: Tree, key: int, value: int): (r: (Tree, bool))
    requires Ordered(t) && IsRedBlack(t)
    ensures Ordered(r.0) && IsRedBlack(r.0)
    ensures r.1 <==> key !in Content(t)
    ensures Content(r.0) == if r.1 then Content(t)[key := value] else Content(t)
  {
    InsertLoop(Zip([], t), key, value)
  }
}
