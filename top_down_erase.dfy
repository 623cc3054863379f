/**
 * Erase's top-down descent on the value view (red_black_tree.cpp:81-192): on
 * the way down every black node is made red, by a rotation towards a red
 * sibling, by borrowing from a sibling with a red child (single or double
 * rotation), or by a colour flip with the sibling; a found internal node swaps
 * its pair with its successor (or predecessor) and the search follows the
 * displaced key down to a red leaf, which is unlinked.
 *
 * `Reading` selects between the code as written and the corrected code for
 * the two places where they differ: the side test of line 123, and the
 * grandparent pointer that is not refreshed after the rotation of lines 108-112.
 */
module TopDownErase {
  import opened RbSpec
  import opened TreeZipper

  datatype Reading = AsWritten | Corrected

  /** Longest path from this position to a null position, in nodes. */
  function Height(t: Tree): nat
  {
    if t.Empty? then 0 else 1 + (if Height(t.left) < Height(t.right) then Height(t.right) else Height(t.left))
  }

  function Redden(t: Tree): Tree
  {
    if t.Empty? then t else t.(color := Red)
  }

  /**
   * `HandleRotation(t, child)` for the child on side `left` (lines 368-386):
   * the child rises, `t` becomes its child on the other side and adopts the
   * child's inner subtree. Colours are unchanged.
   */
  function RotateUp(t: Tree, left: bool): (r: Tree)
    requires t.Node? && Child(t, left).Node?
    ensures r.Node? && Inorder(r) == Inorder(t)
  {
    if left then
      var c := t.left;
      Node(c.color, c.left, c.key, c.value, Node(t.color, c.right, t.key, t.value, t.right))
    else
      var c := t.right;
      Node(c.color, Node(t.color, t.left, t.key, t.value, c.left), c.key, c.value, c.right)
  }

  /**
   * The path as `HandleReconnection(grand_parent_node, ·)` sees it: every frame
   * above the parent's slot. With a stale grandparent pointer (the node that was
   * above the parent before a red-sibling rotation) the slot it rewrites is the one
   * holding that rotation's new top, so that frame is overwritten as well.
   */
  function Upper(ctx: seq<Frame>, stale: bool): seq<Frame>
    requires ctx != []
  {
    if stale && |ctx| >= 2 then ctx[..|ctx| - 2] else ctx[..|ctx| - 1]
  }

  /**
   * Lines 105-113: the red sibling rises above the parent and turns black, the
   * parent turns red; the current node stays where it is, now under a black sibling.
   */
  function RotateRedSibling(z: Zip, stale: bool): (r: Zip)
    requires z.ctx != [] && z.ctx[|z.ctx| - 1].other.Node?
    ensures r.focus == z.focus && SiblingSize(r.ctx) < SiblingSize(z.ctx)
  {
    var p := z.ctx[|z.ctx| - 1];
    var s := p.other;
    Zip(Upper(z.ctx, stale) + [Frame(Black, s.key, s.value, p.toLeft, Child(s, !p.toLeft)),
                               Frame(Red, p.key, p.value, p.toLeft, Child(s, p.toLeft))], z.focus)
  }

  /**
   * Lines 117-139, for a black node with black children whose sibling has a red
   * child: the red child (the left one when it is red) and the sibling are
   * rotated above the parent, the node turns red and the parent black. The
   * double rotation is taken when the node and the red child lie on the same
   * side of their parents, which the source decides by comparing keys and the
   * corrected reading decides, for the node, by its position.
   */
  function Borrow(z: Zip, stale: bool, rd: Reading): Zip
    requires z.focus.Node? && z.ctx != []
    requires var s := z.ctx[|z.ctx| - 1].other; s.Node? && (IsRed(s.left) || IsRed(s.right))
  {
    var x, p := z.focus, z.ctx[|z.ctx| - 1];
    var s := p.other;
    var rcLeft := !IsBlack(s.left);
    var rc := Child(s, rcLeft);
    var nodeLeft := if rd == AsWritten then x.key < p.key else p.toLeft;
    var above := Upper(z.ctx, stale);
    if nodeLeft == (rc.key < s.key) then
      var s2 := RotateUp(s, rcLeft);
      Zip(above + [Frame(s2.color, s2.key, s2.value, p.toLeft, Child(s2, !p.toLeft)),
                   Frame(Black, p.key, p.value, p.toLeft, Child(s2, p.toLeft))], x.(color := Red))
    else
      var s1 := if rcLeft then s.(left := Blacken(s.left)) else s.(right := Blacken(s.right));
      Zip(above + [Frame(Red, s.key, s.value, p.toLeft, Child(s1, !p.toLeft)),
                   Frame(Black, p.key, p.value, p.toLeft, Child(s1, p.toLeft))], x.(color := Red))
  }

  /** Lines 140-148: the parent turns black, the node and the sibling (if any) red. */
  function Flip(z: Zip): Zip
    requires z.focus.Node? && z.ctx != []
  {
    var n := |z.ctx|;
    var p := z.ctx[n - 1];
    Zip(z.ctx[..n - 1] + [p.(color := Black, other := Redden(p.other))], z.focus.(color := Red))
  }

  /** Lines 102-150 once the sibling is known not to be red: only colours and rotations, the current subtree keeps its pairs and height. */
  function MakeRed(z: Zip, stale: bool, rd: Reading): (r: Zip)
    requires z.focus.Node? && (IsBlackNode(z.focus) ==> z.ctx != [])
    ensures r.focus.Node? && Inorder(r.focus) == Inorder(z.focus) && Height(r.focus) == Height(z.focus)
    ensures r.focus.key == z.focus.key && r.focus.left == z.focus.left && r.focus.right == z.focus.right
  {
    var x := z.focus;
    if !IsBlackNode(x) || !(IsBlack(x.left) && IsBlack(x.right)) then z
    else
      var s := z.ctx[|z.ctx| - 1].other;
      if s.Node? && (IsRed(s.left) || IsRed(s.right)) then Borrow(z, stale, rd) else Flip(z)
  }

  /** `find_min_leaf_node`: the pair of the leftmost node. */
  function MinEntry(t: Tree): Entry
    requires t.Node?
  {
    if t.left.Empty? then Entry(t.key, t.value) else MinEntry(t.left)
  }

  /** `find_max_leaf_node`: the pair of the rightmost node. */
  function MaxEntry(t: Tree): Entry
    requires t.Node?
  {
    if t.right.Empty? then Entry(t.key, t.value) else MaxEntry(t.right)
  }

  /** The tree with the pair of its leftmost node replaced by `e`. */
  function SetMin(t: Tree, e: Entry): Tree
    requires t.Node?
  {
    if t.left.Empty? then t.(key := e.key, value := e.value) else t.(left := SetMin(t.left, e))
  }

  /** The tree with the pair of its rightmost node replaced by `e`. */
  function SetMax(t: Tree, e: Entry): Tree
    requires t.Node?
  {
    if t.right.Empty? then t.(key := e.key, value := e.value) else t.(right := SetMax(t.right, e))
  }

  /** Lines 178-181: swap the node's pair with its successor's, or its predecessor's when there is no right child. */
  function Swap(x: Tree): Tree
    requires x.Node? && !(x.left.Empty? && x.right.Empty?)
  {
    if x.right.Node? then
      var m := MinEntry(x.right);
      Node(x.color, x.left, m.key, m.value, SetMin(x.right, Entry(x.key, x.value)))
    else
      var m := MaxEntry(x.left);
      Node(x.color, SetMax(x.left, Entry(x.key, x.value)), m.key, m.value, x.right)
  }

  /** Nodes in a subtree. */
  function SiblingSize(ctx: seq<Frame>): nat
  {
    if ctx == [] then 0 else Size(ctx[|ctx| - 1].other)
  }

  /**
   * Erase's loop (lines 99-191) from a descent state: `stale` says whether
   * `grand_parent_node` still names the node above the parent's slot. The result
   * is the final tree and the returned flag.
   */
  function Loop(z: Zip, key: int, stale: bool, rd: Reading): (Tree, bool)
    requires z.ctx == [] ==> !IsBlackNode(z.focus)
    decreases Height(z.focus), SiblingSize(z.ctx)
  {
    if z.focus.Empty? then
      (Blacken(Whole(z)), false)
    else if IsBlackNode(z.focus) && IsRed(z.ctx[|z.ctx| - 1].other) then
      Loop(RotateRedSibling(z, stale), key, rd == AsWritten, rd)
    else
      var z1 := MakeRed(z, stale, rd);
      var x := z1.focus;
      if x.key == key && x.left.Empty? && x.right.Empty? then
        (Blacken(Plug(z1.ctx, Empty)), true)
      else
        Loop(Advance(z1, key), key, false, rd)
  }

  /**
   * Lines 176-189: a found node that is not a leaf swaps its pair with its
   * successor (or predecessor) and the walk follows the displaced key; any
   * other node hands the walk on to the child on the key's side.
   */
  function Advance(z: Zip, key: int): (r: Zip)
    requires z.focus.Node? && !(z.focus.key == key && z.focus.left.Empty? && z.focus.right.Empty?)
    ensures Height(r.focus) < Height(z.focus) && |r.ctx| == |z.ctx| + 1
  {
    var x := z.focus;
    var replaced := x.key == key;
    var x' := if replaced then Swap(x) else x;
    var d := (key < x'.key) != replaced;
    SwapHeight(x);
    Zip(z.ctx + [FrameOf(x', d)], Child(x', d))
  }

  /** `Erase(key)` on a non-empty tree: the root is painted red (line 100) and the loop runs. */
  function EraseAsWritten(t: Tree, key: int): (Tree, bool)
    requires t.Node?
  {
    Loop(Zip([], t.(color := Red)), key, false, AsWritten)
  }

  function Erase(t: Tree, key: int): (Tree, bool)
    requires t.Node?
  {
    Loop(Zip([], t.(color := Red)), key, false, Corrected)
  }

  // ----- shape lemmas -------------------------------------------------------------------

  lemma {:induction false} SetMinHeight(t: Tree, e: Entry)
    requires t.Node?
    ensures Height(SetMin(t, e)) == Height(t)
  {
    if t.left.Node? {
      SetMinHeight(t.left, e);
    }
  }

  lemma {:induction false} SetMaxHeight(t: Tree, e: Entry)
    requires t.Node?
    ensures Height(SetMax(t, e)) == Height(t)
  {
    if t.right.Node? {
      SetMaxHeight(t.right, e);
    }
  }

  lemma SwapHeight(x: Tree)
    requires x.Node?
    ensures !(x.left.Empty? && x.right.Empty?) ==> Height(Swap(x)) == Height(x) && Swap(x).Node?
  {
    if x.right.Node? {
      SetMinHeight(x.right, Entry(x.key, x.value));
    } else if x.left.Node? {
      SetMaxHeight(x.left, Entry(x.key, x.value));
    }
  }

  // ----- the loop invariant -----------------------------------------------------------

  /**
   * Where the key being erased sits: still searched for along the path
   * (`Search`), or displaced by a swap to the leftmost (`Min`) or rightmost
   * (`Max`) position of the current subtree.
   */
  datatype Mode = Search | Min | Max

  /**
   * Colour side of the invariant: the tree is balanced, the red rule holds
   * below the root (whose colour line 100 overrode), and a black current node
   * has a red parent or a red sibling.
   */
  predicate ColorInv(z: Zip)
  {
    var w, n := Whole(z), |z.ctx|;
    Balanced(w) && RedRuleBelowRoot(w) &&
    (IsBlackNode(z.focus) ==> n > 0 && (z.ctx[n - 1].color == Red || IsRed(z.ctx[n - 1].other)))
  }

  /**
   * Order side of the invariant, in terms of the pairs left of, in, and right of
   * the current subtree; `c0` is the map before Erase. Apart from the displaced
   * pair the tree is sorted and holds `c0` (without `key` once it was found).
   */
  predicate OrderInv(z: Zip, key: int, mode: Mode, c0: map<int, int>)
  {
    OrderSeq(Before(z.ctx), Inorder(z.focus), After(z.ctx), key, mode, c0)
  }

  /** `OrderInv` for the pairs `b` left of, `i` in, and `a` right of the current subtree. */
  predicate OrderSeq(b: seq<Entry>, i: seq<Entry>, a: seq<Entry>, key: int, mode: Mode, c0: map<int, int>)
  {
    match mode
    case Search =>
      Sorted(b + i + a) && MapOf(b + i + a) == c0 &&
      (forall j :: 0 <= j < |b| ==> b[j].key < key) && (forall j :: 0 <= j < |a| ==> key < a[j].key)
    case Min =>
      |i| > 0 && i[0].key == key && Sorted(b + i[1..] + a) && MapOf(b + i[1..] + a) == c0 - {key} && key in c0 &&
      (forall j :: 1 <= j < |i| ==> key < i[j].key)
    case Max =>
      |i| > 0 && i[|i| - 1].key == key && Sorted(b + i[..|i| - 1] + a) && MapOf(b + i[..|i| - 1] + a) == c0 - {key} && key in c0 &&
      (forall j :: 0 <= j < |i| - 1 ==> i[j].key < key)
  }

  predicate EraseInv(z: Zip, key: int, mode: Mode, c0: map<int, int>)
  {
    ColorInv(z) && OrderInv(z, key, mode, c0)
  }

  // ----- colour lemmas on a window of the path -----------------------------------------

  /** What a balanced tree, red-black below the root, says about one of its subtrees. */
  lemma WindowFacts(ctx: seq<Frame>, w: Tree)
    requires Balanced(Plug(ctx, w)) && RedRuleBelowRoot(Plug(ctx, w)) && w.Node?
    ensures Balanced(w) && RedRule(w.left) && RedRule(w.right)
    ensures ctx != [] ==> RedRule(w)
  {
    PlugBalanced(ctx, w);
    if ctx != [] {
      PlugRedBelowRoot(ctx, w);
    }
  }

  /** A subtree may be replaced by a red-black one of the same black height that is red only where the old one was. */
  lemma LiftWindow(ctx: seq<Frame>, w: Tree, w': Tree)
    requires Balanced(Plug(ctx, w)) && RedRuleBelowRoot(Plug(ctx, w)) && w.Node? && w'.Node?
    requires Balanced(w') && RedRule(w'.left) && RedRule(w'.right)
    requires ctx != [] ==> BlackHeight(w') == BlackHeight(w) && RedRule(w') && (IsRed(w') ==> IsRed(w))
    ensures Balanced(Plug(ctx, w')) && RedRuleBelowRoot(Plug(ctx, w'))
  {
    if ctx != [] {
      PlugBalanced(ctx, w);
      PlugBalanced(ctx, w');
      PlugRedBelowRoot(ctx, w);
      RedCtxRecolor(ctx, IsRed(w), IsRed(w'), true);
      PlugRedBelowRoot(ctx, w');
    }
  }

  /** Lines 105-113 on the window of the parent: balanced, red-black, black on top and one black level higher. */
  lemma RedSiblingLocal(p: Frame, x: Tree)
    requires IsBlackNode(x) && IsRed(p.other) && Balanced(Attach(p, x)) && RedRule(x) && RedRule(p.other)
    ensures var w' := Whole(RotateRedSibling(Zip([p], x), false));
      w'.Node? && Balanced(w') && RedRule(w') && !IsRed(w') && BlackHeight(w') == BlackHeight(x) + 1
    ensures BlackHeight(Attach(p, x)) == BlackHeight(x) + (if p.color == Black then 1 else 0)
  {
    var s := p.other;
    var d := p.toLeft;
    var t := Frame(Black, s.key, s.value, d, Child(s, !d));
    var q := Frame(Red, p.key, p.value, d, Child(s, d));
    assert RotateRedSibling(Zip([p], x), false) == Zip([t, q], x);
    PlugTwo([t, q], x);
  }

  /** The facts about the window of a black node with black children under a red parent and a black sibling. */
  predicate BorrowWindow(p: Frame, x: Tree)
  {
    IsBlackNode(x) && IsBlack(x.left) && IsBlack(x.right) && RedRule(x) &&
    p.color == Red && IsBlackNode(p.other) && RedRule(p.other) && Balanced(Attach(p, x))
  }

  /** The window after a single rotation: the sibling on top, red; the red child blackened; the parent black. */
  lemma BorrowSingleLocal(p: Frame, x: Tree)
    requires BorrowWindow(p, x) && IsRed(Child(p.other, !p.toLeft))
    ensures var s, d := p.other, p.toLeft;
      var w' := Attach(Frame(Red, s.key, s.value, d, Blacken(Child(s, !d))),
                       Attach(Frame(Black, p.key, p.value, d, Child(s, d)), x.(color := Red)));
      Balanced(w') && RedRule(w') && BlackHeight(w') == BlackHeight(Attach(p, x))
  {
    var s, d := p.other, p.toLeft;
    var h := BlackHeight(x);
    assert Balanced(x) && Balanced(s) && BlackHeight(s) == h && BlackHeight(Attach(p, x)) == h;
    assert BlackHeight(x.left) == h - 1 && BlackHeight(x.right) == h - 1;
    assert BlackHeight(s.left) == h - 1 && BlackHeight(s.right) == h - 1;
    var rc := Child(s, !d);
    assert Balanced(rc) && RedRule(rc) && BlackHeight(rc.left) == h - 1 && BlackHeight(rc.right) == h - 1;
    var xr := x.(color := Red);
    assert Balanced(xr) && BlackHeight(xr) == h - 1 && RedRule(xr);
    var q := Attach(Frame(Black, p.key, p.value, d, Child(s, d)), xr);
    assert Balanced(q) && BlackHeight(q) == h && RedRule(q);
    assert Balanced(Blacken(rc)) && BlackHeight(Blacken(rc)) == h && RedRule(Blacken(rc));
  }

  /** The window after a double rotation: the red child on top; the sibling and the parent black below it. */
  lemma BorrowDoubleLocal(p: Frame, x: Tree)
    requires BorrowWindow(p, x) && IsRed(Child(p.other, p.toLeft))
    ensures var s, d := p.other, p.toLeft;
      var u := RotateUp(s, d);
      var w' := Attach(Frame(u.color, u.key, u.value, d, Child(u, !d)),
                       Attach(Frame(Black, p.key, p.value, d, Child(u, d)), x.(color := Red)));
      Balanced(w') && RedRule(w') && BlackHeight(w') == BlackHeight(Attach(p, x)) && u.color == Red
  {
    var s, d := p.other, p.toLeft;
    var h := BlackHeight(x);
    assert Balanced(x) && Balanced(s) && BlackHeight(s) == h && BlackHeight(Attach(p, x)) == h;
    assert BlackHeight(x.left) == h - 1 && BlackHeight(x.right) == h - 1;
    assert BlackHeight(s.left) == h - 1 && BlackHeight(s.right) == h - 1;
    var rc := Child(s, d);
    assert Balanced(rc) && RedRule(rc) && BlackHeight(rc.left) == h - 1 && BlackHeight(rc.right) == h - 1;
    var u := RotateUp(s, d);
    var inner, outer := Child(u, d), Child(u, !d);
    if d {
      assert inner == rc.left && outer == Node(Black, rc.right, s.key, s.value, s.right);
    } else {
      assert inner == rc.right && outer == Node(Black, s.left, s.key, s.value, rc.left);
    }
    assert Balanced(outer) && BlackHeight(outer) == h && RedRule(outer) && IsBlack(outer);
    assert Balanced(inner) && BlackHeight(inner) == h - 1 && RedRule(inner) && IsBlack(inner);
    var xr := x.(color := Red);
    assert Balanced(xr) && BlackHeight(xr) == h - 1 && RedRule(xr);
    var q := Attach(Frame(Black, p.key, p.value, d, inner), xr);
    assert Balanced(q) && BlackHeight(q) == h && RedRule(q);
  }

  /** Lines 117-139 (corrected side test) on the window of the parent: the top turns red, the black height is kept. */
  lemma BorrowLocal(p: Frame, x: Tree)
    requires BorrowWindow(p, x) && (IsRed(p.other.left) || IsRed(p.other.right)) && Ordered(p.other)
    ensures var w' := Whole(Borrow(Zip([p], x), false, Corrected));
      w'.Node? && Balanced(w') && RedRule(w') && BlackHeight(w') == BlackHeight(Attach(p, x))
  {
    var s := p.other;
    var d := p.toLeft;
    var rcLeft := !IsBlack(s.left);
    ChildKeySide(s, rcLeft);
    var z' := Borrow(Zip([p], x), false, Corrected);
    PlugTwo(z'.ctx, z'.focus);
    if d == rcLeft {
      BorrowDoubleLocal(p, x);
    } else {
      BorrowSingleLocal(p, x);
      var u := if rcLeft then s.(left := Blacken(s.left)) else s.(right := Blacken(s.right));
      assert Child(u, !d) == Blacken(Child(s, !d)) && Child(u, d) == Child(s, d);
    }
  }

  /** Lines 140-148 on the window of the parent: the top turns black, the black height is kept. */
  lemma FlipLocal(p: Frame, x: Tree)
    requires IsBlackNode(x) && IsBlack(x.left) && IsBlack(x.right) && RedRule(x)
    requires p.color == Red && IsBlack(p.other) && RedRule(p.other)
    requires p.other.Node? ==> IsBlack(p.other.left) && IsBlack(p.other.right)
    requires Balanced(Attach(p, x))
    ensures var w' := Whole(Flip(Zip([p], x)));
      w'.Node? && Balanced(w') && RedRule(w') && !IsRed(w') && BlackHeight(w') == BlackHeight(Attach(p, x))
  {
    var z' := Flip(Zip([p], x));
    var s := p.other;
    var h := BlackHeight(x);
    assert Balanced(x) && Balanced(s) && BlackHeight(s) == h && BlackHeight(Attach(p, x)) == h;
    assert BlackHeight(x.left) == h - 1 && BlackHeight(x.right) == h - 1;
    assert s.Node? && BlackHeight(Redden(s)) == h - 1 && Balanced(Redden(s)) && RedRule(Redden(s));
    assert z'.ctx == [p.(color := Black, other := Redden(s))];
    PlugOne(z'.ctx, z'.focus);
  }

  /** In an ordered node, a child's key tells on which side the child hangs. */
  lemma ChildKeySide(t: Tree, left: bool)
    requires t.Node? && Ordered(t) && Child(t, left).Node?
    ensures Child(t, left).key < t.key <==> left
  {
    var c := Child(t, left);
    var l, e, r := Inorder(t.left), Entry(t.key, t.value), Inorder(t.right);
    SortedAround(l, e, r);
    RootInInorder(c);
  }
  // ----- the swap of lines 176-181 -----------------------------------------------------------

  /** Same colours at the same positions; keys and values may differ. */
  predicate SameShape(t: Tree, u: Tree)
  {
    match t
    case Empty => u.Empty?
    case Node(c, l, _, _, r) => u.Node? && u.color == c && SameShape(l, u.left) && SameShape(r, u.right)
  }

  /** The red-black rules look at colours only, so trees of the same shape meet them alike. */
  lemma {:induction false} SameShapeRules(t: Tree, u: Tree)
    requires SameShape(t, u)
    ensures BlackHeight(t) == BlackHeight(u) && IsRed(t) == IsRed(u)
    ensures (Balanced(t) <==> Balanced(u)) && (RedRule(t) <==> RedRule(u))
  {
    if t.Node? {
      SameShapeRules(t.left, u.left);
      SameShapeRules(t.right, u.right);
    }
  }

  lemma {:induction false} SameShapeRefl(t: Tree)
    ensures SameShape(t, t)
  {
    if t.Node? {
      SameShapeRefl(t.left);
      SameShapeRefl(t.right);
    }
  }

  lemma {:induction false} SetMinShape(t: Tree, e: Entry)
    requires t.Node?
    ensures SameShape(t, SetMin(t, e))
  {
    SameShapeRefl(t.right);
    if t.left.Node? {
      SetMinShape(t.left, e);
    }
  }

  lemma {:induction false} SetMaxShape(t: Tree, e: Entry)
    requires t.Node?
    ensures SameShape(t, SetMax(t, e))
  {
    SameShapeRefl(t.left);
    if t.right.Node? {
      SetMaxShape(t.right, e);
    }
  }

  /** The swap moves pairs only: no colour and no link changes. */
  lemma SwapShape(x: Tree)
    requires x.Node? && !(x.left.Empty? && x.right.Empty?)
    ensures SameShape(x, Swap(x))
  {
    if x.right.Node? {
      SameShapeRefl(x.left);
      SetMinShape(x.right, Entry(x.key, x.value));
    } else {
      SameShapeRefl(x.right);
      SetMaxShape(x.left, Entry(x.key, x.value));
    }
  }

  lemma {:induction false} PlugShape(ctx: seq<Frame>, t: Tree, u: Tree)
    requires SameShape(t, u)
    ensures SameShape(Plug(ctx, t), Plug(ctx, u))
    decreases |ctx|
  {
    if ctx != [] {
      var f := ctx[|ctx| - 1];
      SameShapeRefl(f.other);
      PlugShape(ctx[..|ctx| - 1], Attach(f, t), Attach(f, u));
    }
  }

  /** `find_min_leaf_node` finds the first pair in order; writing there replaces exactly that pair. */
  lemma {:induction false} SetMinInorder(t: Tree, e: Entry)
    requires t.Node?
    ensures |Inorder(t)| > 0 && MinEntry(t) == Inorder(t)[0]
    ensures Inorder(SetMin(t, e)) == [e] + Inorder(t)[1..]
  {
    var m := [Entry(t.key, t.value)];
    if t.left.Node? {
      SetMinInorder(t.left, e);
      var l := Inorder(t.left);
      assert (l + m + Inorder(t.right))[1..] == l[1..] + m + Inorder(t.right);
    } else {
      assert Inorder(t) == m + Inorder(t.right);
    }
  }

  /** `find_max_leaf_node` finds the last pair in order; writing there replaces exactly that pair. */
  lemma {:induction false} SetMaxInorder(t: Tree, e: Entry)
    requires t.Node?
    ensures |Inorder(t)| > 0 && MaxEntry(t) == Inorder(t)[|Inorder(t)| - 1]
    ensures Inorder(SetMax(t, e)) == Inorder(t)[..|Inorder(t)| - 1] + [e]
  {
    var m := [Entry(t.key, t.value)];
    if t.right.Node? {
      SetMaxInorder(t.right, e);
      var r := Inorder(t.right);
      assert (Inorder(t.left) + m + r)[..|Inorder(t)| - 1] == Inorder(t.left) + m + r[..|r| - 1];
    } else {
      assert Inorder(t) == Inorder(t.left) + m;
    }
  }
  // ----- order side of the steps -------------------------------------------------------------

  lemma SortedParts(b: seq<Entry>, i: seq<Entry>, a: seq<Entry>)
    requires Sorted(b + i + a)
    ensures Sorted(b) && Sorted(i) && Sorted(a)
  {
    SortedSplit(b + i, a);
    SortedSplit(b, i);
  }

  /** The pairs on either side of the current subtree are sorted, in every mode. */
  lemma OrderSides(z: Zip, key: int, mode: Mode, c0: map<int, int>)
    requires OrderInv(z, key, mode, c0)
    ensures Sorted(Before(z.ctx)) && Sorted(After(z.ctx))
  {
    var b, i, a := Before(z.ctx), Inorder(z.focus), After(z.ctx);
    match mode
    case Search => SortedParts(b, i, a);
    case Min => SortedParts(b, i[1..], a);
    case Max => SortedParts(b, i[..|i| - 1], a);
  }

  /** The sibling's pairs lie inside one sorted side, so the sibling is ordered. */
  lemma SiblingOrdered(ctx: seq<Frame>, f: Frame)
    requires Sorted(Before(ctx + [f])) && Sorted(After(ctx + [f]))
    ensures Ordered(f.other)
  {
    SnocParts(ctx, f);
    var e := [Entry(f.key, f.value)];
    if f.toLeft {
      SortedSplit(e + Inorder(f.other), After(ctx));
      SortedSplit(e, Inorder(f.other));
    } else {
      SortedSplit(Before(ctx), Inorder(f.other) + e);
      SortedSplit(Inorder(f.other), e);
    }
  }

  /** Where the displaced key is after Advance: the leftmost (`Min`) or rightmost (`Max`) place after a swap. */
  function NextMode(x: Tree, key: int, mode: Mode): Mode
    requires x.Node?
  {
    if x.key != key then mode else if x.right.Node? then Min else Max
  }

  /** A node that is not the target hands on the side of the tree the key lies in. */
  lemma PassParts(z: Zip, key: int)
    requires z.focus.Node? && z.focus.key != key
    ensures var x, z' := z.focus, Advance(z, key);
      var l, e, r := Inorder(x.left), [Entry(x.key, x.value)], Inorder(x.right);
      if key < x.key then
        Before(z'.ctx) == Before(z.ctx) && Inorder(z'.focus) == l && After(z'.ctx) == e + r + After(z.ctx)
      else
        Before(z'.ctx) == Before(z.ctx) + (l + e) && Inorder(z'.focus) == r && After(z'.ctx) == After(z.ctx)
  {
    SnocParts(z.ctx, FrameOf(z.focus, key < z.focus.key));
  }

  /** A found node with a right child takes its successor's pair; the key moves to the first place of the right subtree. */
  lemma SwapMinParts(z: Zip, key: int)
    requires z.focus.Node? && z.focus.key == key && z.focus.right.Node?
    requires forall j :: 0 <= j < |Inorder(z.focus.right)| ==> key < Inorder(z.focus.right)[j].key
    ensures var x, z' := z.focus, Advance(z, key);
      var l, r := Inorder(x.left), Inorder(x.right);
      |r| > 0 && Before(z'.ctx) == Before(z.ctx) + (l + [r[0]]) &&
      Inorder(z'.focus) == [Entry(key, x.value)] + r[1..] && After(z'.ctx) == After(z.ctx)
  {
    var x := z.focus;
    var e := Entry(x.key, x.value);
    SetMinInorder(x.right, e);
    var m := MinEntry(x.right);
    var x' := Swap(x);
    assert x' == Node(x.color, x.left, m.key, m.value, SetMin(x.right, e));
    assert Entry(m.key, m.value) == Inorder(x.right)[0];
    SnocParts(z.ctx, FrameOf(x', false));
  }

  /** A found node without a right child takes its predecessor's pair; the key moves to the last place of the left subtree. */
  lemma SwapMaxParts(z: Zip, key: int)
    requires z.focus.Node? && z.focus.key == key && z.focus.right.Empty? && z.focus.left.Node?
    requires forall j :: 0 <= j < |Inorder(z.focus.left)| ==> Inorder(z.focus.left)[j].key < key
    ensures var x, z' := z.focus, Advance(z, key);
      var l := Inorder(x.left);
      |l| > 0 && Before(z'.ctx) == Before(z.ctx) &&
      Inorder(z'.focus) == l[..|l| - 1] + [Entry(key, x.value)] && After(z'.ctx) == [l[|l| - 1]] + After(z.ctx)
  {
    var x := z.focus;
    var e := Entry(x.key, x.value);
    SetMaxInorder(x.left, e);
    var m := MaxEntry(x.left);
    var x' := Swap(x);
    assert x' == Node(x.color, SetMax(x.left, e), m.key, m.value, x.right);
    var l := Inorder(x.left);
    assert Entry(m.key, m.value) == l[|l| - 1];
    SnocParts(z.ctx, FrameOf(x', true));
  }

  /** In sorted order, the pairs of a node's right part are above its key and those of its left part below. */
  lemma SortedNodeSides(b: seq<Entry>, l: seq<Entry>, e: Entry, r: seq<Entry>, a: seq<Entry>)
    requires Sorted(b + (l + [e] + r) + a)
    ensures forall j :: 0 <= j < |r| ==> e.key < r[j].key
    ensures forall j :: 0 <= j < |l| ==> l[j].key < e.key
  {
    SortedParts(b, l + [e] + r, a);
    SortedAround(l, e, r);
  }

  lemma SeqSearchLeft(b: seq<Entry>, l: seq<Entry>, e: Entry, r: seq<Entry>, a: seq<Entry>, key: int, c0: map<int, int>)
    requires OrderSeq(b, l + [e] + r, a, key, Search, c0) && key < e.key
    ensures OrderSeq(b, l, [e] + r + a, key, Search, c0)
  {
    SortedNodeSides(b, l, e, r, a);
    assert b + l + ([e] + r + a) == b + (l + [e] + r) + a;
    var a' := [e] + r + a;
    forall j | 0 <= j < |a'|
      ensures key < a'[j].key
    {
      if j == 0 {
      } else if j <= |r| {
        assert a'[j] == r[j - 1];
      } else {
        assert a'[j] == a[j - 1 - |r|];
      }
    }
  }

  lemma SeqSearchRight(b: seq<Entry>, l: seq<Entry>, e: Entry, r: seq<Entry>, a: seq<Entry>, key: int, c0: map<int, int>)
    requires OrderSeq(b, l + [e] + r, a, key, Search, c0) && e.key < key
    ensures OrderSeq(b + (l + [e]), r, a, key, Search, c0)
  {
    SortedNodeSides(b, l, e, r, a);
    assert b + (l + [e]) + r + a == b + (l + [e] + r) + a;
    var b' := b + (l + [e]);
    forall j | 0 <= j < |b'|
      ensures b'[j].key < key
    {
      if j < |b| {
        assert b'[j] == b[j];
      } else if j < |b| + |l| {
        assert b'[j] == l[j - |b|];
      } else {
        assert b'[j] == e;
      }
    }
  }

  /** Dropping the target pair from the sorted order leaves the map without the key, which the map had. */
  lemma SeqFound(b: seq<Entry>, l: seq<Entry>, e: Entry, r: seq<Entry>, a: seq<Entry>, key: int, c0: map<int, int>)
    requires OrderSeq(b, l + [e] + r, a, key, Search, c0) && e.key == key
    ensures Sorted((b + l) + (r + a)) && MapOf((b + l) + (r + a)) == c0 - {key} && key in c0
  {
    var s := b + (l + [e] + r) + a;
    assert s == (b + l) + [e] + (r + a);
    SortedDrop(b + l, e, r + a);
    MapOfAt(s, |b| + |l|);
    assert s[|b| + |l|] == e;
  }

  lemma SeqSearchSwapMin(b: seq<Entry>, l: seq<Entry>, e: Entry, r: seq<Entry>, a: seq<Entry>, key: int, c0: map<int, int>)
    requires OrderSeq(b, l + [e] + r, a, key, Search, c0) && e.key == key && |r| > 0
    ensures OrderSeq(b + (l + [r[0]]), [e] + r[1..], a, key, Min, c0)
  {
    SeqFound(b, l, e, r, a, key, c0);
    SortedNodeSides(b, l, e, r, a);
    var i' := [e] + r[1..];
    assert i'[1..] == r[1..];
    assert b + (l + [r[0]]) + i'[1..] + a == (b + l) + (r + a);
    forall j | 1 <= j < |i'|
      ensures key < i'[j].key
    {
      assert i'[j] == r[j];
    }
  }

  lemma SeqSearchSwapMax(b: seq<Entry>, l: seq<Entry>, e: Entry, r: seq<Entry>, a: seq<Entry>, key: int, c0: map<int, int>)
    requires OrderSeq(b, l + [e] + r, a, key, Search, c0) && e.key == key && |l| > 0 && r == []
    ensures OrderSeq(b, l[..|l| - 1] + [e], [l[|l| - 1]] + a, key, Max, c0)
  {
    SeqFound(b, l, e, r, a, key, c0);
    SortedNodeSides(b, l, e, r, a);
    var i' := l[..|l| - 1] + [e];
    assert i'[..|i'| - 1] == l[..|l| - 1];
    assert b + i'[..|i'| - 1] + ([l[|l| - 1]] + a) == (b + l) + (r + a);
    forall j | 0 <= j < |i'| - 1
      ensures i'[j].key < key
    {
      assert i'[j] == l[j];
    }
  }

  lemma SeqMinLeft(b: seq<Entry>, l: seq<Entry>, e: Entry, r: seq<Entry>, a: seq<Entry>, key: int, c0: map<int, int>)
    requires OrderSeq(b, l + [e] + r, a, key, Min, c0) && e.key != key
    ensures |l| > 0 && key < e.key && OrderSeq(b, l, [e] + r + a, key, Min, c0)
  {
    var i := l + [e] + r;
    assert i[|l|] == e;
    assert |l| > 0;
    assert i[1..] == l[1..] + [e] + r;
    assert b + l[1..] + ([e] + r + a) == b + i[1..] + a;
    forall j | 1 <= j < |l|
      ensures key < l[j].key
    {
      assert l[j] == i[j];
    }
  }

  lemma SeqMinSwap(b: seq<Entry>, l: seq<Entry>, e: Entry, r: seq<Entry>, a: seq<Entry>, key: int, c0: map<int, int>)
    requires OrderSeq(b, l + [e] + r, a, key, Min, c0) && e.key == key
    ensures l == [] && forall j :: 0 <= j < |r| ==> key < r[j].key
    ensures |r| > 0 ==> OrderSeq(b + (l + [r[0]]), [e] + r[1..], a, key, Min, c0)
  {
    var i := l + [e] + r;
    assert i[|l|] == e;
    assert |l| == 0;
    assert i[1..] == r;
    forall j | 0 <= j < |r|
      ensures key < r[j].key
    {
      assert r[j] == i[j + 1];
    }
    if |r| > 0 {
      var i' := [e] + r[1..];
      assert i'[1..] == r[1..];
      assert b + (l + [r[0]]) + i'[1..] + a == b + i[1..] + a;
      forall j | 1 <= j < |i'|
        ensures key < i'[j].key
      {
        assert i'[j] == r[j];
      }
    }
  }

  lemma SeqMaxRight(b: seq<Entry>, l: seq<Entry>, e: Entry, r: seq<Entry>, a: seq<Entry>, key: int, c0: map<int, int>)
    requires OrderSeq(b, l + [e] + r, a, key, Max, c0) && e.key != key
    ensures |r| > 0 && e.key < key && OrderSeq(b + (l + [e]), r, a, key, Max, c0)
  {
    var i := l + [e] + r;
    assert i[|l|] == e;
    assert |r| > 0;
    assert i[..|i| - 1] == l + [e] + r[..|r| - 1];
    assert b + (l + [e]) + r[..|r| - 1] + a == b + i[..|i| - 1] + a;
    forall j | 0 <= j < |r| - 1
      ensures r[j].key < key
    {
      assert r[j] == i[|l| + 1 + j];
    }
  }

  lemma SeqMaxSwap(b: seq<Entry>, l: seq<Entry>, e: Entry, r: seq<Entry>, a: seq<Entry>, key: int, c0: map<int, int>)
    requires OrderSeq(b, l + [e] + r, a, key, Max, c0) && e.key == key
    ensures r == [] && forall j :: 0 <= j < |l| ==> l[j].key < key
    ensures |l| > 0 ==> OrderSeq(b, l[..|l| - 1] + [e], [l[|l| - 1]] + a, key, Max, c0)
  {
    var i := l + [e] + r;
    assert i[|l|] == e;
    assert |r| == 0;
    assert i[..|i| - 1] == l;
    forall j | 0 <= j < |l|
      ensures l[j].key < key
    {
      assert l[j] == i[j];
    }
    if |l| > 0 {
      var i' := l[..|l| - 1] + [e];
      assert i'[..|i'| - 1] == l[..|l| - 1];
      assert b + i'[..|i'| - 1] + ([l[|l| - 1]] + a) == b + i[..|i| - 1] + a;
      forall j | 0 <= j < |i'| - 1
        ensures i'[j].key < key
      {
        assert i'[j] == l[j];
      }
    }
  }

  /** Lines 176-189 keep the order side of the invariant, in the mode the step leads to. */
  lemma AdvanceOrder(z: Zip, key: int, mode: Mode, c0: map<int, int>)
    requires OrderInv(z, key, mode, c0) && z.focus.Node?
    requires !(z.focus.key == key && z.focus.left.Empty? && z.focus.right.Empty?)
    ensures OrderInv(Advance(z, key), key, NextMode(z.focus, key, mode), c0)
  {
    var x := z.focus;
    var b, a := Before(z.ctx), After(z.ctx);
    var l, e, r := Inorder(x.left), Entry(x.key, x.value), Inorder(x.right);
    assert Inorder(x) == l + [e] + r;
    if x.key != key {
      PassParts(z, key);
      match mode
      case Search =>
        if key < x.key {
          SeqSearchLeft(b, l, e, r, a, key, c0);
        } else {
          SeqSearchRight(b, l, e, r, a, key, c0);
        }
      case Min =>
        SeqMinLeft(b, l, e, r, a, key, c0);
      case Max =>
        SeqMaxRight(b, l, e, r, a, key, c0);
    } else {
      if mode == Min {
        SeqMinSwap(b, l, e, r, a, key, c0);
      } else if mode == Max {
        SeqMaxSwap(b, l, e, r, a, key, c0);
      } else {
        SortedNodeSides(b, l, e, r, a);
      }
      if x.right.Node? {
        SwapMinParts(z, key);
        if mode == Search {
          SeqSearchSwapMin(b, l, e, r, a, key, c0);
        }
      } else {
        SwapMaxParts(z, key);
        if mode == Search {
          SeqSearchSwapMax(b, l, e, r, a, key, c0);
        }
      }
    }
  }
  // ----- colour side of the steps on the whole path ----------------------------------------

  /**
   * After lines 102-150 the current node is ready to be left: it is red, or
   * black with a red child, and the tree is still balanced and red-black below
   * the root.
   */
  predicate Ready(z: Zip)
  {
    var w := Whole(z);
    Balanced(w) && RedRuleBelowRoot(w) && z.focus.Node? &&
    (IsRed(z.focus) || IsRed(z.focus.left) || IsRed(z.focus.right))
  }

  /** Lines 105-113 on the whole path keep the invariant; the current node is now under a red parent. */
  lemma RedSiblingStep(ctx: seq<Frame>, p: Frame, x: Tree, key: int, mode: Mode, c0: map<int, int>)
    requires EraseInv(Zip(ctx + [p], x), key, mode, c0) && IsBlackNode(x) && IsRed(p.other)
    ensures EraseInv(RotateRedSibling(Zip(ctx + [p], x), false), key, mode, c0)
  {
    var z := Zip(ctx + [p], x);
    var w := Attach(p, x);
    PlugSnoc(ctx, p, x);
    WindowFacts(ctx, w);
    RedSiblingLocal(p, x);
    var lz := RotateRedSibling(Zip([p], x), false);
    assert (ctx + [p])[..|ctx|] == ctx;
    assert RotateRedSibling(z, false) == Zip(ctx + lz.ctx, x);
    PlugAppend(ctx, lz.ctx, x);
    LiftWindow(ctx, w, Whole(lz));
    RotateWindow(ctx, p, p.other, Black, Red);
  }

  /** Lines 117-139 (corrected) on the whole path: the current node turns red and the invariant holds. */
  lemma BorrowStep(ctx: seq<Frame>, p: Frame, x: Tree, key: int, mode: Mode, c0: map<int, int>)
    requires EraseInv(Zip(ctx + [p], x), key, mode, c0) && IsBlackNode(x) && IsBlack(x.left) && IsBlack(x.right)
    requires IsBlackNode(p.other) && (IsRed(p.other.left) || IsRed(p.other.right))
    ensures var z1 := MakeRed(Zip(ctx + [p], x), false, Corrected);
      Ready(z1) && OrderInv(z1, key, mode, c0)
  {
    BorrowStepReady(ctx, p, x, key, mode, c0);
    BorrowStepOrder(ctx, p, x, key, mode, c0);
  }

  /** The colour half of `BorrowStep`. */
  lemma BorrowStepReady(ctx: seq<Frame>, p: Frame, x: Tree, key: int, mode: Mode, c0: map<int, int>)
    requires EraseInv(Zip(ctx + [p], x), key, mode, c0) && IsBlackNode(x) && IsBlack(x.left) && IsBlack(x.right)
    requires IsBlackNode(p.other) && (IsRed(p.other.left) || IsRed(p.other.right))
    ensures Ready(MakeRed(Zip(ctx + [p], x), false, Corrected))
  {
    var z := Zip(ctx + [p], x);
    var w := Attach(p, x);
    PlugSnoc(ctx, p, x);
    WindowFacts(ctx, w);
    OrderSides(z, key, mode, c0);
    SiblingOrdered(ctx, p);
    BorrowLocal(p, x);
    var lz := Borrow(Zip([p], x), false, Corrected);
    assert (ctx + [p])[..|ctx|] == ctx;
    assert MakeRed(z, false, Corrected) == Zip(ctx + lz.ctx, lz.focus);
    PlugAppend(ctx, lz.ctx, lz.focus);
    LiftWindow(ctx, w, Whole(lz));
  }

  /** The order half of `BorrowStep`: the rotations keep the pairs left and right of the current node. */
  lemma BorrowStepOrder(ctx: seq<Frame>, p: Frame, x: Tree, key: int, mode: Mode, c0: map<int, int>)
    requires OrderInv(Zip(ctx + [p], x), key, mode, c0) && IsBlackNode(x) && IsBlack(x.left) && IsBlack(x.right)
    requires IsBlackNode(p.other) && (IsRed(p.other.left) || IsRed(p.other.right))
    ensures OrderInv(MakeRed(Zip(ctx + [p], x), false, Corrected), key, mode, c0)
  {
    var z1 := MakeRed(Zip(ctx + [p], x), false, Corrected);
    var s := p.other;
    assert (ctx + [p])[..|ctx|] == ctx;
    var rcLeft := !IsBlack(s.left);
    if p.toLeft == (Child(s, rcLeft).key < s.key) {
      RotateWindow(ctx, p, RotateUp(s, rcLeft), RotateUp(s, rcLeft).color, Black);
    } else {
      var s1 := if rcLeft then s.(left := Blacken(s.left)) else s.(right := Blacken(s.right));
      assert Inorder(s1) == Inorder(s);
      RotateWindow(ctx, p, s1, Red, Black);
    }
    assert Before(z1.ctx) == Before(ctx + [p]) && After(z1.ctx) == After(ctx + [p]);
  }

  /** Lines 140-148 on the whole path: the current node turns red and the invariant holds. */
  lemma FlipStep(ctx: seq<Frame>, p: Frame, x: Tree, key: int, mode: Mode, c0: map<int, int>)
    requires EraseInv(Zip(ctx + [p], x), key, mode, c0) && IsBlackNode(x) && IsBlack(x.left) && IsBlack(x.right)
    requires !IsRed(p.other) && !(p.other.Node? && (IsRed(p.other.left) || IsRed(p.other.right)))
    ensures var z1 := MakeRed(Zip(ctx + [p], x), false, Corrected);
      Ready(z1) && OrderInv(z1, key, mode, c0)
  {
    var z := Zip(ctx + [p], x);
    var w := Attach(p, x);
    PlugSnoc(ctx, p, x);
    WindowFacts(ctx, w);
    FlipLocal(p, x);
    var lz := Flip(Zip([p], x));
    var p' := p.(color := Black, other := Redden(p.other));
    assert lz.ctx == [p'];
    assert (ctx + [p])[..|ctx|] == ctx;
    assert MakeRed(z, false, Corrected) == Zip(ctx + [p'], lz.focus);
    PlugAppend(ctx, lz.ctx, lz.focus);
    LiftWindow(ctx, w, Whole(lz));
    SnocParts(ctx, p);
    SnocParts(ctx, p');
  }

  /** A path is its prefix followed by its last frame. */
  lemma LastFrame(ctx: seq<Frame>)
    requires ctx != []
    ensures ctx == ctx[..|ctx| - 1] + [ctx[|ctx| - 1]]
  {
  }

  /** Lines 102-150 (corrected), once the sibling is not red, leave the current node ready and the order invariant intact. */
  lemma MakeRedStep(z: Zip, key: int, mode: Mode, c0: map<int, int>)
    requires EraseInv(z, key, mode, c0) && z.focus.Node?
    requires IsBlackNode(z.focus) ==> z.ctx != [] && !IsRed(z.ctx[|z.ctx| - 1].other)
    ensures var z1 := MakeRed(z, false, Corrected);
      Ready(z1) && OrderInv(z1, key, mode, c0)
  {
    var x := z.focus;
    if IsBlackNode(x) && IsBlack(x.left) && IsBlack(x.right) {
      var n := |z.ctx|;
      var ctx, p := z.ctx[..n - 1], z.ctx[n - 1];
      LastFrame(z.ctx);
      if p.other.Node? && (IsRed(p.other.left) || IsRed(p.other.right)) {
        BorrowStep(ctx, p, x, key, mode, c0);
      } else {
        FlipStep(ctx, p, x, key, mode, c0);
      }
    }
  }

  /** Lines 176-189 keep the colour side of the invariant: the swap changes no colour and the child inherits the red. */
  lemma AdvanceColor(z: Zip, key: int)
    requires Ready(z) && !(z.focus.key == key && z.focus.left.Empty? && z.focus.right.Empty?)
    ensures ColorInv(Advance(z, key))
  {
    var x := z.focus;
    var replaced := x.key == key;
    var x' := if replaced then Swap(x) else x;
    var d := (key < x'.key) != replaced;
    if replaced {
      SwapShape(x);
    } else {
      SameShapeRefl(x);
    }
    SameShapeRules(x.left, x'.left);
    SameShapeRules(x.right, x'.right);
    PlugShape(z.ctx, x, x');
    var w, w' := Whole(z), Plug(z.ctx, x');
    SameShapeRules(w, w');
    if w.Node? {
      SameShapeRules(w.left, w'.left);
      SameShapeRules(w.right, w'.right);
    }
    PlugSnoc(z.ctx, FrameOf(x', d), Child(x', d));
    assert Attach(FrameOf(x', d), Child(x', d)) == x';
  }

  // ----- the two ways the loop ends ------------------------------------------------------------

  /** Lines 153-172: the red leaf holding the key is unlinked; the tree with a black root is red-black, ordered, and holds the map without the key. */
  lemma LeafEnd(z: Zip, key: int, mode: Mode, c0: map<int, int>)
    requires Ready(z) && OrderInv(z, key, mode, c0)
    requires z.focus.key == key && z.focus.left.Empty? && z.focus.right.Empty?
    ensures var t := Blacken(Plug(z.ctx, Empty));
      IsRedBlack(t) && Ordered(t) && Content(t) == c0 - {key} && key in c0
  {
    LeafEndRules(z);
    LeafEndContent(z, key, mode, c0);
  }

  /** The colour half of `LeafEnd`: unlinking the red leaf keeps the red-black rules once the root is black. */
  lemma LeafEndRules(z: Zip)
    requires Ready(z) && z.focus.Node? && z.focus.left.Empty? && z.focus.right.Empty?
    ensures IsRedBlack(Blacken(Plug(z.ctx, Empty)))
  {
    var x := z.focus;
    ReplaceBalanced(z.ctx, x, Empty);
    if z.ctx != [] {
      PlugRedBelowRoot(z.ctx, x);
      RedCtxRecolor(z.ctx, true, false, true);
      PlugRedBelowRoot(z.ctx, Empty);
    }
    BlackenRoot(Plug(z.ctx, Empty));
  }

  /** The order half of `LeafEnd`: unlinking the leaf holding the key leaves the other pairs in order. */
  lemma LeafEndContent(z: Zip, key: int, mode: Mode, c0: map<int, int>)
    requires OrderInv(z, key, mode, c0)
    requires z.focus.Node? && z.focus.key == key && z.focus.left.Empty? && z.focus.right.Empty?
    ensures var t := Blacken(Plug(z.ctx, Empty));
      Ordered(t) && Content(t) == c0 - {key} && key in c0
  {
    var x := z.focus;
    var e := Entry(x.key, x.value);
    var b, a := Before(z.ctx), After(z.ctx);
    var t := Plug(z.ctx, Empty);
    assert Inorder(Blacken(t)) == Inorder(t);
    PlugInorder(z.ctx, Empty);
    assert Inorder(x) == [] + [e] + [];
    assert b + [] + a == b + a;
    if mode == Search {
      SeqFound(b, [], e, [], a, key, c0);
      assert (b + []) + ([] + a) == b + a;
    } else {
      assert [e][1..] == [] && [e][..0] == [];
    }
  }

  /** Lines 184-191: the key was not found; the tree with a black root is red-black, ordered, and holds the same map, which lacks the key. */
  lemma EmptyEnd(z: Zip, key: int, mode: Mode, c0: map<int, int>)
    requires EraseInv(z, key, mode, c0) && z.focus.Empty?
    ensures var t := Blacken(Whole(z));
      IsRedBlack(t) && Ordered(t) && Content(t) == c0 - {key} && key !in c0
  {
    var b, a := Before(z.ctx), After(z.ctx);
    BlackenRoot(Whole(z));
    PlugInorder(z.ctx, z.focus);
    assert mode == Search;
    assert b + Inorder(z.focus) + a == b + a;
    MapOfKeys(b + a, key);
    forall k | 0 <= k < |b + a|
      ensures (b + a)[k].key != key
    {
      if k < |b| {
        assert (b + a)[k] == b[k];
      } else {
        assert (b + a)[k] == a[k - |b|];
      }
    }
  }

  // ----- the loop --------------------------------------------------------------------------------

  /** What Erase promises of its result: red-black, in key order, `c0` without `key`, and the flag telling whether `key` was there. */
  predicate Erased(r: (Tree, bool), key: int, c0: map<int, int>)
  {
    IsRedBlack(r.0) && Ordered(r.0) && Content(r.0) == c0 - {key} && (r.1 <==> key in c0)
  }

  lemma LoopRedSibling(z: Zip, key: int)
    requires z.focus.Node? && IsBlackNode(z.focus) && z.ctx != [] && IsRed(z.ctx[|z.ctx| - 1].other)
    ensures Loop(z, key, false, Corrected) == Loop(RotateRedSibling(z, false), key, false, Corrected)
  {
  }

  lemma LoopMakeRed(z: Zip, key: int)
    requires z.focus.Node? && (IsBlackNode(z.focus) ==> z.ctx != [] && !IsRed(z.ctx[|z.ctx| - 1].other))
    ensures var z1 := MakeRed(z, false, Corrected);
      var x := z1.focus;
      Loop(z, key, false, Corrected) ==
        if x.key == key && x.left.Empty? && x.right.Empty? then (Blacken(Plug(z1.ctx, Empty)), true)
        else Loop(Advance(z1, key), key, false, Corrected)
  {
  }

  /**
   * The corrected loop from any state meeting the invariant ends with a
   * red-black, ordered tree holding `c0` without `key`, and reports whether
   * `key` was stored.
   */
  lemma {:induction false} LoopCorrect(z: Zip, key: int, mode: Mode, c0: map<int, int>)
    requires EraseInv(z, key, mode, c0)
    ensures z.ctx == [] ==> !IsBlackNode(z.focus)
    ensures Erased(Loop(z, key, false, Corrected), key, c0)
    decreases Height(z.focus), SiblingSize(z.ctx)
  {
    if z.focus.Empty? {
      EmptyEnd(z, key, mode, c0);
    } else if IsBlackNode(z.focus) && IsRed(z.ctx[|z.ctx| - 1].other) {
      StepRedSibling(z, key, mode, c0);
      LoopCorrect(RotateRedSibling(z, false), key, mode, c0);
    } else {
      StepMakeRed(z, key, mode, c0);
      var z1 := MakeRed(z, false, Corrected);
      var x := z1.focus;
      if !(x.key == key && x.left.Empty? && x.right.Empty?) {
        LoopCorrect(Advance(z1, key), key, NextMode(x, key, mode), c0);
      }
    }
  }

  /** One turn of the loop at a black node under a red sibling (lines 105-113): the invariant holds again and the outcome is unchanged. */
  lemma StepRedSibling(z: Zip, key: int, mode: Mode, c0: map<int, int>)
    requires EraseInv(z, key, mode, c0) && IsBlackNode(z.focus) && z.ctx != [] && IsRed(z.ctx[|z.ctx| - 1].other)
    ensures EraseInv(RotateRedSibling(z, false), key, mode, c0)
    ensures Loop(z, key, false, Corrected) == Loop(RotateRedSibling(z, false), key, false, Corrected)
  {
    LastFrame(z.ctx);
    RedSiblingStep(z.ctx[..|z.ctx| - 1], z.ctx[|z.ctx| - 1], z.focus, key, mode, c0);
    LoopRedSibling(z, key);
  }

  /**
   * One turn of the loop otherwise (lines 115-189): either the node is the red
   * leaf holding `key`, and the loop ends with it cut off and the root
   * blackened, a tree that meets `Erased`; or the walk moves one level down in
   * a state meeting the invariant, with the same outcome.
   */
  lemma StepMakeRed(z: Zip, key: int, mode: Mode, c0: map<int, int>)
    requires EraseInv(z, key, mode, c0) && z.focus.Node?
    requires IsBlackNode(z.focus) ==> z.ctx != [] && !IsRed(z.ctx[|z.ctx| - 1].other)
    ensures var z1 := MakeRed(z, false, Corrected);
      var x := z1.focus;
      if x.key == key && x.left.Empty? && x.right.Empty? then
        Loop(z, key, false, Corrected) == (Blacken(Plug(z1.ctx, Empty)), true) &&
        Erased((Blacken(Plug(z1.ctx, Empty)), true), key, c0)
      else
        EraseInv(Advance(z1, key), key, NextMode(x, key, mode), c0) &&
        Loop(z, key, false, Corrected) == Loop(Advance(z1, key), key, false, Corrected)
  {
    MakeRedStep(z, key, mode, c0);
    LoopMakeRed(z, key);
    var z1 := MakeRed(z, false, Corrected);
    var x := z1.focus;
    if x.key == key && x.left.Empty? && x.right.Empty? {
      LeafEnd(z1, key, mode, c0);
    } else {
      AdvanceColor(z1, key);
      AdvanceOrder(z1, key, mode, c0);
    }
  }

  /**
   * `Erase(key)` (corrected) on a non-empty red-black tree: the result is a
   * red-black tree in key order that holds every other pair with its value and
   * not `key`, and the flag says whether `key` was stored.
   */
  lemma EraseCorrect(t: Tree, key: int)
    requires t.Node? && IsRedBlack(t) && Ordered(t)
    ensures Erased(Erase(t, key), key, Content(t))
  {
    EraseStart(t, key);
    LoopCorrect(Zip([], t.(color := Red)), key, Search, Content(t));
  }

  /** Line 100: the red-black tree with its root painted red is a state the loop's invariant holds in. */
  lemma EraseStart(t: Tree, key: int)
    requires t.Node? && IsRedBlack(t) && Ordered(t)
    ensures EraseInv(Zip([], t.(color := Red)), key, Search, Content(t))
  {
    var z := Zip([], t.(color := Red));
    assert Inorder(z.focus) == Inorder(t);
    assert Before([]) + Inorder(z.focus) + After([]) == Inorder(t);
  }
}
