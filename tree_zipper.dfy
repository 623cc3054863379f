/**
 * The descent state of Insert and Erase: the ancestors of the current node
 * (root first) and the subtree the current node heads. `node`, `parent_node`,
 * `grand_parent_node` and `grand_grand_parent_node` of the source are the focus
 * and the last frames of this path.
 */
module TreeZipper {
  import opened RbSpec

  /** An ancestor on the path: its own fields, the side the path takes, and the child it leaves aside. */
  datatype Frame = Frame(color: Color, key: int, value: int, toLeft: bool, other: Tree)

  /** A descent state: the path (root first) and the subtree at the current position. */
  datatype Zip = Zip(ctx: seq<Frame>, focus: Tree)

  function Attach(f: Frame, t: Tree): Tree
  {
    if f.toLeft then Node(f.color, t, f.key, f.value, f.other) else Node(f.color, f.other, f.key, f.value, t)
  }

  /** The whole tree: the focus hung back under its ancestors, the last frame first. */
  function Plug(ctx: seq<Frame>, t: Tree): Tree
    decreases |ctx|
  {
    if ctx == [] then t else Plug(ctx[..|ctx| - 1], Attach(ctx[|ctx| - 1], t))
  }

  function Whole(z: Zip): Tree
  {
    Plug(z.ctx, z.focus)
  }

  /** The frame of node `t` when the descent continues to its left (`toLeft`) or right child. */
  function FrameOf(t: Tree, toLeft: bool): Frame
    requires t.Node?
  {
    Frame(t.color, t.key, t.value, toLeft, if toLeft then t.right else t.left)
  }

  function Child(t: Tree, toLeft: bool): Tree
    requires t.Node?
  {
    if toLeft then t.left else t.right
  }

  /** Pairs of the whole tree to the left of the focus. */
  function Before(ctx: seq<Frame>): seq<Entry>
    decreases |ctx|
  {
    if ctx == [] then []
    else
      var f := ctx[|ctx| - 1];
      Before(ctx[..|ctx| - 1]) + (if f.toLeft then [] else Inorder(f.other) + [Entry(f.key, f.value)])
  }

  /** Pairs of the whole tree to the right of the focus. */
  function After(ctx: seq<Frame>): seq<Entry>
    decreases |ctx|
  {
    if ctx == [] then []
    else
      var f := ctx[|ctx| - 1];
      (if f.toLeft then [Entry(f.key, f.value)] + Inorder(f.other) else []) + After(ctx[..|ctx| - 1])
  }

  /** Black heights along the path fit a focus of black height `h`, and every side child is balanced. */
  predicate BalancedCtx(ctx: seq<Frame>, h: nat)
    decreases |ctx|
  {
    if ctx == [] then true
    else
      var f := ctx[|ctx| - 1];
      Balanced(f.other) && BlackHeight(f.other) == h &&
      BalancedCtx(ctx[..|ctx| - 1], h + (if f.color == Black then 1 else 0))
  }

  /**
   * The red rule along the path, for a focus whose top is red iff `red`; with
   * `exemptRoot` the root frame may be red above red children.
   */
  predicate RedCtx(ctx: seq<Frame>, red: bool, exemptRoot: bool)
    decreases |ctx|
  {
    if ctx == [] then true
    else
      var f := ctx[|ctx| - 1];
      RedRule(f.other) &&
      (f.color == Red && !(exemptRoot && |ctx| == 1) ==> !red && IsBlack(f.other)) &&
      RedCtx(ctx[..|ctx| - 1], f.color == Red, exemptRoot)
  }

  /** The search for `x` follows the path: it goes left exactly at the frames that go left. */
  predicate OnPath(ctx: seq<Frame>, x: int)
  {
    forall i :: 0 <= i < |ctx| ==> if ctx[i].toLeft then x < ctx[i].key else ctx[i].key < x
  }

  // ----- lemmas ---------------------------------------------------------------------

  /** A non-empty path is its upper part followed by its last frame. */
  lemma SplitLast<T>(s: seq<T>)
    requires s != []
    ensures s == s[..|s| - 1] + [s[|s| - 1]]
  {
    var r := s[..|s| - 1] + [s[|s| - 1]];
    assert |r| == |s|;
    forall i | 0 <= i < |s|
      ensures r[i] == s[i]
    {
      if i < |s| - 1 {
        assert r[i] == s[..|s| - 1][i];
      }
    }
  }

  lemma PlugSnoc(ctx: seq<Frame>, f: Frame, t: Tree)
    ensures Plug(ctx + [f], t) == Plug(ctx, Attach(f, t))
  {
    assert (ctx + [f])[..|ctx|] == ctx;
  }

  /** Two frames up: the focus, its parent and its grandparent form a window under the rest of the path. */
  lemma PlugTwo(ctx: seq<Frame>, t: Tree)
    requires |ctx| >= 2
    ensures Plug(ctx, t) == Plug(ctx[..|ctx| - 2], Attach(ctx[|ctx| - 2], Attach(ctx[|ctx| - 1], t)))
  {
    var n := |ctx|;
    assert ctx[..n - 1][..n - 2] == ctx[..n - 2];
  }

  lemma PlugOne(ctx: seq<Frame>, t: Tree)
    requires |ctx| >= 1
    ensures Plug(ctx, t) == Plug(ctx[..|ctx| - 1], Attach(ctx[|ctx| - 1], t))
  {
  }

  lemma {:induction false} PlugInorder(ctx: seq<Frame>, t: Tree)
    ensures Inorder(Plug(ctx, t)) == Before(ctx) + Inorder(t) + After(ctx)
    decreases |ctx|
  {
    if ctx != [] {
      var f := ctx[|ctx| - 1];
      PlugInorder(ctx[..|ctx| - 1], Attach(f, t));
    }
  }

  /** The root of a non-empty path is its first frame. */
  lemma {:induction false} PlugRoot(ctx: seq<Frame>, t: Tree)
    requires ctx != []
    ensures Plug(ctx, t).Node? && Plug(ctx, t).color == ctx[0].color
    decreases |ctx|
  {
    if |ctx| > 1 {
      PlugRoot(ctx[..|ctx| - 1], Attach(ctx[|ctx| - 1], t));
    }
  }

  lemma {:induction false} PlugBalanced(ctx: seq<Frame>, t: Tree)
    ensures Balanced(Plug(ctx, t)) <==> Balanced(t) && BalancedCtx(ctx, BlackHeight(t))
    decreases |ctx|
  {
    if ctx != [] {
      var f := ctx[|ctx| - 1];
      PlugBalanced(ctx[..|ctx| - 1], Attach(f, t));
    }
  }

  lemma {:induction false} PlugRed(ctx: seq<Frame>, t: Tree)
    ensures RedRule(Plug(ctx, t)) <==> RedRule(t) && RedCtx(ctx, IsRed(t), false)
    decreases |ctx|
  {
    if ctx != [] {
      var f := ctx[|ctx| - 1];
      PlugRed(ctx[..|ctx| - 1], Attach(f, t));
    }
  }

  lemma {:induction false} PlugRedBelowRoot(ctx: seq<Frame>, t: Tree)
    requires ctx != []
    ensures RedRuleBelowRoot(Plug(ctx, t)) <==> RedRule(t) && RedCtx(ctx, IsRed(t), true)
    decreases |ctx|
  {
    var f := ctx[|ctx| - 1];
    if |ctx| > 1 {
      PlugRedBelowRoot(ctx[..|ctx| - 1], Attach(f, t));
    }
  }

  /** Replacing the focus by a subtree with the same pairs keeps the pairs of the whole tree. */
  lemma ReplaceInorder(ctx: seq<Frame>, t: Tree, t': Tree)
    requires Inorder(t') == Inorder(t)
    ensures Inorder(Plug(ctx, t')) == Inorder(Plug(ctx, t))
  {
    PlugInorder(ctx, t);
    PlugInorder(ctx, t');
  }

  /** Replacing the focus by a balanced subtree of the same black height keeps the tree balanced. */
  lemma ReplaceBalanced(ctx: seq<Frame>, t: Tree, t': Tree)
    requires Balanced(Plug(ctx, t)) && Balanced(t') && BlackHeight(t') == BlackHeight(t)
    ensures Balanced(Plug(ctx, t'))
  {
    PlugBalanced(ctx, t);
    PlugBalanced(ctx, t');
  }

  /** A focus that is black on top, or sits under a black parent, meets the red rule of the path if the old one did. */
  lemma RedCtxRecolor(ctx: seq<Frame>, red: bool, red': bool, e: bool)
    requires RedCtx(ctx, red, e)
    requires !red' || red || (ctx != [] && (ctx[|ctx| - 1].color == Black || (e && |ctx| == 1)))
    ensures RedCtx(ctx, red', e)
  {
  }

  /** An ordered tree stays ordered in every subtree on the path, and its parts are separated by the frame keys. */
  lemma {:induction false} PlugOrdered(ctx: seq<Frame>, t: Tree)
    requires Ordered(Plug(ctx, t))
    ensures Ordered(t)
    decreases |ctx|
  {
    if ctx != [] {
      var f := ctx[|ctx| - 1];
      PlugOrdered(ctx[..|ctx| - 1], Attach(f, t));
      OrderedNode(Attach(f, t), f.key);
    }
  }

  /** In an ordered node reached from frame `f`, the keys of the hung subtree lie on the frame's side. */
  lemma {:induction false} AttachSide(f: Frame, t: Tree)
    requires Ordered(Attach(f, t))
    ensures Ordered(t) && Ordered(f.other)
    ensures forall i :: 0 <= i < |Inorder(t)| ==> (Inorder(t)[i].key < f.key <==> f.toLeft)
    ensures forall i :: 0 <= i < |Inorder(f.other)| ==> (Inorder(f.other)[i].key < f.key <==> !f.toLeft)
  {
    var e := [Entry(f.key, f.value)];
    if f.toLeft {
      SortedSplit(Inorder(t) + e, Inorder(f.other));
      SortedSplit(Inorder(t), e);
      assert (Inorder(t) + e)[|Inorder(t)|] == e[0];
    } else {
      SortedSplit(Inorder(f.other) + e, Inorder(t));
      SortedSplit(Inorder(f.other), e);
      assert (Inorder(f.other) + e)[|Inorder(f.other)|] == e[0];
    }
  }

  /** The root key of a subtree lies in its in-order sequence. */
  lemma RootInInorder(t: Tree)
    requires t.Node?
    ensures exists i :: 0 <= i < |Inorder(t)| && Inorder(t)[i].key == t.key
  {
    assert Inorder(t)[|Inorder(t.left)|].key == t.key;
  }

  /** Searching along the path: a key the path leads to is stored in the tree iff it is stored in the focus. */
  lemma {:induction false} OnPathContent(ctx: seq<Frame>, t: Tree, x: int)
    requires Ordered(Plug(ctx, t)) && OnPath(ctx, x)
    ensures x in Content(Plug(ctx, t)) <==> x in Content(t)
    ensures x in Content(t) ==> Content(Plug(ctx, t))[x] == Content(t)[x]
    decreases |ctx|
  {
    if ctx != [] {
      var f := ctx[|ctx| - 1];
      var a := Attach(f, t);
      OnPathContent(ctx[..|ctx| - 1], a, x);
      PlugOrdered(ctx[..|ctx| - 1], a);
      OrderedNode(a, x);
    }
  }

  /** Every pair of `s` has a key below `x`. */
  predicate AllBelow(s: seq<Entry>, x: int)
  {
    forall i :: 0 <= i < |s| ==> s[i].key < x
  }

  /** Every pair of `s` has a key above `x`. */
  predicate AllAbove(s: seq<Entry>, x: int)
  {
    forall i :: 0 <= i < |s| ==> x < s[i].key
  }

  lemma BelowJoin(a: seq<Entry>, b: seq<Entry>, x: int)
    requires AllBelow(a, x) && AllBelow(b, x)
    ensures AllBelow(a + b, x)
  {
    forall i | 0 <= i < |a + b|
      ensures (a + b)[i].key < x
    {
      if i < |a| {
        assert (a + b)[i] == a[i];
      } else {
        assert (a + b)[i] == b[i - |a|];
      }
    }
  }

  lemma AboveJoin(a: seq<Entry>, b: seq<Entry>, x: int)
    requires AllAbove(a, x) && AllAbove(b, x)
    ensures AllAbove(a + b, x)
  {
    forall i | 0 <= i < |a + b|
      ensures x < (a + b)[i].key
    {
      if i < |a| {
        assert (a + b)[i] == a[i];
      } else {
        assert (a + b)[i] == b[i - |a|];
      }
    }
  }

  /** Along the path to `x`, every pair left of the focus has a smaller key, every pair right of it a larger one. */
  lemma {:induction false} OnPathBounds(ctx: seq<Frame>, t: Tree, x: int)
    requires Ordered(Plug(ctx, t)) && OnPath(ctx, x)
    ensures AllBelow(Before(ctx), x) && AllAbove(After(ctx), x)
    decreases |ctx|
  {
    if ctx != [] {
      var n := |ctx|;
      var f := ctx[n - 1];
      var a := Attach(f, t);
      OnPathBounds(ctx[..n - 1], a, x);
      PlugOrdered(ctx[..n - 1], a);
      AttachSide(f, t);
      var e := [Entry(f.key, f.value)];
      var o := Inorder(f.other);
      if !f.toLeft {
        assert f.key < x;
        assert AllBelow(o, x);
        assert AllBelow(e, x);
        BelowJoin(o, e, x);
        BelowJoin(Before(ctx[..n - 1]), o + e, x);
      } else {
        assert x < f.key;
        assert AllAbove(o, x);
        assert AllAbove(e, x);
        AboveJoin(e, o, x);
        AboveJoin(e + o, After(ctx[..n - 1]), x);
      }
    }
  }

  /** One frame more at the bottom of the path: how the pairs left and right of the focus grow. */
  lemma SnocParts(ctx: seq<Frame>, f: Frame)
    ensures Before(ctx + [f]) == Before(ctx) + (if f.toLeft then [] else Inorder(f.other) + [Entry(f.key, f.value)])
    ensures After(ctx + [f]) == (if f.toLeft then [Entry(f.key, f.value)] + Inorder(f.other) else []) + After(ctx)
  {
    assert (ctx + [f])[..|ctx|] == ctx;
  }

  /**
   * Replacing the last frame `p`, whose side child is a tree with the pairs of
   * `u`, by two frames built from a rotation of `u` above `p` (the top of `u`,
   * then `p` adopting `u`'s child on the path's side) keeps the pairs on either
   * side of the focus.
   */
  lemma RotateWindow(ctx: seq<Frame>, p: Frame, u: Tree, c1: Color, c2: Color)
    requires u.Node? && Inorder(u) == Inorder(p.other)
    ensures var d := p.toLeft;
      var t := Frame(c1, u.key, u.value, d, Child(u, !d));
      var q := Frame(c2, p.key, p.value, d, Child(u, d));
      Before(ctx + [t, q]) == Before(ctx + [p]) && After(ctx + [t, q]) == After(ctx + [p])
  {
    var d := p.toLeft;
    var t := Frame(c1, u.key, u.value, d, Child(u, !d));
    var q := Frame(c2, p.key, p.value, d, Child(u, d));
    assert ctx + [t, q] == (ctx + [t]) + [q];
    SnocParts(ctx + [t], q);
    SnocParts(ctx, t);
    SnocParts(ctx, p);
    var e, f := [Entry(p.key, p.value)], [Entry(u.key, u.value)];
    assert Inorder(p.other) == Inorder(u.left) + f + Inorder(u.right);
    if d {
      RegroupAfter(e, Inorder(u.left), f, Inorder(u.right), After(ctx));
    } else {
      RegroupBefore(Before(ctx), Inorder(u.left), f, Inorder(u.right), e);
    }
  }

  /** The pairs right of the focus, regrouped after a rotation on a path going left. */
  lemma RegroupAfter(e: seq<Entry>, a: seq<Entry>, f: seq<Entry>, b: seq<Entry>, c: seq<Entry>)
    ensures (e + a) + ((f + b) + c) == (e + (a + f + b)) + c
  {
    calc {
      (e + a) + ((f + b) + c);
    ==  { assert (f + b) + c == f + (b + c); }
      (e + a) + (f + (b + c));
    ==  { assert (e + a) + (f + (b + c)) == e + (a + (f + (b + c))); }
      e + (a + (f + (b + c)));
    ==  { assert a + (f + (b + c)) == (a + f + b) + c; }
      e + ((a + f + b) + c);
    ==
      (e + (a + f + b)) + c;
    }
  }

  /** The pairs left of the focus, regrouped after a rotation on a path going right. */
  lemma RegroupBefore(c: seq<Entry>, a: seq<Entry>, f: seq<Entry>, b: seq<Entry>, e: seq<Entry>)
    ensures (c + (a + f)) + (b + e) == c + ((a + f + b) + e)
  {
    calc {
      (c + (a + f)) + (b + e);
    ==
      c + ((a + f) + (b + e));
    ==  { assert (a + f) + (b + e) == (a + f + b) + e; }
      c + ((a + f + b) + e);
    }
  }

  /** A path is plugged in two stages: its lower part first, then its upper part. */
  lemma {:induction false} PlugAppend(upper: seq<Frame>, lower: seq<Frame>, t: Tree)
    ensures Plug(upper + lower, t) == Plug(upper, Plug(lower, t))
    decreases |lower|
  {
    if lower != [] {
      var n := |lower|;
      assert (upper + lower)[..|upper + lower| - 1] == upper + lower[..n - 1];
      PlugAppend(upper, lower[..n - 1], Attach(lower[n - 1], t));
    } else {
      assert upper + lower == upper;
    }
  }
}
