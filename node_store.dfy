/**
 * The nodes of red_black_tree.h:31-38 as they live in memory: every node the
 * tree has allocated is a record at an address, and a pointer is an address or
 * null. A ghost `Shape` names the address at every position of a subtree;
 * `Linked` says the `left`/`right` pointers follow it with no node twice, and
 * `Val` reads the tree the records denote. A `Link` is one ancestor on the way
 * down, as the pointers `parent_node` and `grand_parent_node` see it.
 */
module NodeStore {
  import opened RbSpec
  import opened TreeZipper

  /** `RedBlackTreeNode*`: null or the address of an allocated node. */
  datatype Ptr = Null | At(addr: nat)

  /** `RedBlackTreeNode`: key, value, two child pointers and a colour. */
  datatype NodeRec = NodeRec(key: int, value: int, left: Ptr, right: Ptr, color: Color)

  /** The allocated nodes, by address. */
  type Heap = map<nat, NodeRec>

  /** Which node sits at each position of a subtree. */
  datatype Shape = Nil | Br(addr: nat, left: Shape, right: Shape)

  function Nodes(s: Shape): set<nat>
  {
    match s
    case Nil => {}
    case Br(a, l, r) => {a} + Nodes(l) + Nodes(r)
  }

  /** The pointer that designates a subtree: its top node, or null. */
  function Top(s: Shape): Ptr
  {
    if s.Nil? then Null else At(s.addr)
  }

  /** Every node of the skeleton is allocated, its pointers follow the skeleton, and no node occurs twice. */
  predicate Linked(h: Heap, s: Shape)
  {
    match s
    case Nil => true
    case Br(a, l, r) =>
      a in h && h[a].left == Top(l) && h[a].right == Top(r) &&
      a !in Nodes(l) && a !in Nodes(r) && Nodes(l) !! Nodes(r) && Linked(h, l) && Linked(h, r)
  }

  /** The tree the records of a skeleton hold. */
  function Val(h: Heap, s: Shape): Tree
  {
    match s
    case Nil => Empty
    case Br(a, l, r) => if a in h then Node(h[a].color, Val(h, l), h[a].key, h[a].value, Val(h, r)) else Empty
  }

  /** An ancestor on the path: its address, the side the path leaves it by, and the skeleton of its other child. */
  datatype Link = Link(addr: nat, toLeft: bool, other: Shape)

  function PathNodes(ctx: seq<Link>): set<nat>
    decreases |ctx|
  {
    if ctx == [] then {}
    else PathNodes(ctx[..|ctx| - 1]) + {ctx[|ctx| - 1].addr} + Nodes(ctx[|ctx| - 1].other)
  }

  /** Ancestor `f` holds the subtree with top `below` and nodes `b` on its path side, and its other child on the other. */
  predicate LinkedLink(h: Heap, f: Link, below: Ptr, b: set<nat>)
  {
    f.addr in h &&
    (if f.toLeft then h[f.addr].left == below && h[f.addr].right == Top(f.other)
     else h[f.addr].right == below && h[f.addr].left == Top(f.other)) &&
    Linked(h, f.other) && f.addr !in b && f.addr !in Nodes(f.other) && Nodes(f.other) !! b
  }

  /** The path above a subtree with top `below` and nodes `b` is linked, with no node twice. */
  predicate LinkedPath(h: Heap, ctx: seq<Link>, below: Ptr, b: set<nat>)
    decreases |ctx|
  {
    ctx == [] ||
    var f := ctx[|ctx| - 1];
    LinkedLink(h, f, below, b) && LinkedPath(h, ctx[..|ctx| - 1], At(f.addr), {f.addr} + Nodes(f.other) + b)
  }

  function ValLink(h: Heap, f: Link): Frame
    requires f.addr in h
  {
    Frame(h[f.addr].color, h[f.addr].key, h[f.addr].value, f.toLeft, Val(h, f.other))
  }

  function ValPath(h: Heap, ctx: seq<Link>): (r: seq<Frame>)
    requires forall i :: 0 <= i < |ctx| ==> ctx[i].addr in h
    ensures |r| == |ctx|
    decreases |ctx|
  {
    if ctx == [] then [] else ValPath(h, ctx[..|ctx| - 1]) + [ValLink(h, ctx[|ctx| - 1])]
  }

  /** Every ancestor of the path is allocated. */
  predicate OnHeap(h: Heap, ctx: seq<Link>)
  {
    forall i :: 0 <= i < |ctx| ==> ctx[i].addr in h
  }

  /** The value descent state a path and a subtree denote. */
  function ValZip(h: Heap, ctx: seq<Link>, s: Shape): Zip
    requires OnHeap(h, ctx)
  {
    Zip(ValPath(h, ctx), Val(h, s))
  }

  /** The whole skeleton: the subtree hung back under its ancestors. */
  function PlugS(ctx: seq<Link>, s: Shape): Shape
    decreases |ctx|
  {
    if ctx == [] then s else PlugS(ctx[..|ctx| - 1], AttachS(ctx[|ctx| - 1], s))
  }

  /** Ancestor `f` with the subtree `s` hung on its path side. */
  function AttachS(f: Link, s: Shape): Shape
  {
    if f.toLeft then Br(f.addr, s, f.other) else Br(f.addr, f.other, s)
  }

  /** The root pointer seen from a path: the first ancestor, or the subtree's top. */
  function RootOf(ctx: seq<Link>, s: Shape): Ptr
  {
    if ctx == [] then Top(s) else At(ctx[0].addr)
  }

  /** The `k`-th ancestor above the subtree (1 = parent), or null above the root. */
  function Anc(ctx: seq<Link>, k: nat): Ptr
    requires k >= 1
  {
    if |ctx| >= k then At(ctx[|ctx| - k].addr) else Null
  }

  /** One step down to the child on side `toLeft`. */
  function DownS(ctx: seq<Link>, s: Shape, toLeft: bool): (seq<Link>, Shape)
    requires s.Br?
  {
    (ctx + [Link(s.addr, toLeft, if toLeft then s.right else s.left)], if toLeft then s.left else s.right)
  }

  /** The subtree `s` rotated so that its child on side `toLeft` rises to the top. */
  function RotS(s: Shape, toLeft: bool): Shape
    requires s.Br?
  {
    if toLeft then
      (if s.left.Br? then Br(s.left.addr, s.left.left, Br(s.addr, s.left.right, s.right)) else s)
    else
      (if s.right.Br? then Br(s.right.addr, Br(s.addr, s.left, s.right.left), s.right.right) else s)
  }

  // ----- frames -------------------------------------------------------------------------

  /** `h2` keeps the child pointers the nodes `S` have in `h1`. */
  ghost predicate SameLinks(h1: Heap, h2: Heap, S: set<nat>)
  {
    forall a :: a in S && a in h1 ==> a in h2 && h2[a].left == h1[a].left && h2[a].right == h1[a].right
  }

  /** `h2` keeps the keys, values and colours the nodes `S` have in `h1`. */
  ghost predicate SameData(h1: Heap, h2: Heap, S: set<nat>)
  {
    forall a :: a in S && a in h1 ==> a in h2 && h2[a].key == h1[a].key && h2[a].value == h1[a].value && h2[a].color == h1[a].color
  }

  lemma {:induction false} LinkedNodes(h: Heap, s: Shape)
    requires Linked(h, s)
    ensures Nodes(s) <= h.Keys
  {
    match s
    case Nil =>
    case Br(_, l, r) =>
      LinkedNodes(h, l);
      LinkedNodes(h, r);
  }

  lemma {:induction false} LinkedFrame(h1: Heap, h2: Heap, s: Shape)
    requires Linked(h1, s) && SameLinks(h1, h2, Nodes(s))
    ensures Linked(h2, s)
  {
    match s
    case Nil =>
    case Br(_, l, r) =>
      LinkedFrame(h1, h2, l);
      LinkedFrame(h1, h2, r);
  }

  /** The tree a skeleton denotes depends on the keys, values and colours of its nodes only. */
  lemma {:induction false} ValFrame(h1: Heap, h2: Heap, s: Shape)
    requires Nodes(s) <= h1.Keys && SameData(h1, h2, Nodes(s))
    ensures Val(h2, s) == Val(h1, s)
  {
    match s
    case Nil =>
    case Br(_, l, r) =>
      ValFrame(h1, h2, l);
      ValFrame(h1, h2, r);
  }

  lemma {:induction false} LinkedPathFrame(h1: Heap, h2: Heap, ctx: seq<Link>, below: Ptr, b: set<nat>)
    requires LinkedPath(h1, ctx, below, b) && SameLinks(h1, h2, PathNodes(ctx))
    ensures LinkedPath(h2, ctx, below, b)
    decreases |ctx|
  {
    if ctx != [] {
      var f := ctx[|ctx| - 1];
      LinkedFrame(h1, h2, f.other);
      LinkedPathFrame(h1, h2, ctx[..|ctx| - 1], At(f.addr), {f.addr} + Nodes(f.other) + b);
    }
  }

  /** A linked path is allocated and shares no node with the subtree below it. */
  lemma {:induction false} LinkedPathDisjoint(h: Heap, ctx: seq<Link>, below: Ptr, b: set<nat>)
    requires LinkedPath(h, ctx, below, b)
    ensures PathNodes(ctx) !! b && OnHeap(h, ctx) && PathNodes(ctx) <= h.Keys
    decreases |ctx|
  {
    if ctx != [] {
      var f := ctx[|ctx| - 1];
      var p := ctx[..|ctx| - 1];
      LinkedPathDisjoint(h, p, At(f.addr), {f.addr} + Nodes(f.other) + b);
      LinkedNodes(h, f.other);
      forall i | 0 <= i < |ctx|
        ensures ctx[i].addr in h
      {
        if i < |ctx| - 1 {
          assert ctx[i] == p[i];
        }
      }
    }
  }

  lemma {:induction false} ValPathFrame(h1: Heap, h2: Heap, ctx: seq<Link>)
    requires PathNodes(ctx) <= h1.Keys && SameData(h1, h2, PathNodes(ctx))
    ensures OnHeap(h1, ctx) && OnHeap(h2, ctx) && ValPath(h2, ctx) == ValPath(h1, ctx)
    decreases |ctx|
  {
    if ctx != [] {
      var f := ctx[|ctx| - 1];
      var p := ctx[..|ctx| - 1];
      ValPathFrame(h1, h2, p);
      ValFrame(h1, h2, f.other);
      forall i | 0 <= i < |ctx|
        ensures ctx[i].addr in h1 && ctx[i].addr in h2
      {
        if i < |ctx| - 1 {
          assert ctx[i] == p[i];
        }
      }
    }
  }

  // ----- the whole skeleton -------------------------------------------------------------------

  lemma {:induction false} PlugSNodes(ctx: seq<Link>, s: Shape)
    ensures Nodes(PlugS(ctx, s)) == PathNodes(ctx) + Nodes(s)
    ensures Top(PlugS(ctx, s)) == RootOf(ctx, s)
    decreases |ctx|
  {
    if ctx != [] {
      var f := ctx[|ctx| - 1];
      PlugSNodes(ctx[..|ctx| - 1], AttachS(f, s));
      if |ctx| > 1 {
        assert ctx[..|ctx| - 1][0] == ctx[0];
      }
    }
  }

  /** The whole skeleton is linked exactly when the subtree is and the path above it is. */
  lemma {:induction false} PlugSLinked(h: Heap, ctx: seq<Link>, s: Shape)
    ensures Linked(h, PlugS(ctx, s)) <==> Linked(h, s) && LinkedPath(h, ctx, Top(s), Nodes(s))
    decreases |ctx|
  {
    if ctx != [] {
      var f := ctx[|ctx| - 1];
      var s' := AttachS(f, s);
      assert Nodes(s') == {f.addr} + Nodes(f.other) + Nodes(s);
      PlugSLinked(h, ctx[..|ctx| - 1], s');
    }
  }

  /** The whole skeleton denotes the value path plugged with the subtree's value. */
  lemma {:induction false} PlugSVal(h: Heap, ctx: seq<Link>, s: Shape)
    requires OnHeap(h, ctx)
    ensures Val(h, PlugS(ctx, s)) == Plug(ValPath(h, ctx), Val(h, s))
    decreases |ctx|
  {
    if ctx != [] {
      var f := ctx[|ctx| - 1];
      PlugSVal(h, ctx[..|ctx| - 1], AttachS(f, s));
    }
  }

  lemma FirstInPath(ctx: seq<Link>)
    requires ctx != []
    ensures ctx[0].addr in PathNodes(ctx)
    decreases |ctx|
  {
    if |ctx| > 1 {
      assert ctx[..|ctx| - 1][0] == ctx[0];
      FirstInPath(ctx[..|ctx| - 1]);
    }
  }

  lemma {:induction false} ValPathIndex(h: Heap, ctx: seq<Link>, i: nat)
    requires OnHeap(h, ctx) && i < |ctx|
    ensures ValPath(h, ctx)[i] == ValLink(h, ctx[i])
    decreases |ctx|
  {
    if i < |ctx| - 1 {
      ValPathIndex(h, ctx[..|ctx| - 1], i);
    }
  }

  lemma {:induction false} ValPathPrefix(h: Heap, ctx: seq<Link>, k: nat)
    requires OnHeap(h, ctx) && k <= |ctx|
    ensures OnHeap(h, ctx[..k]) && ValPath(h, ctx[..k]) == ValPath(h, ctx)[..k]
    decreases |ctx|
  {
    if ctx != [] {
      var n := |ctx|;
      if k < n {
        ValPathPrefix(h, ctx[..n - 1], k);
        assert ctx[..n - 1][..k] == ctx[..k];
      } else {
        assert ctx[..k] == ctx;
      }
    }
  }

  /** Moving down keeps the heap linked, the nodes and the root. */
  lemma DownLinked(h: Heap, ctx: seq<Link>, s: Shape, toLeft: bool)
    requires s.Br? && Linked(h, s) && LinkedPath(h, ctx, Top(s), Nodes(s))
    ensures var (ctx', s') := DownS(ctx, s, toLeft);
      Linked(h, s') && LinkedPath(h, ctx', Top(s'), Nodes(s')) && PathNodes(ctx') + Nodes(s') == PathNodes(ctx) + Nodes(s) &&
      RootOf(ctx', s') == RootOf(ctx, s) && ctx'[..|ctx|] == ctx && Anc(ctx', 1) == Top(s) &&
      Anc(ctx', 2) == Anc(ctx, 1) && Anc(ctx', 3) == Anc(ctx, 2)
  {
    var (ctx', s') := DownS(ctx, s, toLeft);
    var l := ctx'[|ctx'| - 1];
    assert ctx'[..|ctx'| - 1] == ctx;
    assert Nodes(s) == {s.addr} + Nodes(l.other) + Nodes(s');
    if ctx != [] {
      assert ctx'[0] == ctx[0];
    }
  }

  /** Moving down is the value view's step to a child. */
  lemma DownVal(h: Heap, ctx: seq<Link>, s: Shape, toLeft: bool)
    requires s.Br? && s.addr in h && OnHeap(h, ctx)
    ensures var (ctx', s') := DownS(ctx, s, toLeft);
      OnHeap(h, ctx') &&
      ValZip(h, ctx', s') == Zip(ValPath(h, ctx) + [FrameOf(Val(h, s), toLeft)], Child(Val(h, s), toLeft))
  {
    var (ctx', s') := DownS(ctx, s, toLeft);
    assert ctx'[..|ctx'| - 1] == ctx;
    assert OnHeap(h, ctx') by {
      forall i | 0 <= i < |ctx'|
        ensures ctx'[i].addr in h
      {
        if i < |ctx| {
          assert ctx'[i] == ctx[i];
        }
      }
    }
  }

  // ----- keys against sides ---------------------------------------------------------------

  /** The key `k` is stored somewhere in `t`. */
  ghost predicate HasKey(t: Tree, k: int)
  {
    exists i :: 0 <= i < |Inorder(t)| && Inorder(t)[i].key == k
  }

  /** In an ordered tree, a key stored below ancestor `f` compares with `f`'s key as the side the path takes. */
  lemma SideOfKey(ctx: seq<Frame>, t: Tree, k: int)
    requires ctx != [] && Ordered(Plug(ctx, t)) && HasKey(t, k)
    ensures k < ctx[|ctx| - 1].key <==> ctx[|ctx| - 1].toLeft
  {
    var f := ctx[|ctx| - 1];
    PlugOrdered(ctx[..|ctx| - 1], Attach(f, t));
    AttachSide(f, t);
  }

  lemma HasKeyRoot(t: Tree)
    requires t.Node?
    ensures HasKey(t, t.key)
  {
    assert Inorder(t)[|Inorder(t.left)|].key == t.key;
  }

  lemma HasKeyAttach(f: Frame, t: Tree, k: int)
    requires HasKey(t, k)
    ensures HasKey(Attach(f, t), k) && HasKey(Attach(f, t), f.key)
  {
    var i :| 0 <= i < |Inorder(t)| && Inorder(t)[i].key == k;
    var e := [Entry(f.key, f.value)];
    if f.toLeft {
      assert Inorder(Attach(f, t)) == Inorder(t) + e + Inorder(f.other);
      assert Inorder(Attach(f, t))[i] == Inorder(t)[i];
      assert Inorder(Attach(f, t))[|Inorder(t)|] == e[0];
    } else {
      assert Inorder(Attach(f, t)) == Inorder(f.other) + e + Inorder(t);
      assert Inorder(Attach(f, t))[|Inorder(f.other)| + 1 + i] == Inorder(t)[i];
      assert Inorder(Attach(f, t))[|Inorder(f.other)|] == e[0];
    }
  }

  /**
   * The key comparisons the rotations make (lines 352, 385 and 394 of
   * red_black_tree.cpp) agree with the sides the path takes through its last
   * three ancestors.
   */
  predicate KeysAgree(ctx: seq<Frame>, x: Tree)
  {
    var n := |ctx|;
    x.Node? &&
    (n >= 1 ==> (x.key < ctx[n - 1].key <==> ctx[n - 1].toLeft)) &&
    (n >= 2 ==> (ctx[n - 1].key < ctx[n - 2].key <==> ctx[n - 2].toLeft) && (x.key < ctx[n - 2].key <==> ctx[n - 2].toLeft)) &&
    (n >= 3 ==> (x.key < ctx[n - 3].key <==> ctx[n - 3].toLeft) && (ctx[n - 1].key < ctx[n - 3].key <==> ctx[n - 3].toLeft))
  }

  /** In an ordered tree a key stored below the frame at depth `j` lies on the side the path takes there. */
  lemma {:induction false} SideOfKeyAt(ctx: seq<Frame>, t: Tree, k: int, j: nat)
    requires j < |ctx| && Ordered(Plug(ctx, t)) && HasKey(t, k)
    ensures k < ctx[j].key <==> ctx[j].toLeft
    decreases |ctx|
  {
    var n := |ctx|;
    if j == n - 1 {
      SideOfKey(ctx, t, k);
    } else {
      HasKeyAttach(ctx[n - 1], t, k);
      SideOfKeyAt(ctx[..n - 1], Attach(ctx[n - 1], t), k, j);
    }
  }

  /** The parent's key, too, lies on the side the path takes at every frame above the parent. */
  lemma ParentSideAt(ctx: seq<Frame>, x: Tree, j: nat)
    requires j + 1 < |ctx| && x.Node? && Ordered(Plug(ctx, x))
    ensures ctx[|ctx| - 1].key < ctx[j].key <==> ctx[j].toLeft
  {
    var n := |ctx|;
    var px := Attach(ctx[n - 1], x);
    assert Plug(ctx, x) == Plug(ctx[..n - 1], px);
    HasKeyRoot(x);
    HasKeyAttach(ctx[n - 1], x, x.key);
    SideOfKeyAt(ctx[..n - 1], px, ctx[n - 1].key, j);
  }

  /** In an ordered tree the key comparisons agree with the sides of the path. */
  lemma WindowKeys(ctx: seq<Frame>, x: Tree)
    requires x.Node? && Ordered(Plug(ctx, x))
    ensures KeysAgree(ctx, x)
  {
    var n := |ctx|;
    HasKeyRoot(x);
    if n >= 1 {
      SideOfKeyAt(ctx, x, x.key, n - 1);
    }
    if n >= 2 {
      SideOfKeyAt(ctx, x, x.key, n - 2);
      ParentSideAt(ctx, x, n - 2);
    }
    if n >= 3 {
      SideOfKeyAt(ctx, x, x.key, n - 3);
      ParentSideAt(ctx, x, n - 3);
    }
  }

  // ----- the pointer operations ---------------------------------------------------------

  /** The `rotate` lambda of red_black_tree.cpp:374-383: child `c` of `r` on side `toLeft` rises, `r` adopts its inner subtree. */
  function Rotated(h: Heap, r: nat, c: nat, toLeft: bool): Heap
    requires r in h && c in h
  {
    if toLeft then h[r := h[r].(left := h[c].right)][c := h[c].(right := At(r))]
    else h[r := h[r].(right := h[c].left)][c := h[c].(left := At(r))]
  }

  /** Line 394: `node` hung under `parent` on the side its key falls. */
  function Reconnected(h: Heap, parent: nat, node: nat): Heap
    requires parent in h && node in h
  {
    h[parent := if h[node].key < h[parent].key then h[parent].(left := At(node)) else h[parent].(right := At(node))]
  }

  /** A colour written into the node at `a`. */
  function Painted(h: Heap, a: nat, c: Color): Heap
  {
    if a in h then h[a := h[a].(color := c)] else h
  }

  /** The child of `s` on side `toLeft`. */
  function ChildS(s: Shape, toLeft: bool): Shape
    requires s.Br?
  {
    if toLeft then s.left else s.right
  }

  /** Writing a colour keeps every link, and every other node's data. */
  lemma PaintedFrame(h: Heap, a: nat, c: Color)
    requires a in h
    ensures Painted(h, a, c).Keys == h.Keys && SameLinks(h, Painted(h, a, c), h.Keys) && SameData(h, Painted(h, a, c), h.Keys - {a})
  {
  }

  /** A painted node shows its new colour at the top of its subtree. */
  lemma PaintedTop(h: Heap, s: Shape, c: Color)
    requires Linked(h, s) && s.Br?
    ensures Val(h, s).Node?
    ensures Val(Painted(h, s.addr, c), s) == Val(h, s).(color := c)
  {
    LinkedNodes(h, s);
    var h' := Painted(h, s.addr, c);
    ValFrame(h, h', s.left);
    ValFrame(h, h', s.right);
  }

  /** A rotation keeps every node's data and every other node's links. */
  lemma RotatedFrame(h: Heap, r: nat, c: nat, toLeft: bool)
    requires r in h && c in h
    ensures var h' := Rotated(h, r, c, toLeft);
      h'.Keys == h.Keys && SameData(h, h', h.Keys) && SameLinks(h, h', h.Keys - {r, c})
  {
  }

  /** A rotation relinks exactly the two nodes it names, and the rotated skeleton is linked. */
  lemma RotatedLinks(h: Heap, s: Shape, toLeft: bool)
    requires Linked(h, s) && s.Br? && ChildS(s, toLeft).Br?
    ensures ChildS(s, toLeft).addr in h
    ensures var c := ChildS(s, toLeft).addr;
      var h' := Rotated(h, s.addr, c, toLeft);
      Linked(h', RotS(s, toLeft)) && Nodes(RotS(s, toLeft)) == Nodes(s) && Top(RotS(s, toLeft)) == At(c) &&
      h'.Keys == h.Keys && SameData(h, h', h.Keys) && SameLinks(h, h', h.Keys - {s.addr, c})
  {
    var c := ChildS(s, toLeft);
    var h' := Rotated(h, s.addr, c.addr, toLeft);
    RotatedFrame(h, s.addr, c.addr, toLeft);
    LinkedFrame(h, h', c.left);
    LinkedFrame(h, h', c.right);
    LinkedFrame(h, h', ChildS(s, !toLeft));
  }

  /**
   * HandleRotation(q, c) then HandleReconnection(r, c) (lines 353-354, 359-360,
   * 108-109, 124-125, 130-131): `q` tops `s` under the path `up`, `r` is its
   * parent (or null at the root), and the child `c` rises into `q`'s place.
   */
  function Lifted(h: Heap, up: seq<Link>, s: Shape, toLeft: bool): Heap
    requires s.Br? && ChildS(s, toLeft).Br? && s.addr in h && ChildS(s, toLeft).addr in h
    requires up != [] ==> up[|up| - 1].addr in h
  {
    var c := ChildS(s, toLeft).addr;
    var h1 := Rotated(h, s.addr, c, toLeft);
    if up == [] then h1 else Reconnected(h1, up[|up| - 1].addr, c)
  }

  /** The node at `a` sorts on side `toLeft` of the node at `b`. */
  predicate KeySide(h: Heap, a: nat, b: nat, toLeft: bool)
  {
    a in h && b in h && (h[a].key < h[b].key <==> toLeft)
  }

  /** A subtree relinked in place of `s` (same nodes, new top) is hung back under its parent by line 394. */
  lemma ReconnectedLinks(h: Heap, up: seq<Link>, s: Shape, s': Shape)
    requires up != [] && Linked(h, s') && s'.Br? && Nodes(s') == Nodes(s) && LinkedPath(h, up, Top(s), Nodes(s))
    requires KeySide(h, s'.addr, up[|up| - 1].addr, up[|up| - 1].toLeft)
    ensures var h' := Reconnected(h, up[|up| - 1].addr, s'.addr);
      Linked(h', s') && LinkedPath(h', up, Top(s'), Nodes(s')) && h'.Keys == h.Keys && SameData(h, h', h.Keys)
  {
    var f := up[|up| - 1];
    var p := up[..|up| - 1];
    var h' := Reconnected(h, f.addr, s'.addr);
    assert f.addr !in Nodes(s);
    assert SameLinks(h, h', h.Keys - {f.addr});
    LinkedFrame(h, h', s');
    LinkedFrame(h, h', f.other);
    LinkedPathDisjoint(h, p, At(f.addr), {f.addr} + Nodes(f.other) + Nodes(s));
    LinkedPathFrame(h, h', p, At(f.addr), {f.addr} + Nodes(f.other) + Nodes(s));
    assert LinkedLink(h', f, Top(s'), Nodes(s'));
  }

  lemma LiftedLinks(h: Heap, up: seq<Link>, s: Shape, toLeft: bool)
    requires Linked(h, s) && LinkedPath(h, up, Top(s), Nodes(s)) && s.Br? && ChildS(s, toLeft).Br?
    requires up != [] ==> KeySide(h, ChildS(s, toLeft).addr, up[|up| - 1].addr, up[|up| - 1].toLeft)
    ensures ChildS(s, toLeft).addr in h && (up != [] ==> up[|up| - 1].addr in h)
    ensures var h' := Lifted(h, up, s, toLeft);
      var s' := RotS(s, toLeft);
      Linked(h', s') && LinkedPath(h', up, Top(s'), Nodes(s')) && Nodes(s') == Nodes(s) &&
      Top(s') == At(ChildS(s, toLeft).addr) && h'.Keys == h.Keys && SameData(h, h', h.Keys)
  {
    LinkedNodes(h, s);
    LinkedPathDisjoint(h, up, Top(s), Nodes(s));
    var c := ChildS(s, toLeft).addr;
    RotatedLinks(h, s, toLeft);
    var h1 := Rotated(h, s.addr, c, toLeft);
    LinkedPathFrame(h, h1, up, Top(s), Nodes(s));
    if up != [] {
      ReconnectedLinks(h1, up, s, RotS(s, toLeft));
    }
  }

  /** The rotated skeleton denotes the rotation of the tree, whatever the links. */
  lemma RotSVal(h: Heap, s: Shape, toLeft: bool)
    requires Linked(h, s) && s.Br? && ChildS(s, toLeft).Br?
    ensures ChildS(s, toLeft).addr in h
    ensures var c := ChildS(s, toLeft);
      var t := Val(h, s);
      Val(h, RotS(s, toLeft)) ==
        if toLeft then Node(h[c.addr].color, Val(h, c.left), h[c.addr].key, h[c.addr].value, Node(t.color, Val(h, c.right), t.key, t.value, t.right))
        else Node(h[c.addr].color, Node(t.color, t.left, t.key, t.value, Val(h, c.left)), h[c.addr].key, h[c.addr].value, Val(h, c.right))
  {
  }

  /** Moving up one step: the parent's subtree is linked, under the shorter path. */
  lemma UpLinked(h: Heap, ctx: seq<Link>, s: Shape)
    requires ctx != [] && Linked(h, s) && LinkedPath(h, ctx, Top(s), Nodes(s))
    ensures var f := ctx[|ctx| - 1];
      Linked(h, AttachS(f, s)) && LinkedPath(h, ctx[..|ctx| - 1], At(f.addr), Nodes(AttachS(f, s))) &&
      Nodes(AttachS(f, s)) == {f.addr} + Nodes(f.other) + Nodes(s) &&
      PathNodes(ctx[..|ctx| - 1]) + Nodes(AttachS(f, s)) == PathNodes(ctx) + Nodes(s) &&
      RootOf(ctx[..|ctx| - 1], AttachS(f, s)) == RootOf(ctx, s)
  {
    var f := ctx[|ctx| - 1];
    assert Nodes(AttachS(f, s)) == {f.addr} + Nodes(f.other) + Nodes(s);
    if |ctx| > 1 {
      assert ctx[..|ctx| - 1][0] == ctx[0];
    }
  }

  lemma SameDataTrans(h1: Heap, h2: Heap, h3: Heap, S: set<nat>)
    requires SameData(h1, h2, S) && SameData(h2, h3, S)
    ensures SameData(h1, h3, S)
  {
  }

  /** The value of an ancestor hung over a subtree. */
  lemma AttachSVal(h: Heap, f: Link, s: Shape)
    requires f.addr in h
    ensures Val(h, AttachS(f, s)) == Attach(ValLink(h, f), Val(h, s))
  {
  }

  /** A path above a subtree stays linked when addresses outside it join the subtree. */
  lemma {:induction false} LinkedPathMore(h: Heap, ctx: seq<Link>, below: Ptr, b: set<nat>, extra: set<nat>)
    requires LinkedPath(h, ctx, below, b) && PathNodes(ctx) !! extra
    ensures LinkedPath(h, ctx, below, b + extra)
    decreases |ctx|
  {
    if ctx != [] {
      var f := ctx[|ctx| - 1];
      var p := ctx[..|ctx| - 1];
      assert {f.addr} + Nodes(f.other) + (b + extra) == ({f.addr} + Nodes(f.other) + b) + extra;
      LinkedPathMore(h, p, At(f.addr), {f.addr} + Nodes(f.other) + b, extra);
    }
  }

  /** A path closed over its subtree is the whole tree: linked, holding the path's and the subtree's nodes, denoting the plugged value. */
  lemma PlugSWhole(h: Heap, ctx: seq<Link>, s: Shape)
    requires Linked(h, s) && LinkedPath(h, ctx, Top(s), Nodes(s)) && OnHeap(h, ctx)
    ensures var w := PlugS(ctx, s);
      Linked(h, w) && Nodes(w) == PathNodes(ctx) + Nodes(s) && Top(w) == RootOf(ctx, s) &&
      Val(h, w) == Whole(ValZip(h, ctx, s))
  {
    PlugSNodes(ctx, s);
    PlugSLinked(h, ctx, s);
    PlugSVal(h, ctx, s);
  }
}
