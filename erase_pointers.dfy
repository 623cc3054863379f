/**
 * Erase (red_black_tree.cpp:81-192, corrected at lines 112 and 123) on the
 * node store: the colour writes, the rotations, the swap with the successor
 * or predecessor and the unlinking of the leaf, applied to the nodes under a
 * linked path, produce exactly the descent states `TopDownErase.Loop` steps
 * through on the value view, and leave the path linked.
 */
module ErasePointers {
  import opened RbSpec
  import opened TreeZipper
  import opened NodeStore
  import opened TopDownErase
  import opened InsertPointers

  // ----- where the sibling's keys lie ----------------------------------------------------

  /**
   * The parent's other child (the sibling) is ordered, and each of its keys
   * lies on the sibling's side of the parent and on the path's side of the
   * grandparent.
   */
  ghost predicate SiblingSides(ctx: seq<Frame>)
  {
    var n := |ctx|;
    n >= 1 ==>
      var p := ctx[n - 1];
      Ordered(p.other) &&
      forall k :: HasKey(p.other, k) ==>
        (k < p.key <==> !p.toLeft) && (n >= 2 ==> (k < ctx[n - 2].key <==> ctx[n - 2].toLeft))
  }

  /** Dropping the middle part of a sorted sequence leaves it sorted. */
  lemma SortedOuter(b: seq<Entry>, m: seq<Entry>, a: seq<Entry>)
    requires Sorted(b + m + a)
    ensures Sorted(b + a)
  {
    SortedSplit(b + m, a);
    SortedSplit(b, m);
    forall i, j | 0 <= i < |b| && 0 <= j < |a|
      ensures b[i].key < a[j].key
    {
      assert (b + m)[i] == b[i];
    }
    SortedJoin(b, a);
  }

  /** With the current subtree cut off, the tree is ordered in every mode: the displaced key lies in the cut part. */
  lemma CutOrdered(z: Zip, key: int, mode: Mode, c0: map<int, int>)
    requires OrderInv(z, key, mode, c0)
    ensures Ordered(Plug(z.ctx, Empty))
  {
    var b, i, a := Before(z.ctx), Inorder(z.focus), After(z.ctx);
    PlugInorder(z.ctx, Empty);
    assert Inorder(Plug(z.ctx, Empty)) == b + a;
    match mode
    case Search => SortedOuter(b, i, a);
    case Min => SortedOuter(b, i[1..], a);
    case Max => SortedOuter(b, i[..|i| - 1], a);
  }

  lemma SiblingSidesHold(z: Zip, key: int, mode: Mode, c0: map<int, int>)
    requires OrderInv(z, key, mode, c0)
    ensures SiblingSides(z.ctx)
  {
    CutOrdered(z, key, mode, c0);
    SiblingSidesCut(z.ctx);
  }

  /** The sibling read as the child hung where the current subtree was cut off. */
  lemma SiblingSidesCut(ctx: seq<Frame>)
    requires Ordered(Plug(ctx, Empty))
    ensures SiblingSides(ctx)
  {
    var n := |ctx|;
    if n >= 1 {
      var p := ctx[n - 1];
      var ctx' := FlippedLast(ctx);
      FlippedPlug(ctx);
      PlugOrdered(ctx', p.other);
      forall k | HasKey(p.other, k)
        ensures (k < p.key <==> !p.toLeft) && (n >= 2 ==> (k < ctx[n - 2].key <==> ctx[n - 2].toLeft))
      {
        SideOfKeyAt(ctx', p.other, k, n - 1);
        if n >= 2 {
          SideOfKeyAt(ctx', p.other, k, n - 2);
        }
      }
    }
  }

  /** The path turned at its last frame towards the other child, with the cut-off side empty. */
  function FlippedLast(ctx: seq<Frame>): (r: seq<Frame>)
    requires ctx != []
    ensures |r| == |ctx| && r[..|ctx| - 1] == ctx[..|ctx| - 1]
    ensures r[|ctx| - 1].key == ctx[|ctx| - 1].key && r[|ctx| - 1].toLeft == !ctx[|ctx| - 1].toLeft
  {
    var p := ctx[|ctx| - 1];
    ctx[..|ctx| - 1] + [p.(toLeft := !p.toLeft, other := Empty)]
  }

  lemma FlippedPlug(ctx: seq<Frame>)
    requires ctx != []
    ensures Plug(FlippedLast(ctx), ctx[|ctx| - 1].other) == Plug(ctx, Empty)
  {
    var n := |ctx|;
    var up, p := ctx[..n - 1], ctx[n - 1];
    var p' := p.(toLeft := !p.toLeft, other := Empty);
    SplitLast(ctx);
    assert FlippedLast(ctx) == up + [p'];
    var t := Attach(p, Empty);
    assert Attach(p', p.other) == t;
    calc {
      Plug(up + [p'], p.other);
      { PlugSnoc(up, p', p.other); }
      Plug(up, t);
      { PlugSnoc(up, p, Empty); }
      Plug(up + [p], Empty);
    }
  }

  /** The node at `a` lies on the sibling's side of the parent and on the path's side of the grandparent. */
  predicate SibKeys(h: Heap, cs: seq<Link>, a: nat)
    requires cs != []
  {
    var n := |cs|;
    KeySide(h, a, cs[n - 1].addr, !cs[n - 1].toLeft) && (n >= 2 ==> KeySide(h, a, cs[n - 2].addr, cs[n - 2].toLeft))
  }

  /** The key comparisons of lines 106-109 and 119-136, read from memory, agree with the positions of the sibling and its children. */
  lemma SiblingHeapKeys(h: Heap, cs: seq<Link>, fs: Shape)
    requires Placed(h, cs, fs) && cs != [] && cs[|cs| - 1].other.Br? && SiblingSides(ValPath(h, cs))
    ensures var S := cs[|cs| - 1].other;
      S.addr in h && SibKeys(h, cs, S.addr) &&
      (S.left.Br? ==> SibKeys(h, cs, S.left.addr) && KeySide(h, S.left.addr, S.addr, true)) &&
      (S.right.Br? ==> SibKeys(h, cs, S.right.addr) && KeySide(h, S.right.addr, S.addr, false))
  {
    var n := |cs|;
    var S := cs[n - 1].other;
    LinkedPathDisjoint(h, cs, Top(fs), Nodes(fs));
    ValPathIndex(h, cs, n - 1);
    if n >= 2 {
      ValPathIndex(h, cs, n - 2);
    }
    var sv := Val(h, S);
    assert S.addr in h && sv.key == h[S.addr].key;
    HasKeyRoot(sv);
    if S.left.Br? {
      var c := Val(h, S.left);
      HasKeyRoot(c);
      HasKeyAttach(Frame(sv.color, sv.key, sv.value, true, sv.right), c, c.key);
      ChildKeySide(sv, true);
    }
    if S.right.Br? {
      var c := Val(h, S.right);
      HasKeyRoot(c);
      HasKeyAttach(Frame(sv.color, sv.key, sv.value, false, sv.left), c, c.key);
      ChildKeySide(sv, false);
    }
  }

  // ----- pointers and colours on the path -------------------------------------------------

  /** `is_red_node`: a pointer to an existing red node. */
  predicate RedAt(h: Heap, q: Ptr)
  {
    q.At? && q.addr in h && h[q.addr].color == Red
  }

  /** Line 104: the sibling pointer is the top of the parent's other child, and the test `parent_node->left == node` tells the path's side. */
  lemma SiblingPtr(h: Heap, cs: seq<Link>, fs: Shape)
    requires Placed(h, cs, fs) && fs.Br? && cs != []
    ensures var p := cs[|cs| - 1];
      p.addr in h && (h[p.addr].left == At(fs.addr) <==> p.toLeft) &&
      (if h[p.addr].left == At(fs.addr) then h[p.addr].right else h[p.addr].left) == Top(p.other)
  {
    var n := |cs|;
    PathPointers(h, cs, fs);
    assert LinkedLink(h, cs[n - 1], Top(fs), Nodes(fs));
  }

  /** What lines 102, 115, 117 and 153 read from a node's record, on the value view: its colour and key, and whether its children exist and are red. */
  lemma TopRead(h: Heap, s: Shape)
    requires Linked(h, s)
    ensures (Val(h, s).Node? <==> s.Br?) && (IsRed(Val(h, s)) <==> RedAt(h, Top(s)))
    ensures s.Br? ==> s.addr in h
    ensures s.Br? ==>
      var x, r := Val(h, s), h[s.addr];
      x.color == r.color && x.key == r.key &&
      (IsRed(x.left) <==> RedAt(h, r.left)) && (IsRed(x.right) <==> RedAt(h, r.right)) &&
      (x.left.Empty? <==> r.left == Null) && (x.right.Empty? <==> r.right == Null) &&
      (s.left.Nil? <==> r.left == Null) && (s.right.Nil? <==> r.right == Null)
  {
  }

  /** Lines 103 and 117, read from memory: the sibling pointer, and the sibling's colour and red children as the parent's frame holds them. */
  lemma SiblingRead(h: Heap, cs: seq<Link>, fs: Shape)
    requires Placed(h, cs, fs) && fs.Br? && cs != []
    ensures var pl := cs[|cs| - 1];
      pl.addr in h && (h[pl.addr].left == At(fs.addr) <==> pl.toLeft) &&
      (if h[pl.addr].left == At(fs.addr) then h[pl.addr].right else h[pl.addr].left) == Top(pl.other) &&
      Linked(h, pl.other) && (pl.other.Br? ==> pl.other.addr != pl.addr)
    ensures var pl, sv := cs[|cs| - 1], ValPath(h, cs)[|cs| - 1].other;
      sv == Val(h, pl.other) && (sv.Node? <==> pl.other.Br?) && (IsRed(sv) <==> RedAt(h, Top(pl.other))) &&
      (pl.other.Br? ==> pl.other.addr in h && (IsRed(sv.left) <==> RedAt(h, h[pl.other.addr].left)) &&
                        (IsRed(sv.right) <==> RedAt(h, h[pl.other.addr].right)))
  {
    var n := |cs|;
    SiblingPtr(h, cs, fs);
    SiblingLinked(h, cs, fs);
    TopRead(h, cs[n - 1].other);
    LinkedPathDisjoint(h, cs, Top(fs), Nodes(fs));
    assert LinkedLink(h, cs[n - 1], Top(fs), Nodes(fs));
  }

  /** An address on the path: the ancestor's own and those of its other child. */
  lemma {:induction false} InPath(cs: seq<Link>, i: nat)
    requires i < |cs|
    ensures cs[i].addr in PathNodes(cs) && Nodes(cs[i].other) <= PathNodes(cs)
    decreases |cs|
  {
    if i < |cs| - 1 {
      InPath(cs[..|cs| - 1], i);
    }
  }

  /** A node painted above the parent (at `a`, an address of the path above it) leaves the parent's frame, the subtree and the links as they were. */
  lemma PaintAbove(h: Heap, cs: seq<Link>, fs: Shape, a: nat, c: Color)
    requires Placed(h, cs, fs) && cs != [] && a in PathNodes(cs[..|cs| - 1])
    ensures var h' := Painted(h, a, c);
      var f := cs[|cs| - 1];
      a in h && Placed(h', cs, fs) && h'.Keys == h.Keys && SameData(h, h', h.Keys - {a}) &&
      f.addr in h && f.addr in h' && ValLink(h', f) == ValLink(h, f) && Val(h', fs) == Val(h, fs) &&
      Placed(h, cs[..|cs| - 1], AttachS(f, fs)) && Placed(h', cs[..|cs| - 1], AttachS(f, fs))
  {
    var n := |cs|;
    var h' := Painted(h, a, c);
    var f, up := cs[n - 1], cs[..n - 1];
    LinkedPathDisjoint(h, cs, Top(fs), Nodes(fs));
    UpLinked(h, cs, fs);
    LinkedPathDisjoint(h, up, At(f.addr), {f.addr} + Nodes(f.other) + Nodes(fs));
    PaintPlaced(h, h', cs, fs, a, c);
    UpLinked(h', cs, fs);
    LinkedPathDisjoint(h', up, At(f.addr), {f.addr} + Nodes(f.other) + Nodes(fs));
    LinkedNodes(h, f.other);
    LinkedNodes(h, fs);
    ValFrame(h, h', f.other);
    ValFrame(h, h', fs);
  }

  /** A path with its last frame: an update above the last frame is an update of the shorter path. */
  lemma SnocUpdate(ctx: seq<Frame>, last: Frame, i: nat, x: Frame)
    requires i < |ctx|
    ensures (ctx + [last])[i := x] == ctx[i := x] + [last]
  {
  }

  /** Lines 111, 135 and 143: an ancestor repainted changes that frame's colour and nothing else. */
  lemma {:induction false} PaintAt(h: Heap, cs: seq<Link>, fs: Shape, i: nat, c: Color)
    requires Placed(h, cs, fs) && i < |cs|
    ensures cs[i].addr in h
    ensures var h' := Painted(h, cs[i].addr, c);
      var ctx := ValPath(h, cs);
      Placed(h', cs, fs) && h'.Keys == h.Keys && SameData(h, h', h.Keys - {cs[i].addr}) &&
      ValZip(h', cs, fs) == Zip(ctx[i := ctx[i].(color := c)], Val(h, fs))
    decreases |cs|
  {
    var n := |cs|;
    if i == n - 1 {
      PaintLast(h, cs, fs, c);
    } else {
      var a := cs[i].addr;
      var h' := Painted(h, a, c);
      var f, up := cs[n - 1], cs[..n - 1];
      assert up[i] == cs[i];
      InPath(up, i);
      PaintAbove(h, cs, fs, a, c);
      PaintAt(h, up, AttachS(f, fs), i, c);
      var ctx := ValPath(h, up);
      SnocUpdate(ctx, ValLink(h, f), i, ctx[i].(color := c));
    }
  }

  lemma PaintLast(h: Heap, cs: seq<Link>, fs: Shape, c: Color)
    requires Placed(h, cs, fs) && cs != []
    ensures cs[|cs| - 1].addr in h
    ensures var n := |cs|;
      var h' := Painted(h, cs[n - 1].addr, c);
      var ctx := ValPath(h, cs);
      Placed(h', cs, fs) && h'.Keys == h.Keys && SameData(h, h', h.Keys - {cs[n - 1].addr}) &&
      ValZip(h', cs, fs) == Zip(ctx[n - 1 := ctx[n - 1].(color := c)], Val(h, fs))
  {
    var n := |cs|;
    var f, up := cs[n - 1], cs[..n - 1];
    var h' := Painted(h, f.addr, c);
    LinkedPathDisjoint(h, cs, Top(fs), Nodes(fs));
    PaintPlaced(h, h', cs, fs, f.addr, c);
    UpLinked(h, cs, fs);
    LinkedPathDisjoint(h, up, At(f.addr), {f.addr} + Nodes(f.other) + Nodes(fs));
    LinkedNodes(h, f.other);
    LinkedNodes(h, fs);
    ValPathFrame(h, h', up);
    ValFrame(h, h', f.other);
    ValFrame(h, h', fs);
  }

  /** Lines 138 and 146: the top of an ancestor's other child repainted changes that subtree's root colour and nothing else. */
  lemma {:induction false} PaintOther(h: Heap, cs: seq<Link>, fs: Shape, i: nat, c: Color)
    requires Placed(h, cs, fs) && i < |cs| && cs[i].other.Br?
    ensures cs[i].other.addr in h && ValPath(h, cs)[i].other.Node?
    ensures var h' := Painted(h, cs[i].other.addr, c);
      var ctx := ValPath(h, cs);
      Placed(h', cs, fs) && h'.Keys == h.Keys && SameData(h, h', h.Keys - {cs[i].other.addr}) &&
      ValZip(h', cs, fs) == Zip(ctx[i := ctx[i].(other := ctx[i].other.(color := c))], Val(h, fs))
    decreases |cs|
  {
    var n := |cs|;
    if i == n - 1 {
      PaintLastOther(h, cs, fs, c);
    } else {
      var a := cs[i].other.addr;
      var f, up := cs[n - 1], cs[..n - 1];
      assert up[i] == cs[i];
      InPath(up, i);
      PaintAbove(h, cs, fs, a, c);
      PaintOther(h, up, AttachS(f, fs), i, c);
      ValPathIndex(h, cs, i);
      ValPathIndex(h, up, i);
      var ctx := ValPath(h, up);
      SnocUpdate(ctx, ValLink(h, f), i, ctx[i].(other := ctx[i].other.(color := c)));
    }
  }

  lemma PaintLastOther(h: Heap, cs: seq<Link>, fs: Shape, c: Color)
    requires Placed(h, cs, fs) && cs != [] && cs[|cs| - 1].other.Br?
    ensures cs[|cs| - 1].other.addr in h && ValPath(h, cs)[|cs| - 1].other.Node?
    ensures var n := |cs|;
      var h' := Painted(h, cs[n - 1].other.addr, c);
      var ctx := ValPath(h, cs);
      Placed(h', cs, fs) && h'.Keys == h.Keys && SameData(h, h', h.Keys - {cs[n - 1].other.addr}) &&
      ValZip(h', cs, fs) == Zip(ctx[n - 1 := ctx[n - 1].(other := ctx[n - 1].other.(color := c))], Val(h, fs))
  {
    var n := |cs|;
    var f, up := cs[n - 1], cs[..n - 1];
    var a := f.other.addr;
    var h' := Painted(h, a, c);
    LinkedPathDisjoint(h, cs, Top(fs), Nodes(fs));
    UpLinked(h, cs, fs);
    LinkedPathDisjoint(h, up, At(f.addr), {f.addr} + Nodes(f.other) + Nodes(fs));
    LinkedNodes(h, f.other);
    LinkedNodes(h, fs);
    PaintPlaced(h, h', cs, fs, a, c);
    ValPathFrame(h, h', up);
    PaintedTop(h, f.other, c);
    ValFrame(h, h', fs);
  }

  // ----- the sibling rises above the parent (lines 107-109, 130-131, 135-136) -----------------

  /**
   * The path after the parent's other child `S` rose above the parent: the
   * top of `S` with `S`'s outer child, then the parent adopting `S`'s inner
   * child, both on the path's side.
   */
  function RisePath(cs: seq<Link>): seq<Link>
    requires cs != [] && cs[|cs| - 1].other.Br?
  {
    var n := |cs|;
    var pl := cs[n - 1];
    var S, d := pl.other, pl.toLeft;
    cs[..n - 1] + [Link(S.addr, d, ChildS(S, !d)), Link(pl.addr, d, ChildS(S, d))]
  }

  /** `HandleRotation(parent_node, s)` then `HandleReconnection(grand_parent_node, s)`: the rotation lifting the other child of the last ancestor. */
  function RiseHeap(h: Heap, cs: seq<Link>, fs: Shape): Heap
    requires cs != [] && cs[|cs| - 1].other.Br? && cs[|cs| - 1].addr in h && cs[|cs| - 1].other.addr in h
    requires |cs| >= 2 ==> cs[|cs| - 2].addr in h
  {
    var n := |cs|;
    var pl := cs[n - 1];
    assert ChildS(AttachS(pl, fs), !pl.toLeft) == pl.other;
    Lifted(h, cs[..n - 1], AttachS(pl, fs), !pl.toLeft)
  }

  /** The rotation and reconnection as the class performs them are `RiseHeap`. */
  lemma RiseHeapIs(h: Heap, hA: Heap, hB: Heap, cs: seq<Link>, fs: Shape)
    requires cs != [] && cs[|cs| - 1].other.Br?
    requires var n, pl := |cs|, cs[|cs| - 1];
      pl.addr in h && pl.other.addr in h && (n >= 2 ==> cs[n - 2].addr in h) &&
      hA == Rotated(h, pl.addr, pl.other.addr, !pl.toLeft) &&
      (n >= 2 ==> cs[n - 2].addr in hA && pl.other.addr in hA) &&
      hB == (if n >= 2 then Reconnected(hA, cs[n - 2].addr, pl.other.addr) else hA)
    ensures hB == RiseHeap(h, cs, fs)
  {
    var n := |cs|;
    if n >= 2 {
      assert cs[..n - 1][n - 2] == cs[n - 2];
    }
  }

  /** After the rise the nodes under the new path are linked, hold the same nodes, and the root is the risen node when the parent was the root. */
  lemma RiseLinks(h: Heap, cs: seq<Link>, fs: Shape)
    requires Placed(h, cs, fs) && cs != [] && cs[|cs| - 1].other.Br?
    requires |cs| >= 2 ==> KeySide(h, cs[|cs| - 1].other.addr, cs[|cs| - 2].addr, cs[|cs| - 2].toLeft)
    ensures var n, pl := |cs|, cs[|cs| - 1];
      pl.addr in h && pl.other.addr in h && (n >= 2 ==> cs[n - 2].addr in h)
    ensures var h', cs' := RiseHeap(h, cs, fs), RisePath(cs);
      var n, pl := |cs|, cs[|cs| - 1];
      Placed(h', cs', fs) && h'.Keys == h.Keys && SameData(h, h', h.Keys) &&
      PathNodes(cs') + Nodes(fs) == PathNodes(cs) + Nodes(fs) &&
      RootOf(cs', fs) == (if n == 1 then At(pl.other.addr) else RootOf(cs, fs)) &&
      Anc(cs', 1) == At(pl.addr) && Anc(cs', 2) == At(pl.other.addr)
  {
    var n := |cs|;
    var pl, up := cs[n - 1], cs[..n - 1];
    var d := pl.toLeft;
    var A := AttachS(pl, fs);
    RiseLifted(h, cs, fs);
    var h' := RiseHeap(h, cs, fs);
    var R := RotS(A, !d);
    RiseShape(cs, fs);
    DownTwice(h', up, R, d);
  }

  /** Walking down twice from the rotated subtree, on the path's side, gives the risen path and the same subtree. */
  lemma RiseShape(cs: seq<Link>, fs: Shape)
    requires cs != [] && cs[|cs| - 1].other.Br?
    ensures var n, pl := |cs|, cs[|cs| - 1];
      var up, R, d := cs[..n - 1], RotS(AttachS(pl, fs), !pl.toLeft), pl.toLeft;
      R.Br? && ChildS(R, d).Br? && DownS(DownS(up, R, d).0, DownS(up, R, d).1, d) == (RisePath(cs), fs)
  {
    var n, pl := |cs|, cs[|cs| - 1];
    var up := cs[..n - 1];
    var S := pl.other;
    if pl.toLeft {
      var R := Br(S.addr, Br(pl.addr, fs, S.left), S.right);
      assert RotS(AttachS(pl, fs), false) == R;
      assert DownS(up, R, true) == (up + [Link(S.addr, true, S.right)], Br(pl.addr, fs, S.left));
      assert (up + [Link(S.addr, true, S.right)]) + [Link(pl.addr, true, S.left)] == RisePath(cs);
    } else {
      var R := Br(S.addr, S.left, Br(pl.addr, S.right, fs));
      assert RotS(AttachS(pl, fs), true) == R;
      assert DownS(up, R, false) == (up + [Link(S.addr, false, S.left)], Br(pl.addr, S.right, fs));
      assert (up + [Link(S.addr, false, S.left)]) + [Link(pl.addr, false, S.right)] == RisePath(cs);
    }
  }

  /** The rotation and reconnection of the parent's subtree, before the path is walked down again. */
  lemma RiseLifted(h: Heap, cs: seq<Link>, fs: Shape)
    requires Placed(h, cs, fs) && cs != [] && cs[|cs| - 1].other.Br?
    requires |cs| >= 2 ==> KeySide(h, cs[|cs| - 1].other.addr, cs[|cs| - 2].addr, cs[|cs| - 2].toLeft)
    ensures var n, pl := |cs|, cs[|cs| - 1];
      pl.addr in h && pl.other.addr in h && (n >= 2 ==> cs[n - 2].addr in h)
    ensures var n, pl := |cs|, cs[|cs| - 1];
      var h', up, R := RiseHeap(h, cs, fs), cs[..n - 1], RotS(AttachS(pl, fs), !pl.toLeft);
      R.Br? && Linked(h', R) && LinkedPath(h', up, Top(R), Nodes(R)) && h'.Keys == h.Keys && SameData(h, h', h.Keys) &&
      PathNodes(up) + Nodes(R) == PathNodes(cs) + Nodes(fs) &&
      RootOf(up, R) == (if n == 1 then At(pl.other.addr) else RootOf(cs, fs))
  {
    var n := |cs|;
    var pl, up := cs[n - 1], cs[..n - 1];
    var A := AttachS(pl, fs);
    UpLinked(h, cs, fs);
    LinkedNodes(h, A);
    LinkedPathDisjoint(h, up, Top(A), Nodes(A));
    assert ChildS(A, !pl.toLeft) == pl.other;
    if n >= 2 {
      assert up[n - 2] == cs[n - 2];
      assert up[0] == cs[0];
    }
    LiftedLinks(h, up, A, !pl.toLeft);
  }

  /** Two steps down from a linked subtree. */
  lemma DownTwice(h: Heap, up: seq<Link>, R: Shape, d: bool)
    requires R.Br? && Linked(h, R) && LinkedPath(h, up, Top(R), Nodes(R)) && ChildS(R, d).Br?
    ensures var (c1, s1) := DownS(up, R, d);
      var (c2, s2) := DownS(c1, s1, d);
      Placed(h, c2, s2) && PathNodes(c2) + Nodes(s2) == PathNodes(up) + Nodes(R) &&
      RootOf(c2, s2) == RootOf(up, R) && Anc(c2, 1) == Top(s1) && Anc(c2, 2) == Top(R)
  {
    DownLinked(h, up, R, d);
    var (c1, s1) := DownS(up, R, d);
    DownLinked(h, c1, s1, d);
    var (c2, s2) := DownS(c1, s1, d);
    LinkedPathDisjoint(h, c2, Top(s2), Nodes(s2));
  }

  /** The values of a path ending in two links. */
  lemma ValPathTwo(h: Heap, up: seq<Link>, l1: Link, l2: Link)
    requires OnHeap(h, up + [l1, l2])
    ensures OnHeap(h, up) && l1.addr in h && l2.addr in h
    ensures ValPath(h, up + [l1, l2]) == ValPath(h, up) + [ValLink(h, l1), ValLink(h, l2)]
  {
    var cs := up + [l1, l2];
    assert cs[|up|] == l1 && cs[|up| + 1] == l2;
    assert forall i :: 0 <= i < |up| ==> up[i] == cs[i];
    assert cs[..|cs| - 1] == up + [l1];
    assert (up + [l1])[..|up|] == up;
  }

  /** After the rise (before any colour is written) the path reads as the sibling's top frame and the parent's frame, in their old colours. */
  lemma RiseVal(h: Heap, h': Heap, cs: seq<Link>, fs: Shape)
    requires Placed(h, cs, fs) && cs != [] && cs[|cs| - 1].other.Br?
    requires Placed(h', RisePath(cs), fs) && h'.Keys == h.Keys && SameData(h, h', h.Keys)
    ensures var n, ctx := |cs|, ValPath(h, cs);
      var pv := ctx[n - 1];
      var sv, d := pv.other, pv.toLeft;
      sv.Node? &&
      ValZip(h', RisePath(cs), fs) ==
        Zip(ctx[..n - 1] + [Frame(sv.color, sv.key, sv.value, d, Child(sv, !d)), Frame(pv.color, pv.key, pv.value, d, Child(sv, d))], Val(h, fs))
  {
    var n := |cs|;
    var pl, up := cs[n - 1], cs[..n - 1];
    var S, d := pl.other, pl.toLeft;
    RiseParts(h, cs, fs);
    ValPathFrame(h, h', up);
    ValFrame(h, h', S);
    ValFrame(h, h', fs);
    ValPathTwo(h', up, Link(S.addr, d, ChildS(S, !d)), Link(pl.addr, d, ChildS(S, d)));
  }

  /** What the rise reads from the old memory: the path above the parent, the parent's frame, and the sibling. */
  lemma RiseParts(h: Heap, cs: seq<Link>, fs: Shape)
    requires Placed(h, cs, fs) && cs != [] && cs[|cs| - 1].other.Br?
    ensures var n, pl := |cs|, cs[|cs| - 1];
      var S := pl.other;
      PathNodes(cs[..n - 1]) <= h.Keys && Nodes(S) <= h.Keys && Nodes(fs) <= h.Keys &&
      OnHeap(h, cs[..n - 1]) && ValPath(h, cs[..n - 1]) == ValPath(h, cs)[..n - 1] &&
      ValPath(h, cs)[n - 1] == ValLink(h, pl) && S.addr in h
  {
    var n := |cs|;
    var pl, up := cs[n - 1], cs[..n - 1];
    LinkedPathDisjoint(h, cs, Top(fs), Nodes(fs));
    UpLinked(h, cs, fs);
    LinkedNodes(h, AttachS(pl, fs));
    LinkedPathDisjoint(h, up, At(pl.addr), Nodes(AttachS(pl, fs)));
    ValPathPrefix(h, cs, n - 1);
    ValPathIndex(h, cs, n - 1);
  }

  // ----- the first rotation of the double case (lines 124-125) ---------------------------------

  /** The path after the sibling's child on side `e` rose above the sibling, under the parent. */
  function InnerPath(cs: seq<Link>, e: bool): seq<Link>
    requires cs != [] && cs[|cs| - 1].other.Br?
  {
    var n := |cs|;
    cs[..n - 1] + [cs[n - 1].(other := RotS(cs[n - 1].other, e))]
  }

  /** `HandleRotation(sibling_node, red_child)` then `HandleReconnection(parent_node, red_child)`. */
  function InnerHeap(h: Heap, cs: seq<Link>, e: bool): Heap
    requires cs != [] && cs[|cs| - 1].other.Br? && ChildS(cs[|cs| - 1].other, e).Br?
    requires cs[|cs| - 1].addr in h && cs[|cs| - 1].other.addr in h && ChildS(cs[|cs| - 1].other, e).addr in h
  {
    var n := |cs|;
    var S := cs[n - 1].other;
    var c := ChildS(S, e).addr;
    Reconnected(Rotated(h, S.addr, c, e), cs[n - 1].addr, c)
  }

  /** The inner rotation keeps the path linked with the rotated sibling as the parent's other child. */
  lemma InnerLinks(h: Heap, cs: seq<Link>, fs: Shape, e: bool)
    requires Placed(h, cs, fs) && cs != [] && cs[|cs| - 1].other.Br? && ChildS(cs[|cs| - 1].other, e).Br?
    requires KeySide(h, ChildS(cs[|cs| - 1].other, e).addr, cs[|cs| - 1].addr, !cs[|cs| - 1].toLeft)
    ensures var pl := cs[|cs| - 1];
      pl.addr in h && pl.other.addr in h && ChildS(pl.other, e).addr in h
    ensures var h', cs' := InnerHeap(h, cs, e), InnerPath(cs, e);
      Placed(h', cs', fs) && h'.Keys == h.Keys && SameData(h, h', h.Keys) &&
      PathNodes(cs') + Nodes(fs) == PathNodes(cs) + Nodes(fs) && RootOf(cs', fs) == RootOf(cs, fs) &&
      |cs'| == |cs| && cs'[..|cs| - 1] == cs[..|cs| - 1] && cs'[|cs| - 1].addr == cs[|cs| - 1].addr &&
      cs'[|cs| - 1].toLeft == cs[|cs| - 1].toLeft && cs'[|cs| - 1].other == RotS(cs[|cs| - 1].other, e)
  {
    var n := |cs|;
    var pl, up := cs[n - 1], cs[..n - 1];
    var S := pl.other;
    InnerLast(h, cs, fs, e);
    var h' := InnerHeap(h, cs, e);
    var cs' := InnerPath(cs, e);
    InnerShape(cs, fs, e);
    UpLinked(h, cs, fs);
    LinkedPathDisjoint(h, up, At(pl.addr), {pl.addr} + Nodes(S) + Nodes(fs));
    LinkedPathFrame(h, h', up, At(pl.addr), {pl.addr} + Nodes(S) + Nodes(fs));
    LinkedPathDisjoint(h', cs', Top(fs), Nodes(fs));
  }

  /** The inner rotation keeps the nodes of the parent's other child, hence those of the path, and the root. */
  lemma InnerShape(cs: seq<Link>, fs: Shape, e: bool)
    requires cs != [] && cs[|cs| - 1].other.Br? && ChildS(cs[|cs| - 1].other, e).Br?
    ensures var n, cs' := |cs|, InnerPath(cs, e);
      var pl := cs[n - 1];
      Nodes(RotS(pl.other, e)) == Nodes(pl.other) && PathNodes(cs') == PathNodes(cs) &&
      {pl.addr} + Nodes(RotS(pl.other, e)) + Nodes(fs) == {pl.addr} + Nodes(pl.other) + Nodes(fs)
    ensures var n, cs' := |cs|, InnerPath(cs, e);
      RootOf(cs', fs) == RootOf(cs, fs) && cs'[..n - 1] == cs[..n - 1] && cs' == cs[..n - 1] + [cs'[n - 1]]
  {
    InnerSeq(cs, fs, e);
    InnerNodes(cs, e);
  }

  lemma InnerSeq(cs: seq<Link>, fs: Shape, e: bool)
    requires cs != [] && cs[|cs| - 1].other.Br? && ChildS(cs[|cs| - 1].other, e).Br?
    ensures var n, cs' := |cs|, InnerPath(cs, e);
      RootOf(cs', fs) == RootOf(cs, fs) && cs'[..n - 1] == cs[..n - 1] && cs' == cs[..n - 1] + [cs'[n - 1]]
  {
    var n, cs' := |cs|, InnerPath(cs, e);
    assert cs'[..n - 1] == cs[..n - 1];
    assert cs'[0].addr == cs[0].addr;
  }

  lemma InnerNodes(cs: seq<Link>, e: bool)
    requires cs != [] && cs[|cs| - 1].other.Br? && ChildS(cs[|cs| - 1].other, e).Br?
    ensures PathNodes(InnerPath(cs, e)) == PathNodes(cs)
  {
    var n, cs' := |cs|, InnerPath(cs, e);
    var S := cs[n - 1].other;
    RotSNodes(S, e);
    assert cs'[..n - 1] == cs[..n - 1];
    assert PathNodes(cs') == PathNodes(cs[..n - 1]) + {cs[n - 1].addr} + Nodes(RotS(S, e));
  }

  lemma RotSNodes(s: Shape, e: bool)
    requires s.Br? && ChildS(s, e).Br?
    ensures Nodes(RotS(s, e)) == Nodes(s)
  {
  }

  /** The inner rotation rewrites the links of the sibling, its child and the parent only; the parent's link is whole again. */
  lemma InnerLast(h: Heap, cs: seq<Link>, fs: Shape, e: bool)
    requires Placed(h, cs, fs) && cs != [] && cs[|cs| - 1].other.Br? && ChildS(cs[|cs| - 1].other, e).Br?
    requires KeySide(h, ChildS(cs[|cs| - 1].other, e).addr, cs[|cs| - 1].addr, !cs[|cs| - 1].toLeft)
    ensures var pl := cs[|cs| - 1];
      pl.addr in h && pl.other.addr in h && ChildS(pl.other, e).addr in h
    ensures var h', pl := InnerHeap(h, cs, e), cs[|cs| - 1];
      var S := pl.other;
      Linked(h', fs) && LinkedLink(h', pl.(other := RotS(S, e)), Top(fs), Nodes(fs)) &&
      h'.Keys == h.Keys && SameData(h, h', h.Keys) && Nodes(RotS(S, e)) == Nodes(S) &&
      SameLinks(h, h', h.Keys - ({pl.addr} + Nodes(S)))
  {
    InnerRotated(h, cs, fs, e);
    InnerLastLinks(h, cs, fs, e);
    InnerLastFrame(h, cs, e);
  }

  /** After the inner rotation the focus and the parent's link, now over the rotated sibling, are linked. */
  lemma InnerLastLinks(h: Heap, cs: seq<Link>, fs: Shape, e: bool)
    requires Placed(h, cs, fs) && cs != [] && cs[|cs| - 1].other.Br? && ChildS(cs[|cs| - 1].other, e).Br?
    requires KeySide(h, ChildS(cs[|cs| - 1].other, e).addr, cs[|cs| - 1].addr, !cs[|cs| - 1].toLeft)
    ensures var h', pl := InnerHeap(h, cs, e), cs[|cs| - 1];
      Linked(h', fs) && LinkedLink(h', pl.(other := RotS(pl.other, e)), Top(fs), Nodes(fs))
  {
    var pl := cs[|cs| - 1];
    var S := pl.other;
    InnerRotated(h, cs, fs, e);
    var hA := Rotated(h, S.addr, ChildS(S, e).addr, e);
    var h' := InnerHeap(h, cs, e);
    assert SameLinks(hA, h', hA.Keys - {pl.addr});
    LinkedFrame(hA, h', RotS(S, e));
    LinkedFrame(hA, h', fs);
  }

  /** The inner rotation keeps every address and every node's data, and the links off the parent and the sibling. */
  lemma InnerLastFrame(h: Heap, cs: seq<Link>, e: bool)
    requires cs != [] && cs[|cs| - 1].other.Br? && ChildS(cs[|cs| - 1].other, e).Br?
    requires cs[|cs| - 1].addr in h && cs[|cs| - 1].other.addr in h && ChildS(cs[|cs| - 1].other, e).addr in h
    requires var S := cs[|cs| - 1].other;
      var hA := Rotated(h, S.addr, ChildS(S, e).addr, e);
      hA.Keys == h.Keys && SameData(h, hA, h.Keys) && SameLinks(h, hA, h.Keys - Nodes(S))
    ensures var h', pl := InnerHeap(h, cs, e), cs[|cs| - 1];
      h'.Keys == h.Keys && SameData(h, h', h.Keys) && SameLinks(h, h', h.Keys - ({pl.addr} + Nodes(pl.other)))
  {
    var pl := cs[|cs| - 1];
    var S := pl.other;
    var hA := Rotated(h, S.addr, ChildS(S, e).addr, e);
    assert SameLinks(hA, InnerHeap(h, cs, e), hA.Keys - {pl.addr});
  }

  /** The rotation inside the sibling, before the parent is relinked: the rest of the tree keeps its links. */
  lemma InnerRotated(h: Heap, cs: seq<Link>, fs: Shape, e: bool)
    requires Placed(h, cs, fs) && cs != [] && cs[|cs| - 1].other.Br? && ChildS(cs[|cs| - 1].other, e).Br?
    ensures var pl := cs[|cs| - 1];
      pl.addr in h && pl.other.addr in h && ChildS(pl.other, e).addr in h
    ensures var pl := cs[|cs| - 1];
      var S := pl.other;
      var hA := Rotated(h, S.addr, ChildS(S, e).addr, e);
      Linked(hA, RotS(S, e)) && Top(RotS(S, e)) == At(ChildS(S, e).addr) && Nodes(RotS(S, e)) == Nodes(S) &&
      Linked(hA, fs) && hA.Keys == h.Keys && SameData(h, hA, h.Keys) && SameLinks(h, hA, h.Keys - Nodes(S)) &&
      hA[pl.addr] == h[pl.addr] && pl.addr !in Nodes(S) && pl.addr !in Nodes(fs) && Nodes(S) !! Nodes(fs)
  {
    var pl := cs[|cs| - 1];
    var S := pl.other;
    LinkedPathDisjoint(h, cs, Top(fs), Nodes(fs));
    assert LinkedLink(h, pl, Top(fs), Nodes(fs));
    LinkedNodes(h, S);
    LinkedNodes(h, fs);
    RotatedLinks(h, S, e);
    LinkedFrame(h, Rotated(h, S.addr, ChildS(S, e).addr, e), fs);
  }

  /** After the inner rotation the parent's other child reads as the sibling rotated. */
  lemma InnerVal(h: Heap, h': Heap, cs: seq<Link>, fs: Shape, e: bool)
    requires Placed(h, cs, fs) && cs != [] && cs[|cs| - 1].other.Br? && ChildS(cs[|cs| - 1].other, e).Br?
    requires Placed(h', InnerPath(cs, e), fs) && h'.Keys == h.Keys && SameData(h, h', h.Keys)
    ensures var n, ctx := |cs|, ValPath(h, cs);
      var pv := ctx[n - 1];
      pv.other.Node? && Child(pv.other, e).Node? &&
      ValZip(h', InnerPath(cs, e), fs) == Zip(ctx[..n - 1] + [pv.(other := RotateUp(pv.other, e))], Val(h, fs))
  {
    var n := |cs|;
    var pl, up := cs[n - 1], cs[..n - 1];
    var S := pl.other;
    LinkedPathDisjoint(h, cs, Top(fs), Nodes(fs));
    assert LinkedLink(h, pl, Top(fs), Nodes(fs));
    LinkedNodes(h, S);
    LinkedNodes(h, fs);
    UpLinked(h, cs, fs);
    LinkedPathDisjoint(h, up, At(pl.addr), Nodes(AttachS(pl, fs)));
    ValPathFrame(h, h', up);
    ValPathPrefix(h, cs, n - 1);
    ValPathIndex(h, cs, n - 1);
    ValFrame(h, h', fs);
    RotSVal(h, S, e);
    ValFrame(h, h', RotS(S, e));
    var cs' := InnerPath(cs, e);
    assert cs'[..n - 1] == up;
  }

  // ----- the four recolourings -----------------------------------------------------------------

  /** Two colours written into the last two frames of a path. */
  lemma PaintTwo(up: seq<Frame>, a: Frame, b: Frame, ca: Color, cb: Color)
    ensures var c := up + [a, b];
      var c2 := c[|up| := c[|up|].(color := ca)];
      c2[|up| + 1 := c2[|up| + 1].(color := cb)] == up + [a.(color := ca), b.(color := cb)]
  {
  }

  /**
   * Lines 107-111 step by step: the rotation and reconnection lifting the red
   * sibling (`hB`), the sibling painted black (`hC`) and the parent red (`hD`).
   * The nodes then denote `RotateRedSibling` of the state before, under the
   * risen path, with the parent still the node's parent and the sibling above it.
   */
  lemma RedSiblingSteps(h: Heap, hB: Heap, hC: Heap, hD: Heap, cs: seq<Link>, fs: Shape)
    requires Placed(h, cs, fs) && cs != [] && cs[|cs| - 1].other.Br?
    requires |cs| >= 2 ==> KeySide(h, cs[|cs| - 1].other.addr, cs[|cs| - 2].addr, cs[|cs| - 2].toLeft)
    requires var n, pl := |cs|, cs[|cs| - 1];
      pl.addr in h && pl.other.addr in h && (n >= 2 ==> cs[n - 2].addr in h) && hB == RiseHeap(h, cs, fs) &&
      hC == Painted(hB, pl.other.addr, Black) && hD == Painted(hC, pl.addr, Red)
    ensures var cs', n, pl := RisePath(cs), |cs|, cs[|cs| - 1];
      Placed(hD, cs', fs) && hD.Keys == h.Keys && PathNodes(cs') + Nodes(fs) == PathNodes(cs) + Nodes(fs) &&
      RootOf(cs', fs) == (if n == 1 then At(pl.other.addr) else RootOf(cs, fs)) &&
      Anc(cs', 1) == At(pl.addr) && Anc(cs', 2) == At(pl.other.addr)
    ensures ValPath(h, cs)[|cs| - 1].other.Node? && ValZip(hD, RisePath(cs), fs) == RotateRedSibling(ValZip(h, cs, fs), false)
  {
    var n, pl := |cs|, cs[|cs| - 1];
    var cs' := RisePath(cs);
    RiseLinks(h, cs, fs);
    RiseVal(h, hB, cs, fs);
    PaintAt(hB, cs', fs, n - 1, Black);
    PaintAt(hC, cs', fs, n, Red);
    RedSiblingGlue(ValZip(h, cs, fs), ValZip(hB, cs', fs), ValZip(hC, cs', fs), ValZip(hD, cs', fs));
  }

  /** The path after the rise (`zB`), the sibling painted black (`zC`) and the parent red (`zD`) is `RotateRedSibling` of the path before. */
  lemma RedSiblingGlue(z: Zip, zB: Zip, zC: Zip, zD: Zip)
    requires z.ctx != [] && z.ctx[|z.ctx| - 1].other.Node?
    requires var n, p := |z.ctx|, z.ctx[|z.ctx| - 1];
      var s, d := p.other, p.toLeft;
      zB == Zip(z.ctx[..n - 1] + [Frame(s.color, s.key, s.value, d, Child(s, !d)), Frame(p.color, p.key, p.value, d, Child(s, d))], z.focus)
    requires var n := |z.ctx|;
      zC == Zip(zB.ctx[n - 1 := zB.ctx[n - 1].(color := Black)], zB.focus) &&
      zD == Zip(zC.ctx[n := zC.ctx[n].(color := Red)], zC.focus)
    ensures zD == RotateRedSibling(z, false)
  {
    var n, p := |z.ctx|, z.ctx[|z.ctx| - 1];
    var s, d := p.other, p.toLeft;
    PaintTwo(z.ctx[..n - 1], Frame(s.color, s.key, s.value, d, Child(s, !d)), Frame(p.color, p.key, p.value, d, Child(s, d)), Black, Red);
  }

  /** A frame updated in place at the end of a path is the path's prefix followed by the new frame. */
  lemma LastUpdate(ctx: seq<Frame>, f: Frame)
    requires ctx != []
    ensures ctx[|ctx| - 1 := f] == ctx[..|ctx| - 1] + [f]
  {
  }

  /**
   * Lines 142-147 step by step: the parent painted black (`hA`), the node red
   * (`hB`) and the sibling, when there is one, red (`hC`). The nodes then denote
   * `Flip` of the state before, under the same path.
   */
  lemma FlipColorSteps(h: Heap, hA: Heap, hB: Heap, hC: Heap, cs: seq<Link>, fs: Shape)
    requires Placed(h, cs, fs) && cs != [] && fs.Br?
    requires var pl := cs[|cs| - 1];
      pl.addr in h && hA == Painted(h, pl.addr, Black) && hB == Painted(hA, fs.addr, Red) &&
      hC == (if pl.other.Br? then Painted(hB, pl.other.addr, Red) else hB)
    ensures Placed(hC, cs, fs) && hC.Keys == h.Keys
    ensures Val(h, fs).Node? && ValZip(hC, cs, fs) == Flip(ValZip(h, cs, fs))
  {
    var n, pl := |cs|, cs[|cs| - 1];
    var ctx, x := ValPath(h, cs), Val(h, fs);
    PaintAt(h, cs, fs, n - 1, Black);
    PaintFocus(hA, cs, fs, Red);
    var c1 := ctx[n - 1 := ctx[n - 1].(color := Black)];
    var p := ctx[n - 1];
    if pl.other.Br? {
      PaintOther(hB, cs, fs, n - 1, Red);
      assert c1[n - 1 := c1[n - 1].(other := c1[n - 1].other.(color := Red))] == ctx[n - 1 := p.(color := Black, other := Redden(p.other))];
    } else {
      assert p.other == Empty;
    }
    LastUpdate(ctx, p.(color := Black, other := Redden(p.other)));
  }

  /**
   * Lines 134-139 on a path whose last two frames are the risen sibling and
   * the parent: the node painted red (`hC`), the parent black (`hD`), the
   * sibling red (`hE`) and the sibling's other child black (`hF`).
   */
  lemma PaintSingle(hB: Heap, hC: Heap, hD: Heap, hE: Heap, hF: Heap, cs: seq<Link>, fs: Shape)
    requires Placed(hB, cs, fs) && |cs| >= 2 && fs.Br? && cs[|cs| - 2].other.Br?
    requires var m := |cs|;
      hC == Painted(hB, fs.addr, Red) && hD == Painted(hC, cs[m - 1].addr, Black) &&
      hE == Painted(hD, cs[m - 2].addr, Red) && hF == Painted(hE, cs[m - 2].other.addr, Black)
    ensures Placed(hF, cs, fs) && hF.Keys == hB.Keys
    ensures var m, ctx, x := |cs|, ValPath(hB, cs), Val(hB, fs);
      x.Node? && ctx[m - 2].other.Node? &&
      ValZip(hF, cs, fs) == Zip(ctx[..m - 2] + [ctx[m - 2].(color := Red, other := Blacken(ctx[m - 2].other)), ctx[m - 1].(color := Black)],
                                x.(color := Red))
  {
    var m := |cs|;
    PaintFocus(hB, cs, fs, Red);
    PaintAt(hC, cs, fs, m - 1, Black);
    PaintAt(hD, cs, fs, m - 2, Red);
    PaintOther(hE, cs, fs, m - 2, Black);
    var ctx := ValPath(hB, cs);
    assert ctx == ctx[..m - 2] + [ctx[m - 2], ctx[m - 1]];
  }

  /**
   * The memories of lines 130-131 and 134-139 (single rotation): the sibling
   * risen (`hB`), then the node painted red, the parent black, the sibling red
   * and the sibling's child away from the node black.
   */
  predicate SingleChain(h: Heap, hB: Heap, hC: Heap, hD: Heap, hE: Heap, hF: Heap, cs: seq<Link>, fs: Shape)
  {
    var n := |cs|;
    n >= 1 && fs.Br? &&
    var pl := cs[n - 1];
    var S, d := pl.other, pl.toLeft;
    S.Br? && ChildS(S, !d).Br? &&
    pl.addr in h && S.addr in h && (n >= 2 ==> cs[n - 2].addr in h) && hB == RiseHeap(h, cs, fs) &&
    hC == Painted(hB, fs.addr, Red) && hD == Painted(hC, pl.addr, Black) &&
    hE == Painted(hD, S.addr, Red) && hF == Painted(hE, ChildS(S, !d).addr, Black)
  }

  /**
   * Lines 130-131 and 134-139 step by step (single rotation, the red child
   * on the side away from the node): the nodes then denote `Borrow`
   * (corrected) of the state before, under the risen path.
   */
  lemma BorrowSingleSteps(h: Heap, hB: Heap, hC: Heap, hD: Heap, hE: Heap, hF: Heap, cs: seq<Link>, fs: Shape)
    requires Placed(h, cs, fs) && SingleChain(h, hB, hC, hD, hE, hF, cs, fs)
    requires var pl := cs[|cs| - 1];
      var S, d := pl.other, pl.toLeft;
      ChildS(S, !d).addr in h && h[ChildS(S, !d).addr].color == Red &&
      (IsRed(Val(h, S).left) <==> !d) && KeySide(h, ChildS(S, !d).addr, S.addr, !d)
    requires |cs| >= 2 ==> KeySide(h, cs[|cs| - 1].other.addr, cs[|cs| - 2].addr, cs[|cs| - 2].toLeft)
    ensures var cs', n, pl := RisePath(cs), |cs|, cs[|cs| - 1];
      Placed(hF, cs', fs) && hF.Keys == h.Keys && PathNodes(cs') + Nodes(fs) == PathNodes(cs) + Nodes(fs) &&
      RootOf(cs', fs) == (if n == 1 then At(pl.other.addr) else RootOf(cs, fs)) && Anc(cs', 1) == At(pl.addr)
    ensures var z := ValZip(h, cs, fs);
      var sv := z.ctx[|cs| - 1].other;
      z.focus.Node? && sv.Node? && (IsRed(sv.left) || IsRed(sv.right)) && ValZip(hF, RisePath(cs), fs) == Borrow(z, false, Corrected)
  {
    RiseLinks(h, cs, fs);
    PaintSingle(hB, hC, hD, hE, hF, RisePath(cs), fs);
    BorrowSingleVal(h, hB, hF, cs, fs);
  }

  /** The value half of `BorrowSingleSteps`, from the repainted path that `PaintSingle` gives. */
  lemma BorrowSingleVal(h: Heap, hB: Heap, hF: Heap, cs: seq<Link>, fs: Shape)
    requires Placed(h, cs, fs) && cs != [] && fs.Br? && cs[|cs| - 1].other.Br?
    requires Placed(hB, RisePath(cs), fs) && hB.Keys == h.Keys && SameData(h, hB, h.Keys) && Placed(hF, RisePath(cs), fs)
    requires var cs' := RisePath(cs);
      var m, ctx, x := |cs'|, ValPath(hB, cs'), Val(hB, fs);
      m >= 2 && ValZip(hF, cs', fs) == Zip(ctx[..m - 2] + [ctx[m - 2].(color := Red, other := Blacken(ctx[m - 2].other)), ctx[m - 1].(color := Black)],
                                           x.(color := Red))
    requires var pl := cs[|cs| - 1];
      var S, d := pl.other, pl.toLeft;
      ChildS(S, !d).Br? && ChildS(S, !d).addr in h && h[ChildS(S, !d).addr].color == Red &&
      (IsRed(Val(h, S).left) <==> !d) && KeySide(h, ChildS(S, !d).addr, S.addr, !d)
    ensures var z := ValZip(h, cs, fs);
      var sv := z.ctx[|cs| - 1].other;
      z.focus.Node? && sv.Node? && (IsRed(sv.left) || IsRed(sv.right)) && ValZip(hF, RisePath(cs), fs) == Borrow(z, false, Corrected)
  {
    var cs' := RisePath(cs);
    RiseVal(h, hB, cs, fs);
    BorrowSingleShape(h, cs, fs);
    SingleGlue(ValZip(h, cs, fs), ValZip(hB, cs', fs), ValZip(hF, cs', fs));
  }

  /** The sibling read as a tree has the red child away from the node that the memory shows. */
  lemma BorrowSingleShape(h: Heap, cs: seq<Link>, fs: Shape)
    requires Placed(h, cs, fs) && cs != [] && fs.Br?
    requires var pl := cs[|cs| - 1];
      var S, d := pl.other, pl.toLeft;
      S.Br? && ChildS(S, !d).Br? && ChildS(S, !d).addr in h && h[ChildS(S, !d).addr].color == Red &&
      (IsRed(Val(h, S).left) <==> !d) && KeySide(h, ChildS(S, !d).addr, S.addr, !d)
    ensures var ctx := ValPath(h, cs);
      var p := ctx[|cs| - 1];
      var sv, d := p.other, p.toLeft;
      Val(h, fs).Node? && sv.Node? && IsRed(Child(sv, !d)) && (IsRed(sv.left) <==> !d) && (Child(sv, !d).key < sv.key <==> !d)
  {
    var n, pl := |cs|, cs[|cs| - 1];
    LinkedPathDisjoint(h, cs, Top(fs), Nodes(fs));
    assert LinkedLink(h, pl, Top(fs), Nodes(fs));
    SiblingChildVal(h, pl.other, !pl.toLeft);
    LinkedNodes(h, fs);
  }

  /** The path after the rise (`zB`) and the repaint of lines 134-139 (`zF`) is `Borrow` of the path before. */
  lemma SingleGlue(z: Zip, zB: Zip, zF: Zip)
    requires z.focus.Node? && z.ctx != [] && z.ctx[|z.ctx| - 1].other.Node?
    requires var p := z.ctx[|z.ctx| - 1];
      var s, d := p.other, p.toLeft;
      IsRed(Child(s, !d)) && (IsRed(s.left) <==> !d) && (Child(s, !d).key < s.key <==> !d)
    requires var n, p := |z.ctx|, z.ctx[|z.ctx| - 1];
      var s, d := p.other, p.toLeft;
      zB == Zip(z.ctx[..n - 1] + [Frame(s.color, s.key, s.value, d, Child(s, !d)), Frame(p.color, p.key, p.value, d, Child(s, d))], z.focus)
    requires var m := |zB.ctx|;
      m >= 2 && zF == Zip(zB.ctx[..m - 2] + [zB.ctx[m - 2].(color := Red, other := Blacken(zB.ctx[m - 2].other)), zB.ctx[m - 1].(color := Black)],
                          zB.focus.(color := Red))
    ensures zF == Borrow(z, false, Corrected)
  {
    var n := |z.ctx|;
    BorrowSingleIs(z);
    assert zB.ctx[..n - 1] == z.ctx[..n - 1];
  }

  /** `Borrow` when the red child of the sibling lies away from the node: the sibling rises red, its red child and the parent turn black. */
  lemma BorrowSingleIs(z: Zip)
    requires z.focus.Node? && z.ctx != [] && z.ctx[|z.ctx| - 1].other.Node?
    requires var p := z.ctx[|z.ctx| - 1];
      var s, d := p.other, p.toLeft;
      IsRed(Child(s, !d)) && (IsRed(s.left) <==> !d) && (Child(s, !d).key < s.key <==> !d)
    ensures var n, p := |z.ctx|, z.ctx[|z.ctx| - 1];
      var s, d := p.other, p.toLeft;
      Borrow(z, false, Corrected) ==
        Zip(z.ctx[..n - 1] + [Frame(Red, s.key, s.value, d, Blacken(Child(s, !d))), Frame(Black, p.key, p.value, d, Child(s, d))],
            z.focus.(color := Red))
  {
  }

  /** The child of a linked node on side `e`, read as a tree: its colour and key are its record's. */
  lemma SiblingChildVal(h: Heap, S: Shape, e: bool)
    requires Linked(h, S) && S.Br? && ChildS(S, e).Br?
    ensures var c := ChildS(S, e);
      S.addr in h && c.addr in h && Val(h, S).Node? && Child(Val(h, S), e) == Val(h, c) && Val(h, c).Node? &&
      Val(h, c).color == h[c.addr].color && Val(h, c).key == h[c.addr].key && Val(h, S).key == h[S.addr].key
  {
    LinkedNodes(h, S);
  }

  /**
   * The memories of lines 124-125, 130-131 and 134-135 (double rotation): the
   * sibling's red child on the node's side rotated above the sibling (`hI`),
   * then risen above the parent (`hR`), the node painted red and the parent black.
   */
  predicate DoubleChain(h: Heap, hI: Heap, hR: Heap, hC: Heap, hD: Heap, cs: seq<Link>, fs: Shape)
  {
    var n := |cs|;
    n >= 1 && fs.Br? &&
    var pl := cs[n - 1];
    var S, d := pl.other, pl.toLeft;
    S.Br? && ChildS(S, d).Br? &&
    pl.addr in h && S.addr in h && ChildS(S, d).addr in h && hI == InnerHeap(h, cs, d) &&
    pl.addr in hI && ChildS(S, d).addr in hI && (n >= 2 ==> cs[n - 2].addr in hI) &&
    var cs1 := InnerPath(cs, d);
    cs1[n - 1].addr == pl.addr && cs1[n - 1].other.addr == ChildS(S, d).addr && (n >= 2 ==> cs1[n - 2] == cs[n - 2]) &&
    hR == RiseHeap(hI, cs1, fs) && hC == Painted(hR, fs.addr, Red) && hD == Painted(hC, pl.addr, Black)
  }

  /** The key comparisons the double rotation relies on: the red child `rc` sorts to the node's side of the sibling, the sibling's side of the parent, and the path's side of the grandparent. */
  predicate DoubleKeys(h: Heap, cs: seq<Link>)
  {
    var n := |cs|;
    n >= 1 &&
    var pl := cs[n - 1];
    var S, d := pl.other, pl.toLeft;
    S.Br? && ChildS(S, d).Br? &&
    var rc := ChildS(S, d).addr;
    KeySide(h, rc, S.addr, d) && KeySide(h, rc, pl.addr, !d) && (n >= 2 ==> KeySide(h, rc, cs[n - 2].addr, cs[n - 2].toLeft)) &&
    h[rc].color == Red
  }

  /**
   * Lines 124-125, 130-131 and 134-135 step by step (double rotation, the red
   * child on the node's side): the nodes then denote `Borrow` (corrected) of
   * the state before, under the path with the red child risen above the parent.
   */
  lemma BorrowDoubleSteps(h: Heap, hI: Heap, hR: Heap, hC: Heap, hD: Heap, cs: seq<Link>, fs: Shape)
    requires Placed(h, cs, fs) && DoubleChain(h, hI, hR, hC, hD, cs, fs) && DoubleKeys(h, cs)
    requires var pl := cs[|cs| - 1]; IsRed(Val(h, pl.other).left) <==> pl.toLeft
    ensures var cs2, n, pl := RisePath(InnerPath(cs, cs[|cs| - 1].toLeft)), |cs|, cs[|cs| - 1];
      Placed(hD, cs2, fs) && hD.Keys == h.Keys && PathNodes(cs2) + Nodes(fs) == PathNodes(cs) + Nodes(fs) &&
      RootOf(cs2, fs) == (if n == 1 then At(ChildS(pl.other, pl.toLeft).addr) else RootOf(cs, fs)) && Anc(cs2, 1) == At(pl.addr)
    ensures var z := ValZip(h, cs, fs);
      var sv := z.ctx[|cs| - 1].other;
      z.focus.Node? && sv.Node? && (IsRed(sv.left) || IsRed(sv.right)) &&
      ValZip(hD, RisePath(InnerPath(cs, cs[|cs| - 1].toLeft)), fs) == Borrow(z, false, Corrected)
  {
    var n, pl := |cs|, cs[|cs| - 1];
    var cs2 := RisePath(InnerPath(cs, pl.toLeft));
    BorrowDoubleLinks(h, hI, hR, hC, hD, cs, fs);
    assert cs2[n].addr == pl.addr;
    PaintDouble(hR, hC, hD, cs2, fs);
    BorrowDoubleVal(h, hI, hR, hC, hD, cs, fs);
  }

  /** The links half of `BorrowDoubleSteps`, up to the two rotations. */
  lemma BorrowDoubleLinks(h: Heap, hI: Heap, hR: Heap, hC: Heap, hD: Heap, cs: seq<Link>, fs: Shape)
    requires Placed(h, cs, fs) && DoubleChain(h, hI, hR, hC, hD, cs, fs) && DoubleKeys(h, cs)
    ensures var d := cs[|cs| - 1].toLeft;
      var cs1 := InnerPath(cs, d);
      Placed(hI, cs1, fs) && hI.Keys == h.Keys && SameData(h, hI, h.Keys) &&
      Placed(hR, RisePath(cs1), fs) && hR.Keys == h.Keys && SameData(hI, hR, h.Keys)
    ensures var cs2, n, pl := RisePath(InnerPath(cs, cs[|cs| - 1].toLeft)), |cs|, cs[|cs| - 1];
      PathNodes(cs2) + Nodes(fs) == PathNodes(cs) + Nodes(fs) &&
      RootOf(cs2, fs) == (if n == 1 then At(ChildS(pl.other, pl.toLeft).addr) else RootOf(cs, fs)) && Anc(cs2, 1) == At(pl.addr)
  {
    var n, pl := |cs|, cs[|cs| - 1];
    var d := pl.toLeft;
    var cs1 := InnerPath(cs, d);
    InnerLinks(h, cs, fs, d);
    if n >= 2 {
      assert KeySide(hI, cs1[n - 1].other.addr, cs1[n - 2].addr, cs1[n - 2].toLeft);
    }
    RiseLinks(hI, cs1, fs);
  }

  /** `Borrow` when the red child of the sibling lies on the node's side: that child rises above sibling and parent, and the parent turns black. */
  lemma BorrowDoubleIs(z: Zip)
    requires z.focus.Node? && z.ctx != [] && z.ctx[|z.ctx| - 1].other.Node?
    requires var p := z.ctx[|z.ctx| - 1];
      var s, d := p.other, p.toLeft;
      IsRed(Child(s, d)) && (IsRed(s.left) <==> d) && (Child(s, d).key < s.key <==> d)
    ensures var n, p := |z.ctx|, z.ctx[|z.ctx| - 1];
      var d := p.toLeft;
      var s2 := RotateUp(p.other, d);
      Borrow(z, false, Corrected) ==
        Zip(z.ctx[..n - 1] + [Frame(s2.color, s2.key, s2.value, d, Child(s2, !d)), Frame(Black, p.key, p.value, d, Child(s2, d))],
            z.focus.(color := Red))
  {
  }

  /** The value half of `BorrowDoubleSteps`. */
  lemma BorrowDoubleVal(h: Heap, hI: Heap, hR: Heap, hC: Heap, hD: Heap, cs: seq<Link>, fs: Shape)
    requires Placed(h, cs, fs) && cs != [] && fs.Br?
    requires var pl := cs[|cs| - 1];
      var S, d := pl.other, pl.toLeft;
      S.Br? && ChildS(S, d).Br? && (IsRed(Val(h, S).left) <==> d) &&
      KeySide(h, ChildS(S, d).addr, S.addr, d) && h[ChildS(S, d).addr].color == Red
    requires var d := cs[|cs| - 1].toLeft;
      var cs1 := InnerPath(cs, d);
      Placed(hI, cs1, fs) && hI.Keys == h.Keys && SameData(h, hI, h.Keys) &&
      Placed(hR, RisePath(cs1), fs) && hR.Keys == h.Keys && SameData(hI, hR, h.Keys) &&
      hC == Painted(hR, fs.addr, Red) && hD == Painted(hC, cs[|cs| - 1].addr, Black)
    ensures var z := ValZip(h, cs, fs);
      var sv := z.ctx[|cs| - 1].other;
      z.focus.Node? && sv.Node? && (IsRed(sv.left) || IsRed(sv.right)) &&
      ValZip(hD, RisePath(InnerPath(cs, cs[|cs| - 1].toLeft)), fs) == Borrow(z, false, Corrected)
  {
    var n, pl := |cs|, cs[|cs| - 1];
    var d := pl.toLeft;
    var cs2 := RisePath(InnerPath(cs, d));
    BorrowDoubleRise(h, hI, hR, cs, fs);
    assert cs2[n].addr == pl.addr;
    PaintDouble(hR, hC, hD, cs2, fs);
    SiblingRedChild(h, cs, fs, d);
    var z, zR, zD := ValZip(h, cs, fs), ValZip(hR, cs2, fs), ValZip(hD, cs2, fs);
    assert |zR.ctx| == n + 1 && zR.focus == z.focus;
    assert zD == Zip(zR.ctx[..n] + [zR.ctx[n].(color := Black)], zR.focus.(color := Red));
    BorrowDoubleZip(z, zR.ctx, zR.focus, zD);
  }

  /** The states the double rotation passes through, on values: risen (`cR`, `xR`), then painted (`zD`), which is `Borrow`. */
  lemma BorrowDoubleZip(z: Zip, cR: seq<Frame>, xR: Tree, zD: Zip)
    requires z.focus.Node? && z.ctx != [] && z.ctx[|z.ctx| - 1].other.Node?
    requires var p := z.ctx[|z.ctx| - 1];
      var s, d := p.other, p.toLeft;
      IsRed(Child(s, d)) && (IsRed(s.left) <==> d) && (Child(s, d).key < s.key <==> d)
    requires var n, p := |z.ctx|, z.ctx[|z.ctx| - 1];
      var d := p.toLeft;
      var s2 := RotateUp(p.other, d);
      cR == z.ctx[..n - 1] + [Frame(s2.color, s2.key, s2.value, d, Child(s2, !d)), Frame(p.color, p.key, p.value, d, Child(s2, d))] &&
      xR == z.focus && zD == Zip(cR[..n] + [cR[n].(color := Black)], xR.(color := Red))
    ensures zD == Borrow(z, false, Corrected)
  {
    var n := |z.ctx|;
    BorrowDoubleIs(z);
    assert cR[..n] == z.ctx[..n - 1] + [cR[n - 1]];
  }

  /** The sibling's red child on side `e`, read from the parent's frame: red, and on side `e` of the sibling by key. */
  lemma SiblingRedChild(h: Heap, cs: seq<Link>, fs: Shape, e: bool)
    requires Placed(h, cs, fs) && cs != []
    requires var S := cs[|cs| - 1].other;
      S.Br? && ChildS(S, e).Br? && KeySide(h, ChildS(S, e).addr, S.addr, e) && h[ChildS(S, e).addr].color == Red
    ensures var S, sv := cs[|cs| - 1].other, ValPath(h, cs)[|cs| - 1].other;
      sv == Val(h, S) && sv.Node? && IsRed(Child(sv, e)) && (Child(sv, e).key < sv.key <==> e)
  {
    SiblingLinked(h, cs, fs);
    SiblingChildVal(h, cs[|cs| - 1].other, e);
  }

  /** The parent's other child is linked, and the parent's frame holds its value. */
  lemma SiblingLinked(h: Heap, cs: seq<Link>, fs: Shape)
    requires Placed(h, cs, fs) && cs != []
    ensures var n, pl := |cs|, cs[|cs| - 1];
      Linked(h, pl.other) && pl.addr in h && ValPath(h, cs)[n - 1] == ValLink(h, pl) && ValPath(h, cs)[n - 1].other == Val(h, pl.other)
  {
    var n := |cs|;
    LinkedPathDisjoint(h, cs, Top(fs), Nodes(fs));
    assert LinkedLink(h, cs[n - 1], Top(fs), Nodes(fs));
  }

  /** Lines 134-135 on any path: the node painted red (`hC`) and its parent black (`hD`). */
  lemma PaintDouble(hR: Heap, hC: Heap, hD: Heap, cs: seq<Link>, fs: Shape)
    requires Placed(hR, cs, fs) && cs != [] && fs.Br?
    requires hC == Painted(hR, fs.addr, Red) && hD == Painted(hC, cs[|cs| - 1].addr, Black)
    ensures Placed(hD, cs, fs) && hD.Keys == hR.Keys
    ensures var m, ctx, x := |cs|, ValPath(hR, cs), Val(hR, fs);
      x.Node? && ValZip(hD, cs, fs) == Zip(ctx[..m - 1] + [ctx[m - 1].(color := Black)], x.(color := Red))
  {
    var m := |cs|;
    PaintFocus(hR, cs, fs, Red);
    PaintAt(hC, cs, fs, m - 1, Black);
    var ctx := ValPath(hR, cs);
    LastUpdate(ctx, ctx[m - 1].(color := Black));
  }

  /** After both rotations, before any colour is written: the red child's frame above the parent's, in their old colours. */
  lemma BorrowDoubleRise(h: Heap, hI: Heap, hR: Heap, cs: seq<Link>, fs: Shape)
    requires Placed(h, cs, fs) && cs != [] && fs.Br?
    requires var pl := cs[|cs| - 1]; pl.other.Br? && ChildS(pl.other, pl.toLeft).Br?
    requires var d := cs[|cs| - 1].toLeft;
      var cs1 := InnerPath(cs, d);
      Placed(hI, cs1, fs) && hI.Keys == h.Keys && SameData(h, hI, h.Keys) &&
      Placed(hR, RisePath(cs1), fs) && hR.Keys == h.Keys && SameData(hI, hR, h.Keys)
    ensures var n, ctx := |cs|, ValPath(h, cs);
      var pv := ctx[n - 1];
      var d := pv.toLeft;
      pv.other.Node? && Child(pv.other, d).Node? &&
      var s2 := RotateUp(pv.other, d);
      ValZip(hR, RisePath(InnerPath(cs, d)), fs) ==
        Zip(ctx[..n - 1] + [Frame(s2.color, s2.key, s2.value, d, Child(s2, !d)), Frame(pv.color, pv.key, pv.value, d, Child(s2, d))], Val(h, fs))
  {
    var n, pl := |cs|, cs[|cs| - 1];
    var d := pl.toLeft;
    var cs1 := InnerPath(cs, d);
    InnerVal(h, hI, cs, fs, d);
    RiseVal(hI, hR, cs1, fs);
    var ctx := ValPath(h, cs);
    var ctx1 := ValPath(hI, cs1);
    assert ctx1[..n - 1] == ctx[..n - 1];
  }
  // ----- the swap with the successor or predecessor (lines 176-181) ------------------------------

  /** `find_min_leaf_node`: the address of the leftmost node of a subtree. */
  function Leftmost(s: Shape): nat
    requires s.Br?
  {
    if s.left.Nil? then s.addr else Leftmost(s.left)
  }

  /** `find_max_leaf_node`: the address of the rightmost node of a subtree. */
  function Rightmost(s: Shape): nat
    requires s.Br?
  {
    if s.right.Nil? then s.addr else Rightmost(s.right)
  }

  /** The node a found internal node trades its pair with: the successor, or the predecessor when there is no right child. */
  function Neighbour(s: Shape): nat
    requires s.Br? && !(s.left.Nil? && s.right.Nil?)
  {
    if s.right.Br? then Leftmost(s.right) else Rightmost(s.left)
  }

  /** The pair `e` written into the node at `a`. */
  function Rekeyed(h: Heap, a: nat, e: Entry): Heap
    requires a in h
  {
    h[a := h[a].(key := e.key, value := e.value)]
  }

  /** Lines 179-180: the nodes at `a` and `b` trade their keys and their values. */
  function Swapped(h: Heap, a: nat, b: nat): Heap
    requires a in h && b in h
  {
    Rekeyed(Rekeyed(h, a, Entry(h[b].key, h[b].value)), b, Entry(h[a].key, h[a].value))
  }

  /** The leftmost node holds the least pair, and writing a pair there is `SetMin` on the value view. */
  lemma {:induction false} LeftmostVal(h: Heap, s: Shape, e: Entry)
    requires Linked(h, s) && s.Br?
    ensures Leftmost(s) in Nodes(s) && Leftmost(s) in h && Val(h, s).Node?
    ensures var m := Leftmost(s);
      MinEntry(Val(h, s)) == Entry(h[m].key, h[m].value) && Val(Rekeyed(h, m, e), s) == SetMin(Val(h, s), e)
    decreases s
  {
    var m := Leftmost(s);
    LinkedNodes(h, s);
    if s.left.Br? {
      LeftmostVal(h, s.left, e);
    }
    ValFrame(h, Rekeyed(h, m, e), s.right);
  }

  /** The rightmost node holds the greatest pair, and writing a pair there is `SetMax` on the value view. */
  lemma {:induction false} RightmostVal(h: Heap, s: Shape, e: Entry)
    requires Linked(h, s) && s.Br?
    ensures Rightmost(s) in Nodes(s) && Rightmost(s) in h && Val(h, s).Node?
    ensures var m := Rightmost(s);
      MaxEntry(Val(h, s)) == Entry(h[m].key, h[m].value) && Val(Rekeyed(h, m, e), s) == SetMax(Val(h, s), e)
    decreases s
  {
    var m := Rightmost(s);
    LinkedNodes(h, s);
    if s.right.Br? {
      RightmostVal(h, s.right, e);
    }
    ValFrame(h, Rekeyed(h, m, e), s.left);
  }

  /**
   * Lines 178-180: the found node trading its pair with its neighbour keeps
   * every link, and the current subtree then denotes `Swap` of its value.
   */
  lemma SwapSteps(h: Heap, cs: seq<Link>, fs: Shape)
    requires Placed(h, cs, fs) && fs.Br? && !(fs.left.Nil? && fs.right.Nil?)
    ensures fs.addr in h && Neighbour(fs) in h
    ensures var h' := Swapped(h, fs.addr, Neighbour(fs));
      var x := Val(h, fs);
      Placed(h', cs, fs) && h'.Keys == h.Keys && x.Node? && !(x.left.Empty? && x.right.Empty?) &&
      ValZip(h', cs, fs) == Zip(ValPath(h, cs), Swap(x))
  {
    var a, m := fs.addr, Neighbour(fs);
    SwapFocus(h, fs);
    var h' := Swapped(h, a, m);
    LinkedPathDisjoint(h, cs, Top(fs), Nodes(fs));
    LinkedFrame(h, h', fs);
    LinkedPathFrame(h, h', cs, Top(fs), Nodes(fs));
    ValPathFrame(h, h', cs);
  }

  /** The trade seen from the current subtree: links kept, data kept outside the subtree, and the value is `Swap`'s. */
  lemma SwapFocus(h: Heap, fs: Shape)
    requires Linked(h, fs) && fs.Br? && !(fs.left.Nil? && fs.right.Nil?)
    ensures fs.addr in h && Neighbour(fs) in h && Neighbour(fs) in Nodes(fs)
    ensures var h' := Swapped(h, fs.addr, Neighbour(fs));
      var x := Val(h, fs);
      h'.Keys == h.Keys && SameLinks(h, h', h.Keys) && SameData(h, h', h.Keys - Nodes(fs)) &&
      x.Node? && !(x.left.Empty? && x.right.Empty?) && Val(h', fs) == Swap(x)
  {
    LinkedNodes(h, fs);
    if fs.right.Br? {
      SwapRight(h, fs);
    } else {
      SwapLeft(h, fs);
    }
  }

  /** With a right child, the pair trades places with the successor's. */
  lemma SwapRight(h: Heap, fs: Shape)
    requires Linked(h, fs) && fs.Br? && fs.right.Br?
    ensures fs.addr in h && Leftmost(fs.right) in h && Leftmost(fs.right) in Nodes(fs.right)
    ensures var h' := Swapped(h, fs.addr, Leftmost(fs.right));
      var x := Val(h, fs);
      x.Node? && x.right.Node? && Val(h', fs) == Node(x.color, x.left, MinEntry(x.right).key, MinEntry(x.right).value, SetMin(x.right, Entry(x.key, x.value)))
  {
    var a, m := fs.addr, Leftmost(fs.right);
    var ex := Entry(h[a].key, h[a].value);
    LinkedNodes(h, fs);
    LeftmostVal(h, fs.right, ex);
    var h' := Swapped(h, a, m);
    ValFrame(h, h', fs.left);
    ValFrame(Rekeyed(h, m, ex), h', fs.right);
  }

  /** Without a right child, the pair trades places with the predecessor's. */
  lemma SwapLeft(h: Heap, fs: Shape)
    requires Linked(h, fs) && fs.Br? && fs.left.Br?
    ensures fs.addr in h && Rightmost(fs.left) in h && Rightmost(fs.left) in Nodes(fs.left)
    ensures var h' := Swapped(h, fs.addr, Rightmost(fs.left));
      var x := Val(h, fs);
      x.Node? && x.left.Node? && Val(h', fs) == Node(x.color, SetMax(x.left, Entry(x.key, x.value)), MaxEntry(x.left).key, MaxEntry(x.left).value, x.right)
  {
    var a, m := fs.addr, Rightmost(fs.left);
    var ex := Entry(h[a].key, h[a].value);
    LinkedNodes(h, fs);
    RightmostVal(h, fs.left, ex);
    var h' := Swapped(h, a, m);
    ValFrame(h, h', fs.right);
    ValFrame(Rekeyed(h, m, ex), h', fs.left);
  }

  // ----- the leaf unlinked and the root painted black (lines 153-172, 191) --------------------------

  /** Lines 156-163 below a parent: the parent's pointer to the leaf `x` cleared, then the leaf deleted. */
  function Cut(h: Heap, pa: nat, x: nat): Heap
    requires pa in h
  {
    var h1 := if h[pa].left == At(x) then h[pa := h[pa].(left := Null)] else h[pa := h[pa].(right := Null)];
    h1 - {x}
  }

  /** A path stays linked above a subtree that lost some of its nodes. */
  lemma {:induction false} LinkedPathLess(h: Heap, ctx: seq<Link>, below: Ptr, b: set<nat>, b': set<nat>)
    requires LinkedPath(h, ctx, below, b) && b' <= b
    ensures LinkedPath(h, ctx, below, b')
    decreases |ctx|
  {
    if ctx != [] {
      var f := ctx[|ctx| - 1];
      LinkedPathLess(h, ctx[..|ctx| - 1], At(f.addr), {f.addr} + Nodes(f.other) + b, {f.addr} + Nodes(f.other) + b');
    }
  }

  /** Unlinking the leaf under its parent leaves the path above an empty position, with the same values. */
  lemma LeafCut(h: Heap, cs: seq<Link>, fs: Shape)
    requires Placed(h, cs, fs) && cs != [] && fs.Br? && fs.left.Nil? && fs.right.Nil?
    requires h.Keys == PathNodes(cs) + Nodes(fs)
    ensures cs[|cs| - 1].addr in h
    ensures var h' := Cut(h, cs[|cs| - 1].addr, fs.addr);
      Placed(h', cs, Nil) && h'.Keys == PathNodes(cs) && ValPath(h', cs) == ValPath(h, cs)
  {
    var n := |cs|;
    var f := cs[n - 1];
    var h' := Cut(h, f.addr, fs.addr);
    LinkedPathDisjoint(h, cs, Top(fs), Nodes(fs));
    CutLast(h, cs, fs);
    CutAbove(h, cs, fs);
    assert LinkedPath(h', cs, Null, {});
    ValPathFrame(h, h', cs);
  }

  /** The parent after the cut: its pointer to the leaf is null, its other child still linked. */
  lemma CutLast(h: Heap, cs: seq<Link>, fs: Shape)
    requires Placed(h, cs, fs) && cs != [] && fs.Br? && fs.left.Nil? && fs.right.Nil?
    ensures cs[|cs| - 1].addr in h
    ensures var f := cs[|cs| - 1];
      var h' := Cut(h, f.addr, fs.addr);
      LinkedLink(h', f, Null, {}) && h'.Keys == h.Keys - {fs.addr} && SameData(h, h', h.Keys - {fs.addr})
  {
    var f := cs[|cs| - 1];
    var x := fs.addr;
    assert LinkedLink(h, f, At(x), {x});
    var h' := Cut(h, f.addr, x);
    LinkedNodes(h, f.other);
    assert SameLinks(h, h', Nodes(f.other));
    LinkedFrame(h, h', f.other);
  }

  /** The path above the parent after the cut: linked as before. */
  lemma CutAbove(h: Heap, cs: seq<Link>, fs: Shape)
    requires Placed(h, cs, fs) && cs != [] && fs.Br? && fs.left.Nil? && fs.right.Nil?
    ensures cs[|cs| - 1].addr in h
    ensures var f := cs[|cs| - 1];
      LinkedPath(Cut(h, f.addr, fs.addr), cs[..|cs| - 1], At(f.addr), {f.addr} + Nodes(f.other) + {})
  {
    var n := |cs|;
    var f, up := cs[n - 1], cs[..n - 1];
    var x := fs.addr;
    var h' := Cut(h, f.addr, x);
    var b := {f.addr} + Nodes(f.other) + {x};
    assert Nodes(fs) == {x};
    assert LinkedPath(h, up, At(f.addr), b);
    LinkedPathDisjoint(h, up, At(f.addr), b);
    assert SameLinks(h, h', PathNodes(up));
    LinkedPathFrame(h, h', up, At(f.addr), b);
    LinkedPathLess(h', up, At(f.addr), b, {f.addr} + Nodes(f.other) + {});
  }

  /**
   * Lines 168-170 and 191: with the path closed over the current subtree, the
   * root painted black makes the nodes one linked tree denoting the whole
   * value state with its root blackened.
   */
  lemma RootBlackened(h: Heap, cs: seq<Link>, fs: Shape)
    requires Placed(h, cs, fs) && RootOf(cs, fs).At?
    ensures RootOf(cs, fs).addr in h
    ensures var w, h' := PlugS(cs, fs), Painted(h, RootOf(cs, fs).addr, Black);
      Linked(h', w) && h'.Keys == h.Keys && Nodes(w) == PathNodes(cs) + Nodes(fs) && Top(w) == RootOf(cs, fs) &&
      Val(h', w) == Blacken(Whole(ValZip(h, cs, fs)))
  {
    var w := PlugS(cs, fs);
    PlugSWhole(h, cs, fs);
    LinkedNodes(h, w);
    var r := RootOf(cs, fs).addr;
    PaintedFrame(h, r, Black);
    LinkedFrame(h, Painted(h, r, Black), w);
    PaintedTop(h, w, Black);
  }
}
