/**
 * `HandleReorient` (red_black_tree.cpp:331-364) on the node store: the colour
 * writes and the rotations it performs, applied to the nodes under a linked
 * path, produce exactly the descent state `TopDownInsert.Reorient` computes on
 * the value view, and leave the path linked.
 */
module InsertPointers {
  import opened RbSpec
  import opened TreeZipper
  import opened NodeStore
  import opened TopDownInsert

  /** Lines 334-339: the node's children, where present, painted black. */
  function ChildrenBlackened(h: Heap, s: Shape): Heap
    requires s.Br?
  {
    var h1 := if s.left.Br? then Painted(h, s.left.addr, Black) else h;
    if s.right.Br? then Painted(h1, s.right.addr, Black) else h1
  }

  /** A subtree under a linked path, in memory. */
  predicate Placed(h: Heap, cs: seq<Link>, fs: Shape)
  {
    Linked(h, fs) && LinkedPath(h, cs, Top(fs), Nodes(fs)) && OnHeap(h, cs)
  }

  /** Painting a child of the current node black changes that child's colour in the value view and nothing else. */
  lemma PaintChild(h: Heap, cs: seq<Link>, fs: Shape, toLeft: bool)
    requires fs.Br? && Placed(h, cs, fs) && ChildS(fs, toLeft).Br?
    ensures var h' := Painted(h, ChildS(fs, toLeft).addr, Black);
      var t := Val(h, fs);
      t.Node? && Placed(h', cs, fs) && h'.Keys == h.Keys && h'[fs.addr] == h[fs.addr] && ValPath(h', cs) == ValPath(h, cs) &&
      Val(h', fs) == if toLeft then t.(left := Blacken(t.left)) else t.(right := Blacken(t.right))
  {
    LinkedNodes(h, fs);
    LinkedPathDisjoint(h, cs, Top(fs), Nodes(fs));
    var c := ChildS(fs, toLeft);
    var h' := Painted(h, c.addr, Black);
    PaintedFrame(h, c.addr, Black);
    LinkedFrame(h, h', fs);
    LinkedPathFrame(h, h', cs, Top(fs), Nodes(fs));
    ValPathFrame(h, h', cs);
    PaintedTop(h, c, Black);
    ValFrame(h, h', ChildS(fs, !toLeft));
  }

  lemma ChildrenBlackenedVal(h: Heap, cs: seq<Link>, fs: Shape)
    requires fs.Br? && Placed(h, cs, fs)
    ensures var h' := ChildrenBlackened(h, fs);
      Placed(h', cs, fs) && h'.Keys == h.Keys && h'[fs.addr] == h[fs.addr] &&
      ValZip(h', cs, fs) == Zip(ValPath(h, cs), FlipChildren(Val(h, fs)))
  {
    var h1 := if fs.left.Br? then Painted(h, fs.left.addr, Black) else h;
    if fs.left.Br? {
      PaintChild(h, cs, fs, true);
    }
    if fs.right.Br? {
      PaintChild(h1, cs, fs, false);
    }
  }

  // ----- key comparisons in memory -------------------------------------------------------

  /** The key comparisons of lines 352, 385 and 394, read from memory, agree with the sides of the path. */
  predicate HeapKeysAgree(h: Heap, cs: seq<Link>, fs: Shape)
  {
    var n := |cs|;
    fs.Br? &&
    (n >= 1 ==> KeySide(h, fs.addr, cs[n - 1].addr, cs[n - 1].toLeft)) &&
    (n >= 2 ==> KeySide(h, cs[n - 1].addr, cs[n - 2].addr, cs[n - 2].toLeft) && KeySide(h, fs.addr, cs[n - 2].addr, cs[n - 2].toLeft)) &&
    (n >= 3 ==> KeySide(h, fs.addr, cs[n - 3].addr, cs[n - 3].toLeft) && KeySide(h, cs[n - 1].addr, cs[n - 3].addr, cs[n - 3].toLeft))
  }

  lemma HeapKeys(h: Heap, cs: seq<Link>, fs: Shape)
    requires Placed(h, cs, fs) && fs.Br? && KeysAgree(ValPath(h, cs), Val(h, fs))
    ensures HeapKeysAgree(h, cs, fs)
  {
    var n := |cs|;
    if n >= 1 {
      ValPathIndex(h, cs, n - 1);
    }
    if n >= 2 {
      ValPathIndex(h, cs, n - 2);
    }
    if n >= 3 {
      ValPathIndex(h, cs, n - 3);
    }
  }

  // ----- single rotation (lines 347, 359-362) --------------------------------------------------

  /** The path after the single rotation: the parent takes the grandparent's place, the grandparent hangs beside the node. */
  function SinglePath(cs: seq<Link>): seq<Link>
    requires |cs| >= 2
  {
    var n := |cs|;
    var g, p := cs[n - 2], cs[n - 1];
    cs[..n - 2] + [Link(p.addr, p.toLeft, AttachS(g, p.other))]
  }

  /** The links after line 347 and the rotation of lines 359-361, before the parent is painted. */
  lemma SingleLifted(h: Heap, hB: Heap, cs: seq<Link>, fs: Shape)
    requires |cs| >= 2 && fs.Br? && Placed(h, cs, fs) && cs[|cs| - 2].toLeft == cs[|cs| - 1].toLeft
    requires |cs| >= 3 ==> KeySide(h, cs[|cs| - 1].addr, cs[|cs| - 3].addr, cs[|cs| - 3].toLeft)
    requires var n := |cs|;
      var g, p := cs[n - 2], cs[n - 1];
      g.addr in h && p.addr in h && ChildS(AttachS(g, AttachS(p, fs)), g.toLeft).Br? &&
      (n >= 3 ==> cs[n - 3].addr in h) &&
      hB == Lifted(Painted(h, g.addr, Red), cs[..n - 2], AttachS(g, AttachS(p, fs)), g.toLeft)
    ensures var n := |cs|;
      var g, p := cs[n - 2], cs[n - 1];
      Placed(hB, SinglePath(cs), fs) && hB.Keys == h.Keys &&
      PathNodes(SinglePath(cs)) + Nodes(fs) == PathNodes(cs) + Nodes(fs) &&
      RootOf(SinglePath(cs), fs) == (if n == 2 then At(p.addr) else RootOf(cs, fs)) &&
      SameData(h, hB, h.Keys - {g.addr, p.addr}) &&
      hB[g.addr] == hB[g.addr].(key := h[g.addr].key, value := h[g.addr].value, color := Red) &&
      hB[p.addr] == hB[p.addr].(key := h[p.addr].key, value := h[p.addr].value, color := h[p.addr].color)
  {
    var n := |cs|;
    var g, p := cs[n - 2], cs[n - 1];
    var up := cs[..n - 2];
    var R := RotS(AttachS(g, AttachS(p, fs)), g.toLeft);
    SingleRaised(h, hB, cs, fs);
    DownLinked(hB, up, R, p.toLeft);
    assert DownS(up, R, p.toLeft) == (SinglePath(cs), fs);
    LinkedPathDisjoint(hB, SinglePath(cs), Top(fs), Nodes(fs));
  }

  /** Line 347 and the rotation of lines 359-361: the parent, with the grandparent below it, tops the window. */
  lemma SingleRaised(h: Heap, hB: Heap, cs: seq<Link>, fs: Shape)
    requires |cs| >= 2 && fs.Br? && Placed(h, cs, fs) && cs[|cs| - 2].toLeft == cs[|cs| - 1].toLeft
    requires |cs| >= 3 ==> KeySide(h, cs[|cs| - 1].addr, cs[|cs| - 3].addr, cs[|cs| - 3].toLeft)
    requires var n := |cs|;
      var g, p := cs[n - 2], cs[n - 1];
      g.addr in h && p.addr in h && ChildS(AttachS(g, AttachS(p, fs)), g.toLeft).Br? &&
      (n >= 3 ==> cs[n - 3].addr in h) &&
      hB == Lifted(Painted(h, g.addr, Red), cs[..n - 2], AttachS(g, AttachS(p, fs)), g.toLeft)
    ensures var n := |cs|;
      var g, p, up := cs[n - 2], cs[n - 1], cs[..n - 2];
      var R := RotS(AttachS(g, AttachS(p, fs)), g.toLeft);
      R.Br? && Linked(hB, R) && LinkedPath(hB, up, Top(R), Nodes(R)) && hB.Keys == h.Keys &&
      PathNodes(up) + Nodes(R) == PathNodes(cs) + Nodes(fs) &&
      RootOf(up, R) == (if n == 2 then At(p.addr) else RootOf(cs, fs)) &&
      SameData(h, hB, h.Keys - {g.addr}) && g.addr in hB &&
      hB[g.addr] == hB[g.addr].(key := h[g.addr].key, value := h[g.addr].value, color := Red)
  {
    var n := |cs|;
    var g, p := cs[n - 2], cs[n - 1];
    var up := cs[..n - 2];
    assert cs[..n - 1][..n - 2] == up;
    UpLinked(h, cs, fs);
    UpLinked(h, cs[..n - 1], AttachS(p, fs));
    var S := AttachS(g, AttachS(p, fs));
    LinkedNodes(h, S);
    LinkedPathDisjoint(h, up, Top(S), Nodes(S));
    var hA := Painted(h, g.addr, Red);
    PaintedFrame(h, g.addr, Red);
    LinkedFrame(h, hA, S);
    LinkedPathFrame(h, hA, up, Top(S), Nodes(S));
    LiftedLinks(hA, up, S, g.toLeft);
    SameDataTrans(h, hA, hB, h.Keys - {g.addr});
    if n >= 3 {
      assert up[0] == cs[0];
    }
  }

  /** Painting one node keeps every link and every other node's data. */
  lemma PaintPlaced(h: Heap, h': Heap, cs: seq<Link>, fs: Shape, a: nat, c: Color)
    requires Placed(h, cs, fs) && a in h && h' == Painted(h, a, c)
    ensures Placed(h', cs, fs) && h'.Keys == h.Keys && SameData(h, h', h.Keys - {a}) && h'[a] == h[a].(color := c)
  {
    PaintedFrame(h, a, c);
    LinkedNodes(h, fs);
    LinkedFrame(h, h', fs);
    LinkedPathDisjoint(h, cs, Top(fs), Nodes(fs));
    LinkedPathFrame(h, h', cs, Top(fs), Nodes(fs));
    LinkedPathDisjoint(h', cs, Top(fs), Nodes(fs));
  }

  /**
   * The three nodes a rotation at the bottom of path `cs` moves (grandparent,
   * parent and the node on top of `fs`) are distinct and allocated, and none
   * of them lies in the subtrees the rotation rehangs or on the path above.
   */
  lemma WindowParts(h: Heap, cs: seq<Link>, fs: Shape)
    requires |cs| >= 2 && fs.Br? && Placed(h, cs, fs)
    ensures var g, p, x := cs[|cs| - 2].addr, cs[|cs| - 1].addr, fs.addr;
      var K := h.Keys - {g, p, x};
      g in h && p in h && x in h && g != p && g != x && p != x && OnHeap(h, cs) &&
      Nodes(fs.left) <= K && Nodes(fs.right) <= K && Nodes(cs[|cs| - 1].other) <= K &&
      Nodes(cs[|cs| - 2].other) <= K && PathNodes(cs[..|cs| - 2]) <= K
  {
    var n := |cs|;
    var g, p := cs[n - 2], cs[n - 1];
    var up := cs[..n - 2];
    LinkedPathDisjoint(h, cs, Top(fs), Nodes(fs));
    UpLinked(h, cs, fs);
    UpLinked(h, cs[..n - 1], AttachS(p, fs));
    assert cs[..n - 1][..n - 2] == up;
    var S := AttachS(g, AttachS(p, fs));
    LinkedNodes(h, S);
    LinkedPathDisjoint(h, up, Top(S), Nodes(S));
  }

  lemma SingleVal(h: Heap, h': Heap, cs: seq<Link>, fs: Shape)
    requires |cs| >= 2 && fs.Br? && Placed(h, cs, fs) && Placed(h', SinglePath(cs), fs) && h'.Keys == h.Keys
    requires var g, p := cs[|cs| - 2].addr, cs[|cs| - 1].addr;
      SameData(h, h', h.Keys - {g, p}) && g in h' && p in h' && g in h && p in h &&
      h'[g] == h'[g].(key := h[g].key, value := h[g].value, color := Red) &&
      h'[p] == h'[p].(key := h[p].key, value := h[p].value, color := Black)
    ensures var n := |cs|;
      var g, p := ValPath(h, cs)[n - 2], ValPath(h, cs)[n - 1];
      ValZip(h', SinglePath(cs), fs) ==
        Zip(ValPath(h, cs)[..n - 2] + [Frame(Black, p.key, p.value, p.toLeft, Attach(g.(color := Red), p.other))], Val(h, fs))
  {
    var n := |cs|;
    var g, p := cs[n - 2], cs[n - 1];
    var up := cs[..n - 2];
    WindowParts(h, cs, fs);
    ValFrame(h, h', fs);
    ValFrame(h, h', p.other);
    ValFrame(h, h', g.other);
    ValPathFrame(h, h', up);
    ValPathPrefix(h, cs, n - 2);
    ValPathIndex(h, cs, n - 2);
    ValPathIndex(h, cs, n - 1);
    var cs' := SinglePath(cs);
    var l := cs'[n - 2];
    assert cs'[..n - 2] == up;
    assert ValPath(h', cs') == ValPath(h', up) + [ValLink(h', l)];
    AttachSVal(h', g, p.other);
    assert ValLink(h', g) == ValLink(h, g).(color := Red);
  }

  // ----- double rotation (lines 347, 352-362) --------------------------------------------------

  /** The subtree after the double rotation: the node on top, the grandparent and the parent below it. */
  function DoubleShape(cs: seq<Link>, fs: Shape): Shape
    requires |cs| >= 2 && fs.Br?
  {
    var n := |cs|;
    var g, p := cs[n - 2], cs[n - 1];
    RotS(AttachS(g, RotS(AttachS(p, fs), p.toLeft)), g.toLeft)
  }

  /** Memory after line 347, the two rotations of lines 353-354 and 359-360, and line 362. */
  function DoubleHeap(h: Heap, cs: seq<Link>, fs: Shape): Heap
    requires |cs| >= 2 && fs.Br? && cs[|cs| - 2].addr in h && cs[|cs| - 1].addr in h && fs.addr in h
    requires |cs| >= 3 ==> cs[|cs| - 3].addr in h
  {
    var n := |cs|;
    var g, p := cs[n - 2], cs[n - 1];
    var hA := Painted(h, g.addr, Red);
    var hB := Lifted(hA, cs[..n - 1], AttachS(p, fs), p.toLeft);
    var hC := Lifted(hB, cs[..n - 2], AttachS(g, RotS(AttachS(p, fs), p.toLeft)), g.toLeft);
    Painted(hC, fs.addr, Black)
  }

  /**
   * The first half of the double rotation (line 347 and lines 353-354): the
   * grandparent is painted red and the node rises above the parent; the
   * grandparent now has the node's subtree on the side the parent was.
   */
  lemma DoubleFirst(h: Heap, cs: seq<Link>, fs: Shape)
    requires |cs| >= 2 && fs.Br? && Placed(h, cs, fs) && cs[|cs| - 2].toLeft != cs[|cs| - 1].toLeft
    requires KeySide(h, fs.addr, cs[|cs| - 2].addr, cs[|cs| - 2].toLeft)
    ensures cs[|cs| - 2].addr in h && cs[|cs| - 1].addr in h && fs.addr in h
    ensures var n := |cs|;
      var g, p := cs[n - 2], cs[n - 1];
      var hB := Lifted(Painted(h, g.addr, Red), cs[..n - 1], AttachS(p, fs), p.toLeft);
      var s1 := RotS(AttachS(p, fs), p.toLeft);
      Placed(hB, cs[..n - 2], AttachS(g, s1)) && hB.Keys == h.Keys && Top(s1) == At(fs.addr) &&
      PathNodes(cs[..n - 2]) + Nodes(AttachS(g, s1)) == PathNodes(cs) + Nodes(fs) &&
      SameData(h, hB, h.Keys - {g.addr}) && g.addr in hB &&
      hB[g.addr] == hB[g.addr].(key := h[g.addr].key, value := h[g.addr].value, color := Red)
  {
    var n := |cs|;
    var g, p := cs[n - 2], cs[n - 1];
    var up := cs[..n - 2];
    assert cs[..n - 1][..n - 2] == up;
    UpLinked(h, cs, fs);
    UpLinked(h, cs[..n - 1], AttachS(p, fs));
    var S := AttachS(g, AttachS(p, fs));
    LinkedNodes(h, S);
    LinkedPathDisjoint(h, up, Top(S), Nodes(S));
    var hA := Painted(h, g.addr, Red);
    PaintedFrame(h, g.addr, Red);
    LinkedFrame(h, hA, AttachS(p, fs));
    LinkedPathFrame(h, hA, cs[..n - 1], Top(AttachS(p, fs)), Nodes(AttachS(p, fs)));
    LiftedLinks(hA, cs[..n - 1], AttachS(p, fs), p.toLeft);
    var hB := Lifted(hA, cs[..n - 1], AttachS(p, fs), p.toLeft);
    var s1 := RotS(AttachS(p, fs), p.toLeft);
    UpLinked(hB, cs[..n - 1], s1);
    SameDataTrans(h, hA, hB, h.Keys - {g.addr});
  }

  lemma DoubleLinks(h: Heap, cs: seq<Link>, fs: Shape)
    requires |cs| >= 2 && fs.Br? && Placed(h, cs, fs) && cs[|cs| - 2].toLeft != cs[|cs| - 1].toLeft
    requires KeySide(h, fs.addr, cs[|cs| - 2].addr, cs[|cs| - 2].toLeft)
    requires |cs| >= 3 ==> KeySide(h, fs.addr, cs[|cs| - 3].addr, cs[|cs| - 3].toLeft)
    ensures cs[|cs| - 2].addr in h && cs[|cs| - 1].addr in h && fs.addr in h && (|cs| >= 3 ==> cs[|cs| - 3].addr in h)
    ensures var n, h', fs' := |cs|, DoubleHeap(h, cs, fs), DoubleShape(cs, fs);
      var g, x := cs[n - 2].addr, fs.addr;
      Placed(h', cs[..n - 2], fs') && h'.Keys == h.Keys && Top(fs') == At(x) &&
      PathNodes(cs[..n - 2]) + Nodes(fs') == PathNodes(cs) + Nodes(fs) &&
      RootOf(cs[..n - 2], fs') == (if n == 2 then At(x) else RootOf(cs, fs)) &&
      SameData(h, h', h.Keys - {g, x}) &&
      h'[g] == h'[g].(key := h[g].key, value := h[g].value, color := Red) &&
      h'[x] == h'[x].(key := h[x].key, value := h[x].value, color := Black)
  {
    var n := |cs|;
    var g, p := cs[n - 2], cs[n - 1];
    var up := cs[..n - 2];
    DoubleFirst(h, cs, fs);
    var hB := Lifted(Painted(h, g.addr, Red), cs[..n - 1], AttachS(p, fs), p.toLeft);
    var s1 := RotS(AttachS(p, fs), p.toLeft);
    LiftedLinks(hB, up, AttachS(g, s1), g.toLeft);
    var hC := Lifted(hB, up, AttachS(g, s1), g.toLeft);
    var fs' := DoubleShape(cs, fs);
    var h' := Painted(hC, fs.addr, Black);
    PaintedFrame(hC, fs.addr, Black);
    LinkedFrame(hC, h', fs');
    LinkedPathFrame(hC, h', up, Top(fs'), Nodes(fs'));
    LinkedPathDisjoint(h', up, Top(fs'), Nodes(fs'));
    SameDataTrans(h, hB, hC, h.Keys - {g.addr, fs.addr});
    SameDataTrans(h, hC, h', h.Keys - {g.addr, fs.addr});
    if n >= 3 {
      assert up[0] == cs[0];
    }
  }

  lemma DoubleShapeNodes(cs: seq<Link>, fs: Shape)
    requires |cs| >= 2 && fs.Br? && cs[|cs| - 2].toLeft != cs[|cs| - 1].toLeft
    ensures var g, p := cs[|cs| - 2], cs[|cs| - 1];
      DoubleShape(cs, fs) ==
        if p.toLeft then Br(fs.addr, Br(g.addr, g.other, fs.left), Br(p.addr, fs.right, p.other))
        else Br(fs.addr, Br(p.addr, p.other, fs.left), Br(g.addr, fs.right, g.other))
  {
  }

  /** The double rotation's subtree denotes `DoubleRotation` of the grandparent, the parent and the node. */
  lemma DoubleFocusVal(h: Heap, h': Heap, cs: seq<Link>, fs: Shape)
    requires |cs| >= 2 && fs.Br? && Placed(h, cs, fs) && h'.Keys == h.Keys
    requires cs[|cs| - 2].toLeft != cs[|cs| - 1].toLeft
    requires var g, x := cs[|cs| - 2].addr, fs.addr;
      SameData(h, h', h.Keys - {g, x}) && g in h' && x in h' && g in h && x in h &&
      h'[g] == h'[g].(key := h[g].key, value := h[g].value, color := Red) &&
      h'[x] == h'[x].(key := h[x].key, value := h[x].value, color := Black)
    ensures var n := |cs|;
      Val(h, fs).Node? && cs[n - 2].addr in h && cs[n - 1].addr in h &&
      Val(h', DoubleShape(cs, fs)) == DoubleRotation(ValLink(h, cs[n - 2]), ValLink(h, cs[n - 1]), Val(h, fs))
  {
    var n := |cs|;
    var g, p := cs[n - 2], cs[n - 1];
    WindowParts(h, cs, fs);
    ValFrame(h, h', fs.left);
    ValFrame(h, h', fs.right);
    ValFrame(h, h', p.other);
    ValFrame(h, h', g.other);
    DoubleShapeNodes(cs, fs);
    assert h'[p.addr].key == h[p.addr].key && h'[p.addr].value == h[p.addr].value && h'[p.addr].color == h[p.addr].color;
  }

  lemma DoubleVal(h: Heap, h': Heap, cs: seq<Link>, fs: Shape)
    requires |cs| >= 2 && fs.Br? && Placed(h, cs, fs) && Placed(h', cs[..|cs| - 2], DoubleShape(cs, fs)) && h'.Keys == h.Keys
    requires cs[|cs| - 2].toLeft != cs[|cs| - 1].toLeft
    requires var g, x := cs[|cs| - 2].addr, fs.addr;
      SameData(h, h', h.Keys - {g, x}) && g in h' && x in h' && g in h && x in h &&
      h'[g] == h'[g].(key := h[g].key, value := h[g].value, color := Red) &&
      h'[x] == h'[x].(key := h[x].key, value := h[x].value, color := Black)
    ensures var n := |cs|;
      Val(h, fs).Node? &&
      ValZip(h', cs[..n - 2], DoubleShape(cs, fs)) == Zip(ValPath(h, cs)[..n - 2], DoubleRotation(ValPath(h, cs)[n - 2], ValPath(h, cs)[n - 1], Val(h, fs)))
  {
    var n := |cs|;
    var g, p := cs[n - 2], cs[n - 1];
    var up := cs[..n - 2];
    WindowParts(h, cs, fs);
    ValPathFrame(h, h', up);
    ValPathPrefix(h, cs, n - 2);
    ValPathIndex(h, cs, n - 2);
    ValPathIndex(h, cs, n - 1);
    DoubleFocusVal(h, h', cs, fs);
  }

  /** Line 344: the node painted red; its value view turns red and the path is unchanged. */
  lemma PaintFocus(h: Heap, cs: seq<Link>, fs: Shape, c: Color)
    requires fs.Br? && Placed(h, cs, fs)
    ensures var h' := Painted(h, fs.addr, c);
      Val(h, fs).Node? && Placed(h', cs, fs) && h'.Keys == h.Keys && SameData(h, h', h.Keys - {fs.addr}) &&
      ValZip(h', cs, fs) == Zip(ValPath(h, cs), Val(h, fs).(color := c))
  {
    var h' := Painted(h, fs.addr, c);
    LinkedPathDisjoint(h, cs, Top(fs), Nodes(fs));
    PaintedFrame(h, fs.addr, c);
    LinkedFrame(h, h', fs);
    LinkedPathFrame(h, h', cs, Top(fs), Nodes(fs));
    ValPathFrame(h, h', cs);
    PaintedTop(h, fs, c);
  }

  /** `parent_node`, `grand_parent_node` and `grand_grand_parent_node`: the first `k` of them are the real ancestors. */
  predicate Synced(cs: seq<Link>, k: nat, p: Ptr, gp: Ptr, ggp: Ptr)
  {
    (k >= 1 ==> p == Anc(cs, 1)) && (k >= 2 ==> gp == Anc(cs, 2)) && (k >= 3 ==> ggp == Anc(cs, 3))
  }

  /** The pointer of an ancestor on the path side. */
  function SidePtr(r: NodeRec, toLeft: bool): Ptr
  {
    if toLeft then r.left else r.right
  }

  /** The last three ancestors and the node are distinct allocated nodes, each pointing at the next. */
  lemma PathPointers(h: Heap, cs: seq<Link>, fs: Shape)
    requires Placed(h, cs, fs) && fs.Br?
    ensures var n := |cs|;
      fs.addr in h &&
      (n >= 1 ==> cs[n - 1].addr in h && SidePtr(h[cs[n - 1].addr], cs[n - 1].toLeft) == At(fs.addr) && cs[n - 1].addr != fs.addr) &&
      (n >= 2 ==> cs[n - 2].addr in h && SidePtr(h[cs[n - 2].addr], cs[n - 2].toLeft) == At(cs[n - 1].addr) &&
                  cs[n - 2].addr !in {cs[n - 1].addr, fs.addr}) &&
      (n >= 3 ==> cs[n - 3].addr in h && cs[n - 3].addr !in {cs[n - 2].addr, cs[n - 1].addr, fs.addr})
  {
    var n := |cs|;
    LinkedNodes(h, fs);
    if n >= 1 {
      UpLinked(h, cs, fs);
      var s1 := AttachS(cs[n - 1], fs);
      if n >= 2 {
        UpLinked(h, cs[..n - 1], s1);
        assert cs[..n - 1][n - 2] == cs[n - 2];
        assert cs[..n - 1][..n - 2] == cs[..n - 2];
        var s2 := AttachS(cs[n - 2], s1);
        if n >= 3 {
          UpLinked(h, cs[..n - 2], s2);
          assert cs[..n - 2][n - 3] == cs[n - 3];
        }
      }
    }
  }

  /**
   * Lines 347 and 359-362 step by step (single rotation): the grandparent turns
   * red, the parent rises into its place and turns black. The nodes then denote
   * `TopDownInsert.Rebalance`, and the parent is the node's parent.
   */
  /** Lines 359-361 as written are the rotation-and-reconnection `Lifted` of the grandparent's subtree. */
  lemma SingleHeapIs(hA: Heap, hB: Heap, hC: Heap, cs: seq<Link>, fs: Shape)
    requires |cs| >= 2
    requires var n := |cs|;
      var g, p := cs[n - 2], cs[n - 1];
      g.addr in hA && p.addr in hA && hB == Rotated(hA, g.addr, p.addr, g.toLeft) &&
      (n >= 3 ==> cs[n - 3].addr in hB && p.addr in hB) &&
      hC == (if n >= 3 then Reconnected(hB, cs[n - 3].addr, p.addr) else hB)
    ensures var n := |cs|;
      var g, p := cs[n - 2], cs[n - 1];
      var S := AttachS(g, AttachS(p, fs));
      ChildS(S, g.toLeft) == AttachS(p, fs) && hC == Lifted(hA, cs[..n - 2], S, g.toLeft)
  {
    var n := |cs|;
    var g, p := cs[n - 2], cs[n - 1];
    var S := AttachS(g, AttachS(p, fs));
    assert ChildS(S, g.toLeft) == AttachS(p, fs);
    if n >= 3 {
      assert cs[..n - 2][n - 3] == cs[n - 3];
    }
  }

  lemma SingleStepsLinks(h: Heap, hA: Heap, hB: Heap, hC: Heap, hD: Heap, cs: seq<Link>, fs: Shape)
    requires |cs| >= 2 && fs.Br? && Placed(h, cs, fs) && HeapKeysAgree(h, cs, fs)
    requires cs[|cs| - 2].toLeft == cs[|cs| - 1].toLeft && cs[|cs| - 1].addr in h && h[cs[|cs| - 1].addr].color == Red
    requires var n := |cs|;
      var g, p := cs[n - 2], cs[n - 1];
      g.addr in h && p.addr in h && hA == Painted(h, g.addr, Red) && g.addr in hA && p.addr in hA && hB == Rotated(hA, g.addr, p.addr, g.toLeft) &&
      (n >= 3 ==> cs[n - 3].addr in hB && p.addr in hB) &&
      hC == (if n >= 3 then Reconnected(hB, cs[n - 3].addr, p.addr) else hB) && hD == Painted(hC, p.addr, Black)
    ensures var n := |cs|;
      var g, p := cs[n - 2].addr, cs[n - 1].addr;
      Placed(hD, SinglePath(cs), fs) && hD.Keys == h.Keys &&
      PathNodes(SinglePath(cs)) + Nodes(fs) == PathNodes(cs) + Nodes(fs) &&
      RootOf(SinglePath(cs), fs) == (if n == 2 then At(p) else RootOf(cs, fs)) &&
      SameData(h, hD, h.Keys - {g, p}) && g in hD && p in hD && g in h && p in h &&
      hD[g] == hD[g].(key := h[g].key, value := h[g].value, color := Red) &&
      hD[p] == hD[p].(key := h[p].key, value := h[p].value, color := Black)
  {
    var n := |cs|;
    var g, p := cs[n - 2], cs[n - 1];
    SingleHeapIs(hA, hB, hC, cs, fs);
    SingleLifted(h, hC, cs, fs);
    PaintPlaced(hC, hD, SinglePath(cs), fs, p.addr, Black);
    SameDataTrans(h, hC, hD, h.Keys - {g.addr, p.addr});
  }

  lemma SingleSteps(h: Heap, hA: Heap, hB: Heap, hC: Heap, hD: Heap, cs: seq<Link>, fs: Shape)
    requires |cs| >= 2 && fs.Br? && Placed(h, cs, fs) && HeapKeysAgree(h, cs, fs)
    requires cs[|cs| - 2].toLeft == cs[|cs| - 1].toLeft && cs[|cs| - 1].addr in h && h[cs[|cs| - 1].addr].color == Red
    requires var n := |cs|;
      var g, p := cs[n - 2], cs[n - 1];
      g.addr in h && p.addr in h && hA == Painted(h, g.addr, Red) && g.addr in hA && p.addr in hA && hB == Rotated(hA, g.addr, p.addr, g.toLeft) &&
      (n >= 3 ==> cs[n - 3].addr in hB && p.addr in hB) &&
      hC == (if n >= 3 then Reconnected(hB, cs[n - 3].addr, p.addr) else hB) && hD == Painted(hC, p.addr, Black)
    ensures Placed(hD, SinglePath(cs), fs) && hD.Keys == h.Keys
    ensures PathNodes(SinglePath(cs)) + Nodes(fs) == PathNodes(cs) + Nodes(fs)
    ensures RootOf(SinglePath(cs), fs) == (if |cs| == 2 then At(cs[|cs| - 1].addr) else RootOf(cs, fs))
    ensures Anc(SinglePath(cs), 1) == At(cs[|cs| - 1].addr)
    ensures Val(h, fs).Node? && TopDownInsert.RedParentHasGrandparent(ValPath(h, cs))
    ensures ValZip(hD, SinglePath(cs), fs) == TopDownInsert.Rebalance(ValPath(h, cs), Val(h, fs))
  {
    var n := |cs|;
    var g, p := cs[n - 2], cs[n - 1];
    SingleStepsLinks(h, hA, hB, hC, hD, cs, fs);
    SingleVal(h, hD, cs, fs);
    ValPathIndex(h, cs, n - 1);
    ValPathIndex(h, cs, n - 2);
    var ctx, x := ValPath(h, cs), Val(h, fs);
    assert x.key == h[fs.addr].key && ctx[n - 1].key == h[p.addr].key && ctx[n - 2].key == h[g.addr].key;
  }


  lemma DoubleHeapIs(h: Heap, hA: Heap, hB: Heap, hC: Heap, hD: Heap, hE: Heap, hF: Heap, cs: seq<Link>, fs: Shape)
    requires |cs| >= 2 && fs.Br? && Placed(h, cs, fs) && HeapKeysAgree(h, cs, fs)
    requires cs[|cs| - 2].toLeft != cs[|cs| - 1].toLeft && cs[|cs| - 1].addr in h && h[cs[|cs| - 1].addr].color == Red
    requires var n, x := |cs|, fs.addr;
      var g, p := cs[n - 2], cs[n - 1];
      g.addr in h && p.addr in h && x in h &&
      hA == Painted(h, g.addr, Red) && p.addr in hA && x in hA && hB == Rotated(hA, p.addr, x, p.toLeft) &&
      g.addr in hB && x in hB && hC == Reconnected(hB, g.addr, x) &&
      g.addr in hC && x in hC && hD == Rotated(hC, g.addr, x, g.toLeft) &&
      (n >= 3 ==> cs[n - 3].addr in hD && x in hD) &&
      hE == (if n >= 3 then Reconnected(hD, cs[n - 3].addr, x) else hD) && hF == Painted(hE, x, Black)
    ensures hF == DoubleHeap(h, cs, fs)
  {
    var n := |cs|;
    var g, p := cs[n - 2], cs[n - 1];
    var s1 := RotS(AttachS(p, fs), p.toLeft);
    assert ChildS(AttachS(p, fs), p.toLeft) == fs;
    assert cs[..n - 1][n - 2] == g;
    assert Lifted(hA, cs[..n - 1], AttachS(p, fs), p.toLeft) == hC;
    assert ChildS(AttachS(g, s1), g.toLeft) == s1 && s1.addr == fs.addr;
    if n >= 3 {
      assert cs[..n - 2][n - 3] == cs[n - 3];
    }
    assert Lifted(hC, cs[..n - 2], AttachS(g, s1), g.toLeft) == hE;
  }

  /**
   * Lines 347 and 352-362 step by step (double rotation): the grandparent turns
   * red, the node rises above the parent and then above the grandparent, and
   * turns black. The nodes then denote `TopDownInsert.Rebalance`.
   */
  lemma DoubleSteps(h: Heap, hA: Heap, hB: Heap, hC: Heap, hD: Heap, hE: Heap, hF: Heap, cs: seq<Link>, fs: Shape)
    requires |cs| >= 2 && fs.Br? && Placed(h, cs, fs) && HeapKeysAgree(h, cs, fs)
    requires cs[|cs| - 2].toLeft != cs[|cs| - 1].toLeft && cs[|cs| - 1].addr in h && h[cs[|cs| - 1].addr].color == Red
    requires var n, x := |cs|, fs.addr;
      var g, p := cs[n - 2], cs[n - 1];
      g.addr in h && p.addr in h && x in h &&
      hA == Painted(h, g.addr, Red) && p.addr in hA && x in hA && hB == Rotated(hA, p.addr, x, p.toLeft) &&
      g.addr in hB && x in hB && hC == Reconnected(hB, g.addr, x) &&
      g.addr in hC && x in hC && hD == Rotated(hC, g.addr, x, g.toLeft) &&
      (n >= 3 ==> cs[n - 3].addr in hD && x in hD) &&
      hE == (if n >= 3 then Reconnected(hD, cs[n - 3].addr, x) else hD) && hF == Painted(hE, x, Black)
    ensures Placed(hF, cs[..|cs| - 2], DoubleShape(cs, fs)) && hF.Keys == h.Keys && Top(DoubleShape(cs, fs)) == At(fs.addr)
    ensures PathNodes(cs[..|cs| - 2]) + Nodes(DoubleShape(cs, fs)) == PathNodes(cs) + Nodes(fs)
    ensures RootOf(cs[..|cs| - 2], DoubleShape(cs, fs)) == (if |cs| == 2 then At(fs.addr) else RootOf(cs, fs))
    ensures Val(h, fs).Node? && TopDownInsert.RedParentHasGrandparent(ValPath(h, cs))
    ensures ValZip(hF, cs[..|cs| - 2], DoubleShape(cs, fs)) == TopDownInsert.Rebalance(ValPath(h, cs), Val(h, fs))
  {
    var n := |cs|;
    DoubleHeapIs(h, hA, hB, hC, hD, hE, hF, cs, fs);
    DoubleLinks(h, cs, fs);
    DoubleVal(h, hF, cs, fs);
    ValPathIndex(h, cs, n - 1);
    ValPathIndex(h, cs, n - 2);
  }

  /**
   * Lines 334-344 step by step: the children present turn black; at the root
   * that is all of `Reorient`, below it the node turns red and what remains is
   * `Rebalance` of the path and the red node.
   */
  lemma FlipSteps(h: Heap, hR: Heap, cs: seq<Link>, fs: Shape)
    requires fs.Br? && Placed(h, cs, fs) && fs.addr in h
    requires KeysAgree(ValPath(h, cs), Val(h, fs)) && TopDownInsert.RedParentHasGrandparent(ValPath(h, cs))
    requires hR == ChildrenBlackened(h, fs)
    ensures Placed(hR, cs, fs) && hR.Keys == h.Keys && Val(h, fs).Node?
    ensures cs == [] ==> ValZip(hR, cs, fs) == TopDownInsert.Reorient(ValZip(h, cs, fs))
    ensures cs != [] ==>
      var h2 := Painted(hR, fs.addr, Red);
      Placed(h2, cs, fs) && h2.Keys == h.Keys && HeapKeysAgree(h2, cs, fs) &&
      ValPath(h2, cs) == ValPath(h, cs) && Val(h2, fs).Node? && Val(h2, fs).key == Val(h, fs).key &&
      TopDownInsert.RedParentHasGrandparent(ValPath(h2, cs)) &&
      TopDownInsert.Rebalance(ValPath(h2, cs), Val(h2, fs)) == TopDownInsert.Reorient(ValZip(h, cs, fs))
  {
    ChildrenBlackenedVal(h, cs, fs);
    if cs != [] {
      PaintFocus(hR, cs, fs, Red);
      var h2 := Painted(hR, fs.addr, Red);
      HeapKeys(h2, cs, fs);
    }
  }

  // ----- Insert's loop (lines 44-74) ----------------------------------------------------------

  /** The test of line 54, read from memory, is `HasTwoRedChildren` of the current subtree. */
  lemma FourNode(h: Heap, fs: Shape)
    requires Linked(h, fs) && fs.Br?
    ensures fs.addr in h && Val(h, fs).Node?
    ensures var r := h[fs.addr];
      TopDownInsert.HasTwoRedChildren(Val(h, fs)) <==>
        r.left != Null && r.right != Null && r.left.addr in h && r.right.addr in h &&
        h[r.left.addr].color == Red && h[r.right.addr].color == Red
  {
  }

  /** Line 61 and the shift of lines 58-60: one step down the search path of `key`, as `TopDownInsert.Descend`. */
  lemma DescendHeap(h: Heap, cs: seq<Link>, fs: Shape, key: int)
    requires Placed(h, cs, fs) && fs.Br?
    ensures fs.addr in h && Val(h, fs).Node?
    ensures var d := key < h[fs.addr].key;
      var (cs', fs') := DownS(cs, fs, d);
      Placed(h, cs', fs') && ValZip(h, cs', fs') == TopDownInsert.Descend(ValZip(h, cs, fs), key) &&
      PathNodes(cs') + Nodes(fs') == PathNodes(cs) + Nodes(fs) && RootOf(cs', fs') == RootOf(cs, fs) &&
      Top(fs') == SidePtr(h[fs.addr], d) &&
      Anc(cs', 1) == Top(fs) && Anc(cs', 2) == Anc(cs, 1) && Anc(cs', 3) == Anc(cs, 2)
  {
    var d := key < h[fs.addr].key;
    DownLinked(h, cs, fs, d);
    DownVal(h, cs, fs, d);
  }

  /** The path of a search that fell off the tree agrees with the key comparisons a new leaf makes. */
  lemma LeafKeys(ctx: seq<Frame>, key: int, value: int)
    requires Ordered(Plug(ctx, Empty)) && OnPath(ctx, key) && ctx != []
    ensures KeysAgree(ctx, Node(Red, Empty, key, value, Empty))
  {
    var n := |ctx|;
    if n >= 2 {
      var x := Attach(ctx[n - 1], Empty);
      PlugSnoc(ctx[..n - 1], ctx[n - 1], Empty);
      assert ctx[..n - 1] + [ctx[n - 1]] == ctx;
      WindowKeys(ctx[..n - 1], x);
    }
  }

  /** Lines 65-71 on the links: a new red leaf at a fresh address hung below the last node of the path, on the side its key sorts to, leaves every pair where it was. */
  lemma {:induction false} AttachLeafLinks(h: Heap, h2: Heap, cs: seq<Link>, a: nat, key: int, value: int)
    requires cs != [] && Placed(h, cs, Nil) && a !in h && OnPath(ValPath(h, cs), key)
    requires var p := cs[|cs| - 1].addr; var h1 := h[a := NodeRec(key, value, Null, Null, Red)];
      p in h1 && h2 == h1[p := if key < h1[p].key then h1[p].(left := At(a)) else h1[p].(right := At(a))]
    ensures var leaf := Br(a, Nil, Nil);
      Placed(h2, cs, leaf) && h2.Keys == h.Keys + {a} && PathNodes(cs) <= h.Keys && SameData(h, h2, h.Keys) &&
      a in h2 && h2[a] == NodeRec(key, value, Null, Null, Red)
  {
    var n := |cs|;
    var f := cs[n - 1];
    LinkedPathDisjoint(h, cs, Null, {});
    LeafSide(h, cs, key);
    assert SameLinks(h, h2, h.Keys - {f.addr});
    assert {f.addr} + Nodes(f.other) + Nodes(Nil) == {f.addr} + Nodes(f.other);
    HangLink(h, h2, f, a, key, value);
    HangPath(h, h2, cs[..n - 1], f, a);
  }

  /** The search that fell off below the path `cs` took the side of `key` at the last node. */
  lemma LeafSide(h: Heap, cs: seq<Link>, key: int)
    requires cs != [] && Placed(h, cs, Nil) && OnPath(ValPath(h, cs), key)
    ensures cs[|cs| - 1].addr in h && (cs[|cs| - 1].toLeft <==> key < h[cs[|cs| - 1].addr].key)
  {
    ValPathIndex(h, cs, |cs| - 1);
  }

  /** The path above the parent of the new leaf stays linked once the fresh node `a` joins the nodes below it. */
  lemma HangPath(h: Heap, h2: Heap, p: seq<Link>, f: Link, a: nat)
    requires LinkedPath(h, p, At(f.addr), {f.addr} + Nodes(f.other)) && a !in h && SameLinks(h, h2, h.Keys - {f.addr})
    ensures LinkedPath(h2, p, At(f.addr), {f.addr} + Nodes(f.other) + {a})
  {
    LinkedPathDisjoint(h, p, At(f.addr), {f.addr} + Nodes(f.other));
    LinkedPathMore(h, p, At(f.addr), {f.addr} + Nodes(f.other), {a});
    LinkedPathFrame(h, h2, p, At(f.addr), {f.addr} + Nodes(f.other) + {a});
  }

  /** Line 71 on the parent's link: the null child on the side of `key` now points to the fresh leaf `a`, and the other side is as it was. */
  lemma HangLink(h: Heap, h2: Heap, f: Link, a: nat, key: int, value: int)
    requires LinkedLink(h, f, Null, {}) && a !in h && (f.toLeft <==> key < h[f.addr].key)
    requires var h1 := h[a := NodeRec(key, value, Null, Null, Red)];
      h2 == h1[f.addr := if key < h1[f.addr].key then h1[f.addr].(left := At(a)) else h1[f.addr].(right := At(a))]
    ensures LinkedLink(h2, f, At(a), {a})
  {
    LinkedNodes(h, f.other);
    LinkedFrame(h, h2, f.other);
  }

  /** Lines 65-71: a new red leaf at a fresh address hung below the last node of the path, on the side its key sorts to. */
  lemma {:induction false} AttachLeafHeap(h: Heap, h1: Heap, h2: Heap, cs: seq<Link>, a: nat, key: int, value: int)
    requires cs != [] && Placed(h, cs, Nil) && a !in h && OnPath(ValPath(h, cs), key)
    requires h1 == h[a := NodeRec(key, value, Null, Null, Red)] && cs[|cs| - 1].addr in h1
    requires var p := cs[|cs| - 1].addr;
      h2 == h1[p := if key < h1[p].key then h1[p].(left := At(a)) else h1[p].(right := At(a))]
    ensures var leaf := Br(a, Nil, Nil);
      Placed(h2, cs, leaf) && h2.Keys == h.Keys + {a} && PathNodes(cs) + Nodes(leaf) == PathNodes(cs) + {a} &&
      RootOf(cs, leaf) == RootOf(cs, Nil) &&
      ValZip(h2, cs, leaf) == Zip(ValPath(h, cs), Node(Red, Empty, key, value, Empty))
  {
    var leaf := Br(a, Nil, Nil);
    AttachLeafLinks(h, h2, cs, a, key, value);
    ValPathFrame(h, h2, cs);
    assert Val(h2, leaf) == Node(Red, Empty, key, value, Empty);
  }

  // ----- the search loop of Insert (lines 44-62) ----------------------------------------------

  /** The value side of the search loop's invariant: the descent invariant, the stale-pointer discipline, and the outcome still `goal`. */
  predicate ZipInv(z: Zip, key: int, value: int, sync: nat, goal: (Tree, bool))
  {
    TopDownInsert.DescentInv(z, key) && TopDownInsert.StaleSafe(z, key, sync) && TopDownInsert.InsertLoop(z, key, value) == goal
  }

  /**
   * The invariant of Insert's search loop over memory `h` and the root pointer:
   * the path and the current subtree make up the whole tree and denote the
   * descent state `z`, the first `sync` ancestor pointers are the real
   * ancestors, and `z` satisfies `ZipInv`.
   */
  predicate SearchInv(h: Heap, root: Ptr, cs: seq<Link>, fs: Shape, node: Ptr, p: Ptr, gp: Ptr, ggp: Ptr,
                      sync: nat, z: Zip, key: int, value: int, goal: (Tree, bool))
  {
    Placed(h, cs, fs) && h.Keys == PathNodes(cs) + Nodes(fs) && node == Top(fs) && root == RootOf(cs, fs) && root.At? &&
    ValZip(h, cs, fs) == z && Synced(cs, sync, p, gp, ggp) && ZipInv(z, key, value, sync, goal)
  }

  /** Lines 44-47: the search starts at the root of a non-empty red-black tree with no ancestors. */
  lemma SearchStart(h: Heap, root: Ptr, shape: Shape, key: int, value: int)
    requires Linked(h, shape) && h.Keys == Nodes(shape) && root == Top(shape) && root.At?
    requires Ordered(Val(h, shape)) && IsRedBlack(Val(h, shape))
    ensures SearchInv(h, root, [], shape, root, Null, Null, Null, 3, Zip([], Val(h, shape)), key, value,
                      TopDownInsert.Insert(Val(h, shape), key, value))
  {
    assert ValZip(h, [], shape) == Zip([], Val(h, shape));
  }

  /**
   * One turn of the loop on a node whose key is not `key`: the test of line 54
   * only fires with all ancestor pointers fresh, the rotation's key tests agree
   * with the path, and the state after lines 55-61, `TopDownInsert.Step`,
   * keeps `ZipInv` with the count `NextSync` and shortens the search.
   */
  lemma LoopTurn(z: Zip, key: int, value: int, sync: nat, goal: (Tree, bool))
    requires ZipInv(z, key, value, sync, goal) && z.focus.Node? && z.focus.key != key
    ensures TopDownInsert.RedParentHasGrandparent(z.ctx) && KeysAgree(z.ctx, z.focus)
    ensures TopDownInsert.HasTwoRedChildren(z.focus) ==> sync == 3
    ensures var z' := TopDownInsert.Step(z, key);
      ZipInv(z', key, value, TopDownInsert.NextSync(z, sync), goal) &&
      (TopDownInsert.PathLen(z'.focus, key) < TopDownInsert.PathLen(z.focus, key) ||
       (TopDownInsert.PathLen(z'.focus, key) == TopDownInsert.PathLen(z.focus, key) &&
        TopDownInsert.HasTwoRedChildren(z.focus) && !TopDownInsert.HasTwoRedChildren(z'.focus)))
  {
    TopDownInsert.StepSync(z, key, sync);
    TopDownInsert.StepKeepsInv(z, key);
    PlugOrdered(z.ctx, z.focus);
    WindowKeys(z.ctx, z.focus);
  }

  /** Lines 49-55 read on a node of the loop: it is allocated, the test of line 54 is `HasTwoRedChildren`, and a reorientation finds what it needs. */
  lemma TurnStart(h: Heap, root: Ptr, cs: seq<Link>, fs: Shape, node: Ptr, p: Ptr, gp: Ptr, ggp: Ptr,
                  sync: nat, z: Zip, key: int, value: int, goal: (Tree, bool))
    requires SearchInv(h, root, cs, fs, node, p, gp, ggp, sync, z, key, value, goal) && node != Null
    ensures fs.Br? && node == At(fs.addr) && node.addr in h && z.focus == Val(h, fs) && z.focus.Node?
    ensures h[node.addr].key == z.focus.key
    ensures var r := h[node.addr];
      (r.left != Null ==> r.left.addr in h) && (r.right != Null ==> r.right.addr in h) &&
      (TopDownInsert.HasTwoRedChildren(z.focus) <==>
        r.left != Null && r.right != Null && h[r.left.addr].color == Red && h[r.right.addr].color == Red)
    ensures z.focus.key != key ==> TopDownInsert.RedParentHasGrandparent(z.ctx)
    ensures z.focus.key != key && TopDownInsert.HasTwoRedChildren(z.focus) ==>
      Placed(h, cs, fs) && root == RootOf(cs, fs) && Synced(cs, 3, p, gp, ggp) &&
      KeysAgree(ValPath(h, cs), Val(h, fs)) && TopDownInsert.RedParentHasGrandparent(ValPath(h, cs))
  {
    FourNode(h, fs);
    var r := h[node.addr];
    if r.left != Null {
      LinkedNodes(h, fs.left);
    }
    if r.right != Null {
      LinkedNodes(h, fs.right);
    }
    if z.focus.key != key {
      LoopTurn(z, key, value, sync, goal);
    }
  }

  /**
   * The state after lines 54-56 of a turn: `node` tops the current subtree
   * `fs1` under path `cs1`, which denote the value state `z`, reoriented when
   * `z`'s node has two red children; the root and every node are accounted
   * for, and `p` and `gp` are the ancestors the next turn's state needs.
   */
  predicate Turned(h1: Heap, root1: Ptr, cs1: seq<Link>, fs1: Shape, node: Ptr, p: Ptr, gp: Ptr, sync: nat, z: Zip)
  {
    Placed(h1, cs1, fs1) && fs1.Br? && node == At(fs1.addr) && fs1.addr in h1 &&
    h1.Keys == PathNodes(cs1) + Nodes(fs1) && root1 == RootOf(cs1, fs1) && root1.At? &&
    z.focus.Node? && TopDownInsert.RedParentHasGrandparent(z.ctx) &&
    ValZip(h1, cs1, fs1) == (if TopDownInsert.HasTwoRedChildren(z.focus) then TopDownInsert.Reorient(z) else z) &&
    var k := TopDownInsert.NextSync(z, sync); (k >= 2 ==> p == Anc(cs1, 1)) && (k >= 3 ==> gp == Anc(cs1, 2))
  }

  /**
   * Lines 54-55: after the node is reoriented (when `four`) or left alone, the
   * path and subtree still make up the whole tree, now denoting the reoriented
   * descent state, and the parent and grandparent pointers are right as far
   * as `NextSync` counts them.
   */
  lemma TurnMid(h0: Heap, root0: Ptr, cs0: seq<Link>, fs0: Shape, h1: Heap, root1: Ptr, cs1: seq<Link>, fs1: Shape,
                node: Ptr, p: Ptr, gp: Ptr, ggp: Ptr, sync: nat, z: Zip, key: int, four: bool)
    requires Placed(h0, cs0, fs0) && h0.Keys == PathNodes(cs0) + Nodes(fs0) && node == Top(fs0) && root0 == RootOf(cs0, fs0) && root0.At?
    requires ValZip(h0, cs0, fs0) == z && Synced(cs0, sync, p, gp, ggp) && TopDownInsert.StaleSafe(z, key, sync)
    requires z.focus.Node? && TopDownInsert.RedParentHasGrandparent(z.ctx)
    requires four <==> TopDownInsert.HasTwoRedChildren(z.focus)
    requires !four ==> h1 == h0 && root1 == root0 && cs1 == cs0 && fs1 == fs0
    requires four ==>
      Placed(h1, cs1, fs1) && Top(fs1) == node && root1 == RootOf(cs1, fs1) && h1.Keys == h0.Keys &&
      PathNodes(cs1) + Nodes(fs1) == PathNodes(cs0) + Nodes(fs0) &&
      ValZip(h1, cs1, fs1) == TopDownInsert.Reorient(ValZip(h0, cs0, fs0)) &&
      var n := |cs0|;
      (n == 0 || z.ctx[n - 1].color != Red ==> cs1 == cs0) &&
      (n >= 1 && z.ctx[n - 1].color == Red && (z.ctx[n - 1].key < z.ctx[n - 2].key) == (z.focus.key < z.ctx[n - 1].key) ==> Anc(cs1, 1) == p)
    ensures Turned(h1, root1, cs1, fs1, node, p, gp, sync, z)
  {
    assert ValPath(h0, cs0) == z.ctx;
    ReorientSynced(cs0, cs1, z, p, gp, ggp, sync, four);
  }

  /** Lines 54-55 on a node without two red children: nothing changes, and the state is already turned. */
  lemma TurnKeep(h: Heap, root: Ptr, cs: seq<Link>, fs: Shape, node: Ptr, p: Ptr, gp: Ptr, ggp: Ptr,
                 sync: nat, z: Zip, key: int, value: int, goal: (Tree, bool))
    requires SearchInv(h, root, cs, fs, node, p, gp, ggp, sync, z, key, value, goal) && node != Null
    requires z.focus.Node? && z.focus.key != key && !TopDownInsert.HasTwoRedChildren(z.focus)
    ensures Turned(h, root, cs, fs, node, p, gp, sync, z)
  {
    TurnStart(h, root, cs, fs, node, p, gp, ggp, sync, z, key, value, goal);
    TurnMid(h, root, cs, fs, h, root, cs, fs, node, p, gp, ggp, sync, z, key, false);
  }

  /** Line 55: a reorientation moves at most the parent pointer's node off the path, so the pointers the shift keeps are still right. */
  lemma ReorientSynced(cs0: seq<Link>, cs1: seq<Link>, z: Zip, p: Ptr, gp: Ptr, ggp: Ptr, sync: nat, four: bool)
    requires z.focus.Node? && TopDownInsert.RedParentHasGrandparent(z.ctx) && |z.ctx| == |cs0|
    requires Synced(cs0, sync, p, gp, ggp) && 1 <= sync <= 3 && (four ==> sync == 3)
    requires four <==> TopDownInsert.HasTwoRedChildren(z.focus)
    requires !four ==> cs1 == cs0
    requires var n := |cs0|;
      four ==>
      (n == 0 || z.ctx[n - 1].color != Red ==> cs1 == cs0) &&
      (n >= 1 && z.ctx[n - 1].color == Red && (z.ctx[n - 1].key < z.ctx[n - 2].key) == (z.focus.key < z.ctx[n - 1].key) ==> Anc(cs1, 1) == p)
    ensures var k := TopDownInsert.NextSync(z, sync); (k >= 2 ==> p == Anc(cs1, 1)) && (k >= 3 ==> gp == Anc(cs1, 2))
  {
  }

  /**
   * Lines 58-61: the pointers shift down and the search moves to the side of
   * `key`; the loop invariant holds again for `TopDownInsert.Step` with the
   * count `NextSync`.
   */
  lemma TurnEnd(h1: Heap, root1: Ptr, cs1: seq<Link>, fs1: Shape, node: Ptr, p: Ptr, gp: Ptr, sync: nat, z: Zip,
                key: int, value: int, goal: (Tree, bool), toLeft: bool, next: Ptr, cs2: seq<Link>, fs2: Shape)
    requires z.focus.Node? && TopDownInsert.RedParentHasGrandparent(z.ctx) && Turned(h1, root1, cs1, fs1, node, p, gp, sync, z)
    requires ZipInv(TopDownInsert.Step(z, key), key, value, TopDownInsert.NextSync(z, sync), goal)
    requires toLeft == (key < h1[fs1.addr].key) && next == (if toLeft then h1[fs1.addr].left else h1[fs1.addr].right)
    requires cs2 == DownS(cs1, fs1, toLeft).0 && fs2 == DownS(cs1, fs1, toLeft).1
    ensures SearchInv(h1, root1, cs2, fs2, next, node, p, gp, TopDownInsert.NextSync(z, sync), TopDownInsert.Step(z, key), key, value, goal)
  {
    DescendHeap(h1, cs1, fs1, key);
  }

  /** Lines 57-61 after the reorientation of a turn: the search moves to the child on the side `key` sorts to, and the loop invariant holds there with a smaller measure. */
  lemma TurnDown(h1: Heap, root1: Ptr, cs1: seq<Link>, fs1: Shape, node: Ptr, p: Ptr, gp: Ptr, sync: nat, z: Zip,
                 key: int, value: int, goal: (Tree, bool), toLeft: bool, next: Ptr)
    requires ZipInv(z, key, value, sync, goal) && z.focus.Node? && z.focus.key != key
    requires Turned(h1, root1, cs1, fs1, node, p, gp, sync, z)
    requires toLeft == (key < h1[fs1.addr].key) && next == (if toLeft then h1[fs1.addr].left else h1[fs1.addr].right)
    ensures var z' := TopDownInsert.Step(z, key);
      SearchInv(h1, root1, DownS(cs1, fs1, toLeft).0, DownS(cs1, fs1, toLeft).1, next, node, p, gp,
                TopDownInsert.NextSync(z, sync), z', key, value, goal) &&
      (TopDownInsert.PathLen(z'.focus, key) < TopDownInsert.PathLen(z.focus, key) ||
       (TopDownInsert.PathLen(z'.focus, key) == TopDownInsert.PathLen(z.focus, key) &&
        TopDownInsert.HasTwoRedChildren(z.focus) && !TopDownInsert.HasTwoRedChildren(z'.focus)))
  {
    LoopTurn(z, key, value, sync, goal);
    var down := DownS(cs1, fs1, toLeft);
    TurnEnd(h1, root1, cs1, fs1, node, p, gp, sync, z, key, value, goal, toLeft, next, down.0, down.1);
  }

  /** How the search of Insert ends on a node holding `key` (line 50): the whole tree `w` hangs under `root`, and the outcome `goal` is that tree, nothing inserted. */
  predicate FoundAt(h: Heap, root: Ptr, w: Shape, goal: (Tree, bool))
  {
    Linked(h, w) && Nodes(w) == h.Keys && Top(w) == root && goal == (Val(h, w), false)
  }

  /**
   * How the search of Insert ends below the non-empty path `cs` (line 48): the
   * path is the whole tree, the three ancestor pointers are its last three
   * nodes, `key` belongs at the null position reached, and the outcome `goal`
   * is the red leaf hung there and reoriented.
   */
  predicate LeafSlot(h: Heap, root: Ptr, cs: seq<Link>, p: Ptr, gp: Ptr, ggp: Ptr, key: int, value: int, goal: (Tree, bool))
  {
    SlotAt(h, root, cs, p, gp, ggp, key, value) && goal == (Whole(TopDownInsert.AttachLeaf(ValPath(h, cs), key, value)), true)
  }

  /** The null position below the non-empty path `cs` where `key` belongs, with the ancestor pointers right and the path fit for the leaf's reorientation. */
  predicate SlotAt(h: Heap, root: Ptr, cs: seq<Link>, p: Ptr, gp: Ptr, ggp: Ptr, key: int, value: int)
  {
    cs != [] && Placed(h, cs, Nil) && h.Keys == PathNodes(cs) && root == RootOf(cs, Nil) && Synced(cs, 3, p, gp, ggp) &&
    OnPath(ValPath(h, cs), key) && TopDownInsert.RedParentHasGrandparent(ValPath(h, cs)) &&
    KeysAgree(ValPath(h, cs), Node(Red, Empty, key, value, Empty))
  }

  /** Lines 65-72 done: the red leaf at `a` hangs below the path `cs`, whose values before were `ctx`, and the ancestor pointers are still right. */
  predicate LeafHung(h: Heap, root: Ptr, cs: seq<Link>, a: nat, p: Ptr, gp: Ptr, ggp: Ptr, ctx: seq<Frame>, key: int, value: int)
  {
    var leaf := Br(a, Nil, Nil);
    ctx != [] && Placed(h, cs, leaf) && h.Keys == PathNodes(cs) + {a} && root == RootOf(cs, leaf) && Synced(cs, 3, p, gp, ggp) &&
    ValZip(h, cs, leaf) == Zip(ctx, Node(Red, Empty, key, value, Empty)) &&
    TopDownInsert.RedParentHasGrandparent(ctx) && KeysAgree(ctx, Node(Red, Empty, key, value, Empty))
  }

  /** Line 50: the search meets `key`; the tree as it stands is the result, and nothing is inserted. */
  lemma FoundKey(h: Heap, root: Ptr, cs: seq<Link>, fs: Shape, p: Ptr, gp: Ptr, ggp: Ptr,
                 sync: nat, z: Zip, key: int, value: int, goal: (Tree, bool))
    requires SearchInv(h, root, cs, fs, Top(fs), p, gp, ggp, sync, z, key, value, goal)
    requires fs.Br? && fs.addr in h && h[fs.addr].key == key
    ensures FoundAt(h, root, PlugS(cs, fs), goal)
  {
    PlugSWhole(h, cs, fs);
  }

  /** Line 48: the search fell off the tree below a non-empty path, and all three ancestor pointers are right. */
  lemma SearchExit(h: Heap, root: Ptr, cs: seq<Link>, fs: Shape, p: Ptr, gp: Ptr, ggp: Ptr,
                   sync: nat, z: Zip, key: int, value: int, goal: (Tree, bool))
    requires SearchInv(h, root, cs, fs, Null, p, gp, ggp, sync, z, key, value, goal)
    ensures fs == Nil && cs != [] && Synced(cs, 3, p, gp, ggp) && z.ctx == ValPath(h, cs) && z.focus.Empty?
  {
  }

  /** The leaf slot the search reached, in the terms `Insert` continues with at line 64. */
  lemma LeafSlotFound(h: Heap, root: Ptr, cs: seq<Link>, p: Ptr, gp: Ptr, ggp: Ptr, ctx: seq<Frame>,
                      key: int, value: int, goal: (Tree, bool))
    requires Placed(h, cs, Nil) && h.Keys == PathNodes(cs) + Nodes(Nil) && root == RootOf(cs, Nil)
    requires cs != [] && Synced(cs, 3, p, gp, ggp) && ctx == ValPath(h, cs)
    requires OnPath(ctx, key) && TopDownInsert.RedParentHasGrandparent(ctx) && KeysAgree(ctx, Node(Red, Empty, key, value, Empty))
    requires ctx != [] && goal == (Whole(TopDownInsert.AttachLeaf(ctx, key, value)), true)
    ensures LeafSlot(h, root, cs, p, gp, ggp, key, value, goal)
  {
  }

  /** Lines 64-74: the search fell off the tree below a non-empty path; the red leaf hung there and reoriented is the result. */
  lemma LeafTurn(z: Zip, key: int, value: int, sync: nat, goal: (Tree, bool))
    requires ZipInv(z, key, value, sync, goal) && z.focus.Empty? && z.ctx != []
    ensures OnPath(z.ctx, key)
    ensures TopDownInsert.RedParentHasGrandparent(z.ctx) && KeysAgree(z.ctx, Node(Red, Empty, key, value, Empty))
    ensures goal == (Whole(TopDownInsert.AttachLeaf(z.ctx, key, value)), true)
  {
    TopDownInsert.AttachLeafCorrect(z, key, value);
    LeafKeys(z.ctx, key, value);
  }
}
