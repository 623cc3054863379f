/**
 * Two inputs on which Erase as written (red_black_tree.cpp:81-192) breaks the
 * container, and the corrected reading on the same inputs. Keys equal values
 * in these trees.
 */
module EraseFindings {
  import opened RbSpec
  import opened TreeZipper
  import opened TopDownErase
  import TopDownInsert

  function Leaf(c: Color, k: int): Tree
  {
    Node(c, Empty, k, k, Empty)
  }

  /** Built by inserting 0, 20, 30, 10 (`SideTestTreeBuilt`). */
  function SideTestTree(): Tree
  {
    Node(Black, Node(Black, Empty, 0, 0, Leaf(Red, 10)), 20, 20, Leaf(Black, 30))
  }

  /** Built by inserting 50, 20, 80, 60, 90, 55 (`StaleGrandparentTreeBuilt`). */
  function StaleGrandparentTree(): Tree
  {
    Node(Black, Leaf(Black, 20), 50, 50, Node(Red, Node(Black, Leaf(Red, 55), 60, 60, Empty), 80, 80, Leaf(Black, 90)))
  }

  // ----- the two trees, built by insertion -----------------------------------------

  /** One turn of the insertion loop for a node whose key is not `key`: the loop goes on from `z'`. */
  lemma Turn(z: Zip, key: int, value: int, z': Zip)
    requires TopDownInsert.DescentInv(z, key) && z.focus.Node? && z.focus.key != key && TopDownInsert.Step(z, key) == z'
    ensures TopDownInsert.DescentInv(z', key) && TopDownInsert.InsertLoop(z, key, value) == TopDownInsert.InsertLoop(z', key, value)
  {
    TopDownInsert.StepKeepsInv(z, key);
  }

  /** The insertion loop at an empty position below the root: the new red leaf is attached and the result is `t`. */
  lemma Land(z: Zip, key: int, value: int, t: Tree)
    requires TopDownInsert.DescentInv(z, key) && z.focus.Empty? && z.ctx != []
    requires Whole(TopDownInsert.AttachLeaf(z.ctx, key, value)) == t
    ensures TopDownInsert.InsertLoop(z, key, value) == (t, true)
  {
  }

  function F(c: Color, k: int, toLeft: bool, other: Tree): Frame
  {
    Frame(c, k, k, toLeft, other)
  }

  lemma Side2Steps()
    ensures var z1 := Zip([F(Black, 0, false, Empty)], Empty);
      TopDownInsert.Step(Zip([], Leaf(Black, 0)), 20) == z1 &&
      Whole(TopDownInsert.AttachLeaf(z1.ctx, 20, 20)) == Node(Black, Empty, 0, 0, Leaf(Red, 20))
  {
  }

  lemma Side2(t: Tree)
    requires t == Leaf(Black, 0) && Ordered(t) && IsRedBlack(t)
    ensures TopDownInsert.Insert(t, 20, 20).0 == Node(Black, Empty, 0, 0, Leaf(Red, 20))
  {
    Side2Steps();
    var z1 := Zip([F(Black, 0, false, Empty)], Empty);
    Turn(Zip([], t), 20, 20, z1);
    Land(z1, 20, 20, Node(Black, Empty, 0, 0, Leaf(Red, 20)));
  }

  lemma Side3Steps()
    ensures var z1 := Zip([F(Black, 0, false, Empty)], Leaf(Red, 20)); var z2 := Zip([F(Black, 0, false, Empty), F(Red, 20, false, Empty)], Empty);
      TopDownInsert.Step(Zip([], Node(Black, Empty, 0, 0, Leaf(Red, 20))), 30) == z1 &&
      TopDownInsert.Step(z1, 30) == z2 &&
      Whole(TopDownInsert.AttachLeaf(z2.ctx, 30, 30)) == Node(Black, Leaf(Red, 0), 20, 20, Leaf(Red, 30))
  {
  }

  lemma Side3(t: Tree)
    requires t == Node(Black, Empty, 0, 0, Leaf(Red, 20)) && Ordered(t) && IsRedBlack(t)
    ensures TopDownInsert.Insert(t, 30, 30).0 == Node(Black, Leaf(Red, 0), 20, 20, Leaf(Red, 30))
  {
    Side3Steps();
    var z1 := Zip([F(Black, 0, false, Empty)], Leaf(Red, 20));
    var z2 := Zip([F(Black, 0, false, Empty), F(Red, 20, false, Empty)], Empty);
    Turn(Zip([], t), 30, 30, z1);
    Turn(z1, 30, 30, z2);
    Land(z2, 30, 30, Node(Black, Leaf(Red, 0), 20, 20, Leaf(Red, 30)));
  }

  lemma Side4Steps()
    ensures var z1 := Zip([F(Black, 20, true, Leaf(Black, 30))], Leaf(Black, 0)); var z2 := Zip([F(Black, 20, true, Leaf(Black, 30)), F(Black, 0, false, Empty)], Empty);
      TopDownInsert.Step(Zip([], Node(Black, Leaf(Red, 0), 20, 20, Leaf(Red, 30))), 10) == z1 &&
      TopDownInsert.Step(z1, 10) == z2 &&
      Whole(TopDownInsert.AttachLeaf(z2.ctx, 10, 10)) == SideTestTree()
  {
  }

  lemma Side4(t: Tree)
    requires t == Node(Black, Leaf(Red, 0), 20, 20, Leaf(Red, 30)) && Ordered(t) && IsRedBlack(t)
    ensures TopDownInsert.Insert(t, 10, 10).0 == SideTestTree()
  {
    Side4Steps();
    var z1 := Zip([F(Black, 20, true, Leaf(Black, 30))], Leaf(Black, 0));
    var z2 := Zip([F(Black, 20, true, Leaf(Black, 30)), F(Black, 0, false, Empty)], Empty);
    Turn(Zip([], t), 10, 10, z1);
    Turn(z1, 10, 10, z2);
    Land(z2, 10, 10, SideTestTree());
  }

  /** Inserting 0, 20, 30 and 10 into the empty tree builds `SideTestTree()`. */
  lemma SideTestTreeBuilt()
    ensures var t1 := TopDownInsert.Insert(Empty, 0, 0).0;
      var t2 := TopDownInsert.Insert(t1, 20, 20).0;
      var t3 := TopDownInsert.Insert(t2, 30, 30).0;
      TopDownInsert.Insert(t3, 10, 10).0 == SideTestTree()
  {
    var t1 := TopDownInsert.Insert(Empty, 0, 0).0;
    Side2(t1);
    var t2 := TopDownInsert.Insert(t1, 20, 20).0;
    Side3(t2);
    Side4(TopDownInsert.Insert(t2, 30, 30).0);
  }

  lemma Stale2Steps()
    ensures var z1 := Zip([F(Black, 50, true, Empty)], Empty);
      TopDownInsert.Step(Zip([], Leaf(Black, 50)), 20) == z1 &&
      Whole(TopDownInsert.AttachLeaf(z1.ctx, 20, 20)) == Node(Black, Leaf(Red, 20), 50, 50, Empty)
  {
  }

  lemma Stale2(t: Tree)
    requires t == Leaf(Black, 50) && Ordered(t) && IsRedBlack(t)
    ensures TopDownInsert.Insert(t, 20, 20).0 == Node(Black, Leaf(Red, 20), 50, 50, Empty)
  {
    Stale2Steps();
    var z1 := Zip([F(Black, 50, true, Empty)], Empty);
    Turn(Zip([], t), 20, 20, z1);
    Land(z1, 20, 20, Node(Black, Leaf(Red, 20), 50, 50, Empty));
  }

  lemma Stale3Steps()
    ensures var z1 := Zip([F(Black, 50, false, Leaf(Red, 20))], Empty);
      TopDownInsert.Step(Zip([], Node(Black, Leaf(Red, 20), 50, 50, Empty)), 80) == z1 &&
      Whole(TopDownInsert.AttachLeaf(z1.ctx, 80, 80)) == Node(Black, Leaf(Red, 20), 50, 50, Leaf(Red, 80))
  {
  }

  lemma Stale3(t: Tree)
    requires t == Node(Black, Leaf(Red, 20), 50, 50, Empty) && Ordered(t) && IsRedBlack(t)
    ensures TopDownInsert.Insert(t, 80, 80).0 == Node(Black, Leaf(Red, 20), 50, 50, Leaf(Red, 80))
  {
    Stale3Steps();
    var z1 := Zip([F(Black, 50, false, Leaf(Red, 20))], Empty);
    Turn(Zip([], t), 80, 80, z1);
    Land(z1, 80, 80, Node(Black, Leaf(Red, 20), 50, 50, Leaf(Red, 80)));
  }

  lemma Stale4Steps()
    ensures var z1 := Zip([F(Black, 50, false, Leaf(Black, 20))], Leaf(Black, 80)); var z2 := Zip([F(Black, 50, false, Leaf(Black, 20)), F(Black, 80, true, Empty)], Empty);
      TopDownInsert.Step(Zip([], Node(Black, Leaf(Red, 20), 50, 50, Leaf(Red, 80))), 60) == z1 &&
      TopDownInsert.Step(z1, 60) == z2 &&
      Whole(TopDownInsert.AttachLeaf(z2.ctx, 60, 60)) == Node(Black, Leaf(Black, 20), 50, 50, Node(Black, Leaf(Red, 60), 80, 80, Empty))
  {
  }

  lemma Stale4(t: Tree)
    requires t == Node(Black, Leaf(Red, 20), 50, 50, Leaf(Red, 80)) && Ordered(t) && IsRedBlack(t)
    ensures TopDownInsert.Insert(t, 60, 60).0 == Node(Black, Leaf(Black, 20), 50, 50, Node(Black, Leaf(Red, 60), 80, 80, Empty))
  {
    Stale4Steps();
    var z1 := Zip([F(Black, 50, false, Leaf(Black, 20))], Leaf(Black, 80));
    var z2 := Zip([F(Black, 50, false, Leaf(Black, 20)), F(Black, 80, true, Empty)], Empty);
    Turn(Zip([], t), 60, 60, z1);
    Turn(z1, 60, 60, z2);
    Land(z2, 60, 60, Node(Black, Leaf(Black, 20), 50, 50, Node(Black, Leaf(Red, 60), 80, 80, Empty)));
  }

  lemma Stale5Steps()
    ensures var z1 := Zip([F(Black, 50, false, Leaf(Black, 20))], Node(Black, Leaf(Red, 60), 80, 80, Empty)); var z2 := Zip([F(Black, 50, false, Leaf(Black, 20)), F(Black, 80, false, Leaf(Red, 60))], Empty);
      TopDownInsert.Step(Zip([], Node(Black, Leaf(Black, 20), 50, 50, Node(Black, Leaf(Red, 60), 80, 80, Empty))), 90) == z1 &&
      TopDownInsert.Step(z1, 90) == z2 &&
      Whole(TopDownInsert.AttachLeaf(z2.ctx, 90, 90)) == Node(Black, Leaf(Black, 20), 50, 50, Node(Black, Leaf(Red, 60), 80, 80, Leaf(Red, 90)))
  {
  }

  lemma Stale5(t: Tree)
    requires t == Node(Black, Leaf(Black, 20), 50, 50, Node(Black, Leaf(Red, 60), 80, 80, Empty)) && Ordered(t) && IsRedBlack(t)
    ensures TopDownInsert.Insert(t, 90, 90).0 == Node(Black, Leaf(Black, 20), 50, 50, Node(Black, Leaf(Red, 60), 80, 80, Leaf(Red, 90)))
  {
    Stale5Steps();
    var z1 := Zip([F(Black, 50, false, Leaf(Black, 20))], Node(Black, Leaf(Red, 60), 80, 80, Empty));
    var z2 := Zip([F(Black, 50, false, Leaf(Black, 20)), F(Black, 80, false, Leaf(Red, 60))], Empty);
    Turn(Zip([], t), 90, 90, z1);
    Turn(z1, 90, 90, z2);
    Land(z2, 90, 90, Node(Black, Leaf(Black, 20), 50, 50, Node(Black, Leaf(Red, 60), 80, 80, Leaf(Red, 90))));
  }

  lemma Stale6Steps()
    ensures var z1 := Zip([F(Black, 50, false, Leaf(Black, 20))], Node(Black, Leaf(Red, 60), 80, 80, Leaf(Red, 90))); var z2 := Zip([F(Black, 50, false, Leaf(Black, 20)), F(Red, 80, true, Leaf(Black, 90))], Leaf(Black, 60)); var z3 := Zip([F(Black, 50, false, Leaf(Black, 20)), F(Red, 80, true, Leaf(Black, 90)), F(Black, 60, true, Empty)], Empty);
      TopDownInsert.Step(Zip([], Node(Black, Leaf(Black, 20), 50, 50, Node(Black, Leaf(Red, 60), 80, 80, Leaf(Red, 90)))), 55) == z1 &&
      TopDownInsert.Step(z1, 55) == z2 &&
      TopDownInsert.Step(z2, 55) == z3 &&
      Whole(TopDownInsert.AttachLeaf(z3.ctx, 55, 55)) == StaleGrandparentTree()
  {
  }

  lemma Stale6(t: Tree)
    requires t == Node(Black, Leaf(Black, 20), 50, 50, Node(Black, Leaf(Red, 60), 80, 80, Leaf(Red, 90))) && Ordered(t) && IsRedBlack(t)
    ensures TopDownInsert.Insert(t, 55, 55).0 == StaleGrandparentTree()
  {
    Stale6Steps();
    var z1 := Zip([F(Black, 50, false, Leaf(Black, 20))], Node(Black, Leaf(Red, 60), 80, 80, Leaf(Red, 90)));
    var z2 := Zip([F(Black, 50, false, Leaf(Black, 20)), F(Red, 80, true, Leaf(Black, 90))], Leaf(Black, 60));
    var z3 := Zip([F(Black, 50, false, Leaf(Black, 20)), F(Red, 80, true, Leaf(Black, 90)), F(Black, 60, true, Empty)], Empty);
    Turn(Zip([], t), 55, 55, z1);
    Turn(z1, 55, 55, z2);
    Turn(z2, 55, 55, z3);
    Land(z3, 55, 55, StaleGrandparentTree());
  }

  /** Inserting 50, 20, 80, 60, 90 and 55 into the empty tree builds `StaleGrandparentTree()`. */
  lemma StaleGrandparentTreeBuilt()
    ensures var t1 := TopDownInsert.Insert(Empty, 50, 50).0;
      var t2 := TopDownInsert.Insert(t1, 20, 20).0;
      var t3 := TopDownInsert.Insert(t2, 80, 80).0;
      var t4 := TopDownInsert.Insert(t3, 60, 60).0;
      var t5 := TopDownInsert.Insert(t4, 90, 90).0;
      TopDownInsert.Insert(t5, 55, 55).0 == StaleGrandparentTree()
  {
    var t1 := TopDownInsert.Insert(Empty, 50, 50).0;
    Stale2(t1);
    var t2 := TopDownInsert.Insert(t1, 20, 20).0;
    Stale3(t2);
    var t3 := TopDownInsert.Insert(t2, 80, 80).0;
    Stale4(t3);
    var t4 := TopDownInsert.Insert(t3, 60, 60).0;
    Stale5(t4);
    Stale6(TopDownInsert.Insert(t4, 90, 90).0);
  }

  lemma SideTestTreeValid()
    ensures Ordered(SideTestTree()) && IsRedBlack(SideTestTree())
  {
    assert Inorder(SideTestTree()) == [Entry(0, 0), Entry(10, 10), Entry(20, 20), Entry(30, 30)];
  }

  lemma StaleGrandparentTreeValid()
    ensures Ordered(StaleGrandparentTree()) && IsRedBlack(StaleGrandparentTree()) && 80 in Content(StaleGrandparentTree())
  {
    var t := StaleGrandparentTree();
    assert Inorder(t) == [Entry(20, 20), Entry(50, 50), Entry(55, 55), Entry(60, 60), Entry(80, 80), Entry(90, 90)];
    KeysInorder(t, 80);
    assert Inorder(t)[4] == Entry(80, 80);
  }

  /**
   * Line 123 decides the side of the current node by comparing keys. After the
   * swap of line 179 the node holding 20 is the right child of the node now
   * holding 30 but compares smaller, so the single rotation is taken where the
   * double one was needed, and the black counts come out unequal: 1 on the left path, 2 and 3 on the right ones.
   */
  lemma SideTestUnbalanced()
    ensures var r := EraseAsWritten(SideTestTree(), 20);
      r.0 == Node(Black, Empty, 0, 0, Node(Black, Leaf(Black, 10), 30, 30, Empty)) && !Balanced(r.0)
  {
    var t := SideTestTree();
    var s := Node(Black, Empty, 0, 0, Leaf(Red, 10));
    var x := t.(color := Red);
    assert Swap(x) == Node(Red, s, 30, 30, Leaf(Black, 20));
    var z1 := Zip([Frame(Red, 30, 30, false, s)], Leaf(Black, 20));
    assert EraseAsWritten(t, 20) == Loop(z1, 20, false, AsWritten);
    var ctx2 := [Frame(Red, 0, 0, false, Empty), Frame(Black, 30, 30, false, Leaf(Black, 10))];
    assert MakeRed(z1, false, AsWritten) == Zip(ctx2, Leaf(Red, 20));
    assert Loop(z1, 20, false, AsWritten) == (Blacken(Plug(ctx2, Empty)), true);
    assert Plug(ctx2, Empty) == Plug([ctx2[0]], Node(Black, Leaf(Black, 10), 30, 30, Empty));
  }

  /** The run of the stale-grandparent input, step by step: after the red-sibling rotation the reconnection skips the new top. */
  lemma StaleGrandparentRun()
    ensures EraseAsWritten(StaleGrandparentTree(), 20) == (Node(Black, Leaf(Black, 50), 55, 55, Leaf(Black, 60)), true)
  {
    StaleFirstTurn();
    StaleSecondTurn();
  }

  /** At the root's left child 20 the sibling 80 is red: it rotates above 50, and the grandparent pointer goes stale. */
  lemma StaleFirstTurn()
    ensures EraseAsWritten(StaleGrandparentTree(), 20) ==
      Loop(Zip([Frame(Black, 80, 80, true, Leaf(Black, 90)), Frame(Red, 50, 50, true, Node(Black, Leaf(Red, 55), 60, 60, Empty))], Leaf(Black, 20)),
           20, true, AsWritten)
  {
    var s := Node(Black, Leaf(Red, 55), 60, 60, Empty);
    var t := StaleGrandparentTree();
    var z1 := Zip([Frame(Red, 50, 50, true, Node(Red, s, 80, 80, Leaf(Black, 90)))], Leaf(Black, 20));
    assert EraseAsWritten(t, 20) == Loop(z1, 20, false, AsWritten);
    var z2 := Zip([Frame(Black, 80, 80, true, Leaf(Black, 90)), Frame(Red, 50, 50, true, s)], Leaf(Black, 20));
    assert RotateRedSibling(z1, false) == z2;
  }

  /** The borrow from 60's red child 55 is hung under the stale grandparent, the root, in place of 80. */
  lemma StaleSecondTurn()
    ensures Loop(Zip([Frame(Black, 80, 80, true, Leaf(Black, 90)), Frame(Red, 50, 50, true, Node(Black, Leaf(Red, 55), 60, 60, Empty))], Leaf(Black, 20)),
                 20, true, AsWritten) ==
      (Node(Black, Leaf(Black, 50), 55, 55, Leaf(Black, 60)), true)
  {
    var s := Node(Black, Leaf(Red, 55), 60, 60, Empty);
    var z2 := Zip([Frame(Black, 80, 80, true, Leaf(Black, 90)), Frame(Red, 50, 50, true, s)], Leaf(Black, 20));
    var ctx3 := [Frame(Red, 55, 55, true, Leaf(Black, 60)), Frame(Black, 50, 50, true, Empty)];
    assert MakeRed(z2, true, AsWritten) == Zip(ctx3, Leaf(Red, 20));
    assert Loop(z2, 20, true, AsWritten) == (Blacken(Plug(ctx3, Empty)), true);
    assert Plug(ctx3, Empty) == Plug([ctx3[0]], Leaf(Black, 50));
    assert Plug([ctx3[0]], Leaf(Black, 50)) == Node(Red, Leaf(Black, 50), 55, 55, Leaf(Black, 60));
  }

  /**
   * Lines 108-112 rotate the red sibling 80 above the parent 50 but leave
   * `grand_parent_node` at the root position; the later reconnection at
   * line 131 hangs the new subtree where 80 was, and 80 and 90 are lost.
   */
  lemma StaleGrandparentLosesKey()
    ensures 80 in Content(StaleGrandparentTree()) && 80 !in Content(EraseAsWritten(StaleGrandparentTree(), 20).0)
  {
    StaleGrandparentTreeValid();
    StaleGrandparentRun();
    NoEighty();
  }

  lemma NoEighty()
    ensures 80 !in Content(Node(Black, Leaf(Black, 50), 55, 55, Leaf(Black, 60)))
  {
    var r := Node(Black, Leaf(Black, 50), 55, 55, Leaf(Black, 60));
    assert Inorder(r) == [Entry(50, 50), Entry(55, 55), Entry(60, 60)];
    KeysInorder(r, 80);
  }

  /** The corrected reading on the same inputs: both trees stay red-black and keep every other key. */
  lemma CorrectedOnFindings()
    ensures Erased(Erase(SideTestTree(), 20), 20, Content(SideTestTree()))
    ensures Erased(Erase(StaleGrandparentTree(), 20), 20, Content(StaleGrandparentTree()))
    ensures 80 in Content(Erase(StaleGrandparentTree(), 20).0)
  {
    SideTestTreeValid();
    StaleGrandparentTreeValid();
    EraseCorrect(SideTestTree(), 20);
    EraseCorrect(StaleGrandparentTree(), 20);
  }
}
