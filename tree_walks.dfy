/**
 * The walks of `Clear` and `RedBlackTreeRulesCheck` over the node store: the
 * explicit stack of pending subtrees, and the black counts recorded per null
 * position.
 */
module TreeWalks {
  import opened RbSpec
  import opened NodeStore

  /**
   * The stack holds the tops of the subtrees `ps`, bottom first, all
   * non-empty and linked. Stated one entry at a time from the top of the
   * stack, as the walks pop it.
   */
  ghost predicate Pending(h: Heap, stack: seq<Ptr>, ps: seq<Shape>)
    decreases |ps|
  {
    |stack| == |ps| &&
    (ps == [] ||
     var t := ps[|ps| - 1];
     Pending(h, stack[..|stack| - 1], ps[..|ps| - 1]) && t.Br? && stack[|stack| - 1] == At(t.addr) && Linked(h, t))
  }

  /** The nodes of all pending subtrees. */
  ghost function Forest(ps: seq<Shape>): set<nat>
  {
    if ps == [] then {} else Forest(ps[..|ps| - 1]) + Nodes(ps[|ps| - 1])
  }

  /** No two pending subtrees share a node. */
  ghost predicate Disjoint(ps: seq<Shape>)
  {
    ps == [] || (Disjoint(ps[..|ps| - 1]) && Nodes(ps[|ps| - 1]) !! Forest(ps[..|ps| - 1]))
  }

  /** Every pending subtree meets the red rule. */
  ghost predicate AllRed(h: Heap, ps: seq<Shape>)
  {
    ps == [] || (AllRed(h, ps[..|ps| - 1]) && RedRule(Val(h, ps[|ps| - 1])))
  }

  /** The nodes of all pending subtrees, counted with repeats. */
  ghost function Weight(ps: seq<Shape>): nat
  {
    if ps == [] then 0 else Weight(ps[..|ps| - 1]) + |Nodes(ps[|ps| - 1])|
  }

  /** The left child as a stack entry: none when it is empty. */
  ghost function LeftOf(t: Shape): seq<Shape>
    requires t.Br?
  {
    if t.left.Br? then [t.left] else []
  }

  ghost function RightOf(t: Shape): seq<Shape>
    requires t.Br?
  {
    if t.right.Br? then [t.right] else []
  }

  /** The non-empty children of a node, left before right, as the stack receives them. */
  ghost function Children(t: Shape): seq<Shape>
    requires t.Br?
  {
    LeftOf(t) + RightOf(t)
  }

  /** Line 227 (and 308): the left child pointer is pushed when it is not null. */
  function LeftPtr(n: NodeRec): seq<Ptr>
  {
    if n.left != Null then [n.left] else []
  }

  /** Line 230 (and 311): the right child pointer is pushed when it is not null. */
  function RightPtr(n: NodeRec): seq<Ptr>
  {
    if n.right != Null then [n.right] else []
  }

  /** The non-null child pointers of a node, left first, in the order they are pushed. */
  function ChildPtrs(n: NodeRec): seq<Ptr>
  {
    LeftPtr(n) + RightPtr(n)
  }

  /** What pushing one more subtree `t` (with top `q`) does to each account of the stack. */
  lemma Push(h: Heap, stack: seq<Ptr>, ps: seq<Shape>, q: Ptr, t: Shape)
    ensures Forest(ps + [t]) == Forest(ps) + Nodes(t) && Weight(ps + [t]) == Weight(ps) + |Nodes(t)|
    ensures Disjoint(ps + [t]) <==> Disjoint(ps) && Nodes(t) !! Forest(ps)
    ensures AllRed(h, ps + [t]) <==> AllRed(h, ps) && RedRule(Val(h, t))
    ensures Pending(h, stack + [q], ps + [t]) <==> Pending(h, stack, ps) && t.Br? && q == At(t.addr) && Linked(h, t)
  {
    assert (ps + [t])[..|ps|] == ps;
    assert (stack + [q])[..|stack|] == stack;
  }

  /** Pushing a node's non-null children onto the stack. */
  lemma PushChildren(h: Heap, stack: seq<Ptr>, ps: seq<Shape>, t: Shape)
    requires t.Br? && t.addr in h && h[t.addr].left == Top(t.left) && h[t.addr].right == Top(t.right)
    ensures Forest(ps + Children(t)) == Forest(ps) + Nodes(t.left) + Nodes(t.right)
    ensures Weight(ps + Children(t)) == Weight(ps) + |Nodes(t.left)| + |Nodes(t.right)|
    ensures Disjoint(ps) && Nodes(t.left) !! Forest(ps) && Nodes(t.right) !! Forest(ps) && Nodes(t.left) !! Nodes(t.right) ==>
      Disjoint(ps + Children(t))
    ensures AllRed(h, ps + Children(t)) <==> AllRed(h, ps) && RedRule(Val(h, t.left)) && RedRule(Val(h, t.right))
    ensures Pending(h, stack, ps) && Linked(h, t.left) && Linked(h, t.right) ==>
      Pending(h, stack + ChildPtrs(h[t.addr]), ps + Children(t))
  {
    var n := h[t.addr];
    PushLeft(h, stack, ps, t);
    PushRight(h, stack + LeftPtr(n), ps + LeftOf(t), t);
    Assoc(ps, LeftOf(t), RightOf(t));
    Assoc(stack, LeftPtr(n), RightPtr(n));
  }

  lemma PushLeft(h: Heap, stack: seq<Ptr>, ps: seq<Shape>, t: Shape)
    requires t.Br? && t.addr in h && h[t.addr].left == Top(t.left)
    ensures var ps', stack' := ps + LeftOf(t), stack + LeftPtr(h[t.addr]);
      Forest(ps') == Forest(ps) + Nodes(t.left) && Weight(ps') == Weight(ps) + |Nodes(t.left)| &&
      (Disjoint(ps) && Nodes(t.left) !! Forest(ps) ==> Disjoint(ps')) &&
      (AllRed(h, ps') <==> AllRed(h, ps) && RedRule(Val(h, t.left))) &&
      (Pending(h, stack, ps) && Linked(h, t.left) ==> Pending(h, stack', ps'))
  {
    if t.left.Br? {
      Push(h, stack, ps, h[t.addr].left, t.left);
    } else {
      assert ps + LeftOf(t) == ps && stack + LeftPtr(h[t.addr]) == stack;
    }
  }

  lemma PushRight(h: Heap, stack: seq<Ptr>, ps: seq<Shape>, t: Shape)
    requires t.Br? && t.addr in h && h[t.addr].right == Top(t.right)
    ensures var ps', stack' := ps + RightOf(t), stack + RightPtr(h[t.addr]);
      Forest(ps') == Forest(ps) + Nodes(t.right) && Weight(ps') == Weight(ps) + |Nodes(t.right)| &&
      (Disjoint(ps) && Nodes(t.right) !! Forest(ps) ==> Disjoint(ps')) &&
      (AllRed(h, ps') <==> AllRed(h, ps) && RedRule(Val(h, t.right))) &&
      (Pending(h, stack, ps) && Linked(h, t.right) ==> Pending(h, stack', ps'))
  {
    if t.right.Br? {
      Push(h, stack, ps, h[t.addr].right, t.right);
    } else {
      assert ps + RightOf(t) == ps && stack + RightPtr(h[t.addr]) == stack;
    }
  }

  /** Every pending subtree lies within the forest. */
  lemma {:induction false} ForestHas(ps: seq<Shape>, i: nat)
    requires i < |ps|
    ensures Nodes(ps[i]) <= Forest(ps)
    decreases |ps|
  {
    if i < |ps| - 1 {
      ForestHas(ps[..|ps| - 1], i);
    }
  }

  /** The stack stays linked in a store that keeps the pointers of its nodes. */
  lemma {:induction false} PendingFrame(h: Heap, h': Heap, stack: seq<Ptr>, ps: seq<Shape>)
    requires Pending(h, stack, ps) && SameLinks(h, h', Forest(ps))
    ensures Pending(h', stack, ps)
    decreases |ps|
  {
    if ps != [] {
      PendingFrame(h, h', stack[..|stack| - 1], ps[..|ps| - 1]);
      LinkedFrame(h, h', ps[|ps| - 1]);
    }
  }

  /**
   * Lines 222-233: popping `t`, pushing its children and deleting its node
   * keeps the stack's subtrees exactly the remaining nodes, disjoint and
   * linked, with one node fewer.
   */
  lemma ClearStep(h: Heap, stack: seq<Ptr>, ps: seq<Shape>)
    requires Pending(h, stack, ps) && h.Keys == Forest(ps) && Disjoint(ps) && ps != []
    ensures var t := ps[|ps| - 1];
      var h', rest := h - {t.addr}, ps[..|ps| - 1];
      var stack' := stack[..|stack| - 1] + ChildPtrs(h[t.addr]);
      t.Br? && stack[|stack| - 1] == At(t.addr) && t.addr in h &&
      h'.Keys == Forest(rest + Children(t)) && Disjoint(rest + Children(t)) && |h'.Keys| < |h.Keys| &&
      Pending(h', stack', rest + Children(t))
  {
    var t, rest, below := ps[|ps| - 1], ps[..|ps| - 1], stack[..|stack| - 1];
    var h' := h - {t.addr};
    PushChildren(h, below, rest, t);
    RemovedTop(h.Keys, Forest(rest), t);
    Removed(h, t.addr);
    assert SameLinks(h, h', Forest(rest + Children(t)));
    LinkedFrame(h, h', t.left);
    LinkedFrame(h, h', t.right);
    PendingFrame(h, h', below + ChildPtrs(h[t.addr]), rest + Children(t));
  }

  lemma RemovedTop(k: set<nat>, f: set<nat>, t: Shape)
    requires t.Br? && k == f + Nodes(t) && Nodes(t) !! f && t.addr !in Nodes(t.left) && t.addr !in Nodes(t.right)
    ensures k - {t.addr} == f + Nodes(t.left) + Nodes(t.right)
  {
  }

  /** Deleting a node removes exactly its address. */
  lemma Removed(h: Heap, a: nat)
    requires a in h
    ensures (h - {a}).Keys == h.Keys - {a} && |(h - {a}).Keys| < |h.Keys|
  {
    assert (h - {a}).Keys == h.Keys - {a};
    assert h.Keys == (h.Keys - {a}) + {a};
  }

  /**
   * Lines 303-311: the red rule holds in all pending subtrees exactly when it
   * holds at the popped node `t` and in the rest with `t`'s children pushed;
   * the stack then weighs one node less.
   */
  lemma RedStep(h: Heap, stack: seq<Ptr>, ps: seq<Shape>)
    requires Pending(h, stack, ps) && ps != []
    ensures var t := ps[|ps| - 1];
      var rest := ps[..|ps| - 1];
      var stack' := stack[..|stack| - 1] + ChildPtrs(h[t.addr]);
      t.Br? && stack[|stack| - 1] == At(t.addr) && t.addr in h &&
      (AllRed(h, ps) <==> AllRed(h, rest + Children(t)) && (h[t.addr].color == Red ==> IsBlack(Val(h, t.left)) && IsBlack(Val(h, t.right)))) &&
      Weight(rest + Children(t)) < Weight(ps) && Pending(h, stack', rest + Children(t))
  {
    var t, rest, below := ps[|ps| - 1], ps[..|ps| - 1], stack[..|stack| - 1];
    Popped(h, stack, ps);
    PushChildren(h, below, rest, t);
  }

  /** The top of a non-empty stack: a linked node whose subtree is one node more than its children's. */
  lemma Popped(h: Heap, stack: seq<Ptr>, ps: seq<Shape>)
    requires Pending(h, stack, ps) && ps != []
    ensures var t, rest := ps[|ps| - 1], ps[..|ps| - 1];
      t.Br? && stack[|stack| - 1] == At(t.addr) && t.addr in h &&
      Pending(h, stack[..|stack| - 1], rest) && Linked(h, t.left) && Linked(h, t.right) &&
      h[t.addr].left == Top(t.left) && h[t.addr].right == Top(t.right) &&
      (AllRed(h, ps) <==> AllRed(h, rest) && RedRule(Val(h, t))) &&
      (RedRule(Val(h, t)) <==>
        (h[t.addr].color == Red ==> IsBlack(Val(h, t.left)) && IsBlack(Val(h, t.right))) && RedRule(Val(h, t.left)) && RedRule(Val(h, t.right))) &&
      Weight(ps) == Weight(rest) + |Nodes(t)| && |Nodes(t)| > |Nodes(t.left)| + |Nodes(t.right)|
  {
    var t := ps[|ps| - 1];
    assert Nodes(t) == {t.addr} + Nodes(t.left) + Nodes(t.right);
  }

  /** Lines 319 and 304: one level of `ComputeAllBlackPathHeight`, read from the records of a linked subtree. */
  lemma BlackCountsStep(h: Heap, s: Shape, c: int)
    requires Linked(h, s) && s.Br?
    ensures var x := h[s.addr];
      (x.left != Null ==> x.left.addr in h) && (x.right != Null ==> x.right.addr in h) &&
      BlackCounts(Val(h, s), c) ==
        BlackCounts(Val(h, s.left), c + if x.left != Null && h[x.left.addr].color == Black then 1 else 0) +
        BlackCounts(Val(h, s.right), c + if x.right != Null && h[x.right.addr].color == Black then 1 else 0)
  {
  }

  /** Red in the records: an address that holds a red node. */
  lemma RedRead(h: Heap, s: Shape)
    requires Linked(h, s)
    ensures IsRed(Val(h, s)) <==> Top(s).At? && Top(s).addr in h && h[Top(s).addr].color == Red
  {
  }

  /**
   * `std::adjacent_find(counts, std::not_equal_to())` (line 320): the first
   * index whose entry differs from the next, or `|s|` when none does; the
   * end is returned exactly when all entries are equal.
   */
  method AdjacentFind(s: seq<int>) returns (i: nat)
    ensures i <= |s| && (i < |s| ==> i + 1 < |s| && s[i] != s[i + 1])
    ensures forall j :: 0 <= j < i && j + 1 < |s| ==> s[j] == s[j + 1]
    ensures i == |s| <==> AllSame(s)
  {
    if s == [] {
      return 0;
    }
    i := 0;
    while i + 1 < |s| && s[i] == s[i + 1]
      invariant i < |s| && forall j :: 0 <= j <= i ==> s[j] == s[0]
    {
      i := i + 1;
    }
    if i + 1 == |s| {
      i := |s|;
    } else {
      assert s[i] == s[0] && s[i + 1] != s[0];
    }
  }

  lemma Assoc<T>(a: seq<T>, b: seq<T>, c: seq<T>)
    ensures (a + b) + c == a + (b + c)
  {
  }
}
