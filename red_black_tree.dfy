/**
 * `rbt::RedBlackTree<int, int>` (red_black_tree.h:19-149,
 * red_black_tree.cpp): the root pointer, the element count and the nodes the
 * tree has allocated. `Valid` is the class invariant the public operations
 * keep: the nodes form one binary tree reachable from the root with no node
 * shared or leaked, ordered by key, obeying the red-black rules, and counted
 * by `size`. `Model` is the tree of pairs and colours the nodes hold.
 */
module Rbt {
  import opened RbSpec
  import opened TreeZipper
  import opened NodeStore
  import TopDownInsert
  import opened InsertPointers
  import opened TopDownErase
  import opened ErasePointers
  import opened TreeWalks

  class RedBlackTree {
    /** `root_`. */
    var root: Ptr
    /** `size_`. */
    var size: nat
    /** The nodes allocated by this tree and not yet deleted, by address. */
    var heap: Heap
    /** Every address `new` has handed out so far is below this one. */
    var nextAddr: nat
    /** Which node sits at each position of the tree. */
    ghost var shape: Shape

    /** The nodes form one tree under `root`, and no node outside it is allocated. */
    ghost predicate Wellformed()
      reads this
    {
      Formed(heap, root, shape, nextAddr)
    }

    /** The tree of pairs and colours the nodes hold. */
    ghost function Model(): Tree
      reads this
    {
      Val(heap, shape)
    }

    ghost predicate Valid()
      reads this
    {
      Wellformed() && Ordered(Model()) && IsRedBlack(Model()) && size == RbSpec.Size(Model())
    }

    /** `RedBlackTree()` (red_black_tree.h:41, 104-106): no root, no elements. */
    constructor ()
      ensures Valid() && Model() == Empty && heap == map[]
    {
      root := Null;
      size := 0;
      heap := map[];
      nextAddr := 0;
      shape := Nil;
    }

    /** `IsEmpty()` (red_black_tree.h:84): the root is null exactly when the tree holds no pair. */
    method IsEmpty() returns (r: bool)
      requires Wellformed()
      ensures r <==> root == Null
      ensures r <==> Content(Model()) == map[]
    {
      r := root == Null;
      if !r {
        RootInInorder(Model());
        KeysInorder(Model(), Model().key);
      }
    }

    /** `Size()` (red_black_tree.h:90): the count of stored pairs. */
    method Size() returns (r: nat)
      requires Valid()
      ensures r == |Content(Model())|
    {
      SizeContent(Model());
      r := size;
    }

    /**
     * `GetValue(key)` (red_black_tree.cpp:196-209): the binary search down from the
     * root; the pair's value and `true` when `key` is stored, a value-initialised
     * 0 and `false` otherwise.
     */
    method GetValue(key: int) returns (value: int, found: bool)
      requires Wellformed() && Ordered(Model())
      ensures found <==> key in Content(Model())
      ensures found ==> value == Content(Model())[key]
      ensures !found ==> value == 0
    {
      var ptr := root;
      ghost var s := shape;
      while ptr != Null
        invariant Linked(heap, s) && ptr == Top(s) && Ordered(Val(heap, s))
        invariant key in Content(Model()) <==> key in Content(Val(heap, s))
        invariant key in Content(Val(heap, s)) ==> Content(Model())[key] == Content(Val(heap, s))[key]
        decreases s
      {
        OrderedNode(Val(heap, s), key);
        var n := heap[ptr.addr];
        if key == n.key {
          return n.value, true;
        }
        ptr := if key < n.key then n.left else n.right;
        s := if key < n.key then s.left else s.right;
      }
      return 0, false;
    }

    /**
     * `Clear()` (red_black_tree.cpp:213-238): an empty tree is left as it is;
     * otherwise every node is deleted, then the root is null and the size 0.
     */
    method Clear()
      requires Valid()
      modifies this
      ensures Valid() && Model() == Empty && root == Null && size == 0 && heap == map[]
    {
      if root == Null {
        return;
      }
      DeleteAll();
      root, size, shape := Null, 0, Nil;
    }

    /**
     * Lines 218-234: a stack of pending nodes, starting with the root, is
     * popped one node at a time, the node's children pushed and the node
     * deleted, until the stack is empty; then no node is left.
     */
    method DeleteAll()
      requires Wellformed() && root != Null
      modifies this`heap
      ensures heap == map[]
    {
      var stack := [root];
      ghost var ps := [shape];
      Push(heap, [], [], root, shape);
      assert [] + [root] == stack && [] + [shape] == ps;
      while stack != []
        invariant Pending(heap, stack, ps) && heap.Keys == Forest(ps) && Disjoint(ps)
        decreases |heap.Keys|
      {
        var ptr := stack[|stack| - 1];
        ClearStep(heap, stack, ps);
        ghost var t := ps[|ps| - 1];
        var n := heap[ptr.addr];
        stack := stack[..|stack| - 1] + ChildPtrs(n);
        ps := ps[..|ps| - 1] + Children(t);
        heap := heap - {ptr.addr};
      }
      assert heap.Keys == {};
    }

    /**
     * `RedBlackTreeRulesCheck()` (red_black_tree.cpp:285-320): true on an
     * empty tree; otherwise the root must be black, no red node may have a
     * red child, and the black counts recorded for every null position must
     * all be equal (no adjacent pair differs). The answer is exactly whether
     * the tree meets the three red-black rules.
     */
    method RedBlackTreeRulesCheck() returns (ok: bool)
      requires Wellformed()
      ensures ok <==> IsRedBlack(Model())
    {
      TopRead(heap, shape);
      if root == Null {
        assert Model() == Empty;
        return true;
      }
      if heap[root.addr].color != Black {
        assert IsRed(Model());
        return false;
      }
      ok := RedRuleCheck();
      if !ok {
        return false;
      }
      var counts := ComputeAllBlackPathHeight(root, 1, [], shape);
      var i := AdjacentFind(counts);
      BlackCountsUniform(Model(), 1);
      assert counts == BlackCounts(Model(), 1);
      ok := i == |counts|;
    }

    /**
     * Lines 297-312: a stack walk from the root pops one node at a time,
     * fails on a red node with a red child, and pushes the node's children;
     * it succeeds exactly when no red node has a red child.
     */
    method RedRuleCheck() returns (ok: bool)
      requires Wellformed() && root != Null
      ensures ok <==> RedRule(Model())
    {
      var stack := [root];
      ghost var ps := [shape];
      Push(heap, [], [], root, shape);
      assert [] + [root] == stack && [] + [shape] == ps;
      while stack != []
        invariant Pending(heap, stack, ps) && (AllRed(heap, ps) <==> RedRule(Model()))
        decreases Weight(ps)
      {
        var ptr := stack[|stack| - 1];
        RedStep(heap, stack, ps);
        ghost var t := ps[|ps| - 1];
        TopRead(heap, t);
        var n := heap[ptr.addr];
        if n.color == Red && (RedAt(heap, n.left) || RedAt(heap, n.right)) {
          return false;
        }
        stack := stack[..|stack| - 1] + ChildPtrs(n);
        ps := ps[..|ps| - 1] + Children(t);
      }
      return true;
    }

    /**
     * `ComputeAllBlackPathHeight(node, count, counts)` (used at
     * red_black_tree.cpp:319): a null `node` appends `count`; otherwise the
     * left and then the right child are visited, each with `count` raised by
     * one when that child is a black node. Appends `BlackCounts` of the
     * subtree to `counts`.
     */
    method ComputeAllBlackPathHeight(node: Ptr, count: int, counts: seq<int>, ghost s: Shape) returns (r: seq<int>)
      requires Linked(heap, s) && node == Top(s)
      ensures r == counts + BlackCounts(Val(heap, s), count)
      decreases s
    {
      if node == Null {
        return counts + [count];
      }
      BlackCountsStep(heap, s, count);
      var n := heap[node.addr];
      var left := count + if n.left != Null && heap[n.left.addr].color == Black then 1 else 0;
      var right := count + if n.right != Null && heap[n.right.addr].color == Black then 1 else 0;
      var a := ComputeAllBlackPathHeight(n.left, left, counts, s.left);
      r := ComputeAllBlackPathHeight(n.right, right, a, s.right);
      Assoc(counts, BlackCounts(Val(heap, s.left), left), BlackCounts(Val(heap, s.right), right));
    }

    /**
     * `Insert(key, value)` (red_black_tree.cpp:31-77): into an empty tree a black
     * root; otherwise the top-down search, reorienting every node with two red
     * children on the way (lines 48-62), and a red leaf hung under the last
     * node visited and reoriented (lines 64-74). The nodes then hold
     * `TopDownInsert.Insert` of the tree before: a new key is stored and
     * counted, an existing key leaves the tree as it was.
     */
    method Insert(key: int, value: int) returns (inserted: bool)
      requires Valid()
      modifies this
      ensures Valid()
      ensures (Model(), inserted) == TopDownInsert.Insert(old(Model()), key, value)
      ensures inserted <==> key !in old(Content(Model()))
      ensures Content(Model()) == if inserted then old(Content(Model()))[key := value] else old(Content(Model()))
      ensures size == old(size) + if inserted then 1 else 0
    {
      if root == Null {
        assert shape == Nil && heap.Keys == {};
        var a := nextAddr;
        nextAddr := nextAddr + 1;
        heap := heap[a := NodeRec(key, value, Null, Null, Black)];
        root := At(a);
        shape := Br(a, Nil, Nil);
        size := size + 1;
        assert heap[a] == NodeRec(key, value, Null, Null, Black) && Val(heap, Nil) == Empty;
        assert Val(heap, shape) == Node(Black, Empty, key, value, Empty);
        return true;
      }
      ghost var t0 := Model();
      ghost var goal := TopDownInsert.Insert(t0, key, value);
      var found, p, gp, ggp, cs, fs := SearchSlot(key, value);
      if found {
        shape := PlugS(cs, fs);
        InsertCounted(t0, key, value, size);
        inserted := false;
      } else {
        InsertLeaf(key, value, p, gp, ggp, cs, t0);
        inserted := true;
      }
    }

    /**
     * Lines 64-74 of red_black_tree.cpp, where the search of `Insert` left off
     * below path `cs`: `size_` grows, a new red leaf hangs under `parent_node`
     * and is reoriented with the three ancestor pointers; the nodes then form
     * the whole tree again, hold `TopDownInsert.Insert` of the tree `t0` the
     * search started from, and are counted by `size`.
     */
    method InsertLeaf(key: int, value: int, p: Ptr, gp: Ptr, ggp: Ptr, ghost cs: seq<Link>, ghost t0: Tree)
      requires Ordered(t0) && IsRedBlack(t0) && size == RbSpec.Size(t0)
      requires LeafSlot(heap, root, cs, p, gp, ggp, key, value, TopDownInsert.Insert(t0, key, value))
      requires forall a :: a in heap ==> a < nextAddr
      modifies this`heap, this`root, this`nextAddr, this`shape, this`size
      ensures Valid() && (Model(), true) == TopDownInsert.Insert(t0, key, value) && size == old(size) + 1
    {
      ghost var goal := TopDownInsert.Insert(t0, key, value);
      InsertCounted(t0, key, value, size);
      size := size + 1;
      ghost var t1 := goal.0;
      assert Ordered(t1) && IsRedBlack(t1) && size == RbSpec.Size(t1);
      ghost var ctx := ValPath(heap, cs);
      var node := HangLeaf(key, value, p, gp, ggp, cs);
      ghost var w := ReorientLeaf(ggp, gp, p, node, cs, ctx, key, value);
      shape := w;
      assert Model() == t1;
    }

    /**
     * Line 74 of red_black_tree.cpp: the new leaf `node` below path `cs`, whose
     * values are `ctx`, is reoriented; the nodes then form one tree `w` under
     * the root again, holding the red leaf hung into `ctx` and reoriented.
     */
    method ReorientLeaf(ggp: Ptr, gp: Ptr, p: Ptr, node: Ptr, ghost cs: seq<Link>, ghost ctx: seq<Frame>,
                        ghost key: int, ghost value: int) returns (ghost w: Shape)
      requires node.At? && LeafHung(heap, root, cs, node.addr, p, gp, ggp, ctx, key, value)
      requires forall a :: a in heap ==> a < nextAddr
      modifies this`heap, this`root
      ensures Formed(heap, root, w, nextAddr) && Val(heap, w) == Whole(TopDownInsert.AttachLeaf(ctx, key, value))
    {
      ghost var h1 := heap;
      ghost var cs', fs' := HandleReorient(ggp, gp, p, node, cs, Br(node.addr, Nil, Nil));
      LeafOutcome(h1, heap, root, cs, node.addr, cs', fs', ctx, key, value, nextAddr);
      w := PlugS(cs', fs');
    }

    /**
     * Lines 65-72 of red_black_tree.cpp: a fresh red node holding the pair hangs
     * on the side of `parent_node` that `key` sorts to, at the null position the
     * search of path `cs` reached; nothing else changes.
     */
    method HangLeaf(key: int, value: int, p: Ptr, gp: Ptr, ggp: Ptr, ghost cs: seq<Link>) returns (node: Ptr)
      requires SlotAt(heap, root, cs, p, gp, ggp, key, value)
      requires forall a :: a in heap ==> a < nextAddr
      modifies this`heap, this`nextAddr
      ensures node.At? && node.addr !in old(heap) && heap.Keys == old(heap).Keys + {node.addr}
      ensures forall a :: a in heap ==> a < nextAddr
      ensures LeafHung(heap, root, cs, node.addr, p, gp, ggp, old(ValPath(heap, cs)), key, value)
    {
      var a := nextAddr;
      nextAddr := nextAddr + 1;
      ghost var h0 := heap;
      heap := heap[a := NodeRec(key, value, Null, Null, Red)];
      ghost var h1 := heap;
      node := At(a);
      if key < heap[p.addr].key {
        heap := heap[p.addr := heap[p.addr].(left := node)];
      } else {
        heap := heap[p.addr := heap[p.addr].(right := node)];
      }
      AttachLeafHeap(h0, h1, heap, cs, a, key, value);
    }

    /**
     * The search of `Insert` (red_black_tree.cpp:44-62) in a non-empty tree: down
     * the path of `key`, every node with two red children is reoriented before
     * the search moves on, and `parent_node`, `grand_parent_node` and
     * `grand_grand_parent_node` trail the current node. It stops on the node
     * holding `key` (`found`, and then the tree is unchanged as a value) or at
     * the null position where `key` belongs, with `TopDownInsert.Insert` of the
     * tree before still the outcome of hanging the leaf there.
     */
    method SearchSlot(key: int, value: int) returns (found: bool, p: Ptr, gp: Ptr, ggp: Ptr, ghost cs: seq<Link>, ghost fs: Shape)
      requires Valid() && root != Null
      modifies this`heap, this`root
      ensures heap.Keys == old(heap).Keys
      ensures found ==> FoundAt(heap, root, PlugS(cs, fs), TopDownInsert.Insert(old(Model()), key, value))
      ensures !found ==> LeafSlot(heap, root, cs, p, gp, ggp, key, value, TopDownInsert.Insert(old(Model()), key, value))
    {
      ghost var goal := TopDownInsert.Insert(Model(), key, value);
      var node;
      node, p, gp, ggp := root, Null, Null, Null;
      cs, fs := [], shape;
      ghost var sync, z := 3, Zip([], Model());
      SearchStart(heap, root, shape, key, value);
      while node != Null
        invariant SearchInv(heap, root, cs, fs, node, p, gp, ggp, sync, z, key, value, goal) && heap.Keys == old(heap).Keys
        decreases TopDownInsert.PathLen(z.focus, key), if TopDownInsert.HasTwoRedChildren(z.focus) then 1 else 0
      {
        TurnStart(heap, root, cs, fs, node, p, gp, ggp, sync, z, key, value, goal);
        var n := heap[node.addr];
        if n.key == key {
          FoundKey(heap, root, cs, fs, p, gp, ggp, sync, z, key, value, goal);
          return true, p, gp, ggp, cs, fs;
        }
        var next;
        ghost var cs1, fs1;
        next, cs1, fs1 := SearchTurn(key, node, p, gp, ggp, cs, fs, sync, z, value, goal);
        ggp, gp, p, node := gp, p, node, next;
        cs, fs, sync, z := cs1, fs1, TopDownInsert.NextSync(z, sync), TopDownInsert.Step(z, key);
      }
      SearchExit(heap, root, cs, fs, p, gp, ggp, sync, z, key, value, goal);
      LeafTurn(z, key, value, sync, goal);
      LeafSlotFound(heap, root, cs, p, gp, ggp, z.ctx, key, value, goal);
      found := false;
    }

    /**
     * One turn of the loop of lines 49-62 for a node whose key is not `key`:
     * a node with two red children is reoriented (lines 54-56), then the
     * search moves to the child on the side `key` sorts to (lines 57-61).
     * On values the turn is `TopDownInsert.Step`, which brings the search
     * closer to its end.
     */
    method SearchTurn(key: int, node: Ptr, p: Ptr, gp: Ptr, ggp: Ptr, ghost cs: seq<Link>, ghost fs: Shape,
                      ghost sync: nat, ghost z: Zip, ghost value: int, ghost goal: (Tree, bool))
      returns (next: Ptr, ghost cs': seq<Link>, ghost fs': Shape)
      requires SearchInv(heap, root, cs, fs, node, p, gp, ggp, sync, z, key, value, goal) && node != Null
      requires z.focus.Node? && z.focus.key != key
      modifies this`heap, this`root
      ensures heap.Keys == old(heap).Keys
      ensures var z' := TopDownInsert.Step(z, key);
        SearchInv(heap, root, cs', fs', next, node, p, gp, TopDownInsert.NextSync(z, sync), z', key, value, goal) &&
        (TopDownInsert.PathLen(z'.focus, key) < TopDownInsert.PathLen(z.focus, key) ||
         (TopDownInsert.PathLen(z'.focus, key) == TopDownInsert.PathLen(z.focus, key) &&
          TopDownInsert.HasTwoRedChildren(z.focus) && !TopDownInsert.HasTwoRedChildren(z'.focus)))
    {
      cs', fs' := ReorientFour(node, p, gp, ggp, cs, fs, sync, z, key, value, goal);
      var toLeft := key < heap[node.addr].key;
      next := if toLeft then heap[node.addr].left else heap[node.addr].right;
      TurnDown(heap, root, cs', fs', node, p, gp, sync, z, key, value, goal, toLeft, next);
      ghost var down := DownS(cs', fs', toLeft);
      cs', fs' := down.0, down.1;
    }

    /**
     * Lines 54-56 of red_black_tree.cpp: a node with two red children is
     * reoriented, any other node is left alone. Either way `node` is still on
     * top of the current subtree, which now denotes the reoriented value
     * state, and the ancestor pointers still match the path as far as the
     * next turn relies on them.
     */
    method ReorientFour(node: Ptr, p: Ptr, gp: Ptr, ggp: Ptr, ghost cs: seq<Link>, ghost fs: Shape,
                        ghost sync: nat, ghost z: Zip, ghost key: int, ghost value: int, ghost goal: (Tree, bool))
      returns (ghost cs': seq<Link>, ghost fs': Shape)
      requires SearchInv(heap, root, cs, fs, node, p, gp, ggp, sync, z, key, value, goal) && node != Null
      requires z.focus.Node? && z.focus.key != key
      modifies this`heap, this`root
      ensures heap.Keys == old(heap).Keys && Turned(heap, root, cs', fs', node, p, gp, sync, z)
    {
      TurnStart(heap, root, cs, fs, node, p, gp, ggp, sync, z, key, value, goal);
      var n := heap[node.addr];
      var four := n.left != Null && n.right != Null && heap[n.left.addr].color == Red && heap[n.right.addr].color == Red;
      if four {
        cs', fs' := ReorientAt(node, p, gp, ggp, cs, fs, sync, z, key);
      } else {
        cs', fs' := cs, fs;
        TurnKeep(heap, root, cs, fs, node, p, gp, ggp, sync, z, key, value, goal);
      }
    }

    /** Line 55 on a node with two red children, with every ancestor pointer fresh. */
    method ReorientAt(node: Ptr, p: Ptr, gp: Ptr, ggp: Ptr, ghost cs: seq<Link>, ghost fs: Shape,
                      ghost sync: nat, ghost z: Zip, ghost key: int)
      returns (ghost cs': seq<Link>, ghost fs': Shape)
      requires Placed(heap, cs, fs) && heap.Keys == PathNodes(cs) + Nodes(fs) && fs.Br? && node == Top(fs)
      requires root == RootOf(cs, fs) && root.At? && ValZip(heap, cs, fs) == z
      requires Synced(cs, sync, p, gp, ggp) && Synced(cs, 3, p, gp, ggp) && TopDownInsert.StaleSafe(z, key, sync)
      requires z.focus.Node? && TopDownInsert.RedParentHasGrandparent(z.ctx) && TopDownInsert.HasTwoRedChildren(z.focus)
      requires KeysAgree(ValPath(heap, cs), Val(heap, fs)) && TopDownInsert.RedParentHasGrandparent(ValPath(heap, cs))
      modifies this`heap, this`root
      ensures heap.Keys == old(heap).Keys && Turned(heap, root, cs', fs', node, p, gp, sync, z)
    {
      ghost var h0, root0 := heap, root;
      cs', fs' := HandleReorient(ggp, gp, p, node, cs, fs);
      TurnMid(h0, root0, cs, fs, heap, root, cs', fs', node, p, gp, ggp, sync, z, key, true);
    }

    /**
     * `HandleRotation(root, sup)` (red_black_tree.cpp:368-386): `sup`, the child of
     * `r` on the side its key sorts to, rises above `r`, and `r` adopts `sup`'s
     * inner child; nothing happens for a null `sup`.
     */
    method HandleRotation(r: Ptr, sup: Ptr)
      requires r.At? && r.addr in heap
      requires sup.At? ==>
        sup != r && sup.addr in heap && sup == (if heap[sup.addr].key < heap[r.addr].key then heap[r.addr].left else heap[r.addr].right)
      modifies this`heap
      ensures sup.Null? ==> heap == old(heap)
      ensures sup.At? ==> heap == Rotated(old(heap), r.addr, sup.addr, old(heap)[sup.addr].key < old(heap)[r.addr].key)
    {
      if sup == Null {
        return;
      }
      var isLeftRotation := heap[sup.addr].key < heap[r.addr].key;
      var newRoot := if isLeftRotation then heap[r.addr].left else heap[r.addr].right;
      if isLeftRotation {
        heap := heap[r.addr := heap[r.addr].(left := heap[newRoot.addr].right)];
        heap := heap[newRoot.addr := heap[newRoot.addr].(right := r)];
      } else {
        heap := heap[r.addr := heap[r.addr].(right := heap[newRoot.addr].left)];
        heap := heap[newRoot.addr := heap[newRoot.addr].(left := r)];
      }
    }

    /**
     * `HandleReconnection(parent, node)` (red_black_tree.cpp:390-399): `node` becomes
     * the child of `parent` on the side its key sorts to, or the root when
     * `parent` is null.
     */
    method HandleReconnection(parent: Ptr, node: Ptr)
      requires node.At? && node.addr in heap && (parent.At? ==> parent.addr in heap)
      modifies this`heap, this`root
      ensures parent.Null? ==> root == node && heap == old(heap)
      ensures parent.At? ==> root == old(root) && heap == Reconnected(old(heap), parent.addr, node.addr)
    {
      if parent != Null {
        if heap[node.addr].key < heap[parent.addr].key {
          heap := heap[parent.addr := heap[parent.addr].(left := node)];
        } else {
          heap := heap[parent.addr := heap[parent.addr].(right := node)];
        }
      } else {
        root := node;
      }
    }

    /** Lines 334-339 of red_black_tree.cpp: the children of `node`, where present, turn black. */
    method BlackenChildren(node: Ptr, ghost fs: Shape)
      requires fs.Br? && node == At(fs.addr) && Linked(heap, fs)
      modifies this`heap
      ensures heap == ChildrenBlackened(old(heap), fs)
    {
      var x := node.addr;
      if heap[x].left != Null {
        heap := Painted(heap, heap[x].left.addr, Black);
      }
      if heap[x].right != Null {
        heap := Painted(heap, heap[x].right.addr, Black);
      }
    }

    /**
     * `HandleReorient(ggp, gp, p, node)` (red_black_tree.cpp:331-364) on the node
     * `node` heading `fs` under the path `cs`: its children turn black; below the
     * root it turns red and, under a red parent, the grandparent turns red and a
     * single or double rotation lifts the parent or the node, painted black. The
     * nodes then denote `TopDownInsert.Reorient` of the descent state before, the
     * node still heads the current subtree, and `parent_node` still names its
     * parent unless the rotation was a double one.
     */
    method HandleReorient(ggp: Ptr, gp: Ptr, p: Ptr, node: Ptr, ghost cs: seq<Link>, ghost fs: Shape)
      returns (ghost cs': seq<Link>, ghost fs': Shape)
      requires Placed(heap, cs, fs) && fs.Br? && node == Top(fs) && root == RootOf(cs, fs) && Synced(cs, 3, p, gp, ggp)
      requires KeysAgree(ValPath(heap, cs), Val(heap, fs)) && TopDownInsert.RedParentHasGrandparent(ValPath(heap, cs))
      modifies this`heap, this`root
      ensures Placed(heap, cs', fs') && Top(fs') == node && root == RootOf(cs', fs') && heap.Keys == old(heap).Keys
      ensures PathNodes(cs') + Nodes(fs') == PathNodes(cs) + Nodes(fs)
      ensures Val(old(heap), fs).Node? && ValZip(heap, cs', fs') == TopDownInsert.Reorient(ValZip(old(heap), cs, fs))
      ensures var z, n := ValZip(old(heap), cs, fs), |cs|;
        (n == 0 || z.ctx[n - 1].color != Red ==> cs' == cs) &&
        (n >= 1 && z.ctx[n - 1].color == Red && (z.ctx[n - 1].key < z.ctx[n - 2].key) == (z.focus.key < z.ctx[n - 1].key) ==> Anc(cs', 1) == p)
    {
      ghost var h0 := heap;
      var x := node.addr;
      BlackenChildren(node, fs);
      FlipSteps(h0, heap, cs, fs);
      cs', fs' := cs, fs;
      if node == root {
        if cs != [] {
          LinkedPathDisjoint(h0, cs, Top(fs), Nodes(fs));
          FirstInPath(cs);
        }
        return;
      }
      heap := Painted(heap, x, Red);
      cs', fs' := RebalanceAt(ggp, gp, p, node, cs, fs);
    }

    /**
     * Lines 345-363 of `HandleReorient`, for a red node under a non-empty path:
     * under a red parent the grandparent turns red, and the parent (single
     * rotation) or the node (double rotation, the sides differing) rises and
     * turns black. The nodes then denote `TopDownInsert.Rebalance`.
     */
    method RebalanceAt(ggp: Ptr, gp: Ptr, p: Ptr, node: Ptr, ghost cs: seq<Link>, ghost fs: Shape)
      returns (ghost cs': seq<Link>, ghost fs': Shape)
      requires Placed(heap, cs, fs) && fs.Br? && node == Top(fs) && root == RootOf(cs, fs) && Synced(cs, 3, p, gp, ggp)
      requires HeapKeysAgree(heap, cs, fs) && cs != [] && TopDownInsert.RedParentHasGrandparent(ValPath(heap, cs))
      modifies this`heap, this`root
      ensures Placed(heap, cs', fs') && Top(fs') == node && root == RootOf(cs', fs') && heap.Keys == old(heap).Keys
      ensures PathNodes(cs') + Nodes(fs') == PathNodes(cs) + Nodes(fs)
      ensures Val(old(heap), fs).Node? && ValZip(heap, cs', fs') == TopDownInsert.Rebalance(ValPath(old(heap), cs), Val(old(heap), fs))
      ensures var ctx, n := ValPath(old(heap), cs), |cs|;
        (ctx[n - 1].color != Red ==> cs' == cs) &&
        (ctx[n - 1].color == Red && (ctx[n - 1].key < ctx[n - 2].key) == (Val(old(heap), fs).key < ctx[n - 1].key) ==> Anc(cs', 1) == p)
    {
      ghost var h2 := heap;
      var x := node.addr;
      var n := |cs|;
      ValPathIndex(h2, cs, n - 1);
      cs', fs' := cs, fs;
      PathPointers(h2, cs, fs);
      if heap[p.addr].color == Red {
        ValPathIndex(h2, cs, n - 2);
        heap := Painted(heap, gp.addr, Red);
        if (heap[p.addr].key < heap[gp.addr].key) != (heap[x].key < heap[p.addr].key) {
          cs', fs' := DoubleRotate(ggp, gp, p, node, cs, fs, h2);
        } else {
          cs' := SingleRotate(ggp, gp, p, cs, fs, h2);
        }
      } else {
        LinkedNodes(h2, fs);
      }
    }

    /**
     * Lines 359-362 when `is_unique_rotate` holds (the parent sorts to the same
     * side of the grandparent as the node to the parent): the parent rises
     * above the grandparent, is hung under the great-grandparent or becomes
     * the root, and turns black. `h` is the memory before line 347 painted the
     * grandparent red.
     */
    method SingleRotate(ggp: Ptr, gp: Ptr, p: Ptr, ghost cs: seq<Link>, ghost fs: Shape, ghost h: Heap)
      returns (ghost cs': seq<Link>)
      requires |cs| >= 2 && fs.Br? && Placed(h, cs, fs) && HeapKeysAgree(h, cs, fs) && root == RootOf(cs, fs)
      requires Synced(cs, 3, p, gp, ggp) && cs[|cs| - 2].toLeft == cs[|cs| - 1].toLeft
      requires p.addr in h && h[p.addr].color == Red && gp.addr in h && heap == Painted(h, gp.addr, Red)
      modifies this`heap, this`root
      ensures cs' == SinglePath(cs) && Placed(heap, cs', fs) && root == RootOf(cs', fs) && heap.Keys == h.Keys
      ensures PathNodes(cs') + Nodes(fs) == PathNodes(cs) + Nodes(fs) && Anc(cs', 1) == p
      ensures Val(h, fs).Node? && ValZip(heap, cs', fs) == TopDownInsert.Rebalance(ValPath(h, cs), Val(h, fs))
    {
      var n := |cs|;
      PathPointers(h, cs, fs);
      ghost var hA := heap;
      HandleRotation(gp, p);
      ghost var hE := heap;
      HandleReconnection(ggp, p);
      ghost var hF := heap;
      heap := Painted(heap, p.addr, Black);
      SingleSteps(h, hA, hE, hF, heap, cs, fs);
      cs' := SinglePath(cs);
    }

    /**
     * Lines 353-362 when `is_unique_rotate` fails (the sides differ): the node
     * rises above the parent and then above the grandparent, is hung under
     * the great-grandparent or becomes the root, and turns black. `h` is the
     * memory before line 347 painted the grandparent red.
     */
    method DoubleRotate(ggp: Ptr, gp: Ptr, p: Ptr, node: Ptr, ghost cs: seq<Link>, ghost fs: Shape, ghost h: Heap)
      returns (ghost cs': seq<Link>, ghost fs': Shape)
      requires |cs| >= 2 && fs.Br? && Placed(h, cs, fs) && HeapKeysAgree(h, cs, fs) && root == RootOf(cs, fs)
      requires Synced(cs, 3, p, gp, ggp) && node == At(fs.addr) && cs[|cs| - 2].toLeft != cs[|cs| - 1].toLeft
      requires p.addr in h && h[p.addr].color == Red && gp.addr in h && heap == Painted(h, gp.addr, Red)
      modifies this`heap, this`root
      ensures cs' == cs[..|cs| - 2] && fs' == DoubleShape(cs, fs) && Top(fs') == node
      ensures Placed(heap, cs', fs') && root == RootOf(cs', fs') && heap.Keys == h.Keys
      ensures PathNodes(cs') + Nodes(fs') == PathNodes(cs) + Nodes(fs)
      ensures Val(h, fs).Node? && ValZip(heap, cs', fs') == TopDownInsert.Rebalance(ValPath(h, cs), Val(h, fs))
    {
      var n := |cs|;
      PathPointers(h, cs, fs);
      ghost var hA := heap;
      HandleRotation(p, node);
      ghost var hB := heap;
      HandleReconnection(gp, node);
      ghost var hC := heap;
      HandleRotation(gp, node);
      ghost var hE := heap;
      HandleReconnection(ggp, node);
      ghost var hF := heap;
      heap := Painted(heap, node.addr, Black);
      DoubleSteps(h, hA, hB, hC, hE, hF, heap, cs, fs);
      cs', fs' := cs[..n - 2], DoubleShape(cs, fs);
    }

    /**
     * `Erase(key)` (red_black_tree.cpp:81-192) on a non-empty tree, as the
     * code evidently intends: after a rotation towards a red sibling the
     * grandparent pointer is refreshed to the risen sibling, and line 123
     * tells the node's side by its position under the parent. The root turns
     * red, the walk down makes every black node red before leaving it, and
     * the red leaf holding `key` is unlinked. The nodes then hold
     * `TopDownErase.Erase` of the tree before: `key` is gone, every other pair
     * stays, the red-black rules hold, and `size` counts the pairs.
     */
    method Erase(key: int) returns (erased: bool)
      requires Valid() && root != Null
      modifies this
      ensures Valid()
      ensures (Model(), erased) == TopDownErase.Erase(old(Model()), key)
      ensures erased <==> key in old(Content(Model()))
      ensures Content(Model()) == old(Content(Model())) - {key}
      ensures size == old(size) - if erased then 1 else 0
    {
      ghost var t0 := Model();
      DescentStart(heap, root, shape, nextAddr);
      EraseStart(t0, key);
      ghost var h0 := heap;
      heap := Painted(heap, root.addr, Red);
      var found, node, p;
      ghost var cs, fs, z;
      found, node, p, cs, fs, z := Walk(key, shape, Content(t0), TopDownErase.Erase(t0, key));
      KeysBelow(h0, heap, nextAddr);
      erased := Unwind(found, node, p, cs, fs, z, key, t0);
    }

    /**
     * Lines 160-191 after the walk: the red leaf holding `key` is unlinked
     * and deleted (`found`), or else the walk fell off the tree; either way
     * the root ends black (line 190) and the nodes hold the outcome of
     * `TopDownErase.Erase` on the tree `t0` the call started from.
     */
    method Unwind(found: bool, node: Ptr, p: Ptr, ghost cs: seq<Link>, ghost fs: Shape, ghost z: Zip, ghost key: int, ghost t0: Tree)
      returns (erased: bool)
      requires Descent(heap, root, cs, fs, node, p, Anc(cs, 2)) && ValZip(heap, cs, fs) == z && forall a :: a in heap ==> a < nextAddr
      requires t0.Node? && Ordered(t0) && IsRedBlack(t0) && size == RbSpec.Size(t0)
      requires found ==> fs.Br? && fs.left.Nil? && fs.right.Nil? && TopDownErase.Erase(t0, key) == (Blacken(Plug(z.ctx, Empty)), true)
      requires !found ==> fs.Nil? && TopDownErase.Erase(t0, key) == (Blacken(Whole(z)), false)
      modifies this`heap, this`root, this`shape, this`size
      ensures Valid() && (Model(), erased) == TopDownErase.Erase(t0, key)
      ensures (erased <==> key in Content(t0)) && Content(Model()) == Content(t0) - {key}
      ensures size == old(size) - if erased then 1 else 0
    {
      EraseCorrect(t0, key);
      EraseCounted(t0, key);
      if found {
        DeleteLeaf(node, p, cs, fs);
        return true;
      }
      RootBlackened(heap, cs, fs);
      heap := Painted(heap, root.addr, Black);
      shape := PlugS(cs, fs);
      return false;
    }

    /**
     * The walk of lines 99-191 from the root painted red down to either the
     * red leaf holding `key` (`found`) or an empty position. Every turn first
     * makes the current node red or gives it a red child, then steps down;
     * on values each turn is one step of `Loop`, whose outcome `goal` stays
     * the same throughout.
     */
    method Walk(key: int, ghost s: Shape, ghost c0: map<int, int>, ghost goal: (Tree, bool))
      returns (found: bool, node: Ptr, p: Ptr, ghost cs: seq<Link>, ghost fs: Shape, ghost z: Zip)
      requires Descent(heap, root, [], s, root, Null, Null)
      requires EraseInv(ValZip(heap, [], s), key, Search, c0) && Loop(ValZip(heap, [], s), key, false, Corrected) == goal
      modifies this`heap, this`root
      ensures Descent(heap, root, cs, fs, node, p, Anc(cs, 2)) && heap.Keys == old(heap).Keys && ValZip(heap, cs, fs) == z
      ensures found ==> fs.Br? && fs.left.Nil? && fs.right.Nil? && z.focus.key == key && z.focus.left.Empty? && z.focus.right.Empty? && goal == (Blacken(Plug(z.ctx, Empty)), true)
      ensures !found ==> fs.Nil? && goal == (Blacken(Whole(z)), false)
    {
      var gp := Null;
      node, p := root, Null;
      ghost var mode := Search;
      cs, fs, z := [], s, ValZip(heap, [], s);
      while node != Null
        invariant Descent(heap, root, cs, fs, node, p, gp) && heap.Keys == old(heap).Keys
        invariant ValZip(heap, cs, fs) == z && EraseInv(z, key, mode, c0) && Loop(z, key, false, Corrected) == goal
        decreases Height(z.focus), SiblingSize(z.ctx)
      {
        SiblingSidesHold(z, key, mode, c0);
        var rotated;
        ghost var cs1;
        rotated, gp, cs1 := MakeRedTurn(node, p, gp, cs, fs);
        if rotated {
          StepRedSibling(z, key, mode, c0);
          cs, z := cs1, RotateRedSibling(z, false);
          continue;
        }
        StepMakeRed(z, key, mode, c0);
        cs, z := cs1, MakeRed(z, false, Corrected);
        TopRead(heap, fs);
        if heap[node.addr].key == key && heap[node.addr].left == Null && heap[node.addr].right == Null {
          return true, node, p, cs, fs, z;
        }
        var child;
        child, cs, fs := Descend(key, node, p, cs, fs, z);
        gp, p, node := p, node, child;
        mode, z := NextMode(z.focus, key, mode), Advance(z, key);
      }
      found := false;
    }

    /**
     * Lines 102-150 (corrected) for the current node `node` under the path
     * `cs`: a black node under a red sibling is rotated below it (`rotated`,
     * and the caller starts the turn again with `grand_parent_node` the risen
     * sibling); otherwise a black node with black children borrows from a
     * sibling with a red child or flips colours with its parent and sibling.
     * On values these are `RotateRedSibling` and `MakeRed`.
     */
    method MakeRedTurn(node: Ptr, p: Ptr, gp: Ptr, ghost cs: seq<Link>, ghost fs: Shape)
      returns (rotated: bool, gp': Ptr, ghost cs': seq<Link>)
      requires Descent(heap, root, cs, fs, node, p, gp) && fs.Br?
      requires SiblingSides(ValPath(heap, cs)) && (IsBlackNode(Val(heap, fs)) ==> cs != [])
      modifies this`heap, this`root
      ensures Descent(heap, root, cs', fs, node, p, Anc(cs', 2)) && heap.Keys == old(heap).Keys
      ensures var z := old(ValZip(heap, cs, fs));
        if rotated then
          IsBlackNode(z.focus) && IsRed(z.ctx[|cs| - 1].other) && gp' == Anc(cs', 2) && ValZip(heap, cs', fs) == RotateRedSibling(z, false)
        else
          (IsBlackNode(z.focus) ==> !IsRed(z.ctx[|cs| - 1].other)) && ValZip(heap, cs', fs) == MakeRed(z, false, Corrected)
    {
      cs', gp', rotated := cs, gp, false;
      ghost var z := ValZip(heap, cs, fs);
      TopRead(heap, fs);
      if heap[node.addr].color == Black {
        SiblingRead(heap, cs, fs);
        var s := if p == Null then Null else if heap[p.addr].left == node then heap[p.addr].right else heap[p.addr].left;
        if RedAt(heap, s) {
          cs' := RedSiblingTurn(p, gp, s, cs, fs);
          return true, s, cs';
        }
        var x := heap[node.addr];
        if !RedAt(heap, x.left) && !RedAt(heap, x.right) {
          if s != Null && (RedAt(heap, heap[s.addr].left) || RedAt(heap, heap[s.addr].right)) {
            assert MakeRed(z, false, Corrected) == Borrow(z, false, Corrected);
            cs' := BorrowTurn(node, p, gp, s, cs, fs);
          } else {
            assert MakeRed(z, false, Corrected) == Flip(z);
            FlipTurn(node, p, s, cs, fs);
          }
        } else {
          assert MakeRed(z, false, Corrected) == z;
        }
      } else {
        assert MakeRed(z, false, Corrected) == z;
      }
    }

    /**
     * Lines 105-112 (corrected): the red sibling `s` rises above the parent
     * `p`, is hung under `grand_parent_node` or becomes the root, and turns
     * black; the parent turns red. The node keeps its parent, now under the
     * sibling.
     */
    method RedSiblingTurn(p: Ptr, gp: Ptr, s: Ptr, ghost cs: seq<Link>, ghost fs: Shape) returns (ghost cs': seq<Link>)
      requires Placed(heap, cs, fs) && cs != [] && fs.Br? && root == RootOf(cs, fs) && p == Anc(cs, 1) && gp == Anc(cs, 2)
      requires cs[|cs| - 1].other.Br? && s == At(cs[|cs| - 1].other.addr) && SiblingSides(ValPath(heap, cs))
      modifies this`heap, this`root
      ensures cs' == RisePath(cs) && Placed(heap, cs', fs) && heap.Keys == old(heap).Keys
      ensures PathNodes(cs') + Nodes(fs) == PathNodes(cs) + Nodes(fs)
      ensures root == RootOf(cs', fs) && Anc(cs', 1) == p && Anc(cs', 2) == s
      ensures old(ValPath(heap, cs))[|cs| - 1].other.Node?
      ensures ValZip(heap, cs', fs) == RotateRedSibling(old(ValZip(heap, cs, fs)), false)
    {
      ghost var h := heap;
      SiblingHeapKeys(heap, cs, fs);
      SiblingRead(heap, cs, fs);
      HandleRotation(p, s);
      ghost var hA := heap;
      HandleReconnection(gp, s);
      ghost var hB := heap;
      heap := Painted(heap, s.addr, Black);
      ghost var hC := heap;
      heap := Painted(heap, p.addr, Red);
      RiseHeapIs(h, hA, hB, cs, fs);
      RedSiblingSteps(h, hB, hC, heap, cs, fs);
      cs' := RisePath(cs);
    }

    /**
     * Lines 117-139 (corrected): the sibling `s` has a red child; that child
     * (the left one when it is red) decides between the double rotation,
     * when it lies on the node's side, and the single one.
     */
    method BorrowTurn(node: Ptr, p: Ptr, gp: Ptr, s: Ptr, ghost cs: seq<Link>, ghost fs: Shape) returns (ghost cs': seq<Link>)
      requires Placed(heap, cs, fs) && cs != [] && fs.Br? && node == At(fs.addr) && root == RootOf(cs, fs)
      requires p == Anc(cs, 1) && gp == Anc(cs, 2) && SiblingSides(ValPath(heap, cs))
      requires cs[|cs| - 1].other.Br? && s == At(cs[|cs| - 1].other.addr)
      requires var sv := ValPath(heap, cs)[|cs| - 1].other; sv.Node? && (IsRed(sv.left) || IsRed(sv.right))
      modifies this`heap, this`root
      ensures Placed(heap, cs', fs) && heap.Keys == old(heap).Keys && PathNodes(cs') + Nodes(fs) == PathNodes(cs) + Nodes(fs)
      ensures root == RootOf(cs', fs) && Anc(cs', 1) == p
      ensures var z := old(ValZip(heap, cs, fs));
        var sv := z.ctx[|cs| - 1].other;
        z.focus.Node? && sv.Node? && (IsRed(sv.left) || IsRed(sv.right)) && ValZip(heap, cs', fs) == Borrow(z, false, Corrected)
    {
      SiblingHeapKeys(heap, cs, fs);
      SiblingRead(heap, cs, fs);
      TopRead(heap, fs);
      var rc := if !RedAt(heap, heap[s.addr].left) then heap[s.addr].right else heap[s.addr].left;
      if (heap[p.addr].left == node) == (heap[rc.addr].key < heap[s.addr].key) {
        cs' := BorrowDouble(node, p, gp, s, rc, cs, fs);
      } else {
        cs' := BorrowSingle(node, p, gp, s, rc, cs, fs);
      }
    }

    /**
     * Lines 129-139 when `is_unique_rotate` holds: the sibling rises above the
     * parent, the node and the sibling turn red, the parent and the sibling's
     * red child black.
     */
    method BorrowSingle(node: Ptr, p: Ptr, gp: Ptr, s: Ptr, rc: Ptr, ghost cs: seq<Link>, ghost fs: Shape) returns (ghost cs': seq<Link>)
      requires Placed(heap, cs, fs) && cs != [] && fs.Br? && node == At(fs.addr) && root == RootOf(cs, fs)
      requires p == Anc(cs, 1) && gp == Anc(cs, 2)
      requires var pl := cs[|cs| - 1];
        var S, d := pl.other, pl.toLeft;
        S.Br? && ChildS(S, !d).Br? && s == At(S.addr) && rc == At(ChildS(S, !d).addr) &&
        SibKeys(heap, cs, S.addr) && KeySide(heap, rc.addr, S.addr, !d) && heap[rc.addr].color == Red &&
        (IsRed(Val(heap, S).left) <==> !d)
      modifies this`heap, this`root
      ensures Placed(heap, cs', fs) && heap.Keys == old(heap).Keys && PathNodes(cs') + Nodes(fs) == PathNodes(cs) + Nodes(fs)
      ensures root == RootOf(cs', fs) && Anc(cs', 1) == p
      ensures var z := old(ValZip(heap, cs, fs));
        var sv := z.ctx[|cs| - 1].other;
        z.focus.Node? && sv.Node? && (IsRed(sv.left) || IsRed(sv.right)) && ValZip(heap, cs', fs) == Borrow(z, false, Corrected)
    {
      ghost var h := heap;
      SiblingRead(heap, cs, fs);
      HandleRotation(p, s);
      ghost var hA := heap;
      HandleReconnection(gp, s);
      ghost var hB := heap;
      heap := Painted(heap, node.addr, Red);
      ghost var hC := heap;
      heap := Painted(heap, p.addr, Black);
      ghost var hD := heap;
      heap := Painted(heap, s.addr, Red);
      ghost var hE := heap;
      heap := Painted(heap, rc.addr, Black);
      RiseHeapIs(h, hA, hB, cs, fs);
      BorrowSingleSteps(h, hB, hC, hD, hE, heap, cs, fs);
      cs' := RisePath(cs);
    }

    /**
     * Lines 123-135 when `is_unique_rotate` fails: the sibling's red child
     * rises above the sibling and then above the parent; the node turns red
     * and the parent black.
     */
    method BorrowDouble(node: Ptr, p: Ptr, gp: Ptr, s: Ptr, rc: Ptr, ghost cs: seq<Link>, ghost fs: Shape) returns (ghost cs': seq<Link>)
      requires Placed(heap, cs, fs) && cs != [] && fs.Br? && node == At(fs.addr) && root == RootOf(cs, fs)
      requires p == Anc(cs, 1) && gp == Anc(cs, 2) && DoubleKeys(heap, cs)
      requires var pl := cs[|cs| - 1];
        var S, d := pl.other, pl.toLeft;
        s == At(S.addr) && rc == At(ChildS(S, d).addr) && (IsRed(Val(heap, S).left) <==> d)
      modifies this`heap, this`root
      ensures Placed(heap, cs', fs) && heap.Keys == old(heap).Keys && PathNodes(cs') + Nodes(fs) == PathNodes(cs) + Nodes(fs)
      ensures root == RootOf(cs', fs) && Anc(cs', 1) == p
      ensures var z := old(ValZip(heap, cs, fs));
        var sv := z.ctx[|cs| - 1].other;
        z.focus.Node? && sv.Node? && (IsRed(sv.left) || IsRed(sv.right)) && ValZip(heap, cs', fs) == Borrow(z, false, Corrected)
    {
      ghost var h := heap;
      ghost var n, d := |cs|, cs[|cs| - 1].toLeft;
      SiblingRead(heap, cs, fs);
      SiblingLinked(heap, cs, fs);
      HandleRotation(s, rc);
      ghost var hA := heap;
      HandleReconnection(p, rc);
      ghost var hI := heap;
      HandleRotation(p, rc);
      ghost var hQ := heap;
      HandleReconnection(gp, rc);
      ghost var hR := heap;
      heap := Painted(heap, node.addr, Red);
      ghost var hC := heap;
      heap := Painted(heap, p.addr, Black);
      ghost var cs1 := InnerPath(cs, d);
      RiseHeapIs(hI, hQ, hR, cs1, fs);
      BorrowDoubleSteps(h, hI, hR, hC, heap, cs, fs);
      cs' := RisePath(cs1);
    }

    /** Lines 140-147: the parent turns black, the node red, and the sibling, if any, red. */
    method FlipTurn(node: Ptr, p: Ptr, s: Ptr, ghost cs: seq<Link>, ghost fs: Shape)
      requires Placed(heap, cs, fs) && cs != [] && fs.Br? && node == At(fs.addr) && p == Anc(cs, 1)
      requires s == Top(cs[|cs| - 1].other)
      modifies this`heap
      ensures Placed(heap, cs, fs) && heap.Keys == old(heap).Keys
      ensures Val(old(heap), fs).Node? && ValZip(heap, cs, fs) == Flip(old(ValZip(heap, cs, fs)))
    {
      ghost var h := heap;
      SiblingLinked(heap, cs, fs);
      heap := Painted(heap, p.addr, Black);
      ghost var hA := heap;
      heap := Painted(heap, node.addr, Red);
      ghost var hB := heap;
      if s != Null {
        heap := Painted(heap, s.addr, Red);
      }
      FlipColorSteps(h, hA, hB, heap, cs, fs);
    }

    /**
     * Lines 176-189 at a node that is not the leaf holding `key`: a node
     * holding `key` first trades its pair with its successor or predecessor,
     * then the walk steps to the child on the side of `key` (of the displaced
     * key after a swap). The nodes then denote `Advance` of the state before.
     */
    method Descend(key: int, node: Ptr, p: Ptr, ghost cs: seq<Link>, ghost fs: Shape, ghost z: Zip)
      returns (child: Ptr, ghost cs': seq<Link>, ghost fs': Shape)
      requires Descent(heap, root, cs, fs, node, p, Anc(cs, 2)) && fs.Br? && ValZip(heap, cs, fs) == z
      requires !(z.focus.key == key && z.focus.left.Empty? && z.focus.right.Empty?)
      modifies this`heap
      ensures Descent(heap, root, cs', fs', child, node, p) && heap.Keys == old(heap).Keys
      ensures z.focus.Node? && ValZip(heap, cs', fs') == Advance(z, key)
    {
      TopRead(heap, fs);
      var replaced := heap[node.addr].key == key;
      if replaced {
        SwapWithNeighbour(node, cs, fs);
      }
      TopRead(heap, fs);
      var toLeft := (key < heap[node.addr].key) != replaced;
      DescentDown(heap, root, cs, fs, p, Anc(cs, 2), toLeft);
      child := if toLeft then heap[node.addr].left else heap[node.addr].right;
      cs', fs' := DownS(cs, fs, toLeft).0, DownS(cs, fs, toLeft).1;
    }

    /**
     * Lines 153-172: the leaf `node` holding the key is unlinked from its
     * parent (or the root cleared), deleted and uncounted, and the root, if
     * any, turns black. The nodes then form the tree of the path closed over
     * the empty position, root blackened.
     */
    method DeleteLeaf(node: Ptr, p: Ptr, ghost cs: seq<Link>, ghost fs: Shape)
      requires Placed(heap, cs, fs) && heap.Keys == PathNodes(cs) + Nodes(fs) && fs.Br? && fs.left.Nil? && fs.right.Nil?
      requires node == At(fs.addr) && root == RootOf(cs, fs) && p == Anc(cs, 1) && size > 0
      requires forall a :: a in heap ==> a < nextAddr
      modifies this`heap, this`root, this`shape, this`size
      ensures Wellformed() && size == old(size) - 1
      ensures Model() == Blacken(Plug(old(ValPath(heap, cs)), Empty))
    {
      ghost var h := heap;
      if p != Null {
        LeafCut(heap, cs, fs);
        if heap[p.addr].left == node {
          heap := heap[p.addr := heap[p.addr].(left := Null)];
        } else {
          heap := heap[p.addr := heap[p.addr].(right := Null)];
        }
      } else {
        root := Null;
      }
      heap := heap - {node.addr};
      size := size - 1;
      ghost var hCut := heap;
      if root != Null {
        RootBlackened(heap, cs, Nil);
        heap := Painted(heap, root.addr, Black);
        shape := PlugS(cs, Nil);
      } else {
        assert heap == map[];
        shape := Nil;
      }
      KeysBelow(h, heap, nextAddr);
    }

    /**
     * Lines 176-181: the found internal node `node` trades its pair with its
     * successor (the leftmost node of its right subtree) or, without a right
     * child, its predecessor; the current subtree then denotes `Swap` of its
     * value and nothing else changes.
     */
    method SwapWithNeighbour(node: Ptr, ghost cs: seq<Link>, ghost fs: Shape)
      requires Placed(heap, cs, fs) && fs.Br? && node == At(fs.addr) && !(fs.left.Nil? && fs.right.Nil?)
      modifies this`heap
      ensures Placed(heap, cs, fs) && heap.Keys == old(heap).Keys
      ensures var x := old(Val(heap, fs));
        x.Node? && !(x.left.Empty? && x.right.Empty?) && ValZip(heap, cs, fs) == Zip(old(ValPath(heap, cs)), Swap(x))
    {
      SwapSteps(heap, cs, fs);
      LinkedNodes(heap, fs);
      var x := heap[node.addr];
      var replace: Ptr;
      if x.right != Null {
        replace := FindMinLeaf(x.right, fs.right);
      } else {
        replace := FindMaxLeaf(x.left, fs.left);
      }
      SwapPairs(node.addr, replace.addr);
    }

    /** `find_min_leaf_node` (lines 83-88): from the top `r` of subtree `s`, the left pointers lead to the node holding the least pair. */
    method FindMinLeaf(r: Ptr, ghost s: Shape) returns (m: Ptr)
      requires s.Br? && r == Top(s) && Linked(heap, s)
      ensures m == At(Leftmost(s)) && m.addr in heap && heap[m.addr].left == Null
      ensures Val(heap, s).Node? && Entry(heap[m.addr].key, heap[m.addr].value) == MinEntry(Val(heap, s))
    {
      LeftmostVal(heap, s, Entry(0, 0));
      m := r;
      ghost var t := s;
      while heap[m.addr].left != Null
        invariant t.Br? && m == At(t.addr) && Linked(heap, t) && Leftmost(t) == Leftmost(s)
        decreases t
      {
        m := heap[m.addr].left;
        t := t.left;
      }
    }

    /** `find_max_leaf_node` (lines 89-94): from the top `r` of subtree `s`, the right pointers lead to the node holding the greatest pair. */
    method FindMaxLeaf(r: Ptr, ghost s: Shape) returns (m: Ptr)
      requires s.Br? && r == Top(s) && Linked(heap, s)
      ensures m == At(Rightmost(s)) && m.addr in heap && heap[m.addr].right == Null
      ensures Val(heap, s).Node? && Entry(heap[m.addr].key, heap[m.addr].value) == MaxEntry(Val(heap, s))
    {
      RightmostVal(heap, s, Entry(0, 0));
      m := r;
      ghost var t := s;
      while heap[m.addr].right != Null
        invariant t.Br? && m == At(t.addr) && Linked(heap, t) && Rightmost(t) == Rightmost(s)
        decreases t
      {
        m := heap[m.addr].right;
        t := t.right;
      }
    }

    /** Lines 179-180: `std::swap` of the keys of the nodes at `a` and `b`, then of their values. */
    method SwapPairs(a: nat, b: nat)
      requires a in heap && b in heap
      modifies this`heap
      ensures heap == Swapped(old(heap), a, b)
    {
      var k := heap[a].key;
      heap := heap[a := heap[a].(key := heap[b].key)];
      heap := heap[b := heap[b].(key := k)];
      var v := heap[a].value;
      heap := heap[a := heap[a].(value := heap[b].value)];
      heap := heap[b := heap[b].(value := v)];
    }
  }

  /** The nodes of `h` form one tree `s` under `root`, and every address in use is below `bound`. */
  ghost predicate Formed(h: Heap, root: Ptr, s: Shape, bound: nat)
  {
    Linked(h, s) && h.Keys == Nodes(s) && root == Top(s) && forall a :: a in h ==> a < bound
  }

  /** Line 65: `size_` grows by one exactly when Insert stores a new key, so it keeps counting the stored pairs. */
  lemma InsertCounted(t: Tree, key: int, value: int, n: nat)
    requires Ordered(t) && IsRedBlack(t) && n == RbSpec.Size(t)
    ensures n + (if TopDownInsert.Insert(t, key, value).1 then 1 else 0) == RbSpec.Size(TopDownInsert.Insert(t, key, value).0)
  {
    SizeContent(t);
    SizeContent(TopDownInsert.Insert(t, key, value).0);
  }

  /** Relinking or deleting nodes allocates nothing: every address stays below `bound`. */
  lemma KeysBelow(h: Heap, h': Heap, bound: nat)
    requires h'.Keys <= h.Keys && forall a :: a in h ==> a < bound
    ensures forall a :: a in h' ==> a < bound
  {
    forall a | a in h'
      ensures a < bound
    {
      assert a in h.Keys;
    }
  }

  /** Line 74 read on values: the hung leaf reoriented leaves the nodes forming the whole tree of the leaf hung into `ctx` and reoriented. */
  lemma LeafOutcome(h1: Heap, h2: Heap, root2: Ptr, cs: seq<Link>, a: nat, cs': seq<Link>, fs': Shape,
                    ctx: seq<Frame>, key: int, value: int, bound: nat)
    requires ctx != [] && TopDownInsert.RedParentHasGrandparent(ctx)
    requires Placed(h1, cs, Br(a, Nil, Nil)) && h1.Keys == PathNodes(cs) + {a}
    requires ValZip(h1, cs, Br(a, Nil, Nil)) == Zip(ctx, Node(Red, Empty, key, value, Empty))
    requires Placed(h2, cs', fs') && root2 == RootOf(cs', fs') && h2.Keys == h1.Keys
    requires PathNodes(cs') + Nodes(fs') == PathNodes(cs) + Nodes(Br(a, Nil, Nil))
    requires ValZip(h2, cs', fs') == TopDownInsert.Reorient(ValZip(h1, cs, Br(a, Nil, Nil)))
    requires forall b :: b in h1 ==> b < bound
    ensures Formed(h2, root2, PlugS(cs', fs'), bound) && Val(h2, PlugS(cs', fs')) == Whole(TopDownInsert.AttachLeaf(ctx, key, value))
  {
    PlugSWhole(h2, cs', fs');
    KeysBelow(h1, h2, bound);
  }


  /**
   * Erase's loop state (red_black_tree.cpp:99): the nodes under the path `cs`
   * and the subtree `fs` are all the tree's nodes; `node` tops the subtree
   * (null at an empty position below a non-empty path), and `parent_node` and
   * `grand_parent_node` are its two nearest ancestors.
   */
  ghost predicate Descent(h: Heap, root: Ptr, cs: seq<Link>, fs: Shape, node: Ptr, p: Ptr, gp: Ptr)
  {
    Placed(h, cs, fs) && h.Keys == PathNodes(cs) + Nodes(fs) && node == Top(fs) && root == RootOf(cs, fs) &&
    (cs == [] ==> fs.Br?) && p == Anc(cs, 1) && gp == Anc(cs, 2)
  }

  /** Lines 184-189: stepping to a child keeps `Descent`, the node becoming the parent and the parent the grandparent. */
  lemma DescentDown(h: Heap, root: Ptr, cs: seq<Link>, fs: Shape, p: Ptr, gp: Ptr, toLeft: bool)
    requires fs.Br? && Descent(h, root, cs, fs, At(fs.addr), p, gp)
    ensures fs.addr in h
    ensures var d := DownS(cs, fs, toLeft);
      Descent(h, root, d.0, d.1, if toLeft then h[fs.addr].left else h[fs.addr].right, At(fs.addr), p) &&
      ValZip(h, d.0, d.1) == Zip(ValPath(h, cs) + [FrameOf(Val(h, fs), toLeft)], Child(Val(h, fs), toLeft))
  {
    DownLinked(h, cs, fs, toLeft);
    DownVal(h, cs, fs, toLeft);
  }

  /** Lines 96-100: with the root painted red the walk starts at the root, with no ancestors, in the tree with a red root. */
  lemma DescentStart(h: Heap, root: Ptr, s: Shape, bound: nat)
    requires Formed(h, root, s, bound) && root.At?
    ensures root.addr in h && Val(h, s).Node?
    ensures var h' := Painted(h, root.addr, Red);
      Descent(h', root, [], s, root, Null, Null) && h'.Keys == h.Keys && ValZip(h', [], s) == Zip([], Val(h, s).(color := Red))
  {
    PaintedFrame(h, root.addr, Red);
    LinkedFrame(h, Painted(h, root.addr, Red), s);
    PaintedTop(h, s, Red);
  }

  /** Line 166: `size_` shrinks by one exactly when Erase removes a key, so it keeps counting the stored pairs. */
  lemma EraseCounted(t: Tree, key: int)
    requires t.Node? && Ordered(t) && IsRedBlack(t)
    ensures var r := TopDownErase.Erase(t, key);
      RbSpec.Size(r.0) == RbSpec.Size(t) - if r.1 then 1 else 0
  {
    var r := TopDownErase.Erase(t, key);
    EraseCorrect(t, key);
    SizeContent(t);
    SizeContent(r.0);
    var c := Content(t);
    if key in c {
      assert (c - {key}).Keys == c.Keys - {key};
    } else {
      assert c - {key} == c;
    }
  }
}
