/**
 * Value view of `rbt::RedBlackTree<int, int>`: a subtree is either a null
 * child position (`Empty`) or a node with its colour, children, key and value.
 * The order, map and red-black rules of the container are stated here once,
 * over this view; the class `Rbt.RedBlackTree` is tied to it.
 */
module RbSpec {

  /** `ColorType` of red_black_tree.h: red is the default of a new node. */
  datatype Color = Red | Black

  datatype Tree = Empty | Node(color: Color, left: Tree, key: int, value: int, right: Tree)

  /** One key-value pair as it is stored in a node. */
  datatype Entry = Entry(key: int, value: int)

  // ----- order and content ---------------------------------------------------

  /** The pairs of a tree read left to right (in-order). */
  function Inorder(t: Tree): seq<Entry>
  {
    match t
    case Empty => []
    case Node(_, l, k, v, r) => Inorder(l) + [Entry(k, v)] + Inorder(r)
  }

  function Size(t: Tree): nat
  {
    match t
    case Empty => 0
    case Node(_, l, _, _, r) => Size(l) + 1 + Size(r)
  }

  /** Strictly increasing keys: every key once, in `<` order. */
  predicate Sorted(s: seq<Entry>)
  {
    forall i, j :: 0 <= i < j < |s| ==> s[i].key < s[j].key
  }

  /** BST order: every key of a left subtree sorts before its node's key, every key of a right subtree after it. */
  predicate Ordered(t: Tree)
  {
    Sorted(Inorder(t))
  }

  /** The map a sequence of pairs denotes (a later pair wins; sorted sequences have no repeats). */
  function MapOf(s: seq<Entry>): map<int, int>
  {
    if s == [] then map[] else MapOf(s[..|s| - 1])[s[|s| - 1].key := s[|s| - 1].value]
  }

  /** The key-value map a tree stores. */
  function Content(t: Tree): map<int, int>
  {
    MapOf(Inorder(t))
  }

  // ----- colour rules ----------------------------------------------------------

  /** `is_red_node` in Erase: a node that exists and is red. */
  predicate IsRed(t: Tree)
  {
    t.Node? && t.color == Red
  }

  /** `IsBlackNode(n)`: a null position counts as black. */
  predicate IsBlack(t: Tree)
  {
    !IsRed(t)
  }

  /** `IsBlackNode(n, false)`: only an existing black node. */
  predicate IsBlackNode(t: Tree)
  {
    t.Node? && t.color == Black
  }

  /** No red node has a red child. */
  predicate RedRule(t: Tree)
  {
    match t
    case Empty => true
    case Node(c, l, _, _, r) => (c == Red ==> IsBlack(l) && IsBlack(r)) && RedRule(l) && RedRule(r)
  }

  /** Black nodes on the leftmost path, this node included. */
  function BlackHeight(t: Tree): nat
  {
    match t
    case Empty => 0
    case Node(c, l, _, _, _) => (if c == Black then 1 else 0) + BlackHeight(l)
  }

  /** Every path from this node to a null position passes the same number of black nodes. */
  predicate Balanced(t: Tree)
  {
    match t
    case Empty => true
    case Node(_, l, _, _, r) => Balanced(l) && Balanced(r) && BlackHeight(l) == BlackHeight(r)
  }

  /** The three rules `RedBlackTreeRulesCheck` tests: black root, no red-red edge, equal black counts. */
  predicate IsRedBlack(t: Tree)
  {
    IsBlack(t) && RedRule(t) && Balanced(t)
  }

  /** The red rule everywhere except between the root and its children. */
  predicate RedRuleBelowRoot(t: Tree)
  {
    t.Empty? || (RedRule(t.left) && RedRule(t.right))
  }

  function Blacken(t: Tree): Tree
  {
    if t.Empty? then t else t.(color := Black)
  }

  // ----- lemmas about the view --------------------------------------------------

  lemma {:induction false} InorderLength(t: Tree)
    ensures |Inorder(t)| == Size(t)
  {
    match t
    case Empty =>
    case Node(_, l, _, _, r) =>
      InorderLength(l);
      InorderLength(r);
  }

  lemma SortedSlice(s: seq<Entry>, i: nat, j: nat)
    requires Sorted(s) && i <= j <= |s|
    ensures Sorted(s[i..j])
  {
  }

  /** Sorted concatenation splits into sorted parts whose keys are separated. */
  lemma SortedSplit(a: seq<Entry>, b: seq<Entry>)
    requires Sorted(a + b)
    ensures Sorted(a) && Sorted(b)
    ensures forall i, j :: 0 <= i < |a| && 0 <= j < |b| ==> a[i].key < b[j].key
  {
    assert a == (a + b)[..|a|];
    assert b == (a + b)[|a|..];
    forall i, j | 0 <= i < |a| && 0 <= j < |b|
      ensures a[i].key < b[j].key
    {
      assert (a + b)[i] == a[i] && (a + b)[|a| + j] == b[j];
    }
  }

  lemma SortedJoin(a: seq<Entry>, b: seq<Entry>)
    requires Sorted(a) && Sorted(b)
    requires forall i, j :: 0 <= i < |a| && 0 <= j < |b| ==> a[i].key < b[j].key
    ensures Sorted(a + b)
  {
  }

  /** A key belongs to the map of a sequence exactly when some pair carries it. */
  lemma {:induction false} MapOfKeys(s: seq<Entry>, k: int)
    ensures k in MapOf(s) <==> exists i :: 0 <= i < |s| && s[i].key == k
  {
    if s != [] {
      var p := s[..|s| - 1];
      MapOfKeys(p, k);
      if k in MapOf(s) && k != s[|s| - 1].key {
        var i :| 0 <= i < |p| && p[i].key == k;
        assert s[i] == p[i];
      }
      if (exists i :: 0 <= i < |s| && s[i].key == k) && k != s[|s| - 1].key {
        var i :| 0 <= i < |s| && s[i].key == k;
        assert i < |p| && p[i] == s[i];
      }
    }
  }

  /** In a sorted sequence, the map sends the key of each pair to that pair's value. */
  lemma {:induction false} MapOfAt(s: seq<Entry>, i: nat)
    requires Sorted(s) && i < |s|
    ensures s[i].key in MapOf(s) && MapOf(s)[s[i].key] == s[i].value
  {
    var p := s[..|s| - 1];
    if i < |s| - 1 {
      MapOfAt(p, i);
      assert p[i] == s[i];
    }
  }

  lemma {:induction false} MapOfAppend(a: seq<Entry>, b: seq<Entry>)
    ensures MapOf(a + b) == MapOf(a) + MapOf(b)
    decreases |b|
  {
    if b == [] {
      assert a + b == a;
    } else {
      var b' := b[..|b| - 1];
      assert (a + b)[..|a + b| - 1] == a + b';
      assert (a + b)[|a + b| - 1] == b[|b| - 1];
      MapOfAppend(a, b');
    }
  }

  lemma MapOfSingle(e: Entry)
    ensures MapOf([e]) == map[e.key := e.value]
  {
    assert [e][..0] == [];
  }

  /** The content of a node: its left subtree, its own pair and its right subtree. */
  lemma ContentNode(c: Color, l: Tree, k: int, v: int, r: Tree)
    ensures Content(Node(c, l, k, v, r)) == Content(l) + map[k := v] + Content(r)
  {
    MapOfAppend(Inorder(l) + [Entry(k, v)], Inorder(r));
    MapOfAppend(Inorder(l), [Entry(k, v)]);
    MapOfSingle(Entry(k, v));
  }

  /** Keys of a tree, read off its in-order sequence. */
  lemma KeysInorder(t: Tree, k: int)
    ensures k in Content(t) <==> exists i :: 0 <= i < |Inorder(t)| && Inorder(t)[i].key == k
  {
    assert Content(t) == MapOf(Inorder(t));
    MapOfKeys(Inorder(t), k);
  }

  /**
   * Search step of an ordered tree: a key smaller than the node's key can only be
   * stored to the left, a larger one only to the right, and the node's own key
   * maps to the node's value.
   */
  lemma {:induction false} OrderedNode(t: Tree, x: int)
    requires t.Node? && Ordered(t)
    ensures Ordered(t.left) && Ordered(t.right)
    ensures x == t.key ==> x in Content(t) && Content(t)[x] == t.value
    ensures x < t.key ==> (x in Content(t) <==> x in Content(t.left))
    ensures x < t.key && x in Content(t.left) ==> Content(t)[x] == Content(t.left)[x]
    ensures t.key < x ==> (x in Content(t) <==> x in Content(t.right))
    ensures t.key < x && x in Content(t.right) ==> Content(t)[x] == Content(t.right)[x]
  {
    var l, r := Inorder(t.left), Inorder(t.right);
    SortedSplit(l + [Entry(t.key, t.value)], r);
    SortedSplit(l, [Entry(t.key, t.value)]);
    ContentNode(t.color, t.left, t.key, t.value, t.right);
    KeysInorder(t.left, x);
    KeysInorder(t.right, x);
    assert forall j :: 0 <= j < |r| ==> t.key < r[j].key by {
      assert (l + [Entry(t.key, t.value)])[|l|].key == t.key;
    }
    assert forall i :: 0 <= i < |l| ==> l[i].key < t.key by {
      assert [Entry(t.key, t.value)][0].key == t.key;
    }
  }

  /** In a sorted sequence the pair `e` separates the keys before it from those after it. */
  lemma SortedAround(a: seq<Entry>, e: Entry, b: seq<Entry>)
    requires Sorted(a + [e] + b)
    ensures Sorted(a + b)
    ensures forall x :: 0 <= x < |a| ==> a[x].key < e.key
    ensures forall y :: 0 <= y < |b| ==> e.key < b[y].key
  {
    SortedSplit(a + [e], b);
    SortedSplit(a, [e]);
    assert (a + [e])[|a|] == e;
    SortedJoin(a, b);
  }

  /** Dropping one pair from a sorted sequence removes exactly that pair's key from the map. */
  lemma SortedDrop(a: seq<Entry>, e: Entry, b: seq<Entry>)
    requires Sorted(a + [e] + b)
    ensures Sorted(a + b) && e.key !in MapOf(a + b)
    ensures MapOf(a + b) == MapOf(a + [e] + b) - {e.key}
  {
    SortedAround(a, e, b);
    MapOfAppend(a + [e], b);
    MapOfAppend(a, [e]);
    MapOfAppend(a, b);
    MapOfSingle(e);
    MapOfKeys(a, e.key);
    MapOfKeys(b, e.key);
  }

  /** Painting the root black makes a balanced tree whose only red-red edge may be at the root red-black. */
  lemma BlackenRoot(t: Tree)
    requires Balanced(t) && RedRuleBelowRoot(t)
    ensures IsRedBlack(Blacken(t)) && Inorder(Blacken(t)) == Inorder(t)
  {
  }

  /** A sorted sequence has as many keys in its map as it has pairs. */
  lemma {:induction false} SortedMapSize(s: seq<Entry>)
    requires Sorted(s)
    ensures |MapOf(s)| == |s|
  {
    if s != [] {
      var p := s[..|s| - 1];
      SortedMapSize(p);
      MapOfKeys(p, s[|s| - 1].key);
      assert s[|s| - 1].key !in MapOf(p);
    }
  }

  /** The number of nodes of an ordered tree is the number of keys it stores. */
  lemma SizeContent(t: Tree)
    requires Ordered(t)
    ensures Size(t) == |Content(t)|
  {
    InorderLength(t);
    SortedMapSize(Inorder(t));
  }

  // ----- black counts of `RedBlackTreeRulesCheck` ----------------------------------

  /**
   * `ComputeAllBlackPathHeight(node, count, counts)`: one entry per null
   * position below `t`, left to right, each `c` plus the black nodes passed
   * between `t` and that position (`c` already counts `t` itself).
   */
  function BlackCounts(t: Tree, c: int): (r: seq<int>)
    ensures |r| == Size(t) + 1
  {
    match t
    case Empty => [c]
    case Node(_, l, _, _, r) =>
      BlackCounts(l, c + if IsBlackNode(l) then 1 else 0) + BlackCounts(r, c + if IsBlackNode(r) then 1 else 0)
  }

  /** All entries equal. */
  predicate AllSame(s: seq<int>)
  {
    forall i, j :: 0 <= i < |s| && 0 <= j < |s| ==> s[i] == s[j]
  }

  /** The leftmost null position of `t` is reached through the black nodes of the leftmost path below `t`. */
  lemma {:induction false} BlackCountsFirst(t: Tree, c: int)
    ensures BlackCounts(t, c)[0] == c + if t.Node? then BlackHeight(t.left) else 0
  {
    if t.Node? {
      var l := t.left;
      BlackCountsFirst(l, c + if IsBlackNode(l) then 1 else 0);
      assert BlackCounts(t, c)[0] == BlackCounts(l, c + if IsBlackNode(l) then 1 else 0)[0];
    }
  }

  /** Two non-empty runs of equal entries joined stay equal exactly when they start alike. */
  lemma AllSameConcat(a: seq<int>, b: seq<int>)
    requires a != [] && b != []
    ensures AllSame(a + b) <==> AllSame(a) && AllSame(b) && a[0] == b[0]
  {
    if AllSame(a + b) {
      forall i, j | 0 <= i < |a| && 0 <= j < |a| ensures a[i] == a[j] {
        assert a[i] == (a + b)[i] && a[j] == (a + b)[j];
      }
      forall i, j | 0 <= i < |b| && 0 <= j < |b| ensures b[i] == b[j] {
        assert b[i] == (a + b)[|a| + i] && b[j] == (a + b)[|a| + j];
      }
      assert a[0] == (a + b)[0] && b[0] == (a + b)[|a|];
    }
    if AllSame(a) && AllSame(b) && a[0] == b[0] {
      forall i, j | 0 <= i < |a + b| && 0 <= j < |a + b| ensures (a + b)[i] == (a + b)[j] {
        assert (a + b)[i] == a[0] && (a + b)[j] == a[0] by {
          if i >= |a| { assert (a + b)[i] == b[i - |a|]; }
          if j >= |a| { assert (a + b)[j] == b[j - |a|]; }
        }
      }
    }
  }

  /**
   * Rule 3 of `RedBlackTreeRulesCheck`: the recorded black counts are all
   * equal exactly when every node has the same black height on both sides.
   */
  lemma {:induction false} BlackCountsUniform(t: Tree, c: int)
    ensures AllSame(BlackCounts(t, c)) <==> Balanced(t)
  {
    if t.Node? {
      var l, r := t.left, t.right;
      var cl, cr := c + (if IsBlackNode(l) then 1 else 0), c + (if IsBlackNode(r) then 1 else 0);
      var a, b := BlackCounts(l, cl), BlackCounts(r, cr);
      BlackCountsUniform(l, cl);
      BlackCountsUniform(r, cr);
      BlackCountsFirst(l, cl);
      BlackCountsFirst(r, cr);
      assert BlackCounts(t, c) == a + b;
      assert a[0] == c + BlackHeight(l) && b[0] == c + BlackHeight(r);
      AllSameConcat(a, b);
    }
  }
}
