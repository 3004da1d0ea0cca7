/**
 * The binary search tree shared by the recursive and the iterative variant
 * (bst_node_t of btree.h): a node holds a character key, an int value and
 * owns its left and right subtree; an empty tree is the null pointer.
 *
 * This module gives the abstract meaning of a tree: its key set, its
 * key/value map, the search-tree ordering, its size and height, and the
 * three traversal sequences that bst_add_node_to_items builds.
 */
module BstTree {

  /** What bst_add_node_to_items records of a visited node: its key and value. */
  datatype Item = Item(key: char, value: int)

  /** A null pointer, or a node that exclusively owns its two subtrees. */
  datatype Tree = Nil | Node(left: Tree, key: char, value: int, right: Tree)

  function ItemOf(t: Tree): Item
    requires t.Node?
  {
    Item(t.key, t.value)
  }

  /** The tree after bst_init: the null pointer, holding nothing. */
  function Init(): (t: Tree)
    ensures Contents(t) == map[] && Keys(t) == {}
    ensures IsBST(t) && Size(t) == 0 && Inorder(t) == []
  {
    Nil
  }

  function Keys(t: Tree): set<char>
  {
    match t
    case Nil => {}
    case Node(l, k, _, r) => Keys(l) + {k} + Keys(r)
  }

  /**
   * The key/value map the tree stands for. The pairs are laid over each
   * other in inorder (left subtree, node, right subtree); in a search tree
   * all keys differ, so the order matters only for trees that are not.
   */
  function Contents(t: Tree): (m: map<char, int>)
    ensures m.Keys == Keys(t)
  {
    match t
    case Nil => map[]
    case Node(l, k, v, r) => Contents(l)[k := v] + Contents(r)
  }

  /** The ordering invariant: left keys are smaller, right keys larger, at every node. */
  ghost predicate IsBST(t: Tree)
  {
    match t
    case Nil => true
    case Node(l, k, _, r) =>
      IsBST(l) && IsBST(r) &&
      (forall x :: x in Keys(l) ==> x < k) &&
      (forall x :: x in Keys(r) ==> k < x)
  }

  function Size(t: Tree): nat
  {
    match t
    case Nil => 0
    case Node(l, _, _, r) => Size(l) + 1 + Size(r)
  }

  function Height(t: Tree): nat
  {
    match t
    case Nil => 0
    case Node(l, _, _, r) => 1 + (if Height(l) < Height(r) then Height(r) else Height(l))
  }

  /** Height-balanced: at every node the two subtree heights differ by at most one. */
  ghost predicate Balanced(t: Tree)
  {
    match t
    case Nil => true
    case Node(l, _, _, r) =>
      Balanced(l) && Balanced(r) && -1 <= Height(l) - Height(r) <= 1
  }

  /** Node, left subtree, right subtree. */
  function Preorder(t: Tree): seq<Item>
  {
    match t
    case Nil => []
    case Node(l, k, v, r) => [Item(k, v)] + Preorder(l) + Preorder(r)
  }

  /** Left subtree, node, right subtree. */
  function Inorder(t: Tree): seq<Item>
  {
    match t
    case Nil => []
    case Node(l, k, v, r) => Inorder(l) + [Item(k, v)] + Inorder(r)
  }

  /** Left subtree, right subtree, node. */
  function Postorder(t: Tree): seq<Item>
  {
    match t
    case Nil => []
    case Node(l, k, v, r) => Postorder(l) + Postorder(r) + [Item(k, v)]
  }

  function KeysOf(s: seq<Item>): set<char>
  {
    set i | 0 <= i < |s| :: s[i].key
  }

  /** Keys strictly increase along the sequence. */
  ghost predicate Ascending(s: seq<Item>)
  {
    forall i, j :: 0 <= i < j < |s| ==> s[i].key < s[j].key
  }

  /** The map a sequence of items describes, later items overriding earlier ones. */
  function ItemsMap(s: seq<Item>): map<char, int>
  {
    if s == [] then map[] else ItemsMap(s[..|s| - 1])[s[|s| - 1].key := s[|s| - 1].value]
  }

  lemma KeysOfConcat(a: seq<Item>, b: seq<Item>)
    ensures KeysOf(a + b) == KeysOf(a) + KeysOf(b)
  {
    var ab := a + b;
    forall x | x in KeysOf(ab) ensures x in KeysOf(a) + KeysOf(b) {
      var i :| 0 <= i < |ab| && ab[i].key == x;
      if i < |a| { assert a[i] == ab[i]; } else { assert b[i - |a|] == ab[i]; }
    }
    forall x | x in KeysOf(a) + KeysOf(b) ensures x in KeysOf(ab) {
      if x in KeysOf(a) {
        var i :| 0 <= i < |a| && a[i].key == x;
        assert ab[i] == a[i];
      } else {
        var i :| 0 <= i < |b| && b[i].key == x;
        assert ab[|a| + i] == b[i];
      }
    }
  }

  /** The keys met by the inorder walk are exactly the keys of the tree. */
  lemma {:induction false} InorderKeys(t: Tree)
    ensures KeysOf(Inorder(t)) == Keys(t)
  {
    match t
    case Nil =>
    case Node(l, k, v, r) =>
      InorderKeys(l);
      InorderKeys(r);
      KeysOfConcat(Inorder(l), [Item(k, v)]);
      KeysOfConcat(Inorder(l) + [Item(k, v)], Inorder(r));
      assert [Item(k, v)][0].key == k;
      assert KeysOf([Item(k, v)]) == {k};
  }

  /** Splitting an ascending sequence at an element: both sides ascend, and lie on either side of it. */
  lemma AscendingSplitParts(a: seq<Item>, x: Item, b: seq<Item>)
    requires Ascending(a + [x] + b)
    ensures Ascending(a) && Ascending(b)
    ensures forall y :: y in KeysOf(a) ==> y < x.key
    ensures forall y :: y in KeysOf(b) ==> x.key < y
  {
    var s := a + [x] + b;
    forall i, j | 0 <= i < j < |a| ensures a[i].key < a[j].key {
      assert s[i] == a[i] && s[j] == a[j];
    }
    forall i, j | 0 <= i < j < |b| ensures b[i].key < b[j].key {
      assert s[|a| + 1 + i] == b[i] && s[|a| + 1 + j] == b[j];
    }
    forall y | y in KeysOf(a) ensures y < x.key {
      var i :| 0 <= i < |a| && a[i].key == y;
      assert s[i] == a[i] && s[|a|] == x;
    }
    forall y | y in KeysOf(b) ensures x.key < y {
      var j :| 0 <= j < |b| && b[j].key == y;
      assert s[|a|] == x && s[|a| + 1 + j] == b[j];
    }
  }

  /** Two ascending sequences on either side of an element join into an ascending sequence. */
  lemma AscendingJoin(a: seq<Item>, x: Item, b: seq<Item>)
    requires Ascending(a) && Ascending(b)
    requires forall y :: y in KeysOf(a) ==> y < x.key
    requires forall y :: y in KeysOf(b) ==> x.key < y
    ensures Ascending(a + [x] + b)
  {
    var s := a + [x] + b;
    forall i, j | 0 <= i < j < |s| ensures s[i].key < s[j].key {
      if j < |a| {
        assert s[i] == a[i] && s[j] == a[j];
      } else if i < |a| {
        assert s[i] == a[i] && a[i].key in KeysOf(a);
        if j > |a| {
          assert s[j] == b[j - |a| - 1] && b[j - |a| - 1].key in KeysOf(b);
        }
      } else if i == |a| {
        assert s[j] == b[j - |a| - 1] && b[j - |a| - 1].key in KeysOf(b);
      } else {
        assert s[i] == b[i - |a| - 1] && s[j] == b[j - |a| - 1];
      }
    }
  }

  /** A tree is a search tree exactly when its inorder sequence is strictly ascending by key. */
  lemma {:induction false} InorderAscendingIffBST(t: Tree)
    ensures IsBST(t) <==> Ascending(Inorder(t))
  {
    match t
    case Nil =>
    case Node(l, k, v, r) =>
      InorderAscendingIffBST(l);
      InorderAscendingIffBST(r);
      InorderKeys(l);
      InorderKeys(r);
      if Ascending(Inorder(t)) {
        AscendingSplitParts(Inorder(l), Item(k, v), Inorder(r));
      }
      if IsBST(t) {
        AscendingJoin(Inorder(l), Item(k, v), Inorder(r));
      }
  }

  /** Every traversal visits each node once: its length is the node count. */
  lemma {:induction false} TraversalLengths(t: Tree)
    ensures |Preorder(t)| == Size(t) && |Inorder(t)| == Size(t) && |Postorder(t)| == Size(t)
  {
    match t
    case Nil =>
    case Node(l, _, _, r) =>
      TraversalLengths(l);
      TraversalLengths(r);
  }

  /** The three traversals visit the same nodes, in different orders. */
  lemma {:induction false} TraversalsPermute(t: Tree)
    ensures multiset(Preorder(t)) == multiset(Inorder(t))
    ensures multiset(Postorder(t)) == multiset(Inorder(t))
  {
    match t
    case Nil =>
    case Node(l, _, _, r) =>
      TraversalsPermute(l);
      TraversalsPermute(r);
  }

  lemma {:induction false} ItemsMapConcat(a: seq<Item>, b: seq<Item>)
    ensures ItemsMap(a + b) == ItemsMap(a) + ItemsMap(b)
    decreases |b|
  {
    if b == [] {
      assert a + b == a;
    } else {
      var b' := b[..|b| - 1];
      var x := b[|b| - 1];
      assert (a + b)[..|a + b| - 1] == a + b';
      ItemsMapConcat(a, b');
    }
  }

  /** The key/value map of a tree is determined by its inorder sequence. */
  lemma {:induction false} ContentsFromInorder(t: Tree)
    ensures Contents(t) == ItemsMap(Inorder(t))
  {
    match t
    case Nil =>
    case Node(l, k, v, r) =>
      ContentsFromInorder(l);
      ContentsFromInorder(r);
      ItemsMapConcat(Inorder(l) + [Item(k, v)], Inorder(r));
      assert (Inorder(l) + [Item(k, v)])[..|Inorder(l)|] == Inorder(l);
  }

  /**
   * Two trees with the same inorder sequence hold the same key/value pairs
   * and are search trees together.
   */
  lemma SameInorder(a: Tree, b: Tree)
    requires Inorder(a) == Inorder(b)
    ensures Contents(a) == Contents(b)
    ensures IsBST(a) <==> IsBST(b)
  {
    ContentsFromInorder(a);
    ContentsFromInorder(b);
    InorderAscendingIffBST(a);
    InorderAscendingIffBST(b);
  }

  /** The three traversals of a node, spelled out. */
  lemma NodeTraversals(t: Tree)
    requires t.Node?
    ensures Preorder(t) == [ItemOf(t)] + Preorder(t.left) + Preorder(t.right)
    ensures Inorder(t) == Inorder(t.left) + [ItemOf(t)] + Inorder(t.right)
    ensures Postorder(t) == Postorder(t.left) + Postorder(t.right) + [ItemOf(t)]
  {
  }

  // Regrouping concatenations, used by the stack walks.

  lemma Assoc3<T>(a: seq<T>, b: seq<T>, c: seq<T>)
    ensures a + b + c == a + (b + c)
  {
  }

  lemma Assoc4<T>(a: seq<T>, b: seq<T>, c: seq<T>, d: seq<T>)
    ensures a + b + c + d == a + (b + (c + d))
  {
  }

  // Facts about laying key/value maps over each other, used when a subtree's
  // map changes under an unchanged node.

  lemma UpdateUnder(a: map<char, int>, b: map<char, int>, k: char, v: int, key: char, value: int)
    requires key != k && key !in b
    ensures a[key := value][k := v] + b == (a[k := v] + b)[key := value]
  {
  }

  lemma UpdateAt(a: map<char, int>, b: map<char, int>, k: char, v: int, value: int)
    requires k !in b
    ensures a[k := value] + b == (a[k := v] + b)[k := value]
  {
  }

  lemma UpdateOver(a: map<char, int>, b: map<char, int>, key: char, value: int)
    ensures a + b[key := value] == (a + b)[key := value]
  {
  }

  lemma RemoveUnder(a: map<char, int>, b: map<char, int>, k: char, v: int, key: char)
    requires key != k && key !in b
    ensures (a - {key})[k := v] + b == (a[k := v] + b) - {key}
  {
  }

  lemma RemoveOver(a: map<char, int>, b: map<char, int>, key: char)
    requires key !in a
    ensures a + (b - {key}) == (a + b) - {key}
  {
  }

  lemma DropUnder(b: map<char, int>, k: char, v: int)
    requires k !in b
    ensures (map[][k := v] + b) - {k} == b
  {
  }

  lemma DropOver(a: map<char, int>, k: char, v: int)
    requires k !in a
    ensures (a[k := v] + map[]) - {k} == a
  {
  }

  lemma DropBetween(a: map<char, int>, b: map<char, int>, k: char, v: int, m: char)
    requires k !in a && k !in b && m in a
    ensures (a - {m})[m := a[m]] + b == (a[k := v] + b) - {k}
  {
    assert (a - {m})[m := a[m]] == a;
  }
}
