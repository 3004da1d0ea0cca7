/**
 * The recursive variant of the search tree (btree/rec/btree.c).
 *
 * The C code rewrites links through a `bst_node_t **` handle; here each
 * operation takes the subtree the handle points to and returns the subtree
 * it points to afterwards, rebuilding the nodes along the path it walked.
 * A traversal takes the item buffer as it was and returns it with the
 * visited nodes appended.
 */
module RecBst {
  import opened BstTree

  /**
   * bst_search: (found, value). On a miss the caller's value comes back as
   * it was passed in.
   */
  function Search(t: Tree, key: char, value: int): (r: (bool, int))
    ensures IsBST(t) ==> (r.0 <==> key in Contents(t))
    ensures r.0 ==> key in Keys(t)
    ensures IsBST(t) && r.0 ==> r.1 == Contents(t)[key]
    ensures !r.0 ==> r.1 == value
  {
    match t
    case Nil => (false, value)
    case Node(l, k, v, rt) =>
      if k == key then (true, v)
      else if key < k then Search(l, key, value)
      else Search(rt, key, value)
  }

  /**
   * bst_insert: an existing key has its value replaced; otherwise a new leaf
   * is linked where the search for the key ended. `mallocOk` is whether the
   * allocation of that leaf succeeds; when it fails nothing changes.
   */
  function Insert(t: Tree, key: char, value: int, mallocOk: bool): (r: Tree)
    ensures !mallocOk && key !in Keys(t) ==> r == t
    ensures key in Keys(t) || mallocOk ==> Keys(r) == Keys(t) + {key}
    ensures IsBST(t) ==> IsBST(r)
    ensures t == Nil && mallocOk ==> r == Node(Nil, key, value, Nil)
  {
    match t
    case Nil => if mallocOk then Node(Nil, key, value, Nil) else Nil
    case Node(l, k, v, rt) =>
      if k == key then Node(l, k, value, rt)
      else if key < k then Node(Insert(l, key, value, mallocOk), k, v, rt)
      else Node(l, k, v, Insert(rt, key, value, mallocOk))
  }

  /**
   * What bst_replace_by_rightmost leaves behind: the key and value now in
   * the target node, and the subtree with the rightmost node unlinked.
   */
  datatype Replaced = Replaced(key: char, value: int, rest: Tree)

  /**
   * bst_replace_by_rightmost: walks right to the node without a right child,
   * copies its key and value into the target (whose key and value are
   * `targetKey`, `targetValue`) and puts that node's left child in its place.
   * An empty subtree leaves the target as it was.
   */
  function ReplaceByRightmost(targetKey: char, targetValue: int, t: Tree): (r: Replaced)
    ensures t == Nil ==> r == Replaced(targetKey, targetValue, Nil)
    ensures t != Nil ==> r.key in Keys(t)
    ensures t != Nil && IsBST(t) ==>
      (forall x :: x in Keys(t) ==> x <= r.key) &&
      IsBST(r.rest) && Keys(r.rest) == Keys(t) - {r.key}
  {
    match t
    case Nil => Replaced(targetKey, targetValue, Nil)
    case Node(l, k, v, rt) =>
      if rt == Nil then Replaced(k, v, l)
      else
        var rp := ReplaceByRightmost(targetKey, targetValue, rt);
        Replaced(rp.key, rp.value, Node(l, k, v, rp.rest))
  }

  /**
   * bst_delete: a leaf is unlinked, a node with one child is replaced by that
   * child, and a node with two children takes the key and value of the
   * rightmost node of its left subtree, which is unlinked instead. An absent
   * key leaves the tree as it was.
   */
  function Delete(t: Tree, key: char): (r: Tree)
    ensures key !in Keys(t) ==> r == t
    ensures IsBST(t) ==> IsBST(r) && Keys(r) == Keys(t) - {key}
  {
    match t
    case Nil => Nil
    case Node(l, k, v, rt) =>
      if k == key then
        if l == Nil && rt == Nil then Nil
        else if l == Nil then rt
        else if rt == Nil then l
        else
          var rp := ReplaceByRightmost(k, v, l);
          Node(rp.rest, rp.key, rp.value, rt)
      else if key < k then Node(Delete(l, key), k, v, rt)
      else Node(l, k, v, Delete(rt, key))
  }

  /**
   * bst_dispose: disposes the left subtree, then the right one, then frees
   * the node. Returns the tree left behind and the nodes in the order they
   * were freed.
   */
  function Dispose(t: Tree): (r: (Tree, seq<Item>))
    ensures r.0 == Init()
    ensures r.1 == Postorder(t)
  {
    match t
    case Nil => (Nil, [])
    case Node(l, k, v, rt) => (Nil, Dispose(l).1 + Dispose(rt).1 + [Item(k, v)])
  }

  /** bst_preorder: appends the node, then walks the left and the right subtree. */
  function PreorderInto(t: Tree, items: seq<Item>): (r: seq<Item>)
    ensures r == items + Preorder(t)
  {
    match t
    case Nil => items
    case Node(l, k, v, rt) => PreorderInto(rt, PreorderInto(l, items + [Item(k, v)]))
  }

  /** bst_inorder: walks the left subtree, appends the node, walks the right subtree. */
  function InorderInto(t: Tree, items: seq<Item>): (r: seq<Item>)
    ensures r == items + Inorder(t)
  {
    match t
    case Nil => items
    case Node(l, k, v, rt) => InorderInto(rt, InorderInto(l, items) + [Item(k, v)])
  }

  /** bst_postorder: walks the left and the right subtree, then appends the node. */
  function PostorderInto(t: Tree, items: seq<Item>): (r: seq<Item>)
    ensures r == items + Postorder(t)
  {
    match t
    case Nil => items
    case Node(l, k, v, rt) => PostorderInto(rt, PostorderInto(l, items)) + [Item(k, v)]
  }

  /** Insert maps the key to the new value and keeps every other pair, unless the allocation failed. */
  lemma {:induction false} InsertContents(t: Tree, key: char, value: int, mallocOk: bool)
    requires IsBST(t)
    ensures Contents(Insert(t, key, value, mallocOk)) ==
      if key in Keys(t) || mallocOk then Contents(t)[key := value] else Contents(t)
  {
    if !mallocOk && key !in Keys(t) {
      return;
    }
    match t
    case Nil =>
    case Node(l, k, v, rt) =>
      assert Contents(t) == Contents(l)[k := v] + Contents(rt);
      if k == key {
        assert k !in Keys(rt);
        UpdateAt(Contents(l), Contents(rt), k, v, value);
      } else if key < k {
        assert key !in Keys(rt);
        assert key in Keys(l) || mallocOk;
        InsertContents(l, key, value, mallocOk);
        UpdateUnder(Contents(l), Contents(rt), k, v, key, value);
      } else {
        assert key in Keys(rt) || mallocOk;
        InsertContents(rt, key, value, mallocOk);
        UpdateOver(Contents(l)[k := v], Contents(rt), key, value);
      }
  }

  /** Insert adds a node exactly when the key was absent and the allocation succeeded. */
  lemma {:induction false} InsertSize(t: Tree, key: char, value: int, mallocOk: bool)
    requires IsBST(t)
    ensures Size(Insert(t, key, value, mallocOk)) ==
      if key in Keys(t) || !mallocOk then Size(t) else Size(t) + 1
  {
    match t
    case Nil =>
    case Node(l, k, v, rt) =>
      if key < k {
        InsertSize(l, key, value, mallocOk);
      } else if k < key {
        InsertSize(rt, key, value, mallocOk);
      }
  }

  /**
   * On a non-empty search tree the target receives the largest key and its
   * value, and the subtree loses exactly that pair.
   */
  lemma {:induction false} ReplaceByRightmostContents(targetKey: char, targetValue: int, t: Tree)
    requires IsBST(t) && t != Nil
    ensures var r := ReplaceByRightmost(targetKey, targetValue, t);
      r.value == Contents(t)[r.key] &&
      Contents(r.rest) == Contents(t) - {r.key} &&
      Size(r.rest) == Size(t) - 1
  {
    var Node(l, k, v, rt) := t;
    if rt != Nil {
      ReplaceByRightmostContents(targetKey, targetValue, rt);
      var rp := ReplaceByRightmost(targetKey, targetValue, rt);
      RemoveOver(Contents(l)[k := v], Contents(rt), rp.key);
    }
  }

  /** Deleting the key of the root removes exactly the root's pair. */
  lemma DeleteRootContents(t: Tree)
    requires IsBST(t) && t.Node?
    ensures Contents(Delete(t, t.key)) == Contents(t) - {t.key}
  {
    var Node(l, k, v, rt) := t;
    assert k !in Keys(l) && k !in Keys(rt);
    if l == Nil && rt == Nil {
    } else if l == Nil {
      assert Delete(t, k) == rt;
      DropUnder(Contents(rt), k, v);
    } else if rt == Nil {
      assert Delete(t, k) == l;
      DropOver(Contents(l), k, v);
    } else {
      ReplaceByRightmostContents(k, v, l);
      var rp := ReplaceByRightmost(k, v, l);
      assert Delete(t, k) == Node(rp.rest, rp.key, rp.value, rt);
      DropBetween(Contents(l), Contents(rt), k, v, rp.key);
    }
  }

  /** Delete removes exactly the pair of the key. */
  lemma {:induction false} DeleteContents(t: Tree, key: char)
    requires IsBST(t)
    ensures Contents(Delete(t, key)) == Contents(t) - {key}
    ensures Size(Delete(t, key)) == if key in Keys(t) then Size(t) - 1 else Size(t)
  {
    match t
    case Nil =>
    case Node(l, k, v, rt) =>
      if k == key {
        DeleteRootContents(t);
        if l != Nil && rt != Nil {
          ReplaceByRightmostContents(k, v, l);
        }
      } else if key < k {
        DeleteContents(l, key);
        RemoveUnder(Contents(l), Contents(rt), k, v, key);
      } else {
        DeleteContents(rt, key);
        RemoveOver(Contents(l)[k := v], Contents(rt), key);
      }
  }

  /** After an insert the key is found with the value inserted; every other key answers as before. */
  lemma InsertThenSearch(t: Tree, key: char, value: int, other: char, dflt: int)
    requires IsBST(t)
    ensures Search(Insert(t, key, value, true), key, dflt) == (true, value)
    ensures other != key ==> Search(Insert(t, key, value, true), other, dflt) == Search(t, other, dflt)
  {
    InsertContents(t, key, value, true);
  }

  /** After a delete the key is not found; every other key answers as before. */
  lemma DeleteThenSearch(t: Tree, key: char, other: char, dflt: int)
    requires IsBST(t)
    ensures Search(Delete(t, key), key, dflt) == (false, dflt)
    ensures other != key ==> Search(Delete(t, key), other, dflt) == Search(t, other, dflt)
  {
    DeleteContents(t, key);
  }

  /** Deleting a key twice is the same as deleting it once. */
  lemma DeleteIdempotent(t: Tree, key: char)
    requires IsBST(t)
    ensures Delete(Delete(t, key), key) == Delete(t, key)
  {
  }

  /**
   * A node with two children is replaced by its in-order predecessor: the
   * largest key of its left subtree, which is the largest key below it.
   */
  lemma {:induction false} DeleteUsesPredecessor(t: Tree)
    requires IsBST(t) && t.Node? && t.left.Node? && t.right.Node?
    ensures var r := Delete(t, t.key);
      r.Node? && r.right == t.right &&
      r.key in Keys(t.left) && r.value == Contents(t.left)[r.key] &&
      (forall x :: x in Keys(t.left) ==> x <= r.key) &&
      (forall x :: x in Keys(t) && x < t.key ==> x <= r.key)
  {
    var rp := ReplaceByRightmost(t.key, t.value, t.left);
    ReplaceByRightmostContents(t.key, t.value, t.left);
    assert Delete(t, t.key) == Node(rp.rest, rp.key, rp.value, t.right);
    assert forall y :: y in Keys(t.right) ==> t.key < y;
    forall x | x in Keys(t) && x < t.key ensures x <= rp.key {
      assert x in Keys(t.left) + {t.key} + Keys(t.right);
      assert x in Keys(t.left);
    }
  }

  /** Every left child is empty: the shape that inserting keys in increasing order produces. */
  ghost predicate RightChain(t: Tree)
  {
    t == Nil || (t.left == Nil && RightChain(t.right))
  }

  /**
   * A key above every key of the tree is linked at the right end: it is
   * appended to the in-order sequence, and a right chain grows by one.
   */
  lemma {:induction false} InsertAbove(t: Tree, key: char, value: int)
    requires forall x :: x in Keys(t) ==> x < key
    ensures var r := Insert(t, key, value, true);
      Inorder(r) == Inorder(t) + [Item(key, value)] &&
      (RightChain(t) ==> RightChain(r) && Height(r) == Height(t) + 1)
  {
    match t
    case Nil =>
    case Node(l, k, v, rt) =>
      assert Keys(rt) <= Keys(t);
      InsertAbove(rt, key, value);
      Assoc3(Inorder(l) + [Item(k, v)], Inorder(rt), [Item(key, value)]);
  }
}
