/**
 * The iterative variant of the search tree (btree/iter/btree.c).
 *
 * Search, insert and delete walk down with a `bst_node_t **` cursor and
 * rewrite the link it points at. The model keeps the walk as a path of
 * frames (the nodes passed, each with the side not taken); plugging a
 * subtree back into the path rebuilds the whole tree with that link
 * rewritten. Dispose and the traversals run over an explicit node stack,
 * a sequence whose last element is the top; postorder keeps a second,
 * parallel stack of bool markers.
 */
module IterBst {
  import opened BstTree
  import RecBst

  /** One step of the walk: the node passed, and the subtree not entered. */
  datatype Frame =
    | WentLeft(key: char, value: int, right: Tree)
    | WentRight(left: Tree, key: char, value: int)

  function Fill(f: Frame, t: Tree): Tree
  {
    match f
    case WentLeft(k, v, r) => Node(t, k, v, r)
    case WentRight(l, k, v) => Node(l, k, v, t)
  }

  /** The whole tree, with the link at the end of the path pointing at `t`. */
  function Plug(path: seq<Frame>, t: Tree): Tree
    decreases |path|
  {
    if path == [] then t else Plug(path[..|path| - 1], Fill(path[|path| - 1], t))
  }

  lemma PlugSnoc(path: seq<Frame>, f: Frame, t: Tree)
    ensures Plug(path + [f], t) == Plug(path, Fill(f, t))
  {
    assert (path + [f])[..|path|] == path;
  }

  /** bst_search: walks down from the root until the key or a null link is met. */
  method Search(tree: Tree, key: char, value: int) returns (found: bool, out: int)
    ensures (found, out) == RecBst.Search(tree, key, value)
    ensures IsBST(tree) ==> (found <==> key in Contents(tree))
    ensures found ==> IsBST(tree) ==> out == Contents(tree)[key]
    ensures !found ==> out == value
  {
    if tree == Nil {
      return false, value;
    }
    var current := tree;
    while current != Nil
      invariant RecBst.Search(current, key, value) == RecBst.Search(tree, key, value)
      decreases Size(current)
    {
      if current.key == key {
        return true, current.value;
      } else if current.key < key {
        current := current.right;
      } else {
        current := current.left;
      }
    }
    return false, value;
  }

  /**
   * bst_insert, as written: it returns at once when the tree is empty, so it
   * never inserts into an empty tree (the documentation says it should, and
   * RecBst.Insert does). On a non-empty tree it does what RecBst.Insert does;
   * `mallocOk` is whether the allocation of the new leaf succeeds.
   */
  method Insert(tree: Tree, key: char, value: int, mallocOk: bool) returns (r: Tree)
    ensures tree == Nil ==> r == Nil
    ensures tree != Nil ==> r == RecBst.Insert(tree, key, value, mallocOk)
    ensures tree != Nil && IsBST(tree) ==> (IsBST(r) &&
      Contents(r) == if key in Keys(tree) || mallocOk then Contents(tree)[key := value] else Contents(tree))
  {
    if tree == Nil {
      return tree;
    }
    var nodeFound := false;
    var path: seq<Frame> := [];
    var current := tree;
    while current != Nil
      invariant Plug(path, current) == tree
      invariant RecBst.Insert(tree, key, value, mallocOk) == Plug(path, RecBst.Insert(current, key, value, mallocOk))
      invariant !nodeFound
      decreases Size(current)
    {
      if current.key == key {
        current := current.(value := value);
        nodeFound := true;
        break;
      } else if current.key < key {
        PlugSnoc(path, WentRight(current.left, current.key, current.value), current.right);
        path := path + [WentRight(current.left, current.key, current.value)];
        current := current.right;
      } else {
        PlugSnoc(path, WentLeft(current.key, current.value, current.right), current.left);
        path := path + [WentLeft(current.key, current.value, current.right)];
        current := current.left;
      }
    }
    if !nodeFound {
      if !mallocOk {
        if IsBST(tree) {
          RecBst.InsertContents(tree, key, value, mallocOk);
        }
        return tree;
      }
      current := Node(Nil, key, value, Nil);
    }
    r := Plug(path, current);
    if IsBST(tree) {
      RecBst.InsertContents(tree, key, value, mallocOk);
    }
  }

  /**
   * bst_replace_by_rightmost: follows right links to the rightmost node,
   * copies its key and value into the target and links its left child in
   * its place. The source requires a non-empty subtree.
   */
  method ReplaceByRightmost(targetKey: char, targetValue: int, tree: Tree) returns (r: RecBst.Replaced)
    requires tree != Nil
    ensures r == RecBst.ReplaceByRightmost(targetKey, targetValue, tree)
    ensures IsBST(tree) ==>
      r.key in Keys(tree) && (forall x :: x in Keys(tree) ==> x <= r.key) &&
      r.value == Contents(tree)[r.key] &&
      IsBST(r.rest) && Contents(r.rest) == Contents(tree) - {r.key}
  {
    var path: seq<Frame> := [];
    var rightmost := tree;
    while rightmost.right != Nil
      invariant rightmost != Nil
      invariant Plug(path, rightmost) == tree
      invariant var whole := RecBst.ReplaceByRightmost(targetKey, targetValue, tree);
        var part := RecBst.ReplaceByRightmost(targetKey, targetValue, rightmost);
        whole.key == part.key && whole.value == part.value && whole.rest == Plug(path, part.rest)
      decreases Size(rightmost)
    {
      PlugSnoc(path, WentRight(rightmost.left, rightmost.key, rightmost.value), rightmost.right);
      path := path + [WentRight(rightmost.left, rightmost.key, rightmost.value)];
      rightmost := rightmost.right;
    }
    r := RecBst.Replaced(rightmost.key, rightmost.value, Plug(path, rightmost.left));
    if IsBST(tree) {
      RecBst.ReplaceByRightmostContents(targetKey, targetValue, tree);
    }
  }

  /**
   * bst_delete: walks to the node with the key; a leaf is unlinked, a node
   * with both children takes the key and value of the rightmost node of its
   * left subtree, and a node with one child is replaced by that child.
   */
  method Delete(tree: Tree, key: char) returns (r: Tree)
    ensures r == RecBst.Delete(tree, key)
    ensures key !in Keys(tree) ==> r == tree
    ensures IsBST(tree) ==> IsBST(r) && Contents(r) == Contents(tree) - {key}
  {
    if tree == Nil {
      return tree;
    }
    var path: seq<Frame> := [];
    var current := tree;
    while current != Nil
      invariant Plug(path, current) == tree
      invariant RecBst.Delete(tree, key) == Plug(path, RecBst.Delete(current, key))
      decreases Size(current)
    {
      if current.key == key {
        break;
      } else if current.key < key {
        PlugSnoc(path, WentRight(current.left, current.key, current.value), current.right);
        path := path + [WentRight(current.left, current.key, current.value)];
        current := current.right;
      } else {
        PlugSnoc(path, WentLeft(current.key, current.value, current.right), current.left);
        path := path + [WentLeft(current.key, current.value, current.right)];
        current := current.left;
      }
    }
    if IsBST(tree) {
      RecBst.DeleteContents(tree, key);
    }
    if current == Nil {
      return tree;
    }
    var replacement: Tree;
    if current.left == Nil && current.right == Nil {
      replacement := Nil;
    } else if current.left != Nil && current.right != Nil {
      var rp := ReplaceByRightmost(current.key, current.value, current.left);
      replacement := Node(rp.rest, rp.key, rp.value, current.right);
    } else if current.left == Nil {
      replacement := current.right;
    } else {
      replacement := current.left;
    }
    r := Plug(path, replacement);
  }

  /** Every stacked entry is a node: the walks never push a null pointer. */
  ghost predicate AllNodes(stack: seq<Tree>)
  {
    forall i :: 0 <= i < |stack| ==> stack[i].Node?
  }

  lemma AllNodesPush(stack: seq<Tree>, t: Tree)
    ensures AllNodes(stack) && t.Node? ==> AllNodes(stack + [t])
  {
  }

  lemma AllNodesPop(stack: seq<Tree>)
    requires AllNodes(stack) && stack != []
    ensures AllNodes(stack[..|stack| - 1]) && stack[|stack| - 1].Node?
  {
  }

  /** What a dispose stack still has to free, top first: each stacked subtree in preorder. */
  function PendingPreorder(stack: seq<Tree>): seq<Item>
    decreases |stack|
  {
    if stack == [] then [] else Preorder(stack[|stack| - 1]) + PendingPreorder(stack[..|stack| - 1])
  }

  lemma PendingPreorderPush(stack: seq<Tree>, t: Tree)
    ensures PendingPreorder(stack + [t]) == Preorder(t) + PendingPreorder(stack)
  {
    assert (stack + [t])[..|stack|] == stack;
  }

  /** What dispose still has to free: the subtree under the cursor, then the stack. */
  function DisposeTodo(current: Tree, stack: seq<Tree>): seq<Item>
  {
    Preorder(current) + PendingPreorder(stack)
  }

  /** Freeing the node under the cursor, pushing its right child when there is one. */
  lemma DisposeStep(current: Tree, stack: seq<Tree>)
    requires current.Node?
    ensures current.right != Nil ==>
      DisposeTodo(current, stack) == [ItemOf(current)] + DisposeTodo(current.left, stack + [current.right])
    ensures current.right == Nil ==>
      DisposeTodo(current, stack) == [ItemOf(current)] + DisposeTodo(current.left, stack)
  {
    NodeTraversals(current);
    Assoc4([ItemOf(current)], Preorder(current.left), Preorder(current.right), PendingPreorder(stack));
    if current.right != Nil {
      PendingPreorderPush(stack, current.right);
    }
  }

  /** Popping the stack at a null cursor. */
  lemma DisposePop(stack: seq<Tree>)
    requires stack != []
    ensures DisposeTodo(Nil, stack) == DisposeTodo(stack[|stack| - 1], stack[..|stack| - 1])
  {
  }

  /**
   * bst_dispose: frees the node under the cursor after pushing its right
   * child and moving to its left child; at a null cursor it pops the stack.
   * Returns the tree left behind and the nodes in the order they were freed.
   */
  method Dispose(tree: Tree) returns (r: Tree, freed: seq<Item>)
    ensures r == Init()
    ensures freed == Preorder(tree)
  {
    if tree == Nil {
      return tree, [];
    }
    var stack: seq<Tree> := [];
    var current := tree;
    freed := [];
    while current != Nil || stack != []
      invariant AllNodes(stack)
      invariant freed + DisposeTodo(current, stack) == Preorder(tree)
      decreases |Preorder(tree)| - |freed|, |stack| + (if current == Nil then 1 else 0)
    {
      if current != Nil {
        DisposeStep(current, stack);
        AllNodesPush(stack, current.right);
        var stack' := if current.right != Nil then stack + [current.right] else stack;
        Assoc3(freed, [ItemOf(current)], DisposeTodo(current.left, stack'));
        freed := freed + [ItemOf(current)];
        stack := stack';
        current := current.left;
      } else {
        DisposePop(stack);
        AllNodesPop(stack);
        current := stack[|stack| - 1];
        stack := stack[..|stack| - 1];
      }
    }
    r := current;
  }

  /**
   * What a preorder stack still has to emit, top first: every stacked node
   * is already emitted with its left spine, and its right subtree is pending.
   */
  function PendingRight(stack: seq<Tree>): seq<Item>
    decreases |stack|
  {
    if stack == [] then []
    else
      var top := stack[|stack| - 1];
      (if top.Node? then Preorder(top.right) else []) + PendingRight(stack[..|stack| - 1])
  }

  /** Emitting a spine node and pushing it: its right subtree becomes pending. */
  lemma PreorderStep(current: Tree, stack: seq<Tree>)
    requires current.Node?
    ensures Preorder(current) + PendingRight(stack) ==
      [ItemOf(current)] + (Preorder(current.left) + PendingRight(stack + [current]))
  {
    assert (stack + [current])[..|stack|] == stack;
    NodeTraversals(current);
    Assoc4([ItemOf(current)], Preorder(current.left), Preorder(current.right), PendingRight(stack));
  }

  /** Popping a node from a preorder stack. */
  lemma PreorderPop(stack: seq<Tree>)
    requires stack != [] && stack[|stack| - 1].Node?
    ensures PendingRight(stack) == Preorder(stack[|stack| - 1].right) + PendingRight(stack[..|stack| - 1])
  {
  }

  /**
   * bst_leftmost_preorder: emits the nodes of the left spine of `tree`,
   * pushing each one.
   */
  method LeftmostPreorder(tree: Tree, stack: seq<Tree>, items: seq<Item>)
    returns (stack': seq<Tree>, items': seq<Item>)
    ensures items' + PendingRight(stack') == items + (Preorder(tree) + PendingRight(stack))
    ensures |stack'| - |stack| == |items'| - |items|
    ensures |stack| <= |stack'|
    ensures AllNodes(stack) ==> AllNodes(stack')
  {
    stack', items' := stack, items;
    var current := tree;
    while current != Nil
      invariant items' + (Preorder(current) + PendingRight(stack')) == items + (Preorder(tree) + PendingRight(stack))
      invariant |stack'| - |stack| == |items'| - |items|
      invariant |stack| <= |stack'|
      invariant AllNodes(stack) ==> AllNodes(stack')
      decreases Size(current)
    {
      PreorderStep(current, stack');
      Assoc3(items', [ItemOf(current)], Preorder(current.left) + PendingRight(stack' + [current]));
      AllNodesPush(stack', current);
      items' := items' + [ItemOf(current)];
      stack' := stack' + [current];
      current := current.left;
    }
  }

  /** bst_preorder: the left spine, then for each popped node the left spine of its right child. */
  method PreorderWalk(tree: Tree, items: seq<Item>) returns (items': seq<Item>)
    ensures items' == RecBst.PreorderInto(tree, items)
    ensures items' == items + Preorder(tree)
  {
    var stack: seq<Tree>;
    stack, items' := LeftmostPreorder(tree, [], items);
    while stack != []
      invariant AllNodes(stack)
      invariant items' + PendingRight(stack) == items + Preorder(tree)
      decreases |items| + |Preorder(tree)| - |items'|, |stack|
    {
      var top := stack[|stack| - 1];
      AllNodesPop(stack);
      PreorderPop(stack);
      var rest := stack[..|stack| - 1];
      var stack', items'' := LeftmostPreorder(top.right, rest, items');
      stack, items' := stack', items'';
    }
  }

  /** What an inorder stack still has to emit, top first: each stacked node, then its right subtree. */
  function PendingInorder(stack: seq<Tree>): seq<Item>
    decreases |stack|
  {
    if stack == [] then []
    else
      var top := stack[|stack| - 1];
      (if top.Node? then [ItemOf(top)] + Inorder(top.right) else []) + PendingInorder(stack[..|stack| - 1])
  }

  /** Pushing a spine node: it and its right subtree become pending after its left subtree. */
  lemma InorderStep(current: Tree, stack: seq<Tree>)
    requires current.Node?
    ensures Inorder(current) + PendingInorder(stack) == Inorder(current.left) + PendingInorder(stack + [current])
  {
    assert (stack + [current])[..|stack|] == stack;
    NodeTraversals(current);
    Assoc4(Inorder(current.left), [ItemOf(current)], Inorder(current.right), PendingInorder(stack));
  }

  /** Popping a node from an inorder stack. */
  lemma InorderPop(stack: seq<Tree>)
    requires stack != [] && stack[|stack| - 1].Node?
    ensures PendingInorder(stack) ==
      [ItemOf(stack[|stack| - 1])] + (Inorder(stack[|stack| - 1].right) + PendingInorder(stack[..|stack| - 1]))
  {
    var top := stack[|stack| - 1];
    Assoc3([ItemOf(top)], Inorder(top.right), PendingInorder(stack[..|stack| - 1]));
  }

  /** bst_leftmost_inorder: pushes the nodes of the left spine of `tree`. */
  method LeftmostInorder(tree: Tree, stack: seq<Tree>) returns (stack': seq<Tree>)
    ensures PendingInorder(stack') == Inorder(tree) + PendingInorder(stack)
    ensures |stack| <= |stack'|
    ensures AllNodes(stack) ==> AllNodes(stack')
  {
    stack' := stack;
    var current := tree;
    while current != Nil
      invariant Inorder(current) + PendingInorder(stack') == Inorder(tree) + PendingInorder(stack)
      invariant |stack| <= |stack'|
      invariant AllNodes(stack) ==> AllNodes(stack')
      decreases Size(current)
    {
      InorderStep(current, stack');
      AllNodesPush(stack', current);
      stack' := stack' + [current];
      current := current.left;
    }
  }

  /** bst_inorder: pop a node, emit it, push the left spine of its right child. */
  method InorderWalk(tree: Tree, items: seq<Item>) returns (items': seq<Item>)
    ensures items' == RecBst.InorderInto(tree, items)
    ensures items' == items + Inorder(tree)
  {
    var stack := LeftmostInorder(tree, []);
    items' := items;
    while stack != []
      invariant AllNodes(stack)
      invariant items' + PendingInorder(stack) == items + Inorder(tree)
      decreases |PendingInorder(stack)|
    {
      var top := stack[|stack| - 1];
      AllNodesPop(stack);
      InorderPop(stack);
      var rest := stack[..|stack| - 1];
      Assoc3(items', [ItemOf(top)], Inorder(top.right) + PendingInorder(rest));
      items' := items' + [ItemOf(top)];
      stack := LeftmostInorder(top.right, rest);
    }
  }

  /**
   * What a postorder stack still has to emit, top first: a node marked
   * true (first visit) still needs its right subtree and then itself, a
   * node marked false only itself.
   */
  function PendingPostorder(stack: seq<Tree>, firstVisit: seq<bool>): seq<Item>
    requires |stack| == |firstVisit|
    decreases |stack|
  {
    if stack == [] then []
    else
      var top := stack[|stack| - 1];
      var rest := PendingPostorder(stack[..|stack| - 1], firstVisit[..|stack| - 1]);
      if top.Nil? then rest
      else if firstVisit[|stack| - 1] then Postorder(top.right) + ([ItemOf(top)] + rest)
      else [ItemOf(top)] + rest
  }

  /** Loop iterations a postorder stack still needs: two per node of a first visit's right subtree. */
  function PostorderWork(stack: seq<Tree>, firstVisit: seq<bool>): nat
    requires |stack| == |firstVisit|
    decreases |stack|
  {
    if stack == [] then 0
    else
      var top := stack[|stack| - 1];
      var rest := PostorderWork(stack[..|stack| - 1], firstVisit[..|stack| - 1]);
      if top.Nil? then rest
      else if firstVisit[|stack| - 1] then 2 + 2 * Size(top.right) + rest
      else 1 + rest
  }

  /** Pushing a node with its marker. */
  lemma PostorderPush(stack: seq<Tree>, firstVisit: seq<bool>, t: Tree, first: bool)
    requires |stack| == |firstVisit| && t.Node?
    ensures PendingPostorder(stack + [t], firstVisit + [first]) ==
      if first then Postorder(t.right) + ([ItemOf(t)] + PendingPostorder(stack, firstVisit))
      else [ItemOf(t)] + PendingPostorder(stack, firstVisit)
    ensures PostorderWork(stack + [t], firstVisit + [first]) ==
      (if first then 2 + 2 * Size(t.right) else 1) + PostorderWork(stack, firstVisit)
  {
    assert (stack + [t])[..|stack|] == stack;
    assert (firstVisit + [first])[..|stack|] == firstVisit;
  }

  /** Popping a node with its marker. */
  lemma PostorderPop(stack: seq<Tree>, firstVisit: seq<bool>)
    requires |stack| == |firstVisit| && stack != [] && stack[|stack| - 1].Node?
    ensures var top, rest, marks := stack[|stack| - 1], stack[..|stack| - 1], firstVisit[..|stack| - 1];
      PendingPostorder(stack, firstVisit) ==
        (if firstVisit[|stack| - 1] then Postorder(top.right) + ([ItemOf(top)] + PendingPostorder(rest, marks))
         else [ItemOf(top)] + PendingPostorder(rest, marks)) &&
      PostorderWork(stack, firstVisit) ==
        (if firstVisit[|stack| - 1] then 2 + 2 * Size(top.right) else 1) + PostorderWork(rest, marks)
  {
  }

  /** Pushing a spine node on its first visit. */
  lemma PostorderStep(current: Tree, stack: seq<Tree>, firstVisit: seq<bool>)
    requires |stack| == |firstVisit| && current.Node?
    ensures Postorder(current) + PendingPostorder(stack, firstVisit) ==
      Postorder(current.left) + PendingPostorder(stack + [current], firstVisit + [true])
    ensures 2 * Size(current) + PostorderWork(stack, firstVisit) ==
      2 * Size(current.left) + PostorderWork(stack + [current], firstVisit + [true])
  {
    PostorderPush(stack, firstVisit, current, true);
    NodeTraversals(current);
    Assoc4(Postorder(current.left), Postorder(current.right), [ItemOf(current)], PendingPostorder(stack, firstVisit));
  }

  /**
   * bst_leftmost_postorder: pushes the nodes of the left spine of `tree`,
   * each with the marker true (first visit); the two stacks grow together.
   */
  method LeftmostPostorder(tree: Tree, stack: seq<Tree>, firstVisit: seq<bool>)
    returns (stack': seq<Tree>, firstVisit': seq<bool>)
    requires |stack| == |firstVisit|
    ensures |stack'| == |firstVisit'|
    ensures PendingPostorder(stack', firstVisit') == Postorder(tree) + PendingPostorder(stack, firstVisit)
    ensures PostorderWork(stack', firstVisit') == 2 * Size(tree) + PostorderWork(stack, firstVisit)
    ensures |stack| <= |stack'|
    ensures AllNodes(stack) ==> AllNodes(stack')
  {
    stack', firstVisit' := stack, firstVisit;
    var current := tree;
    while current != Nil
      invariant |stack'| == |firstVisit'|
      invariant Postorder(current) + PendingPostorder(stack', firstVisit') ==
        Postorder(tree) + PendingPostorder(stack, firstVisit)
      invariant 2 * Size(current) + PostorderWork(stack', firstVisit') ==
        2 * Size(tree) + PostorderWork(stack, firstVisit)
      invariant |stack| <= |stack'|
      invariant AllNodes(stack) ==> AllNodes(stack')
      decreases Size(current)
    {
      PostorderStep(current, stack', firstVisit');
      AllNodesPush(stack', current);
      stack' := stack' + [current];
      firstVisit' := firstVisit' + [true];
      current := current.left;
    }
  }

  /**
   * bst_postorder: pop a node and its marker; on a first visit push it back
   * marked false and push the left spine of its right child, otherwise emit it.
   */
  method PostorderWalk(tree: Tree, items: seq<Item>) returns (items': seq<Item>)
    ensures items' == RecBst.PostorderInto(tree, items)
    ensures items' == items + Postorder(tree)
  {
    var stack: seq<Tree>, goFromLeft: seq<bool>;
    stack, goFromLeft := LeftmostPostorder(tree, [], []);
    items' := items;
    while stack != []
      invariant |stack| == |goFromLeft|
      invariant AllNodes(stack)
      invariant items' + PendingPostorder(stack, goFromLeft) == items + Postorder(tree)
      decreases PostorderWork(stack, goFromLeft)
    {
      var top := stack[|stack| - 1];
      var goneLeft := goFromLeft[|goFromLeft| - 1];
      AllNodesPop(stack);
      PostorderPop(stack, goFromLeft);
      stack, goFromLeft := stack[..|stack| - 1], goFromLeft[..|goFromLeft| - 1];
      if goneLeft {
        PostorderPush(stack, goFromLeft, top, false);
        AllNodesPush(stack, top);
        stack, goFromLeft := LeftmostPostorder(top.right, stack + [top], goFromLeft + [false]);
      } else {
        Assoc3(items', [ItemOf(top)], PendingPostorder(stack, goFromLeft));
        items' := items' + [ItemOf(top)];
      }
    }
  }
}
