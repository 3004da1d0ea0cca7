/**
 * The example program built on the search tree (btree/exa/exa.c): a
 * character-frequency count and a balancer that flattens a tree in order
 * and rebuilds it from the middle outwards.
 */
module BstExa {
  import opened BstTree
  import RecBst

  /** The keys the letter count can produce. */
  predicate IsCountKey(k: char)
  {
    'a' <= k <= 'z' || '0' <= k <= '9' || k == ' ' || k == '_'
  }

  /**
   * The key a character is counted under: lower-case letters, digits and
   * the space stand for themselves, an upper-case letter for its lower-case
   * form (32 code points further on), anything else for '_'.
   */
  function Classify(c: char): (k: char)
    ensures IsCountKey(k)
    ensures k == c <==> IsCountKey(c)
    ensures 'A' <= c <= 'Z' ==> k == (c as int + 32) as char
    ensures !IsCountKey(c) && !('A' <= c <= 'Z') ==> k == '_'
  {
    if 'a' <= c <= 'z' || '0' <= c <= '9' || c == ' ' then c
    else if 'A' <= c <= 'Z' then (c as int + 32) as char
    else '_'
  }

  /** Classifying is idempotent: a key is counted under itself. */
  lemma ClassifyIdempotent(c: char)
    ensures Classify(Classify(c)) == Classify(c)
  {
  }

  /** The count is case-insensitive: an upper-case letter and its lower-case form share a key. */
  lemma ClassifyFoldsCase(c: char)
    requires 'a' <= c <= 'z'
    ensures Classify((c as int - 32) as char) == c
  {
  }

  /** How many characters of `s` are classified under `key`. */
  function Occurrences(s: seq<char>, key: char): (n: nat)
    ensures n <= |s|
    ensures !IsCountKey(key) ==> n == 0
    decreases |s|
  {
    if s == [] then 0
    else Occurrences(s[..|s| - 1], key) + (if Classify(s[|s| - 1]) == key then 1 else 0)
  }

  /** A key occurs exactly when some character is classified under it. */
  lemma {:induction false} OccurrencesPositive(s: seq<char>, key: char)
    ensures Occurrences(s, key) > 0 <==> exists i :: 0 <= i < |s| && Classify(s[i]) == key
  {
    if s != [] {
      var init := s[..|s| - 1];
      OccurrencesPositive(init, key);
      if exists i :: 0 <= i < |init| && Classify(init[i]) == key {
        var i :| 0 <= i < |init| && Classify(init[i]) == key;
        assert s[i] == init[i];
      }
      if exists i :: 0 <= i < |s| && Classify(s[i]) == key {
        var i :| 0 <= i < |s| && Classify(s[i]) == key;
        if i < |init| {
          assert init[i] == s[i];
        }
      }
    }
  }

  /** The length of a C string: the index of the first NUL, or the whole sequence if there is none. */
  function CStringLength(s: seq<char>): (n: nat)
    ensures n <= |s|
    ensures n < |s| ==> s[n] == '\0'
    ensures forall j :: 0 <= j < n ==> s[j] != '\0'
  {
    if s == [] || s[0] == '\0' then 0
    else
      var n := 1 + CStringLength(s[1..]);
      assert forall j :: 1 <= j < n ==> s[j] == s[1..][j - 1];
      n
  }

  /** Appending a character adds one to the count of its key and leaves the others. */
  lemma OccurrencesSnoc(s: seq<char>, c: char, k: char)
    ensures Occurrences(s + [c], k) == Occurrences(s, k) + (if Classify(c) == k then 1 else 0)
  {
    assert (s + [c])[..|s|] == s;
  }

  /**
   * The tally of `s` as the loop builds it: each character bumps the count
   * of its key, which starts at 1 when the key is first seen.
   */
  function Tally(s: seq<char>): map<char, int>
    decreases |s|
  {
    if s == [] then map[]
    else
      var m := Tally(s[..|s| - 1]);
      var key := Classify(s[|s| - 1]);
      m[key := if key in m then m[key] + 1 else 1]
  }

  /** The tally holds exactly the keys that occur, each with its number of occurrences. */
  lemma {:induction false} TallyCounts(s: seq<char>)
    ensures forall k :: k in Tally(s) <==> Occurrences(s, k) > 0
    ensures forall k :: k in Tally(s) ==> Tally(s)[k] == Occurrences(s, k)
    decreases |s|
  {
    if s != [] {
      var init, c := s[..|s| - 1], s[|s| - 1];
      TallyCounts(init);
      assert s == init + [c];
      forall k
        ensures Occurrences(s, k) == Occurrences(init, k) + (if Classify(c) == k then 1 else 0)
      {
        OccurrencesSnoc(init, c, k);
      }
    }
  }

  /**
   * letter_count: starts from an empty tree and, for each character up to
   * the terminating NUL, looks its key up and inserts it again with the
   * count found plus one, or with 1. The resulting tree maps each key to
   * the number of characters classified under it.
   */
  method LetterCount(input: seq<char>) returns (tree: Tree)
    ensures IsBST(tree) && Contents(tree) == Tally(input[..CStringLength(input)])
    ensures forall k :: k in Contents(tree) <==> Occurrences(input[..CStringLength(input)], k) > 0
    ensures forall k :: k in Contents(tree) ==> Contents(tree)[k] == Occurrences(input[..CStringLength(input)], k)
  {
    tree := Init();
    var symbol := 0;
    while symbol < |input| && input[symbol] != '\0'
      invariant symbol <= CStringLength(input)
      invariant IsBST(tree) && Contents(tree) == Tally(input[..symbol])
    {
      var key := Classify(input[symbol]);
      var (found, value) := RecBst.Search(tree, key, 0);
      var count := if found then value + 1 else 1;
      RecBst.InsertContents(tree, key, count, true);
      tree := RecBst.Insert(tree, key, count, true);
      assert input[..symbol + 1][..symbol] == input[..symbol];
      symbol := symbol + 1;
    }
    TallyCounts(input[..symbol]);
  }

  /** The counts for the letters of the example below. */
  lemma CountExampleLetters()
    ensures var s := "abBccc";
      Occurrences(s, 'a') == 1 && Occurrences(s, 'b') == 2 && Occurrences(s, 'c') == 3 && Occurrences(s, ' ') == 0 &&
      Occurrences(s, '_') == 0 && Occurrences(s, '1') == 0 && Occurrences(s, '2') == 0 && Occurrences(s, '3') == 0
  {
    assert "abBccc"[..5] == "abBcc";
    assert "abBcc"[..4] == "abBc";
    assert "abBc"[..3] == "abB";
    assert "abB"[..2] == "ab";
    assert "ab"[..1] == "a";
  }

  /** The counts for the rest of the example below. */
  lemma CountExampleRest()
    ensures var s := "_ 123 *";
      Occurrences(s, 'a') == 0 && Occurrences(s, 'b') == 0 && Occurrences(s, 'c') == 0 && Occurrences(s, ' ') == 2 &&
      Occurrences(s, '_') == 2 && Occurrences(s, '1') == 1 && Occurrences(s, '2') == 1 && Occurrences(s, '3') == 1
  {
    assert "_ 123 *"[..6] == "_ 123 ";
    assert "_ 123 "[..5] == "_ 123";
    assert "_ 123"[..4] == "_ 12";
    assert "_ 12"[..3] == "_ 1";
    assert "_ 1"[..2] == "_ ";
    assert "_ "[..1] == "_";
  }

  /** Counting over a concatenation adds the counts of the two parts. */
  lemma {:induction false} OccurrencesConcat(a: seq<char>, b: seq<char>, k: char)
    ensures Occurrences(a + b, k) == Occurrences(a, k) + Occurrences(b, k)
    decreases |b|
  {
    if b == [] {
      assert a + b == a;
    } else {
      var init := b[..|b| - 1];
      OccurrencesConcat(a, init, k);
      assert (a + b)[..|a + b| - 1] == a + init;
    }
  }

  /**
   * The count for "abBccc_ 123 *": the digits keep keys of their own, so
   * '_' (from '_' and '*') ends at 2, not the 5 of the source's doc comment.
   */
  lemma LetterCountExample()
    ensures var s := "abBccc_ 123 *";
      Occurrences(s, 'a') == 1 && Occurrences(s, 'b') == 2 && Occurrences(s, 'c') == 3 &&
      Occurrences(s, ' ') == 2 && Occurrences(s, '_') == 2 &&
      Occurrences(s, '1') == 1 && Occurrences(s, '2') == 1 && Occurrences(s, '3') == 1
  {
    assert "abBccc_ 123 *" == "abBccc" + "_ 123 *";
    CountExampleLetters();
    CountExampleRest();
    forall k {
      OccurrencesConcat("abBccc", "_ 123 *", k);
    }
  }

  /** bst_count_nodes: the number of nodes, one per item of the in-order sequence. */
  function CountNodes(t: Tree): (n: nat)
    ensures n == |Inorder(t)|
  {
    match t
    case Nil => 0
    case Node(l, _, _, r) => CountNodes(l) + CountNodes(r) + 1
  }

  /** The first `n` items of `s`, or all of them if there are fewer. */
  function Truncate(s: seq<Item>, n: nat): (r: seq<Item>)
    ensures |r| <= n && r <= s
    ensures |s| <= n ==> r == s
  {
    if |s| <= n then s else s[..n]
  }

  /** Truncating twice around an append is truncating once. */
  lemma TruncateAppend(s: seq<Item>, t: seq<Item>, n: nat)
    ensures Truncate(Truncate(s, n) + t, n) == Truncate(s + t, n)
  {
    if |s| > n {
      assert (s + t)[..n] == s[..n];
    }
  }

  /** The item buffer bst_to_array fills: `nodes` has room for `capacity` items, `size` are used. */
  class NodeBuffer {
    const capacity: nat
    var nodes: array<Item>
    var size: nat

    ghost predicate Valid()
      reads this
    {
      nodes.Length == capacity && size <= capacity
    }

    /** The items stored so far. */
    function Contents(): seq<Item>
      reads this, nodes
      requires Valid()
    {
      nodes[..size]
    }

    constructor (capacity: nat)
      ensures Valid() && this.capacity == capacity && Contents() == []
      ensures fresh(nodes)
    {
      this.capacity := capacity;
      nodes := new Item[capacity](_ => Item('\0', 0));
      size := 0;
    }
  }

  /**
   * The three steps of bst_to_array on a node, the left subtree, the node
   * itself if there is room, the right subtree, compose to the whole subtree.
   */
  lemma ToArrayCompose(before: seq<Item>, l: seq<Item>, x: Item, r: seq<Item>, n: nat,
                       afterLeft: seq<Item>, afterNode: seq<Item>, after: seq<Item>)
    requires afterLeft == Truncate(before + l, n)
    requires |afterLeft| < n ==> afterNode == afterLeft + [x]
    requires |afterLeft| >= n ==> afterNode == afterLeft
    requires after == Truncate(afterNode + r, n)
    ensures after == Truncate(before + (l + [x] + r), n)
  {
    assert afterNode == Truncate(afterLeft + [x], n);
    TruncateAppend(before + l, [x], n);
    TruncateAppend(before + l + [x], r, n);
    assert before + l + [x] + r == before + (l + [x] + r);
  }

  /**
   * bst_to_array: appends the nodes of `node` in order, each only while the
   * buffer has room; the buffer never grows past its capacity.
   */
  method ToArray(node: Tree, items: NodeBuffer)
    requires items.Valid()
    modifies items, items.nodes
    ensures items.Valid() && items.nodes == old(items.nodes)
    ensures items.Contents() == Truncate(old(items.Contents()) + Inorder(node), items.capacity)
    decreases node
  {
    if node == Nil {
      assert old(items.Contents()) + [] == old(items.Contents());
      return;
    }
    ghost var before := items.Contents();
    ToArray(node.left, items);
    ghost var afterLeft := items.Contents();
    if items.size < items.capacity {
      items.nodes[items.size] := ItemOf(node);
      items.size := items.size + 1;
      assert items.Contents() == afterLeft + [ItemOf(node)];
    }
    ghost var afterNode := items.Contents();
    ToArray(node.right, items);
    ToArrayCompose(before, Inorder(node.left), ItemOf(node), Inorder(node.right), items.capacity,
      afterLeft, afterNode, items.Contents());
    NodeTraversals(node);
  }

  /** The number of binary digits of `n`: the height of the tree array_to_bst builds over `n` items. */
  function BitLength(n: nat): nat
  {
    if n == 0 then 0 else 1 + BitLength(n / 2)
  }

  function Pow2(h: nat): (p: nat)
    ensures p >= 1
  {
    if h == 0 then 1 else 2 * Pow2(h - 1)
  }

  /** One more item adds at most one digit. */
  lemma {:induction false} BitLengthStep(n: nat)
    ensures BitLength(n) <= BitLength(n + 1) <= BitLength(n) + 1
  {
    if n > 0 {
      BitLengthStep(n / 2);
      if (n + 1) / 2 != n / 2 {
        assert (n + 1) / 2 == n / 2 + 1;
      }
    }
  }

  /** `n` fits in `h` binary digits only if its bit length is at most `h`. */
  lemma {:induction false} BitLengthBound(n: nat, h: nat)
    requires n < Pow2(h)
    ensures BitLength(n) <= h
  {
    if n > 0 {
      BitLengthBound(n / 2, h - 1);
    }
  }

  /** A tree of height `h` holds fewer than 2^h nodes. */
  lemma {:induction false} SizeBelowPow2(t: Tree)
    ensures Size(t) < Pow2(Height(t))
  {
    match t
    case Nil =>
    case Node(l, _, _, r) =>
      SizeBelowPow2(l);
      SizeBelowPow2(r);
      PowMono(Height(l), Height(t) - 1);
      PowMono(Height(r), Height(t) - 1);
  }

  lemma {:induction false} PowMono(a: nat, b: nat)
    requires a <= b
    ensures Pow2(a) <= Pow2(b)
  {
    if a < b {
      PowMono(a, b - 1);
    }
  }

  /** No tree with `n` nodes is lower than BitLength(n). */
  lemma MinimumHeight(t: Tree)
    ensures BitLength(Size(t)) <= Height(t)
  {
    SizeBelowPow2(t);
    BitLengthBound(Size(t), Height(t));
  }

  /** How many indices lie in `start..end`, both ends included. */
  function Span(start: int, end: int): nat
  {
    if start <= end then end - start + 1 else 0
  }

  /**
   * array_to_bst: the item in the middle of `nodes[start..end]` (rounding
   * down) becomes the root, the items before and after it its two subtrees.
   */
  function ArrayToBst(start: int, end: int, nodes: seq<Item>): Tree
    requires start <= end ==> 0 <= start && end < |nodes|
    decreases end - start
  {
    if start > end then Nil
    else
      var mid := (start + end) / 2;
      Node(ArrayToBst(start, mid - 1, nodes), nodes[mid].key, nodes[mid].value, ArrayToBst(mid + 1, end, nodes))
  }

  /** An empty range, and only an empty range, gives no tree; otherwise the middle item is the root. */
  lemma ArrayToBstRoot(start: int, end: int, nodes: seq<Item>)
    requires start <= end ==> 0 <= start && end < |nodes|
    ensures start > end <==> ArrayToBst(start, end, nodes) == Nil
    ensures start <= end ==> ItemOf(ArrayToBst(start, end, nodes)) == nodes[(start + end) / 2]
  {
  }

  /** The tree array_to_bst builds lists exactly the range, in order. */
  lemma {:induction false} ArrayToBstInorder(start: int, end: int, nodes: seq<Item>)
    requires 0 <= start <= end + 1 <= |nodes|
    ensures Inorder(ArrayToBst(start, end, nodes)) == nodes[start..end + 1]
    decreases end - start
  {
    if start <= end {
      var mid := (start + end) / 2;
      Midpoint(start, end);
      ArrayToBstInorder(start, mid - 1, nodes);
      ArrayToBstInorder(mid + 1, end, nodes);
      ArrayToBstInorderStep(start, mid, end, nodes);
    }
  }

  /** One midpoint step of ArrayToBstInorder. */
  lemma ArrayToBstInorderStep(start: int, mid: int, end: int, nodes: seq<Item>)
    requires 0 <= start <= mid <= end < |nodes| && mid == (start + end) / 2
    requires Inorder(ArrayToBst(start, mid - 1, nodes)) == nodes[start..mid - 1 + 1]
    requires Inorder(ArrayToBst(mid + 1, end, nodes)) == nodes[mid + 1..end + 1]
    ensures Inorder(ArrayToBst(start, end, nodes)) == nodes[start..end + 1]
  {
    Unfold(start, mid, end, nodes);
    SliceAround(nodes, start, mid, end + 1);
  }

  /** One unfolding of array_to_bst over a non-empty range. */
  lemma Unfold(start: int, mid: int, end: int, nodes: seq<Item>)
    requires 0 <= start <= end < |nodes| && mid == (start + end) / 2
    ensures ArrayToBst(start, end, nodes) ==
      Node(ArrayToBst(start, mid - 1, nodes), nodes[mid].key, nodes[mid].value, ArrayToBst(mid + 1, end, nodes))
  {
  }

  /**
   * The tree array_to_bst builds is height-balanced and as low as a tree
   * over that many items can be.
   */
  lemma {:induction false} ArrayToBstBalanced(start: int, end: int, nodes: seq<Item>)
    requires 0 <= start <= end + 1 <= |nodes|
    ensures Balanced(ArrayToBst(start, end, nodes))
    ensures Height(ArrayToBst(start, end, nodes)) == BitLength(Span(start, end))
    decreases end - start
  {
    if start <= end {
      var mid := (start + end) / 2;
      Midpoint(start, end);
      ArrayToBstBalanced(start, mid - 1, nodes);
      ArrayToBstBalanced(mid + 1, end, nodes);
      BalanceStepAt(start, mid, end, nodes);
    }
  }

  /** One midpoint step of ArrayToBstBalanced. */
  lemma BalanceStepAt(start: int, mid: int, end: int, nodes: seq<Item>)
    requires 0 <= start <= mid <= end < |nodes| && mid == (start + end) / 2
    requires Balanced(ArrayToBst(start, mid - 1, nodes))
    requires Height(ArrayToBst(start, mid - 1, nodes)) == BitLength(Span(start, mid - 1))
    requires Balanced(ArrayToBst(mid + 1, end, nodes))
    requires Height(ArrayToBst(mid + 1, end, nodes)) == BitLength(Span(mid + 1, end))
    ensures Balanced(ArrayToBst(start, end, nodes))
    ensures Height(ArrayToBst(start, end, nodes)) == BitLength(Span(start, end))
  {
    Unfold(start, mid, end, nodes);
    var a, b := Span(start, mid - 1), Span(mid + 1, end);
    assert a == mid - start && b == end - mid;
    BalancedStep(ArrayToBst(start, mid - 1, nodes), nodes[mid], ArrayToBst(mid + 1, end, nodes), a, b, Span(start, end));
  }

  /** One midpoint step: subtrees over `a` and `b` items, `b` being `a` or one more, joined under a root. */
  lemma BalancedStep(left: Tree, x: Item, right: Tree, a: nat, b: nat, n: nat)
    requires Balanced(left) && Height(left) == BitLength(a)
    requires Balanced(right) && Height(right) == BitLength(b)
    requires a <= b <= a + 1 && n == a + b + 1
    ensures Balanced(Node(left, x.key, x.value, right))
    ensures Height(Node(left, x.key, x.value, right)) == BitLength(n)
  {
    BalancedHeights(a, b, n);
    JoinBalanced(left, x, right);
  }

  /**
   * Over `a` and `b` items, where `b` is `a` or one more, the bit lengths
   * differ by at most one, and over `n = a + b + 1` items it is one more
   * than over `b`.
   */
  lemma BalancedHeights(a: nat, b: nat, n: nat)
    requires a <= b <= a + 1 && n == a + b + 1
    ensures BitLength(a) <= BitLength(b) <= BitLength(a) + 1
    ensures BitLength(n) == 1 + BitLength(b)
  {
    BitLengthStep(a);
    assert n / 2 == b;
  }

  /** A node over two balanced subtrees whose heights differ by at most one, the right one being higher. */
  lemma JoinBalanced(left: Tree, x: Item, right: Tree)
    requires Balanced(left) && Balanced(right)
    requires Height(left) <= Height(right) <= Height(left) + 1
    ensures Balanced(Node(left, x.key, x.value, right))
    ensures Height(Node(left, x.key, x.value, right)) == Height(right) + 1
    ensures Inorder(Node(left, x.key, x.value, right)) == Inorder(left) + [x] + Inorder(right)
  {
  }

  /** The middle index rounds down: it leaves as many items after it as before, or one more. */
  lemma Midpoint(start: int, end: int)
    requires 0 <= start <= end
    ensures start <= (start + end) / 2 <= end
    ensures (start + end) / 2 - start <= end - (start + end) / 2 <= (start + end) / 2 - start + 1
  {
  }

  lemma SliceAround(s: seq<Item>, lo: int, mid: int, hi: int)
    requires 0 <= lo <= mid < hi <= |s|
    ensures s[lo..hi] == s[lo..mid] + [s[mid]] + s[mid + 1..hi]
  {
  }

  /**
   * bst_balance: an empty tree, or a failed allocation of the item buffer,
   * leaves the tree as it was. Otherwise the nodes are copied out in order
   * into a buffer sized by bst_count_nodes and rebuilt by array_to_bst over
   * the whole buffer: the same items in the same order, height-balanced, of
   * minimum height, with the item at index (n-1)/2 at the root.
   */
  method Balance(tree: Tree, mallocOk: bool) returns (r: Tree)
    ensures tree == Nil || !mallocOk ==> r == tree
    ensures Inorder(r) == Inorder(tree)
    ensures Contents(r) == Contents(tree) && (IsBST(r) <==> IsBST(tree))
    ensures mallocOk ==> Balanced(r) && Height(r) == BitLength(CountNodes(tree))
    ensures tree != Nil && mallocOk ==> r.Node? && ItemOf(r) == Inorder(tree)[(CountNodes(tree) - 1) / 2]
  {
    if tree == Nil {
      return tree;
    }
    var total := CountNodes(tree);
    if !mallocOk {
      return tree;
    }
    var items := new NodeBuffer(total);
    ToArray(tree, items);
    assert [] + Inorder(tree) == Inorder(tree);
    var last := items.size - 1;
    ghost var s := items.nodes[..];
    assert s == items.Contents();
    r := ArrayToBst(0, last, items.nodes[..]);
    RebuildTree(tree, s, last);
  }

  /**
   * What array_to_bst makes of a whole non-empty buffer whose last index is
   * `last`: the buffer in order, balanced, of minimum height, with the item
   * at index last/2 at the root.
   */
  lemma Rebuild(s: seq<Item>, last: int)
    requires 0 <= last && last == |s| - 1
    ensures var r := ArrayToBst(0, last, s);
      Inorder(r) == s && Balanced(r) && Height(r) == BitLength(last + 1) &&
      r.Node? && ItemOf(r) == s[last / 2]
  {
    ArrayToBstBalanced(0, last, s);
    ArrayToBstInorder(0, last, s);
    ArrayToBstRoot(0, last, s);
    assert Span(0, last) == last + 1;
    assert s[0..last + 1] == s;
    assert (0 + last) / 2 == last / 2;
  }

  /** The same for the in-order sequence of a non-empty tree, read back in terms of the tree. */
  lemma RebuildTree(tree: Tree, s: seq<Item>, last: int)
    requires tree != Nil && s == Inorder(tree) && last == |s| - 1
    ensures var r := ArrayToBst(0, last, s);
      Inorder(r) == Inorder(tree) && Contents(r) == Contents(tree) && (IsBST(r) <==> IsBST(tree)) &&
      Balanced(r) && Height(r) == BitLength(CountNodes(tree)) &&
      r.Node? && ItemOf(r) == Inorder(tree)[(CountNodes(tree) - 1) / 2]
  {
    Rebuild(s, last);
    SameInorder(ArrayToBst(0, last, s), tree);
  }

  /**
   * Rebuilding over seven items, such as the keys 1 to 7 inserted in
   * increasing order, puts the fourth item at the root of a tree of
   * height 3.
   */
  lemma BalanceSeven(s: seq<Item>, last: int)
    requires |s| == 7 && last == |s| - 1
    ensures var r := ArrayToBst(0, last, s);
      r.Node? && ItemOf(r) == s[3] && Height(r) == 3 && Balanced(r) && Inorder(r) == s
  {
    Rebuild(s, last);
    assert BitLength(7) == 3;
  }
}
