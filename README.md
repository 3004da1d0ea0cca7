# Binary search trees and a chained hash table, modelled in Dafny

This project models the two abstract data types of a C course assignment and the code built on them:

- a binary search tree keyed by `char` with `int` values, written twice:
  - recursively (`btree/rec/btree.c`);
  - iteratively (`btree/iter/btree.c`), with pointer-to-pointer walks and explicit node stacks;
- a letter-frequency counter and a tree balancer built on that tree (`btree/exa/exa.c`);
- a hash table with explicitly chained synonyms (`hashtable/hashtable.c`).

Modules:

- `Options` (`options.dfy`): an optional value, standing in for a nullable pointer returned by a lookup.
- `BstTree` (`bst_tree.dfy`): the tree datatype and what a tree means.
  - The key/value map (`Contents`) and the search-tree ordering (`IsBST`).
  - The three traversal sequences, the node count, the height and height balance.
  - Lemmas relating them: the in-order sequence of a search tree ascends, and it determines the map.
- `RecBst` (`bst_rec.dfy`): the recursive variant.
  - Each operation is a function on the datatype. A call that rewrites `*tree` returns the rebuilt tree.
  - The traversals append to an item sequence.
- `IterBst` (`bst_iter.dfy`): the iterative variant, as methods with `while` loops.
  - The `bst_node_t **` walk is a zipper: the path of frames from the root, which `Plug` rebuilds around the subtree at the cursor.
  - The node stacks are sequences with the top at the end. Postorder keeps a parallel `seq<bool>` of first-visit flags.
  - `Search`, `Delete` and the three traversals are proved equal to their recursive counterparts, so the properties of `RecBst` carry over to them.
  - `Insert` is proved equal to the recursive insert on non-empty trees only. On an empty tree the iterative insert leaves the tree empty (see Findings).
  - `ReplaceByRightmost` requires a non-empty subtree, as the C code assumes, and on such subtrees it equals the recursive version. The recursive version's no-op on an empty subtree has no iterative counterpart.
  - `Dispose` agrees with the recursive version only in the final tree: both end as `Init()`. The iterative loop frees a node before its subtrees, so it releases the nodes in preorder, while the recursive one releases them in postorder.
- `BstExa` (`bst_exa.dfy`): the counter and the balancer.
  - `letter_count`: a loop doing search-then-insert.
  - `bst_to_array`: fills a `NodeBuffer` class, a fixed-capacity array with a size field.
  - `array_to_bst`: the midpoint rebuild.
  - `bst_balance`.
- `HashTable` (`hashtable.dfy`): the table is an `array<seq<Item>>`, one chain per bucket, listed from the bucket pointer along the `next` links.
  - Every operation is a method over that array.
  - Each method is specified by a function on the bucket sequence. The lemmas are stated over those functions.

A failed `malloc` is a `mallocOk: bool` parameter, so both outcomes are covered.

### Letter counter: documentation versus code

The doc comment of `letter_count` (btree/exa/exa.c:15-33) counts the letters a-z without regard to case, the space, and all other characters together under `'_'`. It does not name digits. Its example, on `"abBccc_ 123 *"`, gives `'_'` the count 5, which counts the three digits as "other" characters. The code (btree/exa/exa.c:43-47) keeps each digit under its own key. The model follows the code. `BstExa.LetterCountExample` proves what the code yields on that example:

- `'_'`: 2
- `'1'`, `'2'`, `'3'`: 1 each
- the letters and the space as documented

## Model

| member | source | states |
|---|---|---|
| BstTree.Init | btree/rec/btree.c:20-23 | The initialised tree is empty: no keys, an empty map, a search tree with no nodes. |
| BstTree.Contents | btree/rec/btree.c:66-102 | The map a tree stands for has exactly the tree's keys. |
| BstTree.InorderAscendingIffBST | btree/rec/btree.c:55-65 | A tree satisfies the search-tree ordering exactly when its in-order keys strictly ascend. |
| BstTree.InorderKeys | btree/rec/btree.c:247-256 | The keys listed in order are exactly the keys of the tree. |
| BstTree.TraversalLengths | btree/rec/btree.c:229-274 | Preorder, inorder and postorder each list as many items as the tree has nodes. |
| BstTree.TraversalsPermute | btree/rec/btree.c:229-274 | The three traversals list the same items, each node once. |
| BstTree.ContentsFromInorder | btree/rec/btree.c:247-256 | The key/value map is the one the in-order sequence spells out. |
| BstTree.SameInorder | btree/exa/exa.c:131-165 | Two trees with the same in-order sequence hold the same pairs and are search trees together. |
| RecBst.Search | btree/rec/btree.c:34-53 | On a search tree it succeeds exactly when the key is present, and then yields its value. On a miss the caller's value is returned untouched. |
| RecBst.Insert | btree/rec/btree.c:66-102 | An empty subtree gets a single leaf. The key set grows by the key unless the allocation fails for a new key, when the tree is unchanged. The ordering is preserved. |
| RecBst.InsertContents | btree/rec/btree.c:66-102 | On a search tree the key then maps to the new value and every other pair is unchanged. On allocation failure for a new key the map is unchanged. |
| RecBst.InsertSize | btree/rec/btree.c:73-101 | A node is added only for a new key whose allocation succeeds. |
| RecBst.ReplaceByRightmost | btree/rec/btree.c:116-133 | An empty subtree leaves the target as it was. Otherwise the target receives the largest key of the subtree, and the subtree loses exactly that key and stays ordered. |
| RecBst.ReplaceByRightmostContents | btree/rec/btree.c:120-128 | The value moved into the target is the one stored with that largest key. The remaining subtree holds all other pairs and has one node fewer. |
| RecBst.Delete | btree/rec/btree.c:148-194 | An absent key leaves the tree unchanged. On a search tree the key is gone and the ordering holds. |
| RecBst.DeleteContents | btree/rec/btree.c:148-194 | On a search tree exactly the key's pair is removed, and the node count drops by one only when the key was present. |
| RecBst.DeleteRootContents | btree/rec/btree.c:156-184 | Deleting the root's key removes exactly that pair, in each of the leaf, one-child and two-children cases. |
| RecBst.DeleteUsesPredecessor | btree/rec/btree.c:180-184 | A node with two children is replaced by its in-order predecessor, the largest key of its left subtree, with that key's value. The right subtree stays in place. |
| RecBst.DeleteIdempotent | btree/rec/btree.c:148-194 | Deleting a key twice is the same as deleting it once. |
| RecBst.InsertThenSearch | btree/rec/btree.c:34-102 | After an insert the key is found with the new value, and searches for other keys answer as before. |
| RecBst.DeleteThenSearch | btree/rec/btree.c:34-194 | After a delete the key is not found, and searches for other keys answer as before. |
| RecBst.Dispose | btree/rec/btree.c:205-220 | The tree ends as after bst_init. The nodes are released in postorder, each once. |
| RecBst.PreorderInto | btree/rec/btree.c:229-238 | Appends exactly the node-left-right sequence to the buffer. |
| RecBst.InorderInto | btree/rec/btree.c:247-256 | Appends exactly the left-node-right sequence to the buffer. |
| RecBst.PostorderInto | btree/rec/btree.c:265-274 | Appends exactly the left-right-node sequence to the buffer. |
| RecBst.InsertAbove | btree/rec/btree.c:66-102 | A key above all keys is appended to the in-order sequence. Keys inserted in increasing order build a right chain whose height grows by one with each key. |
| IterBst.PlugSnoc | btree/iter/btree.c:78-94 | Stepping the cursor one link down extends the path by one frame and rebuilds the same tree. |
| IterBst.Search | btree/iter/btree.c:35-58 | Answers as the recursive search does: found exactly when the key is present, with its value. On a miss the caller's value is kept. |
| IterBst.Insert | btree/iter/btree.c:71-122 | An empty tree stays empty. On a non-empty tree it agrees with the recursive insert: the ordering is kept, the key maps to the value and other pairs are unchanged. |
| IterBst.ReplaceByRightmost | btree/iter/btree.c:137-151 | Agrees with the recursive version. The target gets the largest key of the subtree and its value, and the subtree loses exactly that pair. |
| IterBst.Delete | btree/iter/btree.c:166-213 | Agrees with the recursive delete. An absent key is a no-op, and on a search tree exactly the key's pair is removed with the ordering kept. |
| IterBst.Dispose | btree/iter/btree.c:225-274 | The loop runs until both the cursor and the node stack are empty. The tree then ends as after bst_init, and every node has been released exactly once, in preorder. |
| IterBst.LeftmostPreorder | btree/iter/btree.c:285-297 | Emits the nodes of the left spine and pushes them. Items emitted plus the right subtrees still pending equal everything before plus this subtree's preorder plus what was pending. |
| IterBst.PreorderWalk | btree/iter/btree.c:307-322 | Appends exactly the recursive preorder sequence. |
| IterBst.LeftmostInorder | btree/iter/btree.c:333-342 | Pushes the left spine. The pending in-order work becomes this subtree's inorder followed by what was pending. |
| IterBst.InorderWalk | btree/iter/btree.c:352-367 | Appends exactly the recursive inorder sequence. |
| IterBst.LeftmostPostorder | btree/iter/btree.c:379-386 | Pushes the left spine with first-visit flags, keeping the node stack and the flag stack of equal height. The pending postorder work becomes this subtree's postorder followed by what was pending. |
| IterBst.PostorderWalk | btree/iter/btree.c:396-430 | Appends exactly the recursive postorder sequence, with the two stacks of equal height throughout. |
| IterBst.PostorderPop | btree/iter/btree.c:411-429 | Popping a node on its first visit leaves its right subtree's postorder and then the node itself to do. On the second visit only the node is left. |
| BstExa.Classify | btree/exa/exa.c:43-58 | Every key is a lower-case letter, a digit, a space or `'_'`. A character is its own key exactly when it is one of those. An upper-case letter goes to the letter 32 codes further on. Every other character goes to `'_'`. |
| BstExa.ClassifyFoldsCase | btree/exa/exa.c:50-53 | An upper-case letter counts under its lower-case letter. |
| BstExa.ClassifyIdempotent | btree/exa/exa.c:43-58 | Classifying a key again gives the same key. |
| BstExa.CStringLength | btree/exa/exa.c:39 | The loop runs up to the first NUL, or to the end of the input when there is none. |
| BstExa.OccurrencesPositive | btree/exa/exa.c:36-73 | A count is positive exactly when some input character is classified to that key. |
| BstExa.TallyCounts | btree/exa/exa.c:36-73 | The map built from the input holds exactly the keys that occur, each with its number of occurrences. |
| BstExa.LetterCount | btree/exa/exa.c:34-74 | Starting from an empty tree, the result is a search tree. Its keys are the classified keys that occur before the terminator, each mapped to the number of characters classified to it. |
| BstExa.LetterCountExample | btree/exa/exa.c:23-30 | On `"abBccc_ 123 *"` the code counts a:1, b:2, c:3, space:2, `'_'`:2 and each of 1, 2, 3 once. |
| BstExa.CountNodes | btree/exa/exa.c:89-94 | The node count is the length of the in-order sequence. |
| BstExa.NodeBuffer.constructor | btree/exa/exa.c:146-149 | A buffer of the given capacity starts with no items. |
| BstExa.ToArray | btree/exa/exa.c:96-111 | Appends the subtree's in-order items, truncated at the capacity. Size never exceeds capacity, and the array itself is kept. |
| BstExa.ArrayToBst | btree/exa/exa.c:113-129 | No contract beyond requiring that a non-empty range lies inside the buffer. `ArrayToBstRoot`, `ArrayToBstInorder` and `ArrayToBstBalanced` state what it builds. |
| BstExa.ArrayToBstRoot | btree/exa/exa.c:113-129 | An empty range, and only an empty range, gives no tree. Otherwise the root holds the item at index (start+end)/2. |
| BstExa.ArrayToBstInorder | btree/exa/exa.c:113-129 | The in-order sequence of the tree built over a range is exactly that range of the buffer, so the pairs and their order are kept. |
| BstExa.ArrayToBstBalanced | btree/exa/exa.c:113-129 | The tree built over a range is height-balanced, and its height is the bit length of the range's size. |
| BstExa.Rebuild | btree/exa/exa.c:157-161 | Over a whole non-empty buffer, the rebuilt tree lists the buffer in order and is balanced. Its height is the bit length of the item count, and the middle item is at the root. |
| BstExa.MinimumHeight | btree/exa/exa.c:79-81 | No tree is lower than the bit length of its node count. |
| BstExa.Balance | btree/exa/exa.c:131-165 | An empty tree, or a failed buffer allocation, leaves the tree unchanged. Otherwise the result keeps the in-order sequence, so the same pairs and ordering. It is balanced and of minimum height, with the item at index (n-1)/2 at the root. |
| BstExa.RebuildTree | btree/exa/exa.c:157-161 | Rebuilding over the full buffer of a non-empty tree gives the same pairs and ordering, balance, minimum height and the middle item at the root. |
| BstExa.BalanceSeven | btree/exa/exa.c:119-120 | Over seven items, such as the keys 1 to 7, the root is the fourth item and the height is 3. |
| HashTable.Hash | hashtable/hashtable.c:22-29 | The hash lies in 0 to HT_SIZE-1. |
| HashTable.GetHash | hashtable/hashtable.c:22-29 | The loop computes one plus the sum of the character codes, modulo HT_SIZE. |
| HashTable.HashPermutation | hashtable/hashtable.c:22-29 | Keys with the same characters in any order get the same hash. |
| HashTable.Find | hashtable/hashtable.c:57-63 | Gives the first position in the chain whose key matches, or none exactly when no item of the chain has the key. |
| HashTable.Init | hashtable/hashtable.c:34-40 | Every bucket is empty afterwards. |
| HashTable.Search | hashtable/hashtable.c:48-65 | Returns the first item of the key's bucket with that key, or none when there is none. The table is not changed. |
| HashTable.Get | hashtable/hashtable.c:104-111 | Returns the value of the item the search finds, or none exactly when the search finds nothing. |
| HashTable.ChainValue | hashtable/hashtable.c:104-111 | A value is found exactly when the chain holds the key, and it is the value stored with that key. |
| HashTable.Insert | hashtable/hashtable.c:75-94 | Only the key's bucket changes. A non-empty bucket has its head's value overwritten. An empty one gets the item, or stays empty when the allocation fails. |
| HashTable.InsertChain | hashtable/hashtable.c:77-93 | A non-empty chain keeps its length, keys and tail, with only the head's value replaced. An empty chain grows to one item only when the allocation succeeds. |
| HashTable.InsertTable | hashtable/hashtable.c:76-93 | All buckets other than the key's stay as they were. |
| HashTable.InsertThenGet | hashtable/hashtable.c:77-93 | The key reads back with the new value when its bucket was empty and the allocation succeeded, or when the bucket's head had that key. |
| HashTable.InsertCollision | hashtable/hashtable.c:77-82 | A second key hashing to an occupied bucket is not stored. It overwrites the value of the key already there. |
| HashTable.AnagramCollision | hashtable/hashtable.c:77-82 | Inserting "ab" and then "ba" leaves "ba" absent and gives "ab" the value meant for "ba". |
| HashTable.InsertChainIntended | hashtable/hashtable.c:67-74 | An existing key keeps the chain length. A new key grows the chain by one when the allocation succeeds. |
| HashTable.InsertIntendedThenGet | hashtable/hashtable.c:67-74 | After the documented insert the key reads back with its new value, and every other key reads back as before. |
| HashTable.InsertIntendedThenDelete | hashtable/hashtable.c:67-149 | Inserting, as documented, a key the chain lacks and then deleting it gives the chain back. |
| HashTable.RemoveFirst | hashtable/hashtable.c:131-147 | Exactly the first item with the key is unlinked and the rest keeps its order. With no such item the chain is unchanged. |
| HashTable.Delete | hashtable/hashtable.c:121-149 | Only the key's bucket changes, losing its first item with the key. An empty bucket or an absent key is a no-op. |
| HashTable.DeleteTable | hashtable/hashtable.c:122-148 | All buckets other than the key's stay as they were. |
| HashTable.DeleteThenFind | hashtable/hashtable.c:121-149 | In a chain with unique keys, the deleted key is no longer found and the keys stay unique. |
| HashTable.DeleteThenGet | hashtable/hashtable.c:104-149 | In a table whose chains hold at most one item each, as every table reached from `ht_init` by inserts and deletes does, `ht_get` finds nothing for a key just deleted. |
| HashTable.DeleteIdempotent | hashtable/hashtable.c:121-149 | In a chain with unique keys a second delete of the same key changes nothing. |
| HashTable.InsertLeavesOtherBuckets | hashtable/hashtable.c:76-148 | A key of another bucket reads back the same after an insert or a delete. |
| HashTable.InsertKeepsShort | hashtable/hashtable.c:77-93 | Insert never makes a chain longer than one item. |
| HashTable.DeleteKeepsShort | hashtable/hashtable.c:121-149 | Delete keeps every chain at most one item long. Together with `EmptyIsShort` and `InsertKeepsShort`, it gives that every table reached from `ht_init` by inserts and deletes has only such chains. |
| HashTable.EmptyIsShort | hashtable/hashtable.c:34-40 | After ht_init every chain has at most one item. |
| HashTable.EmptyHasNothing | hashtable/hashtable.c:34-40 | An initialised table holds no key. |
| HashTable.DeleteAll | hashtable/hashtable.c:157-171 | Every item of every chain is released once, bucket by bucket and each chain from its head. Every bucket is empty afterwards. |

## Left out

- Memory management: `malloc` and `free` are not modelled.
  - A node or item that is freed has left the tree or the chain.
  - A failed allocation is the `mallocOk` parameter.
  - `Dispose` and `DeleteAll` return the sequence of released items instead of freeing them.
- Node identity and aliasing.
  - In the C code a tree is a set of heap nodes. `array_to_bst` relinks the very nodes that `bst_to_array` stored, and `ht_get` returns a pointer into an item.
  - The model works on values. It does not capture that the same node objects are reused, nor that a returned pointer observes later updates.
- Each `bst_node_t **` walk is a path of frames rebuilt around the cursor, not an in-place link update.
- The stack abstract data type (`stack.h`) and the item buffer (`bst_items_t`, `bst_add_node_to_items`) are not part of this model.
  - Stacks are sequences with the top at the end.
  - The traversal buffer is an append-only sequence.
- A NULL handle (`tree == NULL` in `bst_balance`, a NULL table) cannot occur: trees and tables are values or non-null references.
- `bst_init` of the iterative file is the same assignment as in the recursive file. Both are `BstTree.Init`.
- Using `letter_count` with the iterative insert is not modelled: that insert never inserts into the fresh empty tree. `BstExa.LetterCount` uses the recursive insert.
- BstExa.LetterCount: assumes that every allocation succeeds. In the C code, a failed allocation when a key is seen for the first time drops that occurrence. The key stays absent until a later occurrence inserts it with the count 1, so its count ends too low.
- The C input string is modelled by `CStringLength`. The count runs up to the first NUL, or to the end when the sequence has none.
- Integer widths:
  - `int` counts, `int` in `get_hash` and `int` indices in `array_to_bst` are unbounded integers, so overflow is not modelled.
  - `char` keys of the tree are Dafny characters, compared as their codes.
- BstTree.IsBST: search-tree order is the order of Dafny character codes. The C comparisons `key < tree->key` (btree/rec/btree.c:45,93,187) and `tree->key < key` (btree/iter/btree.c:49,87,180) compare a `char`, which is 8 bits and signed on common platforms. So C orders the codes 0x80-0xFF below the ASCII codes, and codes above 0xFF have no C counterpart. The model agrees with the C order only for keys below 0x80. Every key the letter count produces is in that range.
- HashTable.Hash: characters are non-negative codes. The signed `char` of the C code, which could make a key's code sum negative and its bucket index negative, is not modelled.
- `string.h` semantics: `strlen` is the sequence length and `strcmp(...) == 0` is sequence equality.
- Float values of the hash table are type `real`. They are only stored and copied.
- HT_SIZE is a mutable global. It is the table array's length, required to be positive, so it is fixed for the duration of each call. MAX_HT_SIZE is defined in `hashtable.h`, which is not part of this model.
- `ht_insert` stores the caller's key pointer without copying it (hashtable/hashtable.c:90). The model stores the key's value.

## Findings

| source | as written | input that shows it | evidently intended | confidence | as-written member | corrected member |
|---|---|---|---|---|---|---|
| btree/iter/btree.c:72-74 | `bst_insert` returns at once when `*tree` is NULL, so it never inserts into an empty tree | insert of any key into an empty tree leaves it empty | a new leaf, as the doc comment (btree/iter/btree.c:63-64) and the recursive version say | not executed | IterBst.Insert | RecBst.InsertContents |
| hashtable/hashtable.c:77-82 | `ht_insert` overwrites the head's value whenever the bucket is non-empty, whatever the head's key, and never calls `ht_search` | insert "ab" then "ba" into an empty table: both hash alike, "ba" is not stored and "ab" gets its value | replace the value of the item with that key if there is one, else link a new item at the head of the chain (hashtable/hashtable.c:67-74) | not executed | HashTable.AnagramCollision | HashTable.InsertIntendedThenGet |
