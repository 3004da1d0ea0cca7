/**
 * A hash table with explicitly chained synonyms. The table is an array of
 * HT_SIZE buckets; each bucket is the chain of items hashed to it, listed
 * from the bucket pointer along the `next` links. The number of buckets is
 * the length of the array.
 */
module HashTable {
  import opened Options

  /** A chain item: its key and its value (a C float, modelled as a real). */
  datatype Item = Item(key: string, value: real)

  // ---------------------------------------------------------------------
  // The hash function
  // ---------------------------------------------------------------------

  /** The sum of the character codes of `key`, added from the first to the last. */
  function CodeSum(key: string): nat
  {
    if key == [] then 0 else CodeSum(key[..|key| - 1]) + key[|key| - 1] as int
  }

  /** get_hash: one plus the code sum, reduced modulo the number of buckets. */
  function Hash(key: string, size: nat): (h: nat)
    requires size > 0
    ensures h < size
  {
    (1 + CodeSum(key)) % size
  }

  /** get_hash, with its accumulating loop over the characters of the key. */
  method GetHash(key: string, size: nat) returns (h: nat)
    requires size > 0
    ensures h == Hash(key, size) && h < size
  {
    var result := 1;
    var i := 0;
    while i < |key|
      invariant 0 <= i <= |key|
      invariant result == 1 + CodeSum(key[..i])
    {
      assert key[..i + 1][..i] == key[..i];
      result := result + key[i] as int;
      i := i + 1;
    }
    assert key[..|key|] == key;
    h := result % size;
  }

  lemma {:induction false} CodeSumConcat(a: string, b: string)
    ensures CodeSum(a + b) == CodeSum(a) + CodeSum(b)
    decreases |b|
  {
    if b == [] {
      assert a + b == a;
    } else {
      var b' := b[..|b| - 1];
      assert (a + b)[..|a + b| - 1] == a + b';
      CodeSumConcat(a, b');
    }
  }

  /** The code sum only depends on which characters occur, not on their order. */
  lemma {:induction false} CodeSumPermutation(a: string, b: string)
    requires multiset(a) == multiset(b)
    ensures CodeSum(a) == CodeSum(b)
    decreases |a|
  {
    if a == [] {
      assert |b| == |multiset(b)| == 0;
    } else {
      var j := MatchLast(a, b);
      CodeSumPermutation(a[..|a| - 1], b[..j] + b[j + 1..]);
      CodeSumRemove(b, j);
    }
  }

  /**
   * The last character of `a` occurs in `b` at some position `j`, and
   * without them the two strings still hold the same characters.
   */
  lemma MatchLast(a: string, b: string) returns (j: nat)
    requires a != [] && multiset(a) == multiset(b)
    ensures j < |b| && b[j] == a[|a| - 1]
    ensures multiset(a[..|a| - 1]) == multiset(b[..j] + b[j + 1..])
  {
    var c := a[|a| - 1];
    SplitLast(a);
    assert c in multiset(b);
    j :| 0 <= j < |b| && b[j] == c;
    RemoveAt(b, j);
    MultisetCancel(multiset(a[..|a| - 1]), multiset(b[..j] + b[j + 1..]), c);
  }

  /** A non-empty string's characters are those before its last one, plus the last one. */
  lemma SplitLast(a: string)
    requires a != []
    ensures multiset(a) == multiset(a[..|a| - 1]) + multiset{a[|a| - 1]}
  {
    assert a == a[..|a| - 1] + [a[|a| - 1]];
  }

  /** Taking the same element out of two equal multisets leaves equal multisets. */
  lemma MultisetCancel<T>(x: multiset<T>, y: multiset<T>, c: T)
    requires x + multiset{c} == y + multiset{c}
    ensures x == y
  {
    assert x == x + multiset{c} - multiset{c};
    assert y == y + multiset{c} - multiset{c};
  }

  /** Taking out the character at `j` takes its code out of the code sum. */
  lemma CodeSumRemove(b: string, j: nat)
    requires j < |b|
    ensures CodeSum(b) == CodeSum(b[..j] + b[j + 1..]) + b[j] as int
  {
    var c, p, q := b[j], b[..j], b[j + 1..];
    calc {
      CodeSum(b);
    == { assert b == p + [c] + q; }
      CodeSum(p + [c] + q);
    == { CodeSumConcat(p + [c], q); }
      CodeSum(p + [c]) + CodeSum(q);
    == { CodeSumConcat(p, [c]); CodeSumSingle(c); }
      CodeSum(p) + c as int + CodeSum(q);
    == { CodeSumConcat(p, q); }
      CodeSum(p + q) + c as int;
    }
  }

  lemma CodeSumSingle(c: char)
    ensures CodeSum([c]) == c as int
  {
    assert [c][..0] == [];
  }

  /** Taking out the character at `j` takes one occurrence of it out of the multiset. */
  lemma RemoveAt(b: string, j: nat)
    requires j < |b|
    ensures b == b[..j] + [b[j]] + b[j + 1..]
    ensures multiset(b) == multiset(b[..j] + b[j + 1..]) + multiset{b[j]}
  {
    assert b == b[..j] + [b[j]] + b[j + 1..];
    assert multiset(b[..j] + b[j + 1..]) == multiset(b[..j]) + multiset(b[j + 1..]);
  }

  /** Keys made of the same characters in another order land in the same bucket. */
  lemma HashPermutation(a: string, b: string, size: nat)
    requires size > 0 && multiset(a) == multiset(b)
    ensures Hash(a, size) == Hash(b, size)
  {
    CodeSumPermutation(a, b);
  }

  // ---------------------------------------------------------------------
  // Chains
  // ---------------------------------------------------------------------

  /** The position of the first item of `chain` whose key is `key`, if there is one. */
  function Find(chain: seq<Item>, key: string): (r: Option<nat>)
    ensures r.Some? ==> (r.value < |chain| && chain[r.value].key == key &&
                         forall j :: 0 <= j < r.value ==> chain[j].key != key)
    ensures r.None? <==> forall j :: 0 <= j < |chain| ==> chain[j].key != key
  {
    if chain == [] then None
    else if chain[0].key == key then Some(0)
    else
      match Find(chain[1..], key)
      case None => None
      case Some(i) => Some(i + 1)
  }

  /** No key occurs twice in the chain. */
  ghost predicate UniqueKeys(chain: seq<Item>)
  {
    forall i, j :: 0 <= i < j < |chain| ==> chain[i].key != chain[j].key
  }

  /**
   * The chain after ht_delete: the first item with the key is unlinked and
   * the rest keeps its order; with no such item the chain is unchanged.
   */
  function RemoveFirst(chain: seq<Item>, key: string): (r: seq<Item>)
    ensures Find(chain, key).None? ==> r == chain
    ensures Find(chain, key).Some? ==> var i := Find(chain, key).value;
      r == chain[..i] + chain[i + 1..]
  {
    if chain == [] then []
    else if chain[0].key == key then chain[1..]
    else
      var rest := RemoveFirst(chain[1..], key);
      RemoveFirstCons(chain, key, rest);
      [chain[0]] + rest
  }

  /** The step of RemoveFirst past a head with another key. */
  lemma RemoveFirstCons(chain: seq<Item>, key: string, rest: seq<Item>)
    requires chain != [] && chain[0].key != key
    requires Find(chain[1..], key).None? ==> rest == chain[1..]
    requires Find(chain[1..], key).Some? ==> var i := Find(chain[1..], key).value;
      rest == chain[1..][..i] + chain[1..][i + 1..]
    ensures Find(chain, key).None? ==> [chain[0]] + rest == chain
    ensures Find(chain, key).Some? ==> var i := Find(chain, key).value;
      [chain[0]] + rest == chain[..i] + chain[i + 1..]
  {
    match Find(chain[1..], key)
    case None =>
      assert [chain[0]] + chain[1..] == chain;
    case Some(i) =>
      assert Find(chain, key) == Some(i + 1);
      ConsSplit(chain, i);
  }

  /** Unlinking position `i` of the tail is unlinking position `i + 1` of the whole sequence. */
  lemma ConsSplit<T>(s: seq<T>, i: nat)
    requires i + 1 < |s|
    ensures [s[0]] + (s[1..][..i] + s[1..][i + 1..]) == s[..i + 1] + s[i + 2..]
  {
    var t := s[1..];
    assert t[..i] == s[1..i + 1];
    assert t[i + 1..] == s[i + 2..];
    assert [s[0]] + s[1..i + 1] == s[..i + 1];
    assert [s[0]] + s[1..i + 1] + s[i + 2..] == [s[0]] + (s[1..i + 1] + s[i + 2..]);
  }

  /**
   * The chain after ht_insert as written: a non-empty chain has its head's
   * value overwritten, whatever the head's key; an empty chain receives the
   * new item if its allocation succeeds.
   */
  function InsertChain(chain: seq<Item>, key: string, value: real, mallocOk: bool): (r: seq<Item>)
    ensures |r| == if chain == [] && mallocOk then 1 else |chain|
    ensures chain != [] ==> r[0] == chain[0].(value := value) && r[1..] == chain[1..]
  {
    if chain != [] then [chain[0].(value := value)] + chain[1..]
    else if mallocOk then [Item(key, value)]
    else chain
  }

  /**
   * The chain after ht_insert as documented: an item with the key has its
   * value replaced; otherwise a new item goes to the head of the chain if
   * its allocation succeeds.
   */
  function InsertChainIntended(chain: seq<Item>, key: string, value: real, mallocOk: bool): (r: seq<Item>)
    ensures Find(chain, key).Some? ==> |r| == |chain|
    ensures Find(chain, key).None? ==> |r| == |chain| + (if mallocOk then 1 else 0)
  {
    match Find(chain, key)
    case Some(i) => chain[i := Item(key, value)]
    case None => if mallocOk then [Item(key, value)] + chain else chain
  }

  /** The value of the first item with the key, if there is one. */
  function ChainValue(chain: seq<Item>, key: string): (r: Option<real>)
    ensures r.None? <==> Find(chain, key).None?
    ensures r.Some? ==> exists j :: 0 <= j < |chain| && chain[j] == Item(key, r.value)
  {
    match Find(chain, key)
    case None => None
    case Some(i) => Some(chain[i].value)
  }

  // ---------------------------------------------------------------------
  // The table as a sequence of buckets
  // ---------------------------------------------------------------------

  /** What ht_get finds: the value of the first item with the key in the key's bucket. */
  function ValueOf(buckets: seq<seq<Item>>, key: string): (r: Option<real>)
    requires |buckets| > 0
    ensures r.None? <==> Find(buckets[Hash(key, |buckets|)], key).None?
  {
    ChainValue(buckets[Hash(key, |buckets|)], key)
  }

  /** ht_insert as written, on the buckets: only the key's bucket changes. */
  function InsertTable(buckets: seq<seq<Item>>, key: string, value: real, mallocOk: bool): (r: seq<seq<Item>>)
    requires |buckets| > 0
    ensures |r| == |buckets|
    ensures forall i :: 0 <= i < |r| && i != Hash(key, |buckets|) ==> r[i] == buckets[i]
  {
    var h := Hash(key, |buckets|);
    buckets[h := InsertChain(buckets[h], key, value, mallocOk)]
  }

  /** ht_insert as documented, on the buckets. */
  function InsertTableIntended(buckets: seq<seq<Item>>, key: string, value: real, mallocOk: bool): (r: seq<seq<Item>>)
    requires |buckets| > 0
    ensures |r| == |buckets|
    ensures forall i :: 0 <= i < |r| && i != Hash(key, |buckets|) ==> r[i] == buckets[i]
  {
    var h := Hash(key, |buckets|);
    buckets[h := InsertChainIntended(buckets[h], key, value, mallocOk)]
  }

  /** ht_delete on the buckets: only the key's bucket changes. */
  function DeleteTable(buckets: seq<seq<Item>>, key: string): (r: seq<seq<Item>>)
    requires |buckets| > 0
    ensures |r| == |buckets|
    ensures forall i :: 0 <= i < |r| && i != Hash(key, |buckets|) ==> r[i] == buckets[i]
  {
    var h := Hash(key, |buckets|);
    buckets[h := RemoveFirst(buckets[h], key)]
  }

  /** Every bucket is empty: the state after ht_init and after ht_delete_all. */
  ghost predicate Empty(buckets: seq<seq<Item>>)
  {
    forall i :: 0 <= i < |buckets| ==> buckets[i] == []
  }

  /** Every chain holds at most one item. */
  ghost predicate Short(buckets: seq<seq<Item>>)
  {
    forall i :: 0 <= i < |buckets| ==> |buckets[i]| <= 1
  }

  /** All items of all buckets, bucket by bucket, each chain from its head. */
  function Flatten(buckets: seq<seq<Item>>): (r: seq<Item>)
    ensures Empty(buckets) ==> r == []
  {
    if buckets == [] then [] else Flatten(buckets[..|buckets| - 1]) + buckets[|buckets| - 1]
  }

  // ---------------------------------------------------------------------
  // The operations on the bucket array
  // ---------------------------------------------------------------------

  /** ht_init: every bucket pointer is set to NULL. */
  method Init(table: array<seq<Item>>)
    modifies table
    ensures Empty(table[..])
  {
    for i := 0 to table.Length
      invariant forall j :: 0 <= j < i ==> table[j] == []
    {
      table[i] := [];
    }
  }

  /**
   * ht_search: walks the key's chain and returns the first item whose key
   * equals `key`, or None when there is none. The table is not changed.
   */
  method Search(table: array<seq<Item>>, key: string) returns (r: Option<Item>)
    requires table.Length > 0
    ensures var chain := table[Hash(key, table.Length)];
      match Find(chain, key)
      case None => r == None
      case Some(i) => r == Some(chain[i])
  {
    var hash := GetHash(key, table.Length);
    var chain := table[hash];
    if chain == [] {
      return None;
    }
    var i := 0;
    while i < |chain|
      invariant 0 <= i <= |chain|
      invariant forall j :: 0 <= j < i ==> chain[j].key != key
    {
      if chain[i].key != key {
        i := i + 1;
      } else {
        return Some(chain[i]);
      }
    }
    return None;
  }

  /** ht_get: the value of the item ht_search finds, or None exactly when it finds none. */
  method Get(table: array<seq<Item>>, key: string) returns (r: Option<real>)
    requires table.Length > 0
    ensures r == ValueOf(table[..], key)
  {
    var item := Search(table, key);
    if item.Some? {
      return Some(item.value.value);
    }
    return None;
  }

  /**
   * ht_insert as written: a non-empty bucket only gets its head's value
   * overwritten; an empty bucket gets a new one-item chain, unless the
   * allocation fails (`mallocOk` false), when nothing changes.
   */
  method Insert(table: array<seq<Item>>, key: string, value: real, mallocOk: bool)
    requires table.Length > 0
    modifies table
    ensures table[..] == InsertTable(old(table[..]), key, value, mallocOk)
  {
    var hash := GetHash(key, table.Length);
    var item := table[hash];
    if item != [] {
      table[hash] := [item[0].(value := value)] + item[1..];
      return;
    }
    if !mallocOk {
      return;
    }
    // The new item's successor is the (empty) old chain.
    assert [Item(key, value)] + table[hash] == [Item(key, value)];
    table[hash] := [Item(key, value)] + table[hash];
  }

  /**
   * ht_delete: walks the key's chain keeping the previous item, and unlinks
   * the first item with the key, from the bucket pointer when it is the
   * head and from its predecessor otherwise.
   */
  method Delete(table: array<seq<Item>>, key: string)
    requires table.Length > 0
    modifies table
    ensures table[..] == DeleteTable(old(table[..]), key)
  {
    var hash := GetHash(key, table.Length);
    var chain := table[hash];
    if chain == [] {
      return;
    }
    var current := 0;
    while current < |chain|
      invariant 0 <= current <= |chain|
      invariant forall j :: 0 <= j < current ==> chain[j].key != key
      invariant table[..] == old(table[..])
    {
      if chain[current].key != key {
        current := current + 1;
      } else {
        if current == 0 {
          table[hash] := chain[1..];
        } else {
          table[hash] := chain[..current] + chain[current + 1..];
        }
        return;
      }
    }
  }

  /**
   * ht_delete_all: every chain is walked and each of its items released,
   * then its bucket is set to NULL. `freed` lists the released items in
   * the order they are released.
   */
  method DeleteAll(table: array<seq<Item>>) returns (freed: seq<Item>)
    modifies table
    ensures Empty(table[..])
    ensures freed == Flatten(old(table[..]))
  {
    freed := [];
    for key := 0 to table.Length
      invariant forall j :: 0 <= j < key ==> table[j] == []
      invariant forall j :: key <= j < table.Length ==> table[j] == old(table[j])
      invariant freed == Flatten(old(table[..])[..key])
    {
      var chain := table[key];
      var current := 0;
      while current < |chain|
        invariant 0 <= current <= |chain|
        invariant freed == Flatten(old(table[..])[..key]) + chain[..current]
      {
        assert chain[..current + 1] == chain[..current] + [chain[current]];
        freed := freed + [chain[current]];
        current := current + 1;
      }
      assert chain[..current] == chain;
      assert old(table[..])[..key + 1][..key] == old(table[..])[..key];
      table[key] := [];
    }
    assert old(table[..])[..table.Length] == old(table[..]);
  }

  // ---------------------------------------------------------------------
  // Properties
  // ---------------------------------------------------------------------

  /** An empty table holds no key. */
  lemma EmptyHasNothing(buckets: seq<seq<Item>>, key: string)
    requires |buckets| > 0 && Empty(buckets)
    ensures ValueOf(buckets, key) == None
  {
  }

  /**
   * Reading a key back after inserting it as written gives the new value
   * when its bucket was empty (and the allocation succeeded) or when the
   * bucket's head already had that key.
   */
  lemma InsertThenGet(buckets: seq<seq<Item>>, key: string, value: real, mallocOk: bool)
    requires |buckets| > 0
    requires var chain := buckets[Hash(key, |buckets|)];
      (chain == [] && mallocOk) || (chain != [] && chain[0].key == key)
    ensures ValueOf(InsertTable(buckets, key, value, mallocOk), key) == Some(value)
  {
  }

  /** A key whose bucket differs from the inserted key's is not affected. */
  lemma InsertLeavesOtherBuckets(buckets: seq<seq<Item>>, key: string, value: real, mallocOk: bool, other: string)
    requires |buckets| > 0 && Hash(other, |buckets|) != Hash(key, |buckets|)
    ensures ValueOf(InsertTable(buckets, key, value, mallocOk), other) == ValueOf(buckets, other)
    ensures ValueOf(DeleteTable(buckets, key), other) == ValueOf(buckets, other)
  {
  }

  /**
   * Inserting a second key into a bucket the first key already occupies
   * overwrites the first key's value and stores nothing under the second.
   */
  lemma InsertCollision(buckets: seq<seq<Item>>, a: string, b: string, va: real, vb: real)
    requires |buckets| > 0 && a != b && Hash(a, |buckets|) == Hash(b, |buckets|)
    requires buckets[Hash(a, |buckets|)] == []
    ensures var t := InsertTable(InsertTable(buckets, a, va, true), b, vb, true);
      ValueOf(t, b) == None && ValueOf(t, a) == Some(vb)
  {
    var t1 := InsertTable(buckets, a, va, true);
    assert t1[Hash(a, |buckets|)] == [Item(a, va)];
    var t2 := InsertTable(t1, b, vb, true);
    assert t2[Hash(b, |buckets|)] == [Item(a, vb)];
  }

  /** "ab" and "ba" collide in every table, so the second insert loses "ba"'s value. */
  lemma AnagramCollision(buckets: seq<seq<Item>>)
    requires |buckets| > 0 && Empty(buckets)
    ensures var t := InsertTable(InsertTable(buckets, "ab", 1.0, true), "ba", 2.0, true);
      ValueOf(t, "ba") == None && ValueOf(t, "ab") == Some(2.0)
  {
    assert multiset("ab") == multiset("ba");
    HashPermutation("ab", "ba", |buckets|);
    InsertCollision(buckets, "ab", "ba", 1.0, 2.0);
  }

  /** Inserting as documented makes the key read back with its new value and leaves every other key alone. */
  lemma InsertIntendedThenGet(buckets: seq<seq<Item>>, key: string, value: real, other: string)
    requires |buckets| > 0
    ensures ValueOf(InsertTableIntended(buckets, key, value, true), key) == Some(value)
    ensures other != key ==> ValueOf(InsertTableIntended(buckets, key, value, true), other) == ValueOf(buckets, other)
  {
    var h := Hash(key, |buckets|);
    var chain := buckets[h];
    var r := InsertChainIntended(chain, key, value, true);
    InsertIntendedFind(chain, key, value);
    if other != key && Hash(other, |buckets|) == h {
      InsertIntendedOther(chain, key, value, other);
    }
  }

  lemma InsertIntendedFind(chain: seq<Item>, key: string, value: real)
    ensures ChainValue(InsertChainIntended(chain, key, value, true), key) == Some(value)
  {
    var r := InsertChainIntended(chain, key, value, true);
    match Find(chain, key)
    case Some(i) =>
      assert r[i] == Item(key, value);
      assert forall j :: 0 <= j < i ==> r[j] == chain[j];
      FindFirst(r, key, i);
    case None =>
      assert r[0] == Item(key, value);
      FindFirst(r, key, 0);
  }

  /** A position holding the key, with no earlier one, is what Find gives. */
  lemma FindFirst(chain: seq<Item>, key: string, i: nat)
    requires i < |chain| && chain[i].key == key
    requires forall j :: 0 <= j < i ==> chain[j].key != key
    ensures Find(chain, key) == Some(i)
  {
  }

  lemma InsertIntendedOther(chain: seq<Item>, key: string, value: real, other: string)
    requires other != key
    ensures ChainValue(InsertChainIntended(chain, key, value, true), other) == ChainValue(chain, other)
  {
    var r := InsertChainIntended(chain, key, value, true);
    match Find(chain, key)
    case Some(i) =>
      assert forall j :: 0 <= j < |r| ==> (r[j].key == other <==> chain[j].key == other);
      assert forall j :: 0 <= j < |r| && r[j].key == other ==> r[j] == chain[j];
      FindSameKeys(r, chain, other);
    case None =>
      assert r == [Item(key, value)] + chain;
      assert r[1..] == chain;
  }

  /** Two chains that agree on which positions hold a key, and on the items there, find it at the same place. */
  lemma {:induction false} FindSameKeys(a: seq<Item>, b: seq<Item>, key: string)
    requires |a| == |b|
    requires forall j :: 0 <= j < |a| ==> (a[j].key == key <==> b[j].key == key)
    requires forall j :: 0 <= j < |a| && a[j].key == key ==> a[j] == b[j]
    ensures Find(a, key) == Find(b, key) && ChainValue(a, key) == ChainValue(b, key)
    decreases |a|
  {
    if a != [] {
      FindSameKeys(a[1..], b[1..], key);
    }
  }

  /** Inserting as documented into a chain without the key, then deleting it, gives the chain back. */
  lemma InsertIntendedThenDelete(chain: seq<Item>, key: string, value: real, mallocOk: bool)
    requires Find(chain, key).None?
    ensures RemoveFirst(InsertChainIntended(chain, key, value, mallocOk), key) == chain
  {
  }

  /** Once a key was deleted from a chain where keys are unique, it is no longer found. */
  lemma DeleteThenFind(chain: seq<Item>, key: string)
    requires UniqueKeys(chain)
    ensures Find(RemoveFirst(chain, key), key).None?
    ensures UniqueKeys(RemoveFirst(chain, key))
  {
    match Find(chain, key)
    case None =>
    case Some(i) =>
      var r := RemoveFirst(chain, key);
      assert r == chain[..i] + chain[i + 1..];
      RemovedGone(chain, key, i, r);
      RemovedUnique(chain, i, r);
  }

  /** With unique keys, the chain without position `i` no longer holds the key found there. */
  lemma RemovedGone(chain: seq<Item>, key: string, i: nat, r: seq<Item>)
    requires UniqueKeys(chain) && i < |chain| && chain[i].key == key
    requires r == chain[..i] + chain[i + 1..]
    ensures forall j :: 0 <= j < |r| ==> r[j].key != key
  {
    forall j | 0 <= j < |r|
      ensures r[j].key != key
    {
      SkipIndex(chain, i, j);
    }
  }

  /** Taking one position out of a chain with unique keys leaves the keys unique. */
  lemma RemovedUnique(chain: seq<Item>, i: nat, r: seq<Item>)
    requires UniqueKeys(chain) && i < |chain|
    requires r == chain[..i] + chain[i + 1..]
    ensures UniqueKeys(r)
  {
    forall p, q | 0 <= p < q < |r|
      ensures r[p].key != r[q].key
    {
      SkipIndex(chain, i, p);
      SkipIndex(chain, i, q);
    }
  }

  /** Position `j` of the chain without position `i` is position Skip(j, i) of the chain. */
  lemma SkipIndex(chain: seq<Item>, i: nat, j: nat)
    requires i < |chain| && j < |chain| - 1
    ensures (chain[..i] + chain[i + 1..])[j] == chain[Skip(j, i)]
  {
  }

  /** The index in the chain of position `j` of the chain with position `i` taken out. */
  function Skip(j: nat, i: nat): nat
  {
    if j < i then j else j + 1
  }

  /** Deleting a key twice is the same as deleting it once from a chain with unique keys. */
  lemma DeleteIdempotent(chain: seq<Item>, key: string)
    requires UniqueKeys(chain)
    ensures RemoveFirst(RemoveFirst(chain, key), key) == RemoveFirst(chain, key)
  {
    DeleteThenFind(chain, key);
  }

  /** Starting from empty buckets, inserting as written and deleting keep every chain at most one item long. */
  lemma InsertKeepsShort(buckets: seq<seq<Item>>, key: string, value: real, mallocOk: bool)
    requires |buckets| > 0 && Short(buckets)
    ensures Short(InsertTable(buckets, key, value, mallocOk))
  {
  }

  lemma DeleteKeepsShort(buckets: seq<seq<Item>>, key: string)
    requires |buckets| > 0 && Short(buckets)
    ensures Short(DeleteTable(buckets, key))
  {
    var h := Hash(key, |buckets|);
    assert |RemoveFirst(buckets[h], key)| <= |buckets[h]|;
  }

  /** A chain of at most one item has unique keys. */
  lemma ShortUnique(buckets: seq<seq<Item>>, h: nat)
    requires Short(buckets) && h < |buckets|
    ensures UniqueKeys(buckets[h])
  {
  }

  /**
   * In a table the code can reach, where every chain is short, ht_get of a
   * key that was just deleted finds nothing.
   */
  lemma DeleteThenGet(buckets: seq<seq<Item>>, key: string)
    requires |buckets| > 0 && Short(buckets)
    ensures ValueOf(DeleteTable(buckets, key), key).None?
  {
    var h := Hash(key, |buckets|);
    ShortUnique(buckets, h);
    DeleteThenFind(buckets[h], key);
    assert DeleteTable(buckets, key)[h] == RemoveFirst(buckets[h], key);
  }

  lemma EmptyIsShort(buckets: seq<seq<Item>>)
    requires Empty(buckets)
    ensures Short(buckets)
  {
  }
}
