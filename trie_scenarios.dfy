/**
 * Clients of the trie, each stated as a method whose postcondition follows
 * from the contracts of `Get`, `Put` and `Remove` alone: first the laws that
 * hold for any trie and any keys, then short concrete sessions: a value read
 * back under its own type and refused under another, an overwrite that leaves
 * the older version intact, the empty key, and removals that prune the path
 * or leave a neighbour in place.
 */
module TrieScenarios {
  import opened Wrappers
  import opened TrieNodes
  import opened Tries

  // -------------------------------------------------------------------
  // Any trie and any keys

  /** `Put` then `Get` under the same key and type gives the value back, whatever the key held before. */
  method PutThenGet<V>(t: Trie<V>, key: string, tag: TypeTag, value: V) returns (got: Option<V>)
    requires key != [] || t.root.Some?
    ensures got == Some(value)
  {
    var t1 := t.Put(key, tag, value);
    got := t1.Get(key, tag);
  }

  /** `Put` leaves every other key as it was, under every type. */
  method PutKeepsOtherKeys<V>(t: Trie<V>, key: string, tag: TypeTag, value: V, other: string, otherTag: TypeTag)
    returns (before: Option<V>, after: Option<V>)
    requires key != [] || t.root.Some?
    requires other != key
    ensures after == before
  {
    var t1 := t.Put(key, tag, value);
    before := t.Get(other, otherTag);
    after := t1.Get(other, otherTag);
  }

  /** After `Remove` the key is absent under every type. */
  method RemoveThenGet<V>(t: Trie<V>, key: string, tag: TypeTag) returns (got: Option<V>)
    requires key != [] || t.root.Some?
    ensures got == None
  {
    var t1 := t.Remove(key);
    got := t1.Get(key, tag);
  }

  /** `Remove` leaves every other key as it was, under every type. */
  method RemoveKeepsOtherKeys<V>(t: Trie<V>, key: string, other: string, otherTag: TypeTag)
    returns (before: Option<V>, after: Option<V>)
    requires key != [] || t.root.Some?
    requires other != key
    ensures after == before
  {
    var t1 := t.Remove(key);
    before := t.Get(other, otherTag);
    after := t1.Get(other, otherTag);
  }

  /**
   * The receiver of `Put` and `Remove` answers every `Get` as it did before.
   * Tries are values here, so this holds by value semantics alone; it is not
   * evidence that the source clones each node before writing to it.
   */
  method OperationsKeepReceiver<V>(t: Trie<V>, key: string, tag: TypeTag, value: V, probe: string, probeTag: TypeTag)
    returns (before: Option<V>, after: Option<V>)
    requires key != [] || t.root.Some?
    ensures after == before
  {
    before := t.Get(probe, probeTag);
    var t1 := t.Put(key, tag, value);
    var t2 := t.Remove(key);
    after := t.Get(probe, probeTag);
  }

  /** On the empty trie, `Put` of a non-empty key followed by `Remove` of that key gives the empty trie. */
  method PutThenRemoveOnEmpty<V>(key: string, tag: TypeTag, value: V) returns (t: Trie<V>)
    requires key != []
    ensures t.root.None?
  {
    var empty: Trie<V> := Trie(None);
    var t1 := empty.Put(key, tag, value);
    t := t1.Remove(key);
    EmptyDenotationMeansNoRoot(t.root);
  }

  // -------------------------------------------------------------------
  // Concrete sessions

  /** A value put under a key is read back under its own type only, and not under a prefix. */
  method StoreAndReadBack() returns (same: Option<int>, other: Option<int>, prefix: Option<int>)
    ensures same == Some(7)
    ensures other == None
    ensures prefix == None
  {
    var empty: Trie<int> := Trie(None);
    var t := empty.Put("ab", "uint32_t", 7);
    same := t.Get("ab", "uint32_t");
    other := t.Get("ab", "std::string");
    prefix := t.Get("a", "uint32_t");
  }

  /** A second `Put` under the same key wins, and the trie it was made from still holds the old value. */
  method OverwriteKeepsOldVersion() returns (newer: Option<int>, older: Option<int>)
    ensures newer == Some(2)
    ensures older == Some(1)
  {
    var empty: Trie<int> := Trie(None);
    var t1 := empty.Put("key", "uint32_t", 1);
    var t2 := t1.Put("key", "uint32_t", 2);
    newer := t2.Get("key", "uint32_t");
    older := t1.Get("key", "uint32_t");
  }

  /** The empty key puts a value on the root, and the keys below it stay. */
  method EmptyKeyKeepsChildren() returns (atRoot: Option<int>, below: Option<int>)
    ensures atRoot == Some(0)
    ensures below == Some(1)
  {
    var empty: Trie<int> := Trie(None);
    var t1 := empty.Put("a", "uint32_t", 1);
    var t2 := t1.Put("", "uint32_t", 0);
    atRoot := t2.Get("", "uint32_t");
    below := t2.Get("a", "uint32_t");
  }

  /** Removing the only key prunes the whole path: what is left is the trie without a root. */
  method RemoveOnlyKey() returns (t: Trie<int>)
    ensures t.root.None?
  {
    var empty: Trie<int> := Trie(None);
    var t1 := empty.Put("abc", "uint32_t", 5);
    t := t1.Remove("abc");
    EmptyDenotationMeansNoRoot(t.root);
  }

  /** Removing one key under a shared prefix leaves its neighbour readable. */
  method RemoveKeepsNeighbour() returns (gone: Option<int>, kept: Option<int>)
    ensures gone == None
    ensures kept == Some(2)
  {
    var empty: Trie<int> := Trie(None);
    var t1 := empty.Put("ab", "uint32_t", 1);
    var t2 := t1.Put("ac", "uint32_t", 2);
    var t3 := t2.Remove("ab");
    gone := t3.Get("ab", "uint32_t");
    kept := t3.Get("ac", "uint32_t");
  }

  /** Removing a key that holds no value, here a bare prefix, gives back the same trie. */
  method RemoveAbsentKey() returns (before: Trie<int>, after: Trie<int>)
    ensures after == before
  {
    var empty: Trie<int> := Trie(None);
    before := empty.Put("ab", "uint32_t", 1);
    after := before.Remove("a");
  }
}
