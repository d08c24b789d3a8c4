# Persistent copy-on-write trie

This project models the persistent trie of the bustub primer
(`src/primer/trie.cpp`) and proves its three operations against a map.

A trie is a handle on an optional root node. Each node maps characters to
child nodes. A value node also holds a value of some C++ type `T`. The
operations never change a trie:
- `Get<T>` walks the key.
- `Put<T>` and `Remove` record the path from the root on a `stack`,
  replace the node at the end of the path, and rebuild the path bottom-up
  from clones of the old nodes.
- The new trie shares every subtree off the path with the old one.

The model:
- `TrieNodes` (`trie_node.dfy`):
  - Nodes are immutable datatype values: a `children` map and an optional
    `Entry(tag, payload)`, where `tag` names the type `T` the value was
    stored as.
  - `Denote` gives the finite map from keys to entries that a root stands
    for.
  - `WellFormed` is the shape invariant: every reachable node holds a value
    or has a child.
  - `SharesOffPath` states structural sharing.
  - The lemmas connect walks, lookups and the map.
- `Tries` (`trie.dfy`):
  - `Trie` holds the optional root.
  - `Get` is a method with the source's loop down the key. `Put` and
    `Remove` are methods with the source's loops over a stack. The second
    half of `Remove` (clearing the terminal node, the bottom-up rebuild and
    the root check) is the method `RebuildWithout`.
  - Each rebuild loop is checked against a pure function: `PutRebuild` and
    `RemoveRebuild` give the node the loop makes at each depth. The
    `...Meets` lemmas prove by induction what those nodes store.
  - The three contracts: `Get` is map lookup with a type check, `Put` is
    map update and `Remove` is map deletion.
- `TrieScenarios` (`trie_scenarios.dfy`): clients of the three methods.
  - Laws for every trie and key: round trip, other keys unchanged,
    persistence, and `Put` then `Remove` on the empty trie giving the empty
    trie.
  - Concrete sessions.

Three points of the code's behaviour that the model follows:
- `Trie::Put` with the empty key puts the value on the root and keeps the
  root's children (src/primer/trie.cpp:47-48). Only the store wrapper drops
  empty-key writes (src/primer/test.cpp:49-50), and the store is not part
  of this model.
- `Trie::Remove` has no type parameter. It removes the value under the key
  whatever type it was stored as.
- `Trie::Remove` does not drop a childless terminal node itself. It turns
  it into a plain node (src/primer/trie.cpp:117), and the parent's rebuild
  step (src/primer/trie.cpp:125-126) or the final root check
  (src/primer/trie.cpp:132-134) then drops it.

## Model

| member | source | states |
|---|---|---|
| Tries.Trie.Get | src/primer/trie.cpp:10-36 | The result is present exactly when the key is in the trie's map and was stored under the requested type, and it is then the stored value; so a missing edge, an empty trie and a type mismatch all give absent |
| Tries.Trie.Put | src/primer/trie.cpp:38-91 | The new trie's map is the old map with the key set to the new typed value, so every other key (including keys below it and values on its ancestors) is unchanged; the new trie has a root, shares with the receiver everything off the key's path, and keeps the shape invariant |
| Tries.Trie.Remove | src/primer/trie.cpp:93-140 | The new trie's map is the old map without the key; an absent key (missing edge or terminal node without value) gives back the very same trie; after a real removal the root is absent or not dead; the result shares everything off the path and keeps the shape invariant |
| Tries.PutRebuildMeets | src/primer/trie.cpp:74-85 | For every depth, the node the rebuild loop of `Put` makes stores the new entry at the rest of the key, agrees with the recorded node everywhere else, shares its other edges, and is well-formed when the trie was |
| Tries.RemoveRebuildMeets | src/primer/trie.cpp:119-130 | For every depth, the node the rebuild loop of `Remove` makes stores nothing at the rest of the key, agrees with the recorded node everywhere else, shares its other edges, and is dead or well-formed when the trie was |
| Tries.PutLeafRebuilt | src/primer/trie.cpp:64-71 | The new value node at the end of the path (keeping the old node's children, or none) stores the entry at its own position and what the old node stored below it |
| Tries.RemoveLeafRebuilt | src/primer/trie.cpp:116-117 | The terminal node with its value dropped stores nothing at its position and what it stored before below it |
| Tries.PutRebuildStep | src/primer/trie.cpp:76-84 | A clone whose edge under the key points at the rebuilt child, or a fresh node holding only that child, carries the child's guarantees up one level |
| Tries.RemoveRebuildStep | src/primer/trie.cpp:122-129 | A clone that erases its edge to a dead rebuilt child, or redirects the edge to a live one, carries the child's guarantees up one level |
| Tries.PutRootRebuilt | src/primer/trie.cpp:87 | The node rebuilt at depth 0 denotes the old map updated at the key, shares with the old root off the path, and keeps the shape invariant |
| Tries.RebuildWithout | src/primer/trie.cpp:116-137 | From a complete recorded path, the loop builds exactly the nodes `RemoveRebuild` specifies for every depth, and the result is the trie rooted at the depth-0 node, or the trie without a root when that node is dead |
| Tries.RemoveFinish | src/primer/trie.cpp:112-137 | When the terminal node is a value node the key is present; the rebuilt root, or no root when the rebuilt root is dead, denotes the old map without the key, is not dead, shares off the path and keeps the shape invariant |
| Tries.ValueNodeAgrees | src/primer/trie.cpp:47-48 | A value node with the old node's children stores the entry at its own position, the old contents below it, the same children, and keeps the shape invariant |
| Tries.PlainNodeAgrees | src/primer/trie.cpp:117 | A plain node with a value node's children stores nothing at its position, the same below it, the same children, and is dead or well-formed |
| Tries.SetChildAgrees | src/primer/trie.cpp:78-83 | Pointing the edge under `k` at a child that agrees with the old child on `suffix` gives a node that agrees with the old one on `[k] + suffix` |
| Tries.SetChildLookup | src/primer/trie.cpp:78-83 | The same, for one key at a time |
| Tries.SetChildWellFormed | src/primer/trie.cpp:78-83 | A clone or fresh node whose new child is well-formed is well-formed |
| Tries.SetChildShares | src/primer/trie.cpp:78-83 | A clone or fresh node has the old node's other edges, and shares along the rest of the path what the child shares |
| Tries.EraseChildAgrees | src/primer/trie.cpp:125-126 | Erasing the edge to a dead child gives a node that stores nothing at the removed key and agrees with the old node elsewhere |
| Tries.EraseChildLookup | src/primer/trie.cpp:125-126 | The same, for one key at a time |
| Tries.EraseChildShares | src/primer/trie.cpp:125-126 | Erasing an edge keeps the other edges, and the result of erasing it from a well-formed node is dead or well-formed |
| Tries.PrunedRootAgrees | src/primer/trie.cpp:132-134 | Replacing a dead root by no root changes no lookup |
| Tries.RemoveAbsentIsIdentity | src/primer/trie.cpp:107-114 | Deleting an absent key leaves the map as it was, and a trie shares everything with itself |
| Tries.SharesOffPathReflexive | src/primer/trie.cpp:107-114 | Every trie shares everything with itself along every key |
| TrieNodes.WalkStep | src/primer/trie.cpp:16-19 | One more character of the key is one more edge of the walk |
| TrieNodes.MissingEdgeMeansAbsent | src/primer/trie.cpp:16-22 | Once the walk has no edge for the next character (or no node), the key is absent from the map |
| TrieNodes.PresentKeyHasPath | src/primer/trie.cpp:102-110 | Every node on the path to a present key exists |
| TrieNodes.FollowsKeyWalks | src/primer/trie.cpp:55-63 | The node recorded at depth `m` of the stack is the node the walk along the first `m` characters reaches |
| TrieNodes.FollowsKeyWellFormed | src/primer/trie.cpp:102-110 | Every recorded node of a well-formed trie is well-formed or absent |
| TrieNodes.MissingEdgeOnPath | src/primer/trie.cpp:104-109 | Falling off the recorded path means the key is absent |
| TrieNodes.CompletePathDecides | src/primer/trie.cpp:112-114 | Along a complete recorded path, the key is present exactly when the last node is a value node, and its entry is that node's value |
| TrieNodes.DenoteIsLookup | src/primer/trie.cpp:14-30 | A key is in the map exactly when walking it ends at a value node, with that node's entry |
| TrieNodes.DenoteOfAgrees | src/primer/trie.cpp:87 | A pointwise update (or deletion) of every lookup is a map update (or deletion) of the denotation |
| TrieNodes.DeadStoresNothing | src/primer/trie.cpp:125 | A node with neither value nor children stores nothing under any key |
| TrieNodes.WalkKeepsWellFormed | src/primer/trie.cpp:16-23 | Every node reachable in a well-formed trie is well-formed |
| TrieNodes.WellFormedStoresSomething | src/primer/trie.cpp:132-134 | A well-formed node stores at least one value |
| TrieNodes.EmptyDenotationMeansNoRoot | src/primer/trie.cpp:132-134 | Under the shape invariant, a trie has the empty map exactly when it has no root |
| TrieScenarios.PutThenGet | src/primer/trie.cpp:55-87 | `Put` then `Get` under the same key and type returns the value, whatever the key held before |
| TrieScenarios.PutKeepsOtherKeys | src/primer/trie.cpp:66-67 | After `Put`, `Get` of any other key under any type answers as on the receiver |
| TrieScenarios.RemoveThenGet | src/primer/trie.cpp:117-130 | After `Remove`, `Get` of the key is absent under every type |
| TrieScenarios.RemoveKeepsOtherKeys | src/primer/trie.cpp:121-130 | After `Remove`, `Get` of any other key under any type answers as on the receiver |
| TrieScenarios.OperationsKeepReceiver | src/primer/trie.cpp:38-91 | `Put` and `Remove` leave the receiver answering every `Get` as before; in the model this holds by value semantics, so it says nothing about cloning before the `const_cast` writes (src/primer/trie.cpp:79-80, 123-128) |
| TrieScenarios.PutThenRemoveOnEmpty | src/primer/trie.cpp:132-134 | On the empty trie, `Put` of a non-empty key followed by `Remove` of that key leaves no root |
| TrieScenarios.StoreAndReadBack | src/primer/trie.cpp:25-30 | A stored value is read back under its own type, and is absent under another type and under a bare prefix |
| TrieScenarios.OverwriteKeepsOldVersion | src/primer/trie.cpp:66-67 | An overwrite wins in the new trie while the older trie keeps the older value |
| TrieScenarios.EmptyKeyKeepsChildren | src/primer/trie.cpp:47-48 | `Put` with the empty key stores at the root and keeps the keys below it |
| TrieScenarios.RemoveOnlyKey | src/primer/trie.cpp:132-134 | Removing the only key of a trie leaves no root |
| TrieScenarios.RemoveKeepsNeighbour | src/primer/trie.cpp:125-128 | Removing one of two keys under a shared prefix keeps the other |
| TrieScenarios.RemoveAbsentKey | src/primer/trie.cpp:112-114 | Removing a bare prefix that holds no value gives back the same trie |

## Left out

- Tries.Trie.Put: requires a root when the key is empty. With the empty key on a trie without a root, the source dereferences the null root (src/primer/trie.cpp:48); the model excludes this call instead of giving it a meaning.
- Tries.Trie.Remove: requires a root when the key is empty, for the same reason. The source dereferences the null `stack.back()` (src/primer/trie.cpp:112).
- `src/primer/test.cpp` (the `TrieStore`): its subject is lock discipline around a shared root, which is concurrency. Its lookup and rebuild code repeats `trie.cpp`. As written, it never publishes the rebuilt root.
- `shared_ptr` reference counting, moving non-copyable payloads into `make_shared`, and `ValueGuard` lifetimes: values are opaque payloads of a type parameter.
- Node identity: nodes are values, so "the new trie shares this subtree" is stated as equality of subtrees (`SharesOffPath`), not as the same allocation. Counting newly allocated nodes is also not modelled.
- The `dynamic_cast` and its RTTI: modelled as a comparison of type tags. The `const_cast` on fresh clones: modelled as building a new node.
- `TrieNode::Clone` lives in `primer/trie.h`, which is not part of this model. It is modelled as copying the children map and, for a value node, the value.
- Keys: Dafny `string`s stand for the C++ byte strings (`std::string_view` of `char`). Nothing is lost, because the trie only compares characters for equality.
- The explicit template instantiations (src/primer/trie.cpp:149-166) only serve the linker; the single generic model covers every value type.
