/**
 * Trie nodes and what a tree of them means.
 *
 * A C++ `TrieNode` is a map from characters to (shared, immutable) child
 * nodes; a `TrieNodeWithValue<T>` additionally holds a value of type `T`.
 * Here both are one datatype: `value` is `None` for a plain node and
 * `Some(Entry(tag, payload))` for a value node, where `tag` names the C++
 * type `T` the value was stored as. Nodes are immutable values, which is
 * what the `const` in `shared_ptr<const TrieNode>` promises.
 *
 * A (possibly absent) root denotes a finite map from keys to entries:
 * `Denote`. `Walk` follows a key edge by edge and `Lookup` reads the value
 * at the end of the walk; the lemmas below connect the two views.
 */
module TrieNodes {
  import opened Wrappers

  /** The name of the C++ type a value was stored as (the `T` of `Put<T>`). */
  type TypeTag = string

  /** A stored value together with the type it was stored as. */
  datatype Entry<V> = Entry(tag: TypeTag, payload: V)

  datatype Node<V> = Node(children: map<char, Node<V>>, value: Option<Entry<V>>)
  {
    /** `is_value_node_` */
    predicate IsValueNode() { value.Some? }

    /** A node with neither a value nor a child: the kind `Remove` prunes. */
    predicate IsDead() { |children| == 0 && value.None? }
  }

  /** The child reached from `n` along edge `c`, if `n` exists and has that edge. */
  function Child<V>(n: Option<Node<V>>, c: char): (r: Option<Node<V>>)
  {
    if n.Some? && c in n.value.children then Some(n.value.children[c]) else None
  }

  /** The node reached from `n` by following `key` one character at a time. */
  ghost function Walk<V>(n: Option<Node<V>>, key: string): (r: Option<Node<V>>)
    decreases key
  {
    if key == [] then n else Walk(Child(n, key[0]), key[1..])
  }

  /** The entry stored under `key`, if the walk ends at a value node. */
  ghost function Lookup<V>(n: Option<Node<V>>, key: string): (r: Option<Entry<V>>)
  {
    match Walk(n, key)
    case None => None
    case Some(m) => m.value
  }

  /** The keys at which a value node hangs below `n`. */
  ghost function Keys<V>(n: Node<V>): (r: set<string>)
  {
    (if n.value.Some? then {[]} else {})
      + (set c, s | c in n.children && s in Keys(n.children[c]) :: [c] + s)
  }

  /** The finite map from keys to entries that a root denotes. */
  ghost function Denote<V>(root: Option<Node<V>>): (r: map<string, Entry<V>>)
  {
    if root.None? then map[]
    else map s | s in Keys(root.value) && Lookup(root, s).Some? :: Lookup(root, s).value
  }

  /**
   * The shape invariant: every node reachable from the root holds a value or
   * has at least one child.
   */
  ghost predicate WellFormed<V>(n: Node<V>)
  {
    !n.IsDead() && forall c :: c in n.children ==> WellFormed(n.children[c])
  }

  ghost predicate WellFormedRoot<V>(root: Option<Node<V>>)
  {
    root.None? || WellFormed(root.value)
  }

  /**
   * `b` answers every lookup as `a` does, except that `key` maps to `x`.
   * With `x == Some(e)` this is a map update, with `x == None` a deletion.
   */
  ghost predicate Agrees<V>(a: Option<Node<V>>, b: Option<Node<V>>, key: string, x: Option<Entry<V>>)
  {
    forall s :: Lookup(b, s) == if s == key then x else Lookup(a, s)
  }

  /**
   * Structural sharing: along `key`, each node of `b` has exactly the
   * children of the corresponding node of `a` apart from the edge that
   * continues the path, and at the end of the path the same children.
   * Child subtrees are values, so equal children are the very subtrees of `a`.
   */
  ghost predicate SharesOffPath<V>(a: Option<Node<V>>, b: Option<Node<V>>, key: string)
    decreases key
  {
    if a.None? || b.None? then true
    else if key == [] then b.value.children == a.value.children
    else
      && b.value.children - {key[0]} == a.value.children - {key[0]}
      && SharesOffPath(Child(a, key[0]), Child(b, key[0]), key[1..])
  }

  // ---------------------------------------------------------------------
  // Walks

  lemma {:induction false} WalkFromNone<V>(key: string)
    ensures Walk<V>(None, key) == None
    decreases key
  {
    if key != [] {
      WalkFromNone<V>(key[1..]);
    }
  }

  /** Walking `a + b` is walking `a`, then `b` from where `a` ended. */
  lemma {:induction false} WalkAppend<V>(n: Option<Node<V>>, a: string, b: string)
    ensures Walk(n, a + b) == Walk(Walk(n, a), b)
    decreases a
  {
    if a != [] {
      assert (a + b)[0] == a[0];
      assert (a + b)[1..] == a[1..] + b;
      WalkAppend(Child(n, a[0]), a[1..], b);
    } else {
      assert a + b == b;
    }
  }

  /** One more character of the key is one more edge of the walk. */
  lemma WalkStep<V>(n: Option<Node<V>>, key: string, i: nat)
    requires i < |key|
    ensures Walk(n, key[..i + 1]) == Child(Walk(n, key[..i]), key[i])
  {
    assert key[..i + 1] == key[..i] + [key[i]];
    WalkAppend(n, key[..i], [key[i]]);
  }

  /** Unfolding of `Lookup` at one node. */
  lemma LookupAt<V>(n: Option<Node<V>>, s: string)
    ensures Lookup(n, s) ==
      if s == [] then (if n.Some? then n.value.value else None)
      else Lookup(Child(n, s[0]), s[1..])
  {
  }

  lemma LookupFromNone<V>(s: string)
    ensures Lookup<V>(None, s) == None
  {
    WalkFromNone<V>(s);
  }

  /** A node without value and children stores nothing, at any key. */
  lemma DeadStoresNothing<V>(n: Node<V>, s: string)
    requires n.IsDead()
    ensures Lookup(Some(n), s) == None
  {
    if s != [] {
      LookupFromNone<V>(s[1..]);
    }
  }

  /**
   * Once the walk falls off the tree at position `i`, the key is absent:
   * the early `return nullptr` of `Get` loses nothing.
   */
  lemma MissingEdgeMeansAbsent<V>(root: Option<Node<V>>, key: string, i: nat)
    requires i < |key|
    requires Child(Walk(root, key[..i]), key[i]).None?
    ensures Walk(root, key) == None
    ensures key !in Denote(root)
  {
    WalkStep(root, key, i);
    assert key == key[..i + 1] + key[i + 1..];
    WalkAppend(root, key[..i + 1], key[i + 1..]);
    WalkFromNone<V>(key[i + 1..]);
    DenoteIsLookup(root, key);
  }

  /** Every node on the path to a present key exists. */
  lemma PresentKeyHasPath<V>(root: Option<Node<V>>, key: string, i: nat)
    requires key in Denote(root)
    requires i <= |key|
    ensures Walk(root, key[..i]).Some?
  {
    DenoteIsLookup(root, key);
    assert key == key[..i] + key[i..];
    WalkAppend(root, key[..i], key[i..]);
    if Walk(root, key[..i]).None? {
      WalkFromNone<V>(key[i..]);
    }
  }

  // ---------------------------------------------------------------------
  // Recorded paths: the `stack` of `Put` and `Remove`

  /**
   * `path[m]` is the node at depth `m` along `key` (or `None` once the path
   * has left the trie), for every recorded depth.
   */
  ghost predicate FollowsKey<V>(root: Option<Node<V>>, key: string, path: seq<Option<Node<V>>>)
  {
    && 1 <= |path| <= |key| + 1
    && path[0] == root
    && forall m {:trigger Child(path[m], key[m])} :: 0 <= m < |path| - 1 ==> path[m + 1] == Child(path[m], key[m])
  }

  /** The recorded node at depth `m` is the node the walk along the first `m` characters reaches. */
  lemma {:induction false} FollowsKeyWalks<V>(root: Option<Node<V>>, key: string, path: seq<Option<Node<V>>>, m: nat)
    requires FollowsKey(root, key, path)
    requires m < |path|
    ensures path[m] == Walk(root, key[..m])
    decreases m
  {
    if m > 0 {
      FollowsKeyWalks(root, key, path, m - 1);
      WalkStep(root, key, m - 1);
    }
  }

  /** Every recorded node of a well-formed trie is well-formed (or absent). */
  lemma FollowsKeyWellFormed<V>(root: Option<Node<V>>, key: string, path: seq<Option<Node<V>>>, m: nat)
    requires FollowsKey(root, key, path)
    requires m < |path|
    requires WellFormedRoot(root)
    ensures WellFormedRoot(path[m])
  {
    FollowsKeyWalks(root, key, path, m);
    WalkKeepsWellFormed(root, key[..m]);
  }

  /** Falling off the recorded path at depth `i` means the key is absent. */
  lemma MissingEdgeOnPath<V>(root: Option<Node<V>>, key: string, path: seq<Option<Node<V>>>, i: nat)
    requires FollowsKey(root, key, path)
    requires i < |path| && i < |key|
    requires Child(path[i], key[i]).None?
    ensures key !in Denote(root)
  {
    FollowsKeyWalks(root, key, path, i);
    WalkStep(root, key, i);
    if key in Denote(root) {
      PresentKeyHasPath(root, key, i + 1);
      assert false;
    }
  }

  /** A complete path ends at the node that decides whether the key is present. */
  lemma CompletePathDecides<V>(root: Option<Node<V>>, key: string, path: seq<Option<Node<V>>>)
    requires FollowsKey(root, key, path)
    requires |path| == |key| + 1
    ensures key in Denote(root) <==> path[|key|].Some? && path[|key|].value.IsValueNode()
    ensures key in Denote(root) ==> Denote(root)[key] == path[|key|].value.value.value
  {
    FollowsKeyWalks(root, key, path, |key|);
    assert key[..|key|] == key;
    DenoteIsLookup(root, key);
  }

  // ---------------------------------------------------------------------
  // The map view

  lemma {:induction false} LookupInKeys<V>(n: Node<V>, s: string)
    requires Lookup(Some(n), s).Some?
    ensures s in Keys(n)
    decreases s
  {
    if s != [] {
      var c := s[0];
      if c in n.children {
        LookupInKeys(n.children[c], s[1..]);
        assert s == [c] + s[1..];
      } else {
        LookupFromNone<V>(s[1..]);
      }
    }
  }

  /** `Denote` is exactly the set of successful lookups. */
  lemma DenoteIsLookup<V>(root: Option<Node<V>>, s: string)
    ensures s in Denote(root) <==> Lookup(root, s).Some?
    ensures s in Denote(root) ==> Denote(root)[s] == Lookup(root, s).value
  {
    if root.None? {
      LookupFromNone<V>(s);
    } else if Lookup(root, s).Some? {
      LookupInKeys(root.value, s);
    }
  }

  /** A pointwise update of every lookup is a map update of the denotation. */
  lemma DenoteOfAgrees<V>(a: Option<Node<V>>, b: Option<Node<V>>, key: string, x: Option<Entry<V>>)
    requires Agrees(a, b, key, x)
    ensures x.Some? ==> Denote(b) == Denote(a)[key := x.value]
    ensures x.None? ==> Denote(b) == Denote(a) - {key}
  {
    if x.Some? {
      var m := Denote(a)[key := x.value];
      forall s ensures s in Denote(b) <==> s in m
        ensures s in m ==> Denote(b)[s] == m[s]
      {
        DenoteIsLookup(a, s);
        DenoteIsLookup(b, s);
      }
    } else {
      var m := Denote(a) - {key};
      forall s ensures s in Denote(b) <==> s in m
        ensures s in m ==> Denote(b)[s] == m[s]
      {
        DenoteIsLookup(a, s);
        DenoteIsLookup(b, s);
      }
    }
  }

  // ---------------------------------------------------------------------
  // The shape invariant

  lemma {:induction false} WalkKeepsWellFormed<V>(n: Option<Node<V>>, key: string)
    requires WellFormedRoot(n)
    ensures WellFormedRoot(Walk(n, key))
    decreases key
  {
    if key != [] {
      WalkKeepsWellFormed(Child(n, key[0]), key[1..]);
    }
  }

  /** A well-formed node stores at least one value. */
  lemma {:induction false} WellFormedStoresSomething<V>(n: Node<V>) returns (s: string)
    requires WellFormed(n)
    ensures Lookup(Some(n), s).Some?
    decreases n
  {
    if n.value.Some? {
      s := [];
    } else {
      var c :| c in n.children;
      var t := WellFormedStoresSomething(n.children[c]);
      s := [c] + t;
      assert s[0] == c && s[1..] == t;
    }
  }

  /**
   * Under the shape invariant the empty map has exactly one representation:
   * the trie without a root.
   */
  lemma EmptyDenotationMeansNoRoot<V>(root: Option<Node<V>>)
    requires WellFormedRoot(root)
    ensures Denote(root) == map[] <==> root.None?
  {
    if root.Some? {
      var s := WellFormedStoresSomething(root.value);
      DenoteIsLookup(root, s);
    }
  }
}
