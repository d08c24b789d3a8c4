/**
 * The persistent copy-on-write trie and its three operations.
 *
 * A `Trie` is an immutable handle on an optional root. `Get` walks the key;
 * `Put` and `Remove` record the path from the root on a stack, replace the
 * node at its end, and rebuild the path bottom-up from clones of the old
 * nodes, so that the receiver is never changed and everything off the path
 * is shared with it. Each method is proved against the map denotation of
 * `TrieNodes`: `Get` is map lookup with a type check, `Put` is map update
 * and `Remove` is map deletion.
 */
module Tries {
  import opened Wrappers
  import opened TrieNodes

  /** The map from keys to typed values that a trie stands for. */
  ghost function Contents<V>(t: Trie<V>): (r: map<string, Entry<V>>)
  {
    Denote(t.root)
  }

  datatype Trie<V> = Trie(root: Option<Node<V>>)
  {
    /**
     * `Trie::Get<T>`: the value stored under `key`, provided it was stored
     * as type `tag`. A missing key and a type mismatch both give `None`.
     */
    method Get(key: string, tag: TypeTag) returns (r: Option<V>)
      ensures r.Some? <==> key in Contents(this) && Contents(this)[key].tag == tag
      ensures r.Some? ==> r.value == Contents(this)[key].payload
    {
      var target := root;
      for i := 0 to |key|
        invariant target == Walk(root, key[..i])
      {
        var k := key[i];
        if target.Some? && k in target.value.children {
          WalkStep(root, key, i);
          target := Some(target.value.children[k]);
        } else {
          MissingEdgeMeansAbsent(root, key, i);
          return None;
        }
      }
      assert key[..|key|] == key;
      DenoteIsLookup(root, key);
      // The dynamic_cast to TrieNodeWithValue<T> succeeds exactly on a value
      // node whose value was stored as `tag`.
      if target.Some? && target.value.IsValueNode() && target.value.value.value.tag == tag {
        r := Some(target.value.value.value.payload);
      } else {
        r := None;
      }
    }

    /**
     * `Trie::Put<T>`: a new trie in which `key` holds `value`, stored as
     * type `tag`; every other key keeps its entry. An empty key on a trie
     * without a root dereferences the null root in the source, hence the
     * precondition.
     */
    method Put(key: string, tag: TypeTag, value: V) returns (r: Trie<V>)
      requires key != [] || root.Some?
      ensures Contents(r) == Contents(this)[key := Entry(tag, value)]
      ensures r.root.Some?
      ensures SharesOffPath(root, r.root, key)
      ensures WellFormedRoot(root) ==> WellFormedRoot(r.root)
    {
      var size := |key|;
      var target := root;
      var entry := Entry(tag, value);

      if size == 0 {
        // A value node at the root, keeping the root's children.
        r := Trie(Some(Node(target.value.children, Some(entry))));
        ValueNodeAgrees(root, r.root.value, entry);
        DenoteOfAgrees(root, r.root, key, Some(entry));
        return;
      }

      var stack: seq<Option<Node<V>>> := seq(size + 1, _ => None);
      stack := stack[0 := root];
      ghost var path := [root];

      // Record the path; stack[m] is the node at depth m, or None once the
      // path has left the trie. The last slot gets the new value node.
      for i := 0 to size
        invariant |stack| == size + 1
        invariant |path| == i + 1 && FollowsKey(root, key, path) && target == path[i]
        invariant forall m :: 0 <= m <= i && m < size ==> stack[m] == path[m]
        invariant i == size ==>
          stack[size] == Some(Node(if target.Some? then target.value.children else map[], Some(entry)))
      {
        var k := key[i];
        if target.Some? && k in target.value.children {
          target := Some(target.value.children[k]);
          stack := stack[i + 1 := target];
        } else {
          target := None;
          stack := stack[i + 1 := target];
        }
        path := path + [target];
        if i == size - 1 {
          if target.Some? {
            stack := stack[i + 1 := Some(Node(target.value.children, Some(entry)))];
          } else {
            stack := stack[i + 1 := Some(Node(map[], Some(entry)))];
          }
        }
      }

      assert stack[size] == Some(PutRebuild(key, path, size, entry));

      // Rebuild the path bottom-up: a clone of the old node with its edge
      // redirected to the rebuilt child, or a fresh node with that one child.
      var i: int := size - 1;
      while i >= 0
        invariant -1 <= i < size
        invariant |stack| == size + 1
        invariant forall m :: 0 <= m <= i ==> stack[m] == path[m]
        invariant stack[i + 1] == Some(PutRebuild(key, path, i + 1, entry))
      {
        var k := key[i];
        var node := stack[i];
        var child := stack[i + 1].value;
        if node.Some? {
          var clone := node.value;
          clone := clone.(children := clone.children[k := child]);
          stack := stack[i := Some(clone)];
        } else {
          stack := stack[i := Some(Node(map[k := child], None))];
        }
        i := i - 1;
      }

      r := Trie(stack[0]);
      PutRootRebuilt(root, key, path, r.root, entry);
    }

    /**
     * `Trie::Remove`: a new trie without `key`; every other key keeps its
     * entry. When `key` is absent the very same trie comes back. Nodes left
     * without value and children are pruned, so a trie that held only `key`
     * becomes the trie without a root. An empty key on a trie without a
     * root dereferences the null root in the source, hence the precondition.
     */
    method Remove(key: string) returns (r: Trie<V>)
      requires key != [] || root.Some?
      ensures Contents(r) == Contents(this) - {key}
      ensures key !in Contents(this) ==> r == this
      ensures key in Contents(this) ==> r.root.None? || !r.root.value.IsDead()
      ensures SharesOffPath(root, r.root, key)
      ensures WellFormedRoot(root) ==> WellFormedRoot(r.root)
    {
      var size := |key|;
      var target := root;
      var stack: seq<Option<Node<V>>> := seq(size + 1, _ => None);
      stack := stack[0 := root];
      ghost var path := [root];

      // Record the path; give up as soon as an edge is missing.
      for i := 0 to size
        invariant |stack| == size + 1
        invariant |path| == i + 1 && FollowsKey(root, key, path) && target == path[i]
        invariant forall m :: 0 <= m <= i ==> stack[m] == path[m]
        invariant forall m :: 0 <= m < i ==> path[m].Some?
        invariant 0 < i ==> target.Some?
      {
        var k := key[i];
        if target.Some? && k in target.value.children {
          target := Some(target.value.children[k]);
          stack := stack[i + 1 := target];
          path := path + [target];
        } else {
          MissingEdgeOnPath(root, key, path, i);
          RemoveAbsentIsIdentity(root, key);
          return Trie(stack[0]);
        }
      }

      if !stack[size].value.IsValueNode() {
        CompletePathDecides(root, key, path);
        RemoveAbsentIsIdentity(root, key);
        return Trie(stack[0]);
      }

      assert forall m :: 0 <= m <= size ==> path[m].Some?;
      assert path[size].value.IsValueNode();
      assert stack == path;
      r := RebuildWithout(key, stack);
      RemoveFinish(this, key, path, r);
    }
  }

  /**
   * The second half of `Trie::Remove`, once the whole path to `key` has been
   * recorded on `stack` and ends at a value node: the terminal node loses its
   * value, the path is rebuilt bottom-up from clones, and a root left without
   * value and children is dropped. The result is the trie rooted at the node
   * `RemoveRebuild` makes for depth 0, or the trie without a root when that
   * node is dead.
   */
  method RebuildWithout<V>(key: string, path: seq<Option<Node<V>>>) returns (r: Trie<V>)
    requires |path| == |key| + 1
    requires forall m :: 0 <= m <= |key| ==> path[m].Some?
    ensures r == if RemoveRebuild(key, path, 0).IsDead() then Trie(None) else Trie(Some(RemoveRebuild(key, path, 0)))
  {
    var size := |key|;
    var stack := path;
    // The terminal node loses its value and keeps its children.
    var last := stack[size].value;
    stack := stack[size := Some(Node(last.children, None))];

    // Rebuild the path bottom-up from clones, dropping the edge to a child
    // that was left without value and children.
    var i: int := size - 1;
    while i >= 0
      invariant -1 <= i < size
      invariant |stack| == size + 1
      invariant forall m :: 0 <= m <= i ==> stack[m] == path[m]
      invariant stack[i + 1] == Some(RemoveRebuild(key, path, i + 1))
    {
      var k := key[i];
      var node := stack[i].value;
      var child := stack[i + 1].value;
      var clone := node;
      assert child == RemoveRebuild(key, path, i + 1) && node == path[i].value;
      assert RemoveRebuild(key, path, i) == if child.IsDead() then node.(children := node.children - {k})
                                            else node.(children := node.children[k := child]);
      if stack[i + 1].Some? && |child.children| == 0 && !child.IsValueNode() {
        clone := clone.(children := clone.children - {k});
      } else {
        clone := clone.(children := clone.children[k := child]);
      }
      stack := stack[i := Some(clone)];
      i := i - 1;
    }

    if stack[0].Some? && |stack[0].value.children| == 0 && !stack[0].value.IsValueNode() {
      r := Trie(None);
    } else {
      r := Trie(stack[0]);
    }
  }

  // ---------------------------------------------------------------------
  // One step of the rebuild, stated on lookups

  /**
   * A value node put where `w` was (keeping `w`'s children, if any) stores
   * `e` at its own position and agrees with `w` below.
   */
  lemma ValueNodeAgrees<V>(w: Option<Node<V>>, n: Node<V>, e: Entry<V>)
    requires n == Node(if w.Some? then w.value.children else map[], Some(e))
    ensures Agrees(w, Some(n), [], Some(e))
    ensures SharesOffPath(w, Some(n), [])
    ensures WellFormedRoot(w) ==> WellFormed(n)
  {
    forall s ensures Lookup(Some(n), s) == if s == [] then Some(e) else Lookup(w, s) {
      LookupAt(Some(n), s);
      LookupAt(w, s);
      if s != [] && w.None? {
        LookupFromNone<V>(s[1..]);
      }
    }
  }

  /** The terminal node of `Remove` without its value: present below, absent at itself. */
  lemma PlainNodeAgrees<V>(w: Node<V>)
    ensures Agrees(Some(w), Some(Node(w.children, None)), [], None)
    ensures SharesOffPath(Some(w), Some(Node(w.children, None)), [])
    ensures WellFormed(w) ==> Node(w.children, None).IsDead() || WellFormed(Node(w.children, None))
  {
    var n := Node(w.children, None);
    forall s ensures Lookup(Some(n), s) == if s == [] then None else Lookup(Some(w), s) {
      LookupAt(Some(n), s);
      LookupAt(Some(w), s);
    }
  }

  /**
   * Redirecting edge `k` of (a clone of) `w` to a rebuilt `child`, or making
   * a fresh node with that single edge when `w` is absent, lifts the
   * agreement of `child` on `suffix` to agreement on `[k] + suffix`.
   */
  lemma SetChildAgrees<V>(w: Option<Node<V>>, k: char, child: Node<V>, n: Node<V>,
                          suffix: string, x: Option<Entry<V>>)
    requires n == if w.Some? then w.value.(children := w.value.children[k := child])
                  else Node(map[k := child], None)
    requires Agrees(Child(w, k), Some(child), suffix, x)
    ensures Agrees(w, Some(n), [k] + suffix, x)
  {
    forall s ensures Lookup(Some(n), s) == if s == [k] + suffix then x else Lookup(w, s) {
      SetChildLookup(w, k, child, n, suffix, x, s);
    }
  }

  lemma SetChildLookup<V>(w: Option<Node<V>>, k: char, child: Node<V>, n: Node<V>,
                          suffix: string, x: Option<Entry<V>>, s: string)
    requires n == if w.Some? then w.value.(children := w.value.children[k := child])
                  else Node(map[k := child], None)
    requires Agrees(Child(w, k), Some(child), suffix, x)
    ensures Lookup(Some(n), s) == if s == [k] + suffix then x else Lookup(w, s)
  {
    LookupAt(Some(n), s);
    LookupAt(w, s);
    if s != [] {
      if s[0] == k {
        assert (s == [k] + suffix) == (s[1..] == suffix);
      } else {
        assert s != [k] + suffix;
        LookupFromNone<V>(s[1..]);
      }
    }
  }

  /** The node built by `SetChildAgrees` is well-formed when its parts are. */
  lemma SetChildWellFormed<V>(w: Option<Node<V>>, k: char, child: Node<V>, n: Node<V>)
    requires n == if w.Some? then w.value.(children := w.value.children[k := child])
                  else Node(map[k := child], None)
    requires WellFormedRoot(w) && WellFormed(child)
    ensures WellFormed(n)
  {
  }

  /** The node built by `SetChildAgrees` shares every other edge with `w`. */
  lemma SetChildShares<V>(w: Option<Node<V>>, k: char, child: Node<V>, n: Node<V>, suffix: string)
    requires n == if w.Some? then w.value.(children := w.value.children[k := child])
                  else Node(map[k := child], None)
    requires SharesOffPath(Child(w, k), Some(child), suffix)
    ensures SharesOffPath(w, Some(n), [k] + suffix)
  {
    if w.Some? {
      assert n.children - {k} == w.value.children - {k};
    }
    assert ([k] + suffix)[0] == k && ([k] + suffix)[1..] == suffix;
  }

  /**
   * Dropping edge `k` of (a clone of) `w` when the rebuilt child there holds
   * nothing keeps the agreement, and leaves the other edges as they were.
   */
  lemma EraseChildAgrees<V>(w: Node<V>, k: char, child: Node<V>, suffix: string)
    requires child.IsDead()
    requires Agrees(Child(Some(w), k), Some(child), suffix, None)
    ensures Agrees(Some(w), Some(w.(children := w.children - {k})), [k] + suffix, None)
  {
    forall s ensures Lookup(Some(w.(children := w.children - {k})), s) ==
                       if s == [k] + suffix then None else Lookup(Some(w), s) {
      EraseChildLookup(w, k, child, suffix, s);
    }
  }

  lemma EraseChildLookup<V>(w: Node<V>, k: char, child: Node<V>, suffix: string, s: string)
    requires child.IsDead()
    requires s != [] && s[0] == k ==>
               Lookup(Some(child), s[1..]) == if s[1..] == suffix then None else Lookup(Child(Some(w), k), s[1..])
    ensures Lookup(Some(w.(children := w.children - {k})), s) ==
              if s == [k] + suffix then None else Lookup(Some(w), s)
  {
    var n := w.(children := w.children - {k});
    LookupAt(Some(n), s);
    LookupAt(Some(w), s);
    if s == [] {
      assert s != [k] + suffix;
    } else if s[0] == k {
      assert Child(Some(n), k) == None;
      LookupFromNone<V>(s[1..]);
      DeadStoresNothing(child, s[1..]);
      assert (s == [k] + suffix) == (s[1..] == suffix);
    } else {
      assert Child(Some(n), s[0]) == Child(Some(w), s[0]);
      assert s != [k] + suffix;
    }
  }

  /** The clone made by `EraseChildAgrees` keeps every other edge of `w`. */
  lemma EraseChildShares<V>(w: Node<V>, k: char, suffix: string)
    ensures SharesOffPath(Some(w), Some(w.(children := w.children - {k})), [k] + suffix)
    ensures WellFormed(w) ==>
      w.(children := w.children - {k}).IsDead() || WellFormed(w.(children := w.children - {k}))
  {
    var n := w.(children := w.children - {k});
    assert n.children - {k} == w.children - {k};
    assert ([k] + suffix)[0] == k && ([k] + suffix)[1..] == suffix;
    assert Child(Some(n), k).None?;
  }

  // ---------------------------------------------------------------------
  // The rebuild loops, one depth at a time

  /**
   * What the rebuild loop of `Put` knows of the node `built` it has made
   * for depth `j`: it stores `e` at the rest of the key and otherwise what
   * the recorded node stored, shares that node's other edges, and keeps the
   * shape invariant.
   */
  ghost predicate PutRebuilt<V>(root: Option<Node<V>>, key: string, path: seq<Option<Node<V>>>,
                                j: nat, built: Option<Node<V>>, e: Entry<V>)
  {
    && j < |path| && j <= |key|
    && built.Some?
    && Agrees(path[j], built, key[j..], Some(e))
    && SharesOffPath(path[j], built, key[j..])
    && (WellFormedRoot(root) ==> WellFormed(built.value))
  }

  /** The same for `Remove`, where the rest of the key is deleted and `built` may be dead. */
  ghost predicate RemoveRebuilt<V>(root: Option<Node<V>>, key: string, path: seq<Option<Node<V>>>,
                                   j: nat, built: Option<Node<V>>)
  {
    && j < |path| && j <= |key|
    && built.Some?
    && Agrees(path[j], built, key[j..], None)
    && SharesOffPath(path[j], built, key[j..])
    && (WellFormedRoot(root) ==> built.value.IsDead() || WellFormed(built.value))
  }

  /**
   * The node the rebuild loop of `Put` makes for depth `j` of the recorded
   * path: a value node at the end of the key, and above it a clone of the
   * recorded node (or a fresh node, where the path had left the trie) whose
   * edge under the key points to the node made for depth `j + 1`.
   */
  ghost function PutRebuild<V>(key: string, path: seq<Option<Node<V>>>, j: nat, e: Entry<V>): (r: Node<V>)
    requires |path| == |key| + 1 && j <= |key|
    decreases |key| - j
  {
    if j == |key| then Node(if path[j].Some? then path[j].value.children else map[], Some(e))
    else
      var child := PutRebuild(key, path, j + 1, e);
      if path[j].Some? then path[j].value.(children := path[j].value.children[key[j] := child])
      else Node(map[key[j] := child], None)
  }

  /**
   * The node the rebuild loop of `Remove` makes for depth `j`: the terminal
   * node without its value, and above it a clone of the recorded node that
   * loses its edge under the key when the node made below is dead, and
   * otherwise has that edge redirected to it.
   */
  ghost function RemoveRebuild<V>(key: string, path: seq<Option<Node<V>>>, j: nat): (r: Node<V>)
    requires |path| == |key| + 1 && j <= |key|
    decreases |key| - j
  {
    // Every node of a path that `Remove` rebuilds is present; the empty
    // node only makes the function total.
    var node := if path[j].Some? then path[j].value else Node(map[], None);
    if j == |key| then Node(node.children, None)
    else
      var below := RemoveRebuild(key, path, j + 1);
      if below.IsDead() then node.(children := node.children - {key[j]})
      else node.(children := node.children[key[j] := below])
  }

  /** The node `PutRebuild` makes for any depth has what the rebuild loop needs. */
  lemma {:induction false} PutRebuildMeets<V>(root: Option<Node<V>>, key: string, path: seq<Option<Node<V>>>,
                                              j: nat, e: Entry<V>)
    requires FollowsKey(root, key, path) && |path| == |key| + 1 && j <= |key|
    ensures PutRebuilt(root, key, path, j, Some(PutRebuild(key, path, j, e)), e)
    decreases |key| - j
  {
    if j == |key| {
      PutLeafRebuilt(root, key, path, PutRebuild(key, path, j, e), e);
    } else {
      PutRebuildMeets(root, key, path, j + 1, e);
      PutRebuildStep(root, key, path, j, e);
    }
  }

  /** The node `RemoveRebuild` makes for any depth has what the rebuild loop needs. */
  lemma {:induction false} RemoveRebuildMeets<V>(root: Option<Node<V>>, key: string, path: seq<Option<Node<V>>>,
                                                 j: nat)
    requires FollowsKey(root, key, path) && |path| == |key| + 1 && j <= |key|
    requires forall m :: j <= m <= |key| ==> path[m].Some?
    ensures RemoveRebuilt(root, key, path, j, Some(RemoveRebuild(key, path, j)))
    decreases |key| - j
  {
    if j == |key| {
      RemoveLeafRebuilt(root, key, path, path[j].value);
    } else {
      RemoveRebuildMeets(root, key, path, j + 1);
      RemoveRebuildStep(root, key, path, j);
    }
  }

  /** The new value node at the end of the path of `Put`. */
  lemma PutLeafRebuilt<V>(root: Option<Node<V>>, key: string, path: seq<Option<Node<V>>>, n: Node<V>, e: Entry<V>)
    requires FollowsKey(root, key, path) && |path| == |key| + 1
    requires n == Node(if path[|key|].Some? then path[|key|].value.children else map[], Some(e))
    ensures PutRebuilt(root, key, path, |key|, Some(n), e)
  {
    assert key[|key|..] == [];
    ValueNodeAgrees(path[|key|], n, e);
    if WellFormedRoot(root) {
      FollowsKeyWellFormed(root, key, path, |key|);
    }
  }

  /** The terminal node of `Remove`, its value dropped. */
  lemma RemoveLeafRebuilt<V>(root: Option<Node<V>>, key: string, path: seq<Option<Node<V>>>, last: Node<V>)
    requires FollowsKey(root, key, path) && |path| == |key| + 1
    requires path[|key|] == Some(last)
    ensures RemoveRebuilt(root, key, path, |key|, Some(Node(last.children, None)))
  {
    assert key[|key|..] == [];
    PlainNodeAgrees(last);
    if WellFormedRoot(root) {
      FollowsKeyWellFormed(root, key, path, |key|);
    }
  }

  /**
   * One step of the rebuild loop of `Put` at depth `i`: the node built from
   * the recorded node at that depth (or from nothing) and the rebuilt child.
   */
  lemma PutRebuildStep<V>(root: Option<Node<V>>, key: string, path: seq<Option<Node<V>>>, i: nat, e: Entry<V>)
    requires FollowsKey(root, key, path) && |path| == |key| + 1 && i < |key|
    requires PutRebuilt(root, key, path, i + 1, Some(PutRebuild(key, path, i + 1, e)), e)
    ensures PutRebuilt(root, key, path, i, Some(PutRebuild(key, path, i, e)), e)
  {
    var child := PutRebuild(key, path, i + 1, e);
    var n := PutRebuild(key, path, i, e);
    assert path[i + 1] == Child(path[i], key[i]);
    assert key[i..] == [key[i]] + key[i + 1..];
    SetChildAgrees(path[i], key[i], child, n, key[i + 1..], Some(e));
    SetChildShares(path[i], key[i], child, n, key[i + 1..]);
    if WellFormedRoot(root) {
      FollowsKeyWellFormed(root, key, path, i);
      SetChildWellFormed(path[i], key[i], child, n);
    }
  }

  /**
   * One step of the rebuild loop of `Remove` at depth `i`: the clone of the
   * recorded node there loses its edge to a dead child, or has it redirected
   * to the rebuilt one.
   */
  lemma RemoveRebuildStep<V>(root: Option<Node<V>>, key: string, path: seq<Option<Node<V>>>, i: nat)
    requires FollowsKey(root, key, path) && |path| == |key| + 1 && i < |key|
    requires forall m :: i <= m <= |key| ==> path[m].Some?
    requires RemoveRebuilt(root, key, path, i + 1, Some(RemoveRebuild(key, path, i + 1)))
    ensures RemoveRebuilt(root, key, path, i, Some(RemoveRebuild(key, path, i)))
  {
    var node := path[i].value;
    var child := RemoveRebuild(key, path, i + 1);
    var clone := RemoveRebuild(key, path, i);
    assert clone == if child.IsDead() then node.(children := node.children - {key[i]})
                    else node.(children := node.children[key[i] := child]);
    assert path[i + 1] == Child(path[i], key[i]);
    assert key[i..] == [key[i]] + key[i + 1..];
    if WellFormedRoot(root) {
      FollowsKeyWellFormed(root, key, path, i);
    }
    if child.IsDead() {
      EraseChildAgrees(node, key[i], child, key[i + 1..]);
      EraseChildShares(node, key[i], key[i + 1..]);
    } else {
      SetChildAgrees(path[i], key[i], child, clone, key[i + 1..], None);
      SetChildShares(path[i], key[i], child, clone, key[i + 1..]);
      if WellFormedRoot(root) {
        SetChildWellFormed(path[i], key[i], child, clone);
      }
    }
  }

  /** The node rebuilt at depth 0 is the root of the result of `Put`. */
  lemma PutRootRebuilt<V>(root: Option<Node<V>>, key: string, path: seq<Option<Node<V>>>,
                          built: Option<Node<V>>, e: Entry<V>)
    requires FollowsKey(root, key, path) && |path| == |key| + 1
    requires built == Some(PutRebuild(key, path, 0, e))
    ensures Denote(built) == Denote(root)[key := e]
    ensures SharesOffPath(root, built, key)
    ensures WellFormedRoot(root) ==> WellFormedRoot(built)
  {
    PutRebuildMeets(root, key, path, 0, e);
    assert key[0..] == key;
    DenoteOfAgrees(root, built, key, Some(e));
  }

  /**
   * The node rebuilt at depth 0 becomes the root of the result of `Remove`,
   * or, when it is dead, the result is the trie without a root.
   */
  lemma RemoveFinish<V>(t: Trie<V>, key: string, path: seq<Option<Node<V>>>, r: Trie<V>)
    requires FollowsKey(t.root, key, path) && |path| == |key| + 1
    requires forall m :: 0 <= m <= |key| ==> path[m].Some?
    requires path[|key|].value.IsValueNode()
    requires r == if RemoveRebuild(key, path, 0).IsDead() then Trie(None) else Trie(Some(RemoveRebuild(key, path, 0)))
    ensures key in Contents(t)
    ensures Contents(r) == Contents(t) - {key}
    ensures r.root.None? || !r.root.value.IsDead()
    ensures SharesOffPath(t.root, r.root, key)
    ensures WellFormedRoot(t.root) ==> WellFormedRoot(r.root)
  {
    var built := Some(RemoveRebuild(key, path, 0));
    RemoveRebuildMeets(t.root, key, path, 0);
    CompletePathDecides(t.root, key, path);
    assert key[0..] == key;
    if r.root.None? {
      PrunedRootAgrees(t.root, built.value, key);
    }
    DenoteOfAgrees(t.root, r.root, key, None);
  }

  /** A root left without value and children can be dropped altogether. */
  lemma PrunedRootAgrees<V>(a: Option<Node<V>>, n: Node<V>, key: string)
    requires n.IsDead()
    requires Agrees(a, Some(n), key, None)
    ensures Agrees(a, None, key, None)
  {
    forall s ensures Lookup(None, s) == if s == key then None else Lookup(a, s) {
      LookupFromNone<V>(s);
      DeadStoresNothing(n, s);
    }
  }

  /** What `Remove` promises holds of the unchanged root when `key` is absent. */
  lemma RemoveAbsentIsIdentity<V>(root: Option<Node<V>>, key: string)
    requires key !in Denote(root)
    ensures Denote(root) - {key} == Denote(root)
    ensures SharesOffPath(root, root, key)
  {
    SharesOffPathReflexive(root, key);
  }

  lemma {:induction false} SharesOffPathReflexive<V>(a: Option<Node<V>>, key: string)
    ensures SharesOffPath(a, a, key)
    decreases key
  {
    if a.Some? && key != [] {
      SharesOffPathReflexive(Child(a, key[0]), key[1..]);
    }
  }
}
