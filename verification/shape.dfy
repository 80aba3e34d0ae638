/** The shape of a trie, as values: `keys` is the set of paths (letter
    sequences from the root) that have a node, and `words` the set of paths
    whose node has `isWord` set.  Everything `Trie.java` relies on about its
    tree, and the detachment point `delete` computes, is stated and proved
    here once; the heap model in PrefixTree ties its nodes to these sets. */
module TrieShape {
  import opened Alphabet

  /** Every node path spells a lowercase word. */
  ghost predicate AllLower(keys: set<seq<char>>) {
    forall p :: p in keys ==> IsLowerWord(p)
  }

  /** A node exists for every prefix of a node's path: the tree is entered
      only from the root, one letter at a time. */
  ghost predicate PrefixClosed(keys: set<seq<char>>) {
    forall p, j :: p in keys && 0 <= j <= |p| ==> p[..j] in keys
  }

  /** The path of the node in slot `c` of the node at `p`. */
  function Child(p: seq<char>, c: int): seq<char>
    requires 0 <= c < Size
  {
    p + [Letter(c)]
  }

  /** The node at `p` has all 26 child slots empty. */
  ghost predicate IsLeaf(keys: set<seq<char>>, p: seq<char>) {
    forall c :: 0 <= c < Size ==> Child(p, c) !in keys
  }

  /** No node other than the root and `e` is a childless non-word. */
  ghost predicate PrunedExcept(keys: set<seq<char>>, words: set<seq<char>>, e: seq<char>) {
    forall p {:trigger IsLeaf(keys, p)} :: p in keys && p != [] && p != e && IsLeaf(keys, p) ==> p in words
  }

  /** The pruning invariant `delete` maintains: every childless node below
      the root ends a stored word. */
  ghost predicate Pruned(keys: set<seq<char>>, words: set<seq<char>>) {
    PrunedExcept(keys, words, [])
  }

  /** The invariant every operation keeps. */
  ghost predicate WellShaped(keys: set<seq<char>>, words: set<seq<char>>) {
    && AllLower(keys)
    && PrefixClosed(keys)
    && words <= keys
    && Pruned(keys, words)
  }

  /** The prefixes of `w` whose length lies between `lo` and `hi`. */
  ghost function Prefixes(w: seq<char>, lo: nat, hi: nat): set<seq<char>>
    requires hi <= |w|
  {
    set j | lo <= j <= hi :: w[..j]
  }

  /** The node paths at or below `p`: the subtree a cut at `p` detaches. */
  ghost function Below(keys: set<seq<char>>, p: seq<char>): set<seq<char>> {
    set q | q in keys && p <= q
  }

  /** Every prefix of every word. */
  ghost function PrefixSet(words: set<seq<char>>): set<seq<char>> {
    set u, j | u in words && 0 <= j <= |u| :: u[..j]
  }

  /** The node at `p` must be kept when the branch towards slot `next` is
      removed: it ends a word, or another of its slots is populated. */
  ghost predicate Branching(keys: set<seq<char>>, words: set<seq<char>>, p: seq<char>, next: int) {
    || p in words
    || exists c :: 0 <= c < Size && c != next && Child(p, c) in keys
  }

  /** The depth of the detachment point `d` after `delete` has walked the
      first `n` letters of `w`: the deepest node above depth `n` that is
      Branching along `w`, or the root when there is none.  Its slot `ind`
      is `Index(w[k])`. */
  ghost function Cut(keys: set<seq<char>>, words: set<seq<char>>, w: seq<char>, n: nat): (k: nat)
    requires IsLowerWord(w)
    requires 1 <= n <= |w|
    ensures k < n
    ensures k > 0 ==> Branching(keys, words, w[..k], Index(w[k]))
    ensures forall j :: k < j < n ==> !Branching(keys, words, w[..j], Index(w[j]))
    decreases n
  {
    if n == 1 then 0
    else if Branching(keys, words, w[..n - 1], Index(w[n - 1])) then n - 1
    else Cut(keys, words, w, n - 1)
  }

  /** The node paths `delete(w)` removes: the subtree at slot `Index(w[k])`
      of the detachment point when `w` ends at a childless node below the
      root, nothing otherwise. */
  ghost function Detached(keys: set<seq<char>>, words: set<seq<char>>, w: seq<char>): set<seq<char>>
    requires IsLowerWord(w)
  {
    if w != [] && w in keys && IsLeaf(keys, w) then
      Below(keys, w[..Cut(keys, words, w, |w|) + 1])
    else
      {}
  }

  /** A path strictly below `p` passes through a child of `p`. */
  lemma ExtensionHasChild(keys: set<seq<char>>, p: seq<char>, q: seq<char>)
    requires AllLower(keys) && PrefixClosed(keys)
    requires q in keys && p <= q
    ensures |q| > |p| ==> Child(p, Index(q[|p|])) in keys
  {
    if |q| > |p| {
      assert q[..|p| + 1] == p + [q[|p|]];
    }
  }

  /** A path below a leaf is the leaf itself. */
  lemma LeafHasNoExtension(keys: set<seq<char>>, p: seq<char>, q: seq<char>)
    requires AllLower(keys) && PrefixClosed(keys)
    requires IsLeaf(keys, p) && q in keys && p <= q
    ensures q == p
  {
    ExtensionHasChild(keys, p, q);
  }

  /** A path that starts along `w` past its detachment point stays on `w`:
      no node strictly between the detachment point and the end of `w` has
      a second child, and the end of `w` has none. */
  lemma {:induction false} FollowsWord(keys: set<seq<char>>, words: set<seq<char>>, w: seq<char>, q: seq<char>)
    requires AllLower(keys) && PrefixClosed(keys) && IsLowerWord(w)
    requires w != [] && w in keys && IsLeaf(keys, w)
    requires q in keys && w[..Cut(keys, words, w, |w|) + 1] <= q
    ensures |q| <= |w| && q == w[..|q|]
  {
    var k := Cut(keys, words, w, |w|);
    var j := k + 1;
    while j < |q| && j < |w|
      invariant k + 1 <= j <= |q| && j <= |w|
      invariant q[..j] == w[..j]
    {
      assert q[..j + 1] == w[..j] + [q[j]] && q[..j + 1] in keys;
      var c := Index(q[j]);
      assert Child(w[..j], c) in keys;
      assert !Branching(keys, words, w[..j], Index(w[j]));
      assert c == Index(w[j]);
      assert q[..j + 1] == w[..j + 1];
      j := j + 1;
    }
    if j == |w| {
      assert w <= q;
      LeafHasNoExtension(keys, w, q);
    }
  }

  /** The nodes `delete` detaches are exactly the tail of `w`'s own path
      below the detachment point: the cut takes no other word's nodes. */
  lemma DetachedIsChain(keys: set<seq<char>>, words: set<seq<char>>, w: seq<char>)
    requires AllLower(keys) && PrefixClosed(keys) && IsLowerWord(w)
    requires w != [] && w in keys && IsLeaf(keys, w)
    ensures Detached(keys, words, w) == Prefixes(w, Cut(keys, words, w, |w|) + 1, |w|)
  {
    var m := Cut(keys, words, w, |w|) + 1;
    forall q | q in Below(keys, w[..m]) ensures q in Prefixes(w, m, |w|) {
      FollowsWord(keys, words, w, q);
    }
    forall j | m <= j <= |w| ensures w[..j] in Below(keys, w[..m]) {
      assert w[..j] == w[..|w|][..j];
    }
  }

  /** A node strictly between the detachment point and the end of `w` is
      not a word. */
  lemma ChainNotWord(keys: set<seq<char>>, words: set<seq<char>>, w: seq<char>, j: nat)
    requires IsLowerWord(w) && w != []
    requires Cut(keys, words, w, |w|) < j <= |w|
    ensures j < |w| ==> w[..j] !in words
  {
  }

  /** Of the detached paths only `w` itself was a stored word. */
  lemma DetachedWords(keys: set<seq<char>>, words: set<seq<char>>, w: seq<char>)
    requires AllLower(keys) && PrefixClosed(keys) && IsLowerWord(w)
    ensures Detached(keys, words, w) * words <= {w}
  {
    if w != [] && w in keys && IsLeaf(keys, w) {
      DetachedIsChain(keys, words, w);
      var k := Cut(keys, words, w, |w|);
      forall u | u in Prefixes(w, k + 1, |w|) && u in words ensures u == w {
        var j :| k + 1 <= j <= |w| && u == w[..j];
        ChainNotWord(keys, words, w, j);
      }
    }
  }

  /** A child of a kept node other than `w[..k]` is not on the detached
      tail `w[..k+1]`, ..., `w`. */
  lemma KeptChild(w: seq<char>, k: nat, p: seq<char>, c: int)
    requires k < |w| && 0 <= c < Size
    requires p !in Prefixes(w, k + 1, |w|) && p != w[..k]
    ensures Child(p, c) !in Prefixes(w, k + 1, |w|)
  {
    forall j | k < j <= |w| ensures Child(p, c) != w[..j] {
      if |p| + 1 == j {
        assert w[..j - 1] in Prefixes(w, k + 1, |w|) || j - 1 == k;
        assert Child(p, c)[..j - 1] == p && w[..j][..j - 1] == w[..j - 1];
      }
    }
  }

  /** A child of `w[..k]` along a letter other than `w[k]` is not on the
      detached tail. */
  lemma SiblingKept(w: seq<char>, k: nat, c: int)
    requires IsLowerWord(w) && k < |w| && 0 <= c < Size && c != Index(w[k])
    ensures Child(w[..k], c) !in Prefixes(w, k + 1, |w|)
  {
    IndexOfLetter(c);
    forall j | k < j <= |w| ensures Child(w[..k], c) != w[..j] {
      if j == k + 1 {
        assert Child(w[..k], c)[k] == Letter(c) && w[..j][k] == w[k];
      }
    }
  }

  /** Clearing the flag of a node that is not a childless node below the
      root keeps the trie pruned. */
  lemma PrunedWithout(keys: set<seq<char>>, words: set<seq<char>>, w: seq<char>)
    requires Pruned(keys, words)
    requires w == [] || w !in keys || !IsLeaf(keys, w)
    ensures Pruned(keys, words - {w})
  {
    forall p | p in keys && p != [] && IsLeaf(keys, p) ensures p in words - {w} {
    }
  }

  /** After the cut no node below the root is a childless non-word: the
      detachment point is the root or was kept because it is Branching. */
  lemma PrunedAfterDetach(keys: set<seq<char>>, words: set<seq<char>>, w: seq<char>)
    requires WellShaped(keys, words) && IsLowerWord(w)
    requires w != [] && w in keys && IsLeaf(keys, w)
    ensures Pruned(keys - Detached(keys, words, w), words - {w})
  {
    var k := Cut(keys, words, w, |w|);
    var tail := Prefixes(w, k + 1, |w|);
    var keys' := keys - tail;
    DetachedIsChain(keys, words, w);
    assert w in tail;
    forall p | p in keys' && p != [] && IsLeaf(keys', p) ensures p in words - {w} {
      if p != w[..k] {
        forall c | 0 <= c < Size ensures Child(p, c) !in keys {
          KeptChild(w, k, p, c);
        }
        assert IsLeaf(keys, p);
      } else if w[..k] !in words {
        var c :| 0 <= c < Size && c != Index(w[k]) && Child(w[..k], c) in keys;
        SiblingKept(w, k, c);
      }
    }
  }

  /** `delete(w)` keeps the invariant: removing the detached paths and the
      word `w` leaves a well-shaped trie that still has its root. */
  lemma DeleteKeepsShape(keys: set<seq<char>>, words: set<seq<char>>, w: seq<char>)
    requires WellShaped(keys, words) && IsLowerWord(w)
    ensures WellShaped(keys - Detached(keys, words, w), words - {w})
    ensures [] in keys ==> [] in keys - Detached(keys, words, w)
  {
    if w != [] && w in keys && IsLeaf(keys, w) {
      var cut := w[..Cut(keys, words, w, |w|) + 1];
      var keys' := keys - Below(keys, cut);
      DetachedWords(keys, words, w);
      PrunedAfterDetach(keys, words, w);
      forall p, j | p in keys' && 0 <= j <= |p| ensures p[..j] in keys' {
        assert cut <= p[..j] ==> cut <= p;
      }
    } else {
      assert keys - Detached(keys, words, w) == keys;
      PrunedWithout(keys, words, w);
    }
  }

  /** A proper subset has fewer elements. */
  lemma ProperSubsetSmaller<T>(a: set<T>, b: set<T>)
    requires a < b
    ensures |a| < |b|
  {
    var x :| x in b && x !in a;
    SubsetNotLarger(a, b - {x});
  }

  lemma {:induction false} SubsetNotLarger<T>(a: set<T>, b: set<T>)
    requires a <= b
    ensures |a| <= |b|
    decreases a
  {
    if a != {} {
      var x :| x in a;
      SubsetNotLarger(a - {x}, b - {x});
    }
  }

  /** Every node below the root lies on the path of some stored word. */
  lemma {:induction false} KeyExtendsToWord(keys: set<seq<char>>, words: set<seq<char>>, p: seq<char>)
    requires PrefixClosed(keys) && Pruned(keys, words)
    requires p in keys && p != []
    ensures exists u :: u in words && p <= u
    decreases |Below(keys, p)|
  {
    if IsLeaf(keys, p) {
      assert p in words && p <= p;
    } else {
      var c :| 0 <= c < Size && Child(p, c) in keys;
      var child := Child(p, c);
      assert p in Below(keys, p) && p !in Below(keys, child);
      ProperSubsetSmaller(Below(keys, child), Below(keys, p));
      KeyExtendsToWord(keys, words, child);
      var u :| u in words && child <= u;
      assert p <= u;
    }
  }

  /** A node exists exactly for the root and the prefixes of the stored
      words: the shape of a trie is determined by its word set. */
  lemma KeysFromWords(keys: set<seq<char>>, words: set<seq<char>>)
    requires WellShaped(keys, words) && [] in keys
    ensures keys == {[]} + PrefixSet(words)
  {
    forall p | p in keys && p != [] ensures p in PrefixSet(words) {
      KeyExtendsToWord(keys, words, p);
      var u :| u in words && p <= u;
      assert p == u[..|p|];
    }
    forall x | x in PrefixSet(words) ensures x in keys {
      var u, j :| u in words && 0 <= j <= |u| && x == u[..j];
    }
  }

  /** Two tries holding the same words have nodes at the same paths, so
      inserting a word twice, or deleting and re-inserting it, leaves the
      same tree as before. */
  lemma SameWordsSameShape(keys1: set<seq<char>>, keys2: set<seq<char>>, words: set<seq<char>>)
    requires WellShaped(keys1, words) && [] in keys1
    requires WellShaped(keys2, words) && [] in keys2
    ensures keys1 == keys2
  {
    KeysFromWords(keys1, words);
    KeysFromWords(keys2, words);
  }

  /** Storing `w` adds exactly the nodes on its path: the keys of a trie
      after `insert(w)` are the old keys and the prefixes of `w`. */
  lemma InsertedKeys(keys: set<seq<char>>, words: set<seq<char>>, keys': set<seq<char>>, w: seq<char>)
    requires WellShaped(keys, words) && ([] in keys || keys == {})
    requires WellShaped(keys', words + {w}) && [] in keys'
    ensures keys' == keys + Prefixes(w, 0, |w|)
  {
    KeysFromWords(keys', words + {w});
    PrefixesStart(w);
    forall x | x in PrefixSet(words + {w}) ensures x in PrefixSet(words) + Prefixes(w, 0, |w|) {
      var u, j :| u in words + {w} && 0 <= j <= |u| && x == u[..j];
    }
    forall x | x in Prefixes(w, 0, |w|) ensures x in PrefixSet(words + {w}) {
      var j :| 0 <= j <= |w| && x == w[..j];
    }
    if keys == {} {
      assert PrefixSet(words) == {};
    } else {
      KeysFromWords(keys, words);
    }
  }

  /** Deleting a word that is not stored removes no node. */
  lemma DeleteAbsentIsNoop(keys: set<seq<char>>, words: set<seq<char>>, w: seq<char>)
    requires WellShaped(keys, words) && IsLowerWord(w)
    requires w !in words
    ensures Detached(keys, words, w) == {}
  {
  }

  /** Distinct slots of distinct nodes lead to distinct paths. */
  lemma ChildInjective(p: seq<char>, c: int, q: seq<char>, d: int)
    requires 0 <= c < Size && 0 <= d < Size
    ensures Child(p, c) == Child(q, d) ==> p == q && c == d
  {
    if Child(p, c) == Child(q, d) {
      assert p == Child(p, c)[..|p|] && q == Child(q, d)[..|q|];
      assert Letter(c) == Child(p, c)[|p|];
      IndexOfLetter(c);
      IndexOfLetter(d);
    }
  }

  /** A new child of an existing node keeps the paths lowercase and closed
      under prefixes, and has no children yet. */
  lemma AddKeyShape(keys: set<seq<char>>, p: seq<char>, c: int)
    requires AllLower(keys) && PrefixClosed(keys) && p in keys && 0 <= c < Size
    requires Child(p, c) !in keys
    ensures AllLower(keys + {Child(p, c)}) && PrefixClosed(keys + {Child(p, c)})
    ensures IsLeaf(keys, Child(p, c))
  {
    var child := Child(p, c);
    var keys' := keys + {child};
    forall q, j | q in keys' && 0 <= j <= |q| ensures q[..j] in keys' {
      if q == child && j <= |p| {
        assert q[..j] == p[..j];
      } else if q == child {
        assert q[..j] == child;
      }
    }
    forall c' | 0 <= c' < Size ensures Child(child, c') !in keys {
      assert Child(child, c')[..|child|] == child;
    }
  }

  /** One step of `insert`: the child of the current node `p` along the
      word, new or reused, becomes the only node that may be a childless
      non-word. */
  lemma ExceptStep(keys: set<seq<char>>, words: set<seq<char>>, p: seq<char>, c: int)
    requires PrunedExcept(keys, words, p) && 0 <= c < Size
    ensures PrunedExcept(keys + {Child(p, c)}, words, Child(p, c))
  {
    var keys' := keys + {Child(p, c)};
    forall q | q in keys' && q != [] && q != Child(p, c) && IsLeaf(keys', q) ensures q in words {
      assert Child(p, c) in keys';
      assert IsLeaf(keys, q);
    }
  }

  /** The last step of `insert`: marking the end of the word as a word
      leaves no exception. */
  lemma ExceptMarked(keys: set<seq<char>>, words: set<seq<char>>, e: seq<char>)
    requires PrunedExcept(keys, words, e)
    ensures Pruned(keys, words + {e})
  {
    forall q | q in keys && q != [] && IsLeaf(keys, q) ensures q in words + {e} {
    }
  }

  /** The slot `delete` and `insert` follow at depth `i` leads to the next
      prefix of the word. */
  lemma ChildOfPrefix(w: seq<char>, i: nat)
    requires IsLowerWord(w) && i < |w|
    ensures Child(w[..i], Index(w[i])) == w[..i + 1]
  {
  }

  /** Before the first letter the only prefix is the root's path. */
  lemma PrefixesStart(w: seq<char>)
    ensures Prefixes(w, 0, 0) == {[]} && [] in Prefixes(w, 0, |w|)
  {
    assert w[..0] == [];
  }

  /** Removing the subtree at `cut` keeps the paths lowercase and closed
      under prefixes. */
  lemma CutShape(keys: set<seq<char>>, cut: seq<char>)
    requires AllLower(keys) && PrefixClosed(keys)
    ensures AllLower(keys - Below(keys, cut)) && PrefixClosed(keys - Below(keys, cut))
  {
    var keys' := keys - Below(keys, cut);
    forall p, j | p in keys' && 0 <= j <= |p| ensures p[..j] in keys' {
      assert cut <= p[..j] ==> cut <= p;
    }
  }

  /** The only child of a node outside the subtree at `cut` that lies
      inside it is `cut` itself. */
  lemma CutChild(cut: seq<char>, q: seq<char>, c: int)
    requires 0 <= c < Size
    requires !(cut <= q)
    ensures cut <= Child(q, c) ==> Child(q, c) == cut
  {
    if |cut| <= |q| {
      PrefixOfChild(cut, q, c);
    }
  }

  /** A prefix of `Child(q, c)` no longer than `q` is a prefix of `q`. */
  lemma PrefixOfChild(u: seq<char>, q: seq<char>, c: int)
    requires 0 <= c < Size && |u| <= |q|
    ensures u <= Child(q, c) ==> u <= q
  {
    assert Child(q, c)[..|q|] == q;
  }
}
