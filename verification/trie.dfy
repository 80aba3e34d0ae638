/** The trie of `Trie.java` on the heap: nodes with a 26-slot child array and
    an end-of-word flag, a lazily created root, and the four operations
    insert, search, delete and clear, each walking the word letter by letter.

    The ghost map `nodes` names every node by the path that reaches it from
    the root and `words` is the set of stored words; `Valid` ties the arrays
    and flags to these sets and to the shape invariants of TrieShape. */
module PrefixTree {
  import opened Alphabet
  import opened TrieShape

  /** A Java `String` argument: `None` is `null`. */
  datatype Option<T> = None | Some(value: T)

  /** A word argument the operations accept: `null` or lowercase letters. */
  predicate IsInput(word: Option<seq<char>>) {
    word.Some? ==> IsLowerWord(word.value)
  }

  /** One node: a slot per lowercase letter and the end-of-word flag. */
  class TrieNode {
    const children: array<TrieNode?>
    var isWord: bool

    constructor ()
      ensures fresh(children) && children.Length == Size && !isWord
      ensures forall c :: 0 <= c < Size ==> children[c] == null
    {
      children := new TrieNode?[Size](_ => null);
      isWord := false;
    }
  }

  class Trie {
    var root: TrieNode?

    /** The node reached by each path from the root. */
    ghost var nodes: map<seq<char>, TrieNode>
    /** The stored words: the paths whose node has `isWord` set. */
    ghost var words: set<seq<char>>
    /** The objects the trie may use: itself, its nodes and their arrays. */
    ghost var Repr: set<object>
    /** The path each node, and each node's child array, belongs to. */
    ghost var owner: map<object, seq<char>>

    /** The tree structure: `nodes` is a tree of distinct nodes and arrays
        whose child slots hold exactly the nodes one letter further down. */
    ghost predicate Linked()
      reads this, Repr
    {
      && this in Repr
      && (root == null ==> nodes == map[])
      && (root != null ==> [] in nodes && nodes[[]] == root)
      && (forall p :: p in nodes ==>
            && nodes[p] in Repr && nodes[p].children in Repr && nodes[p].children.Length == Size
            && nodes[p] in owner && owner[nodes[p]] == p
            && nodes[p].children in owner && owner[nodes[p].children] == p)
      && (forall p, c {:trigger nodes[p].children[c]} :: p in nodes && 0 <= c < Size ==>
            nodes[p].children[c] == if Child(p, c) in nodes then nodes[Child(p, c)] else null)
      && (forall p :: p in words <==> p in nodes && nodes[p].isWord)
      && AllLower(nodes.Keys)
      && PrefixClosed(nodes.Keys)
    }

    /** The object invariant: the tree is linked and pruned. */
    ghost predicate Valid()
      reads this, Repr
    {
      Linked() && Pruned(nodes.Keys, words)
    }

    /** `Trie(){}`: the root is created lazily. */
    constructor ()
      ensures Valid() && fresh(Repr)
      ensures root == null && nodes == map[] && words == {}
    {
      root := null;
      nodes := map[];
      words := {};
      Repr := {this};
      owner := map[];
    }

    /** Line 40 of `insert`: the lazily created root. */
    method MakeRoot()
      requires Linked() && root == null
      modifies this
      ensures Linked() && root != null && fresh(root) && fresh(root.children)
      ensures nodes == map[[] := root] && words == old(words)
      ensures Repr == old(Repr) + {root, root.children}
    {
      root := new TrieNode();
      nodes := map[[] := root];
      Repr := Repr + {root, root.children};
      owner := map[root := [], root.children := []];
    }

    /** Lines 46-47 of `insert`: the empty slot `index` of the node at `p`
        receives the new node `n`, which becomes the node at `Child(p, index)`. */
    method AddChild(t: TrieNode, ghost p: seq<char>, index: int, n: TrieNode)
      requires Linked() && p in nodes && t == nodes[p]
      requires 0 <= index < Size && t.children[index] == null
      requires n !in Repr && n.children !in Repr && n.children.Length == Size && !n.isWord
      requires forall c :: 0 <= c < Size ==> n.children[c] == null
      modifies this, t.children
      ensures Linked() && root == old(root) && words == old(words)
      ensures Repr == old(Repr) + {n, n.children}
      ensures t.children[index] == n
      ensures nodes == old(nodes)[Child(p, index) := n] && Child(p, index) !in old(nodes)
      ensures nodes.Keys == old(nodes.Keys) + {Child(p, index)}
    {
      ghost var child := Child(p, index);
      AddKeyShape(nodes.Keys, p, index);
      t.children[index] := n;
      nodes := nodes[child := n];
      Repr := Repr + {n, n.children};
      owner := owner[n := child][n.children := child];
      forall q, c | q in nodes && 0 <= c < Size
        ensures nodes[q].children[c] == if Child(q, c) in nodes then nodes[Child(q, c)] else null
      {
        ChildInjective(q, c, p, index);
      }
      assert forall q :: q in words <==> q in nodes && nodes[q].isWord;
    }

    /** `t.isWord = b` on the node at path `p` (line 54 of `insert`, lines
        125 and 132 of `delete`): only the membership of `p` in `words`
        changes. */
    method SetFlag(t: TrieNode, ghost p: seq<char>, b: bool)
      requires Linked() && p in nodes && t == nodes[p]
      modifies this, t
      ensures Linked() && root == old(root) && nodes == old(nodes) && Repr == old(Repr)
      ensures words == if b then old(words) + {p} else old(words) - {p}
    {
      t.isWord := b;
      words := if b then words + {p} else words - {p};
    }

    /** Line 137 of `delete`: emptying slot `ind` of the node at `p` removes
        the whole subtree at `Child(p, ind)` from the trie, together with
        the words stored in it; every other node keeps its place. */
    method Detach(d: TrieNode, ghost p: seq<char>, ind: int)
      requires Linked() && p in nodes && d == nodes[p] && 0 <= ind < Size
      modifies this, d.children
      ensures Linked() && root == old(root) && Repr == old(Repr)
      ensures nodes.Keys == old(nodes.Keys) - Below(old(nodes.Keys), Child(p, ind))
      ensures forall q :: q in nodes ==> nodes[q] == old(nodes[q])
      ensures words == old(words) - Below(old(nodes.Keys), Child(p, ind))
    {
      ghost var cut := Child(p, ind);
      ghost var gone := Below(nodes.Keys, cut);
      CutShape(nodes.Keys, cut);
      d.children[ind] := null;
      nodes := nodes - gone;
      words := words - gone;
      forall q, c | q in nodes && 0 <= c < Size
        ensures nodes[q].children[c] == if Child(q, c) in nodes then nodes[Child(q, c)] else null
      {
        ChildInjective(q, c, p, ind);
        CutChild(cut, q, c);
      }
      assert forall q :: q in words <==> q in nodes && nodes[q].isWord;
    }

    /** Lines 44-50 of `insert`: the child of `t` in slot `index`, created
        first when the slot is empty; an existing child is reused. */
    method Descend(t: TrieNode, ghost p: seq<char>, index: int) returns (next: TrieNode)
      requires Linked() && p in nodes && t == nodes[p] && 0 <= index < Size
      modifies this, t.children
      ensures Linked() && root == old(root) && words == old(words) && fresh(Repr - old(Repr))
      ensures Child(p, index) in nodes && next == nodes[Child(p, index)]
      ensures nodes.Keys == old(nodes.Keys) + {Child(p, index)}
      ensures forall q :: q in old(nodes) ==> nodes[q] == old(nodes[q])
    {
      if t.children[index] == null {
        var n := new TrieNode();
        AddChild(t, p, index, n);
      } else {
        assert nodes.Keys == old(nodes.Keys) + {Child(p, index)};
      }
      next := t.children[index];
    }

    /** Lines 42-52 of `insert`: walks `w` from the root, reusing the
        nodes that exist and creating the missing ones, and returns the
        node at `w`; only that node may still be a childless non-word. */
    method InsertPath(w: seq<char>) returns (t: TrieNode)
      requires Linked() && Pruned(nodes.Keys, words) && IsLowerWord(w) && root != null
      modifies Repr
      ensures Linked() && fresh(Repr - old(Repr)) && root == old(root) && words == old(words)
      ensures w in nodes && t == nodes[w]
      ensures PrunedExcept(nodes.Keys, words, w)
      ensures forall p :: p in old(nodes) ==> p in nodes && nodes[p] == old(nodes[p])
    {
      t := root;
      var i := 0;
      while i < |w|
        invariant 0 <= i <= |w|
        invariant Linked() && fresh(Repr - old(Repr)) && root == old(root)
        invariant w[..i] in nodes && t == nodes[w[..i]]
        invariant words == old(words)
        invariant PrunedExcept(nodes.Keys, words, w[..i])
        invariant forall p :: p in old(nodes) ==> p in nodes && nodes[p] == old(nodes[p])
      {
        var index := Index(w[i]);
        ChildOfPrefix(w, i);
        ExceptStep(nodes.Keys, words, w[..i], index);
        t := Descend(t, w[..i], index);
        i := i + 1;
      }
      assert w[..i] == w;
    }

    /** Stores `word`, creating the root and every missing node on its path;
        nodes that already exist are reused and no other flag changes. */
    method Insert(word: Option<seq<char>>)
      requires Valid() && IsInput(word)
      modifies Repr
      ensures Valid() && fresh(Repr - old(Repr))
      ensures word.None? ==> root == old(root) && nodes == old(nodes) && words == old(words)
      ensures word.Some? ==> words == old(words) + {word.value}
      ensures forall p :: p in old(nodes) ==> p in nodes && nodes[p] == old(nodes[p])
    {
      if word.None? {
        return;
      }
      var w := word.value;
      if root == null {
        MakeRoot();
      }
      var t := InsertPath(w);
      ExceptMarked(nodes.Keys, words, w);
      SetFlag(t, w, true);
    }

    /** Whether `word` is stored; the trie is not modified. */
    method Search(word: Option<seq<char>>) returns (found: bool)
      requires Valid() && IsInput(word)
      ensures found <==> word.Some? && word.value in words
    {
      if word.None? || root == null {
        return false;
      }
      var w := word.value;
      var t := root;
      var i := 0;
      while i < |w|
        invariant 0 <= i <= |w|
        invariant w[..i] in nodes && t == nodes[w[..i]]
      {
        var index := Index(w[i]);
        ChildOfPrefix(w, i);
        if t.children[index] == null {
          assert w[..i + 1] == w[..|w|][..i + 1];
          return false;
        }
        t := t.children[index];
        i := i + 1;
      }
      assert w[..i] == w;
      return t.isWord;
    }

    /** Lines 93-122 of `delete`: walks the path of `w`, recording in `d`
        and `ind` the deepest node above the end of `w` that ends a word or
        has a child off the path, and the slot towards `w` there.  Reports
        `found == false` where the source returns on an empty slot. */
    method Locate(w: seq<char>) returns (found: bool, t: TrieNode, d: TrieNode, ind: int, ghost dk: nat)
      requires Valid() && IsLowerWord(w) && root != null
      ensures found <==> w in nodes
      ensures found ==> t == nodes[w]
      ensures found && w == [] ==> ind == -1
      ensures found && w != [] ==>
        dk == Cut(nodes.Keys, words, w, |w|) && d == nodes[w[..dk]] && ind == Index(w[dk])
    {
      d := root;
      ind := if w != [] then Index(w[0]) else -1;
      dk := 0;
      t := root;
      var i := 0;
      while i < |w|
        invariant 0 <= i <= |w|
        invariant w[..i] in nodes && t == nodes[w[..i]]
        invariant dk <= i && (i == 0 ==> dk == 0)
        invariant i > 0 ==> dk == Cut(nodes.Keys, words, w, i)
        invariant w[..dk] in nodes && d == nodes[w[..dk]]
        invariant if w == [] then ind == -1 else dk < |w| && ind == Index(w[dk])
      {
        var index := Index(w[i]);
        ChildOfPrefix(w, i);
        if t.children[index] == null {
          assert w[..i + 1] == w[..|w|][..i + 1];
          return false, t, d, ind, dk;
        }
        ghost var dk0 := dk;
        for k := 0 to Size
          invariant dk == if exists c :: 0 <= c < k && c != index && Child(w[..i], c) in nodes then i else dk0
          invariant w[..dk] in nodes && d == nodes[w[..dk]] && ind == Index(w[dk])
        {
          if k != index && t.children[k] != null {
            d := t;
            ind := index;
            dk := i;
          }
        }
        if t.isWord == true {
          d := t;
          ind := index;
          dk := i;
        }
        t := t.children[index];
        i := i + 1;
      }
      assert w[..i] == w;
      return true, t, d, ind, dk;
    }

    /** Removes `word`: returns untouched when its path is missing; clears
        the flag alone when `word` is empty or its node has children;
        otherwise cuts slot `ind` of the detachment point `d`, detaching
        exactly the nodes that served only `word`. */
    method Delete(word: Option<seq<char>>)
      requires Valid() && IsInput(word)
      modifies Repr
      ensures Valid() && Repr == old(Repr) && root == old(root)
      ensures word.None? ==> nodes == old(nodes) && words == old(words)
      ensures word.Some? ==> words == old(words) - {word.value}
      ensures word.Some? ==>
        nodes.Keys == old(nodes.Keys) - Detached(old(nodes.Keys), old(words), word.value)
      ensures forall p :: p in nodes ==> p in old(nodes) && nodes[p] == old(nodes[p])
      ensures word.None? || word.value !in old(nodes) ==> unchanged(Repr)
    {
      if word.None? || root == null {
        return;
      }
      var w := word.value;
      var found, t, d, ind, dk := Locate(w);
      if !found {
        return;
      }
      DeleteKeepsShape(nodes.Keys, words, w);
      if ind == -1 {
        PrunedWithout(nodes.Keys, words, w);
        SetFlag(root, w, false);
        return;
      }
      var k := 0;
      while k < Size && t.children[k] == null
        invariant 0 <= k <= Size
        invariant forall c :: 0 <= c < k ==> t.children[c] == null
      {
        k := k + 1;
      }
      if k < Size {
        PrunedWithout(nodes.Keys, words, w);
        SetFlag(t, w, false);
        return;
      }
      assert IsLeaf(nodes.Keys, w) by {
        forall c | 0 <= c < Size ensures Child(w, c) !in nodes {
          assert t.children[c] == null;
        }
      }
      DetachedWords(nodes.Keys, words, w);
      ChildOfPrefix(w, dk);
      Detach(d, w[..dk], ind);
    }

    /** Discards the whole tree: the trie is empty again. */
    method Clear()
      requires Valid()
      modifies this
      ensures Valid() && fresh(Repr - old(Repr))
      ensures root == null && nodes == map[] && words == {}
    {
      root := null;
      nodes := map[];
      words := {};
      Repr := {this};
      owner := map[];
    }
  }
}
