/** What a caller of `Trie.java` can rely on across several calls: each
    law runs the operations on a trie in any valid state and states the
    outcome for every lowercase word. */
module TrieLaws {
  import opened Alphabet
  import opened TrieShape
  import opened PrefixTree

  /** After `insert(w)`, `search(w)` reports true. */
  method InsertThenSearch(trie: Trie, w: seq<char>) returns (found: bool)
    requires trie.Valid() && IsLowerWord(w)
    modifies trie.Repr
    ensures trie.Valid() && fresh(trie.Repr - old(trie.Repr))
    ensures trie.words == old(trie.words) + {w}
    ensures found
  {
    trie.Insert(Some(w));
    found := trie.Search(Some(w));
  }

  /** `insert(w)` creates exactly the missing nodes on the path of `w`:
      afterwards a node exists at the old paths and at every prefix of `w`,
      and the nodes that existed are the same objects. */
  method InsertAddsPath(trie: Trie, w: seq<char>)
    requires trie.Valid() && IsLowerWord(w)
    modifies trie.Repr
    ensures trie.Valid() && fresh(trie.Repr - old(trie.Repr))
    ensures trie.words == old(trie.words) + {w}
    ensures trie.nodes.Keys == old(trie.nodes.Keys) + Prefixes(w, 0, |w|)
    ensures forall p :: p in old(trie.nodes) ==> p in trie.nodes && trie.nodes[p] == old(trie.nodes[p])
  {
    ghost var keys, words := trie.nodes.Keys, trie.words;
    assert WellShaped(keys, words);
    trie.Insert(Some(w));
    InsertedKeys(keys, words, trie.nodes.Keys, w);
  }

  /** Inserting a word a second time, as `main` does with "an", changes
      neither the stored words nor the nodes. */
  method InsertTwice(trie: Trie, w: seq<char>)
    requires trie.Valid() && IsLowerWord(w)
    modifies trie.Repr
    ensures trie.Valid() && trie.words == old(trie.words) + {w}
    ensures trie.nodes.Keys == old(trie.nodes.Keys) + Prefixes(w, 0, |w|)
    ensures forall p :: p in old(trie.nodes) ==> p in trie.nodes && trie.nodes[p] == old(trie.nodes[p])
  {
    InsertAddsPath(trie, w);
    ghost var once := trie.nodes;
    InsertAddsPath(trie, w);
    assert trie.nodes == once;
  }

  /** After `delete(w)`, `search(w)` reports false and every other word
      reports what it reported before. */
  method DeleteThenSearch(trie: Trie, w: seq<char>, v: seq<char>) returns (foundW: bool, foundV: bool)
    requires trie.Valid() && IsLowerWord(w) && IsLowerWord(v)
    modifies trie.Repr
    ensures trie.Valid() && trie.words == old(trie.words) - {w}
    ensures !foundW
    ensures foundV <==> v != w && v in old(trie.words)
  {
    trie.Delete(Some(w));
    foundW := trie.Search(Some(w));
    foundV := trie.Search(Some(v));
  }

  /** Deleting a word that is not stored, whether its path is missing or
      it is only a prefix of stored words, changes no node and no word. */
  method DeleteAbsent(trie: Trie, w: seq<char>)
    requires trie.Valid() && IsLowerWord(w) && w !in trie.words
    modifies trie.Repr
    ensures trie.Valid() && trie.nodes == old(trie.nodes) && trie.words == old(trie.words)
  {
    ghost var keys, words := trie.nodes.Keys, trie.words;
    assert WellShaped(keys, words);
    DeleteAbsentIsNoop(keys, words, w);
    trie.Delete(Some(w));
  }

  /** Inserting a new word and deleting it again restores the stored
      words, and, once the root exists, the very same nodes. */
  method InsertThenDelete(trie: Trie, w: seq<char>)
    requires trie.Valid() && IsLowerWord(w) && w !in trie.words
    modifies trie.Repr
    ensures trie.Valid() && trie.words == old(trie.words)
    ensures old(trie.root) != null ==> trie.nodes.Keys == old(trie.nodes.Keys)
  {
    ghost var keys, words := trie.nodes.Keys, trie.words;
    assert WellShaped(keys, words);
    trie.Insert(Some(w));
    trie.Delete(Some(w));
    if old(trie.root) != null {
      assert WellShaped(trie.nodes.Keys, trie.words);
      SameWordsSameShape(keys, trie.nodes.Keys, words);
    }
  }

  /** Deleting a stored word and inserting it back restores the stored
      words and the very same node paths. */
  method DeleteThenInsert(trie: Trie, w: seq<char>) returns (found: bool)
    requires trie.Valid() && IsLowerWord(w) && w in trie.words
    modifies trie.Repr
    ensures trie.Valid() && trie.words == old(trie.words)
    ensures trie.nodes.Keys == old(trie.nodes.Keys)
    ensures found
  {
    ghost var keys, words := trie.nodes.Keys, trie.words;
    assert WellShaped(keys, words);
    trie.Delete(Some(w));
    trie.Insert(Some(w));
    assert WellShaped(trie.nodes.Keys, trie.words);
    SameWordsSameShape(keys, trie.nodes.Keys, words);
    found := trie.Search(Some(w));
  }

  /** After `clear()` no word is found. */
  method ClearThenSearch(trie: Trie, w: seq<char>) returns (found: bool)
    requires trie.Valid() && IsLowerWord(w)
    modifies trie
    ensures trie.Valid() && trie.words == {}
    ensures !found
  {
    trie.Clear();
    found := trie.Search(Some(w));
  }
}
