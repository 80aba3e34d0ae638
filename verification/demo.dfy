/** The driver `main` of `Trie.java` as scenarios: the same calls on a
    fresh trie, returning in order the results of the searches `main`
    prints.  The active part of `main` is split into its paragraphs, each
    a method that states the stored words before and after it. */
module TrieDemo {
  import opened PrefixTree

  /** The commented-out opening of `main`, lines 152-161: `null` is
      ignored by every operation, and the empty word is stored and removed
      at the root. */
  method EdgeCases() returns (searches: seq<bool>)
    ensures searches == [false, false, true, false]
  {
    var trie := new Trie();
    trie.Insert(None);
    var s0 := trie.Search(None);
    trie.Delete(None);
    trie.Delete(Some(""));
    var s1 := trie.Search(Some(""));
    trie.Insert(Some(""));
    var s2 := trie.Search(Some(""));
    trie.Delete(Some(""));
    var s3 := trie.Search(Some(""));
    searches := [s0, s1, s2, s3];
  }

  /** The eight words `main` stores. */
  function Built(): set<seq<char>> {
    {"ant", "anti", "antio", "in", "is", "and", "andy", "an"}
  }

  /** Lines 167-175: "a" is stored and removed again, then "ant" stored. */
  method StartPath(trie: Trie)
    requires trie.Valid() && trie.words == {}
    modifies trie.Repr
    ensures trie.Valid() && fresh(trie.Repr - old(trie.Repr)) && trie.words == {"ant"}
  {
    trie.Insert(Some("a"));
    trie.Delete(Some("a"));
    trie.Insert(Some("ant"));
  }

  /** Lines 177-179: the two extensions of "ant". */
  method ExtendPath(trie: Trie)
    requires trie.Valid() && trie.words == {"ant"}
    modifies trie.Repr
    ensures trie.Valid() && fresh(trie.Repr - old(trie.Repr))
    ensures trie.words == {"ant", "anti", "antio"}
  {
    trie.Insert(Some("anti"));
    trie.Insert(Some("antio"));
  }

  /** Lines 150-179 on a new trie. */
  method BuildPath() returns (trie: Trie)
    ensures trie.Valid() && fresh(trie.Repr) && trie.words == {"ant", "anti", "antio"}
  {
    trie := new Trie();
    StartPath(trie);
    ExtendPath(trie);
  }

  /** Lines 181-183: two words that share the first letter. */
  method AddInIs(trie: Trie)
    requires trie.Valid() && trie.words == {"ant", "anti", "antio"}
    modifies trie.Repr
    ensures trie.Valid() && fresh(trie.Repr - old(trie.Repr))
    ensures trie.words == {"ant", "anti", "antio", "in", "is"}
  {
    trie.Insert(Some("in"));
    trie.Insert(Some("is"));
  }

  /** Lines 185-187: a second branch below "an". */
  method AddAndAndy(trie: Trie)
    requires trie.Valid() && trie.words == {"ant", "anti", "antio", "in", "is"}
    modifies trie.Repr
    ensures trie.Valid() && fresh(trie.Repr - old(trie.Repr))
    ensures trie.words == {"ant", "anti", "antio", "in", "is", "and", "andy"}
  {
    trie.Insert(Some("and"));
    trie.Insert(Some("andy"));
  }

  /** Lines 189-190: "an" is stored twice; the second time changes nothing. */
  method AddAn(trie: Trie)
    requires trie.Valid() && trie.words == {"ant", "anti", "antio", "in", "is", "and", "andy"}
    modifies trie.Repr
    ensures trie.Valid() && fresh(trie.Repr - old(trie.Repr)) && trie.words == Built()
  {
    trie.Insert(Some("an"));
    trie.Insert(Some("an"));
  }

  /** Lines 181-187: four of the other five words. */
  method BuildRest(trie: Trie)
    requires trie.Valid() && trie.words == {"ant", "anti", "antio"}
    modifies trie.Repr
    ensures trie.Valid() && fresh(trie.Repr - old(trie.Repr))
    ensures trie.words == {"ant", "anti", "antio", "in", "is", "and", "andy"}
  {
    AddInIs(trie);
    AddAndAndy(trie);
  }

  /** The three searches `main` repeats after each change along "antio". */
  method SearchAnt(trie: Trie) returns (found: seq<bool>)
    requires trie.Valid()
    ensures found == ["ant" in trie.words, "anti" in trie.words, "antio" in trie.words]
  {
    var f1 := trie.Search(Some("ant"));
    var f2 := trie.Search(Some("anti"));
    var f3 := trie.Search(Some("antio"));
    found := [f1, f2, f3];
  }

  /** Lines 150-195: the trie is built and the "ant" path searched. */
  method Build() returns (trie: Trie, found: seq<bool>)
    ensures trie.Valid() && fresh(trie.Repr) && trie.words == Built()
    ensures found == [true, true, true]
  {
    trie := BuildPath();
    BuildRest(trie);
    AddAn(trie);
    found := SearchAnt(trie);
  }

  /** Lines 199-202: deleting "ant", a prefix of other words, clears only
      its flag. */
  method DeleteAnt(trie: Trie) returns (found: seq<bool>)
    requires trie.Valid() && trie.words == Built()
    modifies trie.Repr
    ensures trie.Valid() && fresh(trie.Repr - old(trie.Repr)) && trie.words == Built() - {"ant"}
    ensures found == [false, true, true]
  {
    trie.Delete(Some("ant"));
    found := SearchAnt(trie);
  }

  /** Lines 206-210: "ant" back, then "anti", between two words, removed. */
  method SwapAnti(trie: Trie) returns (found: seq<bool>)
    requires trie.Valid() && trie.words == Built() - {"ant"}
    modifies trie.Repr
    ensures trie.Valid() && fresh(trie.Repr - old(trie.Repr)) && trie.words == Built() - {"anti"}
    ensures found == [true, false, true]
  {
    trie.Insert(Some("ant"));
    trie.Delete(Some("anti"));
    found := SearchAnt(trie);
  }

  /** Lines 215-219: "anti" back, then "antio", a leaf, removed. */
  method SwapAntio(trie: Trie) returns (found: seq<bool>)
    requires trie.Valid() && trie.words == Built() - {"anti"}
    modifies trie.Repr
    ensures trie.Valid() && fresh(trie.Repr - old(trie.Repr)) && trie.words == Built() - {"antio"}
    ensures found == [true, true, false]
  {
    trie.Insert(Some("anti"));
    trie.Delete(Some("antio"));
    found := SearchAnt(trie);
  }

  /** Lines 223-224: "antio" back, then "in", a sibling of "is", removed. */
  method SwapIn(trie: Trie)
    requires trie.Valid() && trie.words == Built() - {"antio"}
    modifies trie.Repr
    ensures trie.Valid() && fresh(trie.Repr - old(trie.Repr)) && trie.words == Built() - {"in"}
  {
    trie.Insert(Some("antio"));
    trie.Delete(Some("in"));
  }

  /** Lines 225-226. */
  method SearchIn(trie: Trie) returns (found: seq<bool>)
    requires trie.Valid() && trie.words == Built() - {"in"}
    ensures found == [false, true]
  {
    var f1 := trie.Search(Some("in"));
    var f2 := trie.Search(Some("is"));
    found := [f1, f2];
  }

  /** Lines 230-231: "in" back, then "an", the prefix of every other "an"
      word, removed; its extensions stay. */
  method SwapAn(trie: Trie)
    requires trie.Valid() && trie.words == Built() - {"in"}
    modifies trie.Repr
    ensures trie.Valid() && fresh(trie.Repr - old(trie.Repr)) && trie.words == Built() - {"an"}
  {
    trie.Insert(Some("in"));
    trie.Delete(Some("an"));
  }

  /** Lines 232-235: a prefix that never was a word, the removed word and
      the two words below it. */
  method SearchAnd(trie: Trie) returns (found: seq<bool>)
    requires trie.Valid() && trie.words == Built() - {"an"}
    ensures found == [false, false, true, true]
  {
    var f1 := trie.Search(Some("a"));
    var f2 := trie.Search(Some("an"));
    var f3 := trie.Search(Some("and"));
    var f4 := trie.Search(Some("andy"));
    found := [f1, f2, f3, f4];
  }

  /** Lines 150-202. */
  method Opening() returns (trie: Trie, found: seq<bool>)
    ensures trie.Valid() && fresh(trie.Repr) && trie.words == Built() - {"ant"}
    ensures found == [true, true, true, false, true, true]
  {
    var a;
    trie, a := Build();
    var b := DeleteAnt(trie);
    found := a + b;
  }

  /** Lines 206-219. */
  method Middle(trie: Trie) returns (found: seq<bool>)
    requires trie.Valid() && trie.words == Built() - {"ant"}
    modifies trie.Repr
    ensures trie.Valid() && fresh(trie.Repr - old(trie.Repr)) && trie.words == Built() - {"antio"}
    ensures found == [true, false, true, true, true, false]
  {
    var c := SwapAnti(trie);
    var d := SwapAntio(trie);
    found := c + d;
  }

  /** Lines 230-238. */
  method Ending(trie: Trie) returns (found: seq<bool>)
    requires trie.Valid() && trie.words == Built() - {"in"}
    modifies trie.Repr
    ensures found == [false, false, true, true, true, true, true]
  {
    SwapAn(trie);
    var f := SearchAnd(trie);
    var g := SearchAnt(trie);
    found := f + g;
  }

  /** Lines 223-238. */
  method Closing(trie: Trie) returns (found: seq<bool>)
    requires trie.Valid() && trie.words == Built() - {"antio"}
    modifies trie.Repr
    ensures found == [false, true, false, false, true, true, true, true, true]
  {
    SwapIn(trie);
    var e := SearchIn(trie);
    var f := Ending(trie);
    found := e + f;
  }

  /** The active part of `main`, lines 150-238, in order. */
  method Scenario() returns (searches: seq<bool>)
    ensures searches == [true, true, true, false, true, true, true, false, true,
                         true, true, false, false, true, false, false, true, true, true, true, true]
  {
    var trie, a := Opening();
    var b := Middle(trie);
    var c := Closing(trie);
    searches := a + b + c;
  }
}
