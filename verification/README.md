# A verified model of `Trie.java`

`Trie.java` is a prefix tree over the lowercase letters `a`-`z`:

- Each node has a 26-slot `children` array and an `isWord` flag.
- The root is created lazily by the first `insert`.
- There are four operations: `insert`, `search`, `delete` and `clear`.
  Each walks the word one letter at a time.
- `delete` walks the path once and records a *detachment point*: the node `d` and the slot `ind`.
  If the word ends at a childless node, the single assignment `d.children[ind] = null` prunes every node that served only that word.
  Otherwise `delete` only clears the flag.

The model keeps that heap structure:

- `TrieNode` and `Trie` are classes.
- Child slots are an `array<TrieNode?>` that the operations write in place.
- The loops stay loops, with their invariants.

Two ghost fields abstract the tree:

- `nodes` maps each path from the root to the node it reaches.
- `words` is the set of paths whose node has `isWord` set.

The object invariant `Valid` has two parts:

- `Linked`: the arrays and flags agree with `nodes` and `words`, and no node or array is shared.
- `Pruned`: below the root, every childless node ends a word.

The facts about the tree shape live in the module `TrieShape`. They are stated on plain sets: `keys` (the paths of `nodes`) and `words`. Proved there once:

- which paths `delete` detaches;
- that no stored word besides the deleted one is lost;
- that the trie stays pruned;
- that the word set alone determines the tree's shape.

Files:

- `alphabet.dfy`: the letter ↔ slot mapping.
- `shape.dfy`: the pure shape layer.
- `trie.dfy`: the heap model of the four operations.
- `laws.dfy`: properties that involve several calls.
- `demo.dfy`: the calls of `main` as scenarios with their printed results.

Deleting a word that is not stored:

- `delete` writes nothing only when the word's path is missing (line 103).
- For the empty word (line 125), and for a path whose node has children (line 132), it writes `false` into a flag that is already false.
- So `Delete` promises an untouched heap (`unchanged(Repr)`) only for a missing path.
- In the other cases, `TrieLaws.DeleteAbsent` proves that the nodes and the words are unchanged.

## Model

| member | source | states |
|---|---|---|
| Alphabet.Index | Trie.java:45 | `word.charAt(0) - 'a'` is a slot in 0..25, and `Letter` maps it back to the same character |
| Alphabet.Letter | Trie.java:20 | each of the 26 slots is labelled by a lowercase letter |
| Alphabet.IndexOfLetter | Trie.java:45 | the slot of a slot's letter is that slot: the mapping between letters and slots is a bijection |
| PrefixTree.TrieNode.constructor | Trie.java:19-22 | a new node has 26 empty slots and is not a word |
| PrefixTree.Trie.constructor | Trie.java:28 | a new trie has no root and stores no word |
| PrefixTree.Trie.MakeRoot | Trie.java:40 | the lazily created root becomes the node of the empty path; the words are unchanged |
| PrefixTree.Trie.AddChild | Trie.java:46-47 | filling an empty slot with a fresh node adds exactly one path, one letter below its parent; the rest of the tree, the words and the linking invariant are kept |
| PrefixTree.Trie.Descend | Trie.java:45-50 | the child in the word's slot is reused when present and created only when the slot is empty; it is the node one letter further down the path, and only that path may be added |
| PrefixTree.Trie.InsertPath | Trie.java:42-52 | the walk ends at the node of the whole word; every old node keeps its path; only that end node may be a childless non-word |
| PrefixTree.Trie.SetFlag | Trie.java:54 | setting or clearing `isWord` adds the path to the word set or removes it; nothing else changes (also lines 125 and 132) |
| PrefixTree.Trie.Insert | Trie.java:34-55 | `null` changes nothing; otherwise the words become the old words plus `word`; existing nodes are reused; the trie stays valid and pruned |
| PrefixTree.Trie.Search | Trie.java:62-78 | true exactly when the input is not `null` and is a stored word: false for `null`, for a missing root, at an empty slot, and for a path whose flag is off; the trie is not modified |
| PrefixTree.Trie.Locate | Trie.java:93-122 | the path is found exactly when a node exists for the word; for a nonempty word, `d` is the node at depth `Cut` (the deepest Branching node above the end) and `ind` is the slot of the next letter; for the empty word `ind` stays -1 |
| PrefixTree.Trie.Detach | Trie.java:137 | emptying slot `ind` of `d` removes exactly the subtree below it from the nodes and the words; every kept node keeps its identity |
| PrefixTree.Trie.Delete | Trie.java:84-138 | `null` changes nothing; otherwise the words become the old words minus `word`, and the nodes lose exactly `Detached`; with a missing path nothing is written; the trie stays valid and pruned |
| PrefixTree.Trie.Clear | Trie.java:140-142 | the root is dropped: no node and no word remains |
| TrieShape.Cut | Trie.java:105-117 | the detachment depth is the deepest depth above the end of the walk where the node ends a word or has another child; no node strictly between it and the end is such a node |
| TrieShape.FollowsWord | Trie.java:137 | every node below the cut slot lies on the deleted word's own path |
| TrieShape.DetachedIsChain | Trie.java:137 | the detached paths are exactly the prefixes of `w` longer than the detachment depth: the cut takes no other word's nodes |
| TrieShape.ChainNotWord | Trie.java:114-117 | no node strictly between the detachment point and the end of `w` is a word |
| TrieShape.DetachedWords | Trie.java:137 | of the detached paths only `w` itself was a stored word |
| TrieShape.KeptChild | Trie.java:137 | a child of a kept node, other than the detachment point, is not detached |
| TrieShape.SiblingKept | Trie.java:106-111 | a sibling branch of the detachment point is not detached |
| TrieShape.PrunedWithout | Trie.java:124-133 | clearing the flag of the root, or of a node that has children, keeps the trie pruned |
| TrieShape.PrunedAfterDetach | Trie.java:137 | after the cut, no node below the root is a childless non-word |
| TrieShape.DeleteKeepsShape | Trie.java:84-138 | `delete` keeps the paths lowercase, closed under prefixes, covering the words and pruned, and never removes the root |
| TrieShape.KeyExtendsToWord | Trie.java:84-138 | in a pruned trie every node below the root lies on the path of a stored word |
| TrieShape.KeysFromWords | Trie.java:34-55 | the nodes of a well-shaped trie are exactly the root and the prefixes of its words |
| TrieShape.SameWordsSameShape | Trie.java:189-190 | two tries with the same words have nodes at the same paths |
| TrieShape.InsertedKeys | Trie.java:42-52 | `insert(w)` adds exactly the prefixes of `w` to the old node paths |
| TrieShape.DeleteAbsentIsNoop | Trie.java:129-135 | deleting a word that is not stored detaches nothing |
| TrieShape.ChildInjective | Trie.java:45-47 | equal child paths come from the same parent path and the same slot, so filling one slot moves no other path; that no node or array is shared is kept by the `owner` map in `Linked` |
| TrieShape.AddKeyShape | Trie.java:46-47 | a new child keeps the paths lowercase and closed under prefixes, and starts childless |
| TrieShape.ExceptStep | Trie.java:46-50 | after one step of `insert`, only the node just reached may be a childless non-word |
| TrieShape.ExceptMarked | Trie.java:54 | marking the end node as a word makes the trie pruned again |
| TrieShape.ChildOfPrefix | Trie.java:45-50 | the slot of letter `w[i]` below the node at `w[..i]` holds the node at `w[..i+1]` |
| TrieShape.CutShape | Trie.java:137 | removing a subtree keeps the paths lowercase and closed under prefixes |
| TrieShape.CutChild | Trie.java:137 | outside the cut subtree, the only child slot that leads into it is the cut slot |
| TrieLaws.InsertThenSearch | Trie.java:34-78 | after `insert(w)`, `search(w)` is true and the words are the old words plus `w` |
| TrieLaws.InsertAddsPath | Trie.java:46-48 | `insert(w)` adds exactly the missing prefixes of `w` as nodes, and existing nodes are the same objects |
| TrieLaws.InsertTwice | Trie.java:189-190 | inserting the same word twice gives the same words and the same node paths as inserting it once, and every node that existed before is still the same object at its path |
| TrieLaws.DeleteThenSearch | Trie.java:84-138 | after `delete(w)`, `search(w)` is false, and any other word is found exactly when it was stored before |
| TrieLaws.DeleteAbsent | Trie.java:103 | deleting a word that is not stored leaves the nodes and the words unchanged |
| TrieLaws.InsertThenDelete | Trie.java:34-138 | inserting a new word and deleting it restores the words and, once a root exists, the node paths |
| TrieLaws.DeleteThenInsert | Trie.java:34-138 | deleting a stored word and inserting it back restores the words and the node paths, and the word is found |
| TrieLaws.ClearThenSearch | Trie.java:140-142 | after `clear()` no word is stored and `search` is false for every word |
| TrieDemo.EdgeCases | Trie.java:152-161 | `null` is ignored and the empty word is stored and removed at the root: the searches print false, false, true, false |
| TrieDemo.StartPath | Trie.java:167-175 | inserting and deleting "a", then inserting "ant", leaves exactly {"ant"} |
| TrieDemo.ExtendPath | Trie.java:177-179 | extending "ant" by "anti" and "antio" stores all three |
| TrieDemo.BuildPath | Trie.java:150-179 | a new trie after those calls holds exactly "ant", "anti", "antio" |
| TrieDemo.AddInIs | Trie.java:181-183 | two words that share their first letter are added |
| TrieDemo.AddAndAndy | Trie.java:185-187 | a second branch below "an" is added |
| TrieDemo.AddAn | Trie.java:189-190 | "an" inserted twice gives the eight built words |
| TrieDemo.BuildRest | Trie.java:181-187 | the next four inserts give exactly the seven words |
| TrieDemo.SearchAnt | Trie.java:193-195 | each of the three searches reports whether its word is stored |
| TrieDemo.Build | Trie.java:150-195 | the built trie holds the eight words, and the searches print true, true, true |
| TrieDemo.DeleteAnt | Trie.java:199-202 | deleting "ant", a prefix of stored words, removes only it: false, true, true |
| TrieDemo.SwapAnti | Trie.java:206-210 | "ant" is back and "anti", between two words, is gone: true, false, true |
| TrieDemo.SwapAntio | Trie.java:215-219 | "anti" is back and the leaf "antio" is gone: true, true, false |
| TrieDemo.SwapIn | Trie.java:223-224 | "antio" is back and "in" is gone |
| TrieDemo.SearchIn | Trie.java:225-226 | "in" is gone and its sibling "is" remains: false, true |
| TrieDemo.SwapAn | Trie.java:230-231 | "in" is back and "an" is gone |
| TrieDemo.SearchAnd | Trie.java:232-235 | "a" and "an" are not found; "and" and "andy" are: false, false, true, true |
| TrieDemo.Opening | Trie.java:150-202 | the first six searches print true, true, true, false, true, true |
| TrieDemo.Middle | Trie.java:206-219 | the next six print true, false, true, true, true, false |
| TrieDemo.Ending | Trie.java:230-238 | the last seven print false, false, true, true, true, true, true |
| TrieDemo.Closing | Trie.java:223-238 | the last nine print false, true, false, false, true, true, true, true, true |
| TrieDemo.Scenario | Trie.java:150-238 | the 21 printed search results of `main`, in order |

## Left out

- Java `null` strings are `Option` values: `None` is `null`.
- Characters outside `a`-`z` are excluded by a precondition. In the source such a letter gives an out-of-range slot index (lines 45, 69 and 100). The array access then throws (lines 46, 70 and 103), but only once the walk reaches that letter:
  - `search` and `delete` return earlier, without throwing, at an empty slot for a preceding letter. For example, `search("zA")` with no `z` child returns false at line 71.
  - `insert` has already created the nodes for the preceding letters when it throws, which leaves a childless non-word behind.
  - The model does not capture either behaviour.
- `word.equals("")` and `word.substring(1)` become an index `i` into the unchanged word. The node reached after `i` letters is the node at `w[..i]`.
- The `children` field is a `const`. The source assigns it only in the node constructor; its slots are written in place.
- `Repr` is a footprint that may be larger than the live tree: detached nodes stay in it (`Clear` resets it to the trie alone). Garbage collection of unreachable nodes is not modelled.
- Running time, including the 26-slot scan at every depth, is not modelled.
- The final loop of `delete` (lines 130-135) returns from inside a `for`. It is modelled as a `while` that finds the first filled slot, followed by the flag write or the cut.
- The walk of `delete` (lines 93-122) is the separate method `Locate`. It returns `found == false` where the source returns from `delete` at an empty slot; `Delete` then returns.
- `insert` and `delete` are split into helper methods (`MakeRoot`, `Descend`, `AddChild`, `InsertPath`, `SetFlag`, `Locate`, `Detach`), one per heap-changing step of the source.
- PrefixTree.Trie.Insert: its contract keeps the old nodes but does not say that only the prefixes of the word are added. `TrieLaws.InsertAddsPath` proves that, using `TrieShape.InsertedKeys`. This keeps the contract cheap for callers that chain many inserts.
- `main` prints to standard output. The demo methods return the printed search results as booleans instead; the text lines are left out.
