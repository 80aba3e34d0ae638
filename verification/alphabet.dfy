/** The 26 lowercase letters a node has a child slot for, and the mapping
    between a letter and its slot (`word.charAt(0) - 'a'` in the source). */
module Alphabet {

  /** Number of child slots in every node. */
  const Size: int := 26

  predicate IsLower(ch: char) {
    'a' <= ch <= 'z'
  }

  /** The words the trie accepts: lowercase letters only. */
  predicate IsLowerWord(s: seq<char>) {
    forall i :: 0 <= i < |s| ==> IsLower(s[i])
  }

  /** The slot a letter occupies; its inverse is `Letter`. */
  function Index(ch: char): (c: int)
    requires IsLower(ch)
    ensures 0 <= c < Size && Letter(c) == ch
  {
    ch as int - 'a' as int
  }

  /** The letter that labels slot `c`. */
  function Letter(c: int): (ch: char)
    requires 0 <= c < Size
    ensures IsLower(ch)
  {
    ('a' as int + c) as char
  }

  lemma IndexOfLetter(c: int)
    requires 0 <= c < Size
    ensures Index(Letter(c)) == c
  {
  }
}
