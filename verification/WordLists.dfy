/** Lists of words as make writes them into a value: separated by single spaces. */
module WordLists {

  /** The room the words take: each with a separator. */
  function Room(words: seq<string>): nat {
    if words == [] then 0 else Room(words[..|words| - 1]) + |words[|words| - 1]| + 1
  }

  lemma RoomMore(words: seq<string>, w: string)
    ensures Room(words + [w]) == Room(words) + |w| + 1
  {
    assert (words + [w])[..|words|] == words;
  }

  /** Each word followed by a space. */
  function Spaced(words: seq<string>): (s: string)
    ensures |s| == Room(words)
  {
    if words == [] then "" else Spaced(words[..|words| - 1]) + (words[|words| - 1] + " ")
  }

  lemma SpacedMore(words: seq<string>, w: string)
    ensures Spaced(words + [w]) == Spaced(words) + (w + " ")
  {
    assert (words + [w])[..|words|] == words;
  }

  /** The words, separated by spaces. */
  function Text(words: seq<string>): string {
    if words == [] then "" else Spaced(words)[..|Spaced(words)| - 1]
  }
}
