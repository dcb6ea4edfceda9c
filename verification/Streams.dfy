/** Data that arrives in pieces. */
module Streams {

  /** The pieces joined. */
  function Concat<T>(chunks: seq<seq<T>>): seq<T> {
    if chunks == [] then [] else Concat(chunks[..|chunks| - 1]) + chunks[|chunks| - 1]
  }

  /** At most `n` elements of `s` from position `a`. */
  function Piece<T>(s: seq<T>, a: nat, n: nat): (p: seq<T>)
    ensures |p| <= n
  {
    if a >= |s| then [] else if a + n > |s| then s[a..] else s[a..a + n]
  }
}
