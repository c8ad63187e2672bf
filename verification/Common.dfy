/** Types and integer widths shared by the models. */
module Common {

  datatype Option<+T> = None | Some(value: T)

  datatype SwapMode = ExactIn | ExactOut

  /** An edge of the graph as seen from a search, which may walk it backwards. */
  datatype EdgeWithNodes = EdgeWithNodes(source: nat, target: nat, edge: nat)

  /** The first `n` elements, or all of a shorter sequence. */
  function Take<T>(s: seq<T>, n: int): seq<T>
  {
    if n <= 0 then [] else if n < |s| then s[..n] else s
  }

  ghost predicate Distinct<T(!new)>(s: seq<T>)
  {
    forall i, j :: 0 <= i < j < |s| ==> s[i] != s[j]
  }

  ghost function Elements<T(!new)>(s: seq<T>): set<T> { set x | x in s }

  type Byte = b: nat | b < 256

  /** One more than the largest value of each width. */
  const U16: nat := 0x1_0000
  const U64: nat := 0x1_0000_0000_0000_0000
  const U128: nat := 0x1_0000_0000_0000_0000_0000_0000_0000_0000
}
