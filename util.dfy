/** Small helpers on sequences and an optional value, shared by both builds. */
module Util {

  /** Go's `nil` pointer result: either nothing or a value. */
  datatype Option<T> = None | Some(value: T)

  /** The last element: `s[len(s)-1]`. */
  function Last<T>(s: seq<T>): T
    requires |s| > 0
  {
    s[|s| - 1]
  }

  /** Everything but the last element: `s[:len(s)-1]`. */
  function AllButLast<T>(s: seq<T>): seq<T>
    requires |s| > 0
  {
    s[..|s| - 1]
  }

  lemma AppendParts<T>(s: seq<T>, x: T)
    ensures Last(s + [x]) == x && AllButLast(s + [x]) == s
  {
  }
}
