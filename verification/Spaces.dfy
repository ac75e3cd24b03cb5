/** White space as isspace has it in the default locale. */
module Spaces {
  predicate IsSpaceCode(c: int) { 9 <= c <= 13 || c == 32 }

  function DropWhile<T>(t: seq<T>, p: T -> bool): (r: seq<T>)
    ensures |r| <= |t|
  {
    if t != [] && p(t[0]) then DropWhile(t[1..], p) else t
  }
}
