/** Keys and values in order, and the map they denote. */
module Pairs {
  datatype Pair = Pair(key: string, value: string)

  /** The last of several equal keys wins. */
  function Denoted(m: map<string, string>, pairs: seq<Pair>): map<string, string>
    decreases pairs
  {
    if pairs == [] then m else Denoted(m[pairs[0].key := pairs[0].value], pairs[1..])
  }
}
