/** std::find_if on a vector. */
module FindIf {

  /** The first position whose element satisfies p, or the length of the sequence. */
  function FirstIndex<T>(s: seq<T>, p: T -> bool): (i: nat)
    ensures i <= |s|
    ensures i < |s| ==> p(s[i])
    ensures forall j :: 0 <= j < i ==> !p(s[j])
  {
    if s == [] || p(s[0]) then 0 else FirstIndex(s[1..], p) + 1
  }
}
