/** Optional values, and the first-position search that Rust's `Iterator::position`
    and `Iterator::find` perform over a vector. */
module Wrappers {

  datatype Option<+T> = None | Some(value: T)

  /** The index of the first occurrence of `x` in `s`, or None when `x` does not occur. */
  function Position<T(==)>(s: seq<T>, x: T): (r: Option<nat>)
    ensures r.Some? ==> r.value < |s| && s[r.value] == x && x !in s[..r.value]
    ensures r.None? <==> x !in s
  {
    if s == [] then None
    else if s[0] == x then Some(0)
    else
      match Position(s[1..], x)
      case None => None
      case Some(i) =>
        assert s[1..][..i] == s[1..i + 1];
        Some(i + 1)
  }
}
