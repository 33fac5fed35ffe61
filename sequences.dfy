/** Sequence helpers shared by the models. */
module Sequences {
  import opened Wrappers

  /** `iter().position(|&x| x == v)`: the first index holding `v`, if any. */
  function Position<T(==)>(s: seq<T>, v: T): (r: Option<nat>)
    ensures r.None? <==> v !in s
    ensures r.Some? ==> r.value < |s| && s[r.value] == v && v !in s[..r.value]
  {
    if s == [] then None
    else if s[0] == v then Some(0)
    else match Position(s[1..], v)
      case None => None
      case Some(i) =>
        assert s[..i + 1] == [s[0]] + s[1..][..i];
        Some(i + 1)
  }
}
