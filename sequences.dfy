/** Searching a sequence the way the library's selection loops do: every match
    overwrites the previous one, so the one that survives is the last. */
module Sequences {

  datatype Option<T> = None | Some(value: T)

  /** The position of the last occurrence of `x` in `s`, or None when `x` does
      not occur. */
  function LastIndexOf<T(==)>(s: seq<T>, x: T): (r: Option<nat>)
    ensures r.Some? ==> r.value < |s| && s[r.value] == x
    ensures r.Some? ==> forall j :: r.value < j < |s| ==> s[j] != x
    ensures r.None? <==> x !in s
  {
    if |s| == 0 then None
    else if s[|s| - 1] == x then Some(|s| - 1)
    else LastIndexOf(s[..|s| - 1], x)
  }

  /** Extending a scanned prefix by one element: a match there becomes the
      last one, otherwise the earlier answer stands. */
  lemma LastIndexOfExtend<T>(s: seq<T>, i: nat, x: T)
    requires i < |s|
    ensures LastIndexOf(s[..i + 1], x) == if s[i] == x then Some(i) else LastIndexOf(s[..i], x)
  {
  }
}
