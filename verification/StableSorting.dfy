/** Stable sorting: insertion behind everything that may stand before. */
module StableSorting {

  /** `x` placed after everything that may stand before it. */
  function Insert<T>(s: seq<T>, x: T, le: (T, T) -> bool): (r: seq<T>)
    ensures |r| == |s| + 1
  {
    if s == [] then [x]
    else
      var last := s[|s| - 1];
      if le(last, x) then s + [x] else Insert(s[..|s| - 1], x, le) + [last]
  }

  /** `list.sort` with a key by which `le` compares. */
  function StableSort<T>(s: seq<T>, le: (T, T) -> bool): seq<T>
  {
    if s == [] then [] else Insert(StableSort(s[..|s| - 1], le), s[|s| - 1], le)
  }
}
