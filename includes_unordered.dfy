/**
  The two overloads of `includes_unordered`: does every element of an
  unsorted "needle" range match some element of an unsorted "haystack" range?

  Both ranges are read-only, so each is modelled as a `seq`; the iterator
  cursors `first2` (needle) and `it1` (haystack) become the indices `i` and `j`.
  The caller's predicate is a total function applied as `equiv(needle element,
  haystack element)`, in that argument order.
*/
module UnorderedIncludes {

  /** The needle element `n` matches at least one element of `hay`. */
  ghost predicate Found<T1, T2>(n: T2, hay: seq<T1>, equiv: (T2, T1) -> bool)
  {
    exists j :: 0 <= j < |hay| && equiv(n, hay[j])
  }

  /** Every element of `needle` matches at least one element of `hay`. */
  ghost predicate AllFound<T1, T2>(hay: seq<T1>, needle: seq<T2>, equiv: (T2, T1) -> bool)
  {
    forall k :: 0 <= k < |needle| ==> Found(needle[k], hay, equiv)
  }

  /**
    Overload 2: matching with a caller-supplied predicate.

    The outer loop walks the needle; for each needle element the inner loop
    rescans the haystack from its start and stops at the first match. The
    method returns `false` at the first needle element nothing matches.
    `examined` counts the needle elements the outer loop has started on, so
    the last two postconditions say that the scan stops exactly at the first
    unmatched needle element and looks at no later one.
  */
  method IncludesUnorderedBy<T1, T2>(hay: seq<T1>, needle: seq<T2>, equiv: (T2, T1) -> bool)
    returns (r: bool, ghost examined: nat)
    ensures r <==> AllFound(hay, needle, equiv)
    ensures needle == [] ==> r
    ensures hay == [] && needle != [] ==> !r
    ensures r ==> examined == |needle|
    ensures !r ==> 0 < examined <= |needle| && !Found(needle[examined - 1], hay, equiv)
    ensures !r ==> forall k :: 0 <= k < examined - 1 ==> Found(needle[k], hay, equiv)
  {
    examined := 0;
    var i := 0;
    while i < |needle|
      invariant 0 <= i <= |needle|
      invariant examined == i
      invariant forall k :: 0 <= k < i ==> Found(needle[k], hay, equiv)
    {
      examined := examined + 1;
      var j := 0;
      while j < |hay|
        invariant 0 <= j <= |hay|
        invariant forall m :: 0 <= m < j ==> !equiv(needle[i], hay[m])
      {
        if equiv(needle[i], hay[j]) {
          break;
        }
        j := j + 1;
      }
      if j == |hay| {
        assert !Found(needle[i], hay, equiv);
        r := false;
        return;
      }
      i := i + 1;
    }
    assert needle != [] ==> Found(needle[0], hay, equiv);
    r := true;
  }

  /**
    Overload 1: matching with `==`. Its body is overload 2's with the call to
    the predicate replaced by an equality test, so it decides `AllFound` for
    the equality predicate, which is plain sequence membership.
  */
  method IncludesUnordered<T(==)>(hay: seq<T>, needle: seq<T>)
    returns (r: bool, ghost examined: nat)
    ensures r <==> forall k :: 0 <= k < |needle| ==> needle[k] in hay
    ensures r <==> AllFound(hay, needle, (n: T, h: T) => n == h)
    ensures needle == [] ==> r
    ensures hay == [] && needle != [] ==> !r
    ensures r ==> examined == |needle|
    ensures !r ==> 0 < examined <= |needle| && needle[examined - 1] !in hay
    ensures !r ==> forall k :: 0 <= k < examined - 1 ==> needle[k] in hay
  {
    examined := 0;
    var i := 0;
    while i < |needle|
      invariant 0 <= i <= |needle|
      invariant examined == i
      invariant forall k :: 0 <= k < i ==> needle[k] in hay
    {
      examined := examined + 1;
      var j := 0;
      while j < |hay|
        invariant 0 <= j <= |hay|
        invariant needle[i] !in hay[..j]
      {
        if needle[i] == hay[j] {
          break;
        }
        j := j + 1;
      }
      if j == |hay| {
        assert hay[..j] == hay;
        r := false;
        return;
      }
      i := i + 1;
    }
    assert needle != [] ==> needle[0] in hay;
    r := true;
  }
}
