/**
  What the documented contract of `includes_unordered` ("every element of the
  unsorted needle range is found within the unsorted haystack range") implies,
  proved about the predicate both overloads are verified against.
*/
module IncludesUnorderedProperties {
  import opened UnorderedIncludes

  /** An empty needle is always included; a non-empty needle never is in an empty haystack. */
  lemma EmptyRanges<T1, T2>(hay: seq<T1>, needle: seq<T2>, equiv: (T2, T1) -> bool)
    ensures AllFound(hay, [], equiv)
    ensures needle != [] ==> !AllFound([], needle, equiv)
  {
    if needle != [] {
      assert !Found(needle[0], [], equiv);
    }
  }

  /**
    The result depends only on which values occur in each range: if every
    haystack value occurs in `hay2` and every value of `needle2` occurs in
    `needle`, a `true` result for (hay, needle) gives one for (hay2, needle2).
  */
  lemma Monotone<T1, T2>(
    hay: seq<T1>, hay2: seq<T1>, needle: seq<T2>, needle2: seq<T2>, equiv: (T2, T1) -> bool)
    requires forall j :: 0 <= j < |hay| ==> hay[j] in hay2
    requires forall k :: 0 <= k < |needle2| ==> needle2[k] in needle
    requires AllFound(hay, needle, equiv)
    ensures AllFound(hay2, needle2, equiv)
  {
  }

  /** Permuting either range does not change the result. */
  lemma {:induction false} PermutationInvariant<T1, T2>(
    hay: seq<T1>, hay2: seq<T1>, needle: seq<T2>, needle2: seq<T2>, equiv: (T2, T1) -> bool)
    requires multiset(hay) == multiset(hay2)
    requires multiset(needle) == multiset(needle2)
    ensures AllFound(hay, needle, equiv) <==> AllFound(hay2, needle2, equiv)
  {
    forall j | 0 <= j < |hay| ensures hay[j] in hay2 {
      assert hay[j] in multiset(hay);
    }
    forall j | 0 <= j < |hay2| ensures hay2[j] in hay {
      assert hay2[j] in multiset(hay2);
    }
    forall k | 0 <= k < |needle| ensures needle[k] in needle2 {
      assert needle[k] in multiset(needle);
    }
    forall k | 0 <= k < |needle2| ensures needle2[k] in needle {
      assert needle2[k] in multiset(needle2);
    }
    if AllFound(hay, needle, equiv) {
      Monotone(hay, hay2, needle, needle2, equiv);
    }
    if AllFound(hay2, needle2, equiv) {
      Monotone(hay2, hay, needle2, needle, equiv);
    }
  }

  /** Inserting an element anywhere in the haystack never turns `true` into `false`. */
  lemma {:induction false} HaystackGrowth<T1, T2>(
    hay: seq<T1>, p: nat, x: T1, needle: seq<T2>, equiv: (T2, T1) -> bool)
    requires p <= |hay|
    requires AllFound(hay, needle, equiv)
    ensures AllFound(hay[..p] + [x] + hay[p..], needle, equiv)
  {
    var hay2 := hay[..p] + [x] + hay[p..];
    forall j | 0 <= j < |hay| ensures hay[j] in hay2 {
      if j < p {
        assert hay2[j] == hay[j];
      } else {
        assert hay2[j + 1] == hay[j];
      }
    }
    Monotone(hay, hay2, needle, needle, equiv);
  }

  /**
    Each needle element is matched against the whole haystack, so repeating a
    needle element does not change the result: matches are not consumed.
  */
  lemma {:induction false} DuplicateNeedle<T1, T2>(
    hay: seq<T1>, needle: seq<T2>, i: nat, equiv: (T2, T1) -> bool)
    requires i < |needle|
    ensures AllFound(hay, needle + [needle[i]], equiv) <==> AllFound(hay, needle, equiv)
  {
    var needle2 := needle + [needle[i]];
    forall k | 0 <= k < |needle| ensures needle[k] in needle2 {
      assert needle2[k] == needle[k];
    }
    forall k | 0 <= k < |needle2| ensures needle2[k] in needle {
      if k < |needle| {
        assert needle2[k] == needle[k];
      }
    }
    if AllFound(hay, needle, equiv) {
      Monotone(hay, hay, needle, needle2, equiv);
    }
    if AllFound(hay, needle2, equiv) {
      Monotone(hay, hay, needle2, needle, equiv);
    }
  }

  /** The needle can be split anywhere: both parts must be included. */
  lemma {:induction false} NeedleConcat<T1, T2>(
    hay: seq<T1>, n1: seq<T2>, n2: seq<T2>, equiv: (T2, T1) -> bool)
    ensures AllFound(hay, n1 + n2, equiv) <==> AllFound(hay, n1, equiv) && AllFound(hay, n2, equiv)
  {
    var n := n1 + n2;
    if AllFound(hay, n, equiv) {
      forall k | 0 <= k < |n1| ensures Found(n1[k], hay, equiv) {
        assert n[k] == n1[k];
      }
      forall k | 0 <= k < |n2| ensures Found(n2[k], hay, equiv) {
        assert n[|n1| + k] == n2[k];
      }
    }
    if AllFound(hay, n1, equiv) && AllFound(hay, n2, equiv) {
      forall k | 0 <= k < |n| ensures Found(n[k], hay, equiv) {
        if k < |n1| {
          assert n[k] == n1[k];
        } else {
          assert n[k] == n2[k - |n1|];
        }
      }
    }
  }

  /**
    Overload 1 is overload 2 with equality as the predicate: under `==`,
    `AllFound` is sequence membership of every needle element.
  */
  lemma EqualityInstance<T>(hay: seq<T>, needle: seq<T>)
    ensures AllFound(hay, needle, (n: T, h: T) => n == h)
        <==> forall k :: 0 <= k < |needle| ==> needle[k] in hay
  {
  }

  /** Equality on integers as a predicate, for the scenarios below. */
  predicate IntEq(n: int, h: int)
  {
    n == h
  }

  /** A repeated needle value is matched by the one haystack occurrence each time. */
  lemma DuplicateScenario()
    ensures AllFound([1, 2, 3], [2, 2, 2], IntEq)
  {
    var hay, needle := [1, 2, 3], [2, 2, 2];
    forall k | 0 <= k < 3 ensures Found(needle[k], hay, IntEq) {
      assert IntEq(needle[k], hay[1]);
    }
  }

  /** Order does not matter: [1, 3] is found within [3, 1, 4, 1, 5]. */
  lemma UnorderedScenario()
    ensures AllFound([3, 1, 4, 1, 5], [1, 3], IntEq)
  {
    var hay, needle := [3, 1, 4, 1, 5], [1, 3];
    assert IntEq(needle[0], hay[1]);
    assert IntEq(needle[1], hay[0]);
  }

  /** One absent value, 9, makes the whole check fail. */
  lemma AbsentScenario()
    ensures !AllFound([3, 1, 4], [1, 9], IntEq)
  {
    var hay, needle := [3, 1, 4], [1, 9];
    assert !Found(needle[1], hay, IntEq);
  }

  /** ASCII lower-casing of one character. */
  function LowerAscii(c: char): char
  {
    if 'A' <= c <= 'Z' then (c as int - 'A' as int + 'a' as int) as char else c
  }

  /** ASCII lower-casing of a string, character by character. */
  function Lower(s: string): (t: string)
    ensures |t| == |s|
    ensures forall i :: 0 <= i < |s| ==> t[i] == LowerAscii(s[i])
  {
    if s == [] then [] else [LowerAscii(s[0])] + Lower(s[1..])
  }

  /** A case-insensitive match: the predicate need not be equality. */
  predicate CaseInsensitiveEq(n: string, h: string)
  {
    Lower(n) == Lower(h)
  }

  /** With a case-insensitive predicate, "foo" is found among "Foo" and "Bar". */
  lemma CaseInsensitiveScenario()
    ensures AllFound(["Foo", "Bar"], ["foo"], CaseInsensitiveEq)
  {
    assert Lower("Foo") == "foo";
    assert Lower("foo") == "foo";
    assert CaseInsensitiveEq("foo", ["Foo", "Bar"][0]);
  }
}
