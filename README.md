# includes_unordered, modelled in Dafny

The repository is one generic C++ algorithm, `includes_unordered`. It decides
whether every element of an unsorted "needle" range `[first2, last2)` matches at
least one element of an unsorted "haystack" range `[first1, last1)`. It comes in
two overloads:

- the first matches with `==`;
- the second matches with a caller-supplied predicate `equiv(needle element, haystack element)`.

Both overloads use two nested loops. The outer loop advances the needle cursor.
For each needle element, the inner loop restarts the haystack cursor at
`first1` and stops at the first match. The function returns `false` at the
first needle element that has no match, and `true` once the needle is
exhausted.

Files:

- `includes_unordered.dfy` (module `UnorderedIncludes`) holds two ghost
  predicates, `Found` and `AllFound`, which say what the documented contract
  means. It also holds the two overloads, written as methods with nested `while`
  loops over index cursors. Each method is proved to return exactly
  `AllFound`. A ghost out-parameter, `examined`, counts the needle elements the
  outer loop has started on, which pins down the short-circuit.
- `properties.dfy` (module `IncludesUnorderedProperties`) proves what that
  contract implies:
  - the empty-range cases;
  - invariance under permutation of either range;
  - growth of the haystack, and duplicates in the needle;
  - splitting the needle into two parts;
  - that overload 1 is overload 2 with equality as the predicate;
  - a few concrete scenarios, one with a case-insensitive predicate.

Dafny has no overloading, so the predicate overload is named
`IncludesUnorderedBy`. Both methods are deterministic and their postconditions
fix `r` uniquely. So calling one twice on the same inputs gives the same result.

## Model

| member | source | states |
|---|---|---|
| UnorderedIncludes.IncludesUnorderedBy | includes_unordered.hpp:37-57 | returns true iff every needle element n has a haystack element h with equiv(n, h); true for an empty needle; false for an empty haystack and a non-empty needle; on false, `examined` is the position+1 of the first unmatched needle element, so no later needle element is looked at |
| UnorderedIncludes.IncludesUnordered | includes_unordered.hpp:11-30 | returns true iff every needle element is `==` to some haystack element, and iff AllFound holds for the equality predicate; same empty-range and short-circuit guarantees as the predicate overload |
| IncludesUnorderedProperties.EmptyRanges | includes_unordered.hpp:9 | an empty needle is included in any haystack, including an empty one; a non-empty needle is never included in an empty haystack |
| IncludesUnorderedProperties.Monotone | includes_unordered.hpp:6-8 | the result depends only on the values present: more haystack values and fewer (or repeated) needle values keep a true result true |
| IncludesUnorderedProperties.PermutationInvariant | includes_unordered.hpp:6-8 | permuting the haystack, the needle, or both leaves the result unchanged |
| IncludesUnorderedProperties.HaystackGrowth | includes_unordered.hpp:32-35 | inserting any element at any position of the haystack never turns a true result into false |
| IncludesUnorderedProperties.DuplicateNeedle | includes_unordered.hpp:45-56 | appending a copy of a needle element leaves the result unchanged, because each needle element is matched against the whole haystack (the cursor restarts at first1) |
| IncludesUnorderedProperties.NeedleConcat | includes_unordered.hpp:45-56 | a concatenated needle is included iff both of its parts are |
| IncludesUnorderedProperties.EqualityInstance | includes_unordered.hpp:23 | AllFound with the predicate (n, h) => n == h is exactly "every needle element occurs in the haystack", so overload 1 agrees with overload 2 given equality |
| IncludesUnorderedProperties.DuplicateScenario | includes_unordered.hpp:21 | haystack [1, 2, 3] includes needle [2, 2, 2] |
| IncludesUnorderedProperties.UnorderedScenario | includes_unordered.hpp:18-29 | haystack [3, 1, 4, 1, 5] includes needle [1, 3] |
| IncludesUnorderedProperties.AbsentScenario | includes_unordered.hpp:26-27 | haystack [3, 1, 4] does not include needle [1, 9] |
| IncludesUnorderedProperties.CaseInsensitiveScenario | includes_unordered.hpp:50 | with a case-insensitive predicate, haystack ["Foo", "Bar"] includes needle ["foo"] |

## Left out

- Iterator categories and template parameters (`InputIt1`, `InputIt2`): the
  ranges are `seq` values and the cursors are indices. The haystack is
  re-traversed for each needle element, which needs a multi-pass range; a `seq`
  always is one.
- Heterogeneous `==`: overload 1 can compare different element types through
  user-defined operators. The model uses a single element type `T` with
  equality.
- The predicate is a total, pure Dafny function. A predicate that throws, has
  side effects or keeps state is the caller's concern; the code does nothing
  about it.
- Invalid or mismatched iterator pairs are undefined behaviour for the caller
  to avoid. A `seq` cannot express them.
- The include guard and `#include <iterator>` (includes_unordered.hpp:1-4, 59)
  are build plumbing.
- The number of comparisons the short-circuit saves is not modelled. The model
  counts only the needle elements examined (`examined`), not the haystack
  comparisons made for each one.
