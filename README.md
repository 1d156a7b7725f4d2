# Name-game people list: list transforms and view state

This project models the data-transform layer of a small browser widget. The widget
fetches a list of people, each with a first name, a last name and a headshot URL, and
lets the user shuffle, sort or text-filter the table it shows. The model covers the
functions in `scripts.js` that build the visible list, plus the `App` component's
two-field state (`personList`, `visiblePersonList`) with one method per handler.

Modules:

- `People` (People.dfy): the person record, the `getFirstName`, `getLastName` and
  `getImageUrl` accessors, and `slice(1)`, the copy step the transforms use.
- `Strings` (Strings.dfy): ASCII `toLowerCase`, `includes` and JavaScript's `<` on
  strings. `includes` is proved equal to a reference substring relation.
  `LexLess` is proved to be a strict total order.
- `Filter` (Filter.dfy): `filterByName` as a recursive filter. Lemmas show that the
  result is an order-keeping subsequence of the input and that it keeps exactly the
  matching people, with their multiplicities. They also cover the empty query,
  case-insensitivity, idempotence and one no-match example.
- `Sort` (Sort.dfy): the comparator as written, plus an in-place insertion sort on an
  array, driven by that comparator and proved sorted and a permutation.
  `sortObjListByProp` sorts `objList.slice(1)`, and `sortByFirstName` and
  `sortByLastName` are built on it. `SortCopyByProp` is the intended full copy.
- `Shuffle` (Shuffle.dfy): the Fisher–Yates loop over an array, proved equal to a
  specification function `FisherYates`. That function is proved to permute its input.
  Every permutation is reachable by some sequence of draws. On distinct elements, two
  different sequences of draws give two different orders. So draws and orderings
  correspond one to one. `ShuffleList` is the function as written.
  `ShuffleCopy` is the version its comment describes.
- `ViewModel` (ViewModel.dfy): class `App`. Its `Valid()` invariant says the visible
  list is a sub-multiset of the full list, and every handler re-establishes it from
  `personList` alone. Client method `FailedFetchShowsNothing` walks through the
  failed-fetch scenario: after a rejected request, every action leaves the table empty.

`Math.random` is an input. `picks[i]` is the index `j`, with `0 <= j <= i`, drawn
when the loop counter is `i`. `picks[0]` exists only to keep the indexing simple,
and is always 0.

The comments in `scripts.js` (lines 56 and 105) say both transforms work on a copy
and leave the passed-in list alone. The documented example (lines 87-101) sorts all
three people. The code does something else, and the model follows the code. Here
`shuffleList` copies `list.slice(1)`, swaps the cells of the caller's own array, and
returns the unshuffled copy. `sortObjListByProp` sorts `objList.slice(1)`. Because
`_shuffleList` passes `this.state.personList`, the full list is permuted in place
even though `setState` never names it. So `App.ShuffleList` reassigns `personList` to
the swapped contents, and only its multiset stays fixed. The comparator returns 1
for equal keys (`CompareTiesBothGreater`), and the model promises no order among
equal keys.

## Model

| member | source | states |
|---|---|---|
| People.GetImageUrl | scripts.js:46-50 | the thumbnail address is the headshot URL prefixed with the `http:` scheme: it starts with `http:` and the rest is the URL unchanged |
| People.ImageUrlInjective | scripts.js:48-50 | two people get the same thumbnail address exactly when their headshot URLs are equal |
| People.SliceFromOne | scripts.js:57 | `slice(1)` is empty on an empty list; otherwise it is one shorter and element k is input element k + 1 |
| People.SliceFromOneSubMultiset | scripts.js:106 | the `slice(1)` copy holds no person more often than the input does |
| Strings.ToLowerChar | scripts.js:81-82 | the lower-cased character is never an upper-case ASCII letter; other characters are unchanged, letters move by 'a' - 'A' |
| Strings.Lower | scripts.js:81-82 | `toLowerCase` keeps the length and lower-cases each position |
| Strings.LowerIdempotent | scripts.js:81-82 | lower-casing twice is the same as lower-casing once |
| Strings.IncludesIsSubstring | scripts.js:81-82 | `includes` holds exactly when the needle occurs as a contiguous slice (both directions) |
| Strings.IncludesEmpty | scripts.js:81-82 | every string includes the empty string |
| Strings.LexLessIrreflexive | scripts.js:109 | no string is `<` itself |
| Strings.LexLessAsymmetric | scripts.js:109-113 | `a < b` and `b < a` never hold together |
| Strings.LexLessTransitive | scripts.js:109-113 | `<` on strings is transitive |
| Strings.LexLessTotal | scripts.js:109-117 | two different strings are always ordered by `<` one way or the other |
| Strings.LexLeTransitive | scripts.js:108-118 | "not greater than" is transitive, so a sort by this comparator has a consistent target order |
| Strings.LexLessImpliesLe | scripts.js:109-111 | `a < b` implies that `b` is not smaller than `a` |
| Filter.MatchesNameIsNameContains | scripts.js:80-83 | the filter test holds exactly when the lower-cased query is a substring of the lower-cased first or last name |
| Filter.FilterByName | scripts.js:78-85 | the result is no longer than the input; every kept person is in the input and matches; every matching input person is kept |
| Filter.FilterIsSubsequence | scripts.js:79-84 | the filtered list is a subsequence of the input, in the original relative order |
| Filter.FilterKeepsExactlyMatches | scripts.js:80-83 | a person is in the result if and only if they are in the input and the case-folded query is a substring of one of their case-folded names |
| Filter.FilterMultiplicity | scripts.js:79-84 | each matching person occurs in the result as often as in the input, and each other person not at all |
| Filter.FilterEmptyQuery | scripts.js:81-82 | the empty query returns the input list unchanged |
| Filter.FilterCaseInsensitive | scripts.js:81-82 | filtering by a query and by its lower-case form gives the same list |
| Filter.FilterIdempotent | scripts.js:79-84 | filtering twice by the same query is the same as filtering once |
| Filter.FilterScenarioNoMatch | scripts.js:78-85 | filtering `[Viju Legard]` by "juj" returns the empty list |
| Filter.LowerOfLower | scripts.js:81-82 | a string with no upper-case letter is its own lower-case form |
| Sort.Compare | scripts.js:108-118 | the comparator answers -1 or 1, and answers -1 exactly when `a[prop] < b[prop]` |
| Sort.CompareTiesBothGreater | scripts.js:117 | on equal keys the comparator answers 1 in both argument orders, which is not a consistent comparator |
| Sort.CompareAntisymmetricOnDistinctKeys | scripts.js:109-115 | on different keys, swapping the arguments flips the answer |
| Sort.SortedIffAdjacentSorted | scripts.js:97-100 | a list is in order for all pairs exactly when every adjacent pair is in order |
| Sort.InsertInto | scripts.js:108-118 | one insertion pass extends the sorted prefix by one cell and only permutes the array |
| Sort.SortInPlace | scripts.js:108-118 | sorting in place leaves the array non-decreasing by the key and a permutation of its old contents |
| Sort.SortObjListByProp | scripts.js:103-121 | as written: the result is sorted by `prop` and is a permutation of `objList.slice(1)`, not of `objList`; the input value is unchanged |
| Sort.SortByFirstName | scripts.js:124 | sorted by first name, and a permutation of the list without its first element |
| Sort.SortByLastName | scripts.js:125-127 | sorted by last name, and a permutation of the list without its first element |
| Sort.SortCopyByProp | scripts.js:105-106 | the intended copy: sorted by `prop` and a permutation of the whole input |
| Sort.SortScenarioBobAmy | scripts.js:103-121 | every list sorted by first name that holds Bob Jones and Amy Zane once each is `[Amy Zane, Bob Jones]` |
| Sort.SortAsWrittenScenarioBobAmy | scripts.js:106 | as written, sorting `[Bob Jones, Amy Zane]` returns `[Amy Zane]`: Bob is dropped |
| Sort.SortDocExample | scripts.js:87-101 | every sorted rearrangement of the documented `[Sam, Jon, Kevin]` is `[Jon, Kevin, Sam]` |
| Sort.SortAsWrittenDocExample | scripts.js:97-106 | as written, the documented example yields `[Jon, Kevin]`: Sam is lost |
| Shuffle.SwapAtPermutes | scripts.js:65-67 | the three-assignment swap through `tmp` only permutes the cells |
| Shuffle.FisherYatesFromPermutes | scripts.js:63-68 | the remaining rounds keep the length and the multiset of the array |
| Shuffle.FisherYatesPermutes | scripts.js:59-68 | whatever the draws, the whole loop only permutes the array |
| Shuffle.FisherYatesFromReadsPrefix | scripts.js:63-64 | rounds `i` down to 1 read only the draws for counters `0..i` |
| Shuffle.FisherYatesFromReaches | scripts.js:63-68 | rounds `i` down to 1 can produce any rearrangement of the first `i + 1` cells |
| Shuffle.FisherYatesReachesEveryPermutation | scripts.js:52-68 | every permutation of the input is the result of some valid sequence of draws |
| Shuffle.FisherYatesFromKeepsAbove | scripts.js:63-68 | rounds `i` down to 1 never change a cell after `i` |
| Shuffle.FisherYatesFromInjective | scripts.js:63-68 | on distinct people, equal results from rounds `i` down to 1 mean equal draws |
| Shuffle.FisherYatesInjective | scripts.js:52-68 | on distinct people, different valid draws give different orders |
| Shuffle.ShuffleInPlace | scripts.js:59-68 | the countdown loop leaves the array equal to `FisherYates` of its old contents, a permutation of them |
| Shuffle.ShuffleList | scripts.js:55-71 | as written: the result is exactly the old `list.slice(1)`, unshuffled, and the caller's array is the one permuted |
| Shuffle.ShuffleCopy | scripts.js:56-57 | the intended version returns a shuffle of a full copy, a permutation of the whole input, and leaves the input array alone |
| Shuffle.ShuffleAsWrittenTwoPeople | scripts.js:57-70 | for two different people and draw 0, the as-written result is only the second person, while the caller's array is swapped |
| ViewModel.App.constructor | scripts.js:176-181 | the initial state has both lists empty |
| ViewModel.App.ComponentDidMount | scripts.js:183-190 | on a resolved request both lists become the fetched list; on a rejected one nothing changes |
| ViewModel.App.ShuffleList | scripts.js:192-196 | the visible list becomes the old full list without its first element, and the full list is permuted in place by the draws, with its multiset kept |
| ViewModel.App.SortByFirst | scripts.js:198-202 | the full list is unchanged; the visible list is sorted by first name and is a permutation of the full list's `slice(1)` |
| ViewModel.App.SortByLast | scripts.js:204-208 | the full list is unchanged; the visible list is sorted by last name and is a permutation of the full list's `slice(1)` |
| ViewModel.App.OnSearch | scripts.js:210-214 | the full list is unchanged; the visible list is `filterByName` of the query over the full list |

## Left out

- `getPersonList` (scripts.js:18-30) is a network `fetch` inside a promise. It is I/O, so its outcome enters `App.ComponentDidMount` as a `FetchOutcome` parameter. The rejected promise has no handler, so the `Failed` case changes nothing.
- The React components and the `ReactDOM.render` call (scripts.js:135-173, 216-247) are pure rendering and are not modelled.
- `Math.random` and `Math.floor` (scripts.js:64) are floating-point randomness. They are replaced by the `picks` input. No probability is modelled. The one-to-one correspondence between draws and orderings is proved instead.
- `toLowerCase` is modelled on ASCII letters only. Unicode case mapping belongs to the JavaScript engine.
- JavaScript's `<` compares UTF-16 code units. The model compares Dafny characters lexicographically.
- `getFirstName` and `getLastName` are modelled as plain accessors with no contract. They only return a field.
- Sort.SortInPlace: `Array.prototype.sort` is stood in for by an insertion sort driven by the same comparator. ECMAScript lets the engine choose the order when the comparator is inconsistent, as this one is on ties. So the model promises sortedness and a permutation, and no particular order among equal keys.
- ViewModel.App.ComponentDidMount: after mounting, `visiblePersonList` and `personList` are the same JavaScript array. The model keeps list values, not array identities. No handler reads `visiblePersonList` before replacing it, so the sharing has no visible effect.
- ViewModel.App.ShuffleList: the caller supplies one draw per index of `personList`. The source draws them itself.

## Findings

| source | as written | input that shows it | evidently intended | confidence | as-written member | corrected member |
|---|---|---|---|---|---|---|
| scripts.js:56-70 | `shuffleList` copies `list.slice(1)`, swaps the caller's `list`, and returns the copy | `[p, q]` with `p != q`, draw 0: the result is `[q]` and the caller's list becomes `[q, p]` | return a shuffled full copy and leave `list` untouched, as the comment says | high (not executed) | Shuffle.ShuffleAsWrittenTwoPeople | Shuffle.ShuffleCopy |
| scripts.js:105-106 | `sortObjListByProp` copies `objList.slice(1)`, so the first element is dropped | `[Sam, Jon, Kevin]` by name gives `[Jon, Kevin]`; `[Bob Jones, Amy Zane]` by first name gives `[Amy Zane]` | sort a full copy: `[Jon, Kevin, Sam]` as the doc example shows | high (not executed) | Sort.SortAsWrittenDocExample | Sort.SortCopyByProp |

`App` models the handlers as written, so it calls the as-written `ShuffleList`,
`SortByFirstName` and `SortByLastName`. The corrected transforms are stated and
proved on their own.
