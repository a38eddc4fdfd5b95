# Bubble sort of SortVision, modelled and verified in Dafny

SortVision ships reference implementations of the sorting algorithms it
animates. This project models one of them: the Python `bubble_sort`. It
sorts a list of integers in place.

- Lists of length 0 or 1 are returned at once.
- Otherwise the outer loop makes passes `i = 0, 1, ..., n - 1`.
- Pass `i` compares the neighbours `(j, j + 1)` for `j` below `n - i - 1`.
- Whenever the left element is strictly greater, the pass swaps the two and sets the `swapped` flag.
- After a pass that swapped nothing, the outer loop stops.
- The function returns the same list object.

Everything is in `bubble_sort.dfy`, in the module `BubbleSort`.

- The list is an `array<int>`. Python's unbounded `int` is Dafny's `int`.
- The method `BubbleSort` follows the source loop for loop: an outer
  `while` over `i` with the early `break`, and the pass `BubblePass`, an
  inner `while` over `j` with the `swapped` flag.
- Two ghost out-parameters are added:
  - the number of comparisons made, which the docstring's complexity line speaks about;
  - for every final position, the input position its element came from, tracked only to state stability.
- The methods are proved against functions of the input:
  - `PassPrefix`, `OriginPrefix` and `SwapsUpTo` give the list, the origins
    and the flag after the first `j` comparisons of a pass;
  - `SortFrom` gives the outer loop from pass `i` on;
  - `BubbleSortRun` gives the whole call.
- The properties are lemmas about those functions:
  - the result is sorted and a permutation of the input;
  - the sort is stable;
  - sorted input is left unchanged after `n - 1` comparisons;
  - at most n(n-1)/2 comparisons are made;
  - the docstring's three examples hold.

## Model

| member | source | states |
|---|---|---|
| BubbleSort.BubbleSort | SortVision/public/code/bubble/python/bubbleSort.py:36-57 | Sorts in place and returns the same array. The array, the origins and the comparison count it ends with are those of `BubbleSortRun` on the input, including the return without any comparison for length at most 1 |
| BubbleSort.BubbleSortRun | SortVision/public/code/bubble/python/bubbleSort.py:36-57 | Definition of the whole call on a list: lengths 0 and 1 return at once with no comparison and identity origins, longer lists run the outer loop `SortFrom` from pass 0. What it guarantees is proved by `BubbleSortCorrect`, `SortedInputUnchanged` and `BubbleSortComparisonsBound` |
| BubbleSort.SortFrom | SortVision/public/code/bubble/python/bubbleSort.py:43-55 | Definition of the outer loop from pass `i`: pass `i` compares the `n - i - 1` pairs of the unsettled prefix, and the loop stops after the pass that leaves the flag false or after the last pass. `PassAdvances` ties it to the method's loop, and the `SortFrom*` lemmas state what it keeps |
| BubbleSort.PassPrefix | SortVision/public/code/bubble/python/bubbleSort.py:47-51 | Definition of the list after the first `j` comparisons of a pass, one `Step` after another. `PassPrefixElements`, `PassPrefixCarriesMax`, `PassKeepsSuffix` and `PassPrefixSettled` state what it keeps |
| BubbleSort.OriginPrefix | SortVision/public/code/bubble/python/bubbleSort.py:47-51 | Definition of the origins after the first `j` comparisons of a pass, moved with the elements. `PassPrefixTracks` and `PassPrefixStable` state what they keep |
| BubbleSort.SwapsUpTo | SortVision/public/code/bubble/python/bubbleSort.py:44-51 | Definition of the `swapped` flag after the first `j` comparisons: false before the pass, set by the first comparison that finds the left neighbour greater. `NoSwapsIffOrdered` characterises it |
| BubbleSort.Step | SortVision/public/code/bubble/python/bubbleSort.py:49-50 | Definition of one comparison of the inner loop, swapping only when the left neighbour is strictly greater; its contract keeps the length. `StepCarriesMax`, `StepSameElements` and `StepKeepsSettled` state what it does |
| BubbleSort.StepOrigin | SortVision/public/code/bubble/python/bubbleSort.py:49-50 | Definition of the origins after one comparison: exchanged exactly when the elements are. `StepTracks` and `StepKeepsStable` state what it keeps |
| BubbleSort.SortFromLength | SortVision/public/code/bubble/python/bubbleSort.py:43-57 | The passes from `i` on keep the length of the list: the sort works in place |
| BubbleSort.SortFromKeepsSuffix | SortVision/public/code/bubble/python/bubbleSort.py:43-47 | Outer-loop invariant, other half: once `i` passes are done, the last `i` elements already hold their final values, because no later pass moves them |
| BubbleSort.BubblePass | SortVision/public/code/bubble/python/bubbleSort.py:44-51 | One pass over the unsettled prefix `a[0..m]` leaves `PassPrefix(old, m - 1)`. Its flag is true exactly when some comparison swapped. It makes `m - 1` comparisons and moves the origins with the elements |
| BubbleSort.SwapAdjacent | SortVision/public/code/bubble/python/bubbleSort.py:50 | The array afterwards is the old one with positions `j` and `j + 1` exchanged and nothing else changed |
| BubbleSort.SwappedSameElements | SortVision/public/code/bubble/python/bubbleSort.py:50 | An exchange keeps the multiset of elements |
| BubbleSort.BubbleSortCorrect | SortVision/public/code/bubble/python/bubbleSort.py:7-57 | For every input list, the result is in non-decreasing order, has the same multiset of elements, and its origins are a bijection onto the input positions that keeps equal elements in input order (stability) |
| BubbleSort.SortFromSorted | SortVision/public/code/bubble/python/bubbleSort.py:43-55 | Outer-loop invariant: if the last `i` elements are settled (each at least every element before it), the passes from `i` on end with a sorted list |
| BubbleSort.SortFromElements | SortVision/public/code/bubble/python/bubbleSort.py:43-55 | The passes from `i` on keep the multiset of the input |
| BubbleSort.SortFromTracks | SortVision/public/code/bubble/python/bubbleSort.py:43-55 | The passes from `i` on keep every element tracked to a distinct input position |
| BubbleSort.SortFromStable | SortVision/public/code/bubble/python/bubbleSort.py:43-55 | The passes from `i` on keep equal elements in input order |
| BubbleSort.PassAdvances | SortVision/public/code/bubble/python/bubbleSort.py:43-55 | One outer iteration. If pass `i` swapped, the loop continues at `i + 1` with the list it left. If not, the loop stops with the list unchanged. Either way it adds `n - i - 1` comparisons |
| BubbleSort.PassKeepsSuffix | SortVision/public/code/bubble/python/bubbleSort.py:46-47 | A pass over `s[0..m]` never moves the elements from `m` on: the last `i` elements stay exactly where they are |
| BubbleSort.PassPrefixCarriesMax | SortVision/public/code/bubble/python/bubbleSort.py:47-51 | Inner-loop invariant: after `j` comparisons of a pass, the largest of its first `j + 1` elements stands at `j` |
| BubbleSort.StepCarriesMax | SortVision/public/code/bubble/python/bubbleSort.py:49-50 | Comparing `j` with `j + 1`, and swapping when the left one is greater, carries the maximum of `s[0..j + 1]` to `j + 1` |
| BubbleSort.StepSameElements | SortVision/public/code/bubble/python/bubbleSort.py:49-50 | One comparison, with its swap when the left neighbour is greater, keeps the multiset |
| BubbleSort.StepTracks | SortVision/public/code/bubble/python/bubbleSort.py:49-50 | One comparison and its swap move the origins with the elements, keeping them a bijection |
| BubbleSort.StepKeepsStable | SortVision/public/code/bubble/python/bubbleSort.py:49-51 | One comparison keeps equal elements in input order, since only a strictly greater left neighbour is swapped |
| BubbleSort.StepKeepsSettled | SortVision/public/code/bubble/python/bubbleSort.py:46-50 | One comparison below `m` keeps the elements from `m` on settled |
| BubbleSort.SwapKeepsSettled | SortVision/public/code/bubble/python/bubbleSort.py:46-50 | A swap below `m` keeps the elements from `m` on settled |
| BubbleSort.PassPrefixElements | SortVision/public/code/bubble/python/bubbleSort.py:47-51 | Any number of comparisons of a pass keep the multiset |
| BubbleSort.PassPrefixTracks | SortVision/public/code/bubble/python/bubbleSort.py:47-51 | Any number of comparisons of a pass keep the origins a bijection onto the input positions that moves with the elements |
| BubbleSort.PassPrefixStable | SortVision/public/code/bubble/python/bubbleSort.py:47-51 | Any number of comparisons of a pass keep equal elements in input order |
| BubbleSort.PassPrefixSettled | SortVision/public/code/bubble/python/bubbleSort.py:46-50 | A pass over `s[0..m]` keeps the elements from `m` on settled |
| BubbleSort.PassSettlesNext | SortVision/public/code/bubble/python/bubbleSort.py:43-47 | Outer-loop invariant kept: a whole pass over the unsettled prefix `s[0..m]` settles position `m - 1` too, so after pass `i` each of the last `i + 1` elements is at least everything before it |
| BubbleSort.EarlyExitSorted | SortVision/public/code/bubble/python/bubbleSort.py:53-55 | The early exit is sound: a pass over `s[0..m]` that leaves the flag false, with the rest settled, has seen a sorted list |
| BubbleSort.SwapTracks | SortVision/public/code/bubble/python/bubbleSort.py:50 | Swapping two elements together with their origins keeps every element tracked to a distinct input position |
| BubbleSort.SwapKeepsStable | SortVision/public/code/bubble/python/bubbleSort.py:49-50 | Swapping a strictly greater left neighbour keeps equal elements in input order, so the strict `>` is what makes the sort stable |
| BubbleSort.NoSwapsIffOrdered | SortVision/public/code/bubble/python/bubbleSort.py:44-51 | After `j` comparisons the flag is still false exactly when all of `(0, 1), ..., (j - 1, j)` are in order, and while it is false the list and the origins are unchanged |
| BubbleSort.NoSwapMeansSorted | SortVision/public/code/bubble/python/bubbleSort.py:53-55 | The early exit is sound: a pass over `s[0..m]` that finds every neighbouring pair in order, with the rest settled, has seen a sorted list |
| BubbleSort.AdjacentSortedIsSorted | SortVision/public/code/bubble/python/bubbleSort.py:53 | A list whose neighbours are all in order is sorted, and conversely |
| BubbleSort.FirstPassSwapsIffUnsorted | SortVision/public/code/bubble/python/bubbleSort.py:44-55 | For length at least 2, the first pass swaps exactly when the list is not sorted |
| BubbleSort.SortedInputUnchanged | SortVision/public/code/bubble/python/bubbleSort.py:17 | Best case: a sorted list (in particular any list of length at most 1) is left unchanged with its elements in place, after `n - 1` comparisons (0 for the empty list) |
| BubbleSort.BubbleSortComparisonsBound | SortVision/public/code/bubble/python/bubbleSort.py:17 | Worst case: every run makes at most n(n-1)/2 comparisons |
| BubbleSort.SortFromComparisonsBound | SortVision/public/code/bubble/python/bubbleSort.py:43-47 | The passes from `i` on make at most the comparisons that passes `i, ..., n - 1` can make together |
| BubbleSort.PassComparisons | SortVision/public/code/bubble/python/bubbleSort.py:43-47 | Definition of the comparisons made by the first `p` passes over `n` elements: pass `q` makes `n - 1 - q`. `PassComparisonsClosedForm` and `PassComparisonsMonotone` state its value |
| BubbleSort.PassComparisonsClosedForm | SortVision/public/code/bubble/python/bubbleSort.py:47 | The first `p` passes over `n` elements compare `p(2n - 1 - p)/2` pairs in all |
| BubbleSort.PassComparisonsMonotone | SortVision/public/code/bubble/python/bubbleSort.py:43-47 | More passes never make fewer comparisons |
| BubbleSort.WorstCaseComparisons | SortVision/public/code/bubble/python/bubbleSort.py:17 | All `n` passes together make exactly n(n-1)/2 comparisons |
| BubbleSort.BubbleSortIdempotent | SortVision/public/code/bubble/python/bubbleSort.py:53-55 | Sorting a result again leaves it unchanged |
| BubbleSort.SortedPermutationUnique | SortVision/public/code/bubble/python/bubbleSort.py:15 | Two sorted lists with the same multiset are equal, so the sorted result is determined by the input's elements |
| BubbleSort.SortedSameHead | SortVision/public/code/bubble/python/bubbleSort.py:15 | Two non-empty sorted lists with the same elements start with the same element |
| BubbleSort.SameTailElements | SortVision/public/code/bubble/python/bubbleSort.py:15 | Removing the same first element from two lists with the same elements leaves the same elements |
| BubbleSort.DocstringUnsortedExample | SortVision/public/code/bubble/python/bubbleSort.py:21-24 | Sorting `[64, 34, 25, 12, 22, 11, 90]` gives `[11, 12, 22, 25, 34, 64, 90]` |
| BubbleSort.DocstringSortedExamples | SortVision/public/code/bubble/python/bubbleSort.py:26-34 | `[]` stays `[]` with no comparison; `[1, 2, 3]` stays `[1, 2, 3]` after one pass of two comparisons |
| BubbleSort.ExampleUnsortedList | SortVision/public/code/bubble/python/bubbleSort.py:21-24 | The first example run on an array through the method `BubbleSort`: the array ends as `[11, 12, 22, 25, 34, 64, 90]` (asserted, no contract) |
| BubbleSort.ExampleEmptyAndSortedList | SortVision/public/code/bubble/python/bubbleSort.py:26-34 | The second and third examples run on arrays through `BubbleSort`: `[]` and `[1, 2, 3]` end unchanged, the second after 2 comparisons (asserted, no contract) |
| BubbleSort.SortedOfDocstringList | SortVision/public/code/bubble/python/bubbleSort.py:21-24 | The only sorted rearrangement of the first example's list is the one the docstring prints |

## Left out

- `SortVision/src/components/ChatAssistant.jsx`, `SortVision/src/assistant/assistantEngine.jsx` and `SortVision/src/components/panels/contributions/ssoc/LeaderboardRow.jsx` are not part of this model. They are user-interface code, timers and a network client, with no algorithm to state.
- BubbleSort: the method's own postcondition ties its final state to the function `BubbleSortRun` rather than restating sortedness, permutation and stability. Those properties are proved about `BubbleSortRun` by `BubbleSortCorrect`, `SortedInputUnchanged` and `BubbleSortComparisonsBound`, and each applies to the method through that equation.
- The comparison count and the origins are ghost out-parameters. The source computes neither; the count exists to state the O(n²) and O(n) best-case claims of the docstring, and the origins only to state that the sort is stable, which the source does not document.
- The O(1) space claim (`SortVision/public/code/bubble/python/bubbleSort.py:18`) is not a proved property. The model only shows that the sort allocates nothing and writes only through `SwapAdjacent`.
- Running time is modelled only as the number of comparisons, not wall-clock time.
- Python's dynamic typing is not modelled: the list is taken to hold integers, as the signature `List[int]` says.
- Aliasing of the Python list beyond the returned reference is not modelled. The method returns the array it was given (`r == a`).
- The doctests' printing is not modelled. The examples are stated as lemmas, and as the methods `ExampleUnsortedList` and `ExampleEmptyAndSortedList`, which sort arrays and assert the results.
