/**
 * Bubble sort of an integer list, in place, with the early exit after a pass
 * that swapped nothing (SortVision/public/code/bubble/python/bubbleSort.py).
 *
 * The list is an `array<int>`; Python's unbounded `int` is Dafny's `int`.
 * Two ghost out-parameters are added. The number of comparisons made is
 * what the docstring's complexity line speaks about. For every final
 * position, the input position its element came from is tracked only to
 * state that equal elements keep their order, because only a strictly
 * greater left neighbour is swapped.
 */
module BubbleSort {

  // ---------------------------------------------------------------------
  // Orders on sequences
  // ---------------------------------------------------------------------

  /** Non-decreasing order: every element is at most every later one. */
  predicate Sorted(s: seq<int>) {
    forall k, l :: 0 <= k < l < |s| ==> s[k] <= s[l]
  }

  /** Every element is at most its right-hand neighbour: what a pass that swaps nothing observes. */
  predicate AdjacentSorted(s: seq<int>) {
    forall k :: 0 <= k < |s| - 1 ==> s[k] <= s[k + 1]
  }

  /** A pass that found no neighbours out of order has seen a sorted list, and conversely. */
  lemma {:induction false} AdjacentSortedIsSorted(s: seq<int>)
    ensures AdjacentSorted(s) <==> Sorted(s)
  {
    if AdjacentSorted(s) && |s| > 1 {
      var t := s[1..];
      assert AdjacentSorted(t) by {
        forall k | 0 <= k < |t| - 1 ensures t[k] <= t[k + 1] {
          assert t[k] == s[k + 1] && t[k + 1] == s[k + 2];
        }
      }
      AdjacentSortedIsSorted(t);
      forall k, l | 0 <= k < l < |s| ensures s[k] <= s[l] {
        if k > 0 {
          assert s[k] == t[k - 1] && s[l] == t[l - 1];
        } else if l > 1 {
          assert s[1] == t[0] && s[l] == t[l - 1];
        }
      }
    }
  }

  /** Two sorted lists with the same elements start with the same, smallest, element. */
  lemma SortedSameHead(s: seq<int>, t: seq<int>)
    requires Sorted(s) && Sorted(t) && s != []
    requires multiset(s) == multiset(t)
    ensures t != [] && s[0] == t[0]
  {
    assert s[0] in multiset(t);
    var m :| 0 <= m < |t| && t[m] == s[0];
    assert t[0] in multiset(s);
    var p :| 0 <= p < |s| && s[p] == t[0];
    assert s[0] <= s[p] && t[0] <= t[m];
  }

  /** Removing the same first element from two lists with the same elements leaves the same elements. */
  lemma SameTailElements(s: seq<int>, t: seq<int>)
    requires s != [] && t != [] && s[0] == t[0]
    requires multiset(s) == multiset(t)
    ensures multiset(s[1..]) == multiset(t[1..])
  {
    assert s == [s[0]] + s[1..] && t == [t[0]] + t[1..];
    var s', t' := s[1..], t[1..];
    forall x ensures multiset(s')[x] == multiset(t')[x] {
      assert multiset(s)[x] == multiset{s[0]}[x] + multiset(s')[x];
      assert multiset(t)[x] == multiset{t[0]}[x] + multiset(t')[x];
    }
  }

  /**
   * A list has exactly one sorted rearrangement: two sorted lists with the
   * same elements are equal. So the output of the sort is fully determined
   * by the multiset of its input.
   */
  lemma {:induction false} SortedPermutationUnique(s: seq<int>, t: seq<int>)
    requires Sorted(s) && Sorted(t)
    requires multiset(s) == multiset(t)
    ensures s == t
  {
    if s == [] {
      assert |t| == |multiset(t)| == |multiset(s)| == 0;
    } else {
      SortedSameHead(s, t);
      SameTailElements(s, t);
      assert Sorted(s[1..]) && Sorted(t[1..]);
      SortedPermutationUnique(s[1..], t[1..]);
      assert s == [s[0]] + s[1..] && t == [t[0]] + t[1..];
    }
  }

  // ---------------------------------------------------------------------
  // The adjacent swap
  // ---------------------------------------------------------------------

  /** The sequence with positions `j` and `j + 1` exchanged. */
  function Swapped<T>(s: seq<T>, j: nat): (r: seq<T>)
    requires j + 1 < |s|
    ensures |r| == |s| && r[j] == s[j + 1] && r[j + 1] == s[j]
    ensures forall k :: 0 <= k < |s| && k != j && k != j + 1 ==> r[k] == s[k]
  {
    seq(|s|, k requires 0 <= k < |s| => if k == j then s[j + 1] else if k == j + 1 then s[j] else s[k])
  }

  /** A swap only rearranges: the list keeps its elements. */
  lemma SwappedSameElements(s: seq<int>, j: nat)
    requires j + 1 < |s|
    ensures multiset(Swapped(s, j)) == multiset(s)
  {
    assert Swapped(s, j) == s[j := s[j + 1]][j + 1 := s[j]];
  }

  /** Exchanges the neighbours at `j` and `j + 1` in place: the only write the sort makes. */
  method SwapAdjacent(a: array<int>, j: nat)
    requires j + 1 < a.Length
    modifies a
    ensures a[..] == Swapped(old(a[..]), j)
  {
    a[j], a[j + 1] := a[j + 1], a[j];
  }

  // ---------------------------------------------------------------------
  // One pass, as a function of the list
  // ---------------------------------------------------------------------

  /** One step of the inner loop: compare `s[j]` with `s[j + 1]` and swap them when the left one is greater. */
  function Step(s: seq<int>, j: nat): (r: seq<int>)
    requires j + 1 < |s|
    ensures |r| == |s|
  {
    if s[j] > s[j + 1] then Swapped(s, j) else s
  }

  /** The origins carried along by `Step(s, j)`. */
  function StepOrigin(s: seq<int>, origin: seq<int>, j: nat): (r: seq<int>)
    requires j + 1 < |s| == |origin|
    ensures |r| == |s|
  {
    if s[j] > s[j + 1] then Swapped(origin, j) else origin
  }

  /** The list after the first `j` comparisons of a pass, those of the pairs `(0, 1), ..., (j - 1, j)`. */
  function PassPrefix(s: seq<int>, j: nat): (r: seq<int>)
    requires j < |s|
    ensures |r| == |s|
  {
    if j == 0 then s else Step(PassPrefix(s, j - 1), j - 1)
  }

  /** Where the elements of `PassPrefix(s, j)` came from, when those of `s` came from `origin`. */
  function OriginPrefix(s: seq<int>, origin: seq<int>, j: nat): (r: seq<int>)
    requires j < |s| == |origin|
    ensures |r| == |s|
  {
    if j == 0 then origin else StepOrigin(PassPrefix(s, j - 1), OriginPrefix(s, origin, j - 1), j - 1)
  }

  /** Whether one of the first `j` comparisons of a pass over `s` swapped: the `swapped` flag of the source. */
  function SwapsUpTo(s: seq<int>, j: nat): bool
    requires j < |s|
  {
    j > 0 && (SwapsUpTo(s, j - 1) || PassPrefix(s, j - 1)[j - 1] > PassPrefix(s, j - 1)[j])
  }

  // ---------------------------------------------------------------------
  // Where each element came from
  // ---------------------------------------------------------------------

  /**
   * `origin[k]` is the position in `input` of the element now at `k` of
   * `output`, and no input position is used twice.
   */
  ghost predicate Tracks(origin: seq<int>, input: seq<int>, output: seq<int>) {
    |origin| == |input| == |output| &&
    (forall k {:trigger origin[k]} :: 0 <= k < |origin| ==> 0 <= origin[k] < |input| && output[k] == input[origin[k]]) &&
    (forall k, l :: 0 <= k < l < |origin| ==> origin[k] != origin[l])
  }

  /**
   * Elements that are equal appear in the order they had in `input`: for
   * final positions `k < l` holding equal values, `origin[k] < origin[l]`.
   */
  ghost predicate Stable(origin: seq<int>, input: seq<int>) {
    forall k, l ::
      (0 <= k < l < |origin| && 0 <= origin[k] < |input| && 0 <= origin[l] < |input| &&
       input[origin[k]] == input[origin[l]]) ==> origin[k] < origin[l]
  }

  /** The positions `0, ..., n - 1`. */
  function Identity(n: nat): (r: seq<int>)
    ensures |r| == n && forall k :: 0 <= k < n ==> r[k] == k
  {
    seq(n, k => k)
  }

  /** Before any swap every element is where it started. */
  lemma IdentityTracks(s: seq<int>)
    ensures Tracks(Identity(|s|), s, s) && Stable(Identity(|s|), s)
  {
  }

  /** Swapping an element with its neighbour, and its origin with it, keeps track of every element. */
  lemma SwapTracks(origin: seq<int>, input: seq<int>, s: seq<int>, j: nat)
    requires Tracks(origin, input, s) && j + 1 < |s|
    ensures Tracks(Swapped(origin, j), input, Swapped(s, j))
  {
    var o, t := Swapped(origin, j), Swapped(s, j);
    forall k, l | 0 <= k < l < |o| ensures o[k] != o[l] {
      var k' := if k == j then j + 1 else if k == j + 1 then j else k;
      var l' := if l == j then j + 1 else if l == j + 1 then j else l;
      assert o[k] == origin[k'] && o[l] == origin[l'];
      if k' < l' {
        assert origin[k'] != origin[l'];
      } else {
        assert origin[l'] != origin[k'];
      }
    }
  }

  /**
   * Swapping neighbours that are strictly out of order keeps equal elements
   * in their input order; the strict `>` of the comparison is what makes
   * bubble sort stable.
   */
  lemma SwapKeepsStable(origin: seq<int>, input: seq<int>, s: seq<int>, j: nat)
    requires Tracks(origin, input, s) && j + 1 < |s|
    requires s[j] > s[j + 1]
    requires Stable(origin, input)
    ensures Stable(Swapped(origin, j), input)
  {
    var o := Swapped(origin, j);
    forall k, l | 0 <= k < l < |o| && 0 <= o[k] < |input| && 0 <= o[l] < |input| && input[o[k]] == input[o[l]]
      ensures o[k] < o[l]
    {
      var k' := if k == j then j + 1 else if k == j + 1 then j else k;
      var l' := if l == j then j + 1 else if l == j + 1 then j else l;
      assert o[k] == origin[k'] && o[l] == origin[l'];
      assert k' < l';
    }
  }

  // ---------------------------------------------------------------------
  // What a pass establishes
  // ---------------------------------------------------------------------

  /**
   * The elements from position `m` on are in their final places: each of
   * them is at least every element before it.
   */
  predicate SettledFrom(s: seq<int>, m: nat) {
    m <= |s| &&
    forall k, l :: 0 <= k < l < |s| && m <= l ==> s[k] <= s[l]
  }

  /** `s[j]` is the largest of `s[0..j]`: the element the pass is carrying to the right. */
  predicate MaxAt(s: seq<int>, j: nat) {
    j < |s| &&
    forall k :: 0 <= k < j ==> s[k] <= s[j]
  }

  /** The neighbouring pairs compared so far, `(0, 1), ..., (j - 1, j)`, were all in order. */
  predicate OrderedUpTo(s: seq<int>, j: nat) {
    j < |s| &&
    forall k :: 0 <= k < j ==> s[k] <= s[k + 1]
  }

  /** The pairs compared up to `j + 1` are in order when those up to `j` are and `(j, j + 1)` is. */
  lemma OrderedUpToStep(s: seq<int>, j: nat)
    requires j + 1 < |s|
    ensures OrderedUpTo(s, j + 1) <==> OrderedUpTo(s, j) && s[j] <= s[j + 1]
  {
  }

  /** The elements settled so far are untouched by a swap below them. */
  lemma SwapKeepsSettled(s: seq<int>, j: nat, m: nat)
    requires j + 1 < m <= |s| && SettledFrom(s, m)
    ensures SettledFrom(Swapped(s, j), m)
  {
    var t := Swapped(s, j);
    forall k, l | 0 <= k < l < |t| && m <= l ensures t[k] <= t[l] {
      var k' := if k == j then j + 1 else if k == j + 1 then j else k;
      assert t[k] == s[k'] && t[l] == s[l];
    }
  }

  /**
   * One step of the inner loop: comparing `s[j]` with `s[j + 1]` and
   * swapping them when the left one is greater carries the largest element
   * of `s[0..j + 1]` to position `j + 1`.
   */
  lemma StepCarriesMax(s: seq<int>, j: nat)
    requires j + 1 < |s| && MaxAt(s, j)
    ensures MaxAt(Step(s, j), j + 1)
  {
    if s[j] > s[j + 1] {
      var t := Swapped(s, j);
      forall k | 0 <= k < j + 1 ensures t[k] <= t[j + 1] {
        if k < j {
          assert t[k] == s[k];
        }
      }
    }
  }

  /** One step of the inner loop keeps the list's elements. */
  lemma StepSameElements(s: seq<int>, j: nat)
    requires j + 1 < |s|
    ensures multiset(Step(s, j)) == multiset(s)
  {
    if s[j] > s[j + 1] {
      SwappedSameElements(s, j);
    }
  }

  /** One step of the inner loop keeps every element tracked. */
  lemma StepTracks(origin: seq<int>, input: seq<int>, s: seq<int>, j: nat)
    requires j + 1 < |s| && Tracks(origin, input, s)
    ensures Tracks(StepOrigin(s, origin, j), input, Step(s, j))
  {
    if s[j] > s[j + 1] {
      SwapTracks(origin, input, s, j);
    }
  }

  /** One step of the inner loop keeps equal elements in input order. */
  lemma StepKeepsStable(origin: seq<int>, input: seq<int>, s: seq<int>, j: nat)
    requires j + 1 < |s| && Tracks(origin, input, s) && Stable(origin, input)
    ensures Stable(StepOrigin(s, origin, j), input)
  {
    if s[j] > s[j + 1] {
      SwapKeepsStable(origin, input, s, j);
    }
  }

  /** One step of the inner loop below `m` keeps the elements from `m` on settled. */
  lemma StepKeepsSettled(s: seq<int>, j: nat, m: nat)
    requires j + 1 < m <= |s| && SettledFrom(s, m)
    ensures SettledFrom(Step(s, j), m)
  {
    if s[j] > s[j + 1] {
      SwapKeepsSettled(s, j, m);
    }
  }

  /**
   * At the end of a pass over `s[0..m]`, its largest element stands at
   * `m - 1`, so one more element is settled.
   */
  lemma PassSettlesOneMore(s: seq<int>, m: nat)
    requires 1 <= m <= |s| && SettledFrom(s, m) && MaxAt(s, m - 1)
    ensures SettledFrom(s, m - 1)
  {
  }

  /**
   * The early exit is sound: when a pass over `s[0..m]` finds every
   * neighbouring pair in order and the rest is settled, the list is sorted.
   */
  lemma NoSwapMeansSorted(s: seq<int>, m: nat)
    requires 1 <= m <= |s| && SettledFrom(s, m) && OrderedUpTo(s, m - 1)
    ensures Sorted(s)
  {
    var p := s[..m];
    assert AdjacentSorted(p) by {
      forall k | 0 <= k < |p| - 1 ensures p[k] <= p[k + 1] {
        assert p[k] == s[k] && p[k + 1] == s[k + 1];
      }
    }
    AdjacentSortedIsSorted(p);
    forall k, l | 0 <= k < l < |s| ensures s[k] <= s[l] {
      if l < m {
        assert s[k] == p[k] && s[l] == p[l];
      }
    }
  }

  /**
   * A pass sets `swapped` exactly when it meets a neighbouring pair out of
   * order, and while it has not swapped, the list and the origins are as
   * they were.
   */
  lemma {:induction false} NoSwapsIffOrdered(s: seq<int>, origin: seq<int>, j: nat)
    requires j < |s| == |origin|
    ensures !SwapsUpTo(s, j) <==> OrderedUpTo(s, j)
    ensures !SwapsUpTo(s, j) ==> PassPrefix(s, j) == s && OriginPrefix(s, origin, j) == origin
  {
    if j > 0 {
      NoSwapsIffOrdered(s, origin, j - 1);
      OrderedUpToStep(s, j - 1);
    }
  }

  /** A pass only rearranges: after any number of its comparisons the list holds the same elements. */
  lemma {:induction false} PassPrefixElements(s: seq<int>, j: nat)
    requires j < |s|
    ensures multiset(PassPrefix(s, j)) == multiset(s)
  {
    if j > 0 {
      PassPrefixElements(s, j - 1);
      StepSameElements(PassPrefix(s, j - 1), j - 1);
    }
  }

  /** The origins carried along by a pass keep track of every element. */
  lemma {:induction false} PassPrefixTracks(s: seq<int>, origin: seq<int>, input: seq<int>, j: nat)
    requires j < |s| && Tracks(origin, input, s)
    ensures Tracks(OriginPrefix(s, origin, j), input, PassPrefix(s, j))
  {
    if j > 0 {
      PassPrefixTracks(s, origin, input, j - 1);
      StepTracks(OriginPrefix(s, origin, j - 1), input, PassPrefix(s, j - 1), j - 1);
    }
  }

  /**
   * A pass keeps equal elements in their input order, because only strictly
   * greater left neighbours are swapped.
   */
  lemma {:induction false} PassPrefixStable(s: seq<int>, origin: seq<int>, input: seq<int>, j: nat)
    requires j < |s| && Tracks(origin, input, s) && Stable(origin, input)
    ensures Stable(OriginPrefix(s, origin, j), input)
  {
    if j > 0 {
      PassPrefixStable(s, origin, input, j - 1);
      PassPrefixTracks(s, origin, input, j - 1);
      StepKeepsStable(OriginPrefix(s, origin, j - 1), input, PassPrefix(s, j - 1), j - 1);
    }
  }

  /** A pass over `s[0..m]` never moves the elements from `m` on: the last elements already in place stay where they are. */
  lemma {:induction false} PassKeepsSuffix(s: seq<int>, m: nat, j: nat)
    requires j < m <= |s|
    ensures PassPrefix(s, j)[m..] == s[m..]
  {
    if j > 0 {
      PassKeepsSuffix(s, m, j - 1);
    }
  }

  /** A pass over `s[0..m]` keeps the elements from `m` on settled. */
  lemma {:induction false} PassPrefixSettled(s: seq<int>, m: nat, j: nat)
    requires j < m <= |s| && SettledFrom(s, m)
    ensures SettledFrom(PassPrefix(s, j), m)
  {
    if j > 0 {
      PassPrefixSettled(s, m, j - 1);
      StepKeepsSettled(PassPrefix(s, j - 1), j - 1, m);
    }
  }

  /** The inner-loop invariant: after `j` comparisons of a pass, the largest of its first `j + 1` elements stands at `j`. */
  lemma {:induction false} PassPrefixCarriesMax(s: seq<int>, j: nat)
    requires j < |s|
    ensures MaxAt(PassPrefix(s, j), j)
  {
    if j > 0 {
      PassPrefixCarriesMax(s, j - 1);
      StepCarriesMax(PassPrefix(s, j - 1), j - 1);
    }
  }

  /** The outer-loop invariant is kept: a whole pass over `s[0..m]` settles the element at `m - 1` too. */
  lemma PassSettlesNext(s: seq<int>, m: nat)
    requires 1 <= m <= |s| && SettledFrom(s, m)
    ensures SettledFrom(PassPrefix(s, m - 1), m - 1)
  {
    PassPrefixSettled(s, m, m - 1);
    PassPrefixCarriesMax(s, m - 1);
    PassSettlesOneMore(PassPrefix(s, m - 1), m);
  }

  /** The early exit is sound: a pass over `s[0..m]` that sets no flag, with the rest settled, has seen a sorted list. */
  lemma EarlyExitSorted(s: seq<int>, m: nat)
    requires 1 <= m <= |s| && SettledFrom(s, m) && !SwapsUpTo(s, m - 1)
    ensures Sorted(s)
  {
    NoSwapsIffOrdered(s, Identity(|s|), m - 1);
    NoSwapMeansSorted(s, m);
  }

  /** A sorted list has no neighbours out of order. */
  lemma SortedIsOrdered(s: seq<int>, j: nat)
    requires j < |s|
    ensures Sorted(s) ==> OrderedUpTo(s, j)
  {
  }

  // ---------------------------------------------------------------------
  // Counting comparisons
  // ---------------------------------------------------------------------

  /**
   * The comparisons made by the first `passes` passes over `n` elements:
   * pass `p` (counting from 0) compares the `n - 1 - p` neighbouring pairs
   * `(0, 1), ..., (n - p - 2, n - p - 1)`. In closed form, the sum of
   * `n - 1, n - 2, ..., n - passes`.
   */
  function PassComparisons(n: nat, passes: nat): nat
    requires passes <= n
  {
    if passes == 0 then 0 else PassComparisons(n, passes - 1) + (n - passes)
  }

  /** The closed form of the count: twice the sum of `n - 1, ..., n - passes` is `passes * (2n - 1 - passes)`. */
  lemma {:induction false} PassComparisonsClosedForm(n: nat, passes: nat)
    requires passes <= n
    ensures 2 * PassComparisons(n, passes) == passes * (2 * n - 1 - passes)
  {
    if passes > 0 {
      PassComparisonsClosedForm(n, passes - 1);
      assert (passes - 1) * (2 * n - passes) + 2 * (n - passes) == passes * (2 * n - 1 - passes);
    }
  }

  /** More passes never make fewer comparisons. */
  lemma {:induction false} PassComparisonsMonotone(n: nat, passes: nat, more: nat)
    requires passes <= more <= n
    ensures PassComparisons(n, passes) <= PassComparisons(n, more)
  {
    if passes < more {
      PassComparisonsMonotone(n, passes, more - 1);
    }
  }

  /**
   * All `n` passes together make n(n-1)/2 comparisons; by monotonicity no
   * run makes more, which is the O(n^2) worst case of the docstring.
   */
  lemma WorstCaseComparisons(n: nat)
    ensures 2 * PassComparisons(n, n) == n * (n - 1)
  {
    PassComparisonsClosedForm(n, n);
  }

  // ---------------------------------------------------------------------
  // The outer loop as functions of the input
  // ---------------------------------------------------------------------

  /**
   * What the outer loop ends with: the list, where its elements came from,
   * and the comparisons made (used with `T := seq<int>`; the type parameter
   * only keeps the proofs about it cheap).
   */
  datatype Outcome<T> = Outcome(list: T, origin: T, comparisons: nat)

  /**
   * The outer loop from pass `i` on (counting from 0), with the list `s`,
   * the origins of its elements and the `count` of comparisons made so far:
   * pass `i` makes the `|s| - i - 1` comparisons of the unsettled prefix,
   * and the loop stops after the first pass that swaps nothing, or after
   * the last pass.
   */
  function SortFrom(s: seq<int>, origin: seq<int>, count: nat, i: nat): Outcome<seq<int>>
    requires i <= |s| == |origin|
    decreases |s| - i
  {
    if i == |s| then Outcome(s, origin, count)
    else if !SwapsUpTo(s, |s| - i - 1) then Outcome(s, origin, count + (|s| - i - 1))
    else SortFrom(PassPrefix(s, |s| - i - 1), OriginPrefix(s, origin, |s| - i - 1), count + (|s| - i - 1), i + 1)
  }

  /**
   * One iteration of the outer loop, pass `i`, which leaves the list `t`,
   * the origins `o` and the flag `swapped`: if it swapped, the loop goes on
   * from pass `i + 1` with what it left; if not, the loop stops there. Either
   * way the pass made `|s| - i - 1` comparisons.
   */
  lemma PassAdvances(s: seq<int>, origin: seq<int>, count: nat, i: nat, t: seq<int>, o: seq<int>, swapped: bool)
    requires i < |s| == |origin|
    requires t == PassPrefix(s, |s| - i - 1) && o == OriginPrefix(s, origin, |s| - i - 1)
    requires swapped == SwapsUpTo(s, |s| - i - 1)
    ensures i + 1 <= |t| == |o| == |s|
    ensures swapped ==> SortFrom(t, o, count + (|s| - i - 1), i + 1) == SortFrom(s, origin, count, i)
    ensures !swapped ==> SortFrom(s, origin, count, i) == Outcome(t, o, count + (|s| - i - 1))
  {
    NoSwapsIffOrdered(s, origin, |s| - i - 1);
  }

  /** `bubble_sort` on the list `s`: lists of length at most 1 are returned at once, with no comparison. */
  function BubbleSortRun(s: seq<int>): Outcome<seq<int>> {
    if |s| <= 1 then Outcome(s, Identity(|s|), 0) else SortFrom(s, Identity(|s|), 0, 0)
  }

  /** What `bubble_sort` leaves in the list. */
  function BubbleSorted(s: seq<int>): seq<int> {
    BubbleSortRun(s).list
  }

  /** The passes from `i` on only rearrange: the list they leave holds the elements of `input` when `s` does. */
  lemma {:induction false} SortFromElements(s: seq<int>, origin: seq<int>, count: nat, input: seq<int>, i: nat)
    requires i <= |s| == |origin| && multiset(s) == multiset(input)
    ensures multiset(SortFrom(s, origin, count, i).list) == multiset(input)
    decreases |s| - i
  {
    if i < |s| && SwapsUpTo(s, |s| - i - 1) {
      var m := |s| - i;
      var t := PassPrefix(s, m - 1);
      assert multiset(t) == multiset(input) by {
        PassPrefixElements(s, m - 1);
      }
      SortFromElements(t, OriginPrefix(s, origin, m - 1), count + (m - 1), input, i + 1);
    }
  }

  /** The passes from `i` on keep track of every element of `input`. */
  lemma {:induction false} SortFromTracks(s: seq<int>, origin: seq<int>, count: nat, input: seq<int>, i: nat)
    requires i <= |s| == |origin| && Tracks(origin, input, s)
    ensures Tracks(SortFrom(s, origin, count, i).origin, input, SortFrom(s, origin, count, i).list)
    decreases |s| - i
  {
    if i < |s| && SwapsUpTo(s, |s| - i - 1) {
      var m := |s| - i;
      PassPrefixTracks(s, origin, input, m - 1);
      SortFromTracks(PassPrefix(s, m - 1), OriginPrefix(s, origin, m - 1), count + (m - 1), input, i + 1);
    }
  }

  /** The passes from `i` on keep equal elements of `input` in their input order. */
  lemma {:induction false} SortFromStable(s: seq<int>, origin: seq<int>, count: nat, input: seq<int>, i: nat)
    requires i <= |s| == |origin| && Tracks(origin, input, s) && Stable(origin, input)
    ensures Stable(SortFrom(s, origin, count, i).origin, input)
    decreases |s| - i
  {
    if i < |s| && SwapsUpTo(s, |s| - i - 1) {
      var m := |s| - i;
      PassPrefixTracks(s, origin, input, m - 1);
      PassPrefixStable(s, origin, input, m - 1);
      SortFromStable(PassPrefix(s, m - 1), OriginPrefix(s, origin, m - 1), count + (m - 1), input, i + 1);
    }
  }

  /**
   * The outer-loop invariant carried to the end: when the last `i` elements
   * are settled, each further pass settles one more, and a pass that swaps
   * nothing has seen a sorted list, so the passes from `i` on leave a
   * sorted list.
   */
  lemma {:induction false} SortFromSorted(s: seq<int>, origin: seq<int>, count: nat, i: nat)
    requires i <= |s| == |origin|
    requires SettledFrom(s, |s| - i)
    ensures Sorted(SortFrom(s, origin, count, i).list)
    decreases |s| - i
  {
    if i < |s| {
      var m := |s| - i;
      if !SwapsUpTo(s, m - 1) {
        EarlyExitSorted(s, m);
      } else {
        PassSettlesNext(s, m);
        SortFromSorted(PassPrefix(s, m - 1), OriginPrefix(s, origin, m - 1), count + (m - 1), i + 1);
      }
    }
  }

  /** The passes from `i` on keep the length of the list. */
  lemma {:induction false} SortFromLength(s: seq<int>, origin: seq<int>, count: nat, i: nat)
    requires i <= |s| == |origin|
    ensures |SortFrom(s, origin, count, i).list| == |s|
    decreases |s| - i
  {
    if i < |s| && SwapsUpTo(s, |s| - i - 1) {
      var m := |s| - i;
      SortFromLength(PassPrefix(s, m - 1), OriginPrefix(s, origin, m - 1), count + (m - 1), i + 1);
    }
  }

  /**
   * The other half of the outer-loop invariant: once `i` passes are done,
   * the last `i` elements hold their final values, since no later pass
   * moves them.
   */
  lemma {:induction false} SortFromKeepsSuffix(s: seq<int>, origin: seq<int>, count: nat, i: nat)
    requires i <= |s| == |origin|
    ensures |SortFrom(s, origin, count, i).list| == |s|
    ensures forall k :: |s| - i <= k < |s| ==> SortFrom(s, origin, count, i).list[k] == s[k]
    decreases |s| - i
  {
    SortFromLength(s, origin, count, i);
    if i < |s| && SwapsUpTo(s, |s| - i - 1) {
      var m := |s| - i;
      var t := PassPrefix(s, m - 1);
      SortFromKeepsSuffix(t, OriginPrefix(s, origin, m - 1), count + (m - 1), i + 1);
      PassKeepsSuffix(s, m, m - 1);
      forall k | m <= k < |s| ensures t[k] == s[k] {
        assert t[k] == t[m..][k - m];
      }
    }
  }

  /**
   * `bubble_sort` sorts: its result is in non-decreasing order, holds the
   * input's elements, and its origins map it back to the input keeping
   * equal elements in their input order (the sort is stable).
   */
  lemma BubbleSortCorrect(s: seq<int>)
    ensures Sorted(BubbleSorted(s))
    ensures multiset(BubbleSorted(s)) == multiset(s)
    ensures Tracks(BubbleSortRun(s).origin, s, BubbleSorted(s)) && Stable(BubbleSortRun(s).origin, s)
  {
    IdentityTracks(s);
    if |s| > 1 {
      SortFromElements(s, Identity(|s|), 0, s, 0);
      SortFromTracks(s, Identity(|s|), 0, s, 0);
      SortFromStable(s, Identity(|s|), 0, s, 0);
      SortFromSorted(s, Identity(|s|), 0, 0);
    }
  }

  /** Sorting twice changes nothing more, since a sorted list is left as it is. */
  lemma BubbleSortIdempotent(s: seq<int>)
    ensures BubbleSorted(BubbleSorted(s)) == BubbleSorted(s)
  {
    BubbleSortCorrect(s);
    SortedInputUnchanged(BubbleSorted(s));
  }

  /**
   * The best case: on a sorted list the first pass swaps nothing, so the
   * list and its origins are unchanged after `n - 1` comparisons.
   */
  lemma SortedInputUnchanged(s: seq<int>)
    requires Sorted(s)
    ensures BubbleSortRun(s) == Outcome(s, Identity(|s|), if |s| == 0 then 0 else |s| - 1)
  {
    if |s| > 1 {
      SortedIsOrdered(s, |s| - 1);
      NoSwapsIffOrdered(s, Identity(|s|), |s| - 1);
    }
  }

  /** The first pass swaps nothing exactly when the list is already sorted. */
  lemma FirstPassSwapsIffUnsorted(s: seq<int>)
    requires |s| > 1
    ensures SwapsUpTo(s, |s| - 1) <==> !Sorted(s)
  {
    NoSwapsIffOrdered(s, Identity(|s|), |s| - 1);
    AdjacentSortedIsSorted(s);
    assert OrderedUpTo(s, |s| - 1) <==> AdjacentSorted(s);
  }

  /** The passes from `i` on make at most the comparisons that the passes `i, ..., n - 1` can make. */
  lemma {:induction false} SortFromComparisonsBound(s: seq<int>, origin: seq<int>, count: nat, i: nat)
    requires i <= |s| == |origin|
    ensures PassComparisons(|s|, i) + SortFrom(s, origin, count, i).comparisons <= count + PassComparisons(|s|, |s|)
    decreases |s| - i
  {
    if i < |s| {
      var m := |s| - i;
      if SwapsUpTo(s, m - 1) {
        SortFromComparisonsBound(PassPrefix(s, m - 1), OriginPrefix(s, origin, m - 1), count + (m - 1), i + 1);
      } else {
        PassComparisonsMonotone(|s|, i + 1, |s|);
      }
    }
  }

  /** The worst case: `bubble_sort` makes at most n(n-1)/2 comparisons. */
  lemma BubbleSortComparisonsBound(s: seq<int>)
    ensures 2 * BubbleSortRun(s).comparisons <= |s| * (|s| - 1)
  {
    WorstCaseComparisons(|s|);
    if |s| > 1 {
      SortFromComparisonsBound(s, Identity(|s|), 0, 0);
    }
  }

  // ---------------------------------------------------------------------
  // The sort
  // ---------------------------------------------------------------------

  /**
   * One pass of the outer loop: the inner loop, with `j` running from 0 up
   * to `m - 2` over the unsettled prefix `a[0..m]`, `m = n - i`, swapping
   * every neighbouring pair whose left element is strictly greater.
   *
   * `origin` is carried along with the elements; `comparisons` counts the
   * `>` tests.
   */
  method BubblePass(a: array<int>, m: nat, ghost origin0: seq<int>)
    returns (swapped: bool, ghost origin: seq<int>, ghost comparisons: nat)
    requires 1 <= m <= a.Length == |origin0|
    modifies a
    ensures a[..] == PassPrefix(old(a[..]), m - 1)
    ensures origin == OriginPrefix(old(a[..]), origin0, m - 1)
    ensures swapped == SwapsUpTo(old(a[..]), m - 1)
    ensures comparisons == m - 1
  {
    swapped := false;
    origin := origin0;
    comparisons := 0;
    var j := 0;
    while j < m - 1
      invariant 0 <= j <= m - 1
      invariant a[..] == PassPrefix(old(a[..]), j)
      invariant origin == OriginPrefix(old(a[..]), origin0, j)
      invariant swapped == SwapsUpTo(old(a[..]), j)
      invariant comparisons == j
    {
      comparisons := comparisons + 1;
      if a[j] > a[j + 1] {
        SwapAdjacent(a, j);
        origin := Swapped(origin, j);
        swapped := true;
      }
      j := j + 1;
    }
  }

  /**
   * `bubble_sort`: sorts `a` in place and returns the same array.
   *
   * `comparisons` counts the tests of whether `a[j]` exceeds `a[j + 1]`;
   * `origin[k]` is the input position of the element that ends at `k`.
   */
  method BubbleSort(a: array<int>) returns (r: array<int>, ghost comparisons: nat, ghost origin: seq<int>)
    modifies a
    ensures r == a
    ensures Outcome(a[..], origin, comparisons) == BubbleSortRun(old(a[..]))
  {
    var n := a.Length;
    comparisons := 0;
    origin := Identity(n);
    if n <= 1 {
      return a, comparisons, origin;
    }
    ghost var input := a[..];
    var i := 0;
    while i < n
      invariant 0 <= i <= n && |origin| == n
      invariant SortFrom(a[..], origin, comparisons, i) == BubbleSortRun(input)
    {
      ghost var before, originBefore, countBefore := a[..], origin, comparisons;
      var swapped;
      ghost var passComparisons;
      swapped, origin, passComparisons := BubblePass(a, n - i, origin);
      comparisons := comparisons + passComparisons;
      PassAdvances(before, originBefore, countBefore, i, a[..], origin, swapped);
      if !swapped {
        break;
      }
      i := i + 1;
    }
    return a, comparisons, origin;
  }

  // ---------------------------------------------------------------------
  // The examples of the docstring
  // ---------------------------------------------------------------------

  /** The list of the docstring's first example, and what sorting it prints. */
  const DocstringList: seq<int> := [64, 34, 25, 12, 22, 11, 90]
  const DocstringListSorted: seq<int> := [11, 12, 22, 25, 34, 64, 90]

  /** The docstring's list and its sorted form hold the same elements. */
  lemma DocstringListElements()
    ensures multiset(DocstringList) == multiset(DocstringListSorted)
  {
    calc {
      multiset(DocstringList);
      multiset{64, 34, 25, 12, 22, 11, 90};
      multiset{11, 12, 22, 25, 34, 64, 90};
      multiset(DocstringListSorted);
    }
  }

  /** The only sorted rearrangement of the docstring's list is the one it prints. */
  lemma SortedOfDocstringList(s: seq<int>)
    requires Sorted(s)
    requires multiset(s) == multiset(DocstringList)
    ensures s == DocstringListSorted
  {
    DocstringListSortedIsSorted();
    DocstringListElements();
    SortedPermutationUnique(s, DocstringListSorted);
  }

  /** The list the docstring prints is in order. */
  lemma DocstringListSortedIsSorted()
    ensures Sorted(DocstringListSorted)
  {
    var t := DocstringListSorted;
    assert AdjacentSorted(t);
    AdjacentSortedIsSorted(t);
  }

  /** `bubble_sort([64, 34, 25, 12, 22, 11, 90])` leaves `[11, 12, 22, 25, 34, 64, 90]`. */
  lemma DocstringUnsortedExample()
    ensures BubbleSorted(DocstringList) == DocstringListSorted
  {
    BubbleSortCorrect(DocstringList);
    SortedOfDocstringList(BubbleSorted(DocstringList));
  }

  /** `bubble_sort([])` leaves `[]`, and `bubble_sort([1, 2, 3])` leaves `[1, 2, 3]` after one pass of two comparisons. */
  lemma DocstringSortedExamples()
    ensures BubbleSorted([]) == [] && BubbleSortRun([]).comparisons == 0
    ensures BubbleSorted([1, 2, 3]) == [1, 2, 3] && BubbleSortRun([1, 2, 3]).comparisons == 2
  {
    SortedInputUnchanged([1, 2, 3]);
  }

  /** The first example on an array: the list is sorted in place. */
  method ExampleUnsortedList() {
    var myList := new int[] [64, 34, 25, 12, 22, 11, 90];
    assert myList[..] == DocstringList;
    var r, _, _ := BubbleSort(myList);
    DocstringUnsortedExample();
    assert r[..] == [11, 12, 22, 25, 34, 64, 90];
  }

  /** The second and third examples on arrays. */
  method ExampleEmptyAndSortedList() {
    var emptyList := new int[0];
    assert emptyList[..] == [];
    var r, _, _ := BubbleSort(emptyList);
    var sortedList := new int[] [1, 2, 3];
    assert sortedList[..] == [1, 2, 3];
    var r', comparisons, _ := BubbleSort(sortedList);
    DocstringSortedExamples();
    assert r[..] == [] && r'[..] == [1, 2, 3];
    assert comparisons == 2;
  }
}
