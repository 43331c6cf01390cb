/** The divide-and-conquer visualizer's trace generator: a top-down merge sort
    over a sample array that records one "Divide" step and one "Merge" step per
    sub-array of length two or more, framed by an initial and a final step. */
module DivideConquer {
  import opened Text

  /** One snapshot: the array as displayed, the highlighted indices, the
      caption and the recursion depth. */
  datatype Step = Step(values: seq<int>, highlight: seq<int>, description: string, level: nat)

  /** What one `mergeSort` call gives back: the sorted slice and the steps the
      call (and its sub-calls) pushed, in order. */
  datatype SortRun = SortRun(sorted: seq<int>, steps: seq<Step>)

  /** The sample array of the visualizer. */
  const SampleArray: seq<int> := [38, 27, 43, 3, 9, 82, 10]

  ghost predicate Sorted(s: seq<int>) {
    forall i, j :: 0 <= i < j < |s| ==> s[i] <= s[j]
  }

  /** The indices `start, start+1, ..., start+len-1`. */
  function Range(start: int, len: nat): (r: seq<int>)
    ensures |r| == len
    ensures forall k :: 0 <= k < len ==> r[k] == start + k
    decreases len
  {
    if len == 0 then [] else [start] + Range(start + 1, len - 1)
  }

  /** `base` with the window starting at `start` replaced by `part`; indices of
      the window that fall outside `base` are dropped. */
  function Overlay(base: seq<int>, start: int, part: seq<int>): (r: seq<int>)
    ensures |r| == |base|
    ensures forall idx :: 0 <= idx < |base| && start <= idx < start + |part| ==> r[idx] == part[idx - start]
    ensures forall idx :: 0 <= idx < |base| && !(start <= idx < start + |part|) ==> r[idx] == base[idx]
  {
    if base == [] then []
    else
      var idx := |base| - 1;
      Overlay(base[..idx], start, part) + [if start <= idx < start + |part| then part[idx - start] else base[idx]]
  }

  /** The reference merge: repeatedly take the smaller head, the left one on a
      tie, and append what is left of the other side. */
  function Merged(left: seq<int>, right: seq<int>): seq<int>
    decreases |left| + |right|
  {
    if left == [] then right
    else if right == [] then left
    else if left[0] <= right[0] then [left[0]] + Merged(left[1..], right)
    else [right[0]] + Merged(left, right[1..])
  }

  /** Which side each element of `Merged(left, right)` was taken from (true for
      the left half). */
  function Origins(left: seq<int>, right: seq<int>): seq<bool>
    decreases |left| + |right|
  {
    if left == [] then seq(|right|, k => false)
    else if right == [] then seq(|left|, k => true)
    else if left[0] <= right[0] then [true] + Origins(left[1..], right)
    else [false] + Origins(left, right[1..])
  }

  /** The elements of `s` whose mark in `marks` is `side`, in order. */
  function Pick(s: seq<int>, marks: seq<bool>, side: bool): seq<int>
    requires |marks| == |s|
  {
    if s == [] then []
    else (if marks[0] == side then [s[0]] else []) + Pick(s[1..], marks[1..], side)
  }

  /** `merge`'s loop: two indices walk `left` and `right`, the smaller head
      (the left one on a tie) is pushed onto `result`, and the remainders of
      both halves are appended once one side runs out. */
  method Merge(left: seq<int>, right: seq<int>) returns (merged: seq<int>)
    ensures merged == Merged(left, right)
  {
    var result: seq<int> := [];
    var i, j := 0, 0;
    while i < |left| && j < |right|
      invariant 0 <= i <= |left| && 0 <= j <= |right|
      invariant result + Merged(left[i..], right[j..]) == Merged(left, right)
      decreases |left| - i + |right| - j
    {
      assert left[i..][1..] == left[i + 1..] && right[j..][1..] == right[j + 1..];
      if left[i] <= right[j] {
        result := result + [left[i]];
        i := i + 1;
      } else {
        result := result + [right[j]];
        j := j + 1;
      }
    }
    merged := result + left[i..] + right[j..];
  }

  lemma {:induction false} MergedPermutation(left: seq<int>, right: seq<int>)
    ensures |Merged(left, right)| == |left| + |right|
    ensures multiset(Merged(left, right)) == multiset(left) + multiset(right)
    decreases |left| + |right|
  {
    if left == [] || right == [] {
    } else if left[0] <= right[0] {
      MergedPermutation(left[1..], right);
      assert left == [left[0]] + left[1..];
    } else {
      MergedPermutation(left, right[1..]);
      assert right == [right[0]] + right[1..];
    }
  }

  lemma SortedHeadLeast(s: seq<int>, x: int)
    requires Sorted(s) && x in s
    ensures s[0] <= x
  {
    var i :| 0 <= i < |s| && s[i] == x;
    assert i == 0 || s[0] <= s[i];
  }

  lemma SortedCons(x: int, s: seq<int>)
    requires Sorted(s)
    requires forall k :: 0 <= k < |s| ==> x <= s[k]
    ensures Sorted([x] + s)
  {
    var t := [x] + s;
    forall i, j | 0 <= i < j < |t| ensures t[i] <= t[j] {
      assert t[j] == s[j - 1];
      if i > 0 { assert t[i] == s[i - 1]; }
    }
  }

  lemma {:induction false} MergedSorted(left: seq<int>, right: seq<int>)
    requires Sorted(left) && Sorted(right)
    ensures Sorted(Merged(left, right))
    decreases |left| + |right|
  {
    if left == [] || right == [] {
    } else if left[0] <= right[0] {
      var rest := Merged(left[1..], right);
      MergedSorted(left[1..], right);
      MergedPermutation(left[1..], right);
      forall k | 0 <= k < |rest| ensures left[0] <= rest[k] {
        assert rest[k] in multiset(rest);
        if rest[k] in left[1..] {
          assert rest[k] in left;
          SortedHeadLeast(left, rest[k]);
        } else {
          assert rest[k] in right;
          SortedHeadLeast(right, rest[k]);
        }
      }
      SortedCons(left[0], rest);
    } else {
      var rest := Merged(left, right[1..]);
      MergedSorted(left, right[1..]);
      MergedPermutation(left, right[1..]);
      forall k | 0 <= k < |rest| ensures right[0] <= rest[k] {
        assert rest[k] in multiset(rest);
        if rest[k] in left {
          SortedHeadLeast(left, rest[k]);
        } else {
          assert rest[k] in right[1..];
          assert rest[k] in right;
          SortedHeadLeast(right, rest[k]);
        }
      }
      SortedCons(right[0], rest);
    }
  }

  lemma {:induction false} PickConstant(s: seq<int>, side: bool)
    ensures Pick(s, seq(|s|, k => side), side) == s
    ensures Pick(s, seq(|s|, k => side), !side) == []
  {
    if s != [] {
      PickConstant(s[1..], side);
      assert seq(|s|, k => side)[1..] == seq(|s[1..]|, k => side);
    }
  }

  /** Read through `Origins`, the merge interleaves the two halves, each in
      its own order. */
  lemma {:induction false} MergedInterleaves(left: seq<int>, right: seq<int>)
    ensures |Origins(left, right)| == |Merged(left, right)|
    ensures Pick(Merged(left, right), Origins(left, right), true) == left
    ensures Pick(Merged(left, right), Origins(left, right), false) == right
    decreases |left| + |right|
  {
    if left == [] {
      PickConstant(right, false);
    } else if right == [] {
      PickConstant(left, true);
    } else if left[0] <= right[0] {
      MergedInterleaves(left[1..], right);
      assert left == [left[0]] + left[1..];
    } else {
      MergedInterleaves(left, right[1..]);
      assert right == [right[0]] + right[1..];
    }
  }

  /** An element marked as taken from the left half is an element of it. */
  lemma {:induction false} OriginsFromLeft(left: seq<int>, right: seq<int>, k: nat)
    requires k < |Merged(left, right)| && k < |Origins(left, right)|
    requires Origins(left, right)[k]
    ensures Merged(left, right)[k] in left
    decreases |left| + |right|
  {
    if left == [] {
    } else if right == [] {
    } else if left[0] <= right[0] {
      if k > 0 {
        OriginsFromLeft(left[1..], right, k - 1);
      }
    } else {
      OriginsFromLeft(left, right[1..], k - 1);
    }
  }

  /** The merge is stable: an element of the right half is placed before an
      element of the left half only when it is strictly smaller, so of two
      equal elements the one from the left half comes first. */
  lemma {:induction false} MergedStable(left: seq<int>, right: seq<int>, p: nat, q: nat)
    requires Sorted(left)
    requires p < q < |Merged(left, right)| && q < |Origins(left, right)|
    requires !Origins(left, right)[p] && Origins(left, right)[q]
    ensures Merged(left, right)[p] < Merged(left, right)[q]
    decreases |left| + |right|
  {
    if left == [] {
    } else if right == [] {
    } else if left[0] <= right[0] {
      assert p > 0;
      MergedStable(left[1..], right, p - 1, q - 1);
    } else if p == 0 {
      OriginsFromLeft(left, right[1..], q - 1);
      SortedHeadLeast(left, Merged(left, right)[q]);
    } else {
      MergedStable(left, right[1..], p - 1, q - 1);
    }
  }

  /** The step pushed when a call splits the slice at `start` of length `len`
      at offset `mid`: the untouched sample array, the slice's indices. */
  function DivideStep(initial: seq<int>, start: nat, len: nat, mid: nat, level: nat): Step {
    Step(initial, Range(start, len), "Divide: Splitting array at position " + NatToString(mid), level)
  }

  /** The step pushed by `merge`: the sample array with the merged slice
      written over the window at `start`, and that window highlighted. */
  function MergeStep(initial: seq<int>, start: nat, merged: seq<int>, level: nat): Step {
    Step(Overlay(initial, start, merged), Range(start, |merged|), "Merge: Combining sorted subarrays", level)
  }



  /** A caption that announces a split. */
  predicate IsDivide(s: Step) {
    |s.description| >= 7 && s.description[..7] == "Divide:"
  }

  /** A step whose description does not start with `D` is not a Divide step. */
  lemma NotDivide(s: Step)
    requires |s.description| >= 1 && s.description[0] != 'D'
    ensures !IsDivide(s)
  {
    if |s.description| >= 7 {
      assert s.description[..7][0] == s.description[0];
    }
  }

  /** What every step pushed by the call on the window `[start, start+len)`
      at depth `level` satisfies: the array shown has the sample's length and
      agrees with the sample outside the window (and everywhere for a Divide
      step), the highlight stays inside the window, and the step is recorded
      at the call's depth or deeper. */
  ghost predicate InWindow(initial: seq<int>, start: int, len: int, level: nat, s: Step) {
    && |s.values| == |initial|
    && (forall idx :: 0 <= idx < |initial| && !(start <= idx < start + len) ==> s.values[idx] == initial[idx])
    && (forall k :: 0 <= k < |s.highlight| ==> start <= s.highlight[k] < start + len)
    && s.level >= level
    && (IsDivide(s) ==> s.values == initial)
  }

  /** A step inside a sub-window at a deeper level is inside the window. */
  lemma InWindowWiden(initial: seq<int>, start: int, len: int, level: nat, start': int, len': int, level': nat, s: Step)
    requires InWindow(initial, start', len', level', s)
    requires start <= start' && start' + len' <= start + len && level <= level'
    ensures InWindow(initial, start, len, level, s)
  {
  }

  /** A Divide step announces a split, shows the sample array unchanged,
      highlights exactly the slice's indices and is recorded at the call's
      depth; so it lies in the call's window. */
  lemma DivideStepInWindow(initial: seq<int>, start: nat, len: nat, mid: nat, level: nat)
    ensures var s := DivideStep(initial, start, len, mid, level);
      && IsDivide(s) && s.values == initial && s.highlight == Range(start, len) && s.level == level
      && InWindow(initial, start, len, level, s)
  {
    var s := DivideStep(initial, start, len, mid, level);
    assert s.description[..7] == "Divide:";
  }

  /** A Merge step is not a Divide step; it shows the merged run over the
      window and the sample array elsewhere, highlights exactly the window's
      indices and is recorded at the call's depth; so it lies in the call's
      window. */
  lemma MergeStepInWindow(initial: seq<int>, start: nat, merged: seq<int>, level: nat)
    ensures var s := MergeStep(initial, start, merged, level);
      && !IsDivide(s) && s.highlight == Range(start, |merged|) && s.level == level
      && (forall idx :: 0 <= idx < |initial| && start <= idx < start + |merged| ==> s.values[idx] == merged[idx - start])
      && InWindow(initial, start, |merged|, level, s)
  {
    NotDivide(MergeStep(initial, start, merged, level));
  }

  /** The steps of a call stay in its window when its own two steps do and
      the sub-calls' steps stay in the two halves, one level deeper. */
  lemma StepsInWindow(initial: seq<int>, start: nat, len: nat, mid: nat, rest: nat, level: nat,
                      divide: Step, ls: seq<Step>, rs: seq<Step>, merge: Step)
    requires mid + rest == len
    requires InWindow(initial, start, len, level, divide) && InWindow(initial, start, len, level, merge)
    requires forall k :: 0 <= k < |ls| ==> InWindow(initial, start, mid, level + 1, ls[k])
    requires forall k :: 0 <= k < |rs| ==> InWindow(initial, start + mid, rest, level + 1, rs[k])
    ensures var steps := [divide] + ls + rs + [merge];
      forall k :: 0 <= k < |steps| ==> InWindow(initial, start, len, level, steps[k])
  {
    var steps := [divide] + ls + rs + [merge];
    forall k | 0 <= k < |steps| ensures InWindow(initial, start, len, level, steps[k]) {
      if 1 <= k <= |ls| {
        assert steps[k] == ls[k - 1];
        InWindowWiden(initial, start, len, level, start, mid, level + 1, steps[k]);
      } else if |ls| < k <= |ls| + |rs| {
        assert steps[k] == rs[k - 1 - |ls|];
        InWindowWiden(initial, start, len, level, start + mid, rest, level + 1, steps[k]);
      }
    }
  }

  /** `mergeSort(arr, start, level)`: slices of length at most one come back
      as they are; longer ones are split at half their length, both halves are
      sorted recursively and the results merged. Along the way the call pushes
      its Divide step, the steps of both sub-calls and its Merge step.

      The result is a sorted permutation of the slice. A slice of at most one
      element comes back unchanged with no step; a slice of `n >= 1` elements
      pushes `2(n-1)` steps. A longer slice's first step is its own Divide step
      (the sample array untouched, the whole window `[start, start+n)`
      highlighted, at the call's own depth) and its last step is its own Merge
      step, so all the sub-calls' steps lie between the two. */
  function MergeSort(initial: seq<int>, arr: seq<int>, start: nat, level: nat): (r: SortRun)
    ensures |r.sorted| == |arr|
    ensures multiset(r.sorted) == multiset(arr)
    ensures Sorted(r.sorted)
    ensures |arr| <= 1 ==> r == SortRun(arr, [])
    ensures |arr| >= 1 ==> |r.steps| == 2 * (|arr| - 1)
    ensures |arr| >= 2 ==>
      && r.steps[0] == DivideStep(initial, start, |arr|, |arr| / 2, level)
      && r.steps[0].values == initial && r.steps[0].highlight == Range(start, |arr|)
      && r.steps[0].level == level
      && r.steps[|r.steps| - 1] == MergeStep(initial, start, r.sorted, level)
    ensures forall k :: 0 <= k < |r.steps| ==> InWindow(initial, start, |arr|, level, r.steps[k])
    decreases |arr|
  {
    if |arr| <= 1 then SortRun(arr, [])
    else
      var mid := |arr| / 2;
      assert arr == arr[..mid] + arr[mid..];
      var left := MergeSort(initial, arr[..mid], start, level + 1);
      var right := MergeSort(initial, arr[mid..], start + mid, level + 1);
      MergedPermutation(left.sorted, right.sorted);
      MergedSorted(left.sorted, right.sorted);
      var merged := Merged(left.sorted, right.sorted);
      var divide := DivideStep(initial, start, |arr|, mid, level);
      var merge := MergeStep(initial, start, merged, level);
      DivideStepInWindow(initial, start, |arr|, mid, level);
      MergeStepInWindow(initial, start, merged, level);
      StepsInWindow(initial, start, |arr|, |arr[..mid]|, |arr[mid..]|, level, divide, left.steps, right.steps, merge);
      SortRun(merged, [divide] + left.steps + right.steps + [merge])
  }

  /** The whole trace of `generateSteps`: the unsorted array, every step of
      the recursive sort, then the sorted array. It has `2n` steps for
      `n >= 1` elements (two for an empty array); it opens on the unsorted
      array and ends on its sorted permutation, both with nothing
      highlighted; every step shows an array of the input's length, and every
      Divide step shows the input unmodified. */
  function Trace(initial: seq<int>): (t: seq<Step>)
    ensures |t| == (if |initial| == 0 then 2 else 2 * |initial|)
    ensures t[0] == Step(initial, [], "Initial unsorted array", 0)
    ensures t[|t| - 1].highlight == [] && t[|t| - 1].description == "Array is now fully sorted!"
    ensures Sorted(t[|t| - 1].values) && multiset(t[|t| - 1].values) == multiset(initial)
    ensures forall k :: 0 <= k < |t| ==> |t[k].values| == |initial|
    ensures forall k :: 0 <= k < |t| && IsDivide(t[k]) ==> t[k].values == initial
  {
    var r := MergeSort(initial, initial, 0, 0);
    var first := Step(initial, [], "Initial unsorted array", 0);
    var lastValues := if r.steps == [] then initial else r.steps[|r.steps| - 1].values;
    var last := Step(lastValues, [], "Array is now fully sorted!", 0);
    assert Sorted(lastValues) && multiset(lastValues) == multiset(initial) by {
      if |initial| >= 2 {
        assert lastValues == Overlay(initial, 0, r.sorted);
        assert Overlay(initial, 0, r.sorted) == r.sorted;
      }
    }
    NotDivide(last);
    assert |lastValues| == |initial| by {
      if r.steps != [] {
        assert InWindow(initial, 0, |initial|, 0, r.steps[|r.steps| - 1]);
      }
    }
    TraceSteps(initial, first, r.steps, last);
    [first] + r.steps + [last]
  }

  /** The window facts of the sort's steps carry over to the whole trace. */
  lemma TraceSteps(initial: seq<int>, first: Step, steps: seq<Step>, last: Step)
    requires first.values == initial && |last.values| == |initial| && !IsDivide(last)
    requires forall k :: 0 <= k < |steps| ==> InWindow(initial, 0, |initial|, 0, steps[k])
    ensures var t := [first] + steps + [last];
      && (forall k :: 0 <= k < |t| ==> |t[k].values| == |initial|)
      && (forall k :: 0 <= k < |t| && IsDivide(t[k]) ==> t[k].values == initial)
  {
    var t := [first] + steps + [last];
    forall k | 0 <= k < |t|
      ensures |t[k].values| == |initial|
      ensures IsDivide(t[k]) ==> t[k].values == initial
    {
      if 1 <= k <= |steps| {
        assert t[k] == steps[k - 1];
      }
    }
  }

  /** Two sorted sequences holding the same elements are equal. */
  lemma {:induction false} SortedUnique(a: seq<int>, b: seq<int>)
    requires Sorted(a) && Sorted(b) && multiset(a) == multiset(b)
    ensures a == b
  {
    if a != [] {
      assert a == [a[0]] + a[1..];
      assert b == [b[0]] + b[1..];
      assert a[0] in multiset(b) && b[0] in multiset(a);
      assert a[0] == b[0];
      assert multiset(a[1..]) == multiset(a) - multiset{a[0]};
      assert multiset(b[1..]) == multiset(b) - multiset{b[0]};
      SortedUnique(a[1..], b[1..]);
    } else {
      assert |b| == |multiset(b)|;
    }
  }

  /** The final step of a trace shows the one sorted arrangement of the
      input's elements. */
  lemma TraceEndsSorted(initial: seq<int>, listing: seq<int>)
    requires Sorted(listing) && multiset(listing) == multiset(initial)
    ensures Trace(initial)[|Trace(initial)| - 1].values == listing
  {
    var t := Trace(initial);
    SortedUnique(t[|t| - 1].values, listing);
  }

  /** The sample's sorted listing is sorted. */
  lemma ListingSorted(listing: seq<int>)
    requires listing == [3, 9, 10, 27, 38, 43, 82]
    ensures Sorted(listing)
  {
    assert listing[0] <= listing[1] <= listing[2] <= listing[3] <= listing[4] <= listing[5] <= listing[6];
  }

  /** The sample and its sorted listing hold the same elements. */
  lemma ListingElements(sample: seq<int>, listing: seq<int>)
    requires sample == SampleArray && listing == [3, 9, 10, 27, 38, 43, 82]
    ensures multiset(listing) == multiset(sample)
  {
    assert multiset(sample) == multiset{38, 27, 43, 3, 9, 82, 10};
    assert multiset{38, 27, 43, 3, 9, 82, 10} == multiset{3, 9, 10, 27, 38, 43, 82};
    assert multiset(listing) == multiset{3, 9, 10, 27, 38, 43, 82};
  }

  /** On the visualizer's sample `[38, 27, 43, 3, 9, 82, 10]` the trace has
      fourteen steps and its final step shows `[3, 9, 10, 27, 38, 43, 82]`. */
  lemma SampleTrace(sample: seq<int>)
    requires sample == SampleArray
    ensures |Trace(sample)| == 14
    ensures Trace(sample)[13].values == [3, 9, 10, 27, 38, 43, 82]
  {
    var listing := [3, 9, 10, 27, 38, 43, 82];
    ListingSorted(listing);
    ListingElements(sample, listing);
    TraceEndsSorted(sample, listing);
  }
}
