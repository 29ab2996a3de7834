/**
 * `calculateMedian`: sort a copy of the numbers ascending, then take the
 * middle element (odd count) or the average of the two middle elements (even
 * count). Numbers are exact reals, so the even-case average is exact.
 *
 * JavaScript's sort algorithm is unspecified; `SortAscending` is one sort and
 * `SortedPermutationUnique` shows that every sort yields the same sequence,
 * so the median does not depend on which sort is used.
 */
module Median {
  import opened Wrappers

  predicate Sorted(s: seq<real>)
  {
    forall i, j :: 0 <= i < j < |s| ==> s[i] <= s[j]
  }

  /** A sorted sequence stays sorted when a value no larger than its head goes in front. */
  lemma SortedCons(x: real, t: seq<real>)
    requires Sorted(t)
    requires t == [] || x <= t[0]
    ensures Sorted([x] + t)
  {
  }

  lemma SortedTail(s: seq<real>)
    requires Sorted(s) && s != []
    ensures Sorted(s[1..])
  {
  }

  /** Insert `x` into a sorted sequence, keeping it sorted. */
  function Insert(x: real, s: seq<real>): (r: seq<real>)
    requires Sorted(s)
    ensures Sorted(r)
    ensures multiset(r) == multiset(s) + multiset{x}
    ensures |r| == |s| + 1
    ensures r[0] == x || (s != [] && r[0] == s[0])
  {
    if s == [] || x <= s[0] then
      SortedCons(x, s);
      [x] + s
    else
      SortedTail(s);
      var rest := Insert(x, s[1..]);
      assert s == [s[0]] + s[1..];
      SortedCons(s[0], rest);
      [s[0]] + rest
  }

  /** The ascending sort of a copy of the input (`nums.slice().sort((a, b) => a - b)`). */
  function SortAscending(s: seq<real>): (r: seq<real>)
    ensures Sorted(r)
    ensures multiset(r) == multiset(s)
  {
    if s == [] then []
    else
      assert s == [s[0]] + s[1..];
      Insert(s[0], SortAscending(s[1..]))
  }

  lemma TailMultiset(s: seq<real>)
    requires s != []
    ensures multiset(s[1..]) == multiset(s) - multiset{s[0]}
  {
    assert s == [s[0]] + s[1..];
  }

  /** Two ascending permutations of the same numbers start with the same (least) number. */
  lemma SortedHeadsEqual(a: seq<real>, b: seq<real>)
    requires Sorted(a) && Sorted(b) && a != []
    requires multiset(a) == multiset(b)
    ensures b != [] && a[0] == b[0]
  {
    assert a[0] in multiset(b);
    var k :| 0 <= k < |b| && b[k] == a[0];
    assert b[0] in multiset(a);
    var j :| 0 <= j < |a| && a[j] == b[0];
    assert b[0] <= b[k] && a[0] <= a[j];
  }

  /** There is only one ascending permutation of a multiset of numbers. */
  lemma {:induction false} SortedPermutationUnique(a: seq<real>, b: seq<real>)
    requires Sorted(a) && Sorted(b)
    requires multiset(a) == multiset(b)
    ensures a == b
    decreases |a|
  {
    if a == [] {
      assert |multiset(b)| == 0;
    } else {
      SortedHeadsEqual(a, b);
      TailMultiset(a);
      TailMultiset(b);
      SortedTail(a);
      SortedTail(b);
      SortedPermutationUnique(a[1..], b[1..]);
      assert a == [a[0]] + a[1..];
      assert b == [b[0]] + b[1..];
    }
  }

  /**
   * The middle selection on the sorted copy. `None` stands for the NaN that
   * JavaScript computes for an empty array (`(undefined + undefined) / 2`).
   */
  function Middle(sorted: seq<real>): (m: Option<real>)
    requires Sorted(sorted)
    ensures m.None? <==> sorted == []
    ensures m.Some? ==> forall i :: 0 <= i < (|sorted| + 1) / 2 ==> sorted[i] <= m.value
    ensures m.Some? ==> forall i :: |sorted| / 2 <= i < |sorted| ==> m.value <= sorted[i]
  {
    var n := |sorted|;
    var mid := n / 2;
    if n % 2 == 0 then
      if n == 0 then None
      else Some((sorted[mid - 1] + sorted[mid]) / 2.0)
    else Some(sorted[mid])
  }

  /** `calculateMedian`; only an empty input has no median. */
  function Median(nums: seq<real>): (m: Option<real>)
    ensures m.None? <==> nums == []
  {
    var sorted := SortAscending(nums);
    assert |sorted| == |multiset(sorted)| == |multiset(nums)| == |nums|;
    Middle(sorted)
  }

  /** Any ascending permutation of the input gives the same median. */
  lemma MedianOfAnySort(nums: seq<real>, sorted: seq<real>)
    requires Sorted(sorted) && multiset(sorted) == multiset(nums)
    ensures Median(nums) == Middle(sorted)
  {
    SortedPermutationUnique(SortAscending(nums), sorted);
  }

  /** The median depends only on the multiset of inputs, not on their order. */
  lemma MedianPermutationInvariant(a: seq<real>, b: seq<real>)
    requires multiset(a) == multiset(b)
    ensures Median(a) == Median(b)
  {
    SortedPermutationUnique(SortAscending(a), SortAscending(b));
  }

  /** The median lies between the smallest and the largest input. */
  lemma MedianWithinRange(nums: seq<real>)
    requires nums != []
    ensures Median(nums).Some?
    ensures exists i :: 0 <= i < |nums| && nums[i] <= Median(nums).value
    ensures exists j :: 0 <= j < |nums| && Median(nums).value <= nums[j]
  {
    var s := SortAscending(nums);
    assert |s| == |multiset(s)| == |multiset(nums)| == |nums|;
    var m := Median(nums).value;
    assert s[0] <= m && m <= s[|s| - 1];
    assert s[0] in multiset(nums) && s[|s| - 1] in multiset(nums);
    var i :| 0 <= i < |nums| && nums[i] == s[0];
    var j :| 0 <= j < |nums| && nums[j] == s[|s| - 1];
  }

  /** The number of elements of `s` satisfying `p`. */
  function CountIf(s: seq<real>, p: real -> bool): nat
  {
    if s == [] then 0 else (if p(s[0]) then 1 else 0) + CountIf(s[1..], p)
  }

  function AtMost(m: real): real -> bool { x => x <= m }

  function AtLeast(m: real): real -> bool { x => m <= x }

  lemma {:induction false} CountIfRemove(s: seq<real>, k: nat, p: real -> bool)
    requires k < |s|
    ensures CountIf(s, p) == (if p(s[k]) then 1 else 0) + CountIf(s[..k] + s[k + 1..], p)
  {
    if k == 0 {
      assert s[..0] + s[1..] == s[1..];
    } else {
      CountIfRemove(s[1..], k - 1, p);
      var rest := s[..k] + s[k + 1..];
      assert rest[0] == s[0];
      assert rest[1..] == s[1..][..k - 1] + s[1..][k..];
    }
  }

  lemma RemoveMultiset(s: seq<real>, k: nat)
    requires k < |s|
    ensures multiset(s[..k] + s[k + 1..]) == multiset(s) - multiset{s[k]}
  {
    assert s == s[..k] + [s[k]] + s[k + 1..];
  }

  lemma {:induction false} CountIfPermutation(a: seq<real>, b: seq<real>, p: real -> bool)
    requires multiset(a) == multiset(b)
    ensures CountIf(a, p) == CountIf(b, p)
    decreases |a|
  {
    if a == [] {
      assert |multiset(b)| == 0;
    } else {
      assert a[0] in multiset(b);
      var k :| 0 <= k < |b| && b[k] == a[0];
      var rest := b[..k] + b[k + 1..];
      RemoveMultiset(b, k);
      TailMultiset(a);
      CountIfRemove(b, k, p);
      CountIfPermutation(a[1..], rest, p);
    }
  }

  lemma {:induction false} CountIfPrefix(s: seq<real>, k: nat, p: real -> bool)
    requires k <= |s|
    requires forall i :: 0 <= i < k ==> p(s[i])
    ensures CountIf(s, p) >= k
  {
    if k > 0 {
      CountIfPrefix(s[1..], k - 1, p);
    }
  }

  lemma {:induction false} CountIfSuffix(s: seq<real>, k: nat, p: real -> bool)
    requires k <= |s|
    requires forall i :: k <= i < |s| ==> p(s[i])
    ensures CountIf(s, p) >= |s| - k
  {
    if s != [] {
      CountIfSuffix(s[1..], if k == 0 then 0 else k - 1, p);
    }
  }

  /** At least half of the inputs are at most the median, and at least half are at least it. */
  lemma MedianBalanced(nums: seq<real>)
    requires nums != []
    ensures Median(nums).Some?
    ensures 2 * CountIf(nums, AtMost(Median(nums).value)) >= |nums|
    ensures 2 * CountIf(nums, AtLeast(Median(nums).value)) >= |nums|
  {
    var s := SortAscending(nums);
    assert |s| == |multiset(s)| == |multiset(nums)| == |nums|;
    var m := Median(nums).value;
    CountIfPrefix(s, (|s| + 1) / 2, AtMost(m));
    CountIfSuffix(s, |s| / 2, AtLeast(m));
    CountIfPermutation(nums, s, AtMost(m));
    CountIfPermutation(nums, s, AtLeast(m));
  }
}
