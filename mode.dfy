/**
 * `calculateMode`: one pass over the numbers keeps a frequency table, the
 * largest frequency seen so far and the list of values that reached it. A
 * value whose count exceeds the current maximum resets the list to itself; a
 * value whose count equals the current maximum is appended. At the end a list
 * of exactly one value is returned as that value alone.
 *
 * The frequency table is keyed by `String(num)`; for numbers that is numeric
 * equality (`-0` and `0` share the key "0", as they are equal reals here).
 */
module Mode {

  /** The number of occurrences of `v` in `s`. */
  function Count(s: seq<real>, v: real): nat
  {
    if s == [] then 0
    else Count(s[..|s| - 1], v) + (if s[|s| - 1] == v then 1 else 0)
  }

  /** A value occurs at least once exactly when it is an element. */
  lemma {:induction false} CountPositive(s: seq<real>, v: real)
    ensures Count(s, v) > 0 <==> v in s
  {
    if s != [] {
      var init := s[..|s| - 1];
      assert s == init + [s[|s| - 1]];
      CountPositive(init, v);
    }
  }

  /** The largest number of occurrences of any value of `s` (0 when `s` is empty). */
  function MaxCount(s: seq<real>): nat
  {
    if s == [] then 0
    else
      var m, c := MaxCount(s[..|s| - 1]), Count(s, s[|s| - 1]);
      if c > m then c else m
  }

  /** `MaxCount` is the largest count: no value exceeds it, and in a non-empty sequence some value attains it. */
  lemma {:induction false} MaxCountIsMax(s: seq<real>)
    ensures forall v :: Count(s, v) <= MaxCount(s)
    ensures s != [] ==> exists v :: v in s && Count(s, v) == MaxCount(s)
  {
    if s != [] {
      var init, last := s[..|s| - 1], s[|s| - 1];
      assert s == init + [last];
      CountAppend(init, last);
      MaxCountIsMax(init);
      if Count(s, last) <= MaxCount(init) {
        assert init != [] by { assert Count(s, last) >= 1; }
        var w :| w in init && Count(init, w) == MaxCount(init);
        assert w in s && Count(s, w) == MaxCount(s);
      }
    }
  }

  /** One more element: its own count goes up by one, every other count stays. */
  lemma CountAppend(s: seq<real>, x: real)
    ensures forall v :: Count(s + [x], v) == Count(s, v) + (if v == x then 1 else 0)
  {
  }

  /**
   * The values at the positions where their running count reaches `k`, in
   * scan order: position `i` contributes `s[i]` when `s[i]` occurs exactly
   * `k` times in `s[..i + 1]`.
   */
  function Reachers(s: seq<real>, k: nat): seq<real>
  {
    if s == [] then []
    else
      var last := s[|s| - 1];
      Reachers(s[..|s| - 1], k) + (if Count(s, last) == k then [last] else [])
  }

  /** The tie list: the values that reached the largest count, in the order they reached it. */
  function Modes(s: seq<real>): seq<real>
  {
    Reachers(s, MaxCount(s))
  }

  predicate NoDuplicates(s: seq<real>)
  {
    forall i, j :: 0 <= i < j < |s| ==> s[i] != s[j]
  }

  /** No value reaches a count beyond the largest one. */
  lemma {:induction false} ReachersBeyondMax(s: seq<real>, k: nat)
    requires k > MaxCount(s)
    ensures Reachers(s, k) == []
  {
    if s != [] {
      var init := s[..|s| - 1];
      assert s == init + [s[|s| - 1]];
      ReachersBeyondMax(init, k);
    }
  }

  /** A value is listed exactly when it occurs at least `k` times. */
  lemma {:induction false} ReachersMembers(s: seq<real>, k: nat, v: real)
    requires k >= 1
    ensures v in Reachers(s, k) <==> Count(s, v) >= k
  {
    if s != [] {
      var init, last := s[..|s| - 1], s[|s| - 1];
      assert s == init + [last];
      ReachersMembers(init, k, v);
    }
  }

  /** Each value reaches a given count at most once, so it is listed at most once. */
  lemma {:induction false} ReachersDistinct(s: seq<real>, k: nat)
    requires k >= 1
    ensures NoDuplicates(Reachers(s, k))
  {
    if s != [] {
      var init, last := s[..|s| - 1], s[|s| - 1];
      assert s == init + [last];
      ReachersDistinct(init, k);
      if Count(s, last) == k {
        ReachersMembers(init, k, last);
        assert last !in Reachers(init, k);
      }
    }
  }

  /** The tie list holds exactly the values whose count is the largest count. */
  lemma ModesExact(s: seq<real>, v: real)
    ensures v in Modes(s) <==> v in s && Count(s, v) == MaxCount(s)
  {
    if s == [] {
      assert Modes(s) == [];
    } else {
      MaxCountIsMax(s);
      CountPositive(s, v);
      ReachersMembers(s, MaxCount(s), v);
    }
  }

  /** The tie list holds no value twice. */
  lemma ModesDistinct(s: seq<real>)
    ensures NoDuplicates(Modes(s))
  {
    if s == [] {
      assert Modes(s) == [];
    } else {
      MaxCountIsMax(s);
      ReachersDistinct(s, MaxCount(s));
    }
  }

  /** A non-empty input has at least one mode. */
  lemma ModesNonEmpty(s: seq<real>)
    requires s != []
    ensures |Modes(s)| >= 1
  {
    MaxCountIsMax(s);
    var w :| w in s && Count(s, w) == MaxCount(s);
    ModesExact(s, w);
  }

  lemma MaxCountAppend(s: seq<real>, x: real)
    ensures MaxCount(s + [x]) == if Count(s + [x], x) > MaxCount(s) then Count(s + [x], x) else MaxCount(s)
  {
  }

  lemma ReachersAppend(s: seq<real>, x: real, k: nat)
    ensures Reachers(s + [x], k) == Reachers(s, k) + (if Count(s + [x], x) == k then [x] else [])
  {
  }

  /** `freq` maps exactly the values of `s`, each to its number of occurrences. */
  ghost predicate Tabulates(freq: map<real, nat>, s: seq<real>)
  {
    && (forall v :: v in freq <==> v in s)
    && (forall v :: v in freq ==> freq[v] == Count(s, v))
  }

  /** One step of the frequency table: the stored counts are never 0, so JavaScript's truthiness test is a membership test. */
  lemma TabulateStep(freq: map<real, nat>, s: seq<real>, x: real)
    requires Tabulates(freq, s)
    ensures (x in freq && freq[x] > 0) <==> x in s
    ensures x in freq ==> Tabulates(freq[x := freq[x] + 1], s + [x])
    ensures x !in s ==> Tabulates(freq[x := 1], s + [x])
  {
    CountAppend(s, x);
    CountPositive(s, x);
  }

  /**
   * The `forEach` loop of `calculateMode`: builds the frequency table, the
   * largest frequency and the tie list.
   */
  method ScanFrequencies(nums: seq<real>) returns (freq: map<real, nat>, maxFreq: nat, modes: seq<real>)
    ensures forall v :: v in freq <==> v in nums
    ensures forall v :: v in freq ==> freq[v] == Count(nums, v)
    ensures maxFreq == MaxCount(nums)
    ensures modes == Modes(nums)
  {
    freq, maxFreq, modes := map[], 0, [];
    for i := 0 to |nums|
      invariant Tabulates(freq, nums[..i])
      invariant maxFreq == MaxCount(nums[..i])
      invariant modes == Reachers(nums[..i], maxFreq)
    {
      var num := nums[i];
      ghost var seen := nums[..i];
      assert nums[..i + 1] == seen + [num];
      TabulateStep(freq, seen, num);
      CountAppend(seen, num);
      MaxCountAppend(seen, num);
      if num in freq && freq[num] > 0 {
        freq := freq[num := freq[num] + 1];
      } else {
        freq := freq[num := 1];
      }
      if freq[num] > maxFreq {
        ReachersBeyondMax(seen, freq[num]);
        maxFreq := freq[num];
        modes := [num];
      } else if freq[num] == maxFreq {
        modes := modes + [num];
      }
      ReachersAppend(seen, num, maxFreq);
    }
    assert nums[..|nums|] == nums;
    assert Tabulates(freq, nums);
  }

  /** What `calculateMode` returns: one value, or the whole tie list. */
  datatype ModeResult = Single(value: real) | Tied(values: seq<real>)

  function ModeOf(nums: seq<real>): ModeResult
  {
    var modes := Modes(nums);
    if |modes| == 1 then Single(modes[0]) else Tied(modes)
  }

  /** `calculateMode`. */
  method CalculateMode(nums: seq<real>) returns (r: ModeResult)
    ensures r == ModeOf(nums)
    ensures r.Single? <==> exists v :: Modes(nums) == [v]
    ensures r.Single? ==> Count(nums, r.value) == MaxCount(nums) >= 1
    ensures r.Single? ==> forall w :: w != r.value ==> Count(nums, w) < MaxCount(nums)
    ensures r.Tied? ==> r.values == Modes(nums)
    ensures r.Tied? && nums != [] ==> |r.values| >= 2
  {
    var freq, maxFreq, modes := ScanFrequencies(nums);
    if |modes| == 1 {
      r := Single(modes[0]);
      assert Modes(nums) == [modes[0]];
      ModesExact(nums, modes[0]);
      CountPositive(nums, modes[0]);
      forall w | w != modes[0]
        ensures Count(nums, w) < MaxCount(nums)
      {
        ModesExact(nums, w);
        MaxCountIsMax(nums);
        CountPositive(nums, w);
        assert w !in modes;
      }
    } else {
      r := Tied(modes);
      if nums != [] {
        ModesNonEmpty(nums);
      }
    }
  }

  /**
   * The tie list follows the order in which values reach the maximum, not the
   * order of first occurrence: for `a, b, b, a` it is `[b, a]`.
   */
  lemma ModeOrderExample(a: real, b: real)
    requires a != b
    ensures Modes([a, b, b, a]) == [b, a]
  {
    var s0: seq<real> := [];
    var s1 := s0 + [a];
    var s2 := s1 + [b];
    var s3 := s2 + [b];
    var s4 := s3 + [a];
    assert s4 == [a, b, b, a];
    CountAppend(s0, a);
    CountAppend(s1, b);
    CountAppend(s2, b);
    CountAppend(s3, a);
    MaxCountAppend(s0, a);
    MaxCountAppend(s1, b);
    MaxCountAppend(s2, b);
    MaxCountAppend(s3, a);
    assert MaxCount(s4) == 2;
    ReachersAppend(s0, a, 2);
    ReachersAppend(s1, b, 2);
    ReachersAppend(s2, b, 2);
    ReachersAppend(s3, a, 2);
  }
}
