/**
  The bucket planner of `src/xdist/bucketing.py`: the tests already planned into
  bins (loaded from `bins.json`), the tests discovered on disk, the tests that no
  bin holds yet, and the greedy placement of each such test into the bin that is
  currently smallest.
 */
module Bucketing {
  import opened Seqs

  /** A test file path, as `glob` returns it. */
  type Test = string

  /** A plan: an ordered list of bins, each an ordered list of tests. */
  type Bins = seq<seq<Test>>

  /** The markers `discover_all_tests` filters out, in the order it tests them. */
  const Sentinels: seq<string> := [".pyc", "__pycache__", "__init__.py", "conftest.py", "tests/incremental"]

  /** `sub` occurs in `s` starting at position `i`. */
  predicate OccursAt(s: string, sub: string, i: nat) {
    i + |sub| <= |s| && s[i..i + |sub|] == sub
  }

  /** Python's substring test `sub in s`. */
  predicate Contains(s: string, sub: string) {
    exists i: nat | i <= |s| :: OccursAt(s, sub, i)
  }

  /** `any(sentinel in path for sentinel in [...])`. */
  predicate Excluded(path: string) {
    exists j | 0 <= j < |Sentinels| :: Contains(path, Sentinels[j])
  }

  // ---------------------------------------------------------------------------
  // discover_all_tests, with the result of `glob.glob` passed in

  /** One pass of the list comprehension in `discover_all_tests`. */
  function KeepTests(paths: seq<string>): (r: seq<string>)
    ensures |r| <= |paths|
    ensures forall i | 0 <= i < |r| :: !Excluded(r[i])
  {
    if paths == [] then []
    else (if Excluded(paths[0]) then [] else [paths[0]]) + KeepTests(paths[1..])
  }

  /** The filter keeps every occurrence of a path with no sentinel, and nothing else. */
  lemma {:induction false} KeepTestsCount(paths: seq<string>, p: string)
    ensures multiset(KeepTests(paths))[p] == if Excluded(p) then 0 else multiset(paths)[p]
  {
    if paths != [] {
      assert paths == [paths[0]] + paths[1..];
      KeepTestsCount(paths[1..], p);
    }
  }

  /** The filter keeps the relative order of the paths it keeps. */
  lemma {:induction false} KeepTestsConcat(a: seq<string>, b: seq<string>)
    ensures KeepTests(a + b) == KeepTests(a) + KeepTests(b)
  {
    if a == [] {
      assert a + b == b;
    } else {
      assert (a + b)[0] == a[0];
      assert (a + b)[1..] == a[1..] + b;
      KeepTestsConcat(a[1..], b);
    }
  }

  /** The filter introduces no repeats. */
  lemma KeepTestsNoRepeats(paths: seq<string>)
    requires Distinct(paths)
    ensures Distinct(KeepTests(paths))
  {
    DistinctMultiset(paths);
    forall p ensures multiset(KeepTests(paths))[p] <= 1 {
      KeepTestsCount(paths, p);
    }
    DistinctMultiset(KeepTests(paths));
  }

  /** A list with no excluded path passes the filter untouched. */
  lemma {:induction false} KeepTestsOfClean(paths: seq<string>)
    requires forall i | 0 <= i < |paths| :: !Excluded(paths[i])
    ensures KeepTests(paths) == paths
  {
    if paths != [] {
      KeepTestsOfClean(paths[1..]);
    }
  }

  /** The second comprehension of `discover_all_tests` changes nothing. */
  lemma KeepTestsIdempotent(paths: seq<string>)
    ensures KeepTests(KeepTests(paths)) == KeepTests(paths)
  {
    KeepTestsOfClean(KeepTests(paths));
  }

  /** `discover_all_tests`, applied to the paths `glob.glob` found: both filters, in turn. */
  function DiscoverAllTests(globbed: seq<string>): (r: seq<string>)
    ensures r == KeepTests(globbed)
  {
    KeepTestsIdempotent(globbed);
    KeepTests(KeepTests(globbed))
  }

  // ---------------------------------------------------------------------------
  // find_new_tests

  /** The tests of all bins, bin after bin. */
  function Flatten(bins: Bins): (r: seq<Test>)
    ensures forall t :: t in r <==> exists j | 0 <= j < |bins| :: t in bins[j]
  {
    if bins == [] then []
    else
      var init := bins[..|bins| - 1];
      assert forall j | 0 <= j < |init| :: init[j] == bins[j];
      Flatten(init) + bins[|bins| - 1]
  }

  /** The set `bined_tests` that `find_new_tests` builds. */
  function Binned(bins: Bins): (r: set<Test>)
    ensures forall t :: t in r <==> exists j | 0 <= j < |bins| :: t in bins[j]
  {
    set t | t in Flatten(bins)
  }

  /** The comprehension of `find_new_tests`: the tests of `all` outside `binned`, in order. */
  function Unbinned(all: seq<Test>, binned: set<Test>): (r: seq<Test>)
    ensures |r| <= |all|
    ensures forall i | 0 <= i < |r| :: r[i] !in binned
  {
    if all == [] then []
    else (if all[0] in binned then [] else [all[0]]) + Unbinned(all[1..], binned)
  }

  /** Every occurrence of an unbinned test is kept, duplicates included, and nothing else. */
  lemma {:induction false} UnbinnedCount(all: seq<Test>, binned: set<Test>, t: Test)
    ensures multiset(Unbinned(all, binned))[t] == if t in binned then 0 else multiset(all)[t]
  {
    if all != [] {
      assert all == [all[0]] + all[1..];
      UnbinnedCount(all[1..], binned, t);
    }
  }

  /** The new tests keep the order they have in `all`. */
  lemma {:induction false} UnbinnedConcat(a: seq<Test>, b: seq<Test>, binned: set<Test>)
    ensures Unbinned(a + b, binned) == Unbinned(a, binned) + Unbinned(b, binned)
  {
    if a == [] {
      assert a + b == b;
    } else {
      assert (a + b)[0] == a[0];
      assert (a + b)[1..] == a[1..] + b;
      UnbinnedConcat(a[1..], b, binned);
    }
  }

  /** `find_new_tests`: collect every binned test into a set, then keep the tests of `allTests` outside it. */
  method FindNewTests(bins: Bins, allTests: seq<Test>) returns (newTests: seq<Test>)
    ensures newTests == Unbinned(allTests, Binned(bins))
    ensures forall t :: multiset(newTests)[t] == if t in Binned(bins) then 0 else multiset(allTests)[t]
  {
    var binned: set<Test> := {};
    for k := 0 to |bins|
      invariant binned == Binned(bins[..k])
    {
      assert bins[..k + 1][..k] == bins[..k];
      binned := binned + set t | t in bins[k];
    }
    assert bins[..|bins|] == bins;
    newTests := Unbinned(allTests, binned);
    forall t { UnbinnedCount(allTests, binned, t); }
  }

  // ---------------------------------------------------------------------------
  // bin_new_tests

  /**
    The bin the inner loop of `bin_new_tests` settles on: the first bin of
    least size (it only moves on a strictly smaller count).
   */
  function SmallestBin(bins: Bins): (m: nat)
    requires |bins| > 0
    ensures m < |bins|
    ensures forall j | 0 <= j < |bins| :: |bins[m]| <= |bins[j]|
    ensures forall j | 0 <= j < m :: |bins[m]| < |bins[j]|
  {
    if |bins| == 1 then 0
    else
      var init := bins[..|bins| - 1];
      var m := SmallestBin(init);
      assert init[m] == bins[m];
      if |bins[|bins| - 1]| < |bins[m]| then |bins| - 1 else m
  }

  /** The size of the largest bin. */
  function LargestSize(bins: Bins): (n: nat)
    requires |bins| > 0
    ensures forall j | 0 <= j < |bins| :: |bins[j]| <= n
    ensures exists j | 0 <= j < |bins| :: |bins[j]| == n
  {
    if |bins| == 1 then |bins[0]|
    else
      var init := bins[..|bins| - 1];
      var n := LargestSize(init);
      assert forall j | 0 <= j < |init| :: init[j] == bins[j];
      if n < |bins[|bins| - 1]| then |bins[|bins| - 1]| else n
  }

  /** Difference between the largest and the smallest bin. */
  function Spread(bins: Bins): nat
    requires |bins| > 0
  {
    LargestSize(bins) - |bins[SmallestBin(bins)]|
  }

  /** One turn of the outer loop: append `t` to the first smallest bin. */
  function Place(bins: Bins, t: Test): (r: Bins)
    requires |bins| > 0
    ensures |r| == |bins|
  {
    var m := SmallestBin(bins);
    bins[m := bins[m] + [t]]
  }

  /** The bins after placing every test of `ts`, in order. */
  function Distribute(bins: Bins, ts: seq<Test>): (r: Bins)
    requires |ts| > 0 ==> |bins| > 0
    ensures |r| == |bins|
  {
    if ts == [] then bins
    else Place(Distribute(bins, ts[..|ts| - 1]), ts[|ts| - 1])
  }

  /** The bin each test of `ts` is placed into, in order. */
  function Targets(bins: Bins, ts: seq<Test>): (r: seq<nat>)
    requires |ts| > 0 ==> |bins| > 0
    ensures |r| == |ts|
    ensures forall k | 0 <= k < |r| :: r[k] < |bins|
  {
    if ts == [] then []
    else Targets(bins, ts[..|ts| - 1]) + [SmallestBin(Distribute(bins, ts[..|ts| - 1]))]
  }

  /** The tests of `ts` whose target is bin `j`, in order. */
  function Select(ts: seq<Test>, targets: seq<nat>, j: nat): seq<Test>
    requires |targets| == |ts|
  {
    if ts == [] then []
    else
      Select(ts[..|ts| - 1], targets[..|ts| - 1], j)
        + (if targets[|ts| - 1] == j then [ts[|ts| - 1]] else [])
  }

  /**
    `bin_new_tests`: copy the bins, then for each new test scan the bins with
    `current_min_index`/`current_min_count` (both -1 before the first bin) and
    append the test to the bin found.
   */
  method BinNewTests(bins: Bins, newTests: seq<Test>) returns (result: Bins)
    requires |newTests| > 0 ==> |bins| > 0
    ensures result == Distribute(bins, newTests)
  {
    result := bins;
    for t := 0 to |newTests|
      invariant result == Distribute(bins, newTests[..t])
    {
      var currentMinIndex, currentMinCount := -1, -1;
      for i := 0 to |result|
        invariant i == 0 ==> currentMinIndex == -1 && currentMinCount == -1
        invariant i > 0 ==> currentMinIndex == SmallestBin(result[..i])
        invariant i > 0 ==> currentMinCount == |result[currentMinIndex]|
      {
        var count := |result[i]|;
        assert result[..i + 1][..i] == result[..i];
        if currentMinCount == -1 || count < currentMinCount {
          currentMinIndex := i;
          currentMinCount := count;
        }
      }
      assert result[..|result|] == result;
      assert newTests[..t + 1][..t] == newTests[..t];
      result := result[currentMinIndex := result[currentMinIndex] + [newTests[t]]];
    }
    assert newTests[..|newTests|] == newTests;
  }

  // ---------------------------------------------------------------------------
  // Properties of the placement

  /** Each test goes to the first bin of least size at the moment it is placed. */
  lemma {:induction false} TargetsAreSmallest(bins: Bins, ts: seq<Test>, k: nat)
    requires |ts| > 0 ==> |bins| > 0
    requires k < |ts|
    ensures Targets(bins, ts)[k] == SmallestBin(Distribute(bins, ts[..k]))
  {
    var init := ts[..|ts| - 1];
    if k < |ts| - 1 {
      assert init[..k] == ts[..k];
      TargetsAreSmallest(bins, init, k);
    } else {
      assert ts[..k] == init;
    }
  }

  /**
    Every bin of the result is the input bin followed by the tests whose target
    it is, in the order of `ts`: the input bin is a prefix and nothing else moves.
   */
  lemma {:induction false} DistributeByBin(bins: Bins, ts: seq<Test>, j: nat)
    requires |ts| > 0 ==> |bins| > 0
    requires j < |bins|
    ensures Distribute(bins, ts)[j] == bins[j] + Select(ts, Targets(bins, ts), j)
  {
    if ts != [] {
      var init := ts[..|ts| - 1];
      var tg := Targets(bins, ts);
      assert tg[..|ts| - 1] == Targets(bins, init);
      DistributeByBin(bins, init, j);
    }
  }

  /** Appending one test to one bin adds exactly that test to the flattened plan. */
  lemma {:induction false} FlattenAppend(bins: Bins, j: nat, t: Test)
    requires j < |bins|
    ensures multiset(Flatten(bins[j := bins[j] + [t]])) == multiset(Flatten(bins)) + multiset{t}
  {
    var n := |bins|;
    var after := bins[j := bins[j] + [t]];
    assert after[..n - 1] == if j == n - 1 then bins[..n - 1] else bins[..n - 1][j := bins[j] + [t]];
    if j < n - 1 {
      FlattenAppend(bins[..n - 1], j, t);
    }
  }

  /** Every new test is appended exactly once: the plan grows by `ts` as a multiset, so by `|ts|` items. */
  lemma {:induction false} DistributeAddsEachOnce(bins: Bins, ts: seq<Test>)
    requires |ts| > 0 ==> |bins| > 0
    ensures multiset(Flatten(Distribute(bins, ts))) == multiset(Flatten(bins)) + multiset(ts)
    ensures |Flatten(Distribute(bins, ts))| == |Flatten(bins)| + |ts|
  {
    if ts != [] {
      var init := ts[..|ts| - 1];
      assert ts == init + [ts[|ts| - 1]];
      DistributeAddsEachOnce(bins, init);
      var d := Distribute(bins, init);
      FlattenAppend(d, SmallestBin(d), ts[|ts| - 1]);
    }
    assert |multiset(Flatten(Distribute(bins, ts)))| == |Flatten(Distribute(bins, ts))|;
    assert |multiset(Flatten(bins))| == |Flatten(bins)|;
  }

  /** One placement widens the gap between largest and smallest bin to at most max(gap, 1). */
  lemma PlaceBalance(bins: Bins, t: Test)
    requires |bins| > 0
    ensures Spread(Place(bins, t)) <= if Spread(bins) < 1 then 1 else Spread(bins)
  {
    var m := SmallestBin(bins);
    var lo, hi := |bins[m]|, LargestSize(bins);
    var after := Place(bins, t);
    forall j | 0 <= j < |after| ensures lo <= |after[j]| <= if hi < lo + 1 then lo + 1 else hi {
    }
    assert lo <= |after[SmallestBin(after)]|;
    var k :| 0 <= k < |after| && |after[k]| == LargestSize(after);
  }

  /** Placing a whole list keeps the gap within max(initial gap, 1). */
  lemma {:induction false} DistributeBalance(bins: Bins, ts: seq<Test>)
    requires |bins| > 0
    ensures Spread(Distribute(bins, ts)) <= if Spread(bins) < 1 then 1 else Spread(bins)
  {
    if ts != [] {
      var init := ts[..|ts| - 1];
      DistributeBalance(bins, init);
      PlaceBalance(Distribute(bins, init), ts[|ts| - 1]);
    }
  }

  /**
    Coverage of `get_bins_and_new_tests`: the final plan holds exactly the
    binned tests and the discovered ones.
   */
  lemma PlanCoverage(bins: Bins, all: seq<Test>)
    requires |bins| > 0 || Unbinned(all, Binned(bins)) == []
    ensures Binned(Distribute(bins, Unbinned(all, Binned(bins)))) == Binned(bins) + set t | t in all
  {
    forall t {
      PlanCoverageAt(bins, all, t);
    }
  }

  /** One test of the coverage statement: it is in the final plan iff it was binned or discovered. */
  lemma PlanCoverageAt(bins: Bins, all: seq<Test>, t: Test)
    requires |bins| > 0 || Unbinned(all, Binned(bins)) == []
    ensures t in Binned(Distribute(bins, Unbinned(all, Binned(bins)))) <==> t in Binned(bins) || t in all
  {
    var discovered := Unbinned(all, Binned(bins));
    var plan := Distribute(bins, discovered);
    DistributeAddsEachOnce(bins, discovered);
    UnbinnedCount(all, Binned(bins), t);
    assert t in Binned(plan) <==> multiset(Flatten(plan))[t] > 0;
    assert t in Binned(bins) <==> multiset(Flatten(bins))[t] > 0;
  }

  /** The final plan repeats no test when the loaded bins and the discovered tests repeat none. */
  lemma PlanNoRepeats(bins: Bins, all: seq<Test>)
    requires |bins| > 0 || Unbinned(all, Binned(bins)) == []
    requires Distinct(Flatten(bins)) && Distinct(all)
    ensures Distinct(Flatten(Distribute(bins, Unbinned(all, Binned(bins)))))
  {
    var discovered := Unbinned(all, Binned(bins));
    DistributeAddsEachOnce(bins, discovered);
    DistinctMultiset(Flatten(bins));
    DistinctMultiset(all);
    forall t ensures multiset(Flatten(Distribute(bins, discovered)))[t] <= 1 {
      UnbinnedCount(all, Binned(bins), t);
      assert t in Binned(bins) <==> multiset(Flatten(bins))[t] > 0;
    }
    DistinctMultiset(Flatten(Distribute(bins, discovered)));
  }

  /**
    `get_bins_and_new_tests`, with the loaded plan and the result of `glob.glob`
    passed in: discover, find the new tests, place them.
   */
  method GetBinsAndNewTests(bins: Bins, globbed: seq<string>) returns (finalBins: Bins, newTests: seq<Test>)
    requires |bins| > 0 || Unbinned(DiscoverAllTests(globbed), Binned(bins)) == []
    ensures newTests == Unbinned(KeepTests(globbed), Binned(bins))
    ensures finalBins == Distribute(bins, newTests)
    ensures Binned(finalBins) == Binned(bins) + set t | t in KeepTests(globbed)
    ensures Distinct(Flatten(bins)) && Distinct(globbed) ==> Distinct(Flatten(finalBins))
  {
    var allTests := DiscoverAllTests(globbed);
    newTests := FindNewTests(bins, allTests);
    finalBins := BinNewTests(bins, newTests);
    PlanCoverage(bins, allTests);
    if Distinct(Flatten(bins)) && Distinct(globbed) {
      KeepTestsNoRepeats(globbed);
      PlanNoRepeats(bins, allTests);
    }
  }

  /** The worked example, discovery half: with `[["a","b"],["c"]]` binned, `["a","b","c","d"]` has one new test, `"d"`. */
  lemma ExampleNewTests()
    ensures Unbinned(["a", "b", "c", "d"], Binned([["a", "b"], ["c"]])) == ["d"]
  {
    var bins: Bins := [["a", "b"], ["c"]];
    assert "a" in bins[0] && "b" in bins[0] && "c" in bins[1];
    assert "d" !in Binned(bins);
  }

  /** The worked example, placement half: `"d"` goes to bin 1, the smaller one. */
  lemma ExamplePlan()
    ensures Distribute([["a", "b"], ["c"]], ["d"]) == [["a", "b"], ["c", "d"]]
  {
    var bins: Bins := [["a", "b"], ["c"]];
    assert SmallestBin(bins) == 1;
    assert ["c"] + ["d"] == ["c", "d"];
    assert ["d"][..0] == [];
    assert Distribute(bins, ["d"]) == Place(bins, "d");
  }
}
