/** The greedy clustering by time: it needs the fewest runs, and where its runs lie. */
module CorrelatorClusters {
  import opened Correlation
  import Grouping
  import Sorting

  // ----- fewest runs ------------------------------------------------------------------------

  /** Everything in the run is at most `window` after its first signal. */
  ghost predicate Bounded(run: seq<Signal>, window: int) {
    run != [] && forall k :: 0 < k < |run| ==> run[k].stamp - run[0].stamp <= window
  }

  ghost predicate IsPartition(runs: seq<seq<Signal>>, signals: seq<Signal>, window: int) {
    && Grouping.Concat(runs) == signals
    && forall r :: r in runs ==> Bounded(r, window)
  }

  lemma {:induction false} RunsFromPartition(signals: seq<Signal>, window: int, i: nat)
    requires i <= |signals|
    ensures IsPartition(RunsFrom(signals, window, i), signals[i..], window)
    decreases |signals| - i
  {
    if i < |signals| {
      var e := RunEnd(signals, window, i, i + 1);
      RunsFromPartition(signals, window, e);
      assert signals[i..] == signals[i..e] + signals[e..];
      var run := signals[i..e];
      forall k | 0 < k < |run| ensures run[k].stamp - run[0].stamp <= window {
        assert run[k] == signals[i + k];
      }
      assert RunsFrom(signals, window, i)[1..] == RunsFrom(signals, window, e);
    }
  }

  /** A later start needs no more runs. */
  lemma {:induction false} SuffixFewer(signals: seq<Signal>, window: int, i: nat, j: nat)
    requires i <= j <= |signals| && Sorting.Sorted(signals, Earlier)
    ensures |RunsFrom(signals, window, j)| <= |RunsFrom(signals, window, i)|
    decreases |signals| - i
  {
    if i < j {
      var e := RunEnd(signals, window, i, i + 1);
      if e <= j {
        SuffixFewer(signals, window, e, j);
      } else {
        var f := RunEnd(signals, window, j, j + 1);
        assert Earlier(signals[i], signals[j]);
        assert f >= e;
        SuffixFewer(signals, window, e, f);
      }
    }
  }

  lemma {:induction false} FewestFrom(signals: seq<Signal>, window: int, i: nat, runs: seq<seq<Signal>>)
    requires i <= |signals| && Sorting.Sorted(signals, Earlier)
    requires IsPartition(runs, signals[i..], window)
    ensures |RunsFrom(signals, window, i)| <= |runs|
    decreases |runs|
  {
    if runs == [] {
      assert signals[i..] == [];
    } else {
      var first := runs[0];
      assert first in runs && Bounded(first, window);
      var j := i + |first|;
      assert first == signals[i..][..|first|] == signals[i..j];
      assert Grouping.Concat(runs[1..]) == signals[i..][|first|..] == signals[j..];
      FewestFrom(signals, window, j, runs[1..]);
      var e := RunEnd(signals, window, i, i + 1);
      forall k | i < k < j ensures signals[k].stamp - signals[i].stamp <= window {
        assert first[k - i] == signals[k];
      }
      SuffixFewer(signals, window, j, e);
    }
  }

  /** The greedy runs split the sorted signals into window-bounded runs, as few as possible. */
  lemma RunsAreFewest(signals: seq<Signal>, window: int, runs: seq<seq<Signal>>)
    requires Sorting.Sorted(signals, Earlier) && IsPartition(runs, signals, window)
    ensures IsPartition(Runs(signals, window), signals, window)
    ensures |Runs(signals, window)| <= |runs|
  {
    assert signals[0..] == signals;
    RunsFromPartition(signals, window, 0);
    FewestFrom(signals, window, 0, runs);
  }

  // ----- where a run starts -----------------------------------------------------------------

  lemma {:induction false} RunStart(signals: seq<Signal>, window: int, from: nat, i: nat)
    requires from <= i < |signals| && Sorting.Sorted(signals, Earlier)
    requires i == 0 || signals[i].stamp - signals[i - 1].stamp > window
    ensures signals[i..RunEnd(signals, window, i, i + 1)] in RunsFrom(signals, window, from)
    decreases i - from
  {
    var e := RunEnd(signals, window, from, from + 1);
    if from < i {
      assert from < i - 1 ==> Earlier(signals[from], signals[i - 1]);
      assert signals[i].stamp - signals[from].stamp > window;
      RunStart(signals, window, e, i);
    }
  }

  lemma NoMoreRuns(signals: seq<Signal>, window: int)
    ensures RunsFrom(signals, window, |signals|) == []
  {
  }

  lemma RunsHead(signals: seq<Signal>, window: int, i: nat)
    requires i < |signals|
    ensures var e := RunEnd(signals, window, i, i + 1);
            RunsFrom(signals, window, i) == [signals[i..e]] + RunsFrom(signals, window, e)
  {
  }

  lemma StrictlyLater(signals: seq<Signal>, window: int, i: nat, e: nat)
    requires i < e < |signals| && e == RunEnd(signals, window, i, i + 1) && window >= 0
    ensures signals[e - 1].stamp < signals[e].stamp
  {
    hide RunEnd;
    assert e - 1 > i ==> signals[e - 1].stamp - signals[i].stamp <= window;
  }

  /** A greedy run is a maximal slice, and whatever comes before it is strictly earlier. */
  lemma {:induction false} RunIs(signals: seq<Signal>, window: int, from: nat, run: seq<Signal>)
    returns (i: nat, e: nat)
    requires from <= |signals| && Sorting.Sorted(signals, Earlier)
    requires window >= 0
    requires from == 0 || from == |signals| || signals[from - 1].stamp < signals[from].stamp
    requires run in RunsFrom(signals, window, from)
    ensures from <= i < e <= |signals| && run == signals[i..e] && e == RunEnd(signals, window, i, i + 1)
    ensures i == 0 || signals[i - 1].stamp < signals[i].stamp
    decreases |signals| - from
  {
    hide RunEnd, RunsFrom;
    NoMoreRuns(signals, window);
    i, e := from, RunEnd(signals, window, from, from + 1);
    RunsHead(signals, window, from);
    if run != signals[i..e] {
      if e < |signals| {
        StrictlyLater(signals, window, from, e);
      }
      i, e := RunIs(signals, window, e, run);
    }
  }
}
