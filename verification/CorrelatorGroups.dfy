/** Which groups the correlator can find in one buffer. */
module CorrelatorGroups {
  import opened Correlation
  import opened CorrelatorClusters
  import Sorting
  import Grouping

  // ----- members of the same multiset -------------------------------------------------------

  lemma EarlierIsOrder()
    ensures Sorting.Preorder(Earlier)
  {
  }

  lemma ReceiverSet(signals: seq<Signal>)
    ensures Receivers(signals) == set s | s in signals :: s.receiver
  {
    forall s | s in signals ensures s.receiver in Receivers(signals) {
      var k :| 0 <= k < |signals| && signals[k] == s;
    }
  }

  lemma SameReceivers(a: seq<Signal>, b: seq<Signal>)
    requires multiset(a) == multiset(b)
    ensures Receivers(a) == Receivers(b)
  {
    ReceiverSet(a);
    ReceiverSet(b);
    forall s ensures s in a <==> s in b {
      assert s in a <==> s in multiset(a);
    }
  }

  lemma {:induction false} ReceiversAtMost(signals: seq<Signal>)
    ensures |Receivers(signals)| <= |signals|
  {
    if signals != [] {
      var front, last := signals[..|signals| - 1], signals[|signals| - 1];
      ReceiversAtMost(front);
      forall k | 0 <= k < |front| ensures front[k] == signals[k] {
      }
      assert Receivers(signals) == Receivers(front) + {last.receiver};
    }
  }

  lemma {:induction false} SliceCounts<T>(items: seq<T>, i: nat, j: nat)
    requires i <= j <= |items|
    ensures multiset(items[i..j]) <= multiset(items)
  {
    assert items == items[..i] + items[i..j] + items[j..];
  }

  // ----- soundness --------------------------------------------------------------------------

  /** Receptions of one message, each used once, from enough receivers, close in time, in order. */
  ghost predicate GoodGroup(c: Config, buffer: seq<Signal>, g: Group) {
    && g.signals != []
    && multiset(g.signals) <= multiset(buffer)
    && (forall s :: s in g.signals ==> s.message == g.message)
    && Sorting.Sorted(g.signals, Earlier)
    && |Receivers(g.signals)| >= c.minReceivers
    && Bounded(g.signals, c.window)
    && Span(g.signals) <= MAX_SPAN
    && g.firstTimestamp == g.signals[0].timestamp
    && g.timeSpan == Span(g.signals)
  }

  /** The signals of one message, sorted as `correlate` sorts them. */
  function InOrder(buffer: seq<Signal>, message: string): seq<Signal> {
    Sorting.Sort(Grouping.OfKey(buffer, MessageOf, message), Earlier)
  }

  lemma InOrderIs(buffer: seq<Signal>, message: string)
    ensures Sorting.Sorted(InOrder(buffer, message), Earlier)
    ensures multiset(InOrder(buffer, message)) == multiset(Grouping.OfKey(buffer, MessageOf, message))
    ensures |InOrder(buffer, message)| == |Grouping.OfKey(buffer, MessageOf, message)| <= |buffer|
    ensures forall s :: s in InOrder(buffer, message) <==> s in buffer && s.message == message
    ensures multiset(InOrder(buffer, message)) <= multiset(buffer)
  {
    hide Sorting.Sort, Sorting.Sorted, Grouping.Where, Sorting.Preorder;
    var ofMessage := Grouping.OfKey(buffer, MessageOf, message);
    EarlierIsOrder();
    Sorting.SortSorts(ofMessage, Earlier);
    Sorting.SortPermutes(ofMessage, Earlier);
    Grouping.OfKeyIs(buffer, MessageOf, message);
    forall s ensures s in InOrder(buffer, message) <==> s in buffer && s.message == message {
      Sorting.SortMember(ofMessage, Earlier, s);
    }
  }

  /** A candidate is a valid greedy run of the signals of its message. */
  lemma CandidateIsRun(c: Config, buffer: seq<Signal>, g: Group)
    requires g in Candidates(c, buffer)
    ensures g.signals in Runs(InOrder(buffer, g.message), c.window)
    ensures g.signals != [] && ValidCluster(c, g.signals)
    ensures g.firstTimestamp == g.signals[0].timestamp && g.timeSpan == Span(g.signals)
  {
    hide Runs, Sorting.Sort, ValidCluster, Grouping.OfKey, Receivers;
    var m :| m in Grouping.Keys(buffer, MessageOf) && g in GroupsOfMessage(c, buffer, m);
    var run :| run in Clusters(c, InOrder(buffer, m)) && ValidCluster(c, run) && g == MakeGroup(m, run);
    InOrderIs(buffer, m);
    RunSorted(InOrder(buffer, m), c.window, run);
    Sorting.SortOfSorted(run, Earlier);
  }

  lemma RunSorted(signals: seq<Signal>, window: int, run: seq<Signal>)
    requires Sorting.Sorted(signals, Earlier) && run in Runs(signals, window)
    ensures Sorting.Sorted(run, Earlier)
  {
    RunSliced(signals, window, 0, run);
  }

  lemma {:induction false} RunSliced(signals: seq<Signal>, window: int, from: nat, run: seq<Signal>)
    requires from <= |signals| && Sorting.Sorted(signals, Earlier) && run in RunsFrom(signals, window, from)
    ensures Sorting.Sorted(run, Earlier) && Bounded(run, window) && multiset(run) <= multiset(signals)
    decreases |signals| - from
  {
    var e := RunEnd(signals, window, from, from + 1);
    if run == signals[from..e] {
      SliceCounts(signals, from, e);
      forall k | 0 < k < |run| ensures run[k].stamp - run[0].stamp <= window {
        assert run[k] == signals[from + k];
      }
    } else {
      RunSliced(signals, window, e, run);
    }
  }

  lemma CandidateIsGood(c: Config, buffer: seq<Signal>, g: Group)
    requires g in Candidates(c, buffer)
    ensures GoodGroup(c, buffer, g)
  {
    hide RunsFrom, Sorting.Sort, Grouping.OfKey, Candidates, Receivers;
    var signals := InOrder(buffer, g.message);
    CandidateIsRun(c, buffer, g);
    InOrderIs(buffer, g.message);
    RunSliced(signals, c.window, 0, g.signals);
    forall s | s in g.signals ensures s.message == g.message {
      assert s in multiset(g.signals);
      assert s in signals;
    }
  }

  // ----- completeness -----------------------------------------------------------------------

  predicate InWindow(message: string, from: int, window: int, s: Signal) {
    s.message == message && from <= s.stamp <= from + window
  }

  /** What was heard of a message from `from` on, for one window. */
  function Heard(buffer: seq<Signal>, message: string, from: int, window: int): seq<Signal> {
    Grouping.Where(buffer, (s: Signal) => InWindow(message, from, window, s))
  }

  /** The message is heard at `from`, and not within one window before that. */
  ghost predicate Isolated(buffer: seq<Signal>, message: string, from: int, window: int) {
    && (exists s :: s in buffer && s.message == message && s.stamp == from)
    && (forall s :: s in buffer && s.message == message && s.stamp < from ==> s.stamp < from - window)
  }

  /** `g` was made of the receptions of `message` that start at `from`. */
  predicate StartsAt(g: Group, message: string, from: int) {
    g.message == message && g.signals != [] && g.signals[0].stamp == from
  }

  /** A greedy run from `i` is what lies in the window from its first signal, if nothing before it does. */
  lemma RunIsHeard(buffer: seq<Signal>, message: string, window: int, i: nat, e: nat)
    requires var signals := InOrder(buffer, message);
             && i < e <= |signals| && e == RunEnd(signals, window, i, i + 1) && window >= 0
             && (i == 0 || signals[i - 1].stamp < signals[i].stamp)
    ensures var signals := InOrder(buffer, message);
            multiset(signals[i..e]) == multiset(Heard(buffer, message, signals[i].stamp, window))
  {
    hide RunEnd, InOrder, Grouping.Where, MessageOf, Sorting.Sorted;
    var signals := InOrder(buffer, message);
    var from := signals[i].stamp;
    var heard := (s: Signal) => InWindow(message, from, window, s);
    InOrderIs(buffer, message);
    forall k | 0 <= k < |signals| ensures signals[k].message == message {
      assert signals[k] in signals;
    }
    RunIndices(signals, window, i, e, message);
    Grouping.WhereSlice(signals, heard, i, e);
    HeardInOrder(buffer, message, from, window);
  }

  lemma RunIndices(signals: seq<Signal>, window: int, i: nat, e: nat, message: string)
    requires Sorting.Sorted(signals, Earlier) && window >= 0
    requires i < e <= |signals| && e == RunEnd(signals, window, i, i + 1)
    requires i == 0 || signals[i - 1].stamp < signals[i].stamp
    requires forall k :: 0 <= k < |signals| ==> signals[k].message == message
    ensures forall k :: 0 <= k < |signals| ==> (InWindow(message, signals[i].stamp, window, signals[k]) <==> i <= k < e)
  {
    hide RunEnd;
    forall k | 0 <= k < |signals| ensures InWindow(message, signals[i].stamp, window, signals[k]) <==> i <= k < e {
      assert k < i - 1 ==> Earlier(signals[k], signals[i - 1]);
      assert i < k ==> Earlier(signals[i], signals[k]);
      assert e < k ==> Earlier(signals[e], signals[k]);
    }
  }

  /** Filtering before or after sorting keeps the same receptions. */
  lemma HeardInOrder(buffer: seq<Signal>, message: string, from: int, window: int)
    ensures multiset(Grouping.Where(InOrder(buffer, message), (s: Signal) => InWindow(message, from, window, s)))
            == multiset(Heard(buffer, message, from, window))
  {
    hide Grouping.Where, InOrder;
    var heard := (s: Signal) => InWindow(message, from, window, s);
    InOrderIs(buffer, message);
    Grouping.WhereSameMultiset(InOrder(buffer, message), Grouping.OfKey(buffer, MessageOf, message), heard);
    Grouping.OfKeyWhere(buffer, MessageOf, message, heard);
  }

  /** There is one candidate at most for a message and a first stamp, and it takes all that was heard. */
  lemma CandidateIsHeard(c: Config, buffer: seq<Signal>, g: Group)
    requires c.window >= 0 && g in Candidates(c, buffer)
    ensures g.signals != []
    ensures multiset(g.signals) == multiset(Heard(buffer, g.message, g.signals[0].stamp, c.window))
  {
    hide RunsFrom, RunEnd, Sorting.Sort, Grouping.OfKey, Candidates, ValidCluster, Heard;
    CandidateIsRun(c, buffer, g);
    InOrderIs(buffer, g.message);
    var i, e := RunIs(InOrder(buffer, g.message), c.window, 0, g.signals);
    RunIsHeard(buffer, g.message, c.window, i, e);
  }

  lemma FirstAt(signals: seq<Signal>, from: int) returns (i: nat)
    requires Sorting.Sorted(signals, Earlier)
    requires exists s :: s in signals && s.stamp == from
    ensures i < |signals| && signals[i].stamp == from
    ensures forall k :: 0 <= k < i ==> signals[k].stamp < from
  {
    var s :| s in signals && s.stamp == from;
    i :| 0 <= i < |signals| && signals[i] == s;
    while i > 0 && signals[i - 1].stamp == from
      invariant 0 <= i < |signals| && signals[i].stamp == from
    {
      i := i - 1;
    }
    forall k | 0 <= k < i ensures signals[k].stamp < from {
      assert k < i - 1 ==> Earlier(signals[k], signals[i - 1]);
      assert Earlier(signals[i - 1], signals[i]);
    }
  }

  /** Enough receivers heard it, and the last of them within 10 milliseconds of the first. */
  ghost predicate Locatable(c: Config, heard: seq<Signal>, from: int) {
    && |Receivers(heard)| >= c.minReceivers
    && forall s :: s in heard ==> s.stamp - from <= MAX_SPAN
  }

  lemma ClusterIsCandidate(c: Config, buffer: seq<Signal>, message: string, run: seq<Signal>)
    requires run in Runs(InOrder(buffer, message), c.window) && run != [] && ValidCluster(c, run)
    requires |run| <= |InOrder(buffer, message)|
    ensures MakeGroup(message, run) in Candidates(c, buffer)
    ensures MakeGroup(message, run).message == message && MakeGroup(message, run).signals == run
  {
    hide Runs, Sorting.Sort, Receivers;
    InOrderIs(buffer, message);
    RunSorted(InOrder(buffer, message), c.window, run);
    Sorting.SortOfSorted(run, Earlier);
    assert run in Clusters(c, InOrder(buffer, message));
    assert MakeGroup(message, run) in GroupsOfMessage(c, buffer, message);
    assert InOrder(buffer, message) != [];
    var s := InOrder(buffer, message)[0];
    assert s in buffer && MessageOf(s) == message;
    assert message in Grouping.Keys(buffer, MessageOf);
  }

  lemma IsolatedRun(c: Config, buffer: seq<Signal>, message: string, from: int) returns (run: seq<Signal>)
    requires c.window >= 0 && Isolated(buffer, message, from, c.window)
    ensures run in Runs(InOrder(buffer, message), c.window) && run != [] && run[0].stamp == from
    ensures |run| <= |InOrder(buffer, message)| && Sorting.Sorted(run, Earlier)
    ensures multiset(run) == multiset(Heard(buffer, message, from, c.window))
  {
    hide RunsFrom, RunEnd, Sorting.Sort, Grouping.OfKey, Heard;
    InOrderIs(buffer, message);
    var signals := InOrder(buffer, message);
    var s :| s in buffer && s.message == message && s.stamp == from;
    assert s in signals;
    var i := FirstAt(signals, from);
    assert i > 0 ==> signals[i - 1] in signals;
    RunStart(signals, c.window, 0, i);
    var e := RunEnd(signals, c.window, i, i + 1);
    run := signals[i..e];
    RunIsHeard(buffer, message, c.window, i, e);
  }

  /** An isolated transmission is a candidate exactly if what was heard of it is good enough. */
  lemma IsolatedIsCandidate(c: Config, buffer: seq<Signal>, message: string, from: int)
    requires c.window >= 0 && Isolated(buffer, message, from, c.window)
    ensures (exists g :: g in Candidates(c, buffer) && StartsAt(g, message, from))
            <==> Locatable(c, Heard(buffer, message, from, c.window), from)
  {
    hide Runs, Sorting.Sort, Heard, Candidates, Isolated, Receivers, GoodGroup;
    var heard := Heard(buffer, message, from, c.window);
    if g :| g in Candidates(c, buffer) && StartsAt(g, message, from) {
      CandidateIsHeard(c, buffer, g);
      CandidateIsGood(c, buffer, g);
      GoodIsLocatable(c, buffer, g, heard);
    }
    if Locatable(c, heard, from) {
      var run := IsolatedRun(c, buffer, message, from);
      SameReceivers(run, heard);
      ReceiversAtMost(run);
      assert run[|run| - 1] in multiset(heard);
      ClusterIsCandidate(c, buffer, message, run);
      assert StartsAt(MakeGroup(message, run), message, from);
    }
  }

  lemma GoodIsLocatable(c: Config, buffer: seq<Signal>, g: Group, heard: seq<Signal>)
    requires GoodGroup(c, buffer, g) && multiset(g.signals) == multiset(heard)
    ensures Locatable(c, heard, g.signals[0].stamp)
  {
    hide Receivers;
    SameReceivers(g.signals, heard);
    forall s | s in heard ensures s.stamp - g.signals[0].stamp <= MAX_SPAN {
      assert s in multiset(g.signals);
      var k :| 0 <= k < |g.signals| && g.signals[k] == s;
      assert k < |g.signals| - 1 ==> Earlier(g.signals[k], g.signals[|g.signals| - 1]);
    }
  }
}
