/**
 When the correlator returns a reception a second time, in a group with another id: why it can
 happen, and when it does.
 */
module CorrelatorRepeats {
  import opened Correlation
  import opened CorrelatorClusters
  import opened CorrelatorGroups
  import opened CorrelatorHistory
  import Sorting

  // ----- where runs start, from the stamps alone --------------------------------------------

  ghost function StampsOf(signals: seq<Signal>): set<int> {
    set s | s in signals :: s.stamp
  }

  ghost function Below(stamps: set<int>, t: int): set<int> {
    set u | u in stamps && u < t
  }

  lemma BelowShrinks(stamps: set<int>, u: int, t: int)
    requires u in stamps && u < t
    ensures Below(stamps, u) < Below(stamps, t)
  {
    assert u in Below(stamps, t) && u !in Below(stamps, u);
  }

  /** A run starts at `t` if it is a stamp and no run starts within one window before it. */
  ghost predicate IsStart(stamps: set<int>, window: int, t: int)
    decreases Below(stamps, t)
  {
    && t in stamps
    && forall u :: u in stamps && t - window <= u < t ==> (BelowShrinks(stamps, u, t); !IsStart(stamps, window, u))
  }

  /** Whether a run starts at `t` depends on the stamps up to `t` only. */
  lemma {:induction false} StartDependsOnPast(a: set<int>, b: set<int>, window: int, t: int)
    requires forall u :: u <= t ==> (u in a <==> u in b)
    ensures IsStart(a, window, t) <==> IsStart(b, window, t)
    decreases Below(a, t)
  {
    forall u | u in a && t - window <= u < t ensures IsStart(a, window, u) <==> IsStart(b, window, u) {
      BelowShrinks(a, u, t);
      StartDependsOnPast(a, b, window, u);
    }
  }

  lemma StampIs(signals: seq<Signal>, t: int)
    ensures t in StampsOf(signals) <==> exists k :: 0 <= k < |signals| && signals[k].stamp == t
  {
    if k :| 0 <= k < |signals| && signals[k].stamp == t {
      assert signals[k] in signals;
    }
  }

  lemma OnlyStampsStart(stamps: set<int>, window: int, u: int)
    requires u !in stamps
    ensures !IsStart(stamps, window, u)
  {
  }

  lemma StartIs(stamps: set<int>, window: int, t: int)
    ensures IsStart(stamps, window, t) <==>
            t in stamps && forall u :: t - window <= u < t ==> !IsStart(stamps, window, u)
  {
    forall u | t - window <= u < t && IsStart(stamps, window, t) ensures !IsStart(stamps, window, u) {
      if u in stamps {
        BelowShrinks(stamps, u, t);
      }
    }
    if t in stamps && !IsStart(stamps, window, t) {
      var u :| u in stamps && t - window <= u < t && (BelowShrinks(stamps, u, t); IsStart(stamps, window, u));
      assert IsStart(stamps, window, u);
    }
  }

  /** No run starts within one window before signal `from`. */
  ghost predicate Boundary(signals: seq<Signal>, window: int, from: nat)
    requires from < |signals|
  {
    forall u :: signals[from].stamp - window <= u < signals[from].stamp ==> !IsStart(StampsOf(signals), window, u)
  }

  lemma {:induction false} RunsLater(signals: seq<Signal>, window: int, from: nat, r: seq<Signal>)
    requires from <= |signals| && Sorting.Sorted(signals, Earlier) && r in RunsFrom(signals, window, from)
    ensures r != [] && from < |signals| && r[0].stamp >= signals[from].stamp
    decreases |signals| - from
  {
    hide RunEnd, RunsFrom;
    NoMoreRuns(signals, window);
    RunsHead(signals, window, from);
    var e := RunEnd(signals, window, from, from + 1);
    if r != signals[from..e] {
      RunsLater(signals, window, e, r);
      assert Earlier(signals[from], signals[e]);
    }
  }

  /** Between the first signal of a run and the next run nothing starts. */
  lemma GapIsQuiet(signals: seq<Signal>, window: int, from: nat, u: int)
    requires window >= 0 && from < |signals| && Sorting.Sorted(signals, Earlier)
    requires IsStart(StampsOf(signals), window, signals[from].stamp) && u > signals[from].stamp
    requires var e := RunEnd(signals, window, from, from + 1); e < |signals| ==> u < signals[e].stamp
    ensures !IsStart(StampsOf(signals), window, u)
  {
    hide RunEnd, IsStart;
    var e := RunEnd(signals, window, from, from + 1);
    StartIs(StampsOf(signals), window, u);
    if u > signals[from].stamp + window {
      forall k | 0 <= k < |signals| ensures signals[k].stamp != u {
        assert k < from ==> Earlier(signals[k], signals[from]);
        assert e < k ==> Earlier(signals[e], signals[k]);
      }
      StampIs(signals, u);
    }
  }

  /** The greedy runs from a boundary on start where the stamps say. */
  lemma {:induction false} RunsStart(signals: seq<Signal>, window: int, from: nat, t: int)
    requires window >= 0 && from < |signals| && Sorting.Sorted(signals, Earlier)
    requires Boundary(signals, window, from) && t >= signals[from].stamp
    ensures IsStart(StampsOf(signals), window, t) <==>
            exists r: seq<Signal> :: r in RunsFrom(signals, window, from) && r != [] && r[0].stamp == t
    decreases |signals| - from
  {
    hide RunEnd, RunsFrom, IsStart, StampsOf;
    var stamps := StampsOf(signals);
    var e := RunEnd(signals, window, from, from + 1);
    var first, rest := signals[from..e], RunsFrom(signals, window, e);
    RunsHead(signals, window, from);
    StampIs(signals, signals[from].stamp);
    StartIs(stamps, window, signals[from].stamp);
    if t == signals[from].stamp {
      assert first in RunsFrom(signals, window, from) && first[0].stamp == t;
    } else if e == |signals| || t < signals[e].stamp {
      GapIsQuiet(signals, window, from, t);
      forall r: seq<Signal> | r in rest ensures r != [] && r[0].stamp != t {
        RunsLater(signals, window, e, r);
      }
    } else {
      NextBoundary(signals, window, from);
      RunsStart(signals, window, e, t);
      forall r: seq<Signal> | r in RunsFrom(signals, window, from) && r != [] && r[0].stamp == t ensures r in rest {
      }
    }
  }

  lemma NextBoundary(signals: seq<Signal>, window: int, from: nat)
    requires window >= 0 && from < |signals| && Sorting.Sorted(signals, Earlier)
    requires IsStart(StampsOf(signals), window, signals[from].stamp)
    requires RunEnd(signals, window, from, from + 1) < |signals|
    ensures Boundary(signals, window, RunEnd(signals, window, from, from + 1))
  {
    hide RunEnd, IsStart;
    var e := RunEnd(signals, window, from, from + 1);
    forall u | signals[e].stamp - window <= u < signals[e].stamp ensures !IsStart(StampsOf(signals), window, u) {
      GapIsQuiet(signals, window, from, u);
    }
  }

  /** The stamps of a message in a buffer. */
  ghost function MessageStamps(buffer: seq<Signal>, message: string): set<int> {
    set s | s in buffer && s.message == message :: s.stamp
  }

  /** The runs of a message start where its stamps say. */
  lemma RunsOfMessage(buffer: seq<Signal>, message: string, window: int, t: int)
    requires window >= 0
    ensures IsStart(MessageStamps(buffer, message), window, t) <==>
            exists r: seq<Signal> :: r in Runs(InOrder(buffer, message), window) && r != [] && r[0].stamp == t
  {
    hide RunEnd, RunsFrom, IsStart, InOrder;
    var signals := InOrder(buffer, message);
    InOrderIs(buffer, message);
    assert StampsOf(signals) == MessageStamps(buffer, message);
    if signals == [] {
      NoMoreRuns(signals, window);
      OnlyStampsStart(MessageStamps(buffer, message), window, t);
    } else {
      forall u | u < signals[0].stamp ensures !IsStart(StampsOf(signals), window, u) {
        forall k | 0 <= k < |signals| ensures signals[k].stamp != u {
          assert k > 0 ==> Earlier(signals[0], signals[k]);
        }
        StampIs(signals, u);
        OnlyStampsStart(StampsOf(signals), window, u);
      }
      if t >= signals[0].stamp {
        RunsStart(signals, window, 0, t);
      } else {
        forall r: seq<Signal> | r in Runs(signals, window) ensures r[0].stamp != t {
          RunsLater(signals, window, 0, r);
        }
      }
    }
  }

  // ----- candidates -------------------------------------------------------------------------

  /** The groups of a buffer are those that start a run of their message and are heard well enough. */
  lemma CandidateIff(c: Config, buffer: seq<Signal>, message: string, from: int)
    requires c.window >= 0
    ensures (exists g :: g in Candidates(c, buffer) && StartsAt(g, message, from)) <==>
            && IsStart(MessageStamps(buffer, message), c.window, from)
            && Locatable(c, Heard(buffer, message, from, c.window), from)
  {
    hide Runs, RunsFrom, Candidates, Heard, InOrder, IsStart, Receivers, GoodGroup, Locatable, ValidCluster;
    RunsOfMessage(buffer, message, c.window, from);
    var heard := Heard(buffer, message, from, c.window);
    if g :| g in Candidates(c, buffer) && StartsAt(g, message, from) {
      CandidateIsRun(c, buffer, g);
      CandidateIsHeard(c, buffer, g);
      CandidateIsGood(c, buffer, g);
      GoodIsLocatable(c, buffer, g, heard);
    }
    if IsStart(MessageStamps(buffer, message), c.window, from) && Locatable(c, heard, from) {
      var r: seq<Signal> :| r in Runs(InOrder(buffer, message), c.window) && r != [] && r[0].stamp == from;
      RunIsCandidate(c, buffer, message, r);
      assert StartsAt(MakeGroup(message, r), message, from);
    }
  }

  /** A run of a message is everything heard in its window, and a candidate if that is good enough. */
  lemma RunIsValid(c: Config, run: seq<Signal>, heard: seq<Signal>)
    requires run != [] && multiset(run) == multiset(heard) && Locatable(c, heard, run[0].stamp)
    ensures ValidCluster(c, run)
  {
    hide Receivers;
    SameReceivers(run, heard);
    ReceiversAtMost(run);
    assert run[|run| - 1] in multiset(heard);
  }

  lemma RunIsCandidate(c: Config, buffer: seq<Signal>, message: string, run: seq<Signal>)
    requires c.window >= 0 && run != [] && run in Runs(InOrder(buffer, message), c.window)
    requires Locatable(c, Heard(buffer, message, run[0].stamp, c.window), run[0].stamp)
    ensures MakeGroup(message, run) in Candidates(c, buffer)
    ensures MakeGroup(message, run).message == message && MakeGroup(message, run).signals == run
  {
    hide RunsFrom, RunEnd, Candidates, Heard, InOrder, Receivers, Locatable, ValidCluster, MakeGroup;
    var signals := InOrder(buffer, message);
    InOrderIs(buffer, message);
    var i, e := RunIs(signals, c.window, 0, run);
    RunIsHeard(buffer, message, c.window, i, e);
    RunIsValid(c, run, Heard(buffer, message, run[0].stamp, c.window));
    ClusterIsCandidate(c, buffer, message, run);
  }

  // ----- when the next call returns a reception ---------------------------------------------

  /** A group with this message and first stamp is among those returned. */
  ghost predicate AlreadyReturned(returned: seq<Group>, message: string, from: int) {
    exists g :: g in returned && StartsAt(g, message, from)
  }

  /** The reception is buffered, and the run it lies in is heard well enough and was not returned before. */
  ghost predicate IsDue(c: Config, t: Trace, s: Signal, from: int) {
    && s in t.state.buffer && from <= s.stamp <= from + c.window
    && IsStart(MessageStamps(t.state.buffer, s.message), c.window, from)
    && Locatable(c, Heard(t.state.buffer, s.message, from, c.window), from)
    && !AlreadyReturned(t.returned, s.message, from)
  }

  lemma HeardMember(buffer: seq<Signal>, message: string, from: int, window: int, s: Signal)
    ensures s in Heard(buffer, message, from, window) <==>
            s in buffer && s.message == message && from <= s.stamp <= from + window
  {
  }

  lemma GroupMember(c: Config, buffer: seq<Signal>, g: Group, s: Signal)
    requires c.window >= 0 && g in Candidates(c, buffer)
    ensures g.signals != []
    ensures s in g.signals <==> s in Heard(buffer, g.message, g.signals[0].stamp, c.window)
    ensures g.signals[0].message == g.message
    ensures IsStart(MessageStamps(buffer, g.message), c.window, g.signals[0].stamp)
  {
    hide Candidates, Heard, IsStart, GoodGroup, Locatable;
    CandidateIsHeard(c, buffer, g);
    var from := g.signals[0].stamp;
    assert s in g.signals <==> s in multiset(Heard(buffer, g.message, from, c.window));
    assert g.signals[0] in multiset(Heard(buffer, g.message, from, c.window));
    HeardMember(buffer, g.message, from, c.window, g.signals[0]);
    assert StartsAt(g, g.message, from);
    CandidateIff(c, buffer, g.message, from);
  }

  /** What the next call returns is a candidate that was not returned before. */
  lemma EmittedIs(c: Config, calls: seq<Call>, g: Group)
    requires g in Correlated(c, Run(c, calls).state).groups
    ensures g in Candidates(c, Run(c, calls).state.buffer) && g.signals != []
    ensures !AlreadyReturned(Run(c, calls).returned, g.message, g.signals[0].stamp)
  {
    hide Candidates, Run, IdOf, Emit, Noted, StartsAt;
    var t := Run(c, calls);
    RunIsNoted(c, calls);
    EmitKeepsNoted(t.returned, t.state.processed, Candidates(c, t.state.buffer));
    var e := Emit(Candidates(c, t.state.buffer), t.state.processed);
    forall h | h in t.returned ensures !StartsAt(h, g.message, g.signals[0].stamp) {
      NotedDiffer(t.returned, e.groups, e.processed, h, g);
      SameStartSameId(h, g);
    }
  }

  lemma NotedDiffer(returned: seq<Group>, emitted: seq<Group>, processed: set<string>, h: Group, g: Group)
    requires Noted(returned + emitted, processed) && h in returned && g in emitted
    ensures h.signals != [] && g.signals != [] && IdOf(h) != IdOf(g)
  {
    hide IdOf;
    var all := returned + emitted;
    var i :| 0 <= i < |returned| && returned[i] == h;
    var j :| 0 <= j < |emitted| && emitted[j] == g;
    assert all[i] == h && all[|returned| + j] == g;
    assert h in all && g in all;
  }

  lemma SameStartSameId(a: Group, b: Group)
    requires a.signals != [] && b.signals != []
    ensures StartsAt(a, b.message, b.signals[0].stamp) ==> IdOf(a) == IdOf(b)
  {
  }

  /** A candidate that was not returned before is returned by the next call, under its message and first stamp. */
  lemma NewIsEmitted(c: Config, calls: seq<Call>, g: Group) returns (h: Group)
    requires g in Candidates(c, Run(c, calls).state.buffer) && g.signals != []
    requires !AlreadyReturned(Run(c, calls).returned, g.message, g.signals[0].stamp)
    ensures h in Correlated(c, Run(c, calls).state).groups && StartsAt(h, g.message, g.signals[0].stamp)
  {
    hide Candidates, Run, IdOf;
    var t := Run(c, calls);
    RunIsNoted(c, calls);
    EmitKeepsNoted(t.returned, t.state.processed, Candidates(c, t.state.buffer));
    h :| h in t.returned + Correlated(c, t.state).groups && h.signals != [] && IdOf(h) == IdOf(g);
    IdsDiffer(g, h);
    assert StartsAt(h, g.message, g.signals[0].stamp);
  }

  /** The next call returns a reception, for the first time or again, exactly if it is due. */
  lemma ReturnedNextIff(c: Config, calls: seq<Call>, s: Signal)
    requires c.window >= 0
    ensures (exists g :: g in Correlated(c, Run(c, calls).state).groups && s in g.signals) <==>
            exists from :: IsDue(c, Run(c, calls), s, from)
  {
    hide Candidates, Run, IsStart, Locatable, Heard, Correlated, AlreadyReturned;
    var t := Run(c, calls);
    var buffer := t.state.buffer;
    if g :| g in Correlated(c, t.state).groups && s in g.signals {
      EmittedIs(c, calls, g);
      GroupMember(c, buffer, g, s);
      var from := g.signals[0].stamp;
      HeardMember(buffer, g.message, from, c.window, s);
      CandidateIff(c, buffer, g.message, from);
      assert StartsAt(g, g.message, from);
      assert IsDue(c, t, s, from);
    }
    if from :| IsDue(c, t, s, from) {
      CandidateIff(c, buffer, s.message, from);
      var g :| g in Candidates(c, buffer) && StartsAt(g, s.message, from);
      var h := NewIsEmitted(c, calls, g);
      EmittedIs(c, calls, h);
      GroupMember(c, buffer, h, s);
      HeardMember(buffer, s.message, from, c.window, s);
    }
  }

  // ----- why a reception is returned again --------------------------------------------------

  /** Two runs that share a stamp start at the same one, if the stamps before the later start agree. */
  lemma SameStart(a: set<int>, b: set<int>, window: int, x: int, y: int, shared: int)
    requires IsStart(a, window, x) && IsStart(b, window, y)
    requires x <= shared <= x + window && y <= shared <= y + window
    requires forall u :: u < x || u < y ==> (u in a <==> u in b)
    ensures x == y
  {
    hide IsStart;
    if x < y {
      StartDependsOnPast(a, b, window, x);
      StartIs(b, window, y);
    } else if y < x {
      StartDependsOnPast(b, a, window, y);
      StartIs(a, window, x);
    }
  }

  /** The calls up to `after` brought `x`, those up to `before` did not. */
  ghost predicate Arrived(before: seq<Call>, after: seq<Call>, x: Signal) {
    x !in Arrivals(before) && x in Arrivals(after)
  }

  /** How old a signal may be after the calls. */
  ghost function Cutoff(c: Config, calls: seq<Call>): real
    requires Arrivals(calls) != []
  {
    Newest(Arrivals(calls)) - c.duration
  }

  /** `x` was recent enough after the calls `before`, and too old after the calls `after`. */
  ghost predicate Evicted(c: Config, before: seq<Call>, after: seq<Call>, x: Signal) {
    && x in Arrivals(before) && x in Arrivals(after)
    && Cutoff(c, before) <= x.timestamp < Cutoff(c, after)
  }

  lemma {:induction false} ArrivalsGrow(calls: seq<Call>, m: nat)
    requires m <= |calls|
    ensures Arrivals(calls[..m]) <= Arrivals(calls)
    decreases |calls|
  {
    if m == |calls| {
      assert calls[..m] == calls;
    } else {
      var front := calls[..|calls| - 1];
      ArrivalsGrow(front, m);
      assert front[..m] == calls[..m];
    }
  }

  lemma BufferedIff(c: Config, calls: seq<Call>, x: Signal)
    ensures x in Run(c, calls).state.buffer <==> x in Arrivals(calls) && x.timestamp >= Cutoff(c, calls)
  {
    hide Run, Newest;
    BufferIsRecent(c, calls);
    if Arrivals(calls) != [] {
      RecentIs(Arrivals(calls), c.duration, Cutoff(c, calls));
    }
  }

  lemma CutoffGrows(c: Config, calls: seq<Call>, m: nat)
    requires m <= |calls| && Arrivals(calls[..m]) != []
    ensures Arrivals(calls) != [] && Cutoff(c, calls[..m]) <= Cutoff(c, calls)
  {
    hide Newest, Arrivals;
    ArrivalsGrow(calls, m);
    var earlier, all := Arrivals(calls[..m]), Arrivals(calls);
    assert all == earlier + all[|earlier|..];
    NewestGrows(earlier, all[|earlier|..]);
  }

  /** What is buffered at one time and not at another has arrived or was evicted in between. */
  lemma BufferChange(c: Config, calls: seq<Call>, m: nat, x: Signal)
    requires m <= |calls|
    requires x in Run(c, calls[..m]).state.buffer <==> x !in Run(c, calls).state.buffer
    ensures Arrived(calls[..m], calls, x) || Evicted(c, calls[..m], calls, x)
  {
    hide Run, Cutoff;
    BufferedIff(c, calls[..m], x);
    BufferedIff(c, calls, x);
    ArrivalsGrow(calls, m);
    if x in Arrivals(calls[..m]) {
      CutoffGrows(c, calls, m);
    }
  }

  lemma {:induction false} ReturnedGrows(c: Config, calls: seq<Call>, m: nat)
    requires m <= |calls|
    ensures Run(c, calls[..m]).returned <= Run(c, calls).returned
    decreases |calls|
  {
    hide Correlated, Added;
    if m == |calls| {
      assert calls[..m] == calls;
    } else {
      var front := calls[..|calls| - 1];
      ReturnedGrows(c, front, m);
      assert front[..m] == calls[..m];
    }
  }

  lemma ReturnedGrowsBetween(c: Config, calls: seq<Call>, k: nat, m: nat)
    requires k <= m <= |calls|
    ensures Run(c, calls[..k]).returned <= Run(c, calls[..m]).returned
  {
    hide Run;
    ReturnedGrows(c, calls[..m], k);
    assert calls[..m][..k] == calls[..k];
  }

  lemma ReturnedByLast(c: Config, calls: seq<Call>, i: nat)
    requires calls != [] && |Run(c, calls[..|calls| - 1]).returned| <= i < |Run(c, calls).returned|
    ensures calls[|calls| - 1].Correlate?
    ensures Run(c, calls).returned[i] in Candidates(c, Run(c, calls[..|calls| - 1]).state.buffer)
  {
    hide Candidates, Added, Emit, Noted;
    var t := Run(c, calls[..|calls| - 1]);
    RunIsNoted(c, calls[..|calls| - 1]);
    EmitKeepsNoted(t.returned, t.state.processed, Candidates(c, t.state.buffer));
  }

  /** The call that returned a group, which was a candidate then. */
  lemma {:induction false} ReturnedBy(c: Config, calls: seq<Call>, i: nat) returns (n: nat)
    requires i < |Run(c, calls).returned|
    ensures n < |calls| && calls[n].Correlate?
    ensures |Run(c, calls[..n]).returned| <= i < |Run(c, calls[..n + 1]).returned|
    ensures Run(c, calls).returned[i] in Candidates(c, Run(c, calls[..n]).state.buffer)
    decreases |calls|
  {
    hide Candidates, Run;
    NothingYet(c);
    assert calls != [];
    var front := calls[..|calls| - 1];
    if i < |Run(c, front).returned| {
      n := ReturnedBy(c, front, i);
      ReturnedGrows(c, calls, |calls| - 1);
      assert front[..n] == calls[..n] && front[..n + 1] == calls[..n + 1];
    } else {
      n := |calls| - 1;
      assert calls[..n + 1] == calls;
      ReturnedByLast(c, calls, i);
    }
  }

  lemma NothingYet(c: Config)
    ensures Run(c, []).returned == []
  {
  }

  lemma CallsInOrder(c: Config, calls: seq<Call>, i: nat, j: nat, m: nat, n: nat)
    requires m < |calls| && n < |calls| && i < j
    requires |Run(c, calls[..m]).returned| <= i && j < |Run(c, calls[..n + 1]).returned|
    ensures m <= n
  {
    hide Run;
    if n < m {
      ReturnedGrowsBetween(c, calls, n + 1, m);
    }
  }

  /** Some signal of the message, before the later start, is buffered at one time only. */
  lemma StampChange(earlier: seq<Signal>, later: seq<Signal>, message: string, window: int, x: int, y: int, shared: int)
    returns (change: Signal)
    requires IsStart(MessageStamps(earlier, message), window, x) && IsStart(MessageStamps(later, message), window, y)
    requires x <= shared <= x + window && y <= shared <= y + window && x != y
    ensures change.message == message && (change.stamp < x || change.stamp < y)
    ensures change in earlier <==> change !in later
  {
    hide IsStart;
    var a, b := MessageStamps(earlier, message), MessageStamps(later, message);
    if forall u :: u < x || u < y ==> (u in a <==> u in b) {
      SameStart(a, b, window, x, y, shared);
    }
    var u :| (u < x || u < y) && (u in a <==> u !in b);
    if u in a {
      change :| change in earlier && change.message == message && change.stamp == u;
    } else {
      change :| change in later && change.message == message && change.stamp == u;
    }
  }

  /**
   If two returned groups share a reception, then different calls returned them, and in between
   a signal of their message with a stamp before the later of their first stamps arrived, or one
   was evicted. Without such a signal no reception is returned twice.
   */
  lemma RepeatHasCause(c: Config, calls: seq<Call>, i: nat, j: nat, s: Signal)
    returns (m: nat, n: nat, cause: Signal)
    requires c.window >= 0 && i < j < |Run(c, calls).returned|
    requires s in Run(c, calls).returned[i].signals && s in Run(c, calls).returned[j].signals
    ensures m < n < |calls| && calls[m].Correlate? && calls[n].Correlate?
    ensures |Run(c, calls[..m]).returned| <= i < |Run(c, calls[..m + 1]).returned|
    ensures |Run(c, calls[..n]).returned| <= j < |Run(c, calls[..n + 1]).returned|
    ensures cause.message == s.message
    ensures var g, h := Run(c, calls).returned[i], Run(c, calls).returned[j];
            && g.signals != [] && h.signals != []
            && (cause.stamp < g.signals[0].stamp || cause.stamp < h.signals[0].stamp)
    ensures Arrived(calls[..m], calls[..n], cause) || Evicted(c, calls[..m], calls[..n], cause)
  {
    hide Run, Candidates, Heard, IsStart, Arrived, Evicted, MessageStamps;
    var g, h := Run(c, calls).returned[i], Run(c, calls).returned[j];
    m := ReturnedBy(c, calls, i);
    n := ReturnedBy(c, calls, j);
    CallsInOrder(c, calls, i, j, m, n);
    var earlier, later := Run(c, calls[..m]).state.buffer, Run(c, calls[..n]).state.buffer;
    GroupMember(c, earlier, g, s);
    GroupMember(c, later, h, s);
    HeardMember(earlier, g.message, g.signals[0].stamp, c.window, s);
    HeardMember(later, h.message, h.signals[0].stamp, c.window, s);
    NeverTwice(c, calls, i, j);
    cause := StampChange(earlier, later, s.message, c.window, g.signals[0].stamp, h.signals[0].stamp, s.stamp);
    assert calls[..n][..m] == calls[..m];
    BufferChange(c, calls[..n], m, cause);
    assert m != n by {
      assert cause in earlier <==> cause !in later;
    }
  }

  // ----- two ways to be returned again ------------------------------------------------------

  /** One call more that returns a reception returned before. */
  lemma SharedByNext(c: Config, calls: seq<Call>, s: Signal, from: int)
    requires c.window >= 0 && IsDue(c, Run(c, calls), s, from)
    requires exists g :: g in Run(c, calls).returned && s in g.signals
    ensures var returned := Run(c, calls + [Correlate]).returned;
            exists i, j :: 0 <= i < j < |returned| && s in returned[i].signals && s in returned[j].signals
  {
    hide Run, IsDue, Correlated;
    ReturnedNextIff(c, calls, s);
    RunCorrelates(c, calls);
    var before, next := Run(c, calls).returned, Correlated(c, Run(c, calls).state).groups;
    var g :| g in before && s in g.signals;
    var h :| h in next && s in h.signals;
    var i :| 0 <= i < |before| && before[i] == g;
    var j :| 0 <= j < |next| && next[j] == h;
    var returned := before + next;
    assert returned[i] == g && returned[|before| + j] == h;
  }

  const PAIRS: Config := Config(1_000_000, 2, 2.0)

  lemma TwoReceivers(signals: seq<Signal>, a: Signal, b: Signal)
    requires a in signals && b in signals && a.receiver != b.receiver
    ensures |Receivers(signals)| >= 2
  {
    ReceiverSet(signals);
    assert {a.receiver, b.receiver} <= Receivers(signals);
    assert Receivers(signals) == {a.receiver, b.receiver} + (Receivers(signals) - {a.receiver, b.receiver});
  }

  /** Two receivers heard a message at `from` or soon after, nobody before: it is due, if it was not returned yet. */
  lemma FirstIsDue(t: Trace, a: Signal, b: Signal, from: int)
    requires a in t.state.buffer && b in t.state.buffer && a.message == b.message && a.receiver != b.receiver
    requires from in MessageStamps(t.state.buffer, a.message)
    requires from <= a.stamp <= from + PAIRS.window && from <= b.stamp <= from + PAIRS.window
    requires forall s :: s in t.state.buffer && s.message == a.message ==> s.stamp >= from
    requires !AlreadyReturned(t.returned, a.message, from)
    ensures IsDue(PAIRS, t, a, from) && IsDue(PAIRS, t, b, from)
  {
    hide AlreadyReturned, Heard, Receivers;
    var heard := Heard(t.state.buffer, a.message, from, PAIRS.window);
    HeardMember(t.state.buffer, a.message, from, PAIRS.window, a);
    HeardMember(t.state.buffer, a.message, from, PAIRS.window, b);
    TwoReceivers(heard, a, b);
    forall s | s in heard ensures s.stamp - from <= MAX_SPAN {
      HeardMember(t.state.buffer, a.message, from, PAIRS.window, s);
    }
    assert IsStart(MessageStamps(t.state.buffer, a.message), PAIRS.window, from);
  }

  lemma Uncalled(c: Config)
    ensures Run(c, []) == Trace(State([], {}), []) && Arrivals([]) == []
  {
  }

  lemma AfterCall(c: Config, calls: seq<Call>, call: Call)
    ensures Run(c, calls + [call]) == After(c, Run(c, calls), call)
    ensures Arrivals(calls + [call]) == Arrivals(calls) + match call
                                                          case AddSignal(s) => [s]
                                                          case AddSignals(batch) => batch
                                                          case Correlate => []
  {
    assert (calls + [call])[..|calls|] == calls;
  }

  lemma CutoffOf(c: Config, calls: seq<Call>, newest: Signal)
    requires newest in Arrivals(calls) && forall x :: x in Arrivals(calls) ==> x.timestamp <= newest.timestamp
    ensures Cutoff(c, calls) == newest.timestamp - c.duration
  {
    hide Newest;
    var x := TheNewest(Arrivals(calls));
    NewestIsLatest(Arrivals(calls), newest);
  }

  lemma NewestIsLatest(signals: seq<Signal>, s: Signal)
    requires s in signals
    ensures s.timestamp <= Newest(signals)
  {
  }

  /** What the first call of both runs returns: the whole message, under its first stamp. */
  lemma FirstGroup(signals: seq<Signal>, a: Signal, b: Signal)
    requires a in signals && b in signals && a.message == b.message && a.receiver != b.receiver
    requires forall s :: s in signals ==> 0.0 <= s.timestamp <= 1.0 && a.stamp <= s.stamp <= a.stamp + PAIRS.window
    ensures var calls := [AddSignals(signals)];
            && Arrivals(calls + [Correlate]) == signals
            && (exists g :: g in Run(PAIRS, calls + [Correlate]).returned && b in g.signals)
            && forall from :: from != a.stamp ==> !AlreadyReturned(Run(PAIRS, calls + [Correlate]).returned, a.message, from)
  {
    hide Run, IsDue, Correlated, Cutoff, AlreadyReturned, MessageStamps;
    var calls := [AddSignals(signals)];
    Uncalled(PAIRS);
    AfterCall(PAIRS, [], AddSignals(signals));
    AfterCall(PAIRS, calls, Correlate);
    assert [] + [AddSignals(signals)] == calls && [] + signals == signals && signals + [] == signals;
    var newest := TheNewest(Arrivals(calls));
    forall x | x in signals ensures x.timestamp <= newest.timestamp {
      NewestIsLatest(signals, x);
    }
    CutoffOf(PAIRS, calls, newest);
    var t := Run(PAIRS, calls);
    forall x ensures x in t.state.buffer <==> x in signals {
      BufferedIff(PAIRS, calls, x);
    }
    StampOfMessage(t.state.buffer, a);
    NoneReturned(calls);
    assert !AlreadyReturned([], a.message, a.stamp) by {
      NothingIsIn(a.message, a.stamp);
    }
    FirstIsDue(t, a, b, a.stamp);
    ReturnedNextIff(PAIRS, calls, b);
    RunCorrelates(PAIRS, calls);
    forall from | from != a.stamp
      ensures !AlreadyReturned(Run(PAIRS, calls + [Correlate]).returned, a.message, from)
    {
      OnlyOneStart(calls, a, from);
    }
  }

  /** When all of a message lies in the window from its first signal, only that one starts a group. */
  lemma OnlyOneStart(calls: seq<Call>, a: Signal, from: int)
    requires |calls| == 1 && calls[0].AddSignals? && a in Run(PAIRS, calls).state.buffer && from != a.stamp
    requires forall s :: s in Run(PAIRS, calls).state.buffer ==> a.stamp <= s.stamp <= a.stamp + PAIRS.window
    ensures !AlreadyReturned(Run(PAIRS, calls + [Correlate]).returned, a.message, from)
  {
    hide Run, Correlated, IsStart, MessageStamps, Candidates;
    var buffer := Run(PAIRS, calls).state.buffer;
    RunCorrelates(PAIRS, calls);
    NoneReturned(calls);
    StampsWithin(buffer, a);
    forall g | g in Correlated(PAIRS, Run(PAIRS, calls).state).groups ensures !StartsAt(g, a.message, from) {
      EmittedIs(PAIRS, calls, g);
      GroupMember(PAIRS, buffer, g, g.signals[0]);
      if g.message == a.message {
        StartWithin(MessageStamps(buffer, a.message), PAIRS.window, a.stamp, g.signals[0].stamp);
      }
    }
  }

  lemma StampsWithin(buffer: seq<Signal>, a: Signal)
    requires a in buffer && forall s :: s in buffer ==> a.stamp <= s.stamp <= a.stamp + PAIRS.window
    ensures a.stamp in MessageStamps(buffer, a.message)
    ensures forall u :: u in MessageStamps(buffer, a.message) ==> a.stamp <= u <= a.stamp + PAIRS.window
  {
  }

  lemma StartWithin(stamps: set<int>, window: int, first: int, t: int)
    requires first in stamps && forall u :: u in stamps ==> first <= u <= first + window
    requires IsStart(stamps, window, t)
    ensures t == first
  {
    hide IsStart;
    StartIs(stamps, window, t);
    StartIs(stamps, window, first);
    forall u | u < first ensures !IsStart(stamps, window, u) {
      OnlyStampsStart(stamps, window, u);
    }
    OnlyIfStamp(stamps, window, t);
  }

  lemma OnlyIfStamp(stamps: set<int>, window: int, t: int)
    requires IsStart(stamps, window, t)
    ensures t in stamps
  {
  }

  lemma NothingIsIn(message: string, from: int)
    ensures !AlreadyReturned([], message, from)
  {
  }

  lemma NoneReturned(calls: seq<Call>)
    requires |calls| == 1 && calls[0].AddSignals?
    ensures Run(PAIRS, calls).returned == []
  {
    assert calls[..0] == [];
  }

  lemma StampOfMessage(buffer: seq<Signal>, a: Signal)
    requires a in buffer
    ensures a.stamp in MessageStamps(buffer, a.message)
  {
  }

  function Twice(signals: seq<Signal>, extra: Signal): seq<Call> {
    [AddSignals(signals), Correlate, AddSignal(extra)]
  }

  /** The buffer after one signal more, which is the newest. */
  lemma OneMore(signals: seq<Signal>, extra: Signal)
    requires forall s :: s in signals ==> s.timestamp <= extra.timestamp
    requires Arrivals([AddSignals(signals), Correlate]) == signals
    ensures Run(PAIRS, Twice(signals, extra)).returned == Run(PAIRS, [AddSignals(signals), Correlate]).returned
    ensures forall x :: x in Run(PAIRS, Twice(signals, extra)).state.buffer <==>
                        (x in signals || x == extra) && x.timestamp >= extra.timestamp - 2.0
  {
    hide Run, Cutoff;
    var before := [AddSignals(signals), Correlate];
    var calls := Twice(signals, extra);
    assert calls == before + [AddSignal(extra)];
    AfterCall(PAIRS, before, AddSignal(extra));
    CutoffOf(PAIRS, calls, extra);
    forall x ensures x in Run(PAIRS, calls).state.buffer <==>
                     (x in signals || x == extra) && x.timestamp >= extra.timestamp - 2.0
    {
      BufferedIff(PAIRS, calls, x);
    }
  }

  /** Returned by the first call, and by the second one as part of what is heard from `from` on. */
  lemma ReturnedTwice(signals: seq<Signal>, extra: Signal, a: Signal, b: Signal, other: Signal, from: int)
    requires a in signals && b in signals && a.message == b.message && a.receiver != b.receiver
    requires forall s :: s in signals ==> 0.0 <= s.timestamp <= 1.0 && a.stamp <= s.stamp <= a.stamp + PAIRS.window
    requires forall s :: s in signals ==> s.timestamp <= extra.timestamp
    requires from != a.stamp && other.message == b.message && other.receiver != b.receiver
    requires from <= b.stamp <= from + PAIRS.window && from <= other.stamp <= from + PAIRS.window
    requires var buffer := Run(PAIRS, Twice(signals, extra)).state.buffer;
             && b in buffer && other in buffer && from in MessageStamps(buffer, b.message)
             && forall s :: s in buffer && s.message == b.message ==> s.stamp >= from
    ensures var returned := Run(PAIRS, Twice(signals, extra) + [Correlate]).returned;
            exists i, j :: 0 <= i < j < |returned| && b in returned[i].signals && b in returned[j].signals
  {
    hide Run, IsDue, AlreadyReturned, MessageStamps;
    var before := [AddSignals(signals), Correlate];
    assert before == [AddSignals(signals)] + [Correlate];
    FirstGroup(signals, a, b);
    OneMore(signals, extra);
    FirstIsDue(Run(PAIRS, Twice(signals, extra)), b, other, from);
    SharedByNext(PAIRS, Twice(signals, extra), b, from);
  }

  /** Two receptions are returned; an earlier one arrives late; the next call returns all three. */
  lemma LateRepeats(a: Signal, b: Signal, late: Signal)
    requires a.message == b.message == late.message && a.receiver != b.receiver
    requires 0.0 <= a.timestamp <= late.timestamp <= 1.0 && 0.0 <= b.timestamp <= late.timestamp
    requires late.stamp < a.stamp <= b.stamp <= late.stamp + PAIRS.window
    ensures var returned := Run(PAIRS, Twice([a, b], late) + [Correlate]).returned;
            exists i, j :: 0 <= i < j < |returned| && b in returned[i].signals && b in returned[j].signals
  {
    hide *;
    FirstArrivals([a, b]);
    OneMore([a, b], late);
    StampOfMessage(Run(PAIRS, Twice([a, b], late)).state.buffer, late);
    ReturnedTwice([a, b], late, a, b, a, late.stamp);
  }

  /**
   Three receptions are returned; a signal of another message makes the first of them too old;
   the next call returns the other two.
   */
  lemma EvictedRepeats(a: Signal, b: Signal, d: Signal, other: Signal)
    requires a.message == b.message == d.message != other.message
    requires a.receiver != b.receiver && b.receiver != d.receiver
    requires 0.0 <= a.timestamp < other.timestamp - 2.0 <= b.timestamp <= d.timestamp <= 1.0
    requires a.stamp < b.stamp <= d.stamp <= a.stamp + PAIRS.window
    ensures var returned := Run(PAIRS, Twice([a, b, d], other) + [Correlate]).returned;
            exists i, j :: 0 <= i < j < |returned| && b in returned[i].signals && b in returned[j].signals
  {
    hide *;
    FirstArrivals([a, b, d]);
    OneMore([a, b, d], other);
    StampOfMessage(Run(PAIRS, Twice([a, b, d], other)).state.buffer, b);
    ReturnedTwice([a, b, d], other, a, b, d, b.stamp);
  }

  /** Inputs of both kinds: no reception need be returned only once. */
  lemma ReceptionsRepeat()
    ensures var a, b, late := Signal("A", 0.0, 100_000, "M"), Signal("B", 0.0, 200_000, "M"), Signal("C", 0.0, 0, "M");
            var returned := Run(PAIRS, Twice([a, b], late) + [Correlate]).returned;
            exists i, j :: 0 <= i < j < |returned| && b in returned[i].signals && b in returned[j].signals
    ensures var a, b := Signal("A", 0.0, 0, "M"), Signal("B", 0.0001, 100_000, "M");
            var d, other := Signal("C", 0.0002, 200_000, "M"), Signal("D", 2.00005, 2_000_050_000, "N");
            var returned := Run(PAIRS, Twice([a, b, d], other) + [Correlate]).returned;
            exists i, j :: 0 <= i < j < |returned| && b in returned[i].signals && b in returned[j].signals
  {
    hide Run, Twice;
    assert "A"[0] != "B"[0] && "B"[0] != "C"[0] && "M"[0] != "N"[0];
    LateRepeats(Signal("A", 0.0, 100_000, "M"), Signal("B", 0.0, 200_000, "M"), Signal("C", 0.0, 0, "M"));
    EvictedRepeats(Signal("A", 0.0, 0, "M"), Signal("B", 0.0001, 100_000, "M"),
                   Signal("C", 0.0002, 200_000, "M"), Signal("D", 2.00005, 2_000_050_000, "N"));
  }

  lemma FirstArrivals(signals: seq<Signal>)
    ensures Arrivals([AddSignals(signals), Correlate]) == signals
  {
    Uncalled(PAIRS);
    AfterCall(PAIRS, [], AddSignals(signals));
    AfterCall(PAIRS, [AddSignals(signals)], Correlate);
    assert [] + [AddSignals(signals)] == [AddSignals(signals)];
    assert [AddSignals(signals)] + [Correlate] == [AddSignals(signals), Correlate];
    assert [] + signals == signals && signals + [] == signals;
  }
}
