/**
 Grouping receptions of one Mode-S message by several receivers: what
 src/mlat_reference/correlation/correlator.py computes, as functions of its state.
 Every reception has an integer nanosecond stamp; the wall-clock `timestamp` is used for eviction only.
 Thresholds in seconds are given in nanoseconds.
 */
module Correlation {
  import Sorting
  import Grouping
  import DecimalText

  datatype Signal = Signal(receiver: string, timestamp: real, stamp: int, message: string)

  datatype Config = Config(window: int, minReceivers: int, duration: real)

  datatype Group = Group(message: string, signals: seq<Signal>, firstTimestamp: real, timeSpan: int)

  datatype State = State(buffer: seq<Signal>, processed: set<string>)

  datatype Emission = Emission(groups: seq<Group>, processed: set<string>)

  /** 10 milliseconds. */
  const MAX_SPAN := 10_000_000

  function MessageOf(s: Signal): string {
    s.message
  }

  predicate Earlier(a: Signal, b: Signal) {
    a.stamp <= b.stamp
  }

  function Receivers(signals: seq<Signal>): set<string> {
    set k | 0 <= k < |signals| :: signals[k].receiver
  }

  // ----- the buffer -------------------------------------------------------------------------

  function Newest(signals: seq<Signal>): (t: real)
    requires signals != []
    ensures forall s :: s in signals ==> s.timestamp <= t
    ensures exists s :: s in signals && s.timestamp == t
  {
    if |signals| == 1 then signals[0].timestamp
    else
      assert signals == [signals[0]] + signals[1..];
      var t := Newest(signals[1..]);
      if signals[0].timestamp > t then signals[0].timestamp else t
  }

  function NotBefore(cutoff: real): Signal -> bool {
    (s: Signal) => s.timestamp >= cutoff
  }

  /** The signals not older than `duration` before the newest one. */
  function Recent(signals: seq<Signal>, duration: real): seq<Signal> {
    if signals == [] then []
    else
      Grouping.Where(signals, NotBefore(Newest(signals) - duration))
  }

  // ----- runs -------------------------------------------------------------------------------

  /** Where the run of signals within `window` of signal `i` ends, if it reaches `j`. */
  function RunEnd(signals: seq<Signal>, window: int, i: nat, j: nat): (e: nat)
    requires i < j <= |signals|
    ensures j <= e <= |signals|
    ensures forall k :: j <= k < e ==> signals[k].stamp - signals[i].stamp <= window
    ensures e < |signals| ==> signals[e].stamp - signals[i].stamp > window
    decreases |signals| - j
  {
    if j < |signals| && signals[j].stamp - signals[i].stamp <= window then RunEnd(signals, window, i, j + 1) else j
  }

  /** The greedy runs from signal `i` on. */
  function RunsFrom(signals: seq<Signal>, window: int, i: nat): (runs: seq<seq<Signal>>)
    requires i <= |signals|
    ensures forall r :: r in runs ==> r != []
    decreases |signals| - i
  {
    if i == |signals| then []
    else
      var e := RunEnd(signals, window, i, i + 1);
      [signals[i..e]] + RunsFrom(signals, window, e)
  }

  function Runs(signals: seq<Signal>, window: int): seq<seq<Signal>> {
    RunsFrom(signals, window, 0)
  }

  function Clusters(c: Config, signals: seq<Signal>): (clusters: seq<seq<Signal>>)
    ensures forall r :: r in clusters ==> r != []
  {
    Grouping.Where(Runs(signals, c.window), (r: seq<Signal>) => |r| >= c.minReceivers)
  }

  function Span(cluster: seq<Signal>): int
    requires cluster != []
  {
    cluster[|cluster| - 1].stamp - cluster[0].stamp
  }

  predicate ValidCluster(c: Config, cluster: seq<Signal>)
    requires cluster != []
  {
    && |cluster| >= c.minReceivers
    && |Receivers(cluster)| >= c.minReceivers
    && Span(cluster) <= MAX_SPAN
  }

  // ----- groups -----------------------------------------------------------------------------

  /** The group made of a cluster, which is sorted once more on the way. */
  function MakeGroup(message: string, cluster: seq<Signal>): Group
    requires cluster != []
    ensures MakeGroup(message, cluster).signals != []
  {
    Sorting.SortPermutes(cluster, Earlier);
    var signals := Sorting.Sort(cluster, Earlier);
    Group(message, signals, signals[0].timestamp, Span(signals))
  }

  /** `message_stamp` of the first signal. */
  function GroupId(message: string, stamp: int): string {
    message + ['_'] + DecimalText.IntText(stamp)
  }

  function IdOf(g: Group): string
    requires g.signals != []
  {
    GroupId(g.message, g.signals[0].stamp)
  }

  function GroupsOf(c: Config, message: string, clusters: seq<seq<Signal>>): (groups: seq<Group>)
    requires forall r :: r in clusters ==> r != []
    ensures forall g :: g in groups ==> g.signals != []
    ensures forall g :: g in groups <==> exists r :: r in clusters && ValidCluster(c, r) && g == MakeGroup(message, r)
  {
    if clusters == [] then []
    else
      var front, last := clusters[..|clusters| - 1], clusters[|clusters| - 1];
      assert clusters == front + [last];
      assert forall r :: r in front ==> r in clusters;
      assert last in clusters;
      Sorting.SortPermutes(last, Earlier);
      GroupsOf(c, message, front) + if ValidCluster(c, last) then [MakeGroup(message, last)] else []
  }

  function GroupsOfMessage(c: Config, buffer: seq<Signal>, message: string): (groups: seq<Group>)
    ensures forall g :: g in groups ==> g.signals != []
  {
    var signals := Grouping.OfKey(buffer, MessageOf, message);
    if |signals| < c.minReceivers then []
    else GroupsOf(c, message, Clusters(c, Sorting.Sort(signals, Earlier)))
  }

  function GroupsOfMessages(c: Config, buffer: seq<Signal>, messages: seq<string>): (groups: seq<Group>)
    ensures forall g :: g in groups ==> g.signals != []
    ensures forall g :: g in groups <==> exists m :: m in messages && g in GroupsOfMessage(c, buffer, m)
  {
    if messages == [] then []
    else
      var front, last := messages[..|messages| - 1], messages[|messages| - 1];
      assert messages == front + [last];
      GroupsOfMessages(c, buffer, front) + GroupsOfMessage(c, buffer, last)
  }

  // ----- emission ---------------------------------------------------------------------------

  /** Passes on a group whose id is new. */
  function EmitOne(e: Emission, g: Group): Emission
    requires g.signals != []
  {
    if IdOf(g) in e.processed then e else Emission(e.groups + [g], e.processed + {IdOf(g)})
  }

  function Emit(groups: seq<Group>, processed: set<string>): Emission
    requires forall g :: g in groups ==> g.signals != []
  {
    if groups == [] then Emission([], processed)
    else EmitOne(Emit(groups[..|groups| - 1], processed), groups[|groups| - 1])
  }

  function Candidates(c: Config, buffer: seq<Signal>): (groups: seq<Group>)
    ensures forall g :: g in groups ==> g.signals != []
  {
    if |buffer| < c.minReceivers then []
    else GroupsOfMessages(c, buffer, Grouping.Keys(buffer, MessageOf))
  }

  /** What `correlate` returns and the ids it has then processed. */
  function Correlated(c: Config, st: State): Emission {
    Emit(Candidates(c, st.buffer), st.processed)
  }

  function Added(c: Config, st: State, batch: seq<Signal>): State {
    st.(buffer := Recent(st.buffer + batch, c.duration))
  }
}

/** The class itself. */
module SignalCorrelation {
  import opened Correlation
  import Sorting
  import Grouping

  lemma EmitSnoc(groups: seq<Group>, g: Group, processed: set<string>)
    requires g.signals != [] && forall h :: h in groups ==> h.signals != []
    ensures var e := Emit(groups, processed);
            Emit(groups + [g], processed)
            == if IdOf(g) in e.processed then e else Emission(e.groups + [g], e.processed + {IdOf(g)})
  {
    assert (groups + [g])[..|groups|] == groups;
  }

  lemma GroupsOfSnoc(c: Config, message: string, clusters: seq<seq<Signal>>, r: seq<Signal>)
    requires r != [] && forall x :: x in clusters ==> x != []
    ensures GroupsOf(c, message, clusters + [r])
            == GroupsOf(c, message, clusters) + if ValidCluster(c, r) then [MakeGroup(message, r)] else []
  {
    assert (clusters + [r])[..|clusters|] == clusters;
  }

  lemma MessagesSnoc(c: Config, buffer: seq<Signal>, messages: seq<string>, m: string)
    ensures GroupsOfMessages(c, buffer, messages + [m])
            == GroupsOfMessages(c, buffer, messages) + GroupsOfMessage(c, buffer, m)
  {
    assert (messages + [m])[..|messages|] == messages;
  }

  lemma NoGroupsYet(c: Config, buffer: seq<Signal>, processed: set<string>)
    ensures GroupsOfMessages(c, buffer, []) == []
    ensures Emit([], processed) == Emission([], processed)
  {
  }

  lemma CorrelatedUnfolds(c: Config, st: State)
    ensures Correlated(c, st)
            == if |st.buffer| < c.minReceivers then Emission([], st.processed)
               else Emit(GroupsOfMessages(c, st.buffer, Grouping.Keys(st.buffer, MessageOf)), st.processed)
  {
  }

  lemma KeysUnfold(buffer: seq<Signal>, keys: seq<string>, groups: map<string, seq<Signal>>)
    requires Grouping.IsGrouping(buffer, MessageOf, keys, groups)
    ensures keys == Grouping.Keys(buffer, MessageOf)
  {
  }

  lemma GroupUnfolds(c: Config, buffer: seq<Signal>, keys: seq<string>, groups: map<string, seq<Signal>>, m: string)
    requires m in keys && Grouping.IsGrouping(buffer, MessageOf, keys, groups)
    ensures m in groups
    ensures GroupsOfMessage(c, buffer, m)
            == if |groups[m]| < c.minReceivers then []
               else GroupsOf(c, m, Clusters(c, Sorting.Sort(groups[m], Earlier)))
  {
  }

  lemma NoClustersYet(c: Config, message: string)
    ensures GroupsOf(c, message, []) == []
  {
  }

  lemma LongRuns(c: Config, run: seq<Signal>, rest: seq<seq<Signal>>)
    ensures var long := (r: seq<Signal>) => |r| >= c.minReceivers;
            Grouping.Where([run] + rest, long) == (if long(run) then [run] else []) + Grouping.Where(rest, long)
  {
    var long := (r: seq<Signal>) => |r| >= c.minReceivers;
    Grouping.WhereConcat([run], rest, long);
    assert [run] == [] + [run];
    Grouping.WhereSnoc([], run, long);
  }

  /** How the greedy run that starts at `start` goes on, when it has reached `k`. */
  lemma RunGoesOn(signals: seq<Signal>, window: int, start: nat, k: nat)
    requires start < k <= |signals|
    requires RunEnd(signals, window, start, k) == RunEnd(signals, window, start, start + 1)
    ensures k < |signals| && signals[k].stamp - signals[start].stamp <= window ==>
              RunEnd(signals, window, start, k + 1) == RunEnd(signals, window, start, start + 1)
    ensures k == |signals| || signals[k].stamp - signals[start].stamp > window ==>
              RunsFrom(signals, window, start) == [signals[start..k]] + RunsFrom(signals, window, k)
  {
  }

  function LongFrom(c: Config, signals: seq<Signal>, i: nat): seq<seq<Signal>>
    requires i <= |signals|
  {
    Grouping.Where(RunsFrom(signals, c.window, i), (r: seq<Signal>) => |r| >= c.minReceivers)
  }

  /** A run is closed: the clusters found so far and those still to come stay the same. */
  lemma RunClosed(c: Config, signals: seq<Signal>, clusters: seq<seq<Signal>>, start: nat, k: nat)
    requires start < k <= |signals|
    requires RunEnd(signals, c.window, start, k) == RunEnd(signals, c.window, start, start + 1)
    requires k == |signals| || signals[k].stamp - signals[start].stamp > c.window
    ensures clusters + LongFrom(c, signals, start)
            == (if k - start >= c.minReceivers then clusters + [signals[start..k]] else clusters) + LongFrom(c, signals, k)
  {
    hide RunEnd, RunsFrom, Grouping.Where;
    RunGoesOn(signals, c.window, start, k);
    LongRuns(c, signals[start..k], RunsFrom(signals, c.window, k));
  }

  lemma NoneLong(c: Config, signals: seq<Signal>)
    ensures LongFrom(c, signals, |signals|) == []
  {
  }

  lemma ClustersUnfold(c: Config, signals: seq<Signal>)
    ensures Clusters(c, signals) == LongFrom(c, signals, 0)
  {
  }

  class SignalCorrelator {
    const config: Config
    var signalBuffer: seq<Signal>
    var processedGroups: set<string>

    constructor (config: Config)
      ensures this.config == config && Current() == State([], {})
    {
      this.config := config;
      signalBuffer := [];
      processedGroups := {};
    }

    function Current(): (st: State)
      reads this
      ensures st == State(signalBuffer, processedGroups)
    {
      State(signalBuffer, processedGroups)
    }

    method AddSignal(signal: Signal)
      modifies this
      ensures Current() == Added(config, old(Current()), [signal])
    {
      signalBuffer := signalBuffer + [signal];
      CleanupOldSignals();
    }

    method AddSignals(signals: seq<Signal>)
      modifies this
      ensures Current() == Added(config, old(Current()), signals)
    {
      signalBuffer := signalBuffer + signals;
      CleanupOldSignals();
    }

    method CleanupOldSignals()
      modifies this
      ensures Current() == old(Current()).(buffer := Recent(old(signalBuffer), config.duration))
    {
      if signalBuffer == [] {
        return;
      }
      var cutoff := Newest(signalBuffer) - config.duration;
      signalBuffer := Grouping.Where(signalBuffer, NotBefore(cutoff));
    }

    method ClusterByTime(signals: seq<Signal>) returns (clusters: seq<seq<Signal>>)
      ensures clusters == Clusters(config, signals)
      ensures forall r :: r in clusters ==> r != []
    {
      hide *;
      ClustersUnfold(config, signals);
      NoneLong(config, signals);
      if signals == [] {
        return [];
      }
      clusters := [];
      var currentCluster := [signals[0]];
      ghost var start := 0;
      for k := 1 to |signals|
        invariant start < k && currentCluster == signals[start..k]
        invariant RunEnd(signals, config.window, start, k) == RunEnd(signals, config.window, start, start + 1)
        invariant clusters + LongFrom(config, signals, start) == Clusters(config, signals)
      {
        RunGoesOn(signals, config.window, start, k);
        if signals[k].stamp - currentCluster[0].stamp <= config.window {
          currentCluster := currentCluster + [signals[k]];
        } else {
          RunClosed(config, signals, clusters, start, k);
          if |currentCluster| >= config.minReceivers {
            clusters := clusters + [currentCluster];
          }
          currentCluster := [signals[k]];
          start := k;
        }
      }
      RunClosed(config, signals, clusters, start, |signals|);
      if |currentCluster| >= config.minReceivers {
        clusters := clusters + [currentCluster];
      }
    }

    method IsValidCluster(signals: seq<Signal>) returns (valid: bool)
      requires signals != []
      ensures valid == ValidCluster(config, signals)
    {
      if |signals| < config.minReceivers {
        return false;
      }
      var receiverIds := Receivers(signals);
      if |receiverIds| < config.minReceivers {
        return false;
      }
      var timeSpan := signals[|signals| - 1].stamp - signals[0].stamp;
      if timeSpan > MAX_SPAN {
        return false;
      }
      return true;
    }

    method Correlate() returns (correlatedGroups: seq<Group>)
      modifies this
      ensures signalBuffer == old(signalBuffer)
      ensures Emission(correlatedGroups, processedGroups) == Correlated(config, old(Current()))
    {
      hide *;
      CorrelatedUnfolds(config, Current());
      if |signalBuffer| < config.minReceivers {
        return [];
      }
      var messages, messageGroups := Grouping.GroupBy(signalBuffer, MessageOf);
      correlatedGroups := [];
      ghost var candidates := [];
      NoGroupsYet(config, signalBuffer, processedGroups);
      for i := 0 to |messages|
        invariant signalBuffer == old(signalBuffer)
        invariant candidates == GroupsOfMessages(config, signalBuffer, messages[..i])
        invariant Emission(correlatedGroups, processedGroups) == Emit(candidates, old(processedGroups))
      {
        var message := messages[i];
        GroupUnfolds(config, signalBuffer, messages, messageGroups, message);
        var signals := messageGroups[message];
        MessagesSnoc(config, signalBuffer, messages[..i], message);
        assert messages[..i] + [message] == messages[..i + 1];
        if |signals| < config.minReceivers {
          continue;
        }
        signals := Sorting.Sort(signals, Earlier);
        var clusters := ClusterByTime(signals);
        ghost var before := candidates;
        NoClustersYet(config, message);
        for j := 0 to |clusters|
          invariant signalBuffer == old(signalBuffer)
          invariant forall r :: r in clusters[..j] ==> r != []
          invariant candidates == before + GroupsOf(config, message, clusters[..j])
          invariant Emission(correlatedGroups, processedGroups) == Emit(candidates, old(processedGroups))
        {
          assert clusters[j] in clusters;
          GroupsOfSnoc(config, message, clusters[..j], clusters[j]);
          assert clusters[..j] + [clusters[j]] == clusters[..j + 1];
          var valid := IsValidCluster(clusters[j]);
          if valid {
            var group := MakeGroup(message, clusters[j]);
            EmitSnoc(candidates, group, old(processedGroups));
            candidates := candidates + [group];
            var groupId := IdOf(group);
            if groupId !in processedGroups {
              correlatedGroups := correlatedGroups + [group];
              processedGroups := processedGroups + {groupId};
            }
          }
        }
        assert clusters[..|clusters|] == clusters;
      }
      assert messages[..|messages|] == messages;
      KeysUnfold(old(signalBuffer), messages, messageGroups);
    }
  }
}
