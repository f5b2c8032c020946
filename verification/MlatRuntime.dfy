/**
 The objects behind the receiver pool: the network client and the runtime that keeps geometry and
 inventory in step with it. Their methods are proved against the functions of ReceiverPool.
 */
module MlatRuntime {
  import opened Wrappers
  import opened ReceiverPool
  import Correlation
  import SignalCorrelation

  lemma KeyedSnoc(receivers: seq<Receiver>, r: Receiver)
    ensures Keyed(receivers + [r]) == Keyed(receivers)[RuntimeId(r) := r]
  {
    assert (receivers + [r])[..|receivers|] == receivers;
  }

  lemma ObservationsSnoc(positions: map<string, Position>, receivers: seq<string>, id: string)
    ensures Observations(positions, receivers + [id])
            == Observations(positions, receivers) + if id in positions then [Observation(id, positions[id])] else []
  {
    assert (receivers + [id])[..|receivers|] == receivers;
  }

  method KeyReceivers(receivers: seq<Receiver>) returns (pool: Pool)
    ensures pool == Keyed(receivers)
  {
    pool := map[];
    for k := 0 to |receivers|
      invariant pool == Keyed(receivers[..k])
    {
      KeyedSnoc(receivers[..k], receivers[k]);
      assert receivers[..k] + [receivers[k]] == receivers[..k + 1];
      pool := pool[RuntimeId(receivers[k]) := receivers[k]];
    }
    assert receivers[..|receivers|] == receivers;
  }

  /** What a refresh compares: everything but the names and the source. */
  function Signature(r: Receiver): Receiver {
    r.(receiverId := "", identity := None, dataSource := "")
  }

  function Signatures(pool: Pool): Pool {
    map id | id in pool :: Signature(pool[id])
  }

  function RowsOf(pool: Pool): map<string, Row> {
    map id | id in pool :: RowOf(pool[id])
  }

  lemma CacheOne(positions: map<string, Position>, rows: map<string, Row>, done: Pool, id: string, r: Receiver)
    ensures (positions + GeometryOf(done))[id := r.position] == positions + GeometryOf(done[id := r])
    ensures (rows + RowsOf(done))[id := RowOf(r)] == rows + RowsOf(done[id := r])
  {
    hide RowOf;
  }

  lemma NothingCached(positions: map<string, Position>, rows: map<string, Row>)
    ensures positions + GeometryOf(map[]) == positions && rows + RowsOf(map[]) == rows
  {
  }

  /** The rows that a cache refresh leaves. */
  function RowsLeft(s: System): map<string, Row> {
    var rows := s.rows - (s.positions.Keys - s.pool.Keys) + RowsOf(s.pool);
    map id | id in rows && (rows[id].dataSource != REGISTRY || id in RegistryPart(s.pool)) :: rows[id]
  }

  lemma RowsLeftAre(s: System, id: string)
    ensures id in RowsLeft(s) <==> id in s.pool || Survives(s, id)
    ensures id in s.pool ==> RowsLeft(s)[id] == RowOf(s.pool[id])
    ensures id !in s.pool && Survives(s, id) ==> RowsLeft(s)[id] == s.rows[id]
  {
    assert id in s.pool ==> RowOf(s.pool[id]).dataSource == s.pool[id].dataSource;
  }

  /** The steps of the cache refresh, put together. */
  lemma SynchronizedIs(s: System)
    ensures var removed := s.positions.Keys - s.pool.Keys;
            Synchronized(s) == System(s.pool, s.positions - removed + GeometryOf(s.pool), RowsLeft(s), s.clocks - removed)
  {
    hide RowsLeft, RowOf;
    var removed := s.positions.Keys - s.pool.Keys;
    forall id ensures id in RowsLeft(s) <==> id in Synchronized(s).rows {
      RowsLeftAre(s, id);
    }
    forall id | id in RowsLeft(s) ensures RowsLeft(s)[id] == Synchronized(s).rows[id] {
      RowsLeftAre(s, id);
    }
    assert Synchronized(s).rows == RowsLeft(s);
    assert Synchronized(s).positions == s.positions - removed + GeometryOf(s.pool);
    assert Synchronized(s).clocks == s.clocks - removed;
  }

  class NetworkClient {
    const config: Config
    const simulated: seq<Receiver>
    var activeReceivers: Pool
    var registryDiscoveryLive: bool
    var registryRefreshError: bool

    constructor (config: Config, simulated: seq<Receiver>)
      ensures this.config == config && this.simulated == simulated
      ensures activeReceivers == map[] && !registryDiscoveryLive && !registryRefreshError
    {
      this.config := config;
      this.simulated := simulated;
      activeReceivers := map[];
      registryDiscoveryLive := false;
      registryRefreshError := false;
    }

    /** The first discovery. It raises an exception exactly if there is no first pool. */
    method InitializePool(outcome: Option<seq<Receiver>>) returns (raised: bool)
      requires activeReceivers == map[]
      modifies this
      ensures raised <==> Initialize(config, simulated, outcome).None?
      ensures !raised ==> activeReceivers == Initialize(config, simulated, outcome).value
      ensures !raised ==> (registryDiscoveryLive <==> outcome.Some? || old(registryDiscoveryLive))
    {
      hide Select, Keyed, Augment;
      var receivers: seq<Receiver>;
      if outcome.Some? {
        receivers := outcome.value;
        registryDiscoveryLive := true;
      } else {
        if config.strict || !config.simulateIfUnavailable {
          return true;
        }
        receivers := [];
      }
      registryRefreshError := false;
      activeReceivers := KeyReceivers(Select(config, receivers));
      raised := AugmentReceiversForSimulation();
    }

    method AugmentReceiversForSimulation() returns (raised: bool)
      modifies this`activeReceivers
      ensures Attempt(activeReceivers, raised) == Augment(config, simulated, old(activeReceivers))
    {
      var transport := DetermineTransport(config, activeReceivers);
      var minReceivers := Max(1, config.minReceivers);
      if transport.None? {
        return true;
      }
      if config.strict || transport.value != SIMULATION {
        return false;
      }
      if |activeReceivers| >= minReceivers {
        return false;
      }
      ghost var target := TopUp(activeReceivers, simulated, minReceivers);
      assert simulated[0..] == simulated;
      for k := 0 to |simulated|
        invariant TopUp(activeReceivers, simulated[k..], minReceivers) == target
      {
        var receiver := simulated[k];
        assert simulated[k..][1..] == simulated[k + 1..];
        if RuntimeId(receiver) in activeReceivers {
          continue;
        }
        activeReceivers := activeReceivers[RuntimeId(receiver) := receiver];
        if |activeReceivers| >= minReceivers {
          return false;
        }
      }
      return false;
    }

    /**
     Replaces the registry receivers by those just discovered, or removes them. An exception after
     a discovery that succeeded leaves the status of the last refresh as it was.
     */
    method RefreshRegistryReceivers(outcome: Option<seq<Receiver>>) returns (raised: bool, changed: bool)
      modifies this
      ensures Attempt(activeReceivers, raised) == Refresh(config, simulated, old(activeReceivers), outcome)
      ensures !raised ==> (changed <==> Signatures(activeReceivers) != Signatures(old(activeReceivers)))
      ensures config.registryConfigured ==>
                (registryDiscoveryLive == if outcome.None? then false else !raised || old(registryDiscoveryLive))
    {
      hide Select, Keyed, Augment;
      if !config.registryConfigured {
        return false, false;
      }
      var previous := Signatures(activeReceivers);
      if outcome.None? {
        registryDiscoveryLive := false;
        registryRefreshError := true;
        activeReceivers := LocalPart(activeReceivers);
        var _ := AugmentReceiversForSimulation();
        return true, false;
      }
      var retained := LocalPart(activeReceivers);
      var refreshed := KeyReceivers(Select(config, outcome.value));
      activeReceivers := retained + refreshed;
      raised := AugmentReceiversForSimulation();
      if raised {
        return true, false;
      }
      registryDiscoveryLive := true;
      registryRefreshError := false;
      changed := Signatures(activeReceivers) != previous;
    }
  }

  class Runtime {
    const client: NetworkClient
    const correlator: SignalCorrelation.SignalCorrelator
    var receiverPositions: map<string, Position>
    var receiverRows: map<string, Row>
    var receiverClockStatus: map<string, bool>
    var rejectedGroups: nat
    var clockRejectedGroups: nat

    constructor (client: NetworkClient, correlator: SignalCorrelation.SignalCorrelator, stored: map<string, Row>)
      ensures this.client == client && this.correlator == correlator
      ensures Current() == System(client.activeReceivers, map[], stored, map[])
    {
      this.client := client;
      this.correlator := correlator;
      receiverPositions := map[];
      receiverRows := stored;
      receiverClockStatus := map[];
      rejectedGroups := 0;
      clockRejectedGroups := 0;
    }

    function Current(): System
      reads this, client
    {
      System(client.activeReceivers, receiverPositions, receiverRows, receiverClockStatus)
    }

    method OnReceiversRemoved(ids: set<string>)
      modifies this
      ensures receiverPositions == old(receiverPositions)
      ensures receiverRows == old(receiverRows) - ids
      ensures receiverClockStatus == old(receiverClockStatus) - ids
    {
      receiverRows := receiverRows - ids;
      var left := ids;
      while left != {}
        invariant left <= ids && receiverPositions == old(receiverPositions) && receiverRows == old(receiverRows) - ids
        invariant receiverClockStatus == old(receiverClockStatus) - (ids - left)
        decreases left
      {
        var id :| id in left;
        receiverClockStatus := receiverClockStatus - {id};
        left := left - {id};
        assert ids - left == ids - (left + {id}) + {id};
      }
    }

    /** Deletes the registry rows whose receivers are not in the pool. */
    method OnReceiverCacheSynchronized()
      modifies this`receiverRows
      ensures receiverRows == map id | id in old(receiverRows)
                                && (old(receiverRows)[id].dataSource != REGISTRY || id in RegistryPart(client.activeReceivers))
                                :: old(receiverRows)[id]
    {
      var active := RegistryPart(client.activeReceivers).Keys;
      receiverRows := map id | id in receiverRows && (receiverRows[id].dataSource != REGISTRY || id in active)
        :: receiverRows[id];
    }

    /** Geometry and row of every receiver in the pool. */
    method CacheActive()
      modifies this`receiverPositions, this`receiverRows
      ensures receiverPositions == old(receiverPositions) + GeometryOf(client.activeReceivers)
      ensures receiverRows == old(receiverRows) + RowsOf(client.activeReceivers)
    {
      hide RowOf, RowsOf, GeometryOf;
      NothingCached(receiverPositions, receiverRows);
      var pool := client.activeReceivers;
      var left := pool.Keys;
      ghost var done: Pool := map[];
      while left != {}
        invariant left <= pool.Keys && done == pool - left
        invariant receiverPositions == old(receiverPositions) + GeometryOf(done)
        invariant receiverRows == old(receiverRows) + RowsOf(done)
        decreases left
      {
        var id :| id in left;
        receiverPositions := receiverPositions[id := pool[id].position];
        receiverRows := receiverRows[id := RowOf(pool[id])];
        left := left - {id};
        CacheOne(old(receiverPositions), old(receiverRows), done, id, pool[id]);
        done := done[id := pool[id]];
      }
      assert done == pool;
    }

    method CacheReceiverPositions()
      modifies this
      ensures Current() == Synchronized(old(Current()))
    {
      hide GeometryOf, RowsOf, Synchronized;
      var removed := receiverPositions.Keys - client.activeReceivers.Keys;
      receiverPositions := receiverPositions - removed;
      if removed != {} {
        OnReceiversRemoved(removed);
      }
      assert receiverRows == old(receiverRows) - removed;
      assert receiverClockStatus == old(receiverClockStatus) - removed;
      CacheActive();
      OnReceiverCacheSynchronized();
      SynchronizedIs(old(Current()));
    }

    /**
     One round of `_registry_refresh_loop`. The feed is restarted after a refresh that changed a
     compared field; if the refresh or that restart raises, it is restarted if membership changed,
     and strict production mode ends the loop.
     */
    method RefreshRound(outcome: Option<seq<Receiver>>, restartRaises: bool) returns (restarts: nat, stopped: bool)
      modifies this, client
      ensures Current() == After(client.config, client.simulated, old(Current()), Refreshed(outcome))
      ensures var raised := Refresh(client.config, client.simulated, old(client.activeReceivers), outcome).raised;
              var changed := Signatures(client.activeReceivers) != Signatures(old(client.activeReceivers));
              var moved := client.activeReceivers.Keys != old(client.activeReceivers.Keys);
              && restarts == (if !raised && changed then 1 else 0)
                             + (if (raised || (changed && restartRaises)) && moved then 1 else 0)
              && (stopped <==> client.config.strict && (raised || (changed && restartRaises)))
              && (moved ==> restarts >= 1)
    {
      hide Synchronized, Refresh, Signatures;
      ghost var before := Current();
      var previousReceiverIds := client.activeReceivers.Keys;
      var raised, changed := client.RefreshRegistryReceivers(outcome);
      ghost var refreshed := before.(pool := client.activeReceivers);
      assert Current() == refreshed;
      CacheReceiverPositions();
      SynchronizedKeepsPool(refreshed);
      restarts := 0;
      if !raised {
        if changed {
          restarts := 1;
        }
        if !changed || !restartRaises {
          if !changed {
            SignatureKeys(client.activeReceivers, before.pool);
          }
          return restarts, false;
        }
        CacheReceiverPositions();
        SynchronizedTwice(refreshed);
        SynchronizedKeepsPool(Synchronized(refreshed));
      }
      if client.activeReceivers.Keys != previousReceiverIds {
        restarts := restarts + 1;
      }
      stopped := client.config.strict;
    }

    /** Signals of unknown or excluded receivers do not reach the correlator. */
    method HandleIncomingSignal(signal: Correlation.Signal, qualified: bool) returns (accepted: bool)
      modifies this`receiverClockStatus, correlator
      ensures accepted <==> signal.receiver in receiverPositions
      ensures Current() == After(client.config, client.simulated, old(Current()), Heard(signal.receiver, qualified))
      ensures correlator.Current()
              == if accepted then Correlation.Added(correlator.config, old(correlator.Current()), [signal])
                 else old(correlator.Current())
    {
      if signal.receiver !in receiverPositions {
        return false;
      }
      receiverClockStatus := receiverClockStatus[signal.receiver := qualified];
      correlator.AddSignal(signal);
      return true;
    }

    method BuildObservationsFromGroup(group: Correlation.Group) returns (observations: seq<Observation>)
      ensures observations == Observations(receiverPositions, ReceiverIds(group.signals))
    {
      observations := [];
      for k := 0 to |group.signals|
        invariant observations == Observations(receiverPositions, ReceiverIds(group.signals)[..k])
      {
        var id := group.signals[k].receiver;
        var ids := ReceiverIds(group.signals);
        ObservationsSnoc(receiverPositions, ids[..k], id);
        assert ids[..k] + [id] == ids[..k + 1];
        if id !in receiverPositions {
          continue;
        }
        observations := observations + [Observation(id, receiverPositions[id])];
      }
      assert ReceiverIds(group.signals)[..|group.signals|] == ReceiverIds(group.signals);
    }

    /**
     One round of the processing loop, up to the solver: the observations of each new group that has
     four of them and qualified clocks; the others are counted.
     */
    method ProcessRound(qualified: Correlation.Signal -> bool)
      returns (groups: seq<Correlation.Group>, solvable: seq<seq<Observation>>)
      modifies correlator, this`rejectedGroups, this`clockRejectedGroups
      ensures Correlation.Emission(groups, correlator.processedGroups)
              == Correlation.Correlated(correlator.config, old(correlator.Current()))
      ensures solvable == Solvable(receiverPositions, groups, qualified)
      ensures rejectedGroups == old(rejectedGroups) + TooFew(receiverPositions, groups)
      ensures |groups| == |solvable| + (rejectedGroups - old(rejectedGroups))
                          + (clockRejectedGroups - old(clockRejectedGroups))
    {
      hide Correlation.Correlated, Observations, ReceiverIds;
      groups := correlator.Correlate();
      ghost var correlated := correlator.Current();
      solvable := [];
      for k := 0 to |groups|
        invariant correlator.Current() == correlated
        invariant solvable == Solvable(receiverPositions, groups[..k], qualified)
        invariant rejectedGroups == old(rejectedGroups) + TooFew(receiverPositions, groups[..k])
        invariant k == |solvable| + (rejectedGroups - old(rejectedGroups))
                       + (clockRejectedGroups - old(clockRejectedGroups))
      {
        assert groups[..k + 1][..k] == groups[..k];
        var observations := BuildObservationsFromGroup(groups[k]);
        if |observations| < 4 {
          rejectedGroups := rejectedGroups + 1;
          continue;
        }
        if exists s :: s in groups[k].signals && !qualified(s) {
          clockRejectedGroups := clockRejectedGroups + 1;
          continue;
        }
        solvable := solvable + [observations];
      }
      assert groups[..|groups|] == groups;
    }
  }

  /** The observations of the groups that reach the solver. */
  function Solvable(positions: map<string, Position>, groups: seq<Correlation.Group>, qualified: Correlation.Signal -> bool)
    : seq<seq<Observation>>
  {
    if groups == [] then []
    else
      var last := groups[|groups| - 1];
      var observations := Observations(positions, ReceiverIds(last.signals));
      Solvable(positions, groups[..|groups| - 1], qualified)
      + if |observations| >= 4 && forall s :: s in last.signals ==> qualified(s) then [observations] else []
  }

  /** How many groups have fewer than four observations. */
  function TooFew(positions: map<string, Position>, groups: seq<Correlation.Group>): nat {
    if groups == [] then 0
    else
      TooFew(positions, groups[..|groups| - 1])
      + if |Observations(positions, ReceiverIds(groups[|groups| - 1].signals))| < 4 then 1 else 0
  }

  /** Only groups of qualified signals are solved, with at least four observations of the current geometry. */
  lemma {:induction false} SolvableAre(positions: map<string, Position>, groups: seq<Correlation.Group>,
                                       qualified: Correlation.Signal -> bool, observations: seq<Observation>)
    requires observations in Solvable(positions, groups, qualified)
    ensures |observations| >= 4
    ensures exists g :: g in groups && observations == Observations(positions, ReceiverIds(g.signals))
                        && forall s :: s in g.signals ==> qualified(s)
  {
    hide Observations, ReceiverIds;
    if groups != [] {
      hide Solvable;
      var front, last := groups[..|groups| - 1], groups[|groups| - 1];
      SolvableLast(positions, groups, qualified, observations);
      assert last in groups;
      if observations in Solvable(positions, front, qualified) {
        SolvableAre(positions, front, qualified, observations);
        var g :| g in front && observations == Observations(positions, ReceiverIds(g.signals))
                 && forall s :: s in g.signals ==> qualified(s);
        assert g in groups;
      }
    }
  }

  lemma SolvableLast(positions: map<string, Position>, groups: seq<Correlation.Group>,
                     qualified: Correlation.Signal -> bool, observations: seq<Observation>)
    requires groups != [] && observations in Solvable(positions, groups, qualified)
    ensures var last := groups[|groups| - 1];
            || observations in Solvable(positions, groups[..|groups| - 1], qualified)
            || (&& observations == Observations(positions, ReceiverIds(last.signals)) && |observations| >= 4
                && forall s :: s in last.signals ==> qualified(s))
  {
    hide Observations, ReceiverIds;
  }

  function ReceiverIds(signals: seq<Correlation.Signal>): seq<string> {
    seq(|signals|, k requires 0 <= k < |signals| => signals[k].receiver)
  }

  lemma SignatureKeys(a: Pool, b: Pool)
    requires Signatures(a) == Signatures(b)
    ensures a.Keys == b.Keys
  {
    assert a.Keys == Signatures(a).Keys && b.Keys == Signatures(b).Keys;
  }
}
