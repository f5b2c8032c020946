/**
 Which receivers take part in locating aircraft, as the registry is refreshed and signals arrive.
 Models src/mlat_reference/ingest/client.py, src/mlat_reference/base.py and the hooks of
 src/mlat_reference/runtime.py. The answer of discovery is given with each refresh: the receivers
 found, or `None` for an exception. Heartbeat times are left out of receivers and rows.
 */
module ReceiverPool {
  import opened Wrappers
  import Grouping
  import RegistryRecord
  import Sorting
  import TextOrder

  const REGISTRY := "ckb_registry"
  const SIMULATION := "simulation"

  datatype Position = Position(latitude: real, longitude: real, altitude: real)

  datatype Receiver = Receiver(
    receiverId: string,
    identity: Option<string>,
    dataSource: string,
    position: Position,
    status: string,
    capabilities: seq<string>,
    sequence: Option<nat>,
    streamEndpoint: Option<string>,
    streamProtocol: Option<string>,
    streamFormat: Option<string>,
    ckbAddress: string,
    lockHash: string)

  type Pool = map<string, Receiver>

  /** A stored row of the receiver inventory. */
  datatype Row = Row(identity: Option<string>, dataSource: string, position: Position, status: string,
                     capabilities: seq<string>, receiverLabel: string, sequence: nat)

  datatype Config = Config(
    registryConfigured: bool,
    transport: string,
    bridgeCommand: bool,
    endpoint: bool,
    strict: bool,
    simulateIfUnavailable: bool,
    maxReceivers: int,
    minReceivers: int)

  /** The key under which a receiver is held. */
  function RuntimeId(r: Receiver): string {
    if r.identity.Some? then r.identity.value else r.dataSource + ":" + r.receiverId
  }

  predicate IsRegistry(r: Receiver) {
    r.dataSource == REGISTRY
  }

  /** What discovery returns: registry receivers, which cannot be built without an identity. */
  predicate FromRegistry(receivers: seq<Receiver>) {
    forall r :: r in receivers ==> IsRegistry(r) && r.identity.Some? && RegistryRecord.ValidHash(r.identity.value)
  }

  /** The demonstration receivers. */
  predicate Simulated(receivers: seq<Receiver>) {
    forall r :: r in receivers ==> r.dataSource == SIMULATION && r.identity.None?
  }

  function RegistryPart(pool: Pool): Pool {
    map id | id in pool && IsRegistry(pool[id]) :: pool[id]
  }

  function LocalPart(pool: Pool): Pool {
    map id | id in pool && !IsRegistry(pool[id]) :: pool[id]
  }

  // ----- selection --------------------------------------------------------------------------

  predicate IsCandidate(r: Receiver) {
    "mlat" in r.capabilities && r.status == "online"
  }

  predicate IdLeq(a: Receiver, b: Receiver) {
    !TextOrder.Before(RuntimeId(b), RuntimeId(a))
  }

  /** Python's `items[:n]`. */
  function FirstOf<T>(items: seq<T>, n: int): seq<T> {
    if n >= |items| then items
    else if n >= 0 then items[..n]
    else if |items| + n > 0 then items[..|items| + n]
    else []
  }

  function Select(c: Config, receivers: seq<Receiver>): seq<Receiver> {
    FirstOf(Sorting.Sort(Grouping.Where(receivers, IsCandidate), IdLeq), c.maxReceivers)
  }

  /** The dictionary of receivers by key; a later one replaces an earlier one. */
  function Keyed(receivers: seq<Receiver>): Pool {
    if receivers == [] then map[]
    else
      var last := receivers[|receivers| - 1];
      Keyed(receivers[..|receivers| - 1])[RuntimeId(last) := last]
  }

  // ----- topping up -------------------------------------------------------------------------

  predicate HasText(t: Option<string>) {
    t.Some? && t.value != ""
  }

  predicate AnyEndpoint(pool: Pool) {
    exists id :: id in pool && HasText(pool[id].streamEndpoint)
  }

  /** The transport in use; `None` is the exception of strict production mode. */
  function DetermineTransport(c: Config, pool: Pool): Option<string> {
    if c.transport != "auto" then
      (if c.strict && c.transport == SIMULATION then None else Some(c.transport))
    else if c.bridgeCommand then Some("command-jsonl")
    else if c.endpoint || AnyEndpoint(pool) then Some("websocket-json")
    else if c.strict then None
    else Some(SIMULATION)
  }

  function Max(a: int, b: int): int {
    if a > b then a else b
  }

  /** Adds simulated receivers that are not there yet until there are enough. */
  function TopUp(pool: Pool, simulated: seq<Receiver>, enough: int): Pool
    decreases |simulated|
  {
    if simulated == [] then pool
    else
      var id := RuntimeId(simulated[0]);
      if id in pool then TopUp(pool, simulated[1..], enough)
      else
        var more := pool[id := simulated[0]];
        if |more| >= enough then more else TopUp(more, simulated[1..], enough)
  }

  /** A pool after an attempt that may have raised an exception on the way. */
  datatype Attempt = Attempt(pool: Pool, raised: bool)

  function Augment(c: Config, simulated: seq<Receiver>, pool: Pool): Attempt {
    var transport := DetermineTransport(c, pool);
    var enough := Max(1, c.minReceivers);
    if transport.None? then Attempt(pool, true)
    else if c.strict || transport.value != SIMULATION || |pool| >= enough then Attempt(pool, false)
    else Attempt(TopUp(pool, simulated, enough), false)
  }

  // ----- refreshing -------------------------------------------------------------------------

  function Refresh(c: Config, simulated: seq<Receiver>, pool: Pool, outcome: Option<seq<Receiver>>): Attempt {
    if !c.registryConfigured then Attempt(pool, false)
    else
      match outcome
      case None => Attempt(Augment(c, simulated, LocalPart(pool)).pool, true)
      case Some(found) => Augment(c, simulated, LocalPart(pool) + Keyed(Select(c, found)))
  }

  /** The first discovery; `None` is an exception, after which the system does not start. */
  function Initialize(c: Config, simulated: seq<Receiver>, outcome: Option<seq<Receiver>>): Option<Pool> {
    if outcome.None? && (c.strict || !c.simulateIfUnavailable) then None
    else
      var found := if outcome.Some? then outcome.value else [];
      var a := Augment(c, simulated, Keyed(Select(c, found)));
      if a.raised then None else Some(a.pool)
  }

  // ----- geometry and inventory -------------------------------------------------------------

  function RowOf(r: Receiver): Row {
    Row(r.identity, r.dataSource, r.position, r.status, r.capabilities, r.receiverId,
        if r.sequence.Some? then r.sequence.value else 0)
  }

  function GeometryOf(pool: Pool): map<string, Position> {
    map id | id in pool :: pool[id].position
  }

  datatype System = System(
    pool: Pool,
    positions: map<string, Position>,
    rows: map<string, Row>,
    clocks: map<string, bool>)

  /** A row that outlives a synchronization although its receiver is not in the pool. */
  predicate Survives(s: System, id: string) {
    id in s.rows && id !in s.positions && s.rows[id].dataSource != REGISTRY
  }

  /** The system after its geometry and its inventory followed the pool. */
  function Synchronized(s: System): System {
    System(
      s.pool,
      GeometryOf(s.pool),
      map id | id in s.rows.Keys + s.pool.Keys && (id in s.pool || Survives(s, id))
        :: if id in s.pool then RowOf(s.pool[id]) else s.rows[id],
      map id | id in s.clocks && (id in s.pool || id !in s.positions) :: s.clocks[id])
  }

  // ----- runs -------------------------------------------------------------------------------

  datatype Event =
    | Refreshed(outcome: Option<seq<Receiver>>)
    | Heard(receiver: string, qualified: bool)

  function After(c: Config, simulated: seq<Receiver>, s: System, e: Event): System {
    match e
    case Refreshed(outcome) => Synchronized(s.(pool := Refresh(c, simulated, s.pool, outcome).pool))
    case Heard(id, qualified) => if id in s.positions then s.(clocks := s.clocks[id := qualified]) else s
  }

  /** The start with an inventory left by earlier runs. */
  function Started(pool: Pool, rows: map<string, Row>): System {
    Synchronized(System(pool, map[], rows, map[]))
  }

  function Run(c: Config, simulated: seq<Receiver>, start: System, events: seq<Event>): System {
    if events == [] then start
    else After(c, simulated, Run(c, simulated, start, events[..|events| - 1]), events[|events| - 1])
  }

  /** What the latest discovery selected: nothing, if it failed. */
  function Latest(c: Config, first: Option<seq<Receiver>>, events: seq<Event>): Pool {
    if events == [] then
      (if first.Some? then Keyed(Select(c, first.value)) else map[])
    else
      match events[|events| - 1]
      case Refreshed(None) => if c.registryConfigured then map[] else Latest(c, first, events[..|events| - 1])
      case Refreshed(Some(found)) =>
        if c.registryConfigured then Keyed(Select(c, found)) else Latest(c, first, events[..|events| - 1])
      case Heard(_, _) => Latest(c, first, events[..|events| - 1])
  }

  predicate ProperEvents(events: seq<Event>) {
    forall e :: e in events && e.Refreshed? && e.outcome.Some? ==> FromRegistry(e.outcome.value)
  }

  // ----- observations -----------------------------------------------------------------------

  datatype Observation = Observation(receiver: string, position: Position)

  /** `build_observations_from_group`, given the receivers of the group's signals. */
  function Observations(positions: map<string, Position>, receivers: seq<string>): seq<Observation> {
    if receivers == [] then []
    else
      var last := receivers[|receivers| - 1];
      Observations(positions, receivers[..|receivers| - 1])
      + if last in positions then [Observation(last, positions[last])] else []
  }

  // ----- what selection means ---------------------------------------------------------------

  lemma IdIsOrder()
    ensures Sorting.Preorder(IdLeq)
  {
    forall a, b ensures IdLeq(a, b) || IdLeq(b, a) {
      if TextOrder.Before(RuntimeId(b), RuntimeId(a)) {
        TextOrder.Asymmetric(RuntimeId(b), RuntimeId(a));
      }
    }
    forall a, b, c | IdLeq(a, b) && IdLeq(b, c) ensures IdLeq(a, c) {
      if TextOrder.Before(RuntimeId(c), RuntimeId(a)) {
        TextOrder.Splits(RuntimeId(c), RuntimeId(b), RuntimeId(a));
      }
    }
  }

  /** Selected are candidates, at most as many as allowed, and none that was left out comes before them. */
  lemma SelectTakesFirst(c: Config, receivers: seq<Receiver>)
    ensures var selected := Select(c, receivers);
            && (forall r :: r in selected ==> r in receivers && IsCandidate(r))
            && (c.maxReceivers >= 0 ==> |selected| <= c.maxReceivers)
            && (forall r, o :: r in selected && o in receivers && IsCandidate(o) && o !in selected ==> IdLeq(r, o))
  {
    hide Grouping.Where, Sorting.Sort, IsCandidate, IdLeq;
    var candidates := Grouping.Where(receivers, IsCandidate);
    var sorted := Sorting.Sort(candidates, IdLeq);
    IdIsOrder();
    Sorting.SortSorts(candidates, IdLeq);
    forall r ensures r in sorted <==> r in receivers && IsCandidate(r) {
      Sorting.SortMember(candidates, IdLeq, r);
    }
    var selected := FirstOf(sorted, c.maxReceivers);
    assert selected == sorted[..|selected|];
    forall r, o | r in selected && o in receivers && IsCandidate(o) && o !in selected ensures IdLeq(r, o) {
      var i :| 0 <= i < |selected| && sorted[i] == r;
      var j :| 0 <= j < |sorted| && sorted[j] == o;
      assert forall k :: 0 <= k < |selected| ==> selected[k] != o && selected[k] == sorted[k];
      assert i < j;
    }
  }

  lemma {:induction false} KeyedIs(receivers: seq<Receiver>)
    ensures forall id :: id in Keyed(receivers) ==> Keyed(receivers)[id] in receivers && RuntimeId(Keyed(receivers)[id]) == id
    ensures forall r :: r in receivers ==> RuntimeId(r) in Keyed(receivers)
  {
    if receivers != [] {
      assert receivers == receivers[..|receivers| - 1] + [receivers[|receivers| - 1]];
      KeyedIs(receivers[..|receivers| - 1]);
    }
  }

  // ----- the registry part of the pool ------------------------------------------------------

  lemma {:induction false} TopUpKeeps(pool: Pool, simulated: seq<Receiver>, enough: int)
    requires Simulated(simulated)
    ensures var more := TopUp(pool, simulated, enough);
            && (forall id :: id in pool ==> id in more && more[id] == pool[id])
            && (forall id :: id in more && id !in pool ==> more[id] in simulated && RuntimeId(more[id]) == id)
    decreases |simulated|
  {
    if simulated != [] {
      hide RuntimeId;
      var first, rest := simulated[0], simulated[1..];
      assert simulated == [first] + rest;
      if RuntimeId(first) in pool {
        TopUpKeeps(pool, rest, enough);
      } else {
        TopUpKeeps(pool[RuntimeId(first) := first], rest, enough);
      }
    }
  }

  /** Topping up stops as soon as there are enough, and falls short only when all simulated receivers are in. */
  lemma {:induction false} TopUpIsEnough(pool: Pool, simulated: seq<Receiver>, enough: int)
    requires |pool| < enough
    ensures |TopUp(pool, simulated, enough)| <= enough
    ensures |TopUp(pool, simulated, enough)| < enough ==>
              forall r :: r in simulated ==> RuntimeId(r) in TopUp(pool, simulated, enough)
    ensures pool.Keys <= TopUp(pool, simulated, enough).Keys
    decreases |simulated|
  {
    if simulated != [] {
      var id := RuntimeId(simulated[0]);
      var more := pool[id := simulated[0]];
      assert simulated == [simulated[0]] + simulated[1..];
      if id in pool {
        TopUpIsEnough(pool, simulated[1..], enough);
      } else {
        assert more.Keys == pool.Keys + {id};
        assert |more| == |more.Keys| == |pool.Keys| + 1 == |pool| + 1;
        if |more| < enough {
          TopUpIsEnough(more, simulated[1..], enough);
          assert id in more;
        }
      }
    }
  }

  lemma AugmentKeeps(c: Config, simulated: seq<Receiver>, pool: Pool)
    requires Simulated(simulated)
    ensures var more := Augment(c, simulated, pool).pool;
            && RegistryPart(more) == RegistryPart(pool)
            && (forall id :: id in pool ==> id in more && more[id] == pool[id])
            && (forall id :: id in more && id !in pool ==> more[id] in simulated && RuntimeId(more[id]) == id)
  {
    hide TopUp;
    TopUpKeeps(pool, simulated, Max(1, c.minReceivers));
    var more := Augment(c, simulated, pool).pool;
    assert forall id :: id in more && id !in pool ==> !IsRegistry(more[id]);
    assert forall id :: id in RegistryPart(more) <==> id in RegistryPart(pool);
  }

  /** The registry receivers of the pool after a refresh are those that it selected. */
  lemma RefreshReplaces(c: Config, simulated: seq<Receiver>, pool: Pool, outcome: Option<seq<Receiver>>)
    requires Simulated(simulated) && c.registryConfigured
    requires outcome.Some? ==> FromRegistry(outcome.value)
    ensures RegistryPart(Refresh(c, simulated, pool, outcome).pool)
            == if outcome.Some? then Keyed(Select(c, outcome.value)) else map[]
    ensures LocalPart(pool).Keys <= Refresh(c, simulated, pool, outcome).pool.Keys
  {
    hide Augment, Select, Keyed;
    match outcome {
      case None =>
        AugmentKeeps(c, simulated, LocalPart(pool));
      case Some(found) =>
        var selected := Select(c, found);
        SelectTakesFirst(c, found);
        KeyedIs(selected);
        AugmentKeeps(c, simulated, LocalPart(pool) + Keyed(selected));
    }
  }

  // ----- after a refresh that raised --------------------------------------------------------

  /**
   Strict production mode finds no live transport: it is set to simulation, or it is automatic
   with no bridge command, no endpoint of its own and none among the receivers.
   */
  predicate NoLiveTransport(c: Config, pool: Pool) {
    && c.strict
    && (c.transport == SIMULATION
        || (c.transport == "auto" && !c.bridgeCommand && !c.endpoint
            && forall id :: id in pool ==> !HasText(pool[id].streamEndpoint)))
  }

  /** The pool that a refresh with this answer sets up before it is topped up. */
  function Replaced(c: Config, pool: Pool, outcome: Option<seq<Receiver>>): Pool {
    LocalPart(pool) + if outcome.Some? then Keyed(Select(c, outcome.value)) else map[]
  }

  /**
   When a refresh raises, and when it then leaves registry receivers in the pool. It raises exactly
   if discovery failed or the new pool has no live transport in strict production mode; and
   registry receivers stay exactly if discovery succeeded and selected some.
   */
  lemma RaisedRefresh(c: Config, simulated: seq<Receiver>, pool: Pool, outcome: Option<seq<Receiver>>)
    requires Simulated(simulated) && (outcome.Some? ==> FromRegistry(outcome.value))
    ensures Refresh(c, simulated, pool, outcome).raised <==>
            c.registryConfigured && (outcome.None? || NoLiveTransport(c, Replaced(c, pool, outcome)))
    ensures Refresh(c, simulated, pool, outcome).raised ==>
              (RegistryPart(Refresh(c, simulated, pool, outcome).pool) != map[] <==>
                 && outcome.Some? && Select(c, outcome.value) != []
                 && NoLiveTransport(c, Replaced(c, pool, outcome)))
  {
    hide TopUp, Select, Keyed;
    if c.registryConfigured {
      RefreshReplaces(c, simulated, pool, outcome);
    }
    if outcome.Some? {
      KeyedIs(Select(c, outcome.value));
      if Select(c, outcome.value) != [] {
        assert RuntimeId(Select(c, outcome.value)[0]) in Keyed(Select(c, outcome.value));
      }
    }
  }

  lemma SelectOne(c: Config, r: Receiver)
    requires IsCandidate(r) && c.maxReceivers >= 1
    ensures Select(c, [r]) == [r] && Keyed([r]) == map[RuntimeId(r) := r]
  {
    assert [r] == [] + [r];
    Grouping.WhereSnoc([], r, IsCandidate);
    assert Grouping.Where([r], IsCandidate) == [r];
    assert Sorting.Sort([r], IdLeq) == [r];
    assert [r][..0] == [];
  }

  /** An online receiver of the registry, with or without an endpoint of its own. */
  function Listed(endpoint: Option<string>): Receiver {
    Receiver("RECV_1", Some("0x" + seq(64, _ => '0')), REGISTRY, Position(0.0, 0.0, 0.0), "online", ["mlat", "mode-s"],
             Some(0), endpoint, None, None, "", "")
  }

  /**
   Such a run: in strict production mode with automatic transport a receiver with an endpoint
   starts the system; then its record loses the endpoint. The refresh raises, and the receiver stays.
   */
  lemma RaisedWithReceivers(rows: map<string, Row>) returns (c: Config, before: System, later: Option<seq<Receiver>>)
    ensures c.strict && c.registryConfigured
    ensures later.Some? && FromRegistry(later.value)
    ensures var first := Some([Listed(Some("wss://feed"))]);
            && FromRegistry(first.value) && Initialize(c, [], first).Some?
            && before == Run(c, [], Started(Initialize(c, [], first).value, rows), [])
    ensures Refresh(c, [], before.pool, later).raised
    ensures RegistryPart(After(c, [], before, Refreshed(later)).pool) != map[]
  {
    c := Config(true, "auto", false, false, true, false, 20, 4);
    var with, without := Listed(Some("wss://feed")), Listed(None);
    var id := RuntimeId(with);
    later := Some([without]);
    assert RegistryRecord.ValidHash(id);
    SelectOne(c, with);
    SelectOne(c, without);
    var pool: Pool := map[id := with];
    assert |"wss://feed"| > 0;
    assert id in pool && HasText(pool[id].streamEndpoint);
    assert Initialize(c, [], Some([with])) == Some(map[id := with]);
    before := Started(map[id := with], rows);
    assert LocalPart(map[id := with]) == map[];
    assert Replaced(c, before.pool, later) == map[id := without];
    RaisedRefresh(c, [], before.pool, later);
  }

  // ----- over whole runs --------------------------------------------------------------------

  /** Geometry follows the pool, the stored registry rows are those of its registry receivers. */
  ghost predicate InStep(s: System) {
    && s.positions == GeometryOf(s.pool)
    && (forall id :: id in s.pool ==> id in s.rows && s.rows[id] == RowOf(s.pool[id]))
    && (forall id :: id in s.rows && s.rows[id].dataSource == REGISTRY <==> id in RegistryPart(s.pool))
    && s.clocks.Keys <= s.positions.Keys
  }

  lemma SynchronizedInStep(s: System)
    requires s.clocks.Keys <= s.positions.Keys
    ensures InStep(Synchronized(s))
  {
  }

  lemma {:induction false} RunInStep(c: Config, simulated: seq<Receiver>, start: System, events: seq<Event>)
    requires InStep(start)
    ensures InStep(Run(c, simulated, start, events))
  {
    hide Refresh, Synchronized;
    if events != [] {
      var front := events[..|events| - 1];
      RunInStep(c, simulated, start, front);
      var s := Run(c, simulated, start, front);
      match events[|events| - 1] {
        case Refreshed(outcome) => SynchronizedInStep(s.(pool := Refresh(c, simulated, s.pool, outcome).pool));
        case Heard(_, _) =>
      }
    }
  }

  lemma SynchronizedKeepsPool(s: System)
    ensures Synchronized(s).pool == s.pool
  {
  }

  /** Bringing the system in step a second time changes nothing. */
  lemma SynchronizedTwice(s: System)
    ensures Synchronized(Synchronized(s)) == Synchronized(s)
  {
    hide RowOf;
    var once := Synchronized(s);
    var twice := Synchronized(once);
    assert twice.rows == once.rows by {
      forall id | id in once.rows && id !in s.pool ensures Survives(once, id) {
        assert Survives(s, id);
      }
    }
    assert twice.clocks == once.clocks;
  }

  /** The registry receivers of the pool are always those that the latest discovery selected. */
  lemma {:induction false} PoolIsLatest(c: Config, simulated: seq<Receiver>, first: Option<seq<Receiver>>,
                                        start: System, events: seq<Event>)
    requires Simulated(simulated) && ProperEvents(events)
    requires RegistryPart(start.pool) == Latest(c, first, [])
    ensures RegistryPart(Run(c, simulated, start, events).pool) == Latest(c, first, events)
  {
    hide Refresh, Synchronized, RegistryPart, Select, Keyed;
    if events != [] {
      var front, last := events[..|events| - 1], events[|events| - 1];
      assert last in events;
      PoolIsLatest(c, simulated, first, start, front);
      var s := Run(c, simulated, start, front);
      match last {
        case Refreshed(outcome) =>
          SynchronizedKeepsPool(s.(pool := Refresh(c, simulated, s.pool, outcome).pool));
          if c.registryConfigured {
            RefreshReplaces(c, simulated, s.pool, outcome);
          } else {
            NotConfigured(c, simulated, s.pool, outcome);
          }
        case Heard(_, _) =>
      }
    }
  }

  lemma NotConfigured(c: Config, simulated: seq<Receiver>, pool: Pool, outcome: Option<seq<Receiver>>)
    requires !c.registryConfigured
    ensures Refresh(c, simulated, pool, outcome).pool == pool
  {
  }

  /** A receiver that is not from the registry is not held under an identity. */
  ghost predicate LocalNames(pool: Pool) {
    forall id :: id in pool && !IsRegistry(pool[id]) ==> !RegistryRecord.ValidHash(id)
  }

  lemma SimulatedName(r: Receiver)
    requires r.dataSource == SIMULATION && r.identity.None?
    ensures !RegistryRecord.ValidHash(RuntimeId(r))
  {
    assert RuntimeId(r)[0] == 's';
  }

  lemma AugmentNames(c: Config, simulated: seq<Receiver>, pool: Pool)
    requires Simulated(simulated) && LocalNames(pool)
    ensures LocalNames(Augment(c, simulated, pool).pool)
  {
    hide Augment, RegistryRecord.ValidHash;
    AugmentKeeps(c, simulated, pool);
    var more := Augment(c, simulated, pool).pool;
    forall id | id in more && !IsRegistry(more[id]) ensures !RegistryRecord.ValidHash(id) {
      if id !in pool {
        SimulatedName(more[id]);
      }
    }
  }

  lemma {:induction false} RunNames(c: Config, simulated: seq<Receiver>, start: System, events: seq<Event>)
    requires Simulated(simulated) && ProperEvents(events) && LocalNames(start.pool)
    ensures LocalNames(Run(c, simulated, start, events).pool)
  {
    hide Augment, Synchronized, Select, Keyed, RegistryRecord.ValidHash;
    if events != [] {
      var front, last := events[..|events| - 1], events[|events| - 1];
      assert last in events;
      RunNames(c, simulated, start, front);
      var s := Run(c, simulated, start, front);
      if last.Refreshed? {
        SynchronizedKeepsPool(s.(pool := Refresh(c, simulated, s.pool, last.outcome).pool));
        AugmentNames(c, simulated, LocalPart(s.pool));
        if last.outcome.Some? {
          var selected := Select(c, last.outcome.value);
          SelectTakesFirst(c, last.outcome.value);
          KeyedIs(selected);
          AugmentNames(c, simulated, LocalPart(s.pool) + Keyed(selected));
        }
      }
    }
  }

  lemma {:induction false} ObservationsAre(positions: map<string, Position>, receivers: seq<string>, o: Observation)
    requires o in Observations(positions, receivers)
    ensures o.receiver in receivers && o.receiver in positions && o.position == positions[o.receiver]
  {
    if receivers != [] {
      var front, last := receivers[..|receivers| - 1], receivers[|receivers| - 1];
      assert receivers == front + [last];
      if o in Observations(positions, front) {
        ObservationsAre(positions, front, o);
      }
    }
  }

  lemma StartedProperly(c: Config, simulated: seq<Receiver>, first: Option<seq<Receiver>>, rows: map<string, Row>)
    requires Simulated(simulated) && (first.Some? ==> FromRegistry(first.value))
    requires Initialize(c, simulated, first).Some?
    ensures var start := Started(Initialize(c, simulated, first).value, rows);
            InStep(start) && LocalNames(start.pool) && RegistryPart(start.pool) == Latest(c, first, [])
  {
    hide Augment, Synchronized, Select, Keyed, InStep, RegistryRecord.ValidHash;
    var found := if first.Some? then first.value else [];
    var pool := Initialize(c, simulated, first).value;
    SynchronizedInStep(System(pool, map[], rows, map[]));
    SynchronizedKeepsPool(System(pool, map[], rows, map[]));
    SelectTakesFirst(c, found);
    KeyedIs(Select(c, found));
    AugmentKeeps(c, simulated, Keyed(Select(c, found)));
    AugmentNames(c, simulated, Keyed(Select(c, found)));
    if first.None? {
      assert forall r :: r !in Select(c, found);
      assert Keyed(Select(c, found)) == map[];
    }
  }

  /**
   Over every run from a proper start: geometry, inventory and pool are in step, the registry
   receivers of the pool are those that the latest discovery selected, and no group of signals,
   however old, yields an observation from an identity that it did not select, or from another
   place than the one it reported.
   */
  lemma OnlySelectedAreObserved(c: Config, simulated: seq<Receiver>, first: Option<seq<Receiver>>,
                                rows: map<string, Row>, events: seq<Event>, group: seq<string>, o: Observation)
    requires Simulated(simulated) && ProperEvents(events) && (first.Some? ==> FromRegistry(first.value))
    requires Initialize(c, simulated, first).Some?
    ensures var s := Run(c, simulated, Started(Initialize(c, simulated, first).value, rows), events);
            var latest := Latest(c, first, events);
            && InStep(s) && RegistryPart(s.pool) == latest
            && (o in Observations(s.positions, group) ==>
                  && o.receiver in group && o.receiver in s.pool
                  && (RegistryRecord.ValidHash(o.receiver) ==>
                        o.receiver in latest && o.position == latest[o.receiver].position))
  {
    hide Initialize, Started, Run, Latest, RegistryRecord.ValidHash, Observations;
    var start := Started(Initialize(c, simulated, first).value, rows);
    StartedProperly(c, simulated, first, rows);
    RunInStep(c, simulated, start, events);
    PoolIsLatest(c, simulated, first, start, events);
    RunNames(c, simulated, start, events);
    var s := Run(c, simulated, start, events);
    if o in Observations(s.positions, group) {
      ObservationsAre(s.positions, group, o);
      assert o.receiver in s.pool;
      if RegistryRecord.ValidHash(o.receiver) {
        assert IsRegistry(s.pool[o.receiver]);
        assert o.receiver in RegistryPart(s.pool);
      }
    }
  }
}
