/**
 The search for a four-receiver group in a raw observation log, as `raw_observation_failures` of
 tools/mlat/capture_grant_evidence.py does it, and what it shares with the correlator.
 A record without an integer stamp is given `None`.
 */
module EvidenceGate {
  import opened Wrappers
  import Sorting
  import Grouping
  import Correlation
  import CorrelatorGroups
  import CorrelatorHistory

  datatype Record = Record(receiver: Option<string>, message: string, stamp: Option<int>)

  /** 5 milliseconds in nanoseconds. */
  const GATE_SPAN := 5_000_000

  // ----- what is looked for -----------------------------------------------------------------

  predicate Close(a: Record, b: Record) {
    && a.stamp.Some? && b.stamp.Some?
    && a.message == b.message && a.receiver != b.receiver
    && -GATE_SPAN <= a.stamp.value - b.stamp.value <= GATE_SPAN
  }

  /** Four records of one message, from four receivers, all within the span of each other. */
  predicate FourClose(a: Record, b: Record, c: Record, d: Record) {
    Close(a, b) && Close(a, c) && Close(a, d) && Close(b, c) && Close(b, d) && Close(c, d)
  }

  ghost predicate HasFourClose(records: seq<Record>) {
    exists a, b, c, d :: a in records && b in records && c in records && d in records && FourClose(a, b, c, d)
  }

  // ----- the search -------------------------------------------------------------------------

  function MessageOf(r: Record): string {
    r.message
  }

  function StampOf(r: Record): int {
    if r.stamp.Some? then r.stamp.value else 0
  }

  predicate Earlier(a: Record, b: Record) {
    StampOf(a) <= StampOf(b)
  }

  predicate IsTimed(r: Record) {
    r.stamp.Some?
  }

  function Timed(records: seq<Record>): seq<Record> {
    Sorting.Sort(Grouping.Where(records, IsTimed), Earlier)
  }

  function Within(first: int): Record -> bool {
    r => StampOf(r) - first <= GATE_SPAN
  }

  function Receivers(records: seq<Record>): set<Option<string>> {
    set k | 0 <= k < |records| :: records[k].receiver
  }

  function WindowFrom(timed: seq<Record>, start: nat): seq<Record>
    requires start < |timed|
  {
    Grouping.Where(timed[start..], Within(StampOf(timed[start])))
  }

  ghost predicate FullWindow(timed: seq<Record>, start: nat) {
    start < |timed| && |Receivers(WindowFrom(timed, start))| >= 4
  }

  ghost predicate HasFullWindow(timed: seq<Record>) {
    exists start :: FullWindow(timed, start)
  }

  ghost predicate FullMessage(records: seq<Record>, message: string) {
    HasFullWindow(Timed(Grouping.OfKey(records, MessageOf, message)))
  }

  method SearchMessage(timed: seq<Record>) returns (found: bool)
    ensures found == HasFullWindow(timed)
  {
    found := false;
    for start := 0 to |timed|
      invariant !found
      invariant forall s: nat :: s < start ==> !FullWindow(timed, s)
    {
      var first := timed[start];
      var window := Grouping.Where(timed[start..], Within(StampOf(first)));
      if |Receivers(window)| >= 4 {
        found := true;
        assert FullWindow(timed, start);
        break;
      }
    }
  }

  method HasFourReceiverGroup(records: seq<Record>) returns (found: bool)
    ensures found == HasFourClose(records)
  {
    hide HasFourClose, HasFullWindow, Timed, Grouping.OfKey;
    var messages, candidates := Grouping.GroupBy(records, MessageOf);
    found := false;
    for i := 0 to |messages|
      invariant !found
      invariant forall j :: 0 <= j < i ==> !FullMessage(records, messages[j])
    {
      assert messages[i] in candidates;
      found := SearchMessage(Timed(candidates[messages[i]]));
      assert found == FullMessage(records, messages[i]);
      if found {
        break;
      }
    }
    SearchIsComplete(records);
    if !found {
      forall m | m in messages ensures !FullMessage(records, m) {
        var j :| 0 <= j < |messages| && messages[j] == m;
      }
    }
  }

  // ----- why the search finds it ------------------------------------------------------------

  lemma ReceiverSet(records: seq<Record>)
    ensures Receivers(records) == set r | r in records :: r.receiver
  {
    forall r | r in records ensures r.receiver in Receivers(records) {
      var k :| 0 <= k < |records| && records[k] == r;
    }
  }

  lemma TimedIs(records: seq<Record>, message: string)
    ensures var timed := Timed(Grouping.OfKey(records, MessageOf, message));
            && Sorting.Sorted(timed, Earlier)
            && forall r :: r in timed <==> r in records && r.message == message && r.stamp.Some?
  {
    hide Sorting.Sort, Grouping.Where, Grouping.OfKey;
    var ofMessage := Grouping.OfKey(records, MessageOf, message);
    Grouping.OfKeyIs(records, MessageOf, message);
    assert Sorting.Preorder(Earlier);
    Sorting.SortSorts(Grouping.Where(ofMessage, IsTimed), Earlier);
    forall r ensures r in Timed(ofMessage) <==> r in records && r.message == message && r.stamp.Some? {
      Sorting.SortMember(Grouping.Where(ofMessage, IsTimed), Earlier, r);
    }
  }

  /** Everything from `start` on that is not later than the span. */
  lemma WindowIs(timed: seq<Record>, start: nat, r: Record)
    requires start < |timed|
    ensures r in WindowFrom(timed, start)
            <==> exists k :: start <= k < |timed| && timed[k] == r && StampOf(r) - StampOf(timed[start]) <= GATE_SPAN
  {
    assert r in timed[start..] <==> exists k :: start <= k < |timed| && timed[k] == r;
  }

  lemma FourOf<T>(s: set<T>) returns (a: T, b: T, c: T, d: T)
    requires |s| >= 4
    ensures {a, b, c, d} <= s
    ensures a != b && a != c && a != d && b != c && b != d && c != d
  {
    a :| a in s;
    var s1 := s - {a};
    assert s == s1 + {a};
    b :| b in s1;
    var s2 := s1 - {b};
    assert s1 == s2 + {b};
    c :| c in s2;
    var s3 := s2 - {c};
    assert s2 == s3 + {c};
    d :| d in s3;
  }

  lemma FourAreFour<T>(s: set<T>, a: T, b: T, c: T, d: T)
    requires {a, b, c, d} <= s
    requires a != b && a != c && a != d && b != c && b != d && c != d
    ensures |s| >= 4
  {
    assert s == {a, b, c, d} + (s - {a, b, c, d});
  }

  lemma RecordOf(records: seq<Record>, receiver: Option<string>) returns (r: Record)
    requires receiver in Receivers(records)
    ensures r in records && r.receiver == receiver
  {
    var k :| 0 <= k < |records| && records[k].receiver == receiver;
    r := records[k];
  }

  lemma WindowIsClose(records: seq<Record>, message: string, start: nat, a: Record, b: Record)
    requires var timed := Timed(Grouping.OfKey(records, MessageOf, message));
             && start < |timed| && a in WindowFrom(timed, start) && b in WindowFrom(timed, start)
    requires a.receiver != b.receiver
    ensures a in records && b in records && Close(a, b)
  {
    hide Timed, WindowFrom, Grouping.OfKey;
    var timed := Timed(Grouping.OfKey(records, MessageOf, message));
    TimedIs(records, message);
    WindowIs(timed, start, a);
    WindowIs(timed, start, b);
    var i :| start <= i < |timed| && timed[i] == a;
    var j :| start <= j < |timed| && timed[j] == b;
    assert start < i ==> Earlier(timed[start], timed[i]);
    assert start < j ==> Earlier(timed[start], timed[j]);
    assert a in timed && b in timed;
  }

  lemma FullIsFourClose(records: seq<Record>, message: string)
    requires FullMessage(records, message)
    ensures HasFourClose(records)
  {
    hide Timed, WindowFrom, Grouping.OfKey, Close, Receivers;
    var timed := Timed(Grouping.OfKey(records, MessageOf, message));
    var start :| FullWindow(timed, start);
    var window := WindowFrom(timed, start);
    var p, q, r, s := FourOf(Receivers(window));
    var a := RecordOf(window, p);
    var b := RecordOf(window, q);
    var c := RecordOf(window, r);
    var d := RecordOf(window, s);
    WindowIsClose(records, message, start, a, b);
    WindowIsClose(records, message, start, a, c);
    WindowIsClose(records, message, start, a, d);
    WindowIsClose(records, message, start, b, c);
    WindowIsClose(records, message, start, b, d);
    WindowIsClose(records, message, start, c, d);
    assert FourClose(a, b, c, d);
  }

  /** The place of a record among the timed ones. */
  lemma PlaceOf(timed: seq<Record>, r: Record) returns (k: nat)
    requires r in timed
    ensures k < |timed| && timed[k] == r
  {
    k :| 0 <= k < |timed| && timed[k] == r;
  }

  lemma FourCloseIsFull(records: seq<Record>, a: Record, b: Record, c: Record, d: Record)
    requires a in records && b in records && c in records && d in records && FourClose(a, b, c, d)
    ensures FullMessage(records, a.message) && a.message in Grouping.Keys(records, MessageOf)
  {
    hide Timed, WindowFrom, Grouping.OfKey, Receivers, Sorting.Sorted;
    var timed := Timed(Grouping.OfKey(records, MessageOf, a.message));
    TimedIs(records, a.message);
    var i := PlaceOf(timed, a);
    var j := PlaceOf(timed, b);
    var k := PlaceOf(timed, c);
    var l := PlaceOf(timed, d);
    var start := if i <= j && i <= k && i <= l then i else if j <= k && j <= l then j else if k <= l then k else l;
    WindowIs(timed, start, a);
    WindowIs(timed, start, b);
    WindowIs(timed, start, c);
    WindowIs(timed, start, d);
    var window := WindowFrom(timed, start);
    ReceiverSet(window);
    FourAreFour(Receivers(window), a.receiver, b.receiver, c.receiver, d.receiver);
    assert FullWindow(timed, start);
    assert MessageOf(a) in Grouping.Keys(records, MessageOf);
  }

  /** Some window is full exactly if four records are close. */
  lemma SearchIsComplete(records: seq<Record>)
    ensures HasFourClose(records) <==>
            exists m :: m in Grouping.Keys(records, MessageOf) && FullMessage(records, m)
  {
    hide FullMessage, FourClose, Grouping.Keys;
    if HasFourClose(records) {
      var a, b, c, d :| a in records && b in records && c in records && d in records && FourClose(a, b, c, d);
      FourCloseIsFull(records, a, b, c, d);
    }
    if m :| m in Grouping.Keys(records, MessageOf) && FullMessage(records, m) {
      FullIsFourClose(records, m);
    }
  }

  // ----- groups of the correlator pass ------------------------------------------------------

  function Logged(s: Correlation.Signal): Record {
    Record(Some(s.receiver), s.message, Some(s.stamp))
  }

  lemma SignalOf(signals: seq<Correlation.Signal>, receiver: string) returns (s: Correlation.Signal)
    requires receiver in Correlation.Receivers(signals)
    ensures s in signals && s.receiver == receiver
  {
    var k :| 0 <= k < |signals| && signals[k].receiver == receiver;
    s := signals[k];
  }

  lemma GroupIsClose(c: Correlation.Config, buffer: seq<Correlation.Signal>, g: Correlation.Group,
                     a: Correlation.Signal, b: Correlation.Signal)
    requires CorrelatorGroups.GoodGroup(c, buffer, g) && c.window <= GATE_SPAN
    requires a in g.signals && b in g.signals && a.receiver != b.receiver
    ensures Close(Logged(a), Logged(b))
  {
    var i :| 0 <= i < |g.signals| && g.signals[i] == a;
    var j :| 0 <= j < |g.signals| && g.signals[j] == b;
    assert 0 < i ==> Correlation.Earlier(g.signals[0], g.signals[i]);
    assert 0 < j ==> Correlation.Earlier(g.signals[0], g.signals[j]);
  }

  /** Whatever the correlator returns, with a window of at most 5 ms and four receivers or more, passes the gate. */
  lemma ReturnedPassesGate(c: Correlation.Config, calls: seq<CorrelatorHistory.Call>, g: Correlation.Group,
                           records: seq<Record>)
    requires c.window <= GATE_SPAN && c.minReceivers >= 4
    requires g in CorrelatorHistory.Run(c, calls).returned
    requires forall s :: s in g.signals ==> Logged(s) in records
    ensures HasFourClose(records)
  {
    hide CorrelatorHistory.Run, Close, Correlation.Receivers;
    var arrivals := CorrelatorHistory.Arrivals(calls);
    CorrelatorHistory.ReturnedAreGood(c, calls, g);
    GoodPassesGate(c, arrivals, g, records);
  }

  lemma GoodPassesGate(c: Correlation.Config, buffer: seq<Correlation.Signal>, g: Correlation.Group,
                       records: seq<Record>)
    requires c.window <= GATE_SPAN && c.minReceivers >= 4
    requires CorrelatorGroups.GoodGroup(c, buffer, g)
    requires forall s :: s in g.signals ==> Logged(s) in records
    ensures HasFourClose(records)
  {
    hide Close, Correlation.Receivers, Sorting.Sorted;
    var p, q, r, s := FourOf(Correlation.Receivers(g.signals));
    var w := SignalOf(g.signals, p);
    var x := SignalOf(g.signals, q);
    var y := SignalOf(g.signals, r);
    var z := SignalOf(g.signals, s);
    GroupIsClose(c, buffer, g, w, x);
    GroupIsClose(c, buffer, g, w, y);
    GroupIsClose(c, buffer, g, w, z);
    GroupIsClose(c, buffer, g, x, y);
    GroupIsClose(c, buffer, g, x, z);
    GroupIsClose(c, buffer, g, y, z);
    assert FourClose(Logged(w), Logged(x), Logged(y), Logged(z));
  }
}
