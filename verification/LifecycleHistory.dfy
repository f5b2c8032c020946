/**
 Rebuilding the lifecycle of one identity from the transactions that an indexer reports in any
 order. Models sdk/typescript/src/history.ts. The indexer and the node are functions.
 */
module LifecycleHistory {
  import opened Wrappers
  import opened RegistryRecord
  import opened Lifecycle
  import opened Discovery
  import RecordRoundTrip
  import Grouping
  import Sorting

  datatype Action = Create | Update | Transfer | Revoke

  datatype Event = Event(
    action: Action,
    identity: string,
    record: Record,
    ownerLock: Script,
    transactionHash: string,
    blockNumber: nat,
    outputIndex: nat)

  datatype Output = Output(lock: Script, typeScript: Option<Script>)

  /** A committed transaction as the node returns it; `None` for one that is not committed. */
  datatype Committed = Committed(outputs: seq<Output>, outputsData: seq<string>, blockNumber: Option<nat>)

  datatype Indexed = Indexed(txHash: string, blockNumber: nat)

  datatype TxPage = TxPage(transactions: seq<Indexed>, lastCursor: string)

  type TxIndexer = (nat, Option<string>) -> TxPage

  type Node = string -> Option<Committed>

  // ----- the index --------------------------------------------------------------------------

  /** The transactions by hash, in the order of their first report; a later report gives the block. */
  function Put(index: seq<Indexed>, entry: Indexed): seq<Indexed> {
    if index == [] then [entry]
    else if index[0].txHash == entry.txHash then [entry] + index[1..]
    else [index[0]] + Put(index[1..], entry)
  }

  /** `None` if a hash is malformed. */
  function PutAll(index: seq<Indexed>, entries: seq<Indexed>): Option<seq<Indexed>> {
    if entries == [] then Some(index)
    else
      var front :- PutAll(index, entries[..|entries| - 1]);
      var last := entries[|entries| - 1];
      var hash :- NormalizedIdentity(last.txHash);
      Some(Put(front, Indexed(hash, last.blockNumber)))
  }

  function CollectTransactions(indexer: TxIndexer, maxPages: int, maxEvents: int, page: nat,
                               cursor: Option<string>, index: seq<Indexed>): Option<seq<Indexed>>
    decreases Max(0, maxPages - page)
  {
    if page >= maxPages then None
    else
      var p := indexer(page, cursor);
      var more :- PutAll(index, p.transactions);
      if |more| > maxEvents then None
      else if p.transactions == [] then Some(more)
      else if BadCursor(p.lastCursor, cursor) then None
      else CollectTransactions(indexer, maxPages, maxEvents, page + 1, Some(p.lastCursor), more)
  }

  // ----- one event --------------------------------------------------------------------------

  /** The positions of the outputs with the type script. */
  function Matching(outputs: seq<Output>, script: Script): seq<nat> {
    if outputs == [] then []
    else
      var n := |outputs| - 1;
      Matching(outputs[..n], script) + if outputs[n].typeScript == Some(script) then [n] else []
  }

  lemma {:induction false} MatchingIs(outputs: seq<Output>, script: Script)
    ensures forall k: nat :: k in Matching(outputs, script) <==> k < |outputs| && outputs[k].typeScript == Some(script)
  {
    if outputs != [] {
      MatchingIs(outputs[..|outputs| - 1], script);
    }
  }

  function EventOf(node: Node, decode: string -> Option<Record>, script: Script, entry: Indexed): Option<Event> {
    var tx :- node(entry.txHash);
    var matching := Matching(tx.outputs, script);
    if |matching| != 1 then None
    else
      var k := matching[0];
      MatchingIs(tx.outputs, script);
      assert k in matching;
      if k >= |tx.outputsData| then None
      else
        var record :- decode(tx.outputsData[k]);
        Some(Event(Update, script.args, record, tx.outputs[k].lock, entry.txHash,
                   if tx.blockNumber.Some? then tx.blockNumber.value else entry.blockNumber, k))
  }

  /** Output `k` is the only one with the type script. */
  ghost predicate OnlyOutput(outputs: seq<Output>, script: Script, k: nat) {
    && k < |outputs| && outputs[k].typeScript == Some(script)
    && forall j :: 0 <= j < |outputs| && outputs[j].typeScript == Some(script) ==> j == k
  }

  lemma {:induction false} MatchingOne(outputs: seq<Output>, script: Script, k: nat)
    ensures Matching(outputs, script) == [k] <==> OnlyOutput(outputs, script, k)
  {
    MatchingIs(outputs, script);
    if OnlyOutput(outputs, script, k) {
      MatchingOnce(outputs, script, k);
    }
    if Matching(outputs, script) == [k] {
      assert k in Matching(outputs, script);
      forall j | 0 <= j < |outputs| && outputs[j].typeScript == Some(script) ensures j == k {
        assert j in Matching(outputs, script);
      }
    }
  }

  lemma {:induction false} MatchingNone(outputs: seq<Output>, script: Script)
    requires forall j :: 0 <= j < |outputs| ==> outputs[j].typeScript != Some(script)
    ensures Matching(outputs, script) == []
  {
    if outputs != [] {
      MatchingNone(outputs[..|outputs| - 1], script);
    }
  }

  lemma {:induction false} MatchingOnce(outputs: seq<Output>, script: Script, k: nat)
    requires OnlyOutput(outputs, script, k)
    ensures Matching(outputs, script) == [k]
  {
    var n := |outputs| - 1;
    var front := outputs[..n];
    if k < n {
      assert front[k] == outputs[k];
      MatchingOnce(front, script, k);
    } else {
      assert forall j :: 0 <= j < n ==> front[j] == outputs[j];
      MatchingNone(front, script);
    }
  }

  /** An event is made exactly of the committed transaction's only output with the type script. */
  lemma EventIs(node: Node, decode: string -> Option<Record>, script: Script, entry: Indexed, e: Event)
    ensures EventOf(node, decode, script, entry) == Some(e) <==>
            && node(entry.txHash).Some?
            && var tx := node(entry.txHash).value;
            && OnlyOutput(tx.outputs, script, e.outputIndex) && e.outputIndex < |tx.outputsData|
            && decode(tx.outputsData[e.outputIndex]) == Some(e.record)
            && e.ownerLock == tx.outputs[e.outputIndex].lock
            && e.blockNumber == (if tx.blockNumber.Some? then tx.blockNumber.value else entry.blockNumber)
            && e.action == Update && e.identity == script.args && e.transactionHash == entry.txHash
  {
    hide OnlyOutput, Matching;
    if node(entry.txHash).Some? {
      var outputs := node(entry.txHash).value.outputs;
      MatchingOne(outputs, script, e.outputIndex);
      var matching := Matching(outputs, script);
      if |matching| == 1 {
        MatchingIs(outputs, script);
        MatchingOne(outputs, script, matching[0]);
        assert matching[0] in matching;
        assert matching == [matching[0]];
      }
    }
  }

  function EventsOf(node: Node, decode: string -> Option<Record>, script: Script, index: seq<Indexed>)
    : Option<seq<Event>>
  {
    if index == [] then Some([])
    else
      var front :- EventsOf(node, decode, script, index[..|index| - 1]);
      var last :- EventOf(node, decode, script, index[|index| - 1]);
      Some(front + [last])
  }

  // ----- the chain --------------------------------------------------------------------------

  predicate SequenceLeq(a: Event, b: Event) {
    a.record.sequence <= b.record.sequence
  }

  /** A creation and accepted successors, or nothing. */
  ghost predicate Follows(events: seq<Event>) {
    && (events != [] ==> SdkCreation(events[0].record))
    && forall i :: 1 <= i < |events| ==> SdkSuccessor(events[i - 1].record, events[i].record)
  }

  /** What happened at a place of the chain. */
  function ActionAt(events: seq<Event>, i: nat): Action
    requires i < |events|
  {
    if i == 0 then Create
    else if events[i].record.status == "revoked" then Revoke
    else if events[i].ownerLock == events[i - 1].ownerLock then Update
    else Transfer
  }

  function Labelled(events: seq<Event>): (labelled: seq<Event>)
    ensures |labelled| == |events|
    ensures forall i :: 0 <= i < |events| ==> labelled[i] == events[i].(action := ActionAt(events, i))
  {
    seq(|events|, i requires 0 <= i < |events| => events[i].(action := ActionAt(events, i)))
  }

  method LabelEvents(unordered: seq<Event>) returns (events: Option<seq<Event>>)
    ensures var sorted := Sorting.Sort(unordered, SequenceLeq);
            && (events.Some? <==> Follows(sorted))
            && (events.Some? ==> events.value == Labelled(sorted))
  {
    hide SdkSuccessor, SdkCreation;
    var sorted := Sorting.Sort(unordered, SequenceLeq);
    var labelled := sorted;
    for index := 0 to |sorted|
      invariant |labelled| == |sorted|
      invariant index > 0 ==> SdkCreation(sorted[0].record)
      invariant forall i :: 1 <= i < index ==> SdkSuccessor(sorted[i - 1].record, sorted[i].record)
      invariant forall i :: 0 <= i < index ==> labelled[i] == sorted[i].(action := ActionAt(sorted, i))
      invariant forall i :: index <= i < |sorted| ==> labelled[i] == sorted[i]
    {
      var event := labelled[index];
      if index == 0 {
        if !SdkCreation(event.record) {
          return None;
        }
        labelled := labelled[index := event.(action := Create)];
        continue;
      }
      var previous := labelled[index - 1];
      if !SdkSuccessor(previous.record, event.record) {
        assert !SdkSuccessor(sorted[index - 1].record, sorted[index].record);
        return None;
      }
      var action := if event.record.status == "revoked" then Revoke
                    else if event.ownerLock == previous.ownerLock then Update
                    else Transfer;
      labelled := labelled[index := event.(action := action)];
    }
    assert labelled == Labelled(sorted);
    return Some(labelled);
  }

  method IndexTransactions(indexer: TxIndexer, maxPages: int, maxEvents: int) returns (index: Option<seq<Indexed>>)
    ensures index == CollectTransactions(indexer, maxPages, maxEvents, 0, None, [])
  {
    hide PutAll, BadCursor;
    var indexed: seq<Indexed> := [];
    var cursor: Option<string> := None;
    ghost var found := CollectTransactions(indexer, maxPages, maxEvents, 0, None, []);
    var pageIndex := 0;
    while pageIndex < maxPages
      invariant 0 <= pageIndex
      invariant CollectTransactions(indexer, maxPages, maxEvents, pageIndex, cursor, indexed) == found
    {
      var page := indexer(pageIndex, cursor);
      var more := PutPage(indexed, page.transactions);
      if more.None? {
        return None;
      }
      indexed := more.value;
      if |indexed| > maxEvents {
        return None;
      }
      if |page.transactions| == 0 {
        return Some(indexed);
      }
      if BadCursor(page.lastCursor, cursor) {
        return None;
      }
      cursor := Some(page.lastCursor);
      pageIndex := pageIndex + 1;
    }
    return None;
  }

  lemma {:induction false} PutAllStops(index: seq<Indexed>, entries: seq<Indexed>, k: nat)
    requires k <= |entries| && PutAll(index, entries[..k]).None?
    ensures PutAll(index, entries).None?
    decreases |entries| - k
  {
    if k < |entries| {
      assert entries[..k + 1][..k] == entries[..k];
      PutAllStops(index, entries, k + 1);
    } else {
      assert entries[..k] == entries;
    }
  }

  method PutPage(index: seq<Indexed>, entries: seq<Indexed>) returns (more: Option<seq<Indexed>>)
    ensures more == PutAll(index, entries)
  {
    var indexed := index;
    for k := 0 to |entries|
      invariant PutAll(index, entries[..k]) == Some(indexed)
    {
      assert entries[..k + 1][..k] == entries[..k];
      var hash := NormalizedIdentity(entries[k].txHash);
      if hash.None? {
        PutAllStops(index, entries, k + 1);
        return None;
      }
      indexed := Put(indexed, Indexed(hash.value, entries[k].blockNumber));
    }
    assert entries[..|entries|] == entries;
    return Some(indexed);
  }

  lemma {:induction false} EventsStop(node: Node, decode: string -> Option<Record>, script: Script,
                                      index: seq<Indexed>, k: nat)
    requires k <= |index| && EventsOf(node, decode, script, index[..k]).None?
    ensures EventsOf(node, decode, script, index).None?
    decreases |index| - k
  {
    if k < |index| {
      assert index[..k + 1][..k] == index[..k];
      EventsStop(node, decode, script, index, k + 1);
    } else {
      assert index[..k] == index;
    }
  }

  /** `discover`: `None` stands for every exception. */
  method DiscoverHistory(indexer: TxIndexer, node: Node, decode: string -> Option<Record>, script: Script,
                         maxPages: int, maxEvents: int)
    returns (history: Option<seq<Event>>)
    ensures history.Some? ==>
              var index := CollectTransactions(indexer, Max(1, maxPages), Max(1, maxEvents), 0, None, []);
              && index.Some? && EventsOf(node, decode, script, index.value).Some?
              && var sorted := Sorting.Sort(EventsOf(node, decode, script, index.value).value, SequenceLeq);
              Follows(sorted) && history.value == Labelled(sorted)
    ensures history.None? ==>
              var index := CollectTransactions(indexer, Max(1, maxPages), Max(1, maxEvents), 0, None, []);
              || index.None? || EventsOf(node, decode, script, index.value).None?
              || !Follows(Sorting.Sort(EventsOf(node, decode, script, index.value).value, SequenceLeq))
  {
    hide CollectTransactions, EventOf, Follows, Labelled, Sorting.Sort;
    var index := IndexTransactions(indexer, Max(1, maxPages), Max(1, maxEvents));
    if index.None? {
      return None;
    }
    var indexed := index.value;
    var events: seq<Event> := [];
    for k := 0 to |indexed|
      invariant EventsOf(node, decode, script, indexed[..k]) == Some(events)
    {
      assert indexed[..k + 1][..k] == indexed[..k];
      var event := EventOf(node, decode, script, indexed[k]);
      if event.None? {
        EventsStop(node, decode, script, indexed, k + 1);
        return None;
      }
      events := events + [event.value];
    }
    assert indexed[..|indexed|] == indexed;
    history := LabelEvents(events);
  }

  // ----- what history means -----------------------------------------------------------------

  function Records(events: seq<Event>): (records: seq<Record>)
    ensures |records| == |events|
    ensures forall i :: 0 <= i < |events| ==> records[i] == events[i].record
  {
    seq(|events|, i requires 0 <= i < |events| => events[i].record)
  }

  /** Any history that is accepted is a legal lifecycle. */
  lemma AcceptedIsLegal(events: seq<Event>)
    requires events != []
    ensures Follows(events) <==>
            LegalLineage(Records(events)) && forall e :: e in events ==> RecordRoundTrip.WithinCapacity(e.record)
  {
    hide Validate, RecordRoundTrip.WithinCapacity, SdkCreation, SdkSuccessor, ValidateCreation, ValidateSuccessor;
    var records := Records(events);
    forall i | 0 <= i < |records| - 1
      ensures SdkSuccessor(records[i], records[i + 1]) <==>
              ValidateSuccessor(records[i], records[i + 1]).Ok?
              && RecordRoundTrip.WithinCapacity(records[i]) && RecordRoundTrip.WithinCapacity(records[i + 1])
    {
      SdkIsContract(records[i], records[i + 1]);
    }
    SdkIsContract(records[0], records[0]);
    if Follows(events) {
      CapacityFollows(events);
      forall i | 0 <= i < |records| - 1 ensures ValidateSuccessor(records[i], records[i + 1]).Ok? {
        assert SdkSuccessor(events[i + 1 - 1].record, events[i + 1].record);
      }
    }
    if LegalLineage(records) && forall e :: e in events ==> RecordRoundTrip.WithinCapacity(e.record) {
      assert events[0] in events;
      forall i | 1 <= i < |events| ensures SdkSuccessor(events[i - 1].record, events[i].record) {
        assert ValidateSuccessor(records[i - 1], records[i - 1 + 1]).Ok?;
        assert events[i - 1] in events && events[i] in events;
      }
    }
  }

  /** Every step of a chain is an accepted successor. */
  lemma StepFollows(events: seq<Event>, n: nat)
    requires Follows(events) && 0 < n < |events|
    ensures var previous, next := events[n - 1].record, events[n].record;
            && ValidateSuccessor(previous, next).Ok?
            && RecordRoundTrip.WithinCapacity(next) && previous.status != "revoked"
            && next.sequence == previous.sequence + 1
  {
    hide Validate, RecordRoundTrip.WithinCapacity, SdkSuccessor;
    SdkIsContract(events[n - 1].record, events[n].record);
  }

  lemma FirstFollows(events: seq<Event>)
    requires Follows(events) && events != []
    ensures ValidateCreation(events[0].record).Ok? && RecordRoundTrip.WithinCapacity(events[0].record)
    ensures events[0].record.sequence == 0 && events[0].record.status != "revoked"
  {
    hide Validate, RecordRoundTrip.WithinCapacity, SdkCreation;
    SdkIsContract(events[0].record, events[0].record);
  }

  lemma CapacityFollows(events: seq<Event>)
    requires Follows(events)
    ensures forall e :: e in events ==> RecordRoundTrip.WithinCapacity(e.record)
  {
    hide Follows, ValidateSuccessor, ValidateCreation, RecordRoundTrip.WithinCapacity;
    forall e | e in events ensures RecordRoundTrip.WithinCapacity(e.record) {
      var i :| 0 <= i < |events| && events[i] == e;
      FirstFollows(events);
      if i > 0 {
        StepFollows(events, i);
      }
    }
  }

  lemma {:induction false} FollowsSequence(events: seq<Event>, n: nat)
    requires Follows(events) && n < |events|
    ensures events[n].record.sequence == n
  {
    hide Follows, ValidateSuccessor, ValidateCreation, RecordRoundTrip.WithinCapacity;
    FirstFollows(events);
    if n > 0 {
      FollowsSequence(events, n - 1);
      StepFollows(events, n);
    }
  }

  /** However the events of a chain are reported, sorting gives the chain. */
  lemma OrderIsRecovered(chain: seq<Event>, reported: seq<Event>)
    requires Follows(chain) && multiset(reported) == multiset(chain)
    ensures Sorting.Sort(reported, SequenceLeq) == chain
  {
    hide Follows, Sorting.Sort;
    forall n | 0 <= n < |chain| ensures chain[n].record.sequence == n {
      FollowsSequence(chain, n);
    }
    assert Sorting.Preorder(SequenceLeq);
    forall x ensures x in reported <==> x in chain {
      assert x in reported <==> x in multiset(reported);
    }
    forall x, y | x in reported && y in reported && SequenceLeq(x, y) && SequenceLeq(y, x) ensures x == y {
      var i :| 0 <= i < |chain| && chain[i] == x;
      var j :| 0 <= j < |chain| && chain[j] == y;
      assert i == j;
    }
    Sorting.SortIgnoresOrder(reported, chain, SequenceLeq);
    Sorting.SortOfSorted(chain, SequenceLeq);
  }

  lemma {:induction false} EventsConcat(node: Node, decode: string -> Option<Record>, script: Script,
                                        a: seq<Indexed>, b: seq<Indexed>)
    ensures EventsOf(node, decode, script, a + b).Some? <==>
            EventsOf(node, decode, script, a).Some? && EventsOf(node, decode, script, b).Some?
    ensures EventsOf(node, decode, script, a + b).Some? ==>
              EventsOf(node, decode, script, a + b).value
              == EventsOf(node, decode, script, a).value + EventsOf(node, decode, script, b).value
  {
    hide EventOf;
    if b == [] {
      assert a + b == a;
    } else {
      EventsConcat(node, decode, script, a, b[..|b| - 1]);
      assert (a + b)[..|a + b| - 1] == a + b[..|b| - 1];
    }
  }

  lemma NoEvents(node: Node, decode: string -> Option<Record>, script: Script)
    ensures EventsOf(node, decode, script, []) == Some([])
  {
  }

  lemma Removed<T>(a: seq<T>, left: seq<T>, right: seq<T>)
    requires a != [] && multiset(a) == multiset(left + [a[|a| - 1]] + right)
    ensures multiset(a[..|a| - 1]) == multiset(left + right)
  {
    var front, last := a[..|a| - 1], a[|a| - 1];
    assert a == front + [last];
    assert multiset(a) == multiset(front) + multiset{last};
    assert multiset(a) == multiset(left) + multiset(right) + multiset{last};
    assert multiset(front) == multiset(a) - multiset{last};
    assert multiset(left + right) == multiset(left) + multiset(right) == multiset(a) - multiset{last};
  }

  lemma Around<T>(items: seq<T>, x: T) returns (left: seq<T>, right: seq<T>)
    requires x in items
    ensures items == left + [x] + right
  {
    var j :| 0 <= j < |items| && items[j] == x;
    left, right := items[..j], items[j + 1..];
  }

  /** Reporting the transactions in another order gives the same events, in another order. */
  lemma {:induction false} EventsPermuted(node: Node, decode: string -> Option<Record>, script: Script,
                                          a: seq<Indexed>, b: seq<Indexed>)
    requires multiset(a) == multiset(b) && EventsOf(node, decode, script, b).Some?
    ensures EventsOf(node, decode, script, a).Some?
    ensures multiset(EventsOf(node, decode, script, a).value) == multiset(EventsOf(node, decode, script, b).value)
  {
    hide EventOf, EventsOf;
    NoEvents(node, decode, script);
    if a == [] {
      assert |multiset(b)| == |b|;
      assert b == [];
    } else {
      var front, last := a[..|a| - 1], a[|a| - 1];
      assert last in multiset(b);
      var left, right := Around(b, last);
      assert a == front + [last];
      Removed(a, left, right);
      EventsConcat(node, decode, script, left + [last], right);
      EventsConcat(node, decode, script, left, [last]);
      EventsConcat(node, decode, script, left, right);
      EventsPermuted(node, decode, script, front, left + right);
      EventsConcat(node, decode, script, front, [last]);
    }
  }

  /**
   If the index holds the transactions of a chain, reported in any order, then the history is the
   chain, in chain order, with the action of every step.
   */
  lemma HistoryIsChain(node: Node, decode: string -> Option<Record>, script: Script, index: seq<Indexed>,
                       order: seq<Indexed>, chain: seq<Event>)
    requires EventsOf(node, decode, script, order) == Some(chain) && Follows(chain)
    requires multiset(index) == multiset(order)
    ensures EventsOf(node, decode, script, index).Some?
    ensures var sorted := Sorting.Sort(EventsOf(node, decode, script, index).value, SequenceLeq);
            Follows(sorted) && Labelled(sorted) == Labelled(chain)
  {
    hide Follows, Labelled, EventsOf, Sorting.Sort;
    EventsPermuted(node, decode, script, index, order);
    OrderIsRecovered(chain, EventsOf(node, decode, script, index).value);
  }

  lemma ActionIs(events: seq<Event>, i: nat)
    requires i < |events|
    requires events[0].record.status != "revoked"
    ensures var action := Labelled(events)[i].action;
            && (action == Create <==> i == 0)
            && (action == Revoke <==> events[i].record.status == "revoked")
            && (action == Transfer ==> events[i].ownerLock != events[i - 1].ownerLock)
            && (action == Update ==> events[i].ownerLock == events[i - 1].ownerLock)
  {
    hide Labelled;
  }

  /** The actions tell the lifecycle: one creation, first; a revocation only last; else who owns it. */
  lemma ActionsAre(events: seq<Event>, i: nat)
    requires Follows(events) && i < |events|
    ensures var action := Labelled(events)[i].action;
            && (action == Create <==> i == 0)
            && (action == Revoke <==> events[i].record.status == "revoked")
            && (action == Revoke ==> i == |events| - 1)
            && (action == Transfer ==> events[i].ownerLock != events[i - 1].ownerLock)
            && (action == Update ==> events[i].ownerLock == events[i - 1].ownerLock)
  {
    hide *;
    FirstFollows(events);
    ActionIs(events, i);
    if i < |events| - 1 {
      StepFollows(events, i + 1);
    }
  }

  // ----- the index is free of repetition ----------------------------------------------------

  ghost predicate DistinctHashes(index: seq<Indexed>) {
    forall i, j :: 0 <= i < j < |index| ==> index[i].txHash != index[j].txHash
  }

  lemma {:induction false} PutIs(index: seq<Indexed>, entry: Indexed)
    requires DistinctHashes(index)
    ensures DistinctHashes(Put(index, entry)) && entry in Put(index, entry)
    ensures forall e :: e in Put(index, entry) && e.txHash != entry.txHash <==> e in index && e.txHash != entry.txHash
    ensures forall e :: e in Put(index, entry) && e.txHash == entry.txHash ==> e == entry
  {
    if index != [] {
      assert index == [index[0]] + index[1..];
      if index[0].txHash == entry.txHash {
        forall e | e in index[1..] ensures e.txHash != entry.txHash {
          var k :| 0 <= k < |index| - 1 && index[1..][k] == e;
          assert index[0].txHash != index[k + 1].txHash;
        }
      } else {
        PutIs(index[1..], entry);
        var rest := Put(index[1..], entry);
        forall e | e in rest ensures e.txHash != index[0].txHash {
          if e.txHash != entry.txHash {
            var k :| 0 <= k < |index| - 1 && index[1..][k] == e;
            assert index[0].txHash != index[k + 1].txHash;
          }
        }
      }
    }
  }

  lemma {:induction false} PutAllDistinct(index: seq<Indexed>, entries: seq<Indexed>)
    requires DistinctHashes(index) && PutAll(index, entries).Some?
    ensures DistinctHashes(PutAll(index, entries).value)
  {
    if entries != [] {
      PutAllDistinct(index, entries[..|entries| - 1]);
      var last := entries[|entries| - 1];
      PutIs(PutAll(index, entries[..|entries| - 1]).value, Indexed(NormalizedIdentity(last.txHash).value, last.blockNumber));
    }
  }

  /** However often a transaction is reported, on one page or on several, it is one event. */
  lemma {:induction false} IndexIsDistinct(indexer: TxIndexer, maxPages: int, maxEvents: int, page: nat,
                                           cursor: Option<string>, index: seq<Indexed>)
    requires DistinctHashes(index)
    requires CollectTransactions(indexer, maxPages, maxEvents, page, cursor, index).Some?
    ensures DistinctHashes(CollectTransactions(indexer, maxPages, maxEvents, page, cursor, index).value)
    ensures |CollectTransactions(indexer, maxPages, maxEvents, page, cursor, index).value| <= maxEvents
    decreases Max(0, maxPages - page)
  {
    hide PutAll, DistinctHashes;
    var p := indexer(page, cursor);
    var more := PutAll(index, p.transactions).value;
    PutAllDistinct(index, p.transactions);
    if p.transactions != [] {
      IndexIsDistinct(indexer, maxPages, maxEvents, page + 1, Some(p.lastCursor), more);
    }
  }

  // ----- what the index holds ---------------------------------------------------------------

  /** Everything that the indexer reports, page by page, up to its empty page. */
  function Served(indexer: TxIndexer, maxPages: int, page: nat, cursor: Option<string>): seq<Indexed>
    decreases Max(0, maxPages - page)
  {
    if page >= maxPages then []
    else
      var p := indexer(page, cursor);
      if p.transactions == [] then [] else p.transactions + Served(indexer, maxPages, page + 1, Some(p.lastCursor))
  }

  lemma {:induction false} PutAllConcat(index: seq<Indexed>, a: seq<Indexed>, b: seq<Indexed>)
    requires PutAll(index, a).Some?
    ensures PutAll(index, a + b) == PutAll(PutAll(index, a).value, b)
  {
    hide NormalizedIdentity, Put;
    if b == [] {
      assert a + b == a;
    } else {
      PutAllConcat(index, a, b[..|b| - 1]);
      assert (a + b)[..|a + b| - 1] == a + b[..|b| - 1];
    }
  }

  /** The pages play no part: the index is what putting everything reported gives. */
  lemma {:induction false} CollectedIs(indexer: TxIndexer, maxPages: int, maxEvents: int, page: nat,
                                       cursor: Option<string>, index: seq<Indexed>)
    requires CollectTransactions(indexer, maxPages, maxEvents, page, cursor, index).Some?
    ensures CollectTransactions(indexer, maxPages, maxEvents, page, cursor, index)
            == PutAll(index, Served(indexer, maxPages, page, cursor))
    decreases Max(0, maxPages - page)
  {
    hide PutAll;
    var p := indexer(page, cursor);
    PutNothing(index);
    if p.transactions != [] {
      CollectedIs(indexer, maxPages, maxEvents, page + 1, Some(p.lastCursor), PutAll(index, p.transactions).value);
      PutAllConcat(index, p.transactions, Served(indexer, maxPages, page + 1, Some(p.lastCursor)));
    }
  }

  lemma PutNothing(index: seq<Indexed>)
    ensures PutAll(index, []) == Some(index)
  {
  }

  /** Reports without repetition or with it: the index holds the same entries. */
  lemma {:induction false} PutAllMembers(reports: seq<Indexed>, entries: seq<Indexed>)
    requires DistinctHashes(entries) && forall e :: e in reports ==> e in entries
    requires forall e :: e in entries ==> NormalizedIdentity(e.txHash) == Some(e.txHash)
    ensures PutAll([], reports).Some? && DistinctHashes(PutAll([], reports).value)
    ensures forall e :: e in PutAll([], reports).value <==> e in reports
  {
    hide NormalizedIdentity, Put;
    if reports != [] {
      var front, last := reports[..|reports| - 1], reports[|reports| - 1];
      assert reports == front + [last];
      assert last in reports;
      PutAllMembers(front, entries);
      var index := PutAll([], front).value;
      PutIs(index, last);
      forall e | e in front && e.txHash == last.txHash ensures e == last {
        assert e in reports;
      }
    }
  }

  // ----- when the index is complete ---------------------------------------------------------

  /** The indexer answers with these pages, one after the other, and then with an empty one. */
  ghost predicate ServesReports(indexer: TxIndexer, page: nat, cursor: Option<string>, pages: seq<seq<Indexed>>)
    decreases |pages|
  {
    var p := indexer(page, cursor);
    if pages == [] then p.transactions == []
    else
      && p.transactions == pages[0] && pages[0] != []
      && !BadCursor(p.lastCursor, cursor)
      && ServesReports(indexer, page + 1, Some(p.lastCursor), pages[1..])
  }

  lemma {:induction false} PutLength(index: seq<Indexed>, entry: Indexed)
    ensures |index| <= |Put(index, entry)|
  {
    if index != [] && index[0].txHash != entry.txHash {
      PutLength(index[1..], entry);
    }
  }

  lemma {:induction false} PutAllLength(index: seq<Indexed>, entries: seq<Indexed>)
    ensures PutAll(index, entries).Some? ==> |index| <= |PutAll(index, entries).value|
  {
    hide Put, NormalizedIdentity;
    if entries != [] {
      var front, last := entries[..|entries| - 1], entries[|entries| - 1];
      PutAllLength(index, front);
      if PutAll(index, front).Some? && NormalizedIdentity(last.txHash).Some? {
        PutLength(PutAll(index, front).value, Indexed(NormalizedIdentity(last.txHash).value, last.blockNumber));
      }
    }
  }

  /** Entries are put exactly if all hashes are well formed. */
  lemma {:induction false} PutAllIff(index: seq<Indexed>, entries: seq<Indexed>)
    ensures PutAll(index, entries).Some? <==> forall e :: e in entries ==> NormalizedIdentity(e.txHash).Some?
  {
    hide Put, NormalizedIdentity;
    if entries != [] {
      var front, last := entries[..|entries| - 1], entries[|entries| - 1];
      assert entries == front + [last];
      PutAllIff(index, front);
    }
  }

  lemma {:induction false} CollectServedReports(indexer: TxIndexer, maxPages: int, maxEvents: int, page: nat,
                                                cursor: Option<string>, index: seq<Indexed>, pages: seq<seq<Indexed>>)
    requires ServesReports(indexer, page, cursor, pages) && |index| <= maxEvents
    ensures var reports := Grouping.Concat(pages);
            && (CollectTransactions(indexer, maxPages, maxEvents, page, cursor, index).Some? <==>
                page + |pages| < maxPages && PutAll(index, reports).Some? && |PutAll(index, reports).value| <= maxEvents)
            && (page + |pages| < maxPages ==> Served(indexer, maxPages, page, cursor) == reports)
    decreases |pages|
  {
    hide PutAll, Put, BadCursor;
    var p := indexer(page, cursor);
    PutNothing(index);
    if pages != [] && page < maxPages {
      var rest := Grouping.Concat(pages[1..]);
      if PutAll(index, pages[0]).Some? {
        var more := PutAll(index, pages[0]).value;
        PutAllConcat(index, pages[0], rest);
        PutAllLength(more, rest);
        if |more| <= maxEvents {
          CollectServedReports(indexer, maxPages, maxEvents, page + 1, Some(p.lastCursor), more, pages[1..]);
        } else {
          ServedIs(indexer, maxPages, page, cursor, pages);
        }
      } else {
        PutAllFails(index, pages[0], rest);
        ServedIs(indexer, maxPages, page, cursor, pages);
      }
    }
  }

  lemma PutAllFails(index: seq<Indexed>, a: seq<Indexed>, b: seq<Indexed>)
    requires PutAll(index, a).None?
    ensures PutAll(index, a + b).None?
  {
    hide PutAll;
    PutAllIff(index, a);
    PutAllIff(index, a + b);
  }

  lemma {:induction false} ServedIs(indexer: TxIndexer, maxPages: int, page: nat, cursor: Option<string>,
                                    pages: seq<seq<Indexed>>)
    requires ServesReports(indexer, page, cursor, pages)
    ensures page + |pages| < maxPages ==> Served(indexer, maxPages, page, cursor) == Grouping.Concat(pages)
    decreases |pages|
  {
    hide BadCursor;
    if pages != [] {
      ServedIs(indexer, maxPages, page + 1, Some(indexer(page, cursor).lastCursor), pages[1..]);
    }
  }

  /**
   Proper pages are indexed exactly if there is room for one request more than pages, every hash
   is well formed, and there are at most `maxEvents` transactions; the index is then theirs.
   */
  lemma ProperReportsAreIndexed(indexer: TxIndexer, maxPages: int, maxEvents: int, pages: seq<seq<Indexed>>)
    requires ServesReports(indexer, 0, None, pages) && maxEvents >= 0
    ensures var reports, found := Grouping.Concat(pages), CollectTransactions(indexer, maxPages, maxEvents, 0, None, []);
            && (found.Some? <==>
                |pages| < maxPages && PutAll([], reports).Some? && |PutAll([], reports).value| <= maxEvents)
            && (found.Some? ==> found == PutAll([], reports))
    ensures var reports := Grouping.Concat(pages);
            PutAll([], reports).Some? <==> forall e :: e in reports ==> NormalizedIdentity(e.txHash).Some?
  {
    hide CollectTransactions, PutAll, Served, ServesReports, NormalizedIdentity;
    var reports := Grouping.Concat(pages);
    CollectServedReports(indexer, maxPages, maxEvents, 0, None, [], pages);
    PutAllIff([], reports);
    if CollectTransactions(indexer, maxPages, maxEvents, 0, None, []).Some? {
      CollectedIs(indexer, maxPages, maxEvents, 0, None, []);
    }
  }
}
