/**
 History on the ledger: however an indexer reports the transactions that ran the script for an
 identity, the SDK rebuilds the records that the identity went through, in ledger order.
 */
module LedgerHistory {
  import opened Wrappers
  import opened LittleEndian
  import opened Molecule
  import opened RegistryRecord
  import opened TypeScript
  import opened Ledger
  import opened LedgerRuns
  import opened LedgerDiscovery
  import Discovery
  import Grouping
  import History = LifecycleHistory
  import RecordRoundTrip
  import Sorting

  // ----- what a step of the ledger looks like from outside ----------------------------------

  /** The transaction hashes are 32 bytes wide. */
  ghost predicate HashWidth(host: Host) {
    forall bytes :: |host.hash(bytes)| == 32
  }

  /** The record type that the contract parses into holds no longer texts than its capacities. */
  ghost predicate HoldsRecords(host: Host) {
    forall payload :: DecodeRecord(host, payload).Ok? ==>
      RecordRoundTrip.WithinCapacity(DecodeRecord(host, payload).value)
  }

  predicate ShowsOutputs(outputs: seq<CellOutput>, shown: seq<History.Output>) {
    && |shown| == |outputs|
    && forall i :: 0 <= i < |outputs| ==>
         shown[i] == History.Output(ScriptText(outputs[i].lock), TypeText(outputs[i].typeScript))
  }

  /** Of the data only those of the contract's cells have to decode as they do in the contract. */
  ghost predicate ShowsData(c: Chain, tx: Transaction, shown: seq<string>, decode: string -> Option<Record>) {
    && |shown| == |tx.outputsData|
    && forall i :: 0 <= i < |shown| && i < |tx.outputs| && OfContract(c, tx.outputs[i]) ==>
         decode(shown[i]) == RecordOf(c.host, tx.outputsData[i])
  }

  /** The node gives the transaction as it is on the ledger, in this block or without a block. */
  ghost predicate ShowsTransaction(c: Chain, node: History.Node, decode: string -> Option<Record>,
                                   tx: Transaction, block: nat)
  {
    && c.serialize(tx).Ok?
    && var shown := node(Hex(TxHash(c, tx)));
    && shown.Some?
    && ShowsOutputs(tx.outputs, shown.value.outputs)
    && ShowsData(c, tx, shown.value.outputsData, decode)
    && (shown.value.blockNumber == None || shown.value.blockNumber == Some(block))
  }

  /** The event tells of this transaction and this record, under some action. */
  ghost predicate Tells(c: Chain, tx: Transaction, block: nat, id: Bytes, record: Record, e: History.Event) {
    && c.serialize(tx).Ok?
    && e.identity == Hex(id) && e.record == record
    && e.transactionHash == Hex(TxHash(c, tx)) && e.blockNumber == block
    && e.outputIndex < |tx.outputs|
    && tx.outputs[e.outputIndex].typeScript == Some(c.ScriptOf(id))
    && e.ownerLock == ScriptText(tx.outputs[e.outputIndex].lock)
  }

  // ----- one step ---------------------------------------------------------------------------

  lemma TextInjective(a: Script, b: Script)
    requires ScriptText(a) == ScriptText(b)
    ensures a == b
  {
    hide Hex;
    HexInjective(a.codeHash, b.codeHash);
    HexInjective(a.args, b.args);
  }

  /** The text of the only output that carries the script is the only one that matches it. */
  lemma OnlyShown(outputs: seq<CellOutput>, shown: seq<History.Output>, script: Script, k: nat)
    requires ShowsOutputs(outputs, shown)
    requires k < |outputs| && outputs[k].typeScript == Some(script)
    requires forall i :: 0 <= i < |outputs| && i != k ==> outputs[i].typeScript != Some(script)
    ensures History.OnlyOutput(shown, ScriptText(script), k)
  {
    hide ScriptText;
    forall i | 0 <= i < |shown| && shown[i].typeScript == Some(ScriptText(script)) ensures i == k {
      TextInjective(outputs[i].typeScript.value, script);
    }
  }

  /** The script's one output, and the record that it adds to the lineage. */
  lemma TouchAppends(c: Chain, s: State, tx: Transaction, s': State, id: Bytes) returns (k: nat, record: Record)
    requires Inv(c, s) && Step(c, s, tx, s') && NoCollision(c, s') && TouchesIn(c, s, tx, id)
    ensures k < |tx.outputs| == |tx.outputsData| && tx.outputs[k].typeScript == Some(c.ScriptOf(id))
    ensures forall i :: 0 <= i < |tx.outputs| && i != k ==> tx.outputs[i].typeScript != Some(c.ScriptOf(id))
    ensures DecodeRecord(c.host, tx.outputsData[k]) == Ok(record)
    ensures ViewOf(c, s', id).lineage == ViewOf(c, s, id).lineage + [record]
  {
    hide FreshInv, OriginInv, Apply, Run, DecodeRecord, NoCollision, Holders, FirstIndex, GroupData;
    var group := GroupOf(c, s, tx, id);
    assert IdentityInv(c, s, id);
    assert ScriptPasses(c, s, tx, id);
    RunAccepts(c.host, group);
    GroupOne(OutputCells(tx), c.ScriptOf(id));
    k := FirstIndex(OutputCells(tx), c.ScriptOf(id));
    record := DecodeRecord(c.host, group.outputs[0]).value;
    forall i | 0 <= i < |tx.outputs| && i != k ensures tx.outputs[i].typeScript != Some(c.ScriptOf(id)) {
      assert !Carries(OutputCells(tx)[i], c.ScriptOf(id));
    }
    if Mints(c, s, tx, id) {
      MintIsFresh(c, s, tx, id);
    } else {
      UpdateConsumes(c, s, tx, id);
    }
    CarrierIsLive(c, s, tx, id);
  }

  /** What the SDK makes of a report of the transaction. */
  lemma TouchIsEvent(c: Chain, tx: Transaction, block: nat, id: Bytes, k: nat, record: Record,
                     node: History.Node, decode: string -> Option<Record>) returns (e: History.Event)
    requires ShowsTransaction(c, node, decode, tx, block)
    requires k < |tx.outputs| == |tx.outputsData| && tx.outputs[k].typeScript == Some(c.ScriptOf(id))
    requires forall i :: 0 <= i < |tx.outputs| && i != k ==> tx.outputs[i].typeScript != Some(c.ScriptOf(id))
    requires DecodeRecord(c.host, tx.outputsData[k]) == Ok(record)
    ensures Tells(c, tx, block, id, record, e)
    ensures History.EventOf(node, decode, ScriptText(c.ScriptOf(id)), History.Indexed(Hex(TxHash(c, tx)), block)) == Some(e)
  {
    hide Hex, TxHash, DecodeRecord, History.EventOf, History.OnlyOutput;
    var entry := History.Indexed(Hex(TxHash(c, tx)), block);
    var script := c.ScriptOf(id);
    e := History.Event(History.Update, Hex(id), record, ScriptText(tx.outputs[k].lock), entry.txHash, block, k);
    OnlyShown(tx.outputs, node(entry.txHash).value.outputs, script, k);
    History.EventIs(node, decode, ScriptText(script), entry, e);
  }

  // ----- along a run ------------------------------------------------------------------------

  /** Which of the first `n` transactions ran the script for the identity. */
  ghost function Touching(c: Chain, states: seq<State>, txs: seq<Transaction>, n: nat, id: Bytes): (at: seq<nat>)
    requires |states| == |txs| + 1 && n <= |txs|
    ensures forall i :: 0 <= i < |at| ==> at[i] < n && TouchesIn(c, states[at[i]], txs[at[i]], id)
    ensures forall i, j :: 0 <= i < j < |at| ==> at[i] < at[j]
  {
    if n == 0 then []
    else Touching(c, states, txs, n - 1, id) + if TouchesIn(c, states[n - 1], txs[n - 1], id) then [n - 1] else []
  }

  /** What there is to report: the hash and the block of each of these transactions. */
  ghost function Reportable(c: Chain, states: seq<State>, txs: seq<Transaction>, blocks: seq<nat>, n: nat, id: Bytes)
    : (entries: seq<History.Indexed>)
    requires |states| == |txs| + 1 && n <= |txs| == |blocks|
  {
    var at := Touching(c, states, txs, n, id);
    seq(|at|, i requires 0 <= i < |at| => History.Indexed(Hex(TxHash(c, txs[at[i]])), blocks[at[i]]))
  }

  /** The node shows every transaction that ran the script for the identity so far. */
  ghost predicate ShowsTouching(c: Chain, states: seq<State>, txs: seq<Transaction>, blocks: seq<nat>, n: nat,
                                id: Bytes, node: History.Node, decode: string -> Option<Record>)
    requires |states| == |txs| + 1 && n <= |txs| == |blocks|
  {
    forall k :: 0 <= k < n && TouchesIn(c, states[k], txs[k], id) ==> ShowsTransaction(c, node, decode, txs[k], blocks[k])
  }

  /** One event for each of the transactions, in order, with the records of the lineage. */
  ghost predicate TellsAll(c: Chain, states: seq<State>, txs: seq<Transaction>, blocks: seq<nat>, n: nat,
                           id: Bytes, events: seq<History.Event>)
    requires |states| == |txs| + 1 && n <= |txs| == |blocks|
  {
    var at, lineage := Touching(c, states, txs, n, id), ViewOf(c, states[n], id).lineage;
    && |events| == |at| == |lineage|
    && forall i :: 0 <= i < |at| ==> Tells(c, txs[at[i]], blocks[at[i]], id, lineage[i], events[i])
  }

  lemma ReportableGrows(c: Chain, states: seq<State>, txs: seq<Transaction>, blocks: seq<nat>, n: nat, id: Bytes)
    requires |states| == |txs| + 1 && n < |txs| == |blocks|
    ensures var touched := TouchesIn(c, states[n], txs[n], id);
            && Touching(c, states, txs, n + 1, id) == Touching(c, states, txs, n, id) + (if touched then [n] else [])
            && (touched ==> c.serialize(txs[n]).Ok?)
            && Reportable(c, states, txs, blocks, n + 1, id)
               == Reportable(c, states, txs, blocks, n, id)
                  + if touched then [History.Indexed(Hex(TxHash(c, txs[n])), blocks[n])] else []
  {
    hide Hex, TxHash, GroupOf;
  }

  lemma OneMoreEvent(node: History.Node, decode: string -> Option<Record>, script: Discovery.Script,
                     entries: seq<History.Indexed>, entry: History.Indexed)
    requires History.EventsOf(node, decode, script, entries).Some?
    requires History.EventOf(node, decode, script, entry).Some?
    ensures History.EventsOf(node, decode, script, entries + [entry])
            == Some(History.EventsOf(node, decode, script, entries).value
                    + [History.EventOf(node, decode, script, entry).value])
  {
    hide History.EventOf;
    assert (entries + [entry])[..|entries|] == entries;
  }

  /** One transaction more, which ran the script. */
  lemma TellsOneMore(c: Chain, states: seq<State>, txs: seq<Transaction>, blocks: seq<nat>, n: nat, id: Bytes,
                     events: seq<History.Event>, record: Record, e: History.Event)
    requires |states| == |txs| + 1 && n < |txs| == |blocks|
    requires TellsAll(c, states, txs, blocks, n, id, events) && Tells(c, txs[n], blocks[n], id, record, e)
    requires Touching(c, states, txs, n + 1, id) == Touching(c, states, txs, n, id) + [n]
    requires ViewOf(c, states[n + 1], id).lineage == ViewOf(c, states[n], id).lineage + [record]
    ensures TellsAll(c, states, txs, blocks, n + 1, id, events + [e])
  {
    hide Tells, Touching, ViewOf;
  }

  lemma {:induction false} ReportsAreEvents(c: Chain, states: seq<State>, txs: seq<Transaction>, blocks: seq<nat>,
                                            n: nat, id: Bytes, node: History.Node, decode: string -> Option<Record>)
    requires |states| == |txs| + 1 && IsRun(c, states, txs) && n <= |txs| == |blocks|
    requires ShowsTouching(c, states, txs, blocks, n, id, node, decode)
    ensures var events := History.EventsOf(node, decode, ScriptText(c.ScriptOf(id)), Reportable(c, states, txs, blocks, n, id));
            events.Some? && TellsAll(c, states, txs, blocks, n, id, events.value)
  {
    hide IsRun, TouchesIn, ShowsTransaction, Tells, TellsAll, Touching, Reportable, History.EventsOf, History.EventOf, Hex,
         TxHash, ViewOf, Inv, Step, NoCollision, ScriptText;
    var script := ScriptText(c.ScriptOf(id));
    if n == 0 {
      NothingReported(c, states, txs, blocks, id, node, decode);
    } else {
      var m := n - 1;
      ReportsAreEvents(c, states, txs, blocks, m, id, node, decode);
      ReportableGrows(c, states, txs, blocks, m, id);
      var entries := Reportable(c, states, txs, blocks, m, id);
      var events := History.EventsOf(node, decode, script, entries).value;
      if TouchesIn(c, states[m], txs[m], id) {
        var record, e := TouchedStep(c, states, txs, blocks, m, id, node, decode);
        OneMoreEvent(node, decode, script, entries, History.Indexed(Hex(TxHash(c, txs[m])), blocks[m]));
        TellsOneMore(c, states, txs, blocks, m, id, events, record, e);
      } else {
        StillThere(c, states, txs, m, id);
        assert entries + [] == entries;
        TellsNoMore(c, states, txs, blocks, m, id, events);
      }
    }
  }

  lemma NothingReported(c: Chain, states: seq<State>, txs: seq<Transaction>, blocks: seq<nat>, id: Bytes,
                        node: History.Node, decode: string -> Option<Record>)
    requires |states| == |txs| + 1 && IsRun(c, states, txs) && |txs| == |blocks|
    ensures var events := History.EventsOf(node, decode, ScriptText(c.ScriptOf(id)), Reportable(c, states, txs, blocks, 0, id));
            events.Some? && TellsAll(c, states, txs, blocks, 0, id, events.value)
  {
    hide IsRun, ViewOf;
    ViewAt(c, states, txs, 0, id);
  }

  lemma TellsNoMore(c: Chain, states: seq<State>, txs: seq<Transaction>, blocks: seq<nat>, n: nat, id: Bytes,
                    events: seq<History.Event>)
    requires |states| == |txs| + 1 && n < |txs| == |blocks|
    requires TellsAll(c, states, txs, blocks, n, id, events)
    requires Touching(c, states, txs, n + 1, id) == Touching(c, states, txs, n, id) + []
    requires ViewOf(c, states[n + 1], id) == ViewOf(c, states[n], id)
    ensures TellsAll(c, states, txs, blocks, n + 1, id, events)
  {
    hide Tells, Touching, ViewOf;
  }

  /** The event and the record of a transaction of the run that ran the script. */
  lemma TouchedStep(c: Chain, states: seq<State>, txs: seq<Transaction>, blocks: seq<nat>, n: nat, id: Bytes,
                    node: History.Node, decode: string -> Option<Record>) returns (record: Record, e: History.Event)
    requires |states| == |txs| + 1 && IsRun(c, states, txs) && n < |txs| == |blocks|
    requires TouchesIn(c, states[n], txs[n], id) && ShowsTransaction(c, node, decode, txs[n], blocks[n])
    ensures ViewOf(c, states[n + 1], id).lineage == ViewOf(c, states[n], id).lineage + [record]
    ensures Tells(c, txs[n], blocks[n], id, record, e)
    ensures c.serialize(txs[n]).Ok?
    ensures History.EventOf(node, decode, ScriptText(c.ScriptOf(id)), History.Indexed(Hex(TxHash(c, txs[n])), blocks[n]))
            == Some(e)
  {
    hide IsRun, TouchesIn, ShowsOutputs, ShowsData, Tells, History.EventOf, Hex, TxHash, ViewOf, Inv, Step, NoCollision,
         ScriptText;
    InvAt(c, states, txs, n);
    NoCollisionAt(c, states, txs, n + 1);
    StepOf(c, states, txs, n);
    var k: nat;
    k, record := TouchAppends(c, states[n], txs[n], states[n + 1], id);
    e := TouchIsEvent(c, txs[n], blocks[n], id, k, record, node, decode);
  }

  lemma StepOf(c: Chain, states: seq<State>, txs: seq<Transaction>, k: nat)
    requires |states| == |txs| + 1 && IsRun(c, states, txs) && k < |txs|
    ensures Step(c, states[k], txs[k], states[k + 1])
  {
    assert StepAt(c, states, txs, k);
  }

  lemma StillThere(c: Chain, states: seq<State>, txs: seq<Transaction>, k: nat, id: Bytes)
    requires |states| == |txs| + 1 && IsRun(c, states, txs) && k < |txs|
    requires !TouchesIn(c, states[k], txs[k], id)
    ensures ViewOf(c, states[k + 1], id) == ViewOf(c, states[k], id)
  {
    hide IsRun, ViewOf;
    ChangeAt(c, states, txs, k, id);
  }

  // ----- the reports, in any order and any number of times ----------------------------------

  lemma {:induction false} RawsGrow(c: Chain, states: seq<State>, txs: seq<Transaction>, k: nat, n: nat)
    requires |states| == |txs| + 1 && IsRun(c, states, txs) && k < n <= |txs|
    ensures c.serialize(txs[k]).Ok? && c.serialize(txs[k]).value in states[n].raws
    decreases n
  {
    hide IsRun, Accepted;
    StepOf(c, states, txs, n - 1);
    if k < n - 1 {
      RawsGrow(c, states, txs, k, n - 1);
    } else {
      assert Accepted(c, states[k], txs[k]);
      IsSerialized(c, states[k], txs[k]);
    }
  }

  lemma IsSerialized(c: Chain, s: State, tx: Transaction)
    requires Accepted(c, s, tx)
    ensures c.serialize(tx).Ok?
  {
  }

  lemma HashesDiffer(c: Chain, states: seq<State>, txs: seq<Transaction>, j: nat, k: nat)
    requires |states| == |txs| + 1 && IsRun(c, states, txs) && j < k < |txs|
    ensures c.serialize(txs[j]).Ok? && c.serialize(txs[k]).Ok?
    ensures Hex(TxHash(c, txs[j])) != Hex(TxHash(c, txs[k]))
  {
    hide Hex, StepAt, Genesis;
    NeverTwice(c, states, txs, j, k);
    RawsGrow(c, states, txs, j, k + 1);
    RawsGrow(c, states, txs, k, k + 1);
    NoCollisionAt(c, states, txs, k + 1);
    if Hex(TxHash(c, txs[j])) == Hex(TxHash(c, txs[k])) {
      HexInjective(TxHash(c, txs[j]), TxHash(c, txs[k]));
      assert false;
    }
  }

  lemma ReportableIsDistinct(c: Chain, states: seq<State>, txs: seq<Transaction>, blocks: seq<nat>, n: nat, id: Bytes)
    requires |states| == |txs| + 1 && IsRun(c, states, txs) && n <= |txs| == |blocks| && HashWidth(c.host)
    ensures var entries := Reportable(c, states, txs, blocks, n, id);
            && History.DistinctHashes(entries)
            && forall e :: e in entries ==> Discovery.NormalizedIdentity(e.txHash) == Some(e.txHash)
  {
    hide IsRun, Touches, Hex;
    var at, entries := Touching(c, states, txs, n, id), Reportable(c, states, txs, blocks, n, id);
    forall i, j | 0 <= i < j < |entries| ensures entries[i].txHash != entries[j].txHash {
      HashesDiffer(c, states, txs, at[i], at[j]);
    }
    forall e | e in entries ensures Discovery.NormalizedIdentity(e.txHash) == Some(e.txHash) {
      var i :| 0 <= i < |entries| && entries[i] == e;
      HexIsLower(TxHash(c, txs[at[i]]));
    }
  }

  lemma SameMembers(a: seq<History.Indexed>, b: seq<History.Indexed>)
    requires History.DistinctHashes(a) && History.DistinctHashes(b) && forall e :: e in a <==> e in b
    ensures multiset(a) == multiset(b)
  {
    Sorting.NoDuplicatesIff(a);
    Sorting.NoDuplicatesIff(b);
    forall e ensures multiset(a)[e] == multiset(b)[e] {
      assert e in multiset(a) <==> e in a;
      assert e in multiset(b) <==> e in b;
    }
  }

  /**
   However often the indexer reports the transactions that ran the script for an identity, on
   whatever pages and in whatever order, the SDK indexes them exactly if its limits suffice; and
   the history it then rebuilds tells of exactly these transactions, in ledger order, with the
   records that the identity went through.
   */
  lemma HistoryIsLineage(c: Chain, states: seq<State>, txs: seq<Transaction>, blocks: seq<nat>, n: nat, id: Bytes,
                         node: History.Node, decode: string -> Option<Record>, indexer: History.TxIndexer,
                         pages: seq<seq<History.Indexed>>, maxPages: int, maxEvents: int)
    requires |states| == |txs| + 1 && IsRun(c, states, txs) && n <= |txs| == |blocks|
    requires HashWidth(c.host) && HoldsRecords(c.host)
    requires ShowsTouching(c, states, txs, blocks, n, id, node, decode)
    requires History.ServesReports(indexer, 0, None, pages) && maxEvents >= 0
    requires forall e :: e in Grouping.Concat(pages) <==> e in Reportable(c, states, txs, blocks, n, id)
    ensures History.CollectTransactions(indexer, maxPages, maxEvents, 0, None, []).Some? <==>
            |pages| < maxPages && |Touching(c, states, txs, n, id)| <= maxEvents
    ensures |pages| < maxPages && |Touching(c, states, txs, n, id)| <= maxEvents ==>
              var index := History.CollectTransactions(indexer, maxPages, maxEvents, 0, None, []).value;
              var events := History.EventsOf(node, decode, ScriptText(c.ScriptOf(id)), index);
              && events.Some?
              && var sorted := Sorting.Sort(events.value, History.SequenceLeq);
              && History.Follows(sorted)
              && TellsAll(c, states, txs, blocks, n, id, History.Labelled(sorted))
  {
    hide IsRun, HashWidth, HoldsRecords, ShowsTouching, Reportable, History.EventsOf, History.CollectTransactions,
         History.PutAll, History.ServesReports, Sorting.Sort, History.Labelled, ScriptText, TellsAll, History.Follows,
         Discovery.NormalizedIdentity, History.DistinctHashes;
    var entries, reports := Reportable(c, states, txs, blocks, n, id), Grouping.Concat(pages);
    ReportableIsDistinct(c, states, txs, blocks, n, id);
    History.PutAllMembers(reports, entries);
    var index := History.PutAll([], reports).value;
    SameMembers(index, entries);
    assert |index| == |multiset(index)| == |multiset(entries)| == |entries|;
    History.ProperReportsAreIndexed(indexer, maxPages, maxEvents, pages);
    AsManyReports(c, states, txs, blocks, n, id);
    if |pages| < maxPages && |entries| <= maxEvents {
      IndexIsLineage(c, states, txs, blocks, n, id, node, decode, index);
    }
  }

  lemma AsManyReports(c: Chain, states: seq<State>, txs: seq<Transaction>, blocks: seq<nat>, n: nat, id: Bytes)
    requires |states| == |txs| + 1 && n <= |txs| == |blocks|
    ensures |Reportable(c, states, txs, blocks, n, id)| == |Touching(c, states, txs, n, id)|
  {
    hide Touching, Hex;
  }

  lemma IndexIsLineage(c: Chain, states: seq<State>, txs: seq<Transaction>, blocks: seq<nat>, n: nat, id: Bytes,
                       node: History.Node, decode: string -> Option<Record>, index: seq<History.Indexed>)
    requires |states| == |txs| + 1 && IsRun(c, states, txs) && n <= |txs| == |blocks|
    requires HoldsRecords(c.host) && ShowsTouching(c, states, txs, blocks, n, id, node, decode)
    requires multiset(index) == multiset(Reportable(c, states, txs, blocks, n, id))
    ensures var events := History.EventsOf(node, decode, ScriptText(c.ScriptOf(id)), index);
            && events.Some?
            && var sorted := Sorting.Sort(events.value, History.SequenceLeq);
            && History.Follows(sorted)
            && TellsAll(c, states, txs, blocks, n, id, History.Labelled(sorted))
  {
    hide IsRun, HoldsRecords, ShowsTouching, Reportable, History.EventsOf, Sorting.Sort, History.Labelled, ScriptText,
         TellsAll, History.Follows;
    var script := ScriptText(c.ScriptOf(id));
    var entries := Reportable(c, states, txs, blocks, n, id);
    ReportsAreEvents(c, states, txs, blocks, n, id, node, decode);
    var chain := History.EventsOf(node, decode, script, entries).value;
    ToldFollows(c, states, txs, blocks, n, id, chain);
    History.HistoryIsChain(node, decode, script, index, entries, chain);
    LabelsTell(c, states, txs, blocks, n, id, chain);
  }

  /** The events of the transactions form a chain. */
  lemma ToldFollows(c: Chain, states: seq<State>, txs: seq<Transaction>, blocks: seq<nat>, n: nat, id: Bytes,
                    events: seq<History.Event>)
    requires |states| == |txs| + 1 && IsRun(c, states, txs) && n <= |txs| == |blocks|
    requires HoldsRecords(c.host) && TellsAll(c, states, txs, blocks, n, id, events)
    ensures History.Follows(events)
  {
    hide IsRun, Touching, RecordRoundTrip.WithinCapacity, HoldsRecords, ViewOf, DecodeRecord, LegalLineage, Validate;
    var at, lineage := Touching(c, states, txs, n, id), ViewOf(c, states[n], id).lineage;
    if events != [] {
      ViewAt(c, states, txs, n, id);
      RecordsFit(c, states, txs, n, id);
      assert History.Records(events) == lineage;
      forall e | e in events ensures RecordRoundTrip.WithinCapacity(e.record) {
        var i :| 0 <= i < |events| && events[i] == e;
        assert lineage[i] in lineage;
      }
      History.AcceptedIsLegal(events);
    }
  }

  lemma {:induction false} RecordsFit(c: Chain, states: seq<State>, txs: seq<Transaction>, n: nat, id: Bytes)
    requires |states| == |txs| + 1 && IsRun(c, states, txs) && n <= |txs| && HoldsRecords(c.host)
    ensures forall r :: r in ViewOf(c, states[n], id).lineage ==> RecordRoundTrip.WithinCapacity(r)
  {
    hide IsRun, TouchesIn, ViewOf, Inv, Step, NoCollision, DecodeRecord, RecordRoundTrip.WithinCapacity, Settled;
    ViewAt(c, states, txs, n, id);
    if n > 0 {
      RecordsFit(c, states, txs, n - 1, id);
      if TouchesIn(c, states[n - 1], txs[n - 1], id) {
        InvAt(c, states, txs, n - 1);
        NoCollisionAt(c, states, txs, n);
        StepOf(c, states, txs, n - 1);
        var k, record := TouchAppends(c, states[n - 1], txs[n - 1], states[n], id);
      } else {
        StillThere(c, states, txs, n - 1, id);
      }
    }
  }

  /** The labels change nothing else. */
  lemma LabelsTell(c: Chain, states: seq<State>, txs: seq<Transaction>, blocks: seq<nat>, n: nat, id: Bytes,
                   events: seq<History.Event>)
    requires |states| == |txs| + 1 && n <= |txs| == |blocks|
    requires TellsAll(c, states, txs, blocks, n, id, events)
    ensures TellsAll(c, states, txs, blocks, n, id, History.Labelled(events))
  {
    hide Touching, ViewOf, History.ActionAt, Hex, TxHash, ScriptText;
    var at, labelled := Touching(c, states, txs, n, id), History.Labelled(events);
    forall i | 0 <= i < |events| ensures labelled[i] == events[i].(action := History.ActionAt(events, i)) {
    }
  }
}
