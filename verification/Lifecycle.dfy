/**
 The records that the SDK prepares, and the search for the current cell. Models
 sdk/typescript/src/lifecycle.ts. The clock and the server's answers are parameters.
 */
module Lifecycle {
  import opened Wrappers
  import opened RegistryRecord
  import opened RecordCodec
  import opened RecordRoundTrip
  import opened SdkRecord
  import opened SdkAgreement
  import Discovery
  import DiscoveryResults
  import Grouping
  import Json
  import JsonLexemes
  import LittleEndian
  import Molecule
  import TypeScript
  import Utf8

  // ----- validators on records --------------------------------------------------------------

  predicate SdkCreation(record: Record) {
    ValidCreation(DraftOf(record)).Some?
  }

  predicate SdkSuccessor(previous: Record, next: Record) {
    ValidSuccessor(DraftOf(previous), DraftOf(next)).Some?
  }

  lemma SdkIsContract(previous: Record, next: Record)
    ensures SdkSuccessor(previous, next) <==>
            ValidateSuccessor(previous, next).Ok? && WithinCapacity(previous) && WithinCapacity(next)
    ensures SdkCreation(next) <==> ValidateCreation(next).Ok? && WithinCapacity(next)
  {
    hide Validated, Validate, WithinCapacity;
    ValidatorsAgree(DraftOf(previous), DraftOf(next));
    DraftAndBack(previous);
    DraftAndBack(next);
  }

  // ----- drafts -----------------------------------------------------------------------------

  function NextTimestamp(previous: Record, value: Option<int>, clock: int): int {
    var candidate := if value.Some? then value.value else clock;
    if candidate < previous.updatedAt then previous.updatedAt else candidate
  }

  /** The draft before the caller's changes. */
  function NextDraft(current: Record, updatedAt: Option<int>, clock: int): Draft {
    DraftOf(current).(sequence := current.sequence + 1, updatedAt := NextTimestamp(current, updatedAt, clock))
  }

  /** `prepareUpdate`: the caller may overwrite any field. */
  function PrepareUpdate(current: Record, changes: Draft -> Draft, clock: int): Option<Record> {
    ValidSuccessor(DraftOf(current), changes(NextDraft(current, None, clock)))
  }

  function PrepareTransfer(current: Record, updatedAt: Option<int>, clock: int): Option<Record> {
    ValidSuccessor(DraftOf(current), NextDraft(current, updatedAt, clock))
  }

  function PrepareRevoke(current: Record, updatedAt: Option<int>, clock: int): Option<Record> {
    ValidSuccessor(DraftOf(current), NextDraft(current, updatedAt, clock).(
      status := "revoked", streamEndpoint := None, streamProtocol := None, streamFormat := None))
  }

  // ----- what can be prepared ---------------------------------------------------------------

  /** What any preparation has in common. */
  lemma Prepared(current: Record, d: Draft)
    ensures var next := ValidSuccessor(DraftOf(current), d);
            next.Some? ==>
              && FitsWidths(d) && next.value == RecordOf(d)
              && SdkSuccessor(current, next.value) && ValidateSuccessor(current, next.value).Ok?
  {
    hide Validated, Validate, WithinCapacity;
    ValidatorsAgree(DraftOf(current), d);
    DraftAndBack(current);
    if ValidSuccessor(DraftOf(current), d).Some? {
      assert DraftOf(RecordOf(d)) == d;
    }
  }

  /** Whatever is prepared, however the caller changed it, passes the rule of the contract. */
  lemma PreparedPassesRule(current: Record, next: Record, changes: Draft -> Draft, updatedAt: Option<int>, clock: int)
    requires || PrepareUpdate(current, changes, clock) == Some(next)
             || PrepareTransfer(current, updatedAt, clock) == Some(next)
             || PrepareRevoke(current, updatedAt, clock) == Some(next)
    ensures ValidateSuccessor(current, next).Ok?
    ensures next.sequence == current.sequence + 1 && next.receiverId == current.receiverId
  {
    hide ValidSuccessor, Validate;
    Prepared(current, changes(NextDraft(current, None, clock)));
    Prepared(current, NextDraft(current, updatedAt, clock));
    Prepared(current, NextDraft(current, updatedAt, clock).(
      status := "revoked", streamEndpoint := None, streamProtocol := None, streamFormat := None));
  }

  lemma StaysValid(current: Record, sequence: U64, updatedAt: U64)
    requires Valid(current) && updatedAt >= 1
    ensures Valid(current.(sequence := sequence, updatedAt := updatedAt))
    ensures Valid(current.(sequence := sequence, updatedAt := updatedAt, status := "revoked",
                           streamEndpoint := None, streamProtocol := None, streamFormat := None))
  {
  }

  /** A draft that only breaks the rule by its numbers or by what it follows. */
  lemma WhenItFollows(current: Record, d: Draft)
    requires Valid(current) && d.receiverId == current.receiverId
    requires d.sequence == current.sequence + 1 && d.updatedAt >= current.updatedAt
    requires FitsWidths(d) ==> Valid(RecordOf(d))
    ensures ValidSuccessor(DraftOf(current), d).Some? <==>
            current.status != "revoked" && current.sequence < U64_MAX && d.updatedAt <= U64_MAX
  {
    hide ValidSuccessor, Validate, WithinCapacity;
    DraftAndBack(current);
    ValidatorsAgree(DraftOf(current), d);
  }

  lemma DraftsAreValid(current: Record, updatedAt: Option<int>, clock: int)
    requires Valid(current)
    ensures var transfer := NextDraft(current, updatedAt, clock);
            var revoke := transfer.(status := "revoked", streamEndpoint := None, streamProtocol := None, streamFormat := None);
            && (FitsWidths(transfer) ==> Valid(RecordOf(transfer)))
            && (FitsWidths(revoke) ==> Valid(RecordOf(revoke)))
  {
    hide Valid;
    var time := NextTimestamp(current, updatedAt, clock);
    if current.sequence < U64_MAX && time <= U64_MAX {
      ValidTime(current);
      StaysValid(current, current.sequence + 1, time);
    }
  }

  lemma ValidTime(r: Record)
    requires Valid(r)
    ensures r.updatedAt >= 1
  {
    hide WithinCapacity;
  }

  /**
   A transfer or a revocation can be prepared from every valid record that is not revoked and not
   at the last sequence, unless the time asked for does not fit a u64; and from no other.
   */
  lemma WhatCanBePrepared(current: Record, updatedAt: Option<int>, clock: int)
    requires Valid(current)
    ensures var possible := current.status != "revoked" && current.sequence < U64_MAX
                            && NextTimestamp(current, updatedAt, clock) <= U64_MAX;
            && (PrepareRevoke(current, updatedAt, clock).Some? <==> possible)
            && (PrepareTransfer(current, updatedAt, clock).Some? <==> possible)
  {
    hide ValidSuccessor, Valid;
    var transfer := NextDraft(current, updatedAt, clock);
    DraftsAreValid(current, updatedAt, clock);
    WhenItFollows(current, transfer);
    WhenItFollows(current, transfer.(
      status := "revoked", streamEndpoint := None, streamProtocol := None, streamFormat := None));
  }

  /** What a revocation leaves: the label, no stream, and never an earlier time. */
  lemma RevokedRecord(current: Record, updatedAt: Option<int>, clock: int)
    requires PrepareRevoke(current, updatedAt, clock).Some?
    ensures var next := PrepareRevoke(current, updatedAt, clock).value;
            && next.status == "revoked" && !Streams(next)
            && next.receiverId == current.receiverId && next.capabilities == current.capabilities
            && next.updatedAt >= current.updatedAt
  {
    hide ValidSuccessor, Validate;
    Prepared(current, NextDraft(current, updatedAt, clock).(
      status := "revoked", streamEndpoint := None, streamProtocol := None, streamFormat := None));
  }

  lemma NoneAfter(current: Record, d: Draft)
    requires current.status == "revoked"
    ensures ValidSuccessor(DraftOf(current), d).None?
  {
    hide Validated, Validate, WithinCapacity;
    ValidatorsAgree(DraftOf(current), d);
    DraftAndBack(current);
  }

  /** Nothing can be prepared after a revocation was. */
  lemma NothingAfterRevocation(current: Record, updatedAt: Option<int>, clock: int,
                               changes: Draft -> Draft, laterAt: Option<int>, later: int)
    requires PrepareRevoke(current, updatedAt, clock).Some?
    ensures var next := PrepareRevoke(current, updatedAt, clock).value;
            && PrepareUpdate(next, changes, later).None?
            && PrepareTransfer(next, laterAt, later).None?
            && PrepareRevoke(next, laterAt, later).None?
  {
    hide ValidSuccessor;
    RevokedRecord(current, updatedAt, clock);
    var next := PrepareRevoke(current, updatedAt, clock).value;
    NoneAfter(next, changes(NextDraft(next, None, later)));
    NoneAfter(next, NextDraft(next, laterAt, later));
    NoneAfter(next, NextDraft(next, laterAt, later).(
      status := "revoked", streamEndpoint := None, streamProtocol := None, streamFormat := None));
  }

  // ----- the script on a prepared transaction -----------------------------------------------

  /** The JSON library of the contract reads the whole of what the SDK wrote, as the record it stands for. */
  ghost predicate ReadsBack(host: TypeScript.Host, data: LittleEndian.Bytes, r: Record) {
    host.parse(data) == Some((r, |data|))
  }

  /** The contract decodes the cell data that the SDK encodes: it fits, its lexemes are strict, it is valid. */
  lemma EncodedIsDecoded(host: TypeScript.Host, r: Record, show: real -> string, number: Json.ToNumber)
    requires Valid(r) && ShowsRecord(r, show, number)
    requires ReadsBack(host, Utf8.Encode(EncodeFixedOrder(r, show)), r)
    ensures TypeScript.DecodeRecord(host, Utf8.Encode(EncodeFixedOrder(r, show))) == Ok(r)
  {
    hide ShowsRecord, EncodeFixedOrder, Json.Parse, DecodeValue, Validate, WithinCapacity, Utf8.Encode, Utf8.Size;
    FixedOrderRoundTrip(r, show, number);
    CellRoundTrip(r, show, number);
    JsonLexemes.AcceptedIsStrict(EncodeFixedOrder(r, show), number);
  }

  /**
   The script accepts the transaction that carries a prepared successor: its input cell decodes to
   the current record, as every live cell does (`LedgerRuns.LiveRecord`), and its output cell holds
   what the SDK's encoder wrote for the next one.
   */
  lemma SuccessorPassesScript(host: TypeScript.Host, group: TypeScript.Group, current: Record, next: Record,
                              show: real -> string, number: Json.ToNumber)
    requires SdkSuccessor(current, next) && ShowsRecord(next, show, number)
    requires |group.args| == 32
    requires |group.inputs| == 1 && TypeScript.DecodeRecord(host, group.inputs[0]) == Ok(current)
    requires group.outputs == [Utf8.Encode(EncodeFixedOrder(next, show))]
    requires ReadsBack(host, group.outputs[0], next)
    ensures TypeScript.Run(host, group).Ok?
  {
    hide Validate, WithinCapacity, SdkSuccessor, ShowsRecord, EncodeFixedOrder, TypeScript.DecodeRecord, Utf8.Encode;
    SdkIsContract(current, next);
    EncodedIsDecoded(host, next, show, number);
  }

  /** `calculateTypeId` for the first output and an input without a lock time. */
  function CalculateTypeId(host: TypeScript.Host, funding: Molecule.OutPoint): Option<LittleEndian.Bytes> {
    match TypeScript.TypeIdPreimage(Molecule.CellInput(0, funding), 0)
    case Ok(preimage) => Some(host.hash(preimage))
    case Err(_) => None
  }

  /** The script accepts a prepared creation: the identity hashes the first input and index 0. */
  lemma CreationPassesScript(host: TypeScript.Host, group: TypeScript.Group, funding: Molecule.OutPoint, record: Record,
                             show: real -> string, number: Json.ToNumber)
    requires SdkCreation(record) && ShowsRecord(record, show, number)
    requires |group.args| == 32 && CalculateTypeId(host, funding) == Some(group.args)
    requires group.firstInput == Molecule.CellInput(0, funding) && group.firstOutputIndex == 0
    requires group.inputs == [] && group.outputs == [Utf8.Encode(EncodeFixedOrder(record, show))]
    requires ReadsBack(host, group.outputs[0], record)
    ensures TypeScript.Run(host, group).Ok?
  {
    hide Validate, WithinCapacity, SdkCreation, ShowsRecord, EncodeFixedOrder, TypeScript.DecodeRecord,
         TypeScript.TypeIdPreimage, Utf8.Encode;
    SdkIsContract(record, record);
    EncodedIsDecoded(host, record, show, number);
  }

  // ----- the current cell -------------------------------------------------------------------

  /** The pages from request `page` on, until there are none, more than two cells, or a bad cursor. */
  function CurrentCells(indexer: Discovery.Indexer, page: nat, cursor: Option<string>, cells: seq<Discovery.Cell>)
    : Option<seq<Discovery.Cell>>
    decreases 3 - |cells|
  {
    var p := indexer(page, cursor);
    var all := cells + p.cells;
    if p.cells == [] then Some(all)
    else if Discovery.BadCursor(p.lastCursor, cursor) then None
    else if |all| > 2 then Some(all)
    else CurrentCells(indexer, page + 1, Some(p.lastCursor), all)
  }

  /** `requireCurrentCell`. Whatever the server answers, it is asked at most three times. */
  method RequireCurrentCell(reader: Discovery.Reader, indexer: Discovery.Indexer)
    returns (current: Option<Discovery.Receiver>, requests: nat)
    ensures var cells := CurrentCells(indexer, 0, None, []);
            current == if cells.Some? && |cells.value| == 1 then Discovery.ParseCell(reader, cells.value[0]) else None
    ensures 1 <= requests <= 3
  {
    hide Discovery.ParseCell, Discovery.BadCursor;
    var cursor: Option<string> := None;
    var cells: seq<Discovery.Cell> := [];
    ghost var found := CurrentCells(indexer, 0, None, []);
    requests := 0;
    while true
      invariant requests <= |cells| <= 2
      invariant CurrentCells(indexer, requests, cursor, cells) == found
      decreases 3 - |cells|
    {
      var page := indexer(requests, cursor);
      requests := requests + 1;
      cells := cells + page.cells;
      if |page.cells| == 0 {
        break;
      }
      if Discovery.BadCursor(page.lastCursor, cursor) {
        return None, requests;
      }
      cursor := Some(page.lastCursor);
      if |cells| > 2 {
        break;
      }
    }
    assert found == Some(cells);
    if |cells| != 1 {
      return None, requests;
    }
    current := Discovery.ParseCell(reader, cells[0]);
  }

  lemma {:induction false} CurrentCellsServed(indexer: Discovery.Indexer, page: nat, cursor: Option<string>,
                                              cells: seq<Discovery.Cell>, pages: seq<seq<Discovery.Cell>>)
    requires DiscoveryResults.Serves(indexer, page, cursor, pages) && |cells| <= 2
    ensures var found := CurrentCells(indexer, page, cursor, cells);
            var all := cells + Grouping.Concat(pages);
            found.Some? && (|found.value| == 1 <==> |all| == 1) && (|all| == 1 ==> found.value == all)
    decreases |pages|
  {
    if pages == [] {
      assert cells + Grouping.Concat(pages) == cells;
    } else {
      var p := indexer(page, cursor);
      var rest := Grouping.Concat(pages[1..]);
      assert cells + (pages[0] + rest) == (cells + pages[0]) + rest;
      if |cells + p.cells| <= 2 {
        CurrentCellsServed(indexer, page + 1, Some(p.lastCursor), cells + p.cells, pages[1..]);
      }
    }
  }

  /**
   A server that serves the cells bound to an identity, in whatever pages, gives the current cell
   exactly if it is the only one and reads as a record: what discovery lists before filtering.
   */
  lemma CurrentIsOnly(reader: Discovery.Reader, indexer: Discovery.Indexer, pages: seq<seq<Discovery.Cell>>,
                      cells: seq<Discovery.Cell>, identity: string, r: Discovery.Receiver)
    requires DiscoveryResults.Serves(indexer, 0, None, pages)
    requires multiset(Grouping.Concat(pages)) == multiset(Discovery.Bound(reader, cells, identity))
    ensures var found := CurrentCells(indexer, 0, None, []);
            r.identity == identity && Discovery.IsOnly(reader, cells, r) <==>
            found.Some? && |found.value| == 1 && Discovery.ParseCell(reader, found.value[0]) == Some(r)
  {
    hide CurrentCells, Discovery.Bound, DiscoveryResults.Serves, Grouping.Concat;
    var all := Grouping.Concat(pages);
    var bound := Discovery.Bound(reader, cells, identity);
    CurrentCellsServed(indexer, 0, None, [], pages);
    assert [] + all == all;
    assert |all| == |multiset(all)| == |multiset(bound)| == |bound|;
    if |all| == 1 {
      assert all[0] in multiset(bound);
      assert all == bound;
      DiscoveryResults.AreBound(reader, cells, identity, all[0]);
    }
  }

  /** Nor does `requireCurrentCell`: the current cell is that of the identity exactly if the served cell binds it. */
  lemma CurrentIdentity(reader: Discovery.Reader, cells: seq<Discovery.Cell>, identity: string, r: Discovery.Receiver)
    requires |cells| == 1 && Discovery.ParseCell(reader, cells[0]) == Some(r)
    ensures r.identity == identity <==> cells[0] in Discovery.Bound(reader, cells, identity)
  {
    assert Discovery.HasIdentity(reader, identity)(cells[0]) <==> r.identity == identity;
  }

  /** Such a server: whatever identity is asked for, it serves this cell. */
  lemma AnotherIsCurrent(reader: Discovery.Reader, cell: Discovery.Cell, r: Discovery.Receiver, identity: string)
    returns (indexer: Discovery.Indexer)
    requires Discovery.ParseCell(reader, cell) == Some(r) && r.identity != identity
    ensures CurrentCells(indexer, 0, None, []) == Some([cell])
  {
    indexer := (page, cursor) => if page == 0 then Discovery.Page([cell], "next") else Discovery.Page([], "");
    assert CurrentCells(indexer, 1, Some("next"), [cell]) == Some([cell] + []);
    assert [] + [cell] == [cell] == [cell] + [];
  }
}
