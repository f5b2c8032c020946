/**
 Scanning an indexer for live Registry cells: `discover` and `findByIdentity` of
 sdk/typescript/src/discovery.ts and `discover_peers` of src/ckb_registry/discovery.py.
 The indexer is any function from the number of the request and its cursor to a page; decoding
 the data of a cell is a function. Times are whole seconds.
 */
module Discovery {
  import opened Wrappers
  import opened RegistryRecord
  import Grouping
  import Sorting
  import TextOrder

  datatype Script = Script(codeHash: string, hashType: string, args: string)

  datatype Cell = Cell(txHash: string, index: nat, lock: Script, typeScript: Option<Script>, data: string)

  /** A receiver with the cell that it was read from. */
  datatype Receiver = Receiver(identity: string, record: Record, cell: Cell)

  /** An empty cursor stands for one that is missing. */
  datatype Page = Page(cells: seq<Cell>, lastCursor: string)

  type Indexer = (nat, Option<string>) -> Page

  datatype Limits = Limits(maxPages: int, maxCells: int)

  /** How a package reads a cell: the identity bound by its type script, and the record in its data. */
  datatype Reader = Reader(identityOf: Cell -> Option<string>, decode: string -> Option<Record>)

  // ----- reading a cell ---------------------------------------------------------------------

  function LowerChar(c: char): char {
    if 'A' <= c <= 'Z' then c + 32 as char else c
  }

  function Lower(s: string): string {
    seq(|s|, i requires 0 <= i < |s| => LowerChar(s[i]))
  }

  function NormalizedIdentity(args: string): Option<string> {
    if ValidHash(args) then Some(Lower(args)) else None
  }

  /** `receiverIdentityOf` of the SDK; `None` is its exception. */
  function SdkIdentity(codeHash: string, hashType: string): Cell -> Option<string> {
    (cell: Cell) =>
      if cell.typeScript.None? || cell.typeScript.value.hashType != hashType
         || cell.typeScript.value.codeHash != Lower(codeHash) then None
      else NormalizedIdentity(cell.typeScript.value.args)
  }

  /** `_receiver_identity_from_cell` of the Python package. */
  function PythonIdentity(codeHash: string, hashType: string): Cell -> Option<string> {
    (cell: Cell) =>
      if cell.typeScript.None? || cell.typeScript.value.hashType != hashType
         || (Lower(codeHash) != "" && Lower(cell.typeScript.value.codeHash) != Lower(codeHash)) then None
      else NormalizedIdentity(cell.typeScript.value.args)
  }

  function ParseCell(reader: Reader, cell: Cell): Option<Receiver> {
    var identity :- reader.identityOf(cell);
    var record :- reader.decode(cell.data);
    Some(Receiver(identity, record, cell))
  }

  // ----- filters ----------------------------------------------------------------------------

  datatype Options = Options(includeInactive: bool, includeRevoked: bool, now: int, skew: int, maxAge: Option<int>)

  predicate IsVisible(o: Options, r: Record) {
    if r.status == "revoked" then o.includeRevoked
    else if r.status != "online" then o.includeInactive
    else true
  }

  predicate SdkAccepts(o: Options, r: Record) {
    if r.updatedAt > o.now + o.skew then false else IsVisible(o, r)
  }

  predicate PythonAccepts(o: Options, r: Record) {
    if r.status == "revoked" && !o.includeRevoked then false
    else if r.status !in {"online", "revoked"} && !o.includeInactive then false
    else if "mode-s" !in r.capabilities then false
    else
      var age := o.now - r.updatedAt;
      if age < -o.skew then false
      else if o.maxAge.Some? && age > o.maxAge.value then false
      else if !InRange(r.latitude, -90.0, 90.0) then false
      else InRange(r.longitude, -180.0, 180.0)
  }

  function SdkFilter(o: Options): Record -> bool {
    r => SdkAccepts(o, r)
  }

  function PythonFilter(o: Options): Record -> bool {
    r => PythonAccepts(o, r)
  }

  // ----- what a scan should find ------------------------------------------------------------

  function HasIdentity(reader: Reader, identity: string): Cell -> bool {
    (cell: Cell) => reader.identityOf(cell) == Some(identity)
  }

  /** The cells bound to an identity. */
  function Bound(reader: Reader, cells: seq<Cell>, identity: string): seq<Cell> {
    Grouping.Where(cells, HasIdentity(reader, identity))
  }

  /** `r` was read from the only cell bound to its identity. */
  predicate IsOnly(reader: Reader, cells: seq<Cell>, r: Receiver) {
    Bound(reader, cells, r.identity) == [r.cell] && ParseCell(reader, r.cell) == Some(r)
  }

  predicate IdentityLeq(a: Receiver, b: Receiver) {
    !TextOrder.Before(b.identity, a.identity)
  }

  predicate TextLeq(a: string, b: string) {
    !TextOrder.Before(b, a)
  }

  ghost predicate OneEach(receivers: seq<Receiver>) {
    forall i, j :: 0 <= i < j < |receivers| ==> receivers[i].identity != receivers[j].identity
  }

  /** The receivers of the cells, by identity: those that are the only one and are accepted. */
  ghost predicate IsListing(reader: Reader, cells: seq<Cell>, accepts: Record -> bool, receivers: seq<Receiver>) {
    && Sorting.Sorted(receivers, IdentityLeq) && OneEach(receivers)
    && forall r :: r in receivers <==> IsOnly(reader, cells, r) && accepts(r.record)
  }

  /** The identities bound by two cells or more, in order. */
  ghost predicate IsQuarantine(reader: Reader, cells: seq<Cell>, identities: seq<string>) {
    && Sorting.Sorted(identities, TextLeq) && Sorting.NoDuplicates(identities)
    && forall id :: id in identities <==> |Bound(reader, cells, id)| >= 2
  }

  // ----- tallying ---------------------------------------------------------------------------

  /** The maps and sets of one scan; the map keeps its insertion order. */
  datatype Tally = Tally(entries: seq<Receiver>, seen: set<string>, duplicates: seq<string>)

  ghost predicate TallyIs(reader: Reader, cells: seq<Cell>, t: Tally) {
    && (forall id :: id in t.seen <==> |Bound(reader, cells, id)| >= 1)
    && (forall id :: id in t.duplicates <==> |Bound(reader, cells, id)| >= 2)
    && (forall r :: r in t.entries <==> IsOnly(reader, cells, r))
    && OneEach(t.entries) && Sorting.NoDuplicates(t.duplicates)
  }

  lemma TallyOfNone(reader: Reader)
    ensures TallyIs(reader, [], Tally([], {}, []))
  {
  }

  lemma BoundSnoc(reader: Reader, cells: seq<Cell>, cell: Cell, identity: string)
    ensures Bound(reader, cells + [cell], identity)
            == Bound(reader, cells, identity) + if reader.identityOf(cell) == Some(identity) then [cell] else []
  {
    Grouping.WhereSnoc(cells, cell, HasIdentity(reader, identity));
  }

  /** A cell that binds nothing changes nothing. */
  lemma UnboundCell(reader: Reader, cells: seq<Cell>, cell: Cell, t: Tally)
    requires TallyIs(reader, cells, t) && reader.identityOf(cell).None?
    ensures TallyIs(reader, cells + [cell], t)
  {
    hide Bound, ParseCell;
    forall id ensures Bound(reader, cells + [cell], id) == Bound(reader, cells, id) {
      BoundSnoc(reader, cells, cell, id);
    }
  }

  /** The first cell of an identity is listed, if its record decodes. */
  lemma FirstCell(reader: Reader, cells: seq<Cell>, cell: Cell, t: Tally, id: string)
    requires TallyIs(reader, cells, t) && reader.identityOf(cell) == Some(id) && id !in t.seen
    ensures var r := ParseCell(reader, cell);
            TallyIs(reader, cells + [cell],
                    t.(seen := t.seen + {id}, entries := t.entries + if r.Some? then [r.value] else []))
  {
    hide Bound, Sorting.NoDuplicates;
    forall i ensures Bound(reader, cells + [cell], i) == Bound(reader, cells, i) + if i == id then [cell] else [] {
      BoundSnoc(reader, cells, cell, i);
    }
    assert Bound(reader, cells, id) == [];
    forall r | r in t.entries ensures r.identity != id {
      assert IsOnly(reader, cells, r);
    }
    var parsed := ParseCell(reader, cell);
    var entries := t.entries + if parsed.Some? then [parsed.value] else [];
    forall r ensures r in entries <==> IsOnly(reader, cells + [cell], r) {
      if r.identity != id {
        assert IsOnly(reader, cells + [cell], r) == IsOnly(reader, cells, r);
      } else {
        assert Bound(reader, cells + [cell], r.identity) == [cell];
      }
    }
  }

  function Others(entries: seq<Receiver>, id: string): seq<Receiver> {
    Grouping.Where(entries, (r: Receiver) => r.identity != id)
  }

  lemma {:induction false} KeepsOneEach(entries: seq<Receiver>, p: Receiver -> bool)
    requires OneEach(entries)
    ensures OneEach(Grouping.Where(entries, p))
  {
    if entries != [] {
      var front, last := entries[..|entries| - 1], entries[|entries| - 1];
      assert entries == front + [last];
      KeepsOneEach(front, p);
      Grouping.WhereSnoc(front, last, p);
      hide Grouping.Where;
      forall r | r in Grouping.Where(front, p) ensures r.identity != last.identity {
        var k :| 0 <= k < |front| && front[k] == r;
        assert entries[k].identity != entries[|front|].identity;
      }
    }
  }

  lemma OthersOneEach(entries: seq<Receiver>, id: string)
    requires OneEach(entries)
    ensures OneEach(Others(entries, id))
    ensures forall r :: r in Others(entries, id) <==> r in entries && r.identity != id
  {
    KeepsOneEach(entries, (r: Receiver) => r.identity != id);
  }

  /** A further cell of an identity removes its receiver. */
  lemma FurtherCell(reader: Reader, cells: seq<Cell>, cell: Cell, t: Tally, id: string)
    requires TallyIs(reader, cells, t) && reader.identityOf(cell) == Some(id) && id in t.seen
    ensures TallyIs(reader, cells + [cell],
                    t.(entries := Others(t.entries, id),
                       duplicates := if id in t.duplicates then t.duplicates else t.duplicates + [id]))
  {
    hide Bound, ParseCell, Others;
    forall i ensures Bound(reader, cells + [cell], i) == Bound(reader, cells, i) + if i == id then [cell] else [] {
      BoundSnoc(reader, cells, cell, i);
    }
    OthersOneEach(t.entries, id);
    forall r ensures r in Others(t.entries, id) <==> IsOnly(reader, cells + [cell], r) {
      if r.identity == id {
        assert |Bound(reader, cells + [cell], r.identity)| >= 2;
      } else {
        assert IsOnly(reader, cells + [cell], r) == IsOnly(reader, cells, r);
      }
    }
  }

  /** Identities that are duplicated already have no receiver to remove. */
  lemma NothingToRemove(reader: Reader, cells: seq<Cell>, t: Tally, id: string)
    requires TallyIs(reader, cells, t) && id in t.duplicates
    ensures id in t.seen && Others(t.entries, id) == t.entries
  {
    forall r | r in t.entries ensures r.identity != id {
      assert IsOnly(reader, cells, r);
    }
    Grouping.WhereAll(t.entries, (r: Receiver) => r.identity != id);
  }

  method TallyCells(reader: Reader, page: seq<Cell>, start: Tally, ghost before: seq<Cell>) returns (t: Tally)
    requires TallyIs(reader, before, start)
    ensures TallyIs(reader, before + page, t)
  {
    hide TallyIs, ParseCell;
    t := start;
    assert before + page[..0] == before;
    for k := 0 to |page|
      invariant TallyIs(reader, before + page[..k], t)
    {
      var cell := page[k];
      ghost var done := before + page[..k];
      assert done + [cell] == before + page[..k + 1];
      var identity := reader.identityOf(cell);
      if identity.None? {
        UnboundCell(reader, done, cell, t);
        continue;
      }
      var id := identity.value;
      if id in t.duplicates {
        NothingToRemove(reader, done, t, id);
        FurtherCell(reader, done, cell, t, id);
        continue;
      }
      if id in t.seen {
        FurtherCell(reader, done, cell, t, id);
        t := t.(duplicates := t.duplicates + [id], entries := Others(t.entries, id));
        continue;
      }
      FirstCell(reader, done, cell, t, id);
      t := t.(seen := t.seen + {id});
      var receiver := ParseCell(reader, cell);
      if receiver.Some? {
        t := t.(entries := t.entries + [receiver.value]);
      } else {
        assert t.entries + [] == t.entries;
      }
    }
    assert page[..|page|] == page;
  }

  // ----- listing ----------------------------------------------------------------------------

  lemma TextIsOrdered()
    ensures Sorting.Preorder(TextLeq) && Sorting.Preorder(IdentityLeq)
    ensures forall a, b :: TextLeq(a, b) && TextLeq(b, a) ==> a == b
  {
    forall a, b ensures TextLeq(a, b) || TextLeq(b, a) {
      if TextOrder.Before(b, a) {
        TextOrder.Asymmetric(b, a);
      }
    }
    forall a, b, c | TextLeq(a, b) && TextLeq(b, c) ensures TextLeq(a, c) {
      if TextOrder.Before(c, a) {
        TextOrder.Splits(c, b, a);
      }
    }
    forall a, b | TextLeq(a, b) && TextLeq(b, a) ensures a == b {
      if a != b {
        TextOrder.Total(a, b);
      }
    }
    OrderByIdentity();
  }

  lemma OrderByIdentity()
    requires Sorting.Preorder(TextLeq)
    ensures Sorting.Preorder(IdentityLeq)
  {
    hide TextOrder.Before;
    forall a, b ensures IdentityLeq(a, b) || IdentityLeq(b, a) {
      assert TextLeq(a.identity, b.identity) || TextLeq(b.identity, a.identity);
    }
    forall a, b, c | IdentityLeq(a, b) && IdentityLeq(b, c) ensures IdentityLeq(a, c) {
      assert TextLeq(a.identity, b.identity) && TextLeq(b.identity, c.identity);
    }
  }

  /** `filter` and `sort` of what was tallied. */
  function Listing(t: Tally, accepts: Record -> bool): seq<Receiver> {
    Sorting.Sort(Grouping.Where(t.entries, (r: Receiver) => accepts(r.record)), IdentityLeq)
  }

  lemma OneEachIs(receivers: seq<Receiver>)
    ensures OneEach(receivers) <==>
            Sorting.NoDuplicates(receivers)
            && forall a, b :: a in receivers && b in receivers && a.identity == b.identity ==> a == b
  {
  }

  lemma ListingIs(reader: Reader, cells: seq<Cell>, t: Tally, accepts: Record -> bool)
    requires TallyIs(reader, cells, t)
    ensures IsListing(reader, cells, accepts, Listing(t, accepts))
  {
    hide IsOnly, Bound, Sorting.Sort, Grouping.Where, TextOrder.Before, OneEach, Sorting.Preorder;
    var accepted := Grouping.Where(t.entries, (r: Receiver) => accepts(r.record));
    TextIsOrdered();
    Sorting.SortSorts(accepted, IdentityLeq);
    KeepsOneEach(t.entries, (r: Receiver) => accepts(r.record));
    OneEachIs(accepted);
    Sorting.SortDistinct(accepted, IdentityLeq);
    forall r ensures r in Listing(t, accepts) <==> r in accepted {
      Sorting.SortMember(accepted, IdentityLeq, r);
    }
    OneEachIs(Listing(t, accepts));
  }

  lemma QuarantineIs(reader: Reader, cells: seq<Cell>, t: Tally)
    requires TallyIs(reader, cells, t)
    ensures IsQuarantine(reader, cells, Sorting.Sort(t.duplicates, TextLeq))
  {
    hide IsOnly, Bound, Sorting.Sort, TextLeq;
    TextIsOrdered();
    Sorting.SortSorts(t.duplicates, TextLeq);
    Sorting.SortDistinct(t.duplicates, TextLeq);
    forall id ensures id in Sorting.Sort(t.duplicates, TextLeq) <==> id in t.duplicates {
      Sorting.SortMember(t.duplicates, TextLeq, id);
    }
  }

  // ----- paging -----------------------------------------------------------------------------

  /** What a scan looked at, and whether it came to an end without breaking a limit. */
  datatype Scan = Scan(complete: bool, cells: seq<Cell>)

  function Max(a: int, b: int): int {
    if a > b then a else b
  }

  predicate BadCursor(next: string, cursor: Option<string>) {
    next == "" || cursor == Some(next)
  }

  /** The pages from request `page` on, after `cells`. */
  function Collect(indexer: Indexer, limits: Limits, page: nat, cursor: Option<string>, cells: seq<Cell>): Scan
    decreases Max(0, limits.maxPages - page)
  {
    if page >= limits.maxPages then Scan(false, cells)
    else
      var p := indexer(page, cursor);
      if |cells + p.cells| > limits.maxCells then Scan(false, cells)
      else if p.cells == [] then Scan(true, cells)
      else if BadCursor(p.lastCursor, cursor) then Scan(false, cells + p.cells)
      else Collect(indexer, limits, page + 1, Some(p.lastCursor), cells + p.cells)
  }

  lemma CollectPage(indexer: Indexer, limits: Limits, page: nat, cursor: Option<string>, cells: seq<Cell>)
    requires page < limits.maxPages
    ensures var p := indexer(page, cursor);
            Collect(indexer, limits, page, cursor, cells)
            == if |cells| + |p.cells| > limits.maxCells then Scan(false, cells)
               else if |p.cells| == 0 then Scan(true, cells)
               else if BadCursor(p.lastCursor, cursor) then Scan(false, cells + p.cells)
               else Collect(indexer, limits, page + 1, Some(p.lastCursor), cells + p.cells)
  {
  }

  lemma CollectEnds(indexer: Indexer, limits: Limits, page: nat, cursor: Option<string>, cells: seq<Cell>)
    ensures page >= limits.maxPages ==> Collect(indexer, limits, page, cursor, cells) == Scan(false, cells)
  {
  }

  /** What `discover` answers; `limited` says that it reports a `pagination_limit`. */
  datatype Discovered = Discovered(receivers: seq<Receiver>, quarantined: seq<string>, limited: bool)

  function SdkLimits(limits: Limits): Limits {
    Limits(Max(1, limits.maxPages), Max(1, limits.maxCells))
  }

  /** `discover` of the SDK: tallies page by page. `None` is its exception. */
  method Discover(reader: Reader, indexer: Indexer, given: Limits, o: Options) returns (result: Option<Discovered>)
    ensures result.None? <==> o.now < 0 || o.skew < 0
    ensures result.Some? ==>
              var s := Collect(indexer, SdkLimits(given), 0, None, []);
              && result.value.limited == !s.complete
              && IsQuarantine(reader, s.cells, result.value.quarantined)
              && (s.complete ==> IsListing(reader, s.cells, SdkFilter(o), result.value.receivers))
              && (!s.complete ==> result.value.receivers == [])
  {
    if o.now < 0 || o.skew < 0 {
      return None;
    }
    hide *;
    var limits := SdkLimits(given);
    TallyOfNone(reader);
    var t := Tally([], {}, []);
    var cursor: Option<string> := None;
    var exhausted, limited := false, false;
    var pagesScanned, cellsScanned := 0, 0;
    ghost var cells: seq<Cell> := [];
    ghost var scan := Collect(indexer, limits, 0, None, []);
    while pagesScanned < limits.maxPages
      invariant 0 <= pagesScanned && !exhausted && !limited
      invariant cellsScanned == |cells|
      invariant TallyIs(reader, cells, t)
      invariant Collect(indexer, limits, pagesScanned, cursor, cells) == scan
    {
      var page := indexer(pagesScanned, cursor);
      CollectPage(indexer, limits, pagesScanned, cursor, cells);
      ghost var before := cells;
      cellsScanned := cellsScanned + |page.cells|;
      if cellsScanned > limits.maxCells {
        limited := true;
        break;
      }
      t := TallyCells(reader, page.cells, t, cells);
      cells := cells + page.cells;
      if |page.cells| == 0 {
        assert cells == before;
        exhausted := true;
        pagesScanned := pagesScanned + 1;
        break;
      }
      if BadCursor(page.lastCursor, cursor) {
        limited := true;
        exhausted := true;
        pagesScanned := pagesScanned + 1;
        break;
      }
      cursor := Some(page.lastCursor);
      pagesScanned := pagesScanned + 1;
    }
    CollectEnds(indexer, limits, pagesScanned, cursor, cells);
    if !exhausted && pagesScanned >= limits.maxPages {
      limited := true;
    }
    QuarantineIs(reader, cells, t);
    ListingIs(reader, cells, t, SdkFilter(o));
    var receivers := if limited then [] else Listing(t, SdkFilter(o));
    result := Some(Discovered(receivers, Sorting.Sort(t.duplicates, TextLeq), limited));
  }

  /** `_search_receiver_cells` of the Python package; `None` is its exception. */
  method SearchReceiverCells(indexer: Indexer, limits: Limits) returns (found: Option<seq<Cell>>)
    ensures var s := Collect(indexer, Limits(Max(1, limits.maxPages), limits.maxCells), 0, None, []);
            found == if s.complete then Some(s.cells) else None
  {
    ghost var effective := Limits(Max(1, limits.maxPages), limits.maxCells);
    ghost var scan := Collect(indexer, effective, 0, None, []);
    var cells: seq<Cell> := [];
    var cursor: Option<string> := None;
    for page := 0 to Max(1, limits.maxPages)
      invariant Collect(indexer, effective, page, cursor, cells) == scan
    {
      var response := indexer(page, cursor);
      ghost var before := cells;
      cells := cells + response.cells;
      if |cells| > limits.maxCells {
        return None;
      }
      if response.cells == [] {
        assert cells == before;
        return Some(cells);
      }
      if response.lastCursor == "" {
        return None;
      }
      if cursor == Some(response.lastCursor) {
        return None;
      }
      cursor := Some(response.lastCursor);
    }
    return None;
  }

  datatype Peers = Peers(receivers: seq<Receiver>, quarantined: seq<string>)

  /** `discover_peers` of the Python package: collects all cells, then tallies them. */
  method DiscoverPeers(reader: Reader, indexer: Indexer, limits: Limits, o: Options) returns (peers: Option<Peers>)
    ensures var s := Collect(indexer, Limits(Max(1, limits.maxPages), limits.maxCells), 0, None, []);
            && (peers.Some? <==> s.complete)
            && (s.complete ==> IsListing(reader, s.cells, PythonFilter(o), peers.value.receivers)
                               && IsQuarantine(reader, s.cells, peers.value.quarantined))
  {
    var found := SearchReceiverCells(indexer, limits);
    if found.None? {
      return None;
    }
    hide TallyIs, IsQuarantine, IsListing;
    var cells := found.value;
    TallyOfNone(reader);
    var t := TallyCells(reader, cells, Tally([], {}, []), []);
    assert [] + cells == cells;
    ListingIs(reader, cells, t, PythonFilter(o));
    QuarantineIs(reader, cells, t);
    peers := Some(Peers(Listing(t, PythonFilter(o)), Sorting.Sort(t.duplicates, TextLeq)));
  }

  datatype LookupError = LookupLimit | LookupDuplicate | LookupInvalid

  /** `findByIdentity` of the SDK, with the indexer's answers to the exact search. */
  method FindByIdentity(reader: Reader, indexer: Indexer, given: Limits, o: Options)
    returns (found: Result<Option<Receiver>, LookupError>)
    ensures found == Lookup(reader, Collect(indexer, SdkLimits(given), 0, None, []), o)
  {
    var limits := SdkLimits(given);
    ghost var scan := Collect(indexer, limits, 0, None, []);
    var cells: seq<Cell> := [];
    var cursor: Option<string> := None;
    var exhausted := false;
    for pageIndex := 0 to limits.maxPages
      invariant !exhausted
      invariant Collect(indexer, limits, pageIndex, cursor, cells) == scan
    {
      var page := indexer(pageIndex, cursor);
      ghost var before := cells;
      cells := cells + page.cells;
      if |cells| > limits.maxCells {
        return Err(LookupLimit);
      }
      if |page.cells| == 0 {
        assert cells == before;
        exhausted := true;
        break;
      }
      if BadCursor(page.lastCursor, cursor) {
        return Err(LookupLimit);
      }
      cursor := Some(page.lastCursor);
    }
    if !exhausted {
      return Err(LookupLimit);
    }
    if |cells| == 0 {
      return Ok(None);
    }
    if |cells| > 1 {
      return Err(LookupDuplicate);
    }
    var receiver := ParseCell(reader, cells[0]);
    if receiver.None? {
      return Err(LookupInvalid);
    }
    if receiver.value.record.status == "revoked" {
      return Ok(if o.includeRevoked then receiver else None);
    }
    if receiver.value.record.status != "online" && !o.includeInactive {
      return Ok(None);
    }
    return Ok(receiver);
  }

  function Lookup(reader: Reader, s: Scan, o: Options): Result<Option<Receiver>, LookupError> {
    if !s.complete then Err(LookupLimit)
    else if s.cells == [] then Ok(None)
    else if |s.cells| > 1 then Err(LookupDuplicate)
    else
      var receiver := ParseCell(reader, s.cells[0]);
      if receiver.None? then Err(LookupInvalid)
      else Ok(if IsVisible(o, receiver.value.record) then receiver else None)
  }
}
