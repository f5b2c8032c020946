/** What a scan finds does not depend on how the indexer orders and pages the cells, nor on the package. */
module DiscoveryResults {
  import opened Wrappers
  import opened RegistryRecord
  import opened Discovery
  import Grouping
  import Sorting

  // ----- one answer for one set of cells ----------------------------------------------------

  lemma SameMembersSorted<T(!new)>(a: seq<T>, b: seq<T>, leq: (T, T) -> bool)
    requires Sorting.Sorted(a, leq) && Sorting.Sorted(b, leq)
    requires Sorting.NoDuplicates(a) && Sorting.NoDuplicates(b)
    requires forall x :: x in a <==> x in b
    requires forall x, y :: x in a && y in a && leq(x, y) && leq(y, x) ==> x == y
    ensures a == b
  {
    hide Sorting.Sorted;
    Sorting.NoDuplicatesIff(a);
    Sorting.NoDuplicatesIff(b);
    forall x ensures multiset(a)[x] == multiset(b)[x] {
      assert x in a <==> x in multiset(a);
      assert x in b <==> x in multiset(b);
    }
    Sorting.SortedUnique(a, b, leq);
  }

  /** The listing of the cells is determined. */
  lemma ListingIsUnique(reader: Reader, cells: seq<Cell>, accepts: Record -> bool, a: seq<Receiver>, b: seq<Receiver>)
    requires IsListing(reader, cells, accepts, a) && IsListing(reader, cells, accepts, b)
    ensures a == b
  {
    hide IsOnly, OneEach;
    OneEachIs(a);
    OneEachIs(b);
    TextIsOrdered();
    forall x, y | x in a && y in a && IdentityLeq(x, y) && IdentityLeq(y, x) ensures x == y {
      assert TextLeq(x.identity, y.identity) && TextLeq(y.identity, x.identity);
    }
    SameMembersSorted(a, b, IdentityLeq);
  }

  lemma QuarantineIsUnique(reader: Reader, cells: seq<Cell>, a: seq<string>, b: seq<string>)
    requires IsQuarantine(reader, cells, a) && IsQuarantine(reader, cells, b)
    ensures a == b
  {
    hide Bound;
    TextIsOrdered();
    SameMembersSorted(a, b, TextLeq);
  }

  // ----- the order of the cells -------------------------------------------------------------

  lemma BoundPermuted(reader: Reader, a: seq<Cell>, b: seq<Cell>, id: string)
    requires multiset(a) == multiset(b)
    ensures |Bound(reader, a, id)| == |Bound(reader, b, id)|
    ensures |Bound(reader, a, id)| == 1 ==> Bound(reader, a, id) == Bound(reader, b, id)
  {
    Grouping.WhereSameMultiset(a, b, HasIdentity(reader, id));
    var x, y := Bound(reader, a, id), Bound(reader, b, id);
    assert |x| == |multiset(x)| == |multiset(y)| == |y|;
    if |x| == 1 {
      assert x[0] in multiset(y);
    }
  }

  lemma OnlyPermuted(reader: Reader, a: seq<Cell>, b: seq<Cell>, r: Receiver)
    requires multiset(a) == multiset(b)
    ensures IsOnly(reader, a, r) <==> IsOnly(reader, b, r)
  {
    hide Bound, ParseCell;
    BoundPermuted(reader, a, b, r.identity);
  }

  /** Permuting the cells changes neither what is listed nor what is quarantined. */
  lemma OrderDoesNotMatter(reader: Reader, a: seq<Cell>, b: seq<Cell>, accepts: Record -> bool,
                           receivers: seq<Receiver>, identities: seq<string>)
    requires multiset(a) == multiset(b)
    ensures IsListing(reader, a, accepts, receivers) <==> IsListing(reader, b, accepts, receivers)
    ensures IsQuarantine(reader, a, identities) <==> IsQuarantine(reader, b, identities)
  {
    hide IsOnly, Bound;
    forall r ensures IsOnly(reader, a, r) <==> IsOnly(reader, b, r) {
      OnlyPermuted(reader, a, b, r);
    }
    forall id ensures |Bound(reader, a, id)| == |Bound(reader, b, id)| {
      BoundPermuted(reader, a, b, id);
    }
  }

  // ----- the pages --------------------------------------------------------------------------

  /** The indexer answers with these pages, one after the other, and then with an empty one. */
  ghost predicate Serves(indexer: Indexer, page: nat, cursor: Option<string>, pages: seq<seq<Cell>>)
    decreases |pages|
  {
    var p := indexer(page, cursor);
    if pages == [] then p.cells == []
    else
      && p.cells == pages[0] && pages[0] != []
      && !BadCursor(p.lastCursor, cursor)
      && Serves(indexer, page + 1, Some(p.lastCursor), pages[1..])
  }

  lemma {:induction false} CollectServed(indexer: Indexer, limits: Limits, page: nat, cursor: Option<string>,
                                         cells: seq<Cell>, pages: seq<seq<Cell>>)
    requires Serves(indexer, page, cursor, pages) && |cells| <= limits.maxCells
    ensures var s := Collect(indexer, limits, page, cursor, cells);
            && (s.complete <==> page + |pages| < limits.maxPages && |cells + Grouping.Concat(pages)| <= limits.maxCells)
            && (s.complete ==> s.cells == cells + Grouping.Concat(pages))
    decreases |pages|
  {
    if pages != [] && page < limits.maxPages {
      var p := indexer(page, cursor);
      assert cells + Grouping.Concat(pages) == (cells + pages[0]) + Grouping.Concat(pages[1..]);
      if |cells + p.cells| <= limits.maxCells {
        CollectServed(indexer, limits, page + 1, Some(p.lastCursor), cells + p.cells, pages[1..]);
      }
    } else {
      assert pages == [] ==> cells + Grouping.Concat(pages) == cells;
    }
  }

  /**
   An indexer that serves its pages properly is scanned to the end exactly if there is room for
   one request more than pages and for all the cells; the scan then saw all of them.
   */
  lemma ProperPagesAreScanned(indexer: Indexer, limits: Limits, pages: seq<seq<Cell>>)
    requires Serves(indexer, 0, None, pages) && limits.maxCells >= 0
    ensures var s := Collect(indexer, limits, 0, None, []);
            && (s.complete <==> |pages| < limits.maxPages && |Grouping.Concat(pages)| <= limits.maxCells)
            && (s.complete ==> s.cells == Grouping.Concat(pages))
  {
    assert [] + Grouping.Concat(pages) == Grouping.Concat(pages);
    CollectServed(indexer, limits, 0, None, [], pages);
  }

  /** Serving the same cells in another order, in other pages, within other limits, gives the same answer. */
  lemma PagingDoesNotMatter(reader: Reader, one: Indexer, other: Indexer, limits: Limits, otherLimits: Limits,
                            accepts: Record -> bool, a: seq<Receiver>, b: seq<Receiver>,
                            repeated: seq<string>, otherRepeated: seq<string>)
    requires var s, t := Collect(one, limits, 0, None, []), Collect(other, otherLimits, 0, None, []);
             && s.complete && t.complete && multiset(s.cells) == multiset(t.cells)
             && IsListing(reader, s.cells, accepts, a) && IsListing(reader, t.cells, accepts, b)
             && IsQuarantine(reader, s.cells, repeated) && IsQuarantine(reader, t.cells, otherRepeated)
    ensures a == b && repeated == otherRepeated
  {
    hide IsListing, IsQuarantine, Collect;
    var s, t := Collect(one, limits, 0, None, []), Collect(other, otherLimits, 0, None, []);
    OrderDoesNotMatter(reader, s.cells, t.cells, accepts, b, otherRepeated);
    ListingIsUnique(reader, s.cells, accepts, a, b);
    QuarantineIsUnique(reader, s.cells, repeated, otherRepeated);
  }

  // ----- lookup and discovery ---------------------------------------------------------------

  /**
   The lookup of one identity, answered with the cells bound to it, finds a receiver exactly if
   discovery lists it, except for records from the future, which only discovery leaves out.
   */
  lemma LookupAgrees(reader: Reader, cells: seq<Cell>, exact: seq<Cell>, o: Options, identity: string,
                     receivers: seq<Receiver>, r: Receiver)
    requires IsListing(reader, cells, SdkFilter(o), receivers)
    requires multiset(exact) == multiset(Bound(reader, cells, identity))
    ensures r in receivers && r.identity == identity
            <==> Lookup(reader, Scan(true, exact), o) == Ok(Some(r)) && r.record.updatedAt <= o.now + o.skew
  {
    hide Bound, IsVisible;
    var bound := Bound(reader, cells, identity);
    assert |exact| == |multiset(exact)| == |multiset(bound)| == |bound|;
    if |exact| == 1 {
      assert exact[0] in multiset(bound);
      assert exact == bound;
      AreBound(reader, cells, identity, exact[0]);
    }
    assert r in receivers <==> IsOnly(reader, cells, r) && SdkAccepts(o, r.record);
  }

  lemma AreBound(reader: Reader, cells: seq<Cell>, identity: string, cell: Cell)
    requires cell in Bound(reader, cells, identity)
    ensures cell in cells && reader.identityOf(cell) == Some(identity)
  {
  }

  /** The lookup reports a duplicate exactly if discovery quarantines the identity. */
  lemma DuplicatesAgree(reader: Reader, cells: seq<Cell>, exact: seq<Cell>, o: Options, identity: string,
                        quarantined: seq<string>)
    requires IsQuarantine(reader, cells, quarantined)
    requires multiset(exact) == multiset(Bound(reader, cells, identity))
    ensures identity in quarantined <==> Lookup(reader, Scan(true, exact), o) == Err(LookupDuplicate)
  {
    hide Bound;
    var bound := Bound(reader, cells, identity);
    assert |exact| == |multiset(exact)| == |multiset(bound)| == |bound|;
  }

  // ----- the two packages -------------------------------------------------------------------

  /** The filters agree on every valid record, if no maximal age is configured. */
  lemma FiltersAgree(o: Options, r: Record)
    requires Validate(r).Ok? && o.maxAge.None?
    ensures SdkAccepts(o, r) <==> PythonAccepts(o, r)
  {
  }

  /** Both packages list the same receivers of the same cells, in whatever order they were served. */
  lemma PackagesAgree(sdk: Reader, python: Reader, a: seq<Cell>, b: seq<Cell>, o: Options,
                      sdkList: seq<Receiver>, pythonList: seq<Receiver>)
    requires multiset(a) == multiset(b) && o.maxAge.None?
    requires forall cell :: cell in a ==> sdk.identityOf(cell) == python.identityOf(cell)
    requires forall cell :: cell in a ==> sdk.decode(cell.data) == python.decode(cell.data)
    requires forall cell :: cell in a && sdk.decode(cell.data).Some? ==> Validate(sdk.decode(cell.data).value).Ok?
    requires IsListing(sdk, a, SdkFilter(o), sdkList) && IsListing(python, b, PythonFilter(o), pythonList)
    ensures sdkList == pythonList
  {
    hide Bound, Validate, Sorting.Sorted, OneEach, SdkAccepts, PythonAccepts;
    OrderDoesNotMatter(python, a, b, PythonFilter(o), pythonList, []);
    forall r ensures IsOnly(sdk, a, r) && SdkAccepts(o, r.record) <==> IsOnly(python, a, r) && PythonAccepts(o, r.record) {
      SameBound(sdk, python, a, r.identity);
      if IsOnly(sdk, a, r) {
        AreBound(sdk, a, r.identity, r.cell);
        FiltersAgree(o, r.record);
      }
      if IsOnly(python, a, r) {
        AreBound(python, a, r.identity, r.cell);
        FiltersAgree(o, r.record);
      }
    }
    assert IsListing(sdk, a, SdkFilter(o), pythonList);
    ListingIsUnique(sdk, a, SdkFilter(o), sdkList, pythonList);
  }

  lemma {:induction false} SameBound(one: Reader, other: Reader, cells: seq<Cell>, id: string)
    requires forall cell :: cell in cells ==> one.identityOf(cell) == other.identityOf(cell)
    ensures Bound(one, cells, id) == Bound(other, cells, id)
  {
    if cells != [] {
      var front, last := cells[..|cells| - 1], cells[|cells| - 1];
      assert cells == front + [last];
      assert last in cells;
      SameBound(one, other, front, id);
      BoundSnoc(one, front, last, id);
      BoundSnoc(other, front, last, id);
    }
  }

  /**
   The packages read the same identity from a cell, unless its code hash is the configured one with
   upper-case letters: the Python package then reads an identity and the SDK refuses the cell.
   */
  lemma IdentitiesAgree(codeHash: string, hashType: string, cell: Cell)
    requires codeHash != ""
    ensures SdkIdentity(codeHash, hashType)(cell) == PythonIdentity(codeHash, hashType)(cell) <==>
            || PythonIdentity(codeHash, hashType)(cell).None?
            || Lower(cell.typeScript.value.codeHash) == cell.typeScript.value.codeHash
  {
    assert Lower(codeHash) != "";
    assert Lower(Lower(codeHash)) == Lower(codeHash);
  }

  // ----- the identity of an answer ----------------------------------------------------------

  /** The lookup does not compare identities: its answer has the one asked for exactly if the served cell binds it. */
  lemma AnsweredIdentity(reader: Reader, s: Scan, o: Options, identity: string, r: Receiver)
    requires Lookup(reader, s, o) == Ok(Some(r))
    ensures |s.cells| == 1
    ensures r.identity == identity <==> s.cells[0] in Bound(reader, s.cells, identity)
  {
    hide IsVisible;
    assert HasIdentity(reader, identity)(s.cells[0]) <==> r.identity == identity;
  }

  /** Such a server: whatever identity is asked for, it serves this cell. */
  lemma AnotherIsAnswered(reader: Reader, limits: Limits, o: Options, cell: Cell, r: Receiver, identity: string)
    returns (indexer: Indexer)
    requires limits.maxPages >= 2 && limits.maxCells >= 1
    requires ParseCell(reader, cell) == Some(r) && IsVisible(o, r.record) && r.identity != identity
    ensures Lookup(reader, Collect(indexer, limits, 0, None, []), o) == Ok(Some(r))
  {
    hide Collect, ParseCell, IsVisible;
    indexer := (page, cursor) => if page == 0 then Page([cell], "next") else Page([], "");
    var pages := [[cell]];
    ServesOne(indexer, cell);
    assert Grouping.Concat(pages) == [cell] by {
      assert Grouping.Concat(pages[1..]) == [];
    }
    ProperPagesAreScanned(indexer, limits, pages);
  }

  lemma ServesOne(indexer: Indexer, cell: Cell)
    requires indexer(0, None) == Page([cell], "next") && indexer(1, Some("next")) == Page([], "")
    ensures Serves(indexer, 0, None, [[cell]])
  {
    assert [[cell]][1..] == [];
    assert Serves(indexer, 1, Some("next"), []);
  }

  /** A visible record from the future is looked up, but discovery lists nothing. */
  lemma FutureIsLookedUp(reader: Reader, o: Options, cell: Cell, r: Receiver)
    requires ParseCell(reader, cell) == Some(r) && IsVisible(o, r.record) && r.record.updatedAt > o.now + o.skew
    ensures Lookup(reader, Scan(true, [cell]), o) == Ok(Some(r))
    ensures IsListing(reader, [cell], SdkFilter(o), [])
  {
    hide IsVisible;
    forall other | IsOnly(reader, [cell], other) ensures other == r {
      AreBound(reader, [cell], other.identity, other.cell);
      assert other.cell == cell;
    }
  }

  /** A cell of the contract whose code hash is written with an upper-case letter: only the Python package reads it. */
  lemma UpperCaseIsRefused(args: string) returns (codeHash: string, cell: Cell)
    requires ValidHash(args)
    ensures codeHash != "" && cell.typeScript.Some? && Lower(cell.typeScript.value.codeHash) == codeHash
    ensures SdkIdentity(codeHash, "data1")(cell) == None
    ensures PythonIdentity(codeHash, "data1")(cell) == Some(Lower(args))
  {
    codeHash := "0xa";
    var script := Script("0xA", "data1", args);
    cell := Cell("", 0, script, Some(script), "");
    assert Lower("0xA") == "0xa" && Lower("0xa") == "0xa";
    assert "0xA"[2] != "0xa"[2];
  }
}
