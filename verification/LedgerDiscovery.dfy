/**
 Discovery on the ledger: an indexer that lists the live cells of any reachable ledger makes
 discovery find every identity ever minted exactly once, and quarantine nothing.
 */
module LedgerDiscovery {
  import opened Wrappers
  import opened LittleEndian
  import opened RegistryRecord
  import opened Ledger
  import opened LedgerRuns
  import Discovery
  import Grouping
  import Molecule
  import Sorting
  import TypeScript

  // ----- bytes as text ----------------------------------------------------------------------

  function HexChar(n: nat): (c: char)
    requires n < 16
    ensures '0' <= c <= '9' || 'a' <= c <= 'f'
  {
    "0123456789abcdef"[n]
  }

  function Hex(bytes: Bytes): (text: string)
    ensures |text| == 2 + 2 * |bytes|
  {
    "0x" + seq(2 * |bytes|, i requires 0 <= i < 2 * |bytes| =>
      HexChar(if i % 2 == 0 then bytes[i / 2] / 16 else bytes[i / 2] % 16))
  }

  lemma HexCharInjective(m: nat, n: nat)
    requires m < 16 && n < 16 && HexChar(m) == HexChar(n)
    ensures m == n
  {
  }

  lemma HexAt(bytes: Bytes, k: nat)
    requires k < |bytes|
    ensures Hex(bytes)[2 + 2 * k] == HexChar(bytes[k] / 16) && Hex(bytes)[2 + 2 * k + 1] == HexChar(bytes[k] % 16)
  {
  }

  lemma HexInjective(a: Bytes, b: Bytes)
    requires Hex(a) == Hex(b)
    ensures a == b
  {
    hide Hex, HexChar;
    assert |a| == |b|;
    forall k | 0 <= k < |a| ensures a[k] == b[k] {
      HexAt(a, k);
      HexAt(b, k);
      HexCharInjective(a[k] / 16, b[k] / 16);
      HexCharInjective(a[k] % 16, b[k] % 16);
    }
  }

  lemma HexIsLower(bytes: Bytes)
    ensures Discovery.Lower(Hex(bytes)) == Hex(bytes)
    ensures ValidHash(Hex(bytes)) <==> |bytes| == 32
  {
    var text := Hex(bytes);
    forall i | 0 <= i < |text| ensures Discovery.LowerChar(text[i]) == text[i] && (i >= 2 ==> HexDigit(text[i])) {
      assert i >= 2 ==> '0' <= text[i] <= '9' || 'a' <= text[i] <= 'f';
    }
  }

  // ----- the listing of a ledger ------------------------------------------------------------

  function ScriptText(s: Molecule.Script): Discovery.Script {
    Discovery.Script(Hex(s.codeHash), s.hashType, Hex(s.args))
  }

  function TypeText(typeScript: Option<Molecule.Script>): Option<Discovery.Script> {
    match typeScript
    case None => None
    case Some(s) => Some(ScriptText(s))
  }

  /** How the indexer shows the type script of a live cell. */
  predicate Shows(cell: Cell, shown: Discovery.Cell) {
    shown.typeScript == TypeText(cell.output.typeScript)
  }

  function RecordOf(host: TypeScript.Host, payload: Bytes): Option<Record> {
    match TypeScript.DecodeRecord(host, payload)
    case Ok(record) => Some(record)
    case Err(_) => None
  }

  /** The cell's type script is the deployed contract: what the prefix search of both packages asks for. */
  predicate OfContract(c: Chain, output: Molecule.CellOutput) {
    && output.typeScript.Some?
    && output.typeScript.value.codeHash == c.deployment.codeHash
    && output.typeScript.value.hashType == c.deployment.hashType
  }

  /**
   `cells` are live cells, each once, and all the contract's are among them, as in the answer to
   the search for its code hash; the reader takes identities from them as the SDK does.
   */
  ghost predicate Lists(c: Chain, s: State, reader: Discovery.Reader, points: seq<Molecule.OutPoint>,
                        cells: seq<Discovery.Cell>)
  {
    && |points| == |cells| && Sorting.NoDuplicates(points)
    && (forall o :: o in points ==> o in s.live)
    && (forall o :: o in s.live && OfContract(c, s.live[o].output) ==> o in points)
    && (forall k :: 0 <= k < |points| ==> Shows(s.live[points[k]], cells[k]))
    && reader.identityOf == Discovery.SdkIdentity(Hex(c.deployment.codeHash), c.deployment.hashType)
  }

  /** The reader decodes the data of the contract's cells as the contract does. */
  ghost predicate Reads(c: Chain, s: State, reader: Discovery.Reader, points: seq<Molecule.OutPoint>,
                        cells: seq<Discovery.Cell>)
    requires |points| == |cells| && forall o :: o in points ==> o in s.live
  {
    forall k :: 0 <= k < |points| && OfContract(c, s.live[points[k]].output) ==>
      reader.decode(cells[k].data) == RecordOf(c.host, s.live[points[k]].data)
  }

  /** The SDK reads an identity from a cell exactly if the cell carries the contract with it. */
  lemma IdentityIsCarried(c: Chain, cell: Cell, shown: Discovery.Cell, id: Bytes)
    requires Shows(cell, shown) && |id| == 32
    ensures Discovery.SdkIdentity(Hex(c.deployment.codeHash), c.deployment.hashType)(shown) == Some(Hex(id))
            <==> Carries(cell, c.ScriptOf(id))
  {
    hide Hex, ValidHash, Discovery.Lower;
    HexIsLower(c.deployment.codeHash);
    HexIsLower(id);
    if cell.output.typeScript.Some? {
      var script := cell.output.typeScript.value;
      HexIsLower(script.args);
      if Hex(script.codeHash) == Hex(c.deployment.codeHash) {
        HexInjective(script.codeHash, c.deployment.codeHash);
      }
      if Hex(script.args) == Hex(id) {
        HexInjective(script.args, id);
      }
    }
  }

  /** An identity that was read is the text of 32 bytes. */
  lemma IdentityIsText(c: Chain, cell: Cell, shown: Discovery.Cell, text: string) returns (id: Bytes)
    requires Shows(cell, shown)
    requires Discovery.SdkIdentity(Hex(c.deployment.codeHash), c.deployment.hashType)(shown) == Some(text)
    ensures |id| == 32 && text == Hex(id)
  {
    hide Hex, ValidHash, Discovery.Lower;
    id := cell.output.typeScript.value.args;
    HexIsLower(id);
  }

  lemma HolderIsListed(c: Chain, s: State, reader: Discovery.Reader, points: seq<Molecule.OutPoint>,
                       cells: seq<Discovery.Cell>, id: Bytes, o: Molecule.OutPoint)
    requires Lists(c, s, reader, points, cells) && o in Holders(c, s, id)
    ensures o in s.live && OfContract(c, s.live[o].output) && o in points
  {
  }

  lemma CellIsHolder(c: Chain, s: State, reader: Discovery.Reader, points: seq<Molecule.OutPoint>,
                     cells: seq<Discovery.Cell>, id: Bytes, k: nat)
    requires Lists(c, s, reader, points, cells) && |id| == 32 && k < |cells|
    ensures Discovery.HasIdentity(reader, Hex(id))(cells[k]) <==> points[k] in Holders(c, s, id)
  {
    hide Hex, Discovery.SdkIdentity, Shows, RecordOf, Carries;
    assert points[k] in points;
    IdentityIsCarried(c, s.live[points[k]], cells[k], id);
  }

  /** The cells bound to an identity are those of its holders. */
  lemma BoundIsHolder(c: Chain, s: State, reader: Discovery.Reader, points: seq<Molecule.OutPoint>,
                      cells: seq<Discovery.Cell>, id: Bytes)
    requires Lists(c, s, reader, points, cells) && |id| == 32 && |Holders(c, s, id)| <= 1
    ensures |Discovery.Bound(reader, cells, Hex(id))| == |Holders(c, s, id)|
    ensures forall k :: 0 <= k < |points| && points[k] in Holders(c, s, id) ==>
              Discovery.Bound(reader, cells, Hex(id)) == [cells[k]]
  {
    hide Hex, Grouping.Where, Discovery.SdkIdentity, Shows, RecordOf, Carries, Discovery.HasIdentity, Holders;
    var bound := Discovery.HasIdentity(reader, Hex(id));
    forall k | 0 <= k < |cells| ensures bound(cells[k]) <==> points[k] in Holders(c, s, id) {
      CellIsHolder(c, s, reader, points, cells, id, k);
    }
    forall o | o in Holders(c, s, id) ensures o in points {
      HolderIsListed(c, s, reader, points, cells, id, o);
    }
    if Holders(c, s, id) == {} {
      forall cell | cell in cells ensures !bound(cell) {
        var k :| 0 <= k < |cells| && cells[k] == cell;
      }
      Grouping.WhereNone(cells, bound);
    } else {
      var o :| o in Holders(c, s, id);
      OnlyMember(Holders(c, s, id), o);
      assert o in points;
      var k :| 0 <= k < |points| && points[k] == o;
      forall j | 0 <= j < |cells| ensures bound(cells[j]) <==> k <= j < k + 1 {
        assert points[j] == o <==> j == k;
      }
      Grouping.WhereSlice(cells, bound, k, k + 1);
      assert cells[k..k + 1] == [cells[k]];
    }
  }

  lemma OnlyMember<T>(s: set<T>, x: T)
    requires x in s && |s| <= 1
    ensures s == {x}
  {
    assert s == {x} + (s - {x});
  }

  // ----- over every run ---------------------------------------------------------------------

  /** An identity is bound by one listed cell if it was ever minted, and by none before. */
  lemma MintedIsBoundOnce(c: Chain, states: seq<State>, txs: seq<Molecule.Transaction>, n: nat, id: Bytes,
                          reader: Discovery.Reader, points: seq<Molecule.OutPoint>, cells: seq<Discovery.Cell>)
    requires |states| == |txs| + 1 && IsRun(c, states, txs) && n <= |txs| && |id| == 32
    requires Lists(c, states[n], reader, points, cells)
    ensures |Discovery.Bound(reader, cells, Hex(id))| == if MintedBefore(c, states, txs, n, id) then 1 else 0
  {
    hide IsRun, Hex, Discovery.Bound, Lists, MintedBefore, Holders;
    OneLiveCellForever(c, states, txs, n, id);
    BoundIsHolder(c, states[n], reader, points, cells, id);
  }

  /** Discovery on a reachable ledger quarantines nothing. */
  lemma NothingIsQuarantined(c: Chain, states: seq<State>, txs: seq<Molecule.Transaction>, n: nat,
                             reader: Discovery.Reader, points: seq<Molecule.OutPoint>, cells: seq<Discovery.Cell>,
                             quarantined: seq<string>)
    requires |states| == |txs| + 1 && IsRun(c, states, txs) && n <= |txs|
    requires Lists(c, states[n], reader, points, cells)
    requires Discovery.IsQuarantine(reader, cells, quarantined)
    ensures quarantined == []
  {
    hide IsRun, Hex, Discovery.SdkIdentity, Shows, MintedBefore;
    if quarantined != [] {
      var text := quarantined[0];
      var bound := Discovery.Bound(reader, cells, text);
      assert text in quarantined && |bound| >= 2;
      assert bound[0] in bound;
      var k :| 0 <= k < |cells| && cells[k] == bound[0];
      assert points[k] in points;
      var id := IdentityIsText(c, states[n].live[points[k]], cells[k], text);
      MintedIsBoundOnce(c, states, txs, n, id, reader, points, cells);
    }
  }

  /** Every minted identity is found, with the record of its one live cell. */
  lemma MintedIsFound(c: Chain, states: seq<State>, txs: seq<Molecule.Transaction>, n: nat, id: Bytes,
                      reader: Discovery.Reader, points: seq<Molecule.OutPoint>, cells: seq<Discovery.Cell>)
    returns (r: Discovery.Receiver)
    requires |states| == |txs| + 1 && IsRun(c, states, txs) && n <= |txs| && |id| == 32
    requires Lists(c, states[n], reader, points, cells) && Reads(c, states[n], reader, points, cells)
    requires MintedBefore(c, states, txs, n, id)
    ensures Discovery.IsOnly(reader, cells, r) && r.identity == Hex(id)
    ensures exists o :: o in Holders(c, states[n], id) && RecordAt(c, states[n], o) == Ok(r.record)
  {
    hide IsRun, Hex, Discovery.SdkIdentity, Shows, MintedBefore, Discovery.Bound, Carries, TypeScript.DecodeRecord;
    OneLiveCellForever(c, states, txs, n, id);
    BoundIsHolder(c, states[n], reader, points, cells, id);
    var o :| o in Holders(c, states[n], id);
    LiveRecord(c, states, txs, n, id, o);
    HolderIsListed(c, states[n], reader, points, cells, id, o);
    var k :| 0 <= k < |points| && points[k] == o;
    IdentityIsCarried(c, states[n].live[o], cells[k], id);
    r := Discovery.Receiver(Hex(id), RecordAt(c, states[n], o).value, cells[k]);
    assert Discovery.ParseCell(reader, cells[k]) == Some(r);
  }
}
