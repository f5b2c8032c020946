/**
 The ledger on which the Registry V2 type script runs: out points, cells, accepted
 transactions, and the guarantees of contracts/README.md over whole runs.
 */
module Ledger {
  import opened Wrappers
  import opened LittleEndian
  import opened Molecule
  import opened RegistryRecord
  import opened TypeScript
  import MoleculeDecoder

  datatype Cell = Cell(output: CellOutput, data: Bytes)

  /** The code hash and hash type under which the contract is deployed. */
  datatype Deployment = Deployment(codeHash: Bytes, hashType: string)

  /**
   `serialize` gives the bytes that a transaction is hashed from. Any injective serialization
   will do; `MoleculeChain` below is the chain with the one the source computes.
   */
  datatype Chain = Chain(host: Host, deployment: Deployment, serialize: Transaction -> Encoded) {
    function ScriptOf(identity: Bytes): Script {
      Script(deployment.codeHash, deployment.hashType, identity)
    }
  }

  /**
   `live` and `spent` are the ledger; the rest is history. `raws` holds the bytes of every
   transaction so far, `preimages` every Type ID preimage that was hashed, and `lineages` the
   records that each identity went through.
   */
  datatype State = State(
    live: map<OutPoint, Cell>,
    spent: set<OutPoint>,
    raws: set<Bytes>,
    preimages: set<Bytes>,
    lineages: map<Bytes, seq<Record>>)

  ghost predicate Injective(serialize: Transaction -> Encoded) {
    forall t, u :: serialize(t).Ok? && serialize(t) == serialize(u) ==> t == u
  }

  function MoleculeChain(host: Host, deployment: Deployment): (c: Chain) {
    Chain(host, deployment, RawTransactionBytes)
  }

  lemma MoleculeChainInjective(host: Host, deployment: Deployment)
    ensures Injective(MoleculeChain(host, deployment).serialize)
  {
    forall t, u | RawTransactionBytes(t).Ok? && RawTransactionBytes(t) == RawTransactionBytes(u) ensures t == u {
      MoleculeDecoder.RawBytesInjective(t, u);
    }
  }

  // ----- script groups ----------------------------------------------------------------------

  predicate Carries(cell: Cell, script: Script) {
    cell.output.typeScript == Some(script)
  }

  function GroupData(cells: seq<Cell>, script: Script): seq<Bytes> {
    if cells == [] then []
    else (if Carries(cells[0], script) then [cells[0].data] else []) + GroupData(cells[1..], script)
  }

  /** The position of the first cell that carries the script, or the length. */
  function FirstIndex(cells: seq<Cell>, script: Script): (index: nat)
    ensures index <= |cells|
  {
    if cells == [] || Carries(cells[0], script) then 0 else 1 + FirstIndex(cells[1..], script)
  }

  function OutputCells(tx: Transaction): (cells: seq<Cell>)
    requires |tx.outputs| == |tx.outputsData|
    ensures |cells| == |tx.outputs|
  {
    seq(|tx.outputs|, i requires 0 <= i < |tx.outputs| => Cell(tx.outputs[i], tx.outputsData[i]))
  }

  predicate InputsLive(s: State, tx: Transaction) {
    forall i :: 0 <= i < |tx.inputs| ==> tx.inputs[i].previousOutput in s.live
  }

  function InputCells(s: State, tx: Transaction): (cells: seq<Cell>)
    requires InputsLive(s, tx)
    ensures |cells| == |tx.inputs|
  {
    seq(|tx.inputs|, i requires 0 <= i < |tx.inputs| => s.live[tx.inputs[i].previousOutput])
  }

  predicate DistinctInputs(tx: Transaction) {
    forall i, j :: 0 <= i < j < |tx.inputs| ==> tx.inputs[i].previousOutput != tx.inputs[j].previousOutput
  }

  /** What the ledger itself demands before any script runs. */
  predicate WellFormed(c: Chain, s: State, tx: Transaction) {
    && tx.inputs != []
    && InputsLive(s, tx)
    && DistinctInputs(tx)
    && |tx.outputs| == |tx.outputsData|
    && c.serialize(tx).Ok?
  }

  function GroupOf(c: Chain, s: State, tx: Transaction, identity: Bytes): Group
    requires WellFormed(c, s, tx)
  {
    var script := c.ScriptOf(identity);
    Group(identity, tx.inputs[0], GroupData(InputCells(s, tx), script), GroupData(OutputCells(tx), script),
          FirstIndex(OutputCells(tx), script))
  }

  /** The script with this argument occurs in the transaction, so it runs. */
  predicate Touches(c: Chain, s: State, tx: Transaction, identity: Bytes)
    requires WellFormed(c, s, tx)
  {
    var group := GroupOf(c, s, tx, identity);
    group.inputs != [] || group.outputs != []
  }

  predicate ScriptPasses(c: Chain, s: State, tx: Transaction, identity: Bytes)
    requires WellFormed(c, s, tx)
  {
    Touches(c, s, tx, identity) ==> Run(c.host, GroupOf(c, s, tx, identity)).Ok?
  }

  /** The script runs once for every identity that occurs, and passes. */
  ghost predicate Accepted(c: Chain, s: State, tx: Transaction) {
    && WellFormed(c, s, tx)
    && forall identity :: ScriptPasses(c, s, tx, identity)
  }

  /** The transaction creates the identity: its script occurs among the outputs only. */
  predicate Mints(c: Chain, s: State, tx: Transaction, identity: Bytes)
    requires WellFormed(c, s, tx)
  {
    var group := GroupOf(c, s, tx, identity);
    group.inputs == [] && group.outputs != []
  }

  // ----- steps and runs ---------------------------------------------------------------------

  function TxHash(c: Chain, tx: Transaction): Bytes
    requires c.serialize(tx).Ok?
  {
    c.host.hash(c.serialize(tx).value)
  }

  function Consumed(tx: Transaction): set<OutPoint> {
    set i | 0 <= i < |tx.inputs| :: tx.inputs[i].previousOutput
  }

  function Created(c: Chain, tx: Transaction): map<OutPoint, Cell>
    requires c.serialize(tx).Ok? && |tx.outputs| == |tx.outputsData|
  {
    var hash := TxHash(c, tx);
    var outPoints := set i | 0 <= i < |tx.outputs| :: OutPoint(hash, i);
    map outPoint | outPoint in outPoints :: OutputCells(tx)[outPoint.index]
  }

  /** The identities whose script occurs among the outputs. */
  function OutputIdentities(c: Chain, tx: Transaction): set<Bytes> {
    set i | && 0 <= i < |tx.outputs|
            && tx.outputs[i].typeScript.Some?
            && tx.outputs[i].typeScript.value == c.ScriptOf(tx.outputs[i].typeScript.value.args)
          :: tx.outputs[i].typeScript.value.args
  }

  function Extend(c: Chain, lineages: map<Bytes, seq<Record>>, identity: Bytes, payload: Bytes): seq<Record> {
    var earlier := if identity in lineages then lineages[identity] else [];
    match DecodeRecord(c.host, payload)
    case Ok(record) => earlier + [record]
    case Err(_) => earlier
  }

  function MintPreimage(c: Chain, tx: Transaction, identity: Bytes): Bytes
    requires tx.inputs != [] && |tx.outputs| == |tx.outputsData|
  {
    var preimage := TypeIdPreimage(tx.inputs[0], FirstIndex(OutputCells(tx), c.ScriptOf(identity)));
    if preimage.Ok? then preimage.value else []
  }

  function FirstOf(data: seq<Bytes>): Bytes {
    if data == [] then [] else data[0]
  }

  function Apply(c: Chain, s: State, tx: Transaction): State
    requires WellFormed(c, s, tx)
  {
    var touched := OutputIdentities(c, tx);
    State(
      (s.live - Consumed(tx)) + Created(c, tx),
      s.spent + Consumed(tx),
      s.raws + {c.serialize(tx).value},
      s.preimages + (set id | id in touched && Mints(c, s, tx, id) :: MintPreimage(c, tx, id)),
      s.lineages + (map id | id in touched ::
                      Extend(c, s.lineages, id, FirstOf(GroupData(OutputCells(tx), c.ScriptOf(id))))))
  }

  ghost predicate Step(c: Chain, s: State, tx: Transaction, s': State) {
    Accepted(c, s, tx) && s' == Apply(c, s, tx)
  }

  /** No two different byte strings that were hashed during the run have the same hash. */
  ghost predicate NoCollision(c: Chain, s: State) {
    var hashed := s.raws + s.preimages;
    forall a, b :: a in hashed && b in hashed && c.host.hash(a) == c.host.hash(b) ==> a == b
  }

  /** The out point belongs to a transaction of the ledger. */
  ghost predicate Rooted(c: Chain, s: State, outPoint: OutPoint) {
    exists raw :: raw in s.raws && outPoint.txHash == c.host.hash(raw)
  }

  /** No transaction can have this hash, as for the null out point that a coinbase consumes. */
  ghost predicate Null(c: Chain, outPoint: OutPoint) {
    forall bytes :: c.host.hash(bytes) != outPoint.txHash
  }

  /**
   A ledger before the first registry transaction. Its transactions consumed what is no longer
   live: out points of the ledger, or null ones. No cell carries the contract.
   */
  ghost predicate Genesis(c: Chain, s: State) {
    && s.preimages == {} && s.lineages == map[]
    && s.live.Keys !! s.spent
    && (forall outPoint :: outPoint in s.live ==> Rooted(c, s, outPoint))
    && (forall outPoint :: outPoint in s.spent ==> Rooted(c, s, outPoint) || Null(c, outPoint))
    && (forall tx :: c.serialize(tx).Ok? && c.serialize(tx).value in s.raws ==> Consumed(tx) <= s.spent)
    && (forall identity, outPoint :: outPoint in s.live ==> !Carries(s.live[outPoint], c.ScriptOf(identity)))
  }

  function Holders(c: Chain, s: State, identity: Bytes): set<OutPoint> {
    set outPoint | outPoint in s.live && Carries(s.live[outPoint], c.ScriptOf(identity))
  }

  // ----- the inductive invariant ------------------------------------------------------------

  /** Out points are never used twice. */
  ghost predicate FreshInv(c: Chain, s: State) {
    && s.live.Keys !! s.spent
    && (forall outPoint :: outPoint in s.live ==> Rooted(c, s, outPoint))
    && (forall outPoint :: outPoint in s.spent ==> Rooted(c, s, outPoint) || Null(c, outPoint))
    && (forall tx :: c.serialize(tx).Ok? && c.serialize(tx).value in s.raws ==>
          Consumed(tx) <= s.spent)
  }

  /** Every identity ever minted is the hash of an out point that is now spent. */
  ghost predicate OriginInv(c: Chain, s: State) {
    && (forall id :: id in s.lineages ==> exists p :: p in s.preimages && c.host.hash(p) == id)
    && (forall input, index :: TypeIdPreimage(input, index).Ok? && TypeIdPreimage(input, index).value in s.preimages ==>
          input.previousOutput in s.spent)
  }

  /** One live cell for every identity ever minted, holding the last record; none for the others. */
  ghost predicate HolderOf(c: Chain, s: State, id: Bytes, outPoint: OutPoint) {
    && Holders(c, s, id) == {outPoint}
    && id in s.lineages
    && LegalLineage(s.lineages[id])
    && DecodeRecord(c.host, s.live[outPoint].data) == Ok(s.lineages[id][|s.lineages[id]| - 1])
  }

  ghost predicate IdentityInv(c: Chain, s: State, id: Bytes) {
    if id in s.lineages then exists outPoint :: HolderOf(c, s, id, outPoint) else Holders(c, s, id) == {}
  }

  ghost predicate Inv(c: Chain, s: State) {
    FreshInv(c, s) && OriginInv(c, s) && forall id :: IdentityInv(c, s, id)
  }

  // ----- facts about groups -----------------------------------------------------------------

  lemma {:induction false} GroupNone(cells: seq<Cell>, script: Script)
    ensures GroupData(cells, script) == [] <==> forall i :: 0 <= i < |cells| ==> !Carries(cells[i], script)
  {
    if cells != [] {
      GroupNone(cells[1..], script);
      if forall i :: 0 <= i < |cells| ==> !Carries(cells[i], script) {
        assert !Carries(cells[0], script);
        forall i | 0 <= i < |cells| - 1 ensures !Carries(cells[1..][i], script) {
          assert cells[1..][i] == cells[i + 1];
        }
      }
      if GroupData(cells, script) == [] {
        forall i | 0 <= i < |cells| ensures !Carries(cells[i], script) {
          assert i > 0 ==> cells[i] == cells[1..][i - 1];
        }
      }
    }
  }

  /** A group of one cell is the cell at `FirstIndex`, and no other. */
  lemma {:induction false} GroupOne(cells: seq<Cell>, script: Script)
    requires |GroupData(cells, script)| == 1
    ensures var k := FirstIndex(cells, script);
            && k < |cells| && Carries(cells[k], script) && GroupData(cells, script) == [cells[k].data]
            && forall i :: 0 <= i < |cells| && i != k ==> !Carries(cells[i], script)
  {
    if Carries(cells[0], script) {
      GroupNone(cells[1..], script);
      forall i | 0 < i < |cells| ensures !Carries(cells[i], script) {
        assert cells[i] == cells[1..][i - 1];
      }
    } else {
      GroupOne(cells[1..], script);
      forall i | 0 < i < |cells| && i != FirstIndex(cells, script) ensures !Carries(cells[i], script) {
        assert cells[i] == cells[1..][i - 1];
      }
    }
  }

  lemma OutputIdentitiesAre(c: Chain, tx: Transaction, id: Bytes)
    requires |tx.outputs| == |tx.outputsData|
    ensures id in OutputIdentities(c, tx) <==> GroupData(OutputCells(tx), c.ScriptOf(id)) != []
  {
    GroupNone(OutputCells(tx), c.ScriptOf(id));
    if GroupData(OutputCells(tx), c.ScriptOf(id)) != [] {
      var i :| 0 <= i < |tx.outputs| && Carries(OutputCells(tx)[i], c.ScriptOf(id));
      assert tx.outputs[i].typeScript.value.args == id;
    }
    if id in OutputIdentities(c, tx) {
      var i :| 0 <= i < |tx.outputs| && tx.outputs[i].typeScript == Some(c.ScriptOf(id));
      assert Carries(OutputCells(tx)[i], c.ScriptOf(id));
    }
  }

  // ----- one step ---------------------------------------------------------------------------

  /** No transaction is accepted twice, so the out points it makes were never seen before. */
  lemma StepIsFresh(c: Chain, s: State, tx: Transaction)
    requires FreshInv(c, s) && Accepted(c, s, tx) && NoCollision(c, Apply(c, s, tx))
    ensures c.serialize(tx).value !in s.raws
    ensures Created(c, tx).Keys !! s.live.Keys + s.spent
  {
    var raw := c.serialize(tx).value;
    assert tx.inputs[0].previousOutput in Consumed(tx);
    assert raw !in s.raws;
    assert raw in Apply(c, s, tx).raws;
    forall outPoint | outPoint in s.live.Keys + s.spent ensures outPoint.txHash != TxHash(c, tx) {
      if Rooted(c, s, outPoint) {
        var raw' :| raw' in s.raws && outPoint.txHash == c.host.hash(raw');
        assert raw' in Apply(c, s, tx).raws;
      }
    }
  }

  lemma StepFreshInv(c: Chain, s: State, tx: Transaction)
    requires Injective(c.serialize)
    requires FreshInv(c, s) && Accepted(c, s, tx) && NoCollision(c, Apply(c, s, tx))
    ensures FreshInv(c, Apply(c, s, tx))
  {
    var s' := Apply(c, s, tx);
    StepIsFresh(c, s, tx);
    assert Consumed(tx) <= s.live.Keys;
    assert s'.live.Keys == (s.live.Keys - Consumed(tx)) + Created(c, tx).Keys;
    forall outPoint | Rooted(c, s, outPoint) ensures Rooted(c, s', outPoint) {
      var raw :| raw in s.raws && outPoint.txHash == c.host.hash(raw);
      assert raw in s'.raws;
    }
    forall outPoint | outPoint in Created(c, tx) ensures Rooted(c, s', outPoint) {
      assert c.serialize(tx).value in s'.raws;
    }
    forall t | c.serialize(t).Ok? && c.serialize(t).value in s'.raws
      ensures Consumed(t) <= s'.spent
    {
      if c.serialize(t).value !in s.raws {
        assert t == tx;
      }
    }
  }

  /** A new identity differs from every identity minted before. */
  lemma MintIsFresh(c: Chain, s: State, tx: Transaction, id: Bytes)
    requires Inv(c, s) && Accepted(c, s, tx) && NoCollision(c, Apply(c, s, tx))
    requires Mints(c, s, tx, id)
    ensures id !in s.lineages
  {
    assert Touches(c, s, tx, id);
    var group := GroupOf(c, s, tx, id);
    assert ScriptPasses(c, s, tx, id);
    RunAccepts(c.host, group);
    var preimage := MintPreimage(c, tx, id);
    OutputIdentitiesAre(c, tx, id);
    assert preimage in Apply(c, s, tx).preimages;
    assert tx.inputs[0].previousOutput in s.live;
    assert TypeIdPreimage(tx.inputs[0], group.firstOutputIndex).value !in s.preimages;
    forall p | p in s.preimages ensures c.host.hash(p) != id {
      assert p in Apply(c, s, tx).preimages;
    }
  }

  lemma StepOriginInv(c: Chain, s: State, tx: Transaction)
    requires Inv(c, s) && Accepted(c, s, tx) && NoCollision(c, Apply(c, s, tx))
    ensures OriginInv(c, Apply(c, s, tx))
  {
    var s' := Apply(c, s, tx);
    forall id | id in s'.lineages ensures exists p :: p in s'.preimages && c.host.hash(p) == id {
      if id in s.lineages {
        var p :| p in s.preimages && c.host.hash(p) == id;
        assert p in s'.preimages;
      } else {
        assert id in OutputIdentities(c, tx);
        OutputIdentitiesAre(c, tx, id);
        assert Touches(c, s, tx, id);
        assert ScriptPasses(c, s, tx, id);
        RunAccepts(c.host, GroupOf(c, s, tx, id));
        assert IdentityInv(c, s, id);
        NoGroupInputs(c, s, tx, id);
        assert Mints(c, s, tx, id);
        assert MintPreimage(c, tx, id) in s'.preimages;
      }
    }
    forall input, index | && TypeIdPreimage(input, index).Ok?
                          && TypeIdPreimage(input, index).value in s'.preimages
      ensures input.previousOutput in s'.spent
    {
      if TypeIdPreimage(input, index).value !in s.preimages {
        var id :| id in OutputIdentities(c, tx) && Mints(c, s, tx, id)
                  && TypeIdPreimage(input, index).value == MintPreimage(c, tx, id);
        assert Touches(c, s, tx, id);
        assert ScriptPasses(c, s, tx, id);
        RunAccepts(c.host, GroupOf(c, s, tx, id));
        PreimageInjective(input, index, tx.inputs[0], FirstIndex(OutputCells(tx), c.ScriptOf(id)));
        assert tx.inputs[0].previousOutput in Consumed(tx);
      }
    }
  }

  /** Without a holder, no input carries the identity. */
  lemma NoGroupInputs(c: Chain, s: State, tx: Transaction, id: Bytes)
    requires WellFormed(c, s, tx) && Holders(c, s, id) == {}
    ensures GroupOf(c, s, tx, id).inputs == []
  {
    GroupNone(InputCells(s, tx), c.ScriptOf(id));
    forall i | 0 <= i < |tx.inputs| ensures !Carries(InputCells(s, tx)[i], c.ScriptOf(id)) {
      assert tx.inputs[i].previousOutput !in Holders(c, s, id);
    }
  }

  /** A transaction that does not run the script leaves the holders and the lineage alone. */
  lemma StepUntouched(c: Chain, s: State, tx: Transaction, id: Bytes)
    requires WellFormed(c, s, tx) && !Touches(c, s, tx, id)
    requires Created(c, tx).Keys !! s.live.Keys
    ensures var s' := Apply(c, s, tx);
            && Holders(c, s', id) == Holders(c, s, id)
            && (forall o :: o in Holders(c, s, id) ==> s'.live[o] == s.live[o])
            && (id in s'.lineages <==> id in s.lineages)
            && (id in s.lineages ==> s'.lineages[id] == s.lineages[id])
  {
    OutputIdentitiesAre(c, tx, id);
    HoldersNotConsumed(c, s, tx, id);
    GroupNone(OutputCells(tx), c.ScriptOf(id));
    var live' := Apply(c, s, tx).live;
    forall o | o in live' ensures o in Holders(c, s, id) <==> Carries(live'[o], c.ScriptOf(id)) {
      if o in Created(c, tx) {
        assert live'[o] == OutputCells(tx)[o.index];
      }
    }
  }

  lemma HoldersNotConsumed(c: Chain, s: State, tx: Transaction, id: Bytes)
    requires WellFormed(c, s, tx) && GroupOf(c, s, tx, id).inputs == []
    ensures Consumed(tx) !! Holders(c, s, id)
  {
    GroupNone(InputCells(s, tx), c.ScriptOf(id));
    forall i | 0 <= i < |tx.inputs| ensures tx.inputs[i].previousOutput !in Holders(c, s, id) {
      assert !Carries(InputCells(s, tx)[i], c.ScriptOf(id));
    }
  }

  /** The out point of the one output that carries the script. */
  function CarrierOf(c: Chain, tx: Transaction, id: Bytes): OutPoint
    requires c.serialize(tx).Ok? && |tx.outputs| == |tx.outputsData|
  {
    OutPoint(TxHash(c, tx), FirstIndex(OutputCells(tx), c.ScriptOf(id)))
  }

  lemma CarrierIsLive(c: Chain, s: State, tx: Transaction, id: Bytes)
    requires Accepted(c, s, tx) && Touches(c, s, tx, id)
    requires Holders(c, s, id) <= Consumed(tx)
    ensures GroupOf(c, s, tx, id).outputs != []
    ensures var o := CarrierOf(c, tx, id);
            && Holders(c, Apply(c, s, tx), id) == {o}
            && Apply(c, s, tx).live[o].data == GroupOf(c, s, tx, id).outputs[0]
    ensures id in Apply(c, s, tx).lineages
    ensures Apply(c, s, tx).lineages[id] == Extend(c, s.lineages, id, GroupOf(c, s, tx, id).outputs[0])
  {
    assert ScriptPasses(c, s, tx, id);
    RunAccepts(c.host, GroupOf(c, s, tx, id));
    GroupOne(OutputCells(tx), c.ScriptOf(id));
    OutputIdentitiesAre(c, tx, id);
    HoldersAfter(c, s, tx, id, FirstIndex(OutputCells(tx), c.ScriptOf(id)));
    assert CarrierOf(c, tx, id) in Created(c, tx);
  }

  lemma FirstRecord(c: Chain, lineages: map<Bytes, seq<Record>>, id: Bytes, payload: Bytes)
    requires id !in lineages && DecodeRecord(c.host, payload).Ok?
    requires ValidateCreation(DecodeRecord(c.host, payload).value).Ok?
    ensures Extend(c, lineages, id, payload) == [DecodeRecord(c.host, payload).value]
    ensures LegalLineage(Extend(c, lineages, id, payload))
  {
  }

  lemma StepMints(c: Chain, s: State, tx: Transaction, id: Bytes)
    requires Accepted(c, s, tx) && Mints(c, s, tx, id)
    requires IdentityInv(c, s, id) && id !in s.lineages
    ensures HolderOf(c, Apply(c, s, tx), id, CarrierOf(c, tx, id))
  {
    assert Touches(c, s, tx, id);
    var group := GroupOf(c, s, tx, id);
    assert ScriptPasses(c, s, tx, id);
    RunAccepts(c.host, group);
    CarrierIsLive(c, s, tx, id);
    FirstRecord(c, s.lineages, id, group.outputs[0]);
  }

  /** An update consumes the only holder. */
  lemma UpdateConsumes(c: Chain, s: State, tx: Transaction, id: Bytes)
    requires Accepted(c, s, tx) && Touches(c, s, tx, id) && !Mints(c, s, tx, id)
    requires IdentityInv(c, s, id)
    ensures id in s.lineages && Holders(c, s, id) <= Consumed(tx)
    ensures GroupOf(c, s, tx, id).inputs != []
    ensures DecodeRecord(c.host, GroupOf(c, s, tx, id).inputs[0]) == Ok(Latest(s, id))
    ensures LegalLineage(s.lineages[id])
  {
    var group := GroupOf(c, s, tx, id);
    assert ScriptPasses(c, s, tx, id);
    RunAccepts(c.host, group);
    GroupOne(InputCells(s, tx), c.ScriptOf(id));
    var j := FirstIndex(InputCells(s, tx), c.ScriptOf(id));
    var spent := tx.inputs[j].previousOutput;
    assert spent in Holders(c, s, id);
    var holder :| HolderOf(c, s, id, holder);
    assert spent == holder && spent in Consumed(tx);
  }

  function Latest(s: State, id: Bytes): Record
    requires id in s.lineages && s.lineages[id] != []
  {
    s.lineages[id][|s.lineages[id]| - 1]
  }

  lemma StepUpdates(c: Chain, s: State, tx: Transaction, id: Bytes) returns (next: Record)
    requires Accepted(c, s, tx) && Touches(c, s, tx, id) && !Mints(c, s, tx, id)
    requires IdentityInv(c, s, id)
    ensures id in s.lineages && LegalLineage(s.lineages[id])
    ensures HolderOf(c, Apply(c, s, tx), id, CarrierOf(c, tx, id))
    ensures ValidateSuccessor(Latest(s, id), next).Ok?
    ensures Apply(c, s, tx).lineages[id] == s.lineages[id] + [next]
  {
    var group := GroupOf(c, s, tx, id);
    assert ScriptPasses(c, s, tx, id);
    RunAccepts(c.host, group);
    UpdateConsumes(c, s, tx, id);
    CarrierIsLive(c, s, tx, id);
    next := DecodeRecord(c.host, group.outputs[0]).value;
    ExtendLegal(s.lineages[id], next);
  }

  lemma ExtendLegal(lineage: seq<Record>, next: Record)
    requires LegalLineage(lineage) && ValidateSuccessor(lineage[|lineage| - 1], next).Ok?
    ensures LegalLineage(lineage + [next])
  {
    var longer := lineage + [next];
    forall i | 0 <= i < |longer| - 1 ensures ValidateSuccessor(longer[i], longer[i + 1]).Ok? {
      if i < |lineage| - 1 {
        assert ValidateSuccessor(lineage[i], lineage[i + 1]).Ok?;
      }
    }
  }

  /** If all holders are consumed and one output carries the script, that output is the holder. */
  lemma HoldersAfter(c: Chain, s: State, tx: Transaction, id: Bytes, k: nat)
    requires WellFormed(c, s, tx) && Holders(c, s, id) <= Consumed(tx)
    requires k < |tx.outputs| && Carries(OutputCells(tx)[k], c.ScriptOf(id))
    requires forall i :: 0 <= i < |tx.outputs| && i != k ==> !Carries(OutputCells(tx)[i], c.ScriptOf(id))
    ensures Holders(c, Apply(c, s, tx), id) == {OutPoint(TxHash(c, tx), k)}
  {
    var s' := Apply(c, s, tx);
    var o := OutPoint(TxHash(c, tx), k);
    assert o in Created(c, tx);
    forall p | p in Holders(c, s', id) ensures p == o {
      assert p in Created(c, tx);
      assert Carries(OutputCells(tx)[p.index], c.ScriptOf(id));
    }
  }

  lemma StepInv(c: Chain, s: State, tx: Transaction)
    requires Injective(c.serialize)
    requires Inv(c, s) && Accepted(c, s, tx) && NoCollision(c, Apply(c, s, tx))
    ensures Inv(c, Apply(c, s, tx))
  {
    var s' := Apply(c, s, tx);
    StepFreshInv(c, s, tx);
    StepOriginInv(c, s, tx);
    StepIsFresh(c, s, tx);
    forall id ensures IdentityInv(c, s', id) {
      assert IdentityInv(c, s, id);
      if Mints(c, s, tx, id) {
        MintIsFresh(c, s, tx, id);
        StepMints(c, s, tx, id);
      } else if Touches(c, s, tx, id) {
        var next := StepUpdates(c, s, tx, id);
      } else {
        StepUntouched(c, s, tx, id);
        if id in s.lineages {
          var o :| HolderOf(c, s, id, o);
          assert o in Holders(c, s, id);
          assert HolderOf(c, s', id, o);
        }
      }
    }
  }

  lemma MintLineage(c: Chain, s: State, tx: Transaction, id: Bytes)
    requires Accepted(c, s, tx) && Mints(c, s, tx, id)
    requires IdentityInv(c, s, id) && id !in s.lineages
    ensures id in Apply(c, s, tx).lineages && |Apply(c, s, tx).lineages[id]| == 1
  {
    assert Touches(c, s, tx, id);
    StepMints(c, s, tx, id);
    assert ScriptPasses(c, s, tx, id);
    RunAccepts(c.host, GroupOf(c, s, tx, id));
    CarrierIsLive(c, s, tx, id);
  }

  ghost predicate MintsIn(c: Chain, s: State, tx: Transaction, id: Bytes) {
    WellFormed(c, s, tx) && Mints(c, s, tx, id)
  }

  ghost predicate TouchesIn(c: Chain, s: State, tx: Transaction, id: Bytes) {
    WellFormed(c, s, tx) && Touches(c, s, tx, id)
  }

  /** What a transaction does to one identity. */
  datatype Effect = Creation | Update | Nothing

  ghost function EffectOf(c: Chain, s: State, tx: Transaction, id: Bytes): Effect {
    if MintsIn(c, s, tx, id) then Creation else if TouchesIn(c, s, tx, id) then Update else Nothing
  }

  /** One identity in one state: its holders, their cells, and its records. */
  datatype View = View(cells: map<OutPoint, Cell>, lineage: seq<Record>)

  ghost function ViewOf(c: Chain, s: State, id: Bytes): View {
    View(map o | o in Holders(c, s, id) :: s.live[o], if id in s.lineages then s.lineages[id] else [])
  }

  /** Creation starts a lineage, an update adds one record to it, and nothing else changes it. */
  ghost predicate Change(effect: Effect, before: View, after: View) {
    match effect
    case Creation => before.lineage == [] && |after.lineage| == 1
    case Update =>
      && before.lineage != [] && before.lineage[|before.lineage| - 1].status != "revoked"
      && before.lineage < after.lineage && |after.lineage| == |before.lineage| + 1
    case Nothing => after == before
  }

  /** The holder is unique and carries the last record of a legal lineage. */
  ghost predicate Settled(c: Chain, view: View) {
    if view.lineage == [] then view.cells == map[]
    else
      && LegalLineage(view.lineage)
      && exists o :: && view.cells.Keys == {o}
                     && DecodeRecord(c.host, view.cells[o].data) == Ok(view.lineage[|view.lineage| - 1])
  }

  lemma InvSettles(c: Chain, s: State, id: Bytes)
    requires IdentityInv(c, s, id)
    ensures Settled(c, ViewOf(c, s, id))
    ensures id in s.lineages <==> ViewOf(c, s, id).lineage != []
    ensures ViewOf(c, s, id).cells.Keys == Holders(c, s, id)
  {
    var view := ViewOf(c, s, id);
    assert view.cells.Keys == Holders(c, s, id);
    if id in s.lineages {
      var o :| HolderOf(c, s, id, o);
      assert view.cells.Keys == {o};
    }
  }

  /** The lineage of `id` in `s'` is the one in `s` and one more record. */
  ghost predicate GainsRecord(s: State, s': State, id: Bytes) {
    && id in s.lineages && id in s'.lineages
    && s.lineages[id] != [] && Latest(s, id).status != "revoked"
    && s.lineages[id] < s'.lineages[id] && |s'.lineages[id]| == |s.lineages[id]| + 1
  }

  lemma UpdateGains(c: Chain, s: State, tx: Transaction, id: Bytes)
    requires Accepted(c, s, tx) && Touches(c, s, tx, id) && !Mints(c, s, tx, id)
    requires IdentityInv(c, s, id)
    ensures GainsRecord(s, Apply(c, s, tx), id)
  {
    var next := StepUpdates(c, s, tx, id);
  }

  lemma GainIsChange(c: Chain, s: State, s': State, id: Bytes)
    requires GainsRecord(s, s', id)
    ensures Change(Update, ViewOf(c, s, id), ViewOf(c, s', id))
  {
  }

  lemma StartIsChange(c: Chain, s: State, s': State, id: Bytes)
    requires id !in s.lineages && id in s'.lineages && |s'.lineages[id]| == 1
    ensures Change(Creation, ViewOf(c, s, id), ViewOf(c, s', id))
  {
  }

  lemma SameIsChange(c: Chain, s: State, s': State, id: Bytes)
    requires Holders(c, s', id) == Holders(c, s, id)
    requires forall o :: o in Holders(c, s, id) ==> s'.live[o] == s.live[o]
    requires id in s'.lineages <==> id in s.lineages
    requires id in s.lineages ==> s'.lineages[id] == s.lineages[id]
    ensures Change(Nothing, ViewOf(c, s, id), ViewOf(c, s', id))
  {
    assert ViewOf(c, s, id).cells == ViewOf(c, s', id).cells;
  }

  lemma StepChange(c: Chain, s: State, tx: Transaction, s': State, id: Bytes)
    requires Inv(c, s) && Step(c, s, tx, s') && NoCollision(c, s')
    ensures Change(EffectOf(c, s, tx, id), ViewOf(c, s, id), ViewOf(c, s', id))
  {
    assert IdentityInv(c, s, id);
    if MintsIn(c, s, tx, id) {
      MintIsFresh(c, s, tx, id);
      MintLineage(c, s, tx, id);
      StartIsChange(c, s, s', id);
    } else if TouchesIn(c, s, tx, id) {
      UpdateGains(c, s, tx, id);
      GainIsChange(c, s, s', id);
    } else {
      StepIsFresh(c, s, tx);
      StepUntouched(c, s, tx, id);
      SameIsChange(c, s, s', id);
    }
  }
}
