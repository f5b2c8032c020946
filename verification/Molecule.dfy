/**
 The Molecule layouts (fixvec, dynvec, table, option) used to hash a raw
 transaction, and a strict decoder for them.
 Models tools/registry/verify_registry_v2_evidence.py.
 */
module Molecule {
  import opened Wrappers
  import opened LittleEndian

  /** What the Python code raises: ValueError in three places, OverflowError from `int.to_bytes`. */
  datatype Error = BadLength | BadHashType | BadDepType | Negative | Overflow

  type Encoded = Result<Bytes, Error>

  // ----- entities ---------------------------------------------------------------------------

  /** `hashType` and `depType` stay text: an unknown name is an error of the encoder. */
  datatype Script = Script(codeHash: Bytes, hashType: string, args: Bytes)
  datatype OutPoint = OutPoint(txHash: Bytes, index: int)
  datatype CellDep = CellDep(outPoint: OutPoint, depType: string)
  datatype CellInput = CellInput(since: int, previousOutput: OutPoint)
  datatype CellOutput = CellOutput(capacity: int, lock: Script, typeScript: Option<Script>)
  datatype Transaction = Transaction(
    version: int,
    cellDeps: seq<CellDep>,
    headerDeps: seq<Bytes>,
    inputs: seq<CellInput>,
    outputs: seq<CellOutput>,
    outputsData: seq<Bytes>)

  // ----- primitive layouts ------------------------------------------------------------------

  function U32(value: int): Encoded {
    if 0 <= value < U32_LIMIT then Ok(LittleEndian.Encode(value, 4)) else Err(Overflow)
  }

  function U64(value: int): Encoded {
    if 0 <= value < U64_LIMIT then Ok(LittleEndian.Encode(value, 8)) else Err(Overflow)
  }

  /** `_number`: a negative number is refused before any conversion. */
  function Number(value: int): Result<int, Error> {
    if value < 0 then Err(Negative) else Ok(value)
  }

  function Exactly(bytes: Bytes, length: nat): Encoded {
    if |bytes| == length then Ok(bytes) else Err(BadLength)
  }

  function Concat(items: seq<Bytes>): Bytes {
    if items == [] then [] else items[0] + Concat(items[1..])
  }

  function Fixvec(items: seq<Bytes>): Encoded {
    var count :- U32(|items|);
    Ok(count + Concat(items))
  }

  /** The byte position of every item, when the first one starts at `start`. */
  function Offsets(start: nat, items: seq<Bytes>): (offsets: seq<nat>)
    ensures |offsets| == |items|
    decreases items
  {
    if items == [] then [] else [start] + Offsets(start + |items[0]|, items[1..])
  }

  function U32Table(values: seq<nat>): Encoded {
    if values == [] then Ok([])
    else
      var first :- U32(values[0]);
      var rest :- U32Table(values[1..]);
      Ok(first + rest)
  }

  function Dynvec(items: seq<Bytes>): Encoded {
    if items == [] then U32(4)
    else
      var header := 4 + 4 * |items|;
      var table :- U32Table(Offsets(header, items));
      var total :- U32(header + |Concat(items)|);
      Ok(total + table + Concat(items))
  }

  function MoleculeBytes(raw: Bytes): Encoded {
    var length :- U32(|raw|);
    Ok(length + raw)
  }

  // ----- transaction parts ------------------------------------------------------------------

  function HashTypeByte(name: string): Result<Byte, Error> {
    if name == "data" then Ok(0)
    else if name == "type" then Ok(1)
    else if name == "data1" then Ok(2)
    else if name == "data2" then Ok(4)
    else Err(BadHashType)
  }

  function DepTypeByte(name: string): Result<Byte, Error> {
    if name == "code" then Ok(0) else if name == "dep_group" then Ok(1) else Err(BadDepType)
  }

  function ScriptBytes(script: Script): Encoded {
    var hashType :- HashTypeByte(script.hashType);
    var codeHash :- Exactly(script.codeHash, 32);
    var args :- MoleculeBytes(script.args);
    Dynvec([codeHash, [hashType], args])
  }

  function OutPointBytes(outPoint: OutPoint): Encoded {
    var txHash :- Exactly(outPoint.txHash, 32);
    var number :- Number(outPoint.index);
    var index :- U32(number);
    Ok(txHash + index)
  }

  function CellDepBytes(dep: CellDep): Encoded {
    var depType :- DepTypeByte(dep.depType);
    var outPoint :- OutPointBytes(dep.outPoint);
    Ok(outPoint + [depType])
  }

  function InputBytes(input: CellInput): Encoded {
    var number :- Number(input.since);
    var since :- U64(number);
    var outPoint :- OutPointBytes(input.previousOutput);
    Ok(since + outPoint)
  }

  /** The option layout: an absent type script is the empty byte string. */
  function TypeScriptBytes(typeScript: Option<Script>): Encoded {
    match typeScript
    case None => Ok([])
    case Some(script) => ScriptBytes(script)
  }

  function OutputBytes(output: CellOutput): Encoded {
    var number :- Number(output.capacity);
    var capacity :- U64(number);
    var lock :- ScriptBytes(output.lock);
    var typeScript :- TypeScriptBytes(output.typeScript);
    Dynvec([capacity, lock, typeScript])
  }

  function Hash32Bytes(hash: Bytes): Encoded {
    Exactly(hash, 32)
  }

  function Collect<A>(encode: A -> Encoded, items: seq<A>): Result<seq<Bytes>, Error> {
    if items == [] then Ok([])
    else
      var first :- encode(items[0]);
      var rest :- Collect(encode, items[1..]);
      Ok([first] + rest)
  }

  function RawTransactionBytes(tx: Transaction): Encoded {
    var cellDeps :- Collect(CellDepBytes, tx.cellDeps);
    var inputs :- Collect(InputBytes, tx.inputs);
    var outputs :- Collect(OutputBytes, tx.outputs);
    var number :- Number(tx.version);
    var version :- U32(number);
    var cellDepsVec :- Fixvec(cellDeps);
    var headerDeps :- Collect(Hash32Bytes, tx.headerDeps);
    var headerDepsVec :- Fixvec(headerDeps);
    var inputsVec :- Fixvec(inputs);
    var outputsVec :- Dynvec(outputs);
    var outputsData :- Collect(MoleculeBytes, tx.outputsData);
    var outputsDataVec :- Dynvec(outputsData);
    Dynvec([version, cellDepsVec, headerDepsVec, inputsVec, outputsVec, outputsDataVec])
  }

  // ----- the loops of the source ------------------------------------------------------------

  /** What a loop returns that has collected `done` and would get `rest` from the remaining items. */
  ghost function Resumed<T>(done: seq<T>, rest: Result<seq<T>, Error>): Result<seq<T>, Error> {
    if rest.Ok? then Ok(done + rest.value) else rest
  }

  lemma ResumedLaws<T>(done: seq<T>, next: seq<T>, rest: Result<seq<T>, Error>)
    ensures Resumed([], rest) == rest
    ensures Resumed(done, Ok([])) == Ok(done)
    ensures Resumed(done, Resumed(next, rest)) == Resumed(done + next, rest)
  {
    assert done + [] == done;
    if rest.Ok? {
      assert [] + rest.value == rest.value;
      assert done + (next + rest.value) == (done + next) + rest.value;
    }
  }

  lemma TableStep(offsets: Bytes, offset: nat, item: Bytes, items: seq<Bytes>)
    ensures var entry := U32(offset);
            Resumed(offsets, U32Table(Offsets(offset, [item] + items)))
            == if entry.Err? then entry
               else Resumed(offsets + entry.value, U32Table(Offsets(offset + |item|, items)))
  {
    assert ([item] + items)[1..] == items;
    var entry := U32(offset);
    assert Offsets(offset, [item] + items) == [offset] + Offsets(offset + |item|, items);
    if entry.Ok? {
      ResumedLaws(offsets, entry.value, U32Table(Offsets(offset + |item|, items)));
    }
  }

  /** `_dynvec`: `offset` runs over the items while the header entries are collected. */
  method EncodeDynvec(items: seq<Bytes>) returns (r: Encoded)
    ensures r == Dynvec(items)
  {
    if items == [] {
      return U32(4);
    }
    var headerSize := 4 + 4 * |items|;
    var offsets: Bytes := [];
    var offset: nat := headerSize;
    var i := 0;
    ghost var table := U32Table(Offsets(headerSize, items));
    assert items[0..] == items;
    ResumedLaws([], [], table);
    while i < |items|
      invariant 0 <= i <= |items|
      invariant offset + |Concat(items[i..])| == headerSize + |Concat(items)|
      invariant table == Resumed(offsets, U32Table(Offsets(offset, items[i..])))
    {
      assert items[i..] == [items[i]] + items[i + 1..];
      TableStep(offsets, offset, items[i], items[i + 1..]);
      var entry := U32(offset);
      if entry.Err? {
        return entry;
      }
      offsets := offsets + entry.value;
      offset := offset + |items[i]|;
      i := i + 1;
    }
    ResumedLaws(offsets, [], Ok([]));
    var total := U32(offset);
    r := if total.Err? then total else Ok(total.value + offsets + Concat(items));
  }

  /** One of the `for ... append` loops of `raw_transaction_bytes`. */
  method CollectLoop<A>(encode: A -> Encoded, items: seq<A>) returns (r: Result<seq<Bytes>, Error>)
    ensures r == Collect(encode, items)
  {
    var done: seq<Bytes> := [];
    var i := 0;
    assert items[0..] == items;
    ResumedLaws([], [], Collect(encode, items));
    while i < |items|
      invariant 0 <= i <= |items|
      invariant Collect(encode, items) == Resumed(done, Collect(encode, items[i..]))
    {
      assert items[i..][0] == items[i] && items[i..][1..] == items[i + 1..];
      var bytes := encode(items[i]);
      if bytes.Err? {
        return Err(bytes.error);
      }
      ResumedLaws(done, [bytes.value], Collect(encode, items[i + 1..]));
      done := done + [bytes.value];
      i := i + 1;
    }
    ResumedLaws(done, [], Ok([]));
    r := Ok(done);
  }

  method EncodeTransaction(tx: Transaction) returns (r: Encoded)
    ensures r == RawTransactionBytes(tx)
  {
    var cellDeps := CollectLoop(CellDepBytes, tx.cellDeps);
    if cellDeps.Err? { return Err(cellDeps.error); }
    var inputs := CollectLoop(InputBytes, tx.inputs);
    if inputs.Err? { return Err(inputs.error); }
    var outputs := CollectLoop(OutputBytes, tx.outputs);
    if outputs.Err? { return Err(outputs.error); }
    var number :- Number(tx.version);
    var version :- U32(number);
    var cellDepsVec :- Fixvec(cellDeps.value);
    var headerDeps := CollectLoop(Hash32Bytes, tx.headerDeps);
    if headerDeps.Err? { return Err(headerDeps.error); }
    var headerDepsVec :- Fixvec(headerDeps.value);
    var inputsVec :- Fixvec(inputs.value);
    var outputsVec := EncodeDynvec(outputs.value);
    if outputsVec.Err? { return outputsVec; }
    var outputsData := CollectLoop(MoleculeBytes, tx.outputsData);
    if outputsData.Err? { return Err(outputsData.error); }
    var outputsDataVec := EncodeDynvec(outputsData.value);
    if outputsDataVec.Err? { return outputsDataVec; }
    r := EncodeDynvec([version, cellDepsVec, headerDepsVec, inputsVec,
                       outputsVec.value, outputsDataVec.value]);
  }
}
