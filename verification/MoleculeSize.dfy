/** When encoding a raw transaction succeeds, and how long the result is. */
module MoleculeSize {
  import opened Wrappers
  import opened LittleEndian
  import opened Molecule
  import opened MoleculeDecoder

  // ----- sizes and well-formedness, stated without the encoder -------------------------------

  function Sum<A>(size: A -> nat, values: seq<A>): nat {
    if values == [] then 0 else size(values[0]) + Sum(size, values[1..])
  }

  /** Total size, offset table and items; an empty dynvec is its total size alone. */
  function DynvecSize(count: nat, body: nat): nat {
    4 + 4 * count + body
  }

  function ScriptSize(script: Script): nat {
    DynvecSize(3, 32 + 1 + (4 + |script.args|))
  }

  function OutputSize(output: CellOutput): nat {
    DynvecSize(3, 8 + ScriptSize(output.lock)
                  + if output.typeScript.Some? then ScriptSize(output.typeScript.value) else 0)
  }

  function DataSize(raw: Bytes): nat {
    4 + |raw|
  }

  function CellDepSize(dep: CellDep): nat {
    37
  }

  function HashSize(hash: Bytes): nat {
    32
  }

  function InputSize(input: CellInput): nat {
    44
  }

  function TransactionSize(tx: Transaction): nat {
    DynvecSize(6, 4
                  + (4 + 37 * |tx.cellDeps|)
                  + (4 + 32 * |tx.headerDeps|)
                  + (4 + 44 * |tx.inputs|)
                  + DynvecSize(|tx.outputs|, Sum(OutputSize, tx.outputs))
                  + DynvecSize(|tx.outputsData|, Sum(DataSize, tx.outputsData)))
  }

  predicate GoodScript(script: Script) {
    |script.codeHash| == 32 && script.hashType in {"data", "type", "data1", "data2"}
  }

  predicate GoodOutPoint(outPoint: OutPoint) {
    |outPoint.txHash| == 32 && 0 <= outPoint.index < U32_LIMIT
  }

  predicate GoodCellDep(dep: CellDep) {
    dep.depType in {"code", "dep_group"} && GoodOutPoint(dep.outPoint)
  }

  predicate GoodInput(input: CellInput) {
    0 <= input.since < U64_LIMIT && GoodOutPoint(input.previousOutput)
  }

  predicate GoodOutput(output: CellOutput) {
    && 0 <= output.capacity < U64_LIMIT
    && GoodScript(output.lock)
    && (output.typeScript.Some? ==> GoodScript(output.typeScript.value))
  }

  predicate GoodHash(hash: Bytes) {
    |hash| == 32
  }

  predicate GoodData(raw: Bytes) {
    true
  }

  ghost predicate Every<A>(good: A -> bool, values: seq<A>) {
    forall i :: 0 <= i < |values| ==> good(values[i])
  }

  ghost predicate GoodTransaction(tx: Transaction) {
    && 0 <= tx.version < U32_LIMIT
    && Every(GoodCellDep, tx.cellDeps)
    && Every(GoodHash, tx.headerDeps)
    && Every(GoodInput, tx.inputs)
    && Every(GoodOutput, tx.outputs)
  }

  // ----- layouts ----------------------------------------------------------------------------

  lemma {:induction false} TableFits(start: nat, items: seq<Bytes>)
    ensures items != [] && U32Table(Offsets(start, items)).Ok? ==> start < U32_LIMIT
    ensures start + |Concat(items)| < U32_LIMIT ==> U32Table(Offsets(start, items)).Ok?
    decreases items
  {
    if items != [] {
      TableFits(start + |items[0]|, items[1..]);
      assert Offsets(start, items)[1..] == Offsets(start + |items[0]|, items[1..]);
    }
  }

  lemma {:induction false} DynvecFits(items: seq<Bytes>)
    ensures Dynvec(items).Ok? <==> DynvecSize(|items|, |Concat(items)|) < U32_LIMIT
    ensures Dynvec(items).Ok? ==> |Dynvec(items).value| == DynvecSize(|items|, |Concat(items)|)
  {
    if items != [] {
      var header := 4 + 4 * |items|;
      TableFits(header, items);
      var table := U32Table(Offsets(header, items));
      if table.Ok? {
        U32TableInverse(Offsets(header, items), table.value);
      }
    }
  }

  lemma ConcatThree(a: Bytes, b: Bytes, c: Bytes)
    ensures |Concat([a, b, c])| == |a| + |b| + |c|
  {
    assert Concat([c]) == c + Concat([]);
    assert [b, c][1..] == [c];
    assert [a, b, c][1..] == [b, c];
  }

  lemma ConcatSix(a: Bytes, b: Bytes, c: Bytes, d: Bytes, e: Bytes, f: Bytes)
    ensures |Concat([a, b, c, d, e, f])| == |a| + |b| + |c| + |d| + |e| + |f|
  {
    ConcatThree(d, e, f);
    assert [c, d, e, f][1..] == [d, e, f];
    assert |Concat([c, d, e, f])| == |c| + |Concat([d, e, f])|;
    assert [b, c, d, e, f][1..] == [c, d, e, f];
    assert |Concat([b, c, d, e, f])| == |b| + |Concat([c, d, e, f])|;
    assert [a, b, c, d, e, f][1..] == [b, c, d, e, f];
  }

  lemma ScriptFits(script: Script)
    ensures ScriptBytes(script).Ok? <==> GoodScript(script) && ScriptSize(script) < U32_LIMIT
    ensures ScriptBytes(script).Ok? ==> |ScriptBytes(script).value| == ScriptSize(script)
  {
    if GoodScript(script) && |script.args| < U32_LIMIT {
      var fields := [script.codeHash, [HashTypeByte(script.hashType).value], MoleculeBytes(script.args).value];
      ConcatThree(fields[0], fields[1], fields[2]);
      DynvecFits(fields);
    }
  }

  lemma OutputFits(output: CellOutput)
    ensures OutputBytes(output).Ok? <==> GoodOutput(output) && OutputSize(output) < U32_LIMIT
    ensures OutputBytes(output).Ok? ==> |OutputBytes(output).value| == OutputSize(output)
  {
    ScriptFits(output.lock);
    if output.typeScript.Some? {
      ScriptFits(output.typeScript.value);
    }
    if GoodOutput(output) && ScriptBytes(output.lock).Ok? && TypeScriptBytes(output.typeScript).Ok? {
      var fields := [U64(output.capacity).value, ScriptBytes(output.lock).value,
                     TypeScriptBytes(output.typeScript).value];
      ConcatThree(fields[0], fields[1], fields[2]);
      DynvecFits(fields);
    }
  }

  // ----- lists ------------------------------------------------------------------------------

  /** A good value whose encoding stays below 2^32 bytes encodes, and only good values do. */
  ghost predicate Fits<A(!new)>(encode: A -> Encoded, good: A -> bool, size: A -> nat) {
    forall a :: && (encode(a).Ok? ==> good(a) && |encode(a).value| == size(a))
                && (good(a) && size(a) < U32_LIMIT ==> encode(a).Ok?)
  }

  ghost predicate Measured(items: seq<Bytes>, count: nat, total: nat) {
    |items| == count && |Concat(items)| == total
  }

  lemma {:induction false} CollectFits<A(!new)>(encode: A -> Encoded, good: A -> bool, size: A -> nat, values: seq<A>)
    requires Fits(encode, good, size)
    ensures Collect(encode, values).Ok? ==> Every(good, values)
    ensures Every(good, values) && Sum(size, values) < U32_LIMIT ==> Collect(encode, values).Ok?
    ensures Collect(encode, values).Ok? ==>
              Measured(Collect(encode, values).value, |values|, Sum(size, values))
  {
    if values != [] {
      CollectFits(encode, good, size, values[1..]);
      assert values == [values[0]] + values[1..];
      if Collect(encode, values).Ok? {
        assert Collect(encode, values).value[1..] == Collect(encode, values[1..]).value;
      }
      assert encode(values[0]).Ok? ==> good(values[0]);
      if Every(good, values) && Sum(size, values) < U32_LIMIT {
        assert good(values[0]);
        assert Every(good, values[1..]);
        assert encode(values[0]).Ok?;
      }
    }
  }

  lemma PartsFit()
    ensures Fits(CellDepBytes, GoodCellDep, CellDepSize)
    ensures Fits(Hash32Bytes, GoodHash, HashSize)
    ensures Fits(InputBytes, GoodInput, InputSize)
    ensures Fits(OutputBytes, GoodOutput, OutputSize)
    ensures Fits(MoleculeBytes, GoodData, DataSize)
  {
    forall o ensures && (OutputBytes(o).Ok? ==> GoodOutput(o) && |OutputBytes(o).value| == OutputSize(o))
                     && (GoodOutput(o) && OutputSize(o) < U32_LIMIT ==> OutputBytes(o).Ok?)
    {
      OutputFits(o);
    }
  }

  lemma {:induction false} SumConst<A>(size: A -> nat, values: seq<A>, each: nat)
    requires forall a :: size(a) == each
    ensures Sum(size, values) == each * |values|
  {
    if values != [] {
      SumConst(size, values[1..], each);
    }
  }

  // ----- main result ------------------------------------------------------------------------

  lemma ListsFit(tx: Transaction)
    ensures GoodTransaction(tx) && TransactionSize(tx) < U32_LIMIT ==> ListsEncode(tx)
    ensures ListsEncode(tx) ==> ListsMeasured(tx)
    ensures ListsEncode(tx) && 0 <= tx.version < U32_LIMIT ==> GoodTransaction(tx)
  {
    PartsFit();
    CollectFits(CellDepBytes, GoodCellDep, CellDepSize, tx.cellDeps);
    CollectFits(Hash32Bytes, GoodHash, HashSize, tx.headerDeps);
    CollectFits(InputBytes, GoodInput, InputSize, tx.inputs);
    CollectFits(OutputBytes, GoodOutput, OutputSize, tx.outputs);
    CollectFits(MoleculeBytes, GoodData, DataSize, tx.outputsData);
    SumConst(CellDepSize, tx.cellDeps, 37);
    SumConst(HashSize, tx.headerDeps, 32);
    SumConst(InputSize, tx.inputs, 44);
  }

  ghost predicate ListsEncode(tx: Transaction) {
    && Collect(CellDepBytes, tx.cellDeps).Ok?
    && Collect(Hash32Bytes, tx.headerDeps).Ok?
    && Collect(InputBytes, tx.inputs).Ok?
    && Collect(OutputBytes, tx.outputs).Ok?
    && Collect(MoleculeBytes, tx.outputsData).Ok?
  }

  ghost predicate ListsMeasured(tx: Transaction)
    requires ListsEncode(tx)
  {
    && Measured(Collect(CellDepBytes, tx.cellDeps).value, |tx.cellDeps|, 37 * |tx.cellDeps|)
    && Measured(Collect(Hash32Bytes, tx.headerDeps).value, |tx.headerDeps|, 32 * |tx.headerDeps|)
    && Measured(Collect(InputBytes, tx.inputs).value, |tx.inputs|, 44 * |tx.inputs|)
    && Measured(Collect(OutputBytes, tx.outputs).value, |tx.outputs|, Sum(OutputSize, tx.outputs))
    && Measured(Collect(MoleculeBytes, tx.outputsData).value, |tx.outputsData|, Sum(DataSize, tx.outputsData))
  }

  lemma {:induction false} FixvecFits(items: seq<Bytes>)
    ensures Fixvec(items).Ok? <==> |items| < U32_LIMIT
    ensures Fixvec(items).Ok? ==> |Fixvec(items).value| == 4 + |Concat(items)|
  {
  }

  /**
   Encoding fails only for a malformed part or when the whole would not fit a 32-bit size,
   and the sizes written in the headers are exact.
   */
  lemma {:induction false} TransactionFits(tx: Transaction)
    ensures RawTransactionBytes(tx).Ok? <==> GoodTransaction(tx) && TransactionSize(tx) < U32_LIMIT
    ensures RawTransactionBytes(tx).Ok? ==> |RawTransactionBytes(tx).value| == TransactionSize(tx)
  {
    ListsFit(tx);
    if ListsEncode(tx) && 0 <= tx.version < U32_LIMIT {
      FieldsFit(tx);
    }
  }

  lemma FieldsFit(tx: Transaction)
    requires ListsEncode(tx) && ListsMeasured(tx) && 0 <= tx.version < U32_LIMIT
    ensures RawTransactionBytes(tx).Ok? <==> TransactionSize(tx) < U32_LIMIT
    ensures RawTransactionBytes(tx).Ok? ==> |RawTransactionBytes(tx).value| == TransactionSize(tx)
  {
    hide Fixvec, Dynvec, Collect;
    var cellDeps := Collect(CellDepBytes, tx.cellDeps).value;
    var headerDeps := Collect(Hash32Bytes, tx.headerDeps).value;
    var inputs := Collect(InputBytes, tx.inputs).value;
    var outputs := Collect(OutputBytes, tx.outputs).value;
    var outputsData := Collect(MoleculeBytes, tx.outputsData).value;
    FixvecFits(cellDeps);
    FixvecFits(headerDeps);
    FixvecFits(inputs);
    DynvecFits(outputs);
    DynvecFits(outputsData);
    if && Fixvec(cellDeps).Ok? && Fixvec(headerDeps).Ok? && Fixvec(inputs).Ok?
       && Dynvec(outputs).Ok? && Dynvec(outputsData).Ok?
    {
      var fields := [U32(tx.version).value, Fixvec(cellDeps).value, Fixvec(headerDeps).value,
                     Fixvec(inputs).value, Dynvec(outputs).value, Dynvec(outputsData).value];
      ConcatSix(fields[0], fields[1], fields[2], fields[3], fields[4], fields[5]);
      DynvecFits(fields);
    }
  }
}
