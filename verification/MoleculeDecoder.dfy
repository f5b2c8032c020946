/**
 A strict decoder for raw transactions, written from the layouts of Nervos CKB RFC 0008,
 and the proof that it is the two-sided inverse of the encoder.
 */
module MoleculeDecoder {
  import opened Wrappers
  import opened LittleEndian
  import opened Molecule

  // ----- decoder ----------------------------------------------------------------------------

  function ReadU32s(bytes: Bytes): (values: seq<nat>)
    requires |bytes| % 4 == 0
    ensures 4 * |values| == |bytes|
  {
    if bytes == [] then [] else [LittleEndian.Decode(bytes[..4])] + ReadU32s(bytes[4..])
  }

  predicate Ascending(offsets: seq<nat>) {
    |offsets| < 2 || (offsets[0] <= offsets[1] && Ascending(offsets[1..]))
  }

  function Last(offsets: seq<nat>): nat
    requires offsets != []
  {
    offsets[|offsets| - 1]
  }

  lemma {:induction false} AscendingBounds(offsets: seq<nat>)
    requires offsets != [] && Ascending(offsets)
    ensures offsets[0] <= Last(offsets)
  {
    if |offsets| > 1 {
      AscendingBounds(offsets[1..]);
    }
  }

  /** The items between consecutive offsets; the last offset closes the last item. */
  function Cut(bytes: Bytes, offsets: seq<nat>): (items: seq<Bytes>)
    requires offsets != [] && Ascending(offsets) && Last(offsets) <= |bytes|
    ensures |items| == |offsets| - 1
  {
    if |offsets| == 1 then []
    else
      AscendingBounds(offsets[1..]);
      [bytes[offsets[0]..offsets[1]]] + Cut(bytes, offsets[1..])
  }

  function DecodeDynvec(bytes: Bytes): Option<seq<Bytes>> {
    if |bytes| < 4 || LittleEndian.Decode(bytes[..4]) != |bytes| then None
    else if |bytes| == 4 then Some([])
    else if |bytes| < 8 then None
    else
      var first := LittleEndian.Decode(bytes[4..8]);
      if first < 8 || first % 4 != 0 || first > |bytes| then None
      else
        var offsets := ReadU32s(bytes[4..first]) + [|bytes|];
        if Ascending(offsets) then Some(Cut(bytes, offsets)) else None
  }

  /** Splits into pieces of exactly `size` bytes. */
  function Pieces(bytes: Bytes, size: nat): Option<seq<Bytes>>
    requires size > 0
  {
    if bytes == [] then Some([])
    else if |bytes| < size then None
    else
      var rest :- Pieces(bytes[size..], size);
      Some([bytes[..size]] + rest)
  }

  function DecodeFixvec(bytes: Bytes, size: nat): Option<seq<Bytes>>
    requires size > 0
  {
    if |bytes| < 4 then None
    else
      var items :- Pieces(bytes[4..], size);
      if LittleEndian.Decode(bytes[..4]) == |items| then Some(items) else None
  }

  function DecodeMoleculeBytes(bytes: Bytes): Option<Bytes> {
    if |bytes| < 4 || LittleEndian.Decode(bytes[..4]) != |bytes| - 4 then None else Some(bytes[4..])
  }

  function HashTypeName(code: Byte): Option<string> {
    if code == 0 then Some("data")
    else if code == 1 then Some("type")
    else if code == 2 then Some("data1")
    else if code == 4 then Some("data2")
    else None
  }

  function DepTypeName(code: Byte): Option<string> {
    if code == 0 then Some("code") else if code == 1 then Some("dep_group") else None
  }

  function DecodeScript(bytes: Bytes): Option<Script> {
    var fields :- DecodeDynvec(bytes);
    if |fields| != 3 || |fields[0]| != 32 || |fields[1]| != 1 then None
    else
      var hashType :- HashTypeName(fields[1][0]);
      var args :- DecodeMoleculeBytes(fields[2]);
      Some(Script(fields[0], hashType, args))
  }

  function DecodeTypeScript(bytes: Bytes): Option<Option<Script>> {
    if bytes == [] then Some(None)
    else
      var script :- DecodeScript(bytes);
      Some(Some(script))
  }

  function DecodeOutPoint(bytes: Bytes): Option<OutPoint> {
    if |bytes| != 36 then None else Some(OutPoint(bytes[..32], LittleEndian.Decode(bytes[32..])))
  }

  function DecodeInput(bytes: Bytes): Option<CellInput> {
    if |bytes| != 44 then None
    else
      var outPoint :- DecodeOutPoint(bytes[8..]);
      Some(CellInput(LittleEndian.Decode(bytes[..8]), outPoint))
  }

  function DecodeCellDep(bytes: Bytes): Option<CellDep> {
    if |bytes| != 37 then None
    else
      var outPoint :- DecodeOutPoint(bytes[..36]);
      var depType :- DepTypeName(bytes[36]);
      Some(CellDep(outPoint, depType))
  }

  function DecodeHash32(bytes: Bytes): Option<Bytes> {
    if |bytes| == 32 then Some(bytes) else None
  }

  function DecodeOutput(bytes: Bytes): Option<CellOutput> {
    var fields :- DecodeDynvec(bytes);
    if |fields| != 3 || |fields[0]| != 8 then None
    else
      var lock :- DecodeScript(fields[1]);
      var typeScript :- DecodeTypeScript(fields[2]);
      Some(CellOutput(LittleEndian.Decode(fields[0]), lock, typeScript))
  }

  function DecodeAll<A>(decode: Bytes -> Option<A>, items: seq<Bytes>): Option<seq<A>> {
    if items == [] then Some([])
    else
      var first :- decode(items[0]);
      var rest :- DecodeAll(decode, items[1..]);
      Some([first] + rest)
  }

  function DecodeTransaction(bytes: Bytes): Option<Transaction> {
    var fields :- DecodeDynvec(bytes);
    if |fields| != 6 || |fields[0]| != 4 then None
    else
      var cellDepItems :- DecodeFixvec(fields[1], 37);
      var cellDeps :- DecodeAll(DecodeCellDep, cellDepItems);
      var headerDepItems :- DecodeFixvec(fields[2], 32);
      var headerDeps :- DecodeAll(DecodeHash32, headerDepItems);
      var inputItems :- DecodeFixvec(fields[3], 44);
      var inputs :- DecodeAll(DecodeInput, inputItems);
      var outputItems :- DecodeDynvec(fields[4]);
      var outputs :- DecodeAll(DecodeOutput, outputItems);
      var dataItems :- DecodeDynvec(fields[5]);
      var outputsData :- DecodeAll(DecodeMoleculeBytes, dataItems);
      Some(Transaction(LittleEndian.Decode(fields[0]), cellDeps, headerDeps, inputs, outputs, outputsData))
  }

  // ----- primitive layouts are inverted -----------------------------------------------------

  lemma {:induction false} U32Inverse(value: int, bytes: Bytes)
    ensures U32(value) == Ok(bytes) <==> |bytes| == 4 && value == LittleEndian.Decode(bytes)
  {
    Capacities();
    if 0 <= value < U32_LIMIT {
      DecodeEncode(value, 4);
    }
    EncodeDecode(bytes);
  }

  lemma {:induction false} U64Inverse(value: int, bytes: Bytes)
    ensures U64(value) == Ok(bytes) <==> |bytes| == 8 && value == LittleEndian.Decode(bytes)
  {
    Capacities();
    if 0 <= value < U64_LIMIT {
      DecodeEncode(value, 8);
    }
    EncodeDecode(bytes);
  }

  lemma {:induction false} U32TableInverse(values: seq<nat>, bytes: Bytes)
    ensures U32Table(values) == Ok(bytes) <==> |bytes| % 4 == 0 && ReadU32s(bytes) == values
    decreases |values|, |bytes|
  {
    if values != [] {
      if U32Table(values) == Ok(bytes) {
        var first, rest := U32(values[0]).value, U32Table(values[1..]).value;
        U32Inverse(values[0], first);
        U32TableInverse(values[1..], rest);
        assert bytes[..4] == first && bytes[4..] == rest;
      }
      if |bytes| % 4 == 0 && ReadU32s(bytes) == values {
        U32Inverse(values[0], bytes[..4]);
        assert ReadU32s(bytes)[1..] == ReadU32s(bytes[4..]);
        U32TableInverse(values[1..], bytes[4..]);
        assert bytes == bytes[..4] + bytes[4..];
      }
    }
  }

  /** Cutting a header followed by items at their offsets gives the items back. */
  lemma {:induction false} CutOfOffsets(header: Bytes, items: seq<Bytes>)
    ensures var bytes := header + Concat(items);
            var offsets := Offsets(|header|, items) + [|bytes|];
            Ascending(offsets) && Last(offsets) == |bytes| && Cut(bytes, offsets) == items
    decreases items
  {
    var bytes := header + Concat(items);
    var offsets := Offsets(|header|, items) + [|bytes|];
    if items == [] {
    } else {
      var header' := header + items[0];
      CutOfOffsets(header', items[1..]);
      assert header' + Concat(items[1..]) == bytes;
      assert offsets[1..] == Offsets(|header'|, items[1..]) + [|bytes|];
      assert bytes[|header|..|header'|] == items[0];
      assert items == [items[0]] + items[1..];
    }
  }

  /** Conversely, items that were cut have the offsets they were cut at. */
  lemma {:induction false} OffsetsOfCut(bytes: Bytes, offsets: seq<nat>)
    requires offsets != [] && Ascending(offsets) && Last(offsets) == |bytes|
    ensures offsets[0] <= |bytes|
    ensures Offsets(offsets[0], Cut(bytes, offsets)) == offsets[..|offsets| - 1]
    ensures Concat(Cut(bytes, offsets)) == bytes[offsets[0]..]
  {
    AscendingBounds(offsets);
    if |offsets| > 1 {
      var rest := offsets[1..];
      OffsetsOfCut(bytes, rest);
      AscendingBounds(rest);
      var items := Cut(bytes, offsets);
      assert items[1..] == Cut(bytes, rest);
      assert [offsets[0]] + rest[..|rest| - 1] == offsets[..|offsets| - 1];
      assert bytes[offsets[0]..offsets[1]] + bytes[offsets[1]..] == bytes[offsets[0]..];
    }
  }

  lemma {:induction false} TableStart(offsets: seq<nat>, table: Bytes)
    requires offsets != [] && U32Table(offsets) == Ok(table)
    ensures |table| == 4 * |offsets| && LittleEndian.Decode(table[..4]) == offsets[0]
    ensures ReadU32s(table) == offsets
  {
    U32TableInverse(offsets, table);
  }

  lemma DynvecParts(items: seq<Bytes>, bytes: Bytes) returns (total: Bytes, table: Bytes)
    requires items != [] && Dynvec(items) == Ok(bytes)
    ensures U32Table(Offsets(4 + 4 * |items|, items)) == Ok(table)
    ensures U32(4 + 4 * |items| + |Concat(items)|) == Ok(total)
    ensures bytes == total + table + Concat(items)
  {
    hide U32, U32Table, Offsets, Concat;
    table := U32Table(Offsets(4 + 4 * |items|, items)).value;
    total := U32(4 + 4 * |items| + |Concat(items)|).value;
  }

  lemma NoItemsDecode(bytes: Bytes)
    requires Dynvec([]) == Ok(bytes)
    ensures DecodeDynvec(bytes) == Some([])
  {
    U32Inverse(4, bytes);
    assert bytes[..4] == bytes;
  }

  lemma {:induction false} DynvecDecodes(items: seq<Bytes>, bytes: Bytes)
    requires Dynvec(items) == Ok(bytes)
    ensures DecodeDynvec(bytes) == Some(items)
  {
    hide DecodeDynvec, Dynvec, ReadU32s, Concat, U32, U32Table, LittleEndian.Decode;
    if items == [] {
      NoItemsDecode(bytes);
    } else {
      var total, table := DynvecParts(items, bytes);
      var offsets := Offsets(4 + 4 * |items|, items);
      TableStart(offsets, table);
      U32Inverse(4 + 4 * |items| + |Concat(items)|, total);
      DecodeParts(total, table, items);
    }
  }

  lemma {:induction false} DecodeParts(total: Bytes, table: Bytes, items: seq<Bytes>)
    requires items != [] && |total| == 4 && |table| == 4 * |items|
    requires ReadU32s(table) == Offsets(4 + |table|, items)
    requires LittleEndian.Decode(table[..4]) == 4 + |table|
    requires LittleEndian.Decode(total) == 4 + |table| + |Concat(items)|
    ensures DecodeDynvec(total + table + Concat(items)) == Some(items)
  {
    var bytes := total + table + Concat(items);
    assert bytes[..4] == total;
    assert bytes[4..8] == table[..4];
    assert bytes[4..4 + |table|] == table;
    CutOfOffsets(total + table, items);
  }

  /** A dynvec is its total size, the table of offsets that the items have, and the items. */
  lemma {:induction false} EncodeParts(total: Bytes, table: Bytes, items: seq<Bytes>)
    requires items != [] && |total| == 4 && |table| == 4 * |items|
    requires ReadU32s(table) == Offsets(4 + |table|, items)
    requires LittleEndian.Decode(total) == 4 + |table| + |Concat(items)|
    ensures Dynvec(items) == Ok(total + table + Concat(items))
  {
    hide ReadU32s, Offsets, Concat, U32, U32Table, LittleEndian.Decode;
    U32TableInverse(Offsets(4 + |table|, items), table);
    U32Inverse(4 + |table| + |Concat(items)|, total);
  }

  /** What decoding to some items says about the bytes. */
  lemma DecodedParts(items: seq<Bytes>, bytes: Bytes) returns (total: Bytes, table: Bytes, rest: Bytes)
    requires |bytes| != 4 && DecodeDynvec(bytes) == Some(items)
    ensures bytes == total + table + rest
    ensures |total| == 4 && LittleEndian.Decode(total) == |bytes|
    ensures |table| >= 4 && |table| % 4 == 0 && LittleEndian.Decode(table[..4]) == 4 + |table|
    ensures var offsets := ReadU32s(table) + [|bytes|]; Ascending(offsets) && Cut(bytes, offsets) == items
  {
    hide LittleEndian.Decode, ReadU32s, Ascending, Cut;
    var first := LittleEndian.Decode(bytes[4..8]);
    total, table, rest := bytes[..4], bytes[4..first], bytes[first..];
    assert table[..4] == bytes[4..8];
  }

  lemma FirstOffset(table: Bytes)
    requires |table| >= 4 && |table| % 4 == 0
    ensures ReadU32s(table) != [] && ReadU32s(table)[0] == LittleEndian.Decode(table[..4])
  {
  }

  lemma FourBytes(items: seq<Bytes>, bytes: Bytes)
    requires |bytes| == 4 && DecodeDynvec(bytes) == Some(items)
    ensures Dynvec(items) == Ok(bytes)
  {
    assert bytes[..4] == bytes;
    U32Inverse(4, bytes);
  }

  lemma {:induction false} DynvecEncodes(items: seq<Bytes>, bytes: Bytes)
    requires DecodeDynvec(bytes) == Some(items)
    ensures Dynvec(items) == Ok(bytes)
  {
    hide DecodeDynvec, Dynvec, ReadU32s, Offsets, Concat, Ascending, Cut, LittleEndian.Decode;
    if |bytes| == 4 {
      FourBytes(items, bytes);
    } else {
      var total, table, rest := DecodedParts(items, bytes);
      var offsets := ReadU32s(table) + [|bytes|];
      FirstOffset(table);
      OffsetsOfCut(bytes, offsets);
      assert offsets[..|offsets| - 1] == ReadU32s(table);
      assert bytes[offsets[0]..] == rest;
      EncodeParts(total, table, items);
    }
  }

  lemma {:induction false} DynvecInverse(items: seq<Bytes>, bytes: Bytes)
    ensures Dynvec(items) == Ok(bytes) <==> DecodeDynvec(bytes) == Some(items)
  {
    if Dynvec(items) == Ok(bytes) {
      DynvecDecodes(items, bytes);
    }
    if DecodeDynvec(bytes) == Some(items) {
      DynvecEncodes(items, bytes);
    }
  }

  ghost predicate AllOfSize(items: seq<Bytes>, size: nat) {
    forall i :: 0 <= i < |items| ==> |items[i]| == size
  }

  lemma {:induction false} PiecesInverse(items: seq<Bytes>, bytes: Bytes, size: nat)
    requires size > 0
    ensures AllOfSize(items, size) && Concat(items) == bytes <==> Pieces(bytes, size) == Some(items)
    decreases |items|, |bytes|
  {
    if items == [] {
    } else {
      if AllOfSize(items, size) && Concat(items) == bytes {
        assert bytes[..size] == items[0] && bytes[size..] == Concat(items[1..]);
        PiecesInverse(items[1..], bytes[size..], size);
        assert items == [items[0]] + items[1..];
      }
      if Pieces(bytes, size) == Some(items) {
        assert items[1..] == Pieces(bytes[size..], size).value;
        PiecesInverse(items[1..], bytes[size..], size);
        assert bytes == bytes[..size] + bytes[size..];
        forall i | 0 <= i < |items| ensures |items[i]| == size {
          assert i > 0 ==> items[i] == items[1..][i - 1];
        }
      }
    }
  }

  lemma {:induction false} FixvecInverse(items: seq<Bytes>, bytes: Bytes, size: nat)
    requires size > 0
    ensures AllOfSize(items, size) && Fixvec(items) == Ok(bytes) <==> DecodeFixvec(bytes, size) == Some(items)
  {
    if AllOfSize(items, size) && Fixvec(items) == Ok(bytes) {
      U32Inverse(|items|, U32(|items|).value);
      assert bytes[..4] == U32(|items|).value && bytes[4..] == Concat(items);
      PiecesInverse(items, bytes[4..], size);
    }
    if DecodeFixvec(bytes, size) == Some(items) {
      PiecesInverse(items, bytes[4..], size);
      U32Inverse(|items|, bytes[..4]);
      assert bytes == bytes[..4] + bytes[4..];
    }
  }

  lemma {:induction false} MoleculeBytesInverse(raw: Bytes, bytes: Bytes)
    ensures MoleculeBytes(raw) == Ok(bytes) <==> DecodeMoleculeBytes(bytes) == Some(raw)
  {
    if MoleculeBytes(raw) == Ok(bytes) {
      U32Inverse(|raw|, U32(|raw|).value);
      assert bytes[..4] == U32(|raw|).value && bytes[4..] == raw;
    }
    if DecodeMoleculeBytes(bytes) == Some(raw) {
      U32Inverse(|raw|, bytes[..4]);
      assert bytes == bytes[..4] + bytes[4..];
    }
  }

  // ----- transaction parts are inverted -----------------------------------------------------

  /** `encode` and `decode` are inverse to each other. */
  ghost predicate Inverse<A(!new)>(encode: A -> Encoded, decode: Bytes -> Option<A>) {
    forall a, bytes :: encode(a) == Ok(bytes) <==> decode(bytes) == Some(a)
  }

  lemma {:induction false} ScriptInverse(script: Script, bytes: Bytes)
    ensures ScriptBytes(script) == Ok(bytes) <==> DecodeScript(bytes) == Some(script)
    ensures ScriptBytes(script).Ok? ==> ScriptBytes(script).value != []
  {
    if ScriptBytes(script).Ok? {
      var args := MoleculeBytes(script.args).value;
      MoleculeBytesInverse(script.args, args);
      DynvecInverse([script.codeHash, [HashTypeByte(script.hashType).value], args], ScriptBytes(script).value);
    }
    if DecodeScript(bytes) == Some(script) {
      var fields := DecodeDynvec(bytes).value;
      DynvecInverse(fields, bytes);
      MoleculeBytesInverse(script.args, fields[2]);
      assert fields[1] == [fields[1][0]];
      assert fields == [fields[0], fields[1], fields[2]];
    }
  }

  /** An absent type script is told apart from every present one. */
  lemma {:induction false} TypeScriptInverse(typeScript: Option<Script>, bytes: Bytes)
    ensures TypeScriptBytes(typeScript) == Ok(bytes) <==> DecodeTypeScript(bytes) == Some(typeScript)
  {
    if typeScript.Some? {
      ScriptInverse(typeScript.value, bytes);
    }
  }

  lemma {:induction false} OutPointInverse(outPoint: OutPoint, bytes: Bytes)
    ensures OutPointBytes(outPoint) == Ok(bytes) <==> DecodeOutPoint(bytes) == Some(outPoint)
  {
    if OutPointBytes(outPoint) == Ok(bytes) {
      var index := U32(outPoint.index).value;
      U32Inverse(outPoint.index, index);
      assert bytes[..32] == outPoint.txHash && bytes[32..] == index;
    }
    if DecodeOutPoint(bytes) == Some(outPoint) {
      U32Inverse(outPoint.index, bytes[32..]);
      assert bytes == bytes[..32] + bytes[32..];
    }
  }

  lemma {:induction false} InputInverse(input: CellInput, bytes: Bytes)
    ensures InputBytes(input) == Ok(bytes) <==> DecodeInput(bytes) == Some(input)
    ensures InputBytes(input).Ok? ==> |InputBytes(input).value| == 44
  {
    if InputBytes(input).Ok? {
      var since, outPoint := U64(input.since).value, OutPointBytes(input.previousOutput).value;
      U64Inverse(input.since, since);
      OutPointInverse(input.previousOutput, outPoint);
      assert (since + outPoint)[..8] == since && (since + outPoint)[8..] == outPoint;
    }
    if DecodeInput(bytes) == Some(input) {
      U64Inverse(input.since, bytes[..8]);
      OutPointInverse(input.previousOutput, bytes[8..]);
      assert bytes == bytes[..8] + bytes[8..];
    }
  }

  lemma {:induction false} CellDepInverse(dep: CellDep, bytes: Bytes)
    ensures CellDepBytes(dep) == Ok(bytes) <==> DecodeCellDep(bytes) == Some(dep)
    ensures CellDepBytes(dep).Ok? ==> |CellDepBytes(dep).value| == 37
  {
    if CellDepBytes(dep).Ok? {
      var outPoint := OutPointBytes(dep.outPoint).value;
      OutPointInverse(dep.outPoint, outPoint);
      assert CellDepBytes(dep).value[..36] == outPoint;
    }
    if DecodeCellDep(bytes) == Some(dep) {
      OutPointInverse(dep.outPoint, bytes[..36]);
      assert bytes == bytes[..36] + [bytes[36]];
    }
  }

  lemma {:induction false} OutputInverse(output: CellOutput, bytes: Bytes)
    ensures OutputBytes(output) == Ok(bytes) <==> DecodeOutput(bytes) == Some(output)
  {
    if OutputBytes(output) == Ok(bytes) {
      var fields := [U64(output.capacity).value, ScriptBytes(output.lock).value,
                     TypeScriptBytes(output.typeScript).value];
      DynvecInverse(fields, bytes);
      U64Inverse(output.capacity, fields[0]);
      ScriptInverse(output.lock, fields[1]);
      TypeScriptInverse(output.typeScript, fields[2]);
    }
    if DecodeOutput(bytes) == Some(output) {
      var fields := DecodeDynvec(bytes).value;
      DynvecInverse(fields, bytes);
      U64Inverse(output.capacity, fields[0]);
      ScriptInverse(output.lock, fields[1]);
      TypeScriptInverse(output.typeScript, fields[2]);
      assert fields == [fields[0], fields[1], fields[2]];
    }
  }

  lemma PartsAreInverse()
    ensures Inverse(CellDepBytes, DecodeCellDep)
    ensures Inverse(Hash32Bytes, DecodeHash32)
    ensures Inverse(InputBytes, DecodeInput)
    ensures Inverse(OutputBytes, DecodeOutput)
    ensures Inverse(MoleculeBytes, DecodeMoleculeBytes)
  {
    forall a, bytes ensures CellDepBytes(a) == Ok(bytes) <==> DecodeCellDep(bytes) == Some(a) {
      CellDepInverse(a, bytes);
    }
    forall a, bytes ensures InputBytes(a) == Ok(bytes) <==> DecodeInput(bytes) == Some(a) {
      InputInverse(a, bytes);
    }
    forall a, bytes ensures OutputBytes(a) == Ok(bytes) <==> DecodeOutput(bytes) == Some(a) {
      OutputInverse(a, bytes);
    }
    forall a, bytes ensures MoleculeBytes(a) == Ok(bytes) <==> DecodeMoleculeBytes(bytes) == Some(a) {
      MoleculeBytesInverse(a, bytes);
    }
  }

  lemma {:induction false} CollectInverse<A(!new)>(encode: A -> Encoded, decode: Bytes -> Option<A>,
                                                   values: seq<A>, items: seq<Bytes>)
    requires Inverse(encode, decode)
    ensures Collect(encode, values) == Ok(items) <==> DecodeAll(decode, items) == Some(values)
    decreases |values|, |items|
  {
    if values == [] {
    } else if items != [] {
      CollectInverse(encode, decode, values[1..], items[1..]);
      assert encode(values[0]) == Ok(items[0]) <==> decode(items[0]) == Some(values[0]);
      if Collect(encode, values) == Ok(items) {
        assert Collect(encode, values[1..]).value == items[1..];
        assert values == [values[0]] + values[1..];
      }
      if DecodeAll(decode, items) == Some(values) {
        assert DecodeAll(decode, items[1..]).value == values[1..];
        assert items == [items[0]] + items[1..];
      }
    }
  }

  lemma {:induction false} CollectSizes<A(!new)>(encode: A -> Encoded, values: seq<A>, size: nat)
    requires forall a :: encode(a).Ok? ==> |encode(a).value| == size
    ensures Collect(encode, values).Ok? ==> AllOfSize(Collect(encode, values).value, size)
  {
    if values != [] {
      CollectSizes(encode, values[1..], size);
    }
  }

  // ----- main results -----------------------------------------------------------------------

  lemma {:induction false} TransactionDecodes(tx: Transaction, bytes: Bytes)
    requires RawTransactionBytes(tx) == Ok(bytes)
    ensures DecodeTransaction(bytes) == Some(tx)
  {
    hide Dynvec, DecodeDynvec, Fixvec, U32, Collect, CellDepBytes, Hash32Bytes, InputBytes, OutputBytes, MoleculeBytes,
         DecodeCellDep, DecodeHash32, DecodeInput, DecodeOutput, DecodeMoleculeBytes, LittleEndian.Decode;
    PartsAreInverse();
    var cellDeps := Collect(CellDepBytes, tx.cellDeps).value;
    var headerDeps := Collect(Hash32Bytes, tx.headerDeps).value;
    var inputs := Collect(InputBytes, tx.inputs).value;
    var outputs := Collect(OutputBytes, tx.outputs).value;
    var outputsData := Collect(MoleculeBytes, tx.outputsData).value;
    CollectInverse(CellDepBytes, DecodeCellDep, tx.cellDeps, cellDeps);
    CollectInverse(Hash32Bytes, DecodeHash32, tx.headerDeps, headerDeps);
    CollectInverse(InputBytes, DecodeInput, tx.inputs, inputs);
    CollectInverse(OutputBytes, DecodeOutput, tx.outputs, outputs);
    CollectInverse(MoleculeBytes, DecodeMoleculeBytes, tx.outputsData, outputsData);
    FixedSizes(tx);
    var fields := [U32(tx.version).value, Fixvec(cellDeps).value, Fixvec(headerDeps).value,
                   Fixvec(inputs).value, Dynvec(outputs).value, Dynvec(outputsData).value];
    U32Inverse(tx.version, fields[0]);
    FixvecInverse(cellDeps, fields[1], 37);
    FixvecInverse(headerDeps, fields[2], 32);
    FixvecInverse(inputs, fields[3], 44);
    DynvecInverse(outputs, fields[4]);
    DynvecInverse(outputsData, fields[5]);
    DynvecInverse(fields, bytes);
  }

  lemma FixedSizes(tx: Transaction)
    ensures Collect(CellDepBytes, tx.cellDeps).Ok? ==> AllOfSize(Collect(CellDepBytes, tx.cellDeps).value, 37)
    ensures Collect(Hash32Bytes, tx.headerDeps).Ok? ==> AllOfSize(Collect(Hash32Bytes, tx.headerDeps).value, 32)
    ensures Collect(InputBytes, tx.inputs).Ok? ==> AllOfSize(Collect(InputBytes, tx.inputs).value, 44)
  {
    forall a ensures CellDepBytes(a).Ok? ==> |CellDepBytes(a).value| == 37 {
      CellDepInverse(a, []);
    }
    forall a ensures InputBytes(a).Ok? ==> |InputBytes(a).value| == 44 {
      InputInverse(a, []);
    }
    CollectSizes(CellDepBytes, tx.cellDeps, 37);
    CollectSizes(Hash32Bytes, tx.headerDeps, 32);
    CollectSizes(InputBytes, tx.inputs, 44);
  }

  lemma {:induction false} TransactionEncodes(tx: Transaction, bytes: Bytes)
    requires DecodeTransaction(bytes) == Some(tx)
    ensures RawTransactionBytes(tx) == Ok(bytes)
  {
    hide CellDepBytes, InputBytes, OutputBytes, Hash32Bytes, MoleculeBytes, U32, Fixvec, Dynvec, DecodeCellDep, DecodeInput,
         DecodeOutput, DecodeHash32, DecodeMoleculeBytes, DecodeDynvec, DecodeFixvec;
    PartsAreInverse();
    var fields := DecodeDynvec(bytes).value;
    var cellDeps := DecodeFixvec(fields[1], 37).value;
    var headerDeps := DecodeFixvec(fields[2], 32).value;
    var inputs := DecodeFixvec(fields[3], 44).value;
    var outputs := DecodeDynvec(fields[4]).value;
    var outputsData := DecodeDynvec(fields[5]).value;
    CollectInverse(CellDepBytes, DecodeCellDep, tx.cellDeps, cellDeps);
    CollectInverse(Hash32Bytes, DecodeHash32, tx.headerDeps, headerDeps);
    CollectInverse(InputBytes, DecodeInput, tx.inputs, inputs);
    CollectInverse(OutputBytes, DecodeOutput, tx.outputs, outputs);
    CollectInverse(MoleculeBytes, DecodeMoleculeBytes, tx.outputsData, outputsData);
    U32Inverse(tx.version, fields[0]);
    FixvecInverse(cellDeps, fields[1], 37);
    FixvecInverse(headerDeps, fields[2], 32);
    FixvecInverse(inputs, fields[3], 44);
    DynvecInverse(outputs, fields[4]);
    DynvecInverse(outputsData, fields[5]);
    DynvecInverse(fields, bytes);
    assert fields == [fields[0], fields[1], fields[2], fields[3], fields[4], fields[5]];
  }

  /** The decoder accepts exactly the encodings, and reads each of them back. */
  lemma {:induction false} TransactionInverse(tx: Transaction, bytes: Bytes)
    ensures RawTransactionBytes(tx) == Ok(bytes) <==> DecodeTransaction(bytes) == Some(tx)
  {
    if RawTransactionBytes(tx) == Ok(bytes) {
      TransactionDecodes(tx, bytes);
    }
    if DecodeTransaction(bytes) == Some(tx) {
      TransactionEncodes(tx, bytes);
    }
  }

  /** Two transactions with the same bytes are the same transaction. */
  lemma {:induction false} RawBytesInjective(t: Transaction, u: Transaction)
    requires RawTransactionBytes(t).Ok? && RawTransactionBytes(t) == RawTransactionBytes(u)
    ensures t == u
  {
    TransactionInverse(t, RawTransactionBytes(t).value);
    TransactionInverse(u, RawTransactionBytes(u).value);
  }
}
