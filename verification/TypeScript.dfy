/**
 The Registry V2 type script: what one script group of one transaction must satisfy.
 Models contracts/registry-v2/src/entry.rs and `decode_registry_v2_record` of record.rs.
 */
module TypeScript {
  import opened Wrappers
  import opened LittleEndian
  import opened Molecule
  import opened RegistryRecord
  import Lexemes
  import MoleculeDecoder

  type RegistryError = RegistryRecord.Error

  /**
   What the script takes from outside: the hash function, and the JSON library, which reads a
   record from the front of a payload and says how many bytes it consumed.
   */
  datatype Host = Host(
    hash: Bytes -> Bytes,
    parse: Bytes -> Option<(Record, nat)>)

  /** A script group: its argument, the transaction's first input, and the group's cell data. */
  datatype Group = Group(
    args: Bytes,
    firstInput: CellInput,
    inputs: seq<Bytes>,
    outputs: seq<Bytes>,
    firstOutputIndex: nat)

  function DecodeRecord(host: Host, payload: Bytes): Result<Record, RegistryError> {
    if |payload| > MAX_RECORD_BYTES || !Lexemes.HasStrictLexemes(payload) then Err(Encoding)
    else match host.parse(payload)
      case None => Err(Encoding)
      case Some((record, consumed)) =>
        if consumed != |payload| then Err(Encoding)
        else
          var _ :- Validate(record);
          Ok(record)
  }

  /** The Type ID preimage: the first input in Molecule form, then the output index as a u64. */
  function TypeIdPreimage(firstInput: CellInput, outputIndex: nat): Encoded {
    var input :- InputBytes(firstInput);
    Ok(input + LittleEndian.Encode(outputIndex, 8))
  }

  /** The Type ID rule: at most one cell on each side, and a new identity hashes its preimage. */
  function CheckTypeId(host: Host, group: Group): Result<(), RegistryError> {
    if |group.inputs| > 1 || |group.outputs| > 1 then Err(InvalidIdentityRule)
    else if |group.inputs| == 1 then Ok(())
    else match TypeIdPreimage(group.firstInput, group.firstOutputIndex)
      case Err(_) => Err(InvalidIdentityRule)
      case Ok(preimage) => if host.hash(preimage) == group.args then Ok(()) else Err(InvalidIdentityRule)
  }

  /** `main`, run once for every group. */
  function Run(host: Host, group: Group): Result<(), RegistryError> {
    if |group.args| != 32 then Err(InvalidIdentityArgs)
    else
      var _ :- CheckTypeId(host, group);
      if |group.inputs| == 0 && |group.outputs| == 1 then
        var record :- DecodeRecord(host, group.outputs[0]);
        ValidateCreation(record)
      else if |group.inputs| == 1 && |group.outputs| == 1 then
        var previous :- DecodeRecord(host, group.inputs[0]);
        var next :- DecodeRecord(host, group.outputs[0]);
        ValidateSuccessor(previous, next)
      else Err(InvalidCardinality)
  }

  /** The preimage determines the out point that it was made from. */
  lemma {:induction false} PreimageInjective(a: CellInput, i: nat, b: CellInput, j: nat)
    requires TypeIdPreimage(a, i).Ok? && TypeIdPreimage(a, i) == TypeIdPreimage(b, j)
    ensures a == b
    ensures i < U64_LIMIT && j < U64_LIMIT ==> i == j
  {
    var p := TypeIdPreimage(a, i).value;
    MoleculeDecoder.InputInverse(a, InputBytes(a).value);
    MoleculeDecoder.InputInverse(b, InputBytes(b).value);
    assert p[..44] == InputBytes(a).value == InputBytes(b).value;
    assert p[44..] == LittleEndian.Encode(i, 8) == LittleEndian.Encode(j, 8);
    Capacities();
    if i < U64_LIMIT && j < U64_LIMIT {
      DecodeEncode(i, 8);
      DecodeEncode(j, 8);
    }
  }

  /** A group is accepted as a creation or as an update; nothing else passes, burning included. */
  lemma {:induction false} RunAccepts(host: Host, group: Group)
    requires Run(host, group).Ok?
    ensures |group.outputs| == 1 && |group.inputs| <= 1 && |group.args| == 32
    ensures DecodeRecord(host, group.outputs[0]).Ok?
    ensures group.inputs == [] ==>
              && TypeIdPreimage(group.firstInput, group.firstOutputIndex).Ok?
              && host.hash(TypeIdPreimage(group.firstInput, group.firstOutputIndex).value) == group.args
              && ValidateCreation(DecodeRecord(host, group.outputs[0]).value).Ok?
    ensures group.inputs != [] ==>
              && DecodeRecord(host, group.inputs[0]).Ok?
              && ValidateSuccessor(DecodeRecord(host, group.inputs[0]).value,
                                   DecodeRecord(host, group.outputs[0]).value).Ok?
  {
  }
}
