/**
 The receiver record of Registry V2 and its validators.
 Models contracts/registry-v2/src/record.rs; the record carries what the Rust struct carries.
 */
module RegistryRecord {
  import opened Wrappers

  const SCHEMA_VERSION: int := 2
  const MAX_RECORD_BYTES: int := 16 * 1024
  const U64_MAX: int := 0xFFFF_FFFF_FFFF_FFFF

  type U64 = x: int | 0 <= x <= U64_MAX

  /** An f64 up to the sign of zero: a finite value, or one of the values `is_finite` refuses. */
  datatype F64 = Finite(value: real) | NotFinite

  datatype Error =
    | Encoding
    | InvalidIdentityArgs
    | InvalidIdentityRule
    | InvalidCardinality
    | InvalidSchemaVersion
    | InvalidReceiverId
    | InvalidLatitude
    | InvalidLongitude
    | InvalidAltitude
    | InvalidStatus
    | MissingCapabilities
    | InvalidCapability
    | DuplicateCapabilities
    | MissingModeS
    | InvalidUpdatedAt
    | InvalidStreamProtocol
    | InvalidStreamFormat
    | StreamProtocolRequired
    | InvalidMetadataHash
    | InvalidStreamEndpoint
    | RevokedStream
    | InvalidSequence
    | InvalidTransition
    | ImmutableReceiverId
    | RevokedTerminal

  datatype Record = Record(
    schemaVersion: int,
    receiverId: string,
    latitude: F64,
    longitude: F64,
    altitude: F64,
    status: string,
    capabilities: seq<string>,
    sequence: U64,
    updatedAt: U64,
    streamEndpoint: Option<string>,
    streamProtocol: Option<string>,
    streamFormat: Option<string>,
    metadataHash: Option<string>)

  // ----- field predicates -------------------------------------------------------------------

  predicate UpperOrDigit(c: char) {
    'A' <= c <= 'Z' || '0' <= c <= '9'
  }

  predicate LowerOrDigit(c: char) {
    'a' <= c <= 'z' || '0' <= c <= '9'
  }

  predicate HexDigit(c: char) {
    '0' <= c <= '9' || 'a' <= c <= 'f' || 'A' <= c <= 'F'
  }

  predicate ValidReceiverId(value: string) {
    && value != ""
    && UpperOrDigit(value[0])
    && forall i :: 0 <= i < |value| ==> UpperOrDigit(value[i]) || value[i] == '_' || value[i] == '-'
  }

  predicate ValidCapability(value: string) {
    && value != ""
    && LowerOrDigit(value[0])
    && forall i :: 0 <= i < |value| ==> LowerOrDigit(value[i]) || value[i] == '_' || value[i] == '-'
  }

  predicate ValidHash(value: string) {
    && |value| == 66
    && value[0] == '0' && value[1] == 'x'
    && forall i :: 2 <= i < 66 ==> HexDigit(value[i])
  }

  /** A character that a JSON string carries without escaping. */
  predicate Plain(c: char) {
    c as int >= 32 && c != '"' && c != '\\'
  }

  predicate PlainText(value: string) {
    forall i :: 0 <= i < |value| ==> Plain(value[i])
  }

  predicate ValidWireText(value: string) {
    value != "" && PlainText(value)
  }

  predicate InRange(coordinate: F64, low: real, high: real) {
    coordinate.Finite? && low <= coordinate.value <= high
  }

  predicate Distinct<T(==)>(items: seq<T>) {
    forall i, j :: 0 <= i < j < |items| ==> items[i] != items[j]
  }

  predicate AllValidCapabilities(capabilities: seq<string>) {
    forall i :: 0 <= i < |capabilities| ==> ValidCapability(capabilities[i])
  }

  const STATUSES: set<string> := {"online", "offline", "degraded", "revoked"}
  const PROTOCOLS: set<string> := {"websocket-json", "command-jsonl"}
  const FORMATS: set<string> := {"json", "jsonl"}

  predicate Streams(r: Record) {
    r.streamEndpoint.Some? || r.streamProtocol.Some? || r.streamFormat.Some?
  }

  // ----- validators -------------------------------------------------------------------------

  function Validate(r: Record): Result<(), Error> {
    if r.schemaVersion != SCHEMA_VERSION then Err(InvalidSchemaVersion)
    else if !ValidReceiverId(r.receiverId) then Err(InvalidReceiverId)
    else if !InRange(r.latitude, -90.0, 90.0) then Err(InvalidLatitude)
    else if !InRange(r.longitude, -180.0, 180.0) then Err(InvalidLongitude)
    else if !InRange(r.altitude, -500.0, 20000.0) then Err(InvalidAltitude)
    else if r.status !in STATUSES then Err(InvalidStatus)
    else if r.capabilities == [] then Err(MissingCapabilities)
    else if !AllValidCapabilities(r.capabilities) then Err(InvalidCapability)
    else if !Distinct(r.capabilities) then Err(DuplicateCapabilities)
    else if "mode-s" !in r.capabilities then Err(MissingModeS)
    else if r.updatedAt == 0 then Err(InvalidUpdatedAt)
    else if r.streamEndpoint.Some? && !ValidWireText(r.streamEndpoint.value) then Err(InvalidStreamEndpoint)
    else if r.streamProtocol.Some? && r.streamProtocol.value !in PROTOCOLS then Err(InvalidStreamProtocol)
    else if r.streamFormat.Some? && r.streamFormat.value !in FORMATS then Err(InvalidStreamFormat)
    else if r.streamEndpoint.Some? && r.streamProtocol.None? then Err(StreamProtocolRequired)
    else if r.metadataHash.Some? && !ValidHash(r.metadataHash.value) then Err(InvalidMetadataHash)
    else if r.status == "revoked" && Streams(r) then Err(RevokedStream)
    else Ok(())
  }

  function ValidateCreation(r: Record): Result<(), Error> {
    var _ :- Validate(r);
    if r.sequence != 0 then Err(InvalidSequence)
    else if r.status == "revoked" then Err(InvalidTransition)
    else Ok(())
  }

  function ValidateSuccessor(previous: Record, next: Record): Result<(), Error> {
    var _ :- Validate(previous);
    var _ :- Validate(next);
    if previous.status == "revoked" then Err(RevokedTerminal)
    else if next.receiverId != previous.receiverId then Err(ImmutableReceiverId)
    else if previous.sequence == U64_MAX || next.sequence != previous.sequence + 1 then Err(InvalidSequence)
    else if next.updatedAt < previous.updatedAt then Err(InvalidUpdatedAt)
    else Ok(())
  }

  // ----- what a chain of accepted records looks like ----------------------------------------

  /** A creation followed by accepted successors. */
  ghost predicate LegalLineage(lineage: seq<Record>) {
    && lineage != []
    && ValidateCreation(lineage[0]).Ok?
    && forall i :: 0 <= i < |lineage| - 1 ==> ValidateSuccessor(lineage[i], lineage[i + 1]).Ok?
  }

  lemma {:induction false} LineageSequence(lineage: seq<Record>, n: nat)
    requires LegalLineage(lineage) && n < |lineage|
    ensures lineage[n].sequence == n
    ensures lineage[n].receiverId == lineage[0].receiverId
    ensures Validate(lineage[n]).Ok?
  {
    if n > 0 {
      LineageSequence(lineage, n - 1);
      assert ValidateSuccessor(lineage[n - 1], lineage[n - 1 + 1]).Ok?;
    }
  }

  lemma {:induction false} LineageTime(lineage: seq<Record>, m: nat, n: nat)
    requires LegalLineage(lineage) && m <= n < |lineage|
    ensures lineage[m].updatedAt <= lineage[n].updatedAt
  {
    if m < n {
      LineageTime(lineage, m, n - 1);
      assert ValidateSuccessor(lineage[n - 1], lineage[n - 1 + 1]).Ok?;
    }
  }

  /**
   The n-th record has sequence n, the label is the first label, time does not go back,
   only the last record can be revoked, and there are at most 2^64 records.
   */
  lemma {:induction false} LineageFacts(lineage: seq<Record>)
    requires LegalLineage(lineage)
    ensures forall n :: 0 <= n < |lineage| ==>
              lineage[n].sequence == n && lineage[n].receiverId == lineage[0].receiverId
    ensures forall m, n :: 0 <= m <= n < |lineage| ==> lineage[m].updatedAt <= lineage[n].updatedAt
    ensures forall n :: 0 <= n < |lineage| - 1 ==> lineage[n].status != "revoked"
    ensures |lineage| <= U64_MAX + 1
  {
    forall n | 0 <= n < |lineage|
      ensures lineage[n].sequence == n && lineage[n].receiverId == lineage[0].receiverId
    {
      LineageSequence(lineage, n);
    }
    forall m, n | 0 <= m <= n < |lineage|
      ensures lineage[m].updatedAt <= lineage[n].updatedAt
    {
      LineageTime(lineage, m, n);
    }
    forall n | 0 <= n < |lineage| - 1 ensures lineage[n].status != "revoked" {
      assert ValidateSuccessor(lineage[n], lineage[n + 1]).Ok?;
    }
    LineageSequence(lineage, |lineage| - 1);
  }
}
