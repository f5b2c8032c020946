/**
 The Python package's record decoder and validators: `decode_registry_v2_record`, `from_dict`,
 `validate`, `validate_creation` and `validate_successor` of src/ckb_registry/record.py. `None`
 stands for an exception.
 */
module PythonRecord {
  import opened Wrappers
  import opened DecimalText
  import opened LittleEndian
  import opened Json
  import opened RegistryRecord
  import opened SdkRecord
  import RecordCodec
  import Numerals
  import Utf8

  // ----- validators on typed values ---------------------------------------------------------

  const STATUS_NAMES: seq<string> := ["online", "offline", "degraded", "revoked"]

  predicate CoordinatesPass(d: Draft) {
    && d.latitude.Finite? && d.longitude.Finite? && d.altitude.Finite?
    && -90.0 <= d.latitude.value <= 90.0
    && -180.0 <= d.longitude.value <= 180.0
    && -500.0 <= d.altitude.value <= 20000.0
  }

  predicate CapabilitiesPass(capabilities: seq<string>) {
    && 1 <= |capabilities| <= 8
    && (forall c :: c in capabilities ==> IsCapability(c))
    && |set c | c in capabilities| == |capabilities|
    && "mode-s" in capabilities
  }

  predicate StreamPasses(d: Draft) {
    && OptionalText(d.streamEndpoint, 256) && OptionalText(d.streamProtocol, 32) && OptionalText(d.streamFormat, 16)
    && (d.streamProtocol.Some? ==> d.streamProtocol.value in ["websocket-json", "command-jsonl"])
    && (d.streamFormat.Some? ==> d.streamFormat.value in ["json", "jsonl"])
    && (d.streamEndpoint.Some? ==> d.streamProtocol.Some?)
  }

  /** `validate`. */
  function Validate(d: Draft): Option<Record> {
    if d.schemaVersion != 2 || !IsReceiverId(d.receiverId) || !CoordinatesPass(d) || d.status !in STATUS_NAMES then None
    else if !CapabilitiesPass(d.capabilities) then None
    else if !(0 <= d.sequence <= U64_MAX) || !(1 <= d.updatedAt <= U64_MAX) then None
    else if !StreamPasses(d) then None
    else if d.metadataHash.Some? && !IsByte32(d.metadataHash.value) then None
    else if d.status == "revoked" && (d.streamEndpoint.Some? || d.streamProtocol.Some? || d.streamFormat.Some?) then None
    else Some(Record(d.schemaVersion, d.receiverId, d.latitude, d.longitude, d.altitude, d.status, d.capabilities,
                     d.sequence, d.updatedAt, d.streamEndpoint, d.streamProtocol, d.streamFormat, d.metadataHash))
  }

  function ValidateCreation(d: Draft): Option<Record> {
    var record :- Validate(d);
    if d.sequence != 0 || d.status == "revoked" then None else Some(record)
  }

  /** `validate_successor` of the later record; it has no test for the last sequence number. */
  function ValidateSuccessor(previous: Draft, next: Draft): Option<Record> {
    var _ :- Validate(previous);
    var record :- Validate(next);
    if previous.status == "revoked" then None
    else if next.receiverId != previous.receiverId then None
    else if next.sequence != previous.sequence + 1 then None
    else if next.updatedAt < previous.updatedAt then None
    else Some(record)
  }

  // ----- the decoder ------------------------------------------------------------------------

  /** Python's `float` of a JSON number never fails; one out of range becomes infinite. */
  function AnyNumber(raw: string): F64 {
    Finite(0.0)
  }

  /** `json.loads` with the hooks of the package, after the test for escape sequences. */
  function Loads(text: string): Option<Value> {
    if '\\' in text then None else Parse(text, AnyNumber)
  }

  /** `int` of an integer lexeme. */
  function IntegerOf(raw: string): int {
    if raw != "" && raw[0] == '-' then 0 - ValueOf(raw[1..]) else ValueOf(raw)
  }

  /** An `int` that is not written with a minus sign. */
  function UnsignedFrom(v: Value): Option<int> {
    if v.Int? && v.raw != "" && v.raw[0] != '-' then Some(IntegerOf(v.raw)) else None
  }

  /** An `int` or a `float`; one that no f64 holds fails `math.isfinite`. */
  function CoordinateFrom(v: Value, number: ToNumber): Option<F64> {
    if v.Int? || v.Float? then Some(number(v.raw)) else None
  }

  /** `data.get(name)`: an absent field and `null` are both `None` of Python. */
  function TextOrNone(v: Option<Value>): Option<Option<string>> {
    match v
    case None => Some(None)
    case Some(Null) => Some(None)
    case Some(Str(text)) => Some(Some(text))
    case Some(_) => None
  }

  /** `set(data) - _ALLOWED_FIELDS` is empty. */
  predicate OnlyFields(fields: seq<(string, Value)>) {
    forall i :: 0 <= i < |fields| ==> fields[i].0 in RecordCodec.REQUIRED_FIELDS + RecordCodec.OPTIONAL_FIELDS
  }

  /** The typed fields of a decoded object; a value of another type is refused by `validate`. */
  function DraftFrom(v: Value, number: ToNumber): Option<Draft> {
    if !v.Obj? then None
    else if !OnlyFields(v.fields) then None
    else
      var schema :- Numerals.Own(v.fields, "schema_version");
      var id :- Numerals.Own(v.fields, "receiver_id");
      var lat :- Numerals.Own(v.fields, "latitude");
      var lon :- Numerals.Own(v.fields, "longitude");
      var alt :- Numerals.Own(v.fields, "altitude");
      var status :- Numerals.Own(v.fields, "status");
      var caps :- Numerals.Own(v.fields, "capabilities");
      var seqn :- Numerals.Own(v.fields, "sequence");
      var updated :- Numerals.Own(v.fields, "updated_at");
      var latitude :- CoordinateFrom(lat, number);
      var longitude :- CoordinateFrom(lon, number);
      var altitude :- CoordinateFrom(alt, number);
      var sequence :- UnsignedFrom(seqn);
      var updatedAt :- UnsignedFrom(updated);
      var endpoint :- TextOrNone(Numerals.Own(v.fields, "stream_endpoint"));
      var protocol :- TextOrNone(Numerals.Own(v.fields, "stream_protocol"));
      var format :- TextOrNone(Numerals.Own(v.fields, "stream_format"));
      var metadata :- TextOrNone(Numerals.Own(v.fields, "metadata_hash"));
      if !schema.Int? || !id.Str? || !status.Str? || !caps.Arr? then None
      else
        var capabilities :- RecordCodec.TextsFrom(caps.items);
        Some(Draft(IntegerOf(schema.raw), id.text, latitude, longitude, altitude, status.text, capabilities,
                   sequence, updatedAt, endpoint, protocol, format, metadata))
  }

  function FromDict(v: Value, number: ToNumber): Option<Record> {
    var d :- DraftFrom(v, number);
    Validate(d)
  }

  function DecodeText(text: string, number: ToNumber): Option<Record> {
    var v :- Loads(text);
    FromDict(v, number)
  }

  /** `decode_registry_v2_record`: unlike a `TextDecoder`, `decode` keeps a byte order mark. */
  function DecodeData(data: RecordCodec.CellData, maxBytes: int, number: ToNumber): Option<Record> {
    match data
    case Text(text) => if Utf8.Size(text) > maxBytes then None else DecodeText(text, number)
    case Raw(bytes) =>
      if |bytes| > maxBytes then None
      else
        var text :- Utf8.Decode(bytes);
        DecodeText(text, number)
  }
}
