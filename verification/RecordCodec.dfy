/**
 Registry V2 records as JSON: the SDK's decoder and fixed-order printer, and the sorted-key
 printer of the Python package. Models sdk/typescript/src/record.ts and
 src/ckb_registry/record.py.
 */
module RecordCodec {
  import opened Wrappers
  import opened DecimalText
  import opened Lexemes
  import opened RegistryRecord
  import opened Json
  import opened LittleEndian
  import opened Numerals
  import Grouping
  import JsonParser
  import SdkRecord
  import Sorting
  import TextOrder
  import Utf8

  // ----- decoder ----------------------------------------------------------------------------

  const REQUIRED_FIELDS: seq<string> :=
    ["schema_version", "receiver_id", "latitude", "longitude", "altitude", "status", "capabilities",
     "sequence", "updated_at"]

  const OPTIONAL_FIELDS: seq<string> := ["stream_endpoint", "stream_protocol", "stream_format", "metadata_hash"]

  /** Reading a property: an own one, or one of the prototype that the text assigned. */
  function Read(fields: seq<(string, Value)>, name: string): Option<Value>
    decreases fields
  {
    var own := Grouping.Find(fields, name);
    var proto := Grouping.Find(fields, PROTO);
    if own.Some? then Some(fields[own.value].1)
    else if proto.Some? then ReadPrototype(fields[proto.value], name)
    else None
  }

  /** Only an object prototype can have one of the names that are read. */
  function ReadPrototype(proto: (string, Value), name: string): Option<Value>
    decreases proto
  {
    if proto.1.Obj? then Read(proto.1.fields, name) else None
  }

  /** `u64From`: the text of the integer must not start with a minus sign. */
  function U64From(v: Value): Option<U64> {
    var n :- NumeralOf(v);
    match n
    case Lexeme(raw) => if raw != "" && raw[0] != '-' && ValueOf(raw) <= U64_MAX then Some(ValueOf(raw)) else None
    case Shadowed(Some(text)) =>
      if text != "" && text[0] == '-' then None
      else
        var value :- BigInt(text);
        if 0 <= value <= U64_MAX then Some(value) else None
    case _ => None
  }

  /** The text that `numberFrom` reads a number from, of an integer or of a float. */
  function NumberText(n: Numeral): Option<string> {
    match n
    case Lexeme(raw) => Some(raw)
    case Shadowed(text) => text
    case Fraction(text) => text
  }

  function NumberFrom(v: Value, number: ToNumber): Option<F64> {
    var n :- NumeralOf(v);
    var text :- NumberText(n);
    if number(text).Finite? then Some(number(text)) else None
  }

  /** An object is read as the number that was assigned to be its prototype. */
  lemma PrototypeIsRead(raw: string, number: ToNumber)
    ensures U64From(Obj([(PROTO, Int(raw))])) == U64From(Int(raw))
    ensures NumberFrom(Obj([(PROTO, Int(raw))]), number) == NumberFrom(Int(raw), number)
  {
    var fields := [(PROTO, Int(raw))];
    assert NumeralOf(fields[0].1) == Some(Lexeme(raw));
    assert Own(fields, "raw") == None;
  }

  function TextFrom(v: Value): Option<string> {
    if v.Str? then Some(v.text) else None
  }

  /** `None` is an error; an absent field and JSON `null` are both the absent value. */
  function OptionalText(v: Option<Value>, maxBytes: nat): Option<Option<string>> {
    if v.None? || v.value.Null? then Some(None)
    else if v.value.Str? && ValidWireText(v.value.text) && Utf8.Size(v.value.text) <= maxBytes then
      Some(Some(v.value.text))
    else None
  }

  function TextsFrom(items: seq<Value>): Option<seq<string>> {
    if items == [] then Some([])
    else
      var first :- TextFrom(items[0]);
      var rest :- TextsFrom(items[1..]);
      Some([first] + rest)
  }

  function CapabilitiesFrom(v: Value): Option<seq<string>> {
    if !v.Arr? || !(1 <= |v.items| <= 8) then None
    else
      var texts :- TextsFrom(v.items);
      if && AllValidCapabilities(texts)
         && (forall i :: 0 <= i < |texts| ==> |texts[i]| <= 32)
         && Distinct(texts) && "mode-s" in texts
      then Some(texts) else None
  }

  predicate KnownKeys(fields: seq<(string, Value)>) {
    forall i :: 0 <= i < |fields| ==>
      fields[i].0 in REQUIRED_FIELDS || fields[i].0 in OPTIONAL_FIELDS || fields[i].0 == PROTO
  }

  /** `validateRegistryV2Record` on a parsed value; `None` stands for a thrown error. */
  function DecodeValue(v: Value, number: ToNumber): Option<Record> {
    if !v.Obj? || !KnownKeys(v.fields) then None
    else
      var schema :- Own(v.fields, "schema_version");
      var id :- Own(v.fields, "receiver_id");
      var lat :- Own(v.fields, "latitude");
      var lon :- Own(v.fields, "longitude");
      var alt :- Own(v.fields, "altitude");
      var status :- Own(v.fields, "status");
      var caps :- Own(v.fields, "capabilities");
      var seqn :- Own(v.fields, "sequence");
      var updated :- Own(v.fields, "updated_at");
      var schemaVersion :- U64From(schema);
      var receiverId :- TextFrom(id);
      var latitude :- NumberFrom(lat, number);
      var longitude :- NumberFrom(lon, number);
      var altitude :- NumberFrom(alt, number);
      var statusText :- TextFrom(status);
      var capabilities :- CapabilitiesFrom(caps);
      var sequence :- U64From(seqn);
      var updatedAt :- U64From(updated);
      var endpoint :- OptionalText(Read(v.fields, "stream_endpoint"), 256);
      var protocol :- OptionalText(Read(v.fields, "stream_protocol"), 32);
      var format :- OptionalText(Read(v.fields, "stream_format"), 16);
      var metadata :- OptionalText(Read(v.fields, "metadata_hash"), 66);
      var record := Record(schemaVersion, receiverId, latitude, longitude, altitude, statusText, capabilities,
                           sequence, updatedAt, endpoint, protocol, format, metadata);
      if RecordRules(record) then Some(record) else None
  }

  /** The conditions that the decoder checks on the values themselves. */
  predicate RecordRules(r: Record) {
    && r.schemaVersion == SCHEMA_VERSION
    && ValidReceiverId(r.receiverId) && |r.receiverId| <= 64
    && InRange(r.latitude, -90.0, 90.0)
    && InRange(r.longitude, -180.0, 180.0)
    && InRange(r.altitude, -500.0, 20000.0)
    && r.status in STATUSES
    && r.updatedAt >= 1
    && (r.streamProtocol.Some? ==> r.streamProtocol.value in PROTOCOLS)
    && (r.streamFormat.Some? ==> r.streamFormat.value in FORMATS)
    && (r.streamEndpoint.Some? ==> r.streamProtocol.Some?)
    && (r.metadataHash.Some? ==> ValidHash(r.metadataHash.value))
    && (r.status == "revoked" ==> !Streams(r))
  }

  /** Parsing and validating a text. */
  function DecodeText(text: string, number: ToNumber): Option<Record> {
    var value :- Parse(text, number);
    DecodeValue(value, number)
  }

  /** `decodeRegistryV2Record` on text, with the default byte limit. */
  function Decode(text: string, number: ToNumber): Option<Record> {
    if Utf8.Size(text) > MAX_RECORD_BYTES then None else DecodeText(text, number)
  }

  /** A fatal `TextDecoder` drops one byte order mark. */
  function WithoutMark(text: string): string {
    if text != "" && text[0] as int == 0xFEFF then text[1..] else text
  }

  /** The payload of `decodeRegistryV2Record`: a text or the bytes of a cell. */
  datatype CellData = Text(text: string) | Raw(bytes: Bytes)

  function DecodeData(data: CellData, maxBytes: int, number: ToNumber): Option<Record> {
    match data
    case Text(text) => if Utf8.Size(text) > maxBytes then None else DecodeText(text, number)
    case Raw(bytes) =>
      if |bytes| > maxBytes then None
      else
        var text :- Utf8.Decode(bytes);
        DecodeText(WithoutMark(text), number)
  }

  method DecodeRegistryRecord(data: CellData, maxBytes: int, number: ToNumber) returns (r: Option<Record>)
    ensures r == DecodeData(data, maxBytes, number)
  {
    var source: string;
    if data.Text? {
      source := data.text;
      if Utf8.Size(source) > maxBytes {
        return None;
      }
    } else {
      if |data.bytes| > maxBytes {
        return None;
      }
      var text := Utf8.Decode(data.bytes);
      if text.None? {
        return None;
      }
      source := WithoutMark(text.value);
    }
    var value := JsonParser.ParseStrictJson(source, number);
    r := if value.Some? then DecodeValue(value.value, number) else None;
  }

  // ----- printers ---------------------------------------------------------------------------

  function CapabilityValues(capabilities: seq<string>): (items: seq<Value>)
    ensures |items| == |capabilities|
    ensures forall i :: 0 <= i < |items| ==> items[i] == Str(capabilities[i])
  {
    seq(|capabilities|, i requires 0 <= i < |capabilities| => Str(capabilities[i]))
  }

  function OptionalField(name: string, value: Option<string>): seq<(string, Value)> {
    if value.Some? then [(name, Str(value.value))] else []
  }

  function Coordinate(c: F64, show: real -> string): Value {
    NumberNode(if c.Finite? then show(c.value) else "")
  }

  function RequiredPayload(r: Record, show: real -> string): seq<(string, Value)> {
    [("schema_version", Int("2")),
     ("receiver_id", Str(r.receiverId)),
     ("latitude", Coordinate(r.latitude, show)),
     ("longitude", Coordinate(r.longitude, show)),
     ("altitude", Coordinate(r.altitude, show)),
     ("status", Str(r.status)),
     ("capabilities", Arr(CapabilityValues(r.capabilities))),
     ("sequence", Int(Digits(r.sequence))),
     ("updated_at", Int(Digits(r.updatedAt)))]
  }

  function OptionalPayload(r: Record): seq<(string, Value)> {
    OptionalField("stream_endpoint", r.streamEndpoint)
    + OptionalField("stream_protocol", r.streamProtocol)
    + OptionalField("stream_format", r.streamFormat)
    + OptionalField("metadata_hash", r.metadataHash)
  }

  /** The fields in the order in which both packages collect them. */
  function Payload(r: Record, show: real -> string): seq<(string, Value)> {
    RequiredPayload(r, show) + OptionalPayload(r)
  }

  /** `encodeRegistryV2Record`: the fields in their fixed order. */
  function EncodeFixedOrder(r: Record, show: real -> string): string {
    Print(Obj(Payload(r, show)))
  }

  predicate KeyLeq(a: (string, Value), b: (string, Value)) {
    !TextOrder.Before(b.0, a.0)
  }

  /** `to_cell_data_hex` before hexadecimal: the same fields with sorted keys. */
  function EncodeSortedKeys(r: Record, show: real -> string): string {
    Print(Obj(Sorting.Sort(Payload(r, show), KeyLeq)))
  }

  function JoinComma(parts: seq<string>): string
    requires parts != []
  {
    parts[0] + if |parts| == 1 then "" else "," + JoinComma(parts[1..])
  }

  function Members(fields: seq<(string, Value)>): (parts: seq<string>)
    ensures |parts| == |fields|
    ensures forall i :: 0 <= i < |fields| ==> parts[i] == PrintMember(fields[i])
  {
    seq(|fields|, i requires 0 <= i < |fields| => PrintMember(fields[i]))
  }

  lemma {:induction false} JoinIsPrint(fields: seq<(string, Value)>)
    requires fields != []
    ensures JoinComma(Members(fields)) + "}" == PrintMembers(fields)
  {
    if |fields| > 1 {
      JoinIsPrint(fields[1..]);
      assert Members(fields)[1..] == Members(fields[1..]);
    }
  }

  method PushOptional(fields: seq<string>, ghost pushed: seq<(string, Value)>, name: string, value: Option<string>)
    returns (more: seq<string>)
    requires fields == Members(pushed)
    ensures more == Members(pushed + OptionalField(name, value))
  {
    more := fields;
    if value.Some? {
      more := more + [PrintMember((name, Str(value.value)))];
    }
  }

  /** The printer of the SDK: it validates, pushes one text for each field in order, and joins them by commas. */
  method EncodeRegistryRecord(value: SdkRecord.Draft, show: real -> string) returns (bytes: Option<Bytes>)
    ensures bytes == match SdkRecord.Validated(value)
                     case None => None
                     case Some(r) => Some(Utf8.Encode(EncodeFixedOrder(r, show)))
  {
    hide RequiredPayload, OptionalField, PrintMember, SdkRecord.Validated;
    var validated := SdkRecord.Validated(value);
    if validated.None? {
      return None;
    }
    var r := validated.value;
    ghost var required := RequiredPayload(r, show);
    ghost var endpoint := OptionalField("stream_endpoint", r.streamEndpoint);
    ghost var protocol := OptionalField("stream_protocol", r.streamProtocol);
    ghost var format := OptionalField("stream_format", r.streamFormat);
    ghost var metadata := OptionalField("metadata_hash", r.metadataHash);
    var fields := Members(RequiredPayload(r, show));
    fields := PushOptional(fields, required, "stream_endpoint", r.streamEndpoint);
    fields := PushOptional(fields, required + endpoint, "stream_protocol", r.streamProtocol);
    fields := PushOptional(fields, required + endpoint + protocol, "stream_format", r.streamFormat);
    fields := PushOptional(fields, required + endpoint + protocol + format, "metadata_hash", r.metadataHash);
    assert required + endpoint + protocol + format + metadata == Payload(r, show);
    PayloadIsNotEmpty(r, show);
    JoinIsPrint(Payload(r, show));
    var text := "{" + JoinComma(fields) + "}";
    assert text == "{" + (JoinComma(fields) + "}");
    bytes := Some(Utf8.Encode(text));
  }

  lemma PayloadIsNotEmpty(r: Record, show: real -> string)
    ensures Payload(r, show) != []
  {
  }
}
