/**
 The SDK's own validation of records, on typed values: `validateRegistryV2Record`,
 `validateCreation` and `validateSuccessor` of sdk/typescript/src/record.ts.
 */
module SdkRecord {
  import opened Wrappers
  import opened RegistryRecord
  import Utf8

  /** A record before validation: its integers need not fit their widths yet. */
  datatype Draft = Draft(
    schemaVersion: int,
    receiverId: string,
    latitude: F64,
    longitude: F64,
    altitude: F64,
    status: string,
    capabilities: seq<string>,
    sequence: int,
    updatedAt: int,
    streamEndpoint: Option<string>,
    streamProtocol: Option<string>,
    streamFormat: Option<string>,
    metadataHash: Option<string>)

  function DraftOf(r: Record): Draft {
    Draft(r.schemaVersion, r.receiverId, r.latitude, r.longitude, r.altitude, r.status, r.capabilities, r.sequence,
          r.updatedAt, r.streamEndpoint, r.streamProtocol, r.streamFormat, r.metadataHash)
  }

  // ----- patterns ---------------------------------------------------------------------------

  predicate Upper(c: char) {
    'A' <= c <= 'Z'
  }

  predicate Lower(c: char) {
    'a' <= c <= 'z'
  }

  predicate Digit(c: char) {
    '0' <= c <= '9'
  }

  /** `RECEIVER_ID`: an upper-case letter or digit, then at most 63 of these, underscores and dashes. */
  predicate IsReceiverId(t: string) {
    && 1 <= |t| <= 1 + 63
    && (Upper(t[0]) || Digit(t[0]))
    && forall i :: 1 <= i < |t| ==> Upper(t[i]) || Digit(t[i]) || t[i] in "_-"
  }

  /** `CAPABILITY`: the same in lower case, with at most 31 after the first. */
  predicate IsCapability(t: string) {
    && 1 <= |t| <= 1 + 31
    && (Lower(t[0]) || Digit(t[0]))
    && forall i :: 1 <= i < |t| ==> Lower(t[i]) || Digit(t[i]) || t[i] in "_-"
  }

  /** `BYTE32`: the prefix and 64 hexadecimal digits. */
  predicate IsByte32(t: string) {
    && |t| == 2 + 64 && t[..2] == "0x"
    && forall i :: 2 <= i < |t| ==> Digit(t[i]) || 'a' <= t[i] <= 'f' || 'A' <= t[i] <= 'F'
  }

  // ----- fields -----------------------------------------------------------------------------

  function U64From(value: int, positive: bool): Option<U64> {
    if value < (if positive then 1 else 0) || value > U64_MAX then None else Some(value)
  }

  function NumberFrom(value: F64): Option<real> {
    if value.Finite? then Some(value.value) else None
  }

  predicate Between(x: real, low: real, high: real) {
    !(x < low || x > high)
  }

  /** An absent text is fine; a present one has 1 to `maxBytes` bytes and needs no escape. */
  predicate OptionalText(value: Option<string>, maxBytes: nat) {
    value.None? || !(
      || |value.value| == 0
      || (exists i :: 0 <= i < |value.value|
            && (value.value[i] == '"' || value.value[i] == '\\' || (value.value[i] as int) < 0x20))
      || Utf8.Size(value.value) > maxBytes)
  }

  // ----- validators -------------------------------------------------------------------------

  /** `validateRegistryV2Record`; `None` stands for its exception. */
  function Validated(d: Draft): Option<Record> {
    var schemaVersion :- U64From(d.schemaVersion, false);
    if schemaVersion != 2 then None
    else if !IsReceiverId(d.receiverId) then None
    else
      var latitude :- NumberFrom(d.latitude);
      var longitude :- NumberFrom(d.longitude);
      var altitude :- NumberFrom(d.altitude);
      if !Between(latitude, -90.0, 90.0) then None
      else if !Between(longitude, -180.0, 180.0) then None
      else if !Between(altitude, -500.0, 20000.0) then None
      else if d.status !in ["online", "offline", "degraded", "revoked"] then None
      else if |d.capabilities| < 1 || |d.capabilities| > 8 then None
      else if exists i :: 0 <= i < |d.capabilities| && !IsCapability(d.capabilities[i]) then None
      else if |set c | c in d.capabilities| != |d.capabilities| then None
      else if "mode-s" !in d.capabilities then None
      else
        var sequence :- U64From(d.sequence, false);
        var updatedAt :- U64From(d.updatedAt, true);
        if !OptionalText(d.streamEndpoint, 256) then None
        else if !OptionalText(d.streamProtocol, 32) then None
        else if !OptionalText(d.streamFormat, 16) then None
        else if !OptionalText(d.metadataHash, 66) then None
        else if d.streamProtocol.Some? && d.streamProtocol.value !in ["websocket-json", "command-jsonl"] then None
        else if d.streamFormat.Some? && d.streamFormat.value !in ["json", "jsonl"] then None
        else if d.streamEndpoint.Some? && d.streamProtocol.None? then None
        else if d.metadataHash.Some? && !IsByte32(d.metadataHash.value) then None
        else if d.status == "revoked"
                && exists item :: item in [d.streamEndpoint, d.streamProtocol, d.streamFormat] && item.Some? then None
        else Some(Record(schemaVersion, d.receiverId, Finite(latitude), Finite(longitude), Finite(altitude), d.status,
                         d.capabilities, sequence, updatedAt, d.streamEndpoint, d.streamProtocol, d.streamFormat,
                         d.metadataHash))
  }

  /** `validateCreation`. */
  function ValidCreation(d: Draft): Option<Record> {
    var record :- Validated(d);
    if record.sequence != 0 then None
    else if record.status == "revoked" then None
    else Some(record)
  }

  /** `validateSuccessor`. */
  function ValidSuccessor(previousValue: Draft, nextValue: Draft): Option<Record> {
    var previous :- Validated(previousValue);
    var next :- Validated(nextValue);
    if previous.status == "revoked" then None
    else if next.receiverId != previous.receiverId then None
    else if previous.sequence == U64_MAX || next.sequence != previous.sequence + 1 then None
    else if next.updatedAt < previous.updatedAt then None
    else Some(next)
  }
}

/** What the SDK accepts is what the contract accepts, as far as the contract's record can hold it. */
module SdkAgreement {
  import opened Wrappers
  import opened RegistryRecord
  import opened RecordRoundTrip
  import opened SdkRecord
  import Json
  import RecordCodec
  import Utf8

  lemma ReceiverIdIs(t: string)
    ensures IsReceiverId(t) <==> ValidReceiverId(t) && |t| <= 64
  {
  }

  lemma CapabilityIs(t: string)
    ensures IsCapability(t) <==> ValidCapability(t) && |t| <= 32
  {
  }

  lemma Byte32Is(t: string)
    ensures IsByte32(t) <==> ValidHash(t)
  {
    assert |t| == 66 ==> (t[..2] == "0x" <==> t[0] == '0' && t[1] == 'x');
  }

  lemma OptionalTextIs(t: Option<string>, maxBytes: nat)
    ensures OptionalText(t, maxBytes) <==> ShortText(t, maxBytes)
  {
    hide Utf8.Size;
    if t.Some? {
      forall i | 0 <= i < |t.value|
        ensures Plain(t.value[i])
                <==> !(t.value[i] == '"' || t.value[i] == '\\' || (t.value[i] as int) < 0x20)
      {
      }
    }
  }

  lemma DistinctSnoc(front: seq<string>, last: string)
    ensures Distinct(front + [last]) <==> Distinct(front) && last !in front
  {
    var items := front + [last];
    assert items[|front|] == last;
    if Distinct(items) {
      forall i | 0 <= i < |front| ensures front[i] != last {
        assert items[i] != items[|front|];
      }
      forall i, j | 0 <= i < j < |front| ensures front[i] != front[j] {
        assert items[i] != items[j];
      }
    }
  }

  lemma MembersSnoc(front: seq<string>, last: string)
    ensures (set c | c in front + [last]) == (set c | c in front) + {last}
  {
  }

  /** A list has as many different members as places exactly if no member comes twice. */
  lemma {:induction false} DistinctCount(items: seq<string>)
    ensures |set c | c in items| <= |items|
    ensures |set c | c in items| == |items| <==> Distinct(items)
  {
    if items == [] {
      assert (set c | c in items) == {};
    } else {
      var front, last := items[..|items| - 1], items[|items| - 1];
      var fewer := set c | c in front;
      assert items == front + [last];
      DistinctCount(front);
      DistinctSnoc(front, last);
      MembersSnoc(front, last);
      hide Distinct;
      assert last in front <==> last in fewer;
    }
  }

  lemma CapabilitiesAre(capabilities: seq<string>)
    ensures (forall i :: 0 <= i < |capabilities| ==> IsCapability(capabilities[i]))
            <==> AllValidCapabilities(capabilities) && forall i :: 0 <= i < |capabilities| ==> |capabilities[i]| <= 32
  {
    hide IsCapability, ValidCapability;
    forall i | 0 <= i < |capabilities|
      ensures IsCapability(capabilities[i]) <==> ValidCapability(capabilities[i]) && |capabilities[i]| <= 32
    {
      CapabilityIs(capabilities[i]);
    }
  }

  /** The integers fit their widths. */
  predicate FitsWidths(d: Draft) {
    0 <= d.sequence <= U64_MAX && 0 <= d.updatedAt <= U64_MAX
  }

  function RecordOf(d: Draft): Record
    requires FitsWidths(d)
  {
    Record(d.schemaVersion, d.receiverId, d.latitude, d.longitude, d.altitude, d.status, d.capabilities, d.sequence,
           d.updatedAt, d.streamEndpoint, d.streamProtocol, d.streamFormat, d.metadataHash)
  }

  lemma DraftAndBack(r: Record)
    ensures FitsWidths(DraftOf(r)) && RecordOf(DraftOf(r)) == r
  {
  }

  /** The SDK validates exactly what fits, passes the contract's validator, and fits its record type. */
  lemma ValidatedIs(d: Draft)
    ensures Validated(d).Some? <==> FitsWidths(d) && Validate(RecordOf(d)).Ok? && WithinCapacity(RecordOf(d))
    ensures Validated(d).Some? ==> Validated(d).value == RecordOf(d)
  {
    hide IsReceiverId, ValidReceiverId, IsCapability, AllValidCapabilities, ValidCapability, IsByte32, ValidHash, OptionalText,
         ValidWireText, Utf8.Size, Distinct;
    ReceiverIdIs(d.receiverId);
    CapabilitiesAre(d.capabilities);
    DistinctCount(d.capabilities);
    OptionalTextIs(d.streamEndpoint, 256);
    OptionalTextIs(d.streamProtocol, 32);
    OptionalTextIs(d.streamFormat, 16);
    OptionalTextIs(d.metadataHash, 66);
    if d.streamProtocol.Some? && d.streamProtocol.value in PROTOCOLS {
      ProtocolText(d.streamProtocol.value);
    }
    if d.streamFormat.Some? && d.streamFormat.value in FORMATS {
      FormatText(d.streamFormat.value);
    }
    if d.metadataHash.Some? {
      Byte32Is(d.metadataHash.value);
      if ValidHash(d.metadataHash.value) {
        HashText(d.metadataHash.value);
      }
    }
    RevokedItems(d);
  }

  /** The SDK accepts a creation or a successor exactly if the contract does and the record type can hold it. */
  lemma ValidatorsAgree(previous: Draft, next: Draft)
    ensures ValidSuccessor(previous, next).Some? <==>
            && FitsWidths(previous) && FitsWidths(next) && ValidateSuccessor(RecordOf(previous), RecordOf(next)).Ok?
            && WithinCapacity(RecordOf(previous)) && WithinCapacity(RecordOf(next))
    ensures ValidCreation(next).Some? <==>
            FitsWidths(next) && ValidateCreation(RecordOf(next)).Ok? && WithinCapacity(RecordOf(next))
    ensures ValidSuccessor(previous, next).Some? ==> ValidSuccessor(previous, next).value == RecordOf(next)
    ensures ValidCreation(next).Some? ==> ValidCreation(next).value == RecordOf(next)
  {
    hide Validated, Validate, WithinCapacity;
    ValidatedIs(previous);
    ValidatedIs(next);
  }

  /** Validating what was decoded from JSON changes nothing. */
  lemma DecodedIsValidated(text: string, number: Json.ToNumber)
    requires RecordCodec.DecodeText(text, number).Some?
    ensures var r := RecordCodec.DecodeText(text, number).value; Validated(DraftOf(r)) == Some(r)
  {
    hide RecordCodec.DecodeText, Validated, Validate, WithinCapacity;
    DecodedIsValid(text, number);
    var r := RecordCodec.DecodeText(text, number).value;
    ValidatedIs(DraftOf(r));
    DraftAndBack(r);
  }

  lemma RevokedItems(d: Draft)
    ensures (exists item :: item in [d.streamEndpoint, d.streamProtocol, d.streamFormat] && item.Some?)
            <==> d.streamEndpoint.Some? || d.streamProtocol.Some? || d.streamFormat.Some?
  {
    var items := [d.streamEndpoint, d.streamProtocol, d.streamFormat];
    assert items[0] in items && items[1] in items && items[2] in items;
  }
}
