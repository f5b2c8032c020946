/**
 The two packages agree on records: their validators always, their decoders except where a
 payload starts with a byte order mark or uses objects in place of field values.
 */
module PythonAgreement {
  import opened Wrappers
  import opened DecimalText
  import opened LittleEndian
  import opened Json
  import opened Numerals
  import opened RegistryRecord
  import opened RecordRoundTrip
  import opened SdkRecord
  import Codec = RecordCodec
  import Discovery
  import DiscoveryResults
  import Grouping
  import JsonGrammar
  import Python = PythonRecord
  import SdkAgreement
  import Utf8

  // ----- validators -------------------------------------------------------------------------

  lemma CapabilitiesPassIs(c: seq<string>)
    ensures Python.CapabilitiesPass(c) <==>
            && 1 <= |c| <= 8 && !(exists i :: 0 <= i < |c| && !IsCapability(c[i]))
            && |set x | x in c| == |c| && "mode-s" in c
  {
    hide IsCapability;
  }

  lemma HashIsShort(hash: Option<string>)
    requires hash.Some? ==> IsByte32(hash.value)
    ensures OptionalText(hash, 66)
  {
    hide IsByte32, ValidHash, OptionalText, ValidWireText;
    SdkAgreement.OptionalTextIs(hash, 66);
    if hash.Some? {
      SdkAgreement.Byte32Is(hash.value);
      HashText(hash.value);
    }
  }

  /** Both packages' validators accept the same values. */
  lemma ValidatorsAgree(previous: Draft, d: Draft)
    ensures Python.Validate(d) == Validated(d)
    ensures Python.ValidateCreation(d) == ValidCreation(d)
    ensures Python.ValidateSuccessor(previous, d) == ValidSuccessor(previous, d)
  {
    hide Python.Validate, Validated;
    ValidateIs(previous);
    ValidateIs(d);
    SdkAgreement.ValidatedIs(previous);
    SdkAgreement.ValidatedIs(d);
  }

  lemma ValidateIs(d: Draft)
    ensures Python.Validate(d) == Validated(d)
  {
    hide IsReceiverId, IsCapability, IsByte32, OptionalText, Python.CapabilitiesPass;
    CapabilitiesPassIs(d.capabilities);
    SdkAgreement.RevokedItems(d);
    if d.metadataHash.Some? ==> IsByte32(d.metadataHash.value) {
      HashIsShort(d.metadataHash);
    }
  }

  // ----- decoders on parsed values ----------------------------------------------------------

  /** Nothing was assigned to the prototype, and no field holds an object. */
  predicate Ordinary(v: Value) {
    v.Obj? ==>
      && (forall i :: 0 <= i < |v.fields| ==> v.fields[i].0 != PROTO)
      && (forall i :: 0 <= i < |v.fields| ==> !v.fields[i].1.Obj?)
  }

  lemma OwnIsOrdinary(v: Value, name: string)
    requires v.Obj? && Ordinary(v)
    ensures Own(v.fields, name).Some? ==> !Own(v.fields, name).value.Obj?
    ensures Codec.Read(v.fields, name) == Own(v.fields, name)
  {
  }

  lemma UnsignedIs(v: Value)
    requires !v.Obj?
    ensures Codec.U64From(v).Some? <==> Python.UnsignedFrom(v).Some? && Python.UnsignedFrom(v).value <= U64_MAX
    ensures Codec.U64From(v).Some? ==> Python.UnsignedFrom(v) == Some(Codec.U64From(v).value)
    ensures Python.UnsignedFrom(v).Some? ==> Python.UnsignedFrom(v).value == Python.IntegerOf(v.raw) >= 0
  {
  }

  lemma CoordinateIs(v: Value, number: ToNumber)
    requires !v.Obj?
    ensures Codec.NumberFrom(v, number).Some? <==>
            Python.CoordinateFrom(v, number).Some? && Python.CoordinateFrom(v, number).value.Finite?
    ensures Codec.NumberFrom(v, number).Some? ==> Python.CoordinateFrom(v, number) == Codec.NumberFrom(v, number)
  {
  }

  lemma TextIs(v: Option<Value>, maxBytes: nat)
    ensures Codec.OptionalText(v, maxBytes).Some? <==>
            Python.TextOrNone(v).Some? && ShortText(Python.TextOrNone(v).value, maxBytes)
    ensures Codec.OptionalText(v, maxBytes).Some? ==> Codec.OptionalText(v, maxBytes) == Python.TextOrNone(v)
  {
    hide ValidWireText, Utf8.Size;
  }

  lemma CapabilitiesIs(v: Value)
    ensures Codec.CapabilitiesFrom(v).Some? ==> v.Arr? && Codec.TextsFrom(v.items) == Codec.CapabilitiesFrom(v)
    ensures v.Arr? && Codec.TextsFrom(v.items).Some? ==>
              var c := Codec.TextsFrom(v.items).value;
              Codec.CapabilitiesFrom(v).Some? <==>
              && c != [] && |c| <= 8 && AllValidCapabilities(c) && Distinct(c) && "mode-s" in c
              && forall i :: 0 <= i < |c| ==> |c[i]| <= 32
  {
    hide Codec.TextsFrom, AllValidCapabilities, Distinct;
    if v.Arr? {
      TextsCount(v.items);
    }
  }

  lemma NoPrototype(v: Value)
    requires v.Obj? && Ordinary(v)
    ensures Codec.KnownKeys(v.fields) <==> Python.OnlyFields(v.fields)
  {
  }

  ghost predicate HasAll(v: Value) {
    v.Obj? && forall name :: name in Codec.REQUIRED_FIELDS ==> Own(v.fields, name).Some?
  }

  function At(v: Value, name: string): Value
    requires v.Obj? && Own(v.fields, name).Some?
  {
    Own(v.fields, name).value
  }

  lemma Required()
    ensures "schema_version" in Codec.REQUIRED_FIELDS && "receiver_id" in Codec.REQUIRED_FIELDS
    ensures "latitude" in Codec.REQUIRED_FIELDS && "longitude" in Codec.REQUIRED_FIELDS
    ensures "altitude" in Codec.REQUIRED_FIELDS && "status" in Codec.REQUIRED_FIELDS
    ensures "capabilities" in Codec.REQUIRED_FIELDS && "sequence" in Codec.REQUIRED_FIELDS
    ensures "updated_at" in Codec.REQUIRED_FIELDS
  {
    var f := Codec.REQUIRED_FIELDS;
    assert f[0] in f && f[1] in f && f[2] in f && f[3] in f && f[4] in f && f[5] in f && f[6] in f && f[7] in f && f[8] in f;
  }

  lemma HasAllIs(v: Value)
    ensures HasAll(v) <==>
            && v.Obj?
            && Own(v.fields, "schema_version").Some? && Own(v.fields, "receiver_id").Some?
            && Own(v.fields, "latitude").Some? && Own(v.fields, "longitude").Some? && Own(v.fields, "altitude").Some?
            && Own(v.fields, "status").Some? && Own(v.fields, "capabilities").Some?
            && Own(v.fields, "sequence").Some? && Own(v.fields, "updated_at").Some?
  {
    hide Own;
    Required();
  }

  /** What the SDK's decoder reads, field by field. */
  ghost predicate DecodesNumbers(v: Value, number: ToNumber, r: Record)
    requires HasAll(v)
  {
    Required();
    && Codec.U64From(At(v, "schema_version")) == Some(r.schemaVersion)
    && Codec.NumberFrom(At(v, "latitude"), number) == Some(r.latitude)
    && Codec.NumberFrom(At(v, "longitude"), number) == Some(r.longitude)
    && Codec.NumberFrom(At(v, "altitude"), number) == Some(r.altitude)
    && Codec.U64From(At(v, "sequence")) == Some(r.sequence)
    && Codec.U64From(At(v, "updated_at")) == Some(r.updatedAt)
  }

  ghost predicate DecodesTexts(v: Value, r: Record)
    requires HasAll(v)
  {
    Required();
    && At(v, "receiver_id") == Str(r.receiverId)
    && At(v, "status") == Str(r.status)
    && Codec.CapabilitiesFrom(At(v, "capabilities")) == Some(r.capabilities)
  }

  ghost predicate DecodesOptional(v: Value, r: Record)
    requires v.Obj?
  {
    && Codec.OptionalText(Codec.Read(v.fields, "stream_endpoint"), 256) == Some(r.streamEndpoint)
    && Codec.OptionalText(Codec.Read(v.fields, "stream_protocol"), 32) == Some(r.streamProtocol)
    && Codec.OptionalText(Codec.Read(v.fields, "stream_format"), 16) == Some(r.streamFormat)
    && Codec.OptionalText(Codec.Read(v.fields, "metadata_hash"), 66) == Some(r.metadataHash)
  }

  ghost predicate Decodes(v: Value, number: ToNumber, r: Record)
    requires HasAll(v)
  {
    DecodesNumbers(v, number, r) && DecodesTexts(v, r) && DecodesOptional(v, r)
  }

  lemma DecodeIs(v: Value, number: ToNumber, r: Record)
    ensures Codec.DecodeValue(v, number) == Some(r) <==>
            HasAll(v) && Codec.KnownKeys(v.fields) && Decodes(v, number, r) && Codec.RecordRules(r)
  {
    hide HasAll, Own, Codec.Read, Codec.KnownKeys, Codec.U64From, Codec.NumberFrom, Codec.CapabilitiesFrom,
         Codec.OptionalText, Codec.RecordRules;
    HasAllIs(v);
  }

  /** What the Python package reads, field by field. */
  ghost predicate DraftsNumbers(v: Value, number: ToNumber, d: Draft)
    requires HasAll(v)
  {
    Required();
    && At(v, "schema_version").Int? && Python.IntegerOf(At(v, "schema_version").raw) == d.schemaVersion
    && Python.CoordinateFrom(At(v, "latitude"), number) == Some(d.latitude)
    && Python.CoordinateFrom(At(v, "longitude"), number) == Some(d.longitude)
    && Python.CoordinateFrom(At(v, "altitude"), number) == Some(d.altitude)
    && Python.UnsignedFrom(At(v, "sequence")) == Some(d.sequence)
    && Python.UnsignedFrom(At(v, "updated_at")) == Some(d.updatedAt)
  }

  ghost predicate DraftsTexts(v: Value, d: Draft)
    requires HasAll(v)
  {
    Required();
    && At(v, "receiver_id") == Str(d.receiverId)
    && At(v, "status") == Str(d.status)
    && At(v, "capabilities").Arr? && Codec.TextsFrom(At(v, "capabilities").items) == Some(d.capabilities)
  }

  ghost predicate DraftsOptional(v: Value, d: Draft)
    requires v.Obj?
  {
    && Python.TextOrNone(Own(v.fields, "stream_endpoint")) == Some(d.streamEndpoint)
    && Python.TextOrNone(Own(v.fields, "stream_protocol")) == Some(d.streamProtocol)
    && Python.TextOrNone(Own(v.fields, "stream_format")) == Some(d.streamFormat)
    && Python.TextOrNone(Own(v.fields, "metadata_hash")) == Some(d.metadataHash)
  }

  ghost predicate Drafts(v: Value, number: ToNumber, d: Draft)
    requires HasAll(v)
  {
    DraftsNumbers(v, number, d) && DraftsTexts(v, d) && DraftsOptional(v, d)
  }

  lemma DraftIs(v: Value, number: ToNumber, d: Draft)
    ensures Python.DraftFrom(v, number) == Some(d) <==> HasAll(v) && Python.OnlyFields(v.fields) && Drafts(v, number, d)
  {
    hide HasAll, Own, Python.OnlyFields, Python.UnsignedFrom, Python.CoordinateFrom, Python.TextOrNone,
         Codec.TextsFrom, Python.IntegerOf;
    HasAllIs(v);
  }

  lemma SchemaIs(x: Value)
    requires x.Int? && Python.IntegerOf(x.raw) == 2
    ensures Codec.U64From(x) == Some(2)
  {
    hide ValueOf;
    ValueOfNothing();
  }

  lemma ValueOfNothing()
    ensures ValueOf("") == 0
  {
  }

  lemma UnsignedRead(x: Value, n: U64)
    requires !x.Obj? && Codec.U64From(x) == Some(n)
    ensures x.Int? && Python.IntegerOf(x.raw) == n && Python.UnsignedFrom(x) == Some(n)
  {
    hide ValueOf;
    UnsignedIs(x);
  }

  lemma TextRead(v: Option<Value>, maxBytes: nat, text: Option<string>)
    requires Codec.OptionalText(v, maxBytes) == Some(text)
    ensures Python.TextOrNone(v) == Some(text)
  {
    hide Codec.OptionalText, Python.TextOrNone, ShortText;
    TextIs(v, maxBytes);
  }

  lemma NumbersAreDrafted(v: Value, number: ToNumber, r: Record)
    requires HasAll(v) && Ordinary(v) && DecodesNumbers(v, number, r)
    ensures DraftsNumbers(v, number, DraftOf(r))
  {
    hide Own, Ordinary, HasAll, Codec.Read, Codec.U64From, Codec.NumberFrom, Python.IntegerOf, Python.UnsignedFrom,
         Python.CoordinateFrom;
    Required();
    AllOrdinary(v);
    UnsignedRead(At(v, "schema_version"), r.schemaVersion);
    UnsignedRead(At(v, "sequence"), r.sequence);
    UnsignedRead(At(v, "updated_at"), r.updatedAt);
    CoordinateIs(At(v, "latitude"), number);
    CoordinateIs(At(v, "longitude"), number);
    CoordinateIs(At(v, "altitude"), number);
  }

  lemma OptionalIsDrafted(v: Value, r: Record)
    requires HasAll(v) && Ordinary(v) && DecodesOptional(v, r)
    ensures DraftsOptional(v, DraftOf(r))
  {
    hide Own, Ordinary, HasAll, Codec.Read, Codec.OptionalText, Python.TextOrNone;
    AllOrdinary(v);
    TextRead(Own(v.fields, "stream_endpoint"), 256, r.streamEndpoint);
    TextRead(Own(v.fields, "stream_protocol"), 32, r.streamProtocol);
    TextRead(Own(v.fields, "stream_format"), 16, r.streamFormat);
    TextRead(Own(v.fields, "metadata_hash"), 66, r.metadataHash);
  }

  lemma DecodedIsDrafted(v: Value, number: ToNumber, r: Record)
    requires HasAll(v) && Ordinary(v) && Decodes(v, number, r)
    ensures Drafts(v, number, DraftOf(r))
  {
    hide Own, Codec.Read, Ordinary, HasAll, DecodesNumbers, DraftsNumbers, DecodesOptional, DraftsOptional,
         Codec.CapabilitiesFrom, Codec.TextsFrom;
    Required();
    AllOrdinary(v);
    NumbersAreDrafted(v, number, r);
    OptionalIsDrafted(v, r);
    CapabilitiesIs(At(v, "capabilities"));
  }

  lemma AllOrdinary(v: Value)
    requires HasAll(v) && Ordinary(v)
    ensures v.Obj? && forall name :: name in Codec.REQUIRED_FIELDS ==> Own(v.fields, name).Some? && !At(v, name).Obj?
    ensures forall name :: Codec.Read(v.fields, name) == Own(v.fields, name)
  {
    hide Own, Codec.Read, Ordinary;
    forall name ensures Codec.Read(v.fields, name) == Own(v.fields, name)
                        && (Own(v.fields, name).Some? ==> !Own(v.fields, name).value.Obj?)
    {
      OwnIsOrdinary(v, name);
    }
  }

  lemma NumbersAreDecoded(v: Value, number: ToNumber, d: Draft)
    requires HasAll(v) && Ordinary(v) && DraftsNumbers(v, number, d)
    requires SdkAgreement.FitsWidths(d) && Valid(SdkAgreement.RecordOf(d))
    ensures DecodesNumbers(v, number, SdkAgreement.RecordOf(d))
  {
    hide Own, Ordinary, HasAll, Codec.Read, Codec.U64From, Codec.NumberFrom, Python.IntegerOf, Python.UnsignedFrom,
         Python.CoordinateFrom, Valid;
    Required();
    AllOrdinary(v);
    RecordParts(SdkAgreement.RecordOf(d));
    SchemaIs(At(v, "schema_version"));
    UnsignedIs(At(v, "sequence"));
    UnsignedIs(At(v, "updated_at"));
    CoordinateIs(At(v, "latitude"), number);
    CoordinateIs(At(v, "longitude"), number);
    CoordinateIs(At(v, "altitude"), number);
  }

  lemma OptionalIsDecoded(v: Value, d: Draft)
    requires HasAll(v) && Ordinary(v) && DraftsOptional(v, d)
    requires SdkAgreement.FitsWidths(d) && Valid(SdkAgreement.RecordOf(d))
    ensures DecodesOptional(v, SdkAgreement.RecordOf(d))
  {
    hide Own, Ordinary, HasAll, Codec.Read, Codec.OptionalText, Python.TextOrNone, ShortText, Valid;
    AllOrdinary(v);
    OptionalTexts(SdkAgreement.RecordOf(d));
    TextIs(Own(v.fields, "stream_endpoint"), 256);
    TextIs(Own(v.fields, "stream_protocol"), 32);
    TextIs(Own(v.fields, "stream_format"), 16);
    TextIs(Own(v.fields, "metadata_hash"), 66);
  }

  lemma DraftedIsDecoded(v: Value, number: ToNumber, d: Draft)
    requires HasAll(v) && Ordinary(v) && Drafts(v, number, d)
    requires SdkAgreement.FitsWidths(d) && Valid(SdkAgreement.RecordOf(d))
    ensures Decodes(v, number, SdkAgreement.RecordOf(d))
  {
    hide Own, Codec.Read, Ordinary, HasAll, DecodesNumbers, DraftsNumbers, DecodesOptional, DraftsOptional,
         Codec.CapabilitiesFrom, Codec.TextsFrom, Valid;
    Required();
    AllOrdinary(v);
    NumbersAreDecoded(v, number, d);
    OptionalIsDecoded(v, d);
    RecordParts(SdkAgreement.RecordOf(d));
    CapabilitiesIs(At(v, "capabilities"));
  }

  lemma RecordParts(r: Record)
    requires Valid(r)
    ensures r.schemaVersion == 2 && r.latitude.Finite? && r.longitude.Finite? && r.altitude.Finite?
    ensures var c := r.capabilities;
            && c != [] && |c| <= 8 && AllValidCapabilities(c) && Distinct(c) && "mode-s" in c
            && forall i :: 0 <= i < |c| ==> |c[i]| <= 32
  {
    hide ValidReceiverId, AllValidCapabilities, Distinct, ValidHash, ValidWireText, Utf8.Size;
  }

  // ----- what a decoded object looks like ---------------------------------------------------

  /** A field of an object with distinct keys is what reading its name gives. */
  lemma {:induction false} OwnAt(fields: seq<(string, Value)>, i: nat)
    requires DistinctKeys(fields) && i < |fields|
    ensures Own(fields, fields[i].0) == Some(fields[i].1)
  {
    var k := Grouping.Find(fields, fields[i].0);
    assert k.Some? && k.value == i;
  }

  lemma {:induction false} TextsAreTexts(items: seq<Value>)
    requires Codec.TextsFrom(items).Some?
    ensures forall i :: 0 <= i < |items| ==> items[i].Str?
  {
    if items != [] {
      TextsAreTexts(items[1..]);
    }
  }

  /** Every field of an object that the Python package reads is a text, a number, a list of texts, or null. */
  lemma FieldIsPlain(v: Value, number: ToNumber, d: Draft, i: nat)
    requires v.Obj? && DistinctKeys(v.fields) && i < |v.fields|
    requires HasAll(v) && Python.OnlyFields(v.fields) && Drafts(v, number, d)
    requires d.latitude.Finite? && d.longitude.Finite? && d.altitude.Finite?
    ensures v.fields[i].0 != PROTO && !v.fields[i].1.Obj? && JsonGrammar.FiniteFloats(v.fields[i].1, number)
  {
    hide Own, HasAll, DistinctKeys, Codec.TextsFrom, Python.IntegerOf, Python.UnsignedFrom, Python.CoordinateFrom,
         Python.TextOrNone, JsonGrammar.FiniteFloats;
    var name, x := v.fields[i].0, v.fields[i].1;
    Required();
    OwnAt(v.fields, i);
    assert name in Codec.REQUIRED_FIELDS + Codec.OPTIONAL_FIELDS;
    NameCases(name);
    PlainValues(x, number);
    if name == "capabilities" {
      TextsAreTexts(x.items);
    }
  }

  /** What the readers of single fields accept holds no object and no float but a finite one. */
  lemma PlainValues(x: Value, number: ToNumber)
    ensures x.Int? || x.Str? ==> JsonGrammar.FiniteFloats(x, number)
    ensures x.Arr? && (forall i :: 0 <= i < |x.items| ==> x.items[i].Str?) ==> JsonGrammar.FiniteFloats(x, number)
    ensures Python.UnsignedFrom(x).Some? ==> x.Int?
    ensures var c := Python.CoordinateFrom(x, number);
            c.Some? && c.value.Finite? ==> !x.Obj? && JsonGrammar.FiniteFloats(x, number)
    ensures Python.TextOrNone(Some(x)).Some? ==> !x.Obj? && JsonGrammar.FiniteFloats(x, number)
  {
    hide Python.IntegerOf;
  }

  lemma NameCases(name: string)
    requires name in Codec.REQUIRED_FIELDS + Codec.OPTIONAL_FIELDS
    ensures name in ["schema_version", "receiver_id", "latitude", "longitude", "altitude", "status", "capabilities",
                     "sequence", "updated_at", "stream_endpoint", "stream_protocol", "stream_format", "metadata_hash"]
    ensures name != PROTO
  {
    assert PROTO[0] == '_' && forall n :: n in Codec.REQUIRED_FIELDS + Codec.OPTIONAL_FIELDS ==> n[0] != '_';
  }

  lemma FieldsArePlain(v: Value, number: ToNumber, d: Draft)
    requires v.Obj? && DistinctKeys(v.fields) && Python.DraftFrom(v, number) == Some(d)
    requires d.latitude.Finite? && d.longitude.Finite? && d.altitude.Finite?
    ensures Ordinary(v) && JsonGrammar.FiniteFloats(v, number)
  {
    hide HasAll, Python.OnlyFields, Drafts, DistinctKeys, Python.DraftFrom;
    DraftIs(v, number, d);
    forall i | 0 <= i < |v.fields|
      ensures v.fields[i].0 != PROTO && !v.fields[i].1.Obj? && JsonGrammar.FiniteFloats(v.fields[i].1, number)
    {
      FieldIsPlain(v, number, d, i);
    }
  }

  /** What the Python package makes of an object is what the SDK makes of it, and there is no object inside. */
  lemma ReadIsDecoded(v: Value, number: ToNumber, r: Record)
    requires v.Obj? && DistinctKeys(v.fields) && Python.FromDict(v, number) == Some(r)
    ensures Codec.DecodeValue(v, number) == Some(r) && Ordinary(v) && JsonGrammar.FiniteFloats(v, number)
  {
    hide Python.DraftFrom, Python.Validate, Validated, Valid, Codec.DecodeValue, Codec.KnownKeys, Codec.RecordRules, HasAll,
         Drafts, Decodes, Ordinary, JsonGrammar.FiniteFloats, Validate, WithinCapacity, DistinctKeys;
    var d := Python.DraftFrom(v, number).value;
    ValidateIs(d);
    SdkAgreement.ValidatedIs(d);
    ValidMeans(r);
    RecordParts(r);
    FieldsArePlain(v, number, d);
    DraftIs(v, number, d);
    NoPrototype(v);
    DraftedIsDecoded(v, number, d);
    ValidIsRules(r);
    DecodeIs(v, number, r);
  }

  lemma ValidMeans(r: Record)
    ensures Valid(r) <==> Validate(r).Ok? && WithinCapacity(r)
  {
  }

  lemma DecodedIsRead(v: Value, number: ToNumber, r: Record)
    requires Codec.DecodeValue(v, number) == Some(r) && Ordinary(v)
    ensures Python.FromDict(v, number) == Some(r)
  {
    hide Python.DraftFrom, Python.Validate, Validated, Valid, Codec.DecodeValue, Codec.KnownKeys, Codec.RecordRules, Drafts,
         Decodes, Ordinary, Validate, WithinCapacity;
    DecodeIs(v, number, r);
    NoPrototype(v);
    DecodedIsDrafted(v, number, r);
    DraftIs(v, number, DraftOf(r));
    DecodedValueIsValid(v, number);
    ValidMeans(r);
    ValidateIs(DraftOf(r));
    SdkAgreement.ValidatedIs(DraftOf(r));
    SdkAgreement.DraftAndBack(r);
  }

  // ----- decoders on texts and bytes --------------------------------------------------------

  lemma {:induction false} MembersDistinct(s: string, number: ToNumber, start: nat, seen: set<string>)
    requires ParseMembers(s, number, start, seen).Some?
    ensures var fields := ParseMembers(s, number, start, seen).value.0;
            DistinctKeys(fields) && forall k :: 0 <= k < |fields| ==> fields[k].0 !in seen
    decreases |s| - start
  {
    hide ParseMember, ParseMembers, SkipSpace;
    MembersUnfold(s, number, start, seen);
    NewKey(s, number, start, seen);
    var member, end := ParseMember(s, number, start, seen).value.0, ParseMember(s, number, start, seen).value.1;
    var k := SkipSpace(s, end);
    if IsAt(s, k, ',') {
      MembersDistinct(s, number, k + 1, seen + {member.0});
    }
  }

  lemma NewKey(s: string, number: ToNumber, start: nat, seen: set<string>)
    requires ParseMember(s, number, start, seen).Some?
    ensures ParseMember(s, number, start, seen).value.0.0 !in seen
  {
    hide ParseValue, ParseString, SkipSpace;
  }

  lemma ObjectIsDistinct(s: string, number: ToNumber, i: nat)
    requires i < |s| && ParseObject(s, number, i).Some?
    ensures ParseObject(s, number, i).value.0.Obj? && DistinctKeys(ParseObject(s, number, i).value.0.fields)
  {
    hide ParseMembers, SkipSpace;
    var j := SkipSpace(s, i + 1);
    if !IsAt(s, j, '}') {
      MembersDistinct(s, number, j, {});
    }
  }

  /** Only a brace starts an object. */
  lemma ObjectIsParsed(s: string, number: ToNumber)
    requires ParseValue(s, number, 0).Some? && ParseValue(s, number, 0).value.0.Obj?
    ensures var i := SkipSpace(s, 0); i < |s| && ParseValue(s, number, 0) == ParseObject(s, number, i)
  {
    hide ParseObject, ParseElements, ParseString, MatchNumber, HasFloatMark, SkipSpace;
  }

  lemma ParsedIsDistinct(s: string, number: ToNumber)
    requires Parse(s, number).Some? && Parse(s, number).value.Obj?
    ensures DistinctKeys(Parse(s, number).value.fields)
  {
    hide ParseValue, ParseObject, SkipSpace, DistinctKeys;
    ObjectIsParsed(s, number);
    ObjectIsDistinct(s, number, SkipSpace(s, 0));
  }

  /** The text, if it is one, is free of objects inside the record. */
  predicate OrdinaryText(text: string, number: ToNumber) {
    Parse(text, number).Some? ==> Ordinary(Parse(text, number).value)
  }

  /** Both packages decode a text to the same record, unless an object stands in it for a field value. */
  lemma TextsAgree(text: string, number: ToNumber, r: Record)
    ensures Python.DecodeText(text, number) == Some(r) <==>
            Codec.DecodeText(text, number) == Some(r) && OrdinaryText(text, number)
  {
    hide Parse, Python.Loads, Python.FromDict, Codec.DecodeValue, Ordinary, JsonGrammar.FiniteFloats, DistinctKeys;
    if Python.DecodeText(text, number) == Some(r) {
      var v := Python.Loads(text).value;
      LoadedIsDistinct(text, number, r);
      ReadIsDecoded(v, number, r);
      JsonGrammar.LoadsIs(text, number, v);
    }
    if Codec.DecodeText(text, number) == Some(r) && OrdinaryText(text, number) {
      var v := Parse(text, number).value;
      JsonGrammar.LoadsIs(text, number, v);
      DecodedIsRead(v, number, r);
    }
  }

  lemma LoadedIsDistinct(text: string, number: ToNumber, r: Record)
    requires Python.DecodeText(text, number) == Some(r)
    ensures Python.Loads(text).Some? && Python.Loads(text).value.Obj?
    ensures DistinctKeys(Python.Loads(text).value.fields)
  {
    hide Parse, Python.Validate, DistinctKeys;
    ParsedIsDistinct(text, Python.AnyNumber);
  }

  // ----- the byte order mark ----------------------------------------------------------------

  predicate Marked(text: string) {
    text != "" && text[0] as int == 0xFEFF
  }

  /** No parser starts at a byte order mark. */
  lemma MarkedIsRefused(text: string, number: ToNumber)
    requires Marked(text)
    ensures Parse(text, number).None?
  {
    assert SkipSpace(text, 0) == 0;
    assert CodesOf(text)[0] == 0xFEFF;
    assert MatchNumber(CodesOf(text), 0).None?;
  }

  /** The payload has no byte order mark that the SDK would drop, and no object for a field value. */
  predicate OrdinaryData(data: Codec.CellData, number: ToNumber) {
    match data
    case Text(text) => OrdinaryText(text, number)
    case Raw(bytes) =>
      Utf8.Decode(bytes).Some? ==> !Marked(Utf8.Decode(bytes).value) && OrdinaryText(Utf8.Decode(bytes).value, number)
  }

  /**
   The packages decode a payload to the same record if it is ordinary; and what the Python package
   decodes is ordinary.
   */
  lemma DecodersAgree(data: Codec.CellData, maxBytes: int, number: ToNumber, r: Record)
    ensures Python.DecodeData(data, maxBytes, number) == Some(r) <==>
            Codec.DecodeData(data, maxBytes, number) == Some(r) && OrdinaryData(data, number)
  {
    hide Python.DecodeText, Codec.DecodeText, OrdinaryText, Utf8.Decode, Utf8.Size;
    match data
    case Text(text) => TextsAgree(text, number, r);
    case Raw(bytes) =>
      if Utf8.Decode(bytes).Some? {
        var text := Utf8.Decode(bytes).value;
        TextsAgree(text, number, r);
        if Marked(text) {
          MarkedIsNotRead(text, number);
        }
      }
  }

  lemma MarkedIsNotRead(text: string, number: ToNumber)
    requires Marked(text)
    ensures Python.DecodeText(text, number).None?
  {
    hide Parse, Python.FromDict;
    MarkedIsRefused(text, Python.AnyNumber);
  }

  /** Such a payload: a mark and the encoding of any valid record. */
  lemma MarkIsDropped(r: Record, show: real -> string, number: ToNumber) returns (bytes: Bytes)
    requires Valid(r) && ShowsRecord(r, show, number)
    ensures Codec.DecodeData(Codec.Raw(bytes), |bytes|, number) == Some(r)
    ensures Python.DecodeData(Codec.Raw(bytes), |bytes|, number) == None
  {
    hide Valid, ShowsRecord, Codec.EncodeFixedOrder, Codec.DecodeText, Python.DecodeText, Utf8.Decode, Utf8.Encode;
    var text := Codec.EncodeFixedOrder(r, show);
    var mark := 0xFEFF as char;
    bytes := Utf8.Encode([mark] + text);
    Utf8.DecodeIsInverse(bytes, [mark] + text);
    FixedOrderRoundTrip(r, show, number);
    assert ([mark] + text)[1..] == text;
    MarkedIsNotRead([mark] + text, number);
  }

  // ----- the two packages' discoveries ------------------------------------------------------

  /** A package's reader: the identity of a cell, and the decoder on the bytes of its data. */
  function SdkReader(codeHash: string, hashType: string, bytesOf: string -> Option<Bytes>, maxBytes: int,
                        number: ToNumber): Discovery.Reader
  {
    Discovery.Reader(
      Discovery.SdkIdentity(codeHash, hashType),
      (data: string) =>
        var bytes :- bytesOf(data);
        Codec.DecodeData(Codec.Raw(bytes), maxBytes, number))
  }

  function PythonReader(codeHash: string, hashType: string, bytesOf: string -> Option<Bytes>, maxBytes: int,
                        number: ToNumber): Discovery.Reader
  {
    Discovery.Reader(
      Discovery.PythonIdentity(codeHash, hashType),
      (data: string) =>
        var bytes :- bytesOf(data);
        Python.DecodeData(Codec.Raw(bytes), maxBytes, number))
  }

  /** The cell's code hash is written in lower case and its payload is ordinary. */
  predicate OrdinaryCell(cell: Discovery.Cell, bytesOf: string -> Option<Bytes>, number: ToNumber) {
    && (cell.typeScript.Some? ==> Discovery.Lower(cell.typeScript.value.codeHash) == cell.typeScript.value.codeHash)
    && (bytesOf(cell.data).Some? ==> OrdinaryData(Codec.Raw(bytesOf(cell.data).value), number))
  }

  lemma IdentityIsSame(codeHash: string, hashType: string, cell: Discovery.Cell)
    requires codeHash != ""
    requires cell.typeScript.Some? ==> Discovery.Lower(cell.typeScript.value.codeHash) == cell.typeScript.value.codeHash
    ensures Discovery.SdkIdentity(codeHash, hashType)(cell) == Discovery.PythonIdentity(codeHash, hashType)(cell)
  {
    hide Discovery.Lower, Discovery.NormalizedIdentity;
    DiscoveryResults.IdentitiesAgree(codeHash, hashType, cell);
  }

  lemma ReadersAgree(codeHash: string, hashType: string, bytesOf: string -> Option<Bytes>, maxBytes: int, number: ToNumber,
                     cell: Discovery.Cell)
    requires codeHash != "" && OrdinaryCell(cell, bytesOf, number)
    ensures var sdk, python := SdkReader(codeHash, hashType, bytesOf, maxBytes, number),
                               PythonReader(codeHash, hashType, bytesOf, maxBytes, number);
            && sdk.identityOf(cell) == python.identityOf(cell)
            && sdk.decode(cell.data) == python.decode(cell.data)
            && (sdk.decode(cell.data).Some? ==> Validate(sdk.decode(cell.data).value).Ok?)
  {
    hide Discovery.SdkIdentity, Discovery.PythonIdentity, Codec.DecodeData, Python.DecodeData, OrdinaryData, Validate;
    IdentityIsSame(codeHash, hashType, cell);
    if bytesOf(cell.data).Some? {
      var data := Codec.Raw(bytesOf(cell.data).value);
      if Codec.DecodeData(data, maxBytes, number).Some? {
        DecodersAgree(data, maxBytes, number, Codec.DecodeData(data, maxBytes, number).value);
        DataIsValid(data, maxBytes, number);
      }
      if Python.DecodeData(data, maxBytes, number).Some? {
        DecodersAgree(data, maxBytes, number, Python.DecodeData(data, maxBytes, number).value);
      }
    }
  }

  lemma DataIsValid(data: Codec.CellData, maxBytes: int, number: ToNumber)
    requires Codec.DecodeData(data, maxBytes, number).Some?
    ensures Validate(Codec.DecodeData(data, maxBytes, number).value).Ok?
  {
    hide Codec.DecodeText, Utf8.Decode, Utf8.Size, Validate, WithinCapacity;
    match data
    case Text(text) => DecodedIsValid(text, number);
    case Raw(bytes) => DecodedIsValid(Codec.WithoutMark(Utf8.Decode(bytes).value), number);
  }

  /** Over ordinary cells, however they were served, both packages list the same receivers. */
  lemma PackagesListAlike(codeHash: string, hashType: string, bytesOf: string -> Option<Bytes>, maxBytes: int,
                          number: ToNumber, a: seq<Discovery.Cell>, b: seq<Discovery.Cell>, o: Discovery.Options,
                          sdkList: seq<Discovery.Receiver>, pythonList: seq<Discovery.Receiver>)
    requires codeHash != "" && multiset(a) == multiset(b) && o.maxAge.None?
    requires forall cell :: cell in a ==> OrdinaryCell(cell, bytesOf, number)
    requires Discovery.IsListing(SdkReader(codeHash, hashType, bytesOf, maxBytes, number), a,
                                 Discovery.SdkFilter(o), sdkList)
    requires Discovery.IsListing(PythonReader(codeHash, hashType, bytesOf, maxBytes, number), b,
                                 Discovery.PythonFilter(o), pythonList)
    ensures sdkList == pythonList
  {
    hide OrdinaryCell, Discovery.IsListing, SdkReader, PythonReader, Validate;
    var sdk, python := SdkReader(codeHash, hashType, bytesOf, maxBytes, number),
                       PythonReader(codeHash, hashType, bytesOf, maxBytes, number);
    forall cell | cell in a
      ensures sdk.identityOf(cell) == python.identityOf(cell) && sdk.decode(cell.data) == python.decode(cell.data)
              && (sdk.decode(cell.data).Some? ==> Validate(sdk.decode(cell.data).value).Ok?)
    {
      ReadersAgree(codeHash, hashType, bytesOf, maxBytes, number, cell);
    }
    DiscoveryResults.PackagesAgree(sdk, python, a, b, o, sdkList, pythonList);
  }
}
