/**
 Decoding what either printer wrote gives the record back, the text always fits the byte limit,
 and the SDK accepts only records that the contract accepts.
 */
module RecordRoundTrip {
  import opened Wrappers
  import opened DecimalText
  import opened Lexemes
  import opened RegistryRecord
  import opened Json
  import opened Numerals
  import opened RecordCodec
  import opened RecordFields
  import Grouping
  import JsonRoundTrip
  import Sorting
  import Utf8

  /** The text sizes that the Rust struct can hold. */
  predicate WithinCapacity(r: Record) {
    && |r.receiverId| <= 64
    && |r.capabilities| <= 8
    && (forall i :: 0 <= i < |r.capabilities| ==> |r.capabilities[i]| <= 32)
    && (r.streamEndpoint.Some? ==> Utf8.Size(r.streamEndpoint.value) <= 256)
  }

  predicate Valid(r: Record) {
    Validate(r).Ok? && WithinCapacity(r)
  }

  /**
   What is asked of a number printer, for one number: it writes a JSON number of at most 32
   characters from which `Number` reads the same value.
   */
  ghost predicate ShowsBack(x: real, show: real -> string, number: ToNumber) {
    && IsNumber(CodesOf(show(x)))
    && |show(x)| <= 32
    && number(show(x)) == Finite(x)
  }

  ghost predicate ShowsRecord(r: Record, show: real -> string, number: ToNumber) {
    && (r.latitude.Finite? ==> ShowsBack(r.latitude.value, show, number))
    && (r.longitude.Finite? ==> ShowsBack(r.longitude.value, show, number))
    && (r.altitude.Finite? ==> ShowsBack(r.altitude.value, show, number))
  }

  // ----- decimal text -----------------------------------------------------------------------

  lemma {:induction false} NoLeadingZero(n: nat)
    requires n > 0
    ensures Digits(n)[0] != '0'
  {
    if n >= 10 {
      NoLeadingZero(n / 10);
    }
  }

  lemma DigitsAreNumber(n: nat)
    ensures IsNumber(CodesOf(Digits(n))) && !HasFloatMark(Digits(n))
  {
    var t := CodesOf(Digits(n));
    if n > 0 {
      NoLeadingZero(n);
    }
    assert t[..|t|] == t && t[|t|..|t|] == [] && t[|t|..] == [];
    assert IsNumberSplit(t, |t|, |t|);
  }

  function Pow10(k: nat): nat {
    if k == 0 then 1 else 10 * Pow10(k - 1)
  }

  lemma {:induction false} DigitsLength(n: nat, k: nat)
    requires k > 0 && n < Pow10(k)
    ensures |Digits(n)| <= k
  {
    if n >= 10 {
      assert k > 1;
      DigitsLength(n / 10, k - 1);
    }
  }

  lemma U64Back(n: U64)
    ensures U64From(Int(Digits(n))) == Some(n)
  {
    DigitsBack(n);
  }

  // ----- field values -----------------------------------------------------------------------

  lemma {:induction false} TextsBack(texts: seq<string>)
    ensures TextsFrom(CapabilityValues(texts)) == Some(texts)
  {
    if texts != [] {
      TextsBack(texts[1..]);
      assert CapabilityValues(texts)[1..] == CapabilityValues(texts[1..]);
      assert texts == [texts[0]] + texts[1..];
    }
  }

  lemma CapabilitiesBack(r: Record)
    requires Valid(r)
    ensures CapabilitiesFrom(Arr(CapabilityValues(r.capabilities))) == Some(r.capabilities)
  {
    TextsBack(r.capabilities);
  }

  lemma CoordinateBack(c: F64, show: real -> string, number: ToNumber)
    requires c.Finite? && ShowsBack(c.value, show, number)
    ensures NumberFrom(Coordinate(c, show), number) == Some(c)
  {
  }

  predicate LowerOrDash(t: string) {
    forall i :: 0 <= i < |t| ==> 'a' <= t[i] <= 'z' || t[i] == '-'
  }

  lemma LowerText(t: string)
    requires t != "" && LowerOrDash(t)
    ensures ValidWireText(t) && Utf8.Size(t) == |t|
  {
    Utf8.AsciiSize(t);
  }

  lemma ProtocolText(t: string)
    requires t in PROTOCOLS
    ensures ValidWireText(t) && Utf8.Size(t) <= 32
  {
    hide Utf8.Size, ValidWireText;
    assert LowerOrDash("websocket-json");
    assert LowerOrDash("command-jsonl");
    LowerText(t);
  }

  lemma FormatText(t: string)
    requires t in FORMATS
    ensures ValidWireText(t) && Utf8.Size(t) <= 16
  {
    hide Utf8.Size, ValidWireText;
    assert LowerOrDash("json");
    assert LowerOrDash("jsonl");
    LowerText(t);
  }

  lemma HashText(t: string)
    requires ValidHash(t)
    ensures ValidWireText(t) && Utf8.Size(t) <= 66
  {
    Utf8.AsciiSize(t);
  }

  predicate ShortText(text: Option<string>, maxBytes: nat) {
    text.Some? ==> ValidWireText(text.value) && Utf8.Size(text.value) <= maxBytes
  }

  lemma OptionalTexts(r: Record)
    requires Valid(r)
    ensures ShortText(r.streamEndpoint, 256) && ShortText(r.streamProtocol, 32)
    ensures ShortText(r.streamFormat, 16) && ShortText(r.metadataHash, 66)
  {
    hide ValidWireText, ValidHash, Utf8.Size, ValidReceiverId, AllValidCapabilities, Distinct;
    if r.streamProtocol.Some? {
      ProtocolText(r.streamProtocol.value);
    }
    if r.streamFormat.Some? {
      FormatText(r.streamFormat.value);
    }
    if r.metadataHash.Some? {
      HashText(r.metadataHash.value);
    }
  }

  /** The optional texts of a valid record are what `OptionalText` reads from their own values. */
  lemma OptionalsBack(r: Record)
    requires Valid(r)
    ensures OptionalText(AsValue(r.streamEndpoint), 256) == Some(r.streamEndpoint)
    ensures OptionalText(AsValue(r.streamProtocol), 32) == Some(r.streamProtocol)
    ensures OptionalText(AsValue(r.streamFormat), 16) == Some(r.streamFormat)
    ensures OptionalText(AsValue(r.metadataHash), 66) == Some(r.metadataHash)
  {
    hide Valid, ValidWireText, Utf8.Size;
    OptionalTexts(r);
  }

  function AsValue(text: Option<string>): Option<Value> {
    if text.Some? then Some(Str(text.value)) else None
  }

  // ----- lookups in the payload -------------------------------------------------------------

  lemma RequiredOwn(r: Record, show: real -> string)
    ensures var f := Payload(r, show);
            && Own(f, "schema_version") == Some(Int("2"))
            && Own(f, "receiver_id") == Some(Str(r.receiverId))
            && Own(f, "latitude") == Some(Coordinate(r.latitude, show))
            && Own(f, "longitude") == Some(Coordinate(r.longitude, show))
            && Own(f, "altitude") == Some(Coordinate(r.altitude, show))
            && Own(f, "status") == Some(Str(r.status))
            && Own(f, "capabilities") == Some(Arr(CapabilityValues(r.capabilities)))
            && Own(f, "sequence") == Some(Int(Digits(r.sequence)))
            && Own(f, "updated_at") == Some(Int(Digits(r.updatedAt)))
  {
    hide Own, DistinctKeys, OptionalPayload, Coordinate, Digits, CapabilityValues;
    var f := Payload(r, show);
    PayloadRanks(r, show);
    assert forall i :: 0 <= i < 9 ==> f[i] in f;
    OwnIff(f, "schema_version", f[0].1);
    OwnIff(f, "receiver_id", f[1].1);
    OwnIff(f, "latitude", f[2].1);
    OwnIff(f, "longitude", f[3].1);
    OwnIff(f, "altitude", f[4].1);
    OwnIff(f, "status", f[5].1);
    OwnIff(f, "capabilities", f[6].1);
    OwnIff(f, "sequence", f[7].1);
    OwnIff(f, "updated_at", f[8].1);
  }

  /** A name that ranks outside the listed fields is not found. */
  lemma NotFound(fields: seq<(string, Value)>, name: string)
    requires forall i :: 0 <= i < |fields| ==> Rank(fields[i].0) != Rank(name)
    ensures Grouping.Find(fields, name) == None
  {
    forall i | 0 <= i < |fields| ensures fields[i].0 != name {
    }
  }

  lemma OptionalRanks(r: Record, field: (string, Value))
    requires field in OptionalPayload(r)
    ensures Rank(field.0) == 9 ==> r.streamEndpoint.Some?
    ensures Rank(field.0) == 10 ==> r.streamProtocol.Some?
    ensures Rank(field.0) == 11 ==> r.streamFormat.Some?
    ensures Rank(field.0) == 12 ==> r.metadataHash.Some?
    ensures 9 <= Rank(field.0) <= 12
  {
    RanksOfOptional();
  }

  lemma OptionalRead(r: Record, show: real -> string, name: string, value: Option<string>)
    requires value.Some? ==> (name, Str(value.value)) in OptionalPayload(r)
    requires value.None? ==> forall field :: field in OptionalPayload(r) ==> Rank(field.0) != Rank(name)
    requires 9 <= Rank(name) <= 12
    ensures Read(Payload(r, show), name) == AsValue(value)
  {
    hide Rank, OptionalPayload, RequiredPayload;
    var f := Payload(r, show);
    PayloadRanks(r, show);
    RequiredRanks(r, show);
    RanksOfOptional();
    NotFound(f, PROTO);
    if value.Some? {
      assert (name, Str(value.value)) in f;
      OwnIff(f, name, Str(value.value));
    } else {
      forall i | 0 <= i < |f| ensures Rank(f[i].0) != Rank(name) {
        if i >= |RequiredPayload(r, show)| {
          assert f[i] in OptionalPayload(r);
        } else {
          assert f[i] == RequiredPayload(r, show)[i];
        }
      }
      NotFound(f, name);
    }
  }

  lemma OptionalReads(r: Record, show: real -> string)
    ensures var f := Payload(r, show);
            && Read(f, "stream_endpoint") == AsValue(r.streamEndpoint)
            && Read(f, "stream_protocol") == AsValue(r.streamProtocol)
            && Read(f, "stream_format") == AsValue(r.streamFormat)
            && Read(f, "metadata_hash") == AsValue(r.metadataHash)
  {
    hide Read, Rank, Payload;
    RanksOfOptional();
    forall field | field in OptionalPayload(r)
      ensures Rank(field.0) == 9 ==> r.streamEndpoint.Some?
      ensures Rank(field.0) == 10 ==> r.streamProtocol.Some?
      ensures Rank(field.0) == 11 ==> r.streamFormat.Some?
      ensures Rank(field.0) == 12 ==> r.metadataHash.Some?
    {
      OptionalRanks(r, field);
    }
    OptionalRead(r, show, "stream_endpoint", r.streamEndpoint);
    OptionalRead(r, show, "stream_protocol", r.streamProtocol);
    OptionalRead(r, show, "stream_format", r.streamFormat);
    OptionalRead(r, show, "metadata_hash", r.metadataHash);
  }

  lemma PayloadNames(r: Record, show: real -> string)
    ensures forall i :: 0 <= i < |Payload(r, show)| ==>
              Payload(r, show)[i].0 in REQUIRED_FIELDS || Payload(r, show)[i].0 in OPTIONAL_FIELDS
  {
    var f := Payload(r, show);
    forall i | 0 <= i < |f| ensures f[i].0 in REQUIRED_FIELDS || f[i].0 in OPTIONAL_FIELDS {
      if i < 9 {
        assert f[i].0 == REQUIRED_FIELDS[i];
      } else {
        assert f[i] in OptionalPayload(r);
        OptionalNames(r, f[i]);
      }
    }
  }

  lemma PayloadKeysKnown(r: Record, show: real -> string)
    ensures KnownKeys(Payload(r, show))
  {
    PayloadNames(r, show);
  }

  lemma OptionalNames(r: Record, field: (string, Value))
    requires field in OptionalPayload(r)
    ensures field.0 in OPTIONAL_FIELDS
  {
    assert OPTIONAL_FIELDS[0] == "stream_endpoint" && OPTIONAL_FIELDS[1] == "stream_protocol";
    assert OPTIONAL_FIELDS[2] == "stream_format" && OPTIONAL_FIELDS[3] == "metadata_hash";
  }

  lemma ValidIsRules(r: Record)
    requires Valid(r)
    ensures RecordRules(r)
  {
  }

  lemma ScalarsBack(r: Record, show: real -> string, number: ToNumber)
    requires Valid(r) && ShowsRecord(r, show, number)
    ensures U64From(Int("2")) == Some(2) && r.schemaVersion == 2
    ensures NumberFrom(Coordinate(r.latitude, show), number) == Some(r.latitude)
    ensures NumberFrom(Coordinate(r.longitude, show), number) == Some(r.longitude)
    ensures NumberFrom(Coordinate(r.altitude, show), number) == Some(r.altitude)
  {
    hide ShowsBack, NumberFrom, Coordinate;
    FiniteCoordinates(r);
    CoordinateBack(r.latitude, show, number);
    CoordinateBack(r.longitude, show, number);
    CoordinateBack(r.altitude, show, number);
    assert "2"[..0] == "" && ValueOf("") == 0;
  }

  lemma PayloadDecodes(r: Record, show: real -> string, number: ToNumber)
    requires Valid(r) && ShowsRecord(r, show, number)
    ensures DecodeValue(Obj(Payload(r, show)), number) == Some(r)
  {
    hide Own, Read, KnownKeys, U64From, NumberFrom, CapabilitiesFrom, OptionalText, RecordRules, Payload, ShowsRecord,
         Valid, AsValue, Coordinate, CapabilityValues, Digits;
    PayloadKeysKnown(r, show);
    RequiredOwn(r, show);
    OptionalReads(r, show);
    ScalarsBack(r, show, number);
    CapabilitiesBack(r);
    U64Back(r.sequence);
    U64Back(r.updatedAt);
    OptionalsBack(r);
    ValidIsRules(r);
  }

  // ----- the payload prints -----------------------------------------------------------------

  lemma PlainIdentifier(t: string)
    requires ValidReceiverId(t) || ValidCapability(t)
    ensures PlainText(t)
  {
  }

  lemma NamesArePlain(name: string)
    requires name in REQUIRED_FIELDS || name in OPTIONAL_FIELDS
    ensures PlainText(name)
  {
  }

  lemma ShownIsGood(x: real, show: real -> string, number: ToNumber)
    requires ShowsBack(x, show, number)
    ensures Printable(NumberNode(show(x)), number)
  {
  }

  lemma CoordinatesPrintable(r: Record, show: real -> string, number: ToNumber)
    requires Valid(r) && ShowsRecord(r, show, number)
    ensures Printable(Coordinate(r.latitude, show), number)
    ensures Printable(Coordinate(r.longitude, show), number)
    ensures Printable(Coordinate(r.altitude, show), number)
  {
    hide GoodNumber, Validate, ShowsBack;
    FiniteCoordinates(r);
    ShownIsGood(r.latitude.value, show, number);
    ShownIsGood(r.longitude.value, show, number);
    ShownIsGood(r.altitude.value, show, number);
  }

  lemma IntegerPrintable(n: nat, number: ToNumber)
    ensures Printable(Int(Digits(n)), number)
  {
    DigitsAreNumber(n);
  }

  lemma CapabilitiesPrintable(r: Record, number: ToNumber)
    requires Valid(r)
    ensures Printable(Arr(CapabilityValues(r.capabilities)), number)
  {
    forall k | 0 <= k < |r.capabilities| ensures PlainText(r.capabilities[k]) {
      PlainIdentifier(r.capabilities[k]);
    }
  }

  lemma StatusPlain(status: string)
    requires status in STATUSES
    ensures PlainText(status)
  {
  }

  lemma RequiredValues(r: Record, show: real -> string)
    ensures var f := RequiredPayload(r, show);
            && |f| == 9
            && f[0].1 == Int("2") && f[1].1 == Str(r.receiverId)
            && f[2].1 == Coordinate(r.latitude, show)
            && f[3].1 == Coordinate(r.longitude, show)
            && f[4].1 == Coordinate(r.altitude, show)
            && f[5].1 == Str(r.status) && f[6].1 == Arr(CapabilityValues(r.capabilities))
            && f[7].1 == Int(Digits(r.sequence)) && f[8].1 == Int(Digits(r.updatedAt))
  {
    hide Coordinate, CapabilityValues, Digits;
  }

  lemma FieldPrintable(r: Record, show: real -> string, number: ToNumber, i: nat)
    requires Valid(r) && ShowsRecord(r, show, number) && i < 9
    ensures Printable(RequiredPayload(r, show)[i].1, number)
  {
    hide *;
    RequiredValues(r, show);
    PlainTexts(r, number);
    CoordinatesPrintable(r, show, number);
    CapabilitiesPrintable(r, number);
    IntegerPrintable(r.sequence, number);
    IntegerPrintable(r.updatedAt, number);
  }

  lemma PlainTexts(r: Record, number: ToNumber)
    requires Valid(r)
    ensures Printable(Int("2"), number) && Printable(Str(r.receiverId), number) && Printable(Str(r.status), number)
  {
    hide GoodNumber, PlainText, ValidReceiverId;
    IntegerPrintable(2, number);
    assert Digits(2) == "2";
    PlainIdentifier(r.receiverId);
    StatusPlain(r.status);
  }

  lemma FiniteCoordinates(r: Record)
    requires Validate(r).Ok?
    ensures r.latitude.Finite? && r.longitude.Finite? && r.altitude.Finite?
  {
  }

  /** Every optional field holds one of the four optional texts. */
  lemma OptionalValue(r: Record, field: (string, Value)) returns (t: string)
    requires Valid(r) && field in OptionalPayload(r)
    ensures field.1 == Str(t) && ValidWireText(t) && Utf8.Size(t) <= 256
  {
    hide Valid, ValidWireText, Utf8.Size;
    OptionalTexts(r);
    t := field.1.text;
  }

  lemma OptionalPrintable(r: Record, number: ToNumber, field: (string, Value))
    requires Valid(r) && field in OptionalPayload(r)
    ensures Printable(field.1, number)
  {
    var t := OptionalValue(r, field);
  }

  lemma PayloadPrintable(r: Record, show: real -> string, number: ToNumber)
    requires Valid(r) && ShowsRecord(r, show, number)
    ensures Printable(Obj(Payload(r, show)), number)
  {
    hide Valid, ShowsRecord, RequiredPayload, OptionalPayload, PlainText;
    var f := Payload(r, show);
    PayloadRanks(r, show);
    PayloadKeysPlain(r, show);
    PayloadLength(r, show);
    forall i | 0 <= i < |f| ensures Printable(f[i].1, number) {
      if i < 9 {
        FieldPrintable(r, show, number, i);
        assert f[i] == RequiredPayload(r, show)[i];
      } else {
        assert f[i] in OptionalPayload(r);
        OptionalPrintable(r, number, f[i]);
      }
    }
  }

  lemma PayloadLength(r: Record, show: real -> string)
    ensures |RequiredPayload(r, show)| == 9
  {
  }

  lemma PayloadKeysPlain(r: Record, show: real -> string)
    ensures forall i :: 0 <= i < |Payload(r, show)| ==> PlainText(Payload(r, show)[i].0)
  {
    hide PlainText, Payload;
    PayloadNames(r, show);
    forall i | 0 <= i < |Payload(r, show)| ensures PlainText(Payload(r, show)[i].0) {
      NamesArePlain(Payload(r, show)[i].0);
    }
  }

  lemma SortedPrintable(f: seq<(string, Value)>, g: seq<(string, Value)>, number: ToNumber)
    requires Printable(Obj(f), number) && DistinctKeys(g) && SameFields(f, g)
    ensures Printable(Obj(g), number)
  {
    forall i | 0 <= i < |g| ensures PlainText(g[i].0) && Printable(g[i].1, number) {
      assert g[i] in f;
      var k :| 0 <= k < |f| && f[k] == g[i];
      assert Printable(f[k].1, number);
    }
  }

  // ----- the printed text is short ----------------------------------------------------------

  /** An upper bound on the UTF-8 size of a printed value. */
  ghost predicate Fits(v: Value, bound: nat) {
    Utf8.Size(Print(v)) <= bound
  }

  lemma AsciiFits(t: string, bound: nat)
    requires forall i :: 0 <= i < |t| ==> t[i] as int < 0x80
    requires |t| <= bound
    ensures Utf8.Size(t) <= bound
  {
    Utf8.AsciiSize(t);
  }

  lemma QuotedSize(t: string)
    ensures Utf8.Size(Quoted(t)) == Utf8.Size(t) + 2
  {
    hide Utf8.Size;
    Utf8.SizeAdds("\"", t);
    Utf8.SizeAdds("\"" + t, "\"");
    Utf8.AsciiSize("\"");
  }

  lemma MemberSize(field: (string, Value), bound: nat)
    requires Utf8.Size(field.0) <= 15 && Fits(field.1, bound)
    ensures Utf8.Size(PrintMember(field)) <= 18 + bound
  {
    hide Print, Quoted;
    QuotedSize(field.0);
    Utf8.SizeAdds(Quoted(field.0), ":");
    Utf8.SizeAdds(Quoted(field.0) + ":", Print(field.1));
    Utf8.AsciiSize(":");
    assert PrintMember(field) == Quoted(field.0) + ":" + Print(field.1);
  }

  lemma OneMoreTime(n: nat, k: nat)
    ensures (n + 1) * k == n * k + k
  {
  }

  lemma {:induction false} MembersSize(fields: seq<(string, Value)>, bound: nat)
    requires fields != []
    requires forall i :: 0 <= i < |fields| ==> Utf8.Size(PrintMember(fields[i])) <= bound
    ensures Utf8.Size(PrintMembers(fields)) <= |fields| * (bound + 1)
  {
    hide PrintMember, PrintMembers, Utf8.Size;
    var after := if |fields| == 1 then "}" else "," + PrintMembers(fields[1..]);
    JsonRoundTrip.MembersPrinted(fields);
    Utf8.SizeAdds(PrintMember(fields[0]), after);
    if |fields| == 1 {
      Utf8.AsciiSize("}");
    } else {
      var rest := fields[1..];
      MembersSize(rest, bound);
      Utf8.SizeAdds(",", PrintMembers(rest));
      Utf8.AsciiSize(",");
      OneMoreTime(|rest|, bound + 1);
    }
  }

  lemma {:induction false} ElementsSize(items: seq<Value>, bound: nat)
    requires items != [] && forall i :: 0 <= i < |items| ==> Fits(items[i], bound)
    ensures Utf8.Size(PrintElements(items)) <= |items| * (bound + 1)
  {
    hide Print, PrintElements, Utf8.Size;
    var after := if |items| == 1 then "]" else "," + PrintElements(items[1..]);
    JsonRoundTrip.ElementsPrinted(items);
    Utf8.SizeAdds(Print(items[0]), after);
    assert Fits(items[0], bound);
    if |items| == 1 {
      Utf8.AsciiSize("]");
    } else {
      var rest := items[1..];
      ElementsSize(rest, bound);
      Utf8.SizeAdds(",", PrintElements(rest));
      Utf8.AsciiSize(",");
      OneMoreTime(|rest|, bound + 1);
    }
  }

  lemma TextFits(t: string, bound: nat)
    requires Utf8.Size(t) + 2 <= bound
    ensures Fits(Str(t), bound)
  {
    QuotedSize(t);
  }

  lemma CapabilitiesFit(r: Record)
    requires Valid(r)
    ensures Fits(Arr(CapabilityValues(r.capabilities)), 281)
  {
    var items := CapabilityValues(r.capabilities);
    forall i | 0 <= i < |items| ensures Fits(items[i], 34) {
      assert ValidCapability(r.capabilities[i]);
      AsciiFits(r.capabilities[i], 32);
      TextFits(r.capabilities[i], 34);
    }
    ElementsSize(items, 34);
    Utf8.SizeAdds("[", PrintElements(items));
    Utf8.AsciiSize("[");
  }

  lemma NumberFits(x: real, show: real -> string, number: ToNumber)
    requires ShowsBack(x, show, number)
    ensures Fits(NumberNode(show(x)), 32)
  {
    var t := CodesOf(show(x));
    forall k | 0 <= k < |t| ensures t[k] < 0x80 {
      NumberIsAscii(t, k);
    }
    AsciiFits(show(x), 32);
  }

  lemma U64Fits(n: U64)
    ensures Fits(Int(Digits(n)), 20)
  {
    assert Pow10(5) == 100000;
    assert Pow10(10) == 10000000000;
    assert Pow10(15) == 1000000000000000;
    assert Pow10(20) == 100000000000000000000;
    DigitsLength(n, 20);
    AsciiFits(Digits(n), 20);
  }

  lemma StatusFits(r: Record)
    requires Valid(r)
    ensures Fits(Str(r.status), 10)
  {
    hide ValidReceiverId, AllValidCapabilities, Distinct, ValidWireText, ValidHash;
    AsciiFits(r.status, 8);
    TextFits(r.status, 10);
  }

  lemma RequiredFits(r: Record, show: real -> string, number: ToNumber, i: nat)
    requires Valid(r) && ShowsRecord(r, show, number) && i < 9
    ensures Fits(RequiredPayload(r, show)[i].1, 281)
  {
    hide Fits;
    FiniteCoordinates(r);
    RequiredFit(r, show, number);
    FitsMore(RequiredPayload(r, show)[i].1);
  }

  lemma FitsMore(v: Value)
    ensures forall a: nat, b: nat :: a <= b && Fits(v, a) ==> Fits(v, b)
  {
  }

  lemma CoordinatesFit(r: Record, show: real -> string, number: ToNumber)
    requires Valid(r) && ShowsRecord(r, show, number)
    ensures Fits(Coordinate(r.latitude, show), 32)
    ensures Fits(Coordinate(r.longitude, show), 32)
    ensures Fits(Coordinate(r.altitude, show), 32)
  {
    hide Validate, ShowsBack, Fits;
    FiniteCoordinates(r);
    NumberFits(r.latitude.value, show, number);
    NumberFits(r.longitude.value, show, number);
    NumberFits(r.altitude.value, show, number);
  }

  lemma ReceiverIdFits(r: Record)
    requires Valid(r)
    ensures Fits(Str(r.receiverId), 66)
  {
    assert ValidReceiverId(r.receiverId);
    AsciiFits(r.receiverId, 64);
    TextFits(r.receiverId, 66);
  }

  lemma RequiredFit(r: Record, show: real -> string, number: ToNumber)
    requires Valid(r) && ShowsRecord(r, show, number)
    ensures var f := RequiredPayload(r, show);
            && Fits(f[0].1, 32) && Fits(f[1].1, 66) && Fits(f[2].1, 32) && Fits(f[3].1, 32) && Fits(f[4].1, 32)
            && Fits(f[5].1, 10) && Fits(f[6].1, 281) && Fits(f[7].1, 20) && Fits(f[8].1, 20)
  {
    hide *;
    RequiredValues(r, show);
    VersionFits();
    ReceiverIdFits(r);
    CapabilitiesFit(r);
    StatusFits(r);
    U64Fits(r.sequence);
    U64Fits(r.updatedAt);
    CoordinatesFit(r, show, number);
  }

  lemma VersionFits()
    ensures Fits(Int("2"), 32)
  {
    AsciiFits("2", 32);
  }

  lemma OptionalFits(r: Record, field: (string, Value))
    requires Valid(r) && field in OptionalPayload(r)
    ensures Fits(field.1, 281)
  {
    var t := OptionalValue(r, field);
    TextFits(t, 281);
  }

  lemma NamesAreShort(name: string)
    requires name in REQUIRED_FIELDS || name in OPTIONAL_FIELDS
    ensures Utf8.Size(name) <= 15
  {
    AsciiFits(name, 15);
  }

  /** The printed record stays far below the limit of 16 KiB, in any order of its fields. */
  lemma PayloadFits(r: Record, show: real -> string, number: ToNumber, g: seq<(string, Value)>)
    requires Valid(r) && ShowsRecord(r, show, number)
    requires SameFields(Payload(r, show), g) && |g| <= 13 && g != []
    ensures Utf8.Size(Print(Obj(g))) <= 3901
  {
    hide Print, PrintMembers, Valid, ShowsRecord, RequiredPayload, OptionalPayload;
    var f := Payload(r, show);
    PayloadLength(r, show);
    PayloadNames(r, show);
    forall i | 0 <= i < |g| ensures Utf8.Size(PrintMember(g[i])) <= 299 {
      assert g[i] in f;
      var k :| 0 <= k < |f| && f[k] == g[i];
      if k < 9 {
        RequiredFits(r, show, number, k);
        assert f[k] == RequiredPayload(r, show)[k];
      } else {
        assert f[k] in OptionalPayload(r);
        OptionalFits(r, f[k]);
      }
      NamesAreShort(f[k].0);
      MemberSize(g[i], 281);
    }
    MembersSize(g, 299);
    assert Print(Obj(g)) == "{" + PrintMembers(g) by { JsonRoundTrip.ObjectText(g); }
    Utf8.SizeAdds("{", PrintMembers(g));
    Utf8.AsciiSize("{");
    assert |g| * 300 <= 3900;
  }

  // ----- main results -----------------------------------------------------------------------

  lemma PrintedDecodes(r: Record, show: real -> string, number: ToNumber, g: seq<(string, Value)>)
    requires Valid(r) && ShowsRecord(r, show, number)
    requires DistinctKeys(g) && SameFields(Payload(r, show), g) && |g| <= 13 && g != []
    ensures Utf8.Size(Print(Obj(g))) <= MAX_RECORD_BYTES
    ensures Decode(Print(Obj(g)), number) == Some(r)
  {
    hide Print, Payload, DecodeValue, Valid, ShowsRecord, SameFields, DistinctKeys, Printable, Parse;
    var f := Payload(r, show);
    PayloadRanks(r, show);
    PayloadPrintable(r, show, number);
    SortedPrintable(f, g, number);
    PayloadFits(r, show, number, g);
    JsonRoundTrip.ParsePrint(Obj(g), number);
    PayloadDecodes(r, show, number);
    DecodeReordered(f, g, number);
  }

  lemma PayloadCount(r: Record, show: real -> string)
    ensures Payload(r, show) != [] && |Payload(r, show)| <= 13
  {
  }

  /** Decoding the fixed-order printing of a valid record gives the record back. */
  lemma FixedOrderRoundTrip(r: Record, show: real -> string, number: ToNumber)
    requires Valid(r) && ShowsRecord(r, show, number)
    ensures Decode(EncodeFixedOrder(r, show), number) == Some(r)
    ensures Utf8.Size(EncodeFixedOrder(r, show)) <= MAX_RECORD_BYTES
  {
    hide Payload, Valid, ShowsRecord, Decode, Print;
    PayloadCount(r, show);
    PayloadRanks(r, show);
    PrintedDecodes(r, show, number, Payload(r, show));
  }

  /** So does decoding the sorted-key printing, even with another number printer. */
  lemma SortedKeysRoundTrip(r: Record, show: real -> string, number: ToNumber)
    requires Valid(r) && ShowsRecord(r, show, number)
    ensures Decode(EncodeSortedKeys(r, show), number) == Some(r)
    ensures Utf8.Size(EncodeSortedKeys(r, show)) <= MAX_RECORD_BYTES
  {
    hide Payload, Valid, ShowsRecord, Decode, Print;
    var f := Payload(r, show);
    PayloadCount(r, show);
    PayloadRanks(r, show);
    SortedFields(f);
    Sorting.SortPermutes(f, KeyLeq);
    PrintedDecodes(r, show, number, Sorting.Sort(f, KeyLeq));
  }

  /** The two packages' printings of one record decode to the same value. */
  lemma PrintersAgree(r: Record, js: real -> string, py: real -> string, number: ToNumber)
    requires Valid(r) && ShowsRecord(r, js, number) && ShowsRecord(r, py, number)
    ensures Decode(EncodeFixedOrder(r, js), number) == Decode(EncodeSortedKeys(r, py), number)
  {
    FixedOrderRoundTrip(r, js, number);
    SortedKeysRoundTrip(r, py, number);
  }

  lemma NoMark(r: Record, show: real -> string)
    ensures WithoutMark(EncodeFixedOrder(r, show)) == EncodeFixedOrder(r, show)
    ensures WithoutMark(EncodeSortedKeys(r, show)) == EncodeSortedKeys(r, show)
  {
    hide Payload, PrintMembers, Sorting.Sort;
    PayloadCount(r, show);
    Sorting.SortPermutes(Payload(r, show), KeyLeq);
    JsonRoundTrip.ObjectText(Payload(r, show));
    JsonRoundTrip.ObjectText(Sorting.Sort(Payload(r, show), KeyLeq));
  }

  lemma BytesDecode(text: string, number: ToNumber)
    requires WithoutMark(text) == text
    ensures Utf8.Size(text) <= MAX_RECORD_BYTES ==>
              DecodeData(Raw(Utf8.Encode(text)), MAX_RECORD_BYTES, number) == Decode(text, number)
    ensures |Utf8.Encode(text)| == Utf8.Size(text)
  {
    hide DecodeText, Utf8.Decode, Utf8.Encode, Utf8.Size;
    Utf8.SizeIsLength(text);
    Utf8.DecodeIsInverse(Utf8.Encode(text), text);
  }

  /** Decoding the bytes that either printer writes into a cell gives the record back; they fit 16 KiB. */
  lemma CellRoundTrip(r: Record, show: real -> string, number: ToNumber)
    requires Valid(r) && ShowsRecord(r, show, number)
    ensures var sdk := Utf8.Encode(EncodeFixedOrder(r, show));
            |sdk| <= MAX_RECORD_BYTES && DecodeData(Raw(sdk), MAX_RECORD_BYTES, number) == Some(r)
    ensures var python := Utf8.Encode(EncodeSortedKeys(r, show));
            |python| <= MAX_RECORD_BYTES && DecodeData(Raw(python), MAX_RECORD_BYTES, number) == Some(r)
  {
    hide Valid, ShowsRecord, Decode, DecodeData, EncodeFixedOrder, EncodeSortedKeys, Utf8.Encode, Utf8.Size, WithoutMark;
    FixedOrderRoundTrip(r, show, number);
    SortedKeysRoundTrip(r, show, number);
    NoMark(r, show);
    BytesDecode(EncodeFixedOrder(r, show), number);
    BytesDecode(EncodeSortedKeys(r, show), number);
  }

  lemma DecodedCapabilities(v: Value)
    requires CapabilitiesFrom(v).Some?
    ensures var c := CapabilitiesFrom(v).value;
            && c != [] && |c| <= 8 && AllValidCapabilities(c) && Distinct(c) && "mode-s" in c
            && forall i :: 0 <= i < |c| ==> |c[i]| <= 32
  {
    TextsCount(v.items);
  }

  lemma {:induction false} TextsCount(items: seq<Value>)
    ensures TextsFrom(items).Some? ==> |TextsFrom(items).value| == |items|
  {
    if items != [] {
      TextsCount(items[1..]);
    }
  }

  lemma DecodedParts(v: Value, number: ToNumber)
    requires DecodeValue(v, number).Some?
    ensures var r := DecodeValue(v, number).value;
            && RecordRules(r) && v.Obj?
            && Own(v.fields, "capabilities").Some?
            && CapabilitiesFrom(Own(v.fields, "capabilities").value) == Some(r.capabilities)
            && OptionalText(Read(v.fields, "stream_endpoint"), 256) == Some(r.streamEndpoint)
  {
    hide Own, Read, KnownKeys, NumberFrom, U64From, TextFrom, CapabilitiesFrom, OptionalText, RecordRules;
  }

  lemma RulesAreValid(r: Record)
    requires RecordRules(r) && ShortText(r.streamEndpoint, 256)
    requires r.capabilities != [] && |r.capabilities| <= 8 && AllValidCapabilities(r.capabilities)
    requires Distinct(r.capabilities) && "mode-s" in r.capabilities
    requires forall i :: 0 <= i < |r.capabilities| ==> |r.capabilities[i]| <= 32
    ensures Valid(r)
  {
    hide PlainText, ValidWireText, AllValidCapabilities, Distinct, ValidHash, ValidReceiverId, Utf8.Size;
  }

  lemma EndpointBack(v: Option<Value>)
    ensures OptionalText(v, 256).Some? ==> ShortText(OptionalText(v, 256).value, 256)
  {
    hide ValidWireText, Utf8.Size;
  }

  lemma DecodedValueIsValid(v: Value, number: ToNumber)
    requires DecodeValue(v, number).Some?
    ensures Valid(DecodeValue(v, number).value)
  {
    hide Own, Read, DecodeValue, CapabilitiesFrom, OptionalText, RecordRules, ShortText, Valid, AllValidCapabilities, Distinct;
    DecodedParts(v, number);
    DecodedCapabilities(Own(v.fields, "capabilities").value);
    EndpointBack(Read(v.fields, "stream_endpoint"));
    RulesAreValid(DecodeValue(v, number).value);
  }

  /** Whatever the SDK decodes is a record that the contract's own validator accepts. */
  lemma DecodedIsValid(text: string, number: ToNumber)
    requires DecodeText(text, number).Some?
    ensures Valid(DecodeText(text, number).value)
  {
    hide Parse, DecodeValue, Valid;
    DecodedValueIsValid(Parse(text, number).value, number);
  }
}
