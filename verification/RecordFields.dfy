/** Field names, lookups and orders: what decoding needs to know about a list of fields. */
module RecordFields {
  import opened Wrappers
  import opened RegistryRecord
  import opened Json
  import opened Numerals
  import opened RecordCodec
  import Grouping
  import Sorting
  import TextOrder

  // ----- names ------------------------------------------------------------------------------

  /** A number for every field name; equal names have equal numbers. */
  function Rank(name: string): nat {
    if name == "schema_version" then 0
    else if name == "receiver_id" then 1
    else if name == "latitude" then 2
    else if name == "longitude" then 3
    else if name == "altitude" then 4
    else if name == "status" then 5
    else if name == "capabilities" then 6
    else if name == "sequence" then 7
    else if name == "updated_at" then 8
    else if name == "stream_endpoint" then 9
    else if name == "stream_protocol" then 10
    else if name == "stream_format" then 11
    else if name == "metadata_hash" then 12
    else 13
  }

  lemma RanksOfRequired()
    ensures Rank("schema_version") == 0 && Rank("receiver_id") == 1 && Rank("latitude") == 2
    ensures Rank("longitude") == 3 && Rank("altitude") == 4 && Rank("status") == 5
    ensures Rank("capabilities") == 6 && Rank("sequence") == 7 && Rank("updated_at") == 8
  {
    assert "altitude"[0] == 'a' && "latitude"[0] == 'l' && "sequence"[0] == 's';
  }

  lemma RanksOfOptional()
    ensures Rank("stream_endpoint") == 9 && Rank("stream_protocol") == 10
    ensures Rank("stream_format") == 11 && Rank("metadata_hash") == 12
    ensures Rank(PROTO) == 13
  {
    assert "stream_endpoint"[7] == 'e' && "stream_protocol"[7] == 'p';
    assert "stream_format"[0] == 's' && "metadata_hash"[0] == 'm';
    assert |"longitude"| == |PROTO| == 9 && PROTO[0] == '_';
  }

  ghost predicate RanksAscend(fields: seq<(string, Value)>) {
    forall i, j :: 0 <= i < j < |fields| ==> Rank(fields[i].0) < Rank(fields[j].0)
  }

  ghost predicate RanksBelow(fields: seq<(string, Value)>, bound: nat) {
    forall i :: 0 <= i < |fields| ==> Rank(fields[i].0) < bound
  }

  lemma RequiredRanks(r: Record, show: real -> string)
    ensures RanksAscend(RequiredPayload(r, show)) && RanksBelow(RequiredPayload(r, show), 9)
  {
    RanksOfRequired();
    var fields := RequiredPayload(r, show);
    hide Rank;
    assert forall i :: 0 <= i < 9 ==> Rank(fields[i].0) == i;
  }

  lemma AppendRank(fields: seq<(string, Value)>, name: string, value: Option<string>, bound: nat)
    requires RanksAscend(fields) && RanksBelow(fields, bound) && Rank(name) == bound
    ensures RanksAscend(fields + OptionalField(name, value)) && RanksBelow(fields + OptionalField(name, value), bound + 1)
  {
  }

  lemma PayloadRanks(r: Record, show: real -> string)
    ensures RanksAscend(Payload(r, show)) && RanksBelow(Payload(r, show), 13)
    ensures DistinctKeys(Payload(r, show))
  {
    hide Rank, RequiredPayload, OptionalField;
    RanksOfOptional();
    RequiredRanks(r, show);
    var f0 := RequiredPayload(r, show);
    var f1 := f0 + OptionalField("stream_endpoint", r.streamEndpoint);
    var f2 := f1 + OptionalField("stream_protocol", r.streamProtocol);
    var f3 := f2 + OptionalField("stream_format", r.streamFormat);
    var f4 := f3 + OptionalField("metadata_hash", r.metadataHash);
    AppendRank(f0, "stream_endpoint", r.streamEndpoint, 9);
    AppendRank(f1, "stream_protocol", r.streamProtocol, 10);
    AppendRank(f2, "stream_format", r.streamFormat, 11);
    AppendRank(f3, "metadata_hash", r.metadataHash, 12);
    assert f4 == Payload(r, show);
  }

  // ----- lookups ----------------------------------------------------------------------------

  /** In a list with distinct keys, looking a name up finds the one field that has it. */
  lemma OwnIff(fields: seq<(string, Value)>, name: string, v: Value)
    requires DistinctKeys(fields)
    ensures Own(fields, name) == Some(v) <==> (name, v) in fields
  {
    var i := Grouping.Find(fields, name);
    if i.Some? {
      assert fields[i.value] in fields;
      if (name, v) in fields {
        var k :| 0 <= k < |fields| && fields[k] == (name, v);
        assert k == i.value;
      }
    }
  }

  /** The two lists have the same fields. */
  ghost predicate SameFields(f: seq<(string, Value)>, g: seq<(string, Value)>) {
    forall field :: field in f <==> field in g
  }

  lemma OwnSame(f: seq<(string, Value)>, g: seq<(string, Value)>, name: string)
    requires DistinctKeys(f) && DistinctKeys(g) && SameFields(f, g)
    ensures Own(f, name) == Own(g, name)
  {
    if Own(f, name).Some? {
      OwnIff(f, name, Own(f, name).value);
      OwnIff(g, name, Own(f, name).value);
    } else if Own(g, name).Some? {
      OwnIff(f, name, Own(g, name).value);
      OwnIff(g, name, Own(g, name).value);
    }
  }

  lemma ReadSame(f: seq<(string, Value)>, g: seq<(string, Value)>, name: string)
    requires DistinctKeys(f) && DistinctKeys(g) && SameFields(f, g)
    ensures Read(f, name) == Read(g, name)
  {
    OwnSame(f, g, name);
    OwnSame(f, g, PROTO);
  }

  lemma KnownKeysSame(f: seq<(string, Value)>, g: seq<(string, Value)>)
    requires SameFields(f, g) && KnownKeys(f)
    ensures KnownKeys(g)
  {
    forall i | 0 <= i < |g|
      ensures g[i].0 in REQUIRED_FIELDS || g[i].0 in OPTIONAL_FIELDS || g[i].0 == PROTO
    {
      assert g[i] in f;
      var k :| 0 <= k < |f| && f[k] == g[i];
    }
  }

  /** Decoding an object does not depend on the order of its fields. */
  lemma DecodeReordered(f: seq<(string, Value)>, g: seq<(string, Value)>, number: ToNumber)
    requires DistinctKeys(f) && DistinctKeys(g) && SameFields(f, g)
    ensures DecodeValue(Obj(f), number) == DecodeValue(Obj(g), number)
  {
    hide Own, Read, SameFields, DistinctKeys, KnownKeys, RecordRules, CapabilitiesFrom;
    if KnownKeys(f) {
      KnownKeysSame(f, g);
    } else if KnownKeys(g) {
      SameFieldsSymmetric(f, g);
      KnownKeysSame(g, f);
    }
    OwnSame(f, g, "schema_version");
    OwnSame(f, g, "receiver_id");
    OwnSame(f, g, "latitude");
    OwnSame(f, g, "longitude");
    OwnSame(f, g, "altitude");
    OwnSame(f, g, "status");
    OwnSame(f, g, "capabilities");
    OwnSame(f, g, "sequence");
    OwnSame(f, g, "updated_at");
    ReadSame(f, g, "stream_endpoint");
    ReadSame(f, g, "stream_protocol");
    ReadSame(f, g, "stream_format");
    ReadSame(f, g, "metadata_hash");
  }

  lemma SameFieldsSymmetric(f: seq<(string, Value)>, g: seq<(string, Value)>)
    requires SameFields(f, g)
    ensures SameFields(g, f)
  {
  }

  // ----- sorting ----------------------------------------------------------------------------

  lemma SortedFields(fields: seq<(string, Value)>)
    requires DistinctKeys(fields)
    ensures DistinctKeys(Sorting.Sort(fields, KeyLeq)) && SameFields(fields, Sorting.Sort(fields, KeyLeq))
  {
    var sorted := Sorting.Sort(fields, KeyLeq);
    forall field ensures field in fields <==> field in sorted {
      Sorting.SortMember(fields, KeyLeq, field);
    }
    assert Sorting.NoDuplicates(fields);
    Sorting.SortDistinct(fields, KeyLeq);
    forall i, j | 0 <= i < j < |sorted| ensures sorted[i].0 != sorted[j].0 {
      assert sorted[i] in sorted && sorted[j] in sorted;
      OwnIff(fields, sorted[i].0, sorted[i].1);
      OwnIff(fields, sorted[j].0, sorted[j].1);
    }
  }

  /** The sorted-key printer really prints its keys in ascending order. */
  lemma KeysAreSorted(fields: seq<(string, Value)>)
    ensures Sorting.Sorted(Sorting.Sort(fields, KeyLeq), KeyLeq)
  {
    forall a, b ensures KeyLeq(a, b) || KeyLeq(b, a) {
      if TextOrder.Before(b.0, a.0) {
        TextOrder.Asymmetric(b.0, a.0);
      }
    }
    forall a, b, c | KeyLeq(a, b) && KeyLeq(b, c) ensures KeyLeq(a, c) {
      if TextOrder.Before(c.0, a.0) {
        TextOrder.Splits(c.0, b.0, a.0);
      }
    }
    Sorting.SortSorts(fields, KeyLeq);
  }
}
