/** Parsing a printed value gives the value back, wherever it stands in a text. */
module JsonRoundTrip {
  import opened Wrappers
  import opened Lexemes
  import opened RegistryRecord
  import opened Json

  /** `t` occurs in `s` at `i`. */
  ghost predicate At(s: string, i: nat, t: string) {
    i + |t| <= |s| && s[i..i + |t|] == t
  }

  /** The end of the text or a delimiter follows, so that a number ends here. */
  ghost predicate Ends(s: string, i: nat) {
    Delimited(CodesOf(s), i)
  }

  lemma AtSplit(s: string, i: nat, t: string, u: string)
    requires At(s, i, t + u)
    ensures At(s, i, t) && At(s, i + |t|, u)
  {
    var whole := s[i..i + |t + u|];
    assert s[i..i + |t|] == whole[..|t|] == t;
    assert s[i + |t|..i + |t| + |u|] == whole[|t|..] == u;
  }

  lemma AtIndex(s: string, i: nat, t: string, k: nat)
    requires At(s, i, t) && k < |t|
    ensures i + k < |s| && s[i + k] == t[k]
  {
    assert s[i..i + |t|][k] == s[i + k];
  }

  // ----- tokens -----------------------------------------------------------------------------

  lemma {:induction false} QuoteIsFound(s: string, i: nat, text: string)
    requires At(s, i, text + "\"") && PlainText(text)
    ensures FindQuote(s, i) == Some(i + |text|)
    decreases |text|
  {
    AtIndex(s, i, text + "\"", 0);
    if text != "" {
      assert text + "\"" == [text[0]] + (text[1..] + "\"");
      AtSplit(s, i, [text[0]], text[1..] + "\"");
      QuoteIsFound(s, i + 1, text[1..]);
    }
  }

  lemma StringIsParsed(s: string, i: nat, text: string)
    requires At(s, i, Quoted(text)) && PlainText(text)
    ensures IsAt(s, i, '"') && ParseString(s, i) == Some((text, i + |Quoted(text)|))
  {
    assert Quoted(text) == "\"" + (text + "\"");
    AtIndex(s, i, Quoted(text), 0);
    AtSplit(s, i, "\"", text + "\"");
    QuoteIsFound(s, i + 1, text);
    AtSplit(s, i + 1, text, "\"");
  }

  /** Where the contract's scanner reads a whole number, the parser matches the same one. */
  lemma ConsumedIsMatched(p: Codes, i: nat)
    requires ConsumeNumber(p, i).Some?
    ensures MatchNumber(p, i) == ConsumeNumber(p, i)
    ensures Has(p, i, MINUS) || HasDigit(p, i)
  {
    var a := IntegerPart(p, i).value;
    var b := FractionPart(p, a).value;
    var c := ExponentPart(p, b).value;
  }

  lemma CodesAt(s: string, i: nat, t: string)
    requires At(s, i, t)
    ensures i + |t| <= |s| && CodesOf(s)[i..i + |t|] == CodesOf(t) && s[i..i + |t|] == t
  {
    forall k | 0 <= k < |t| ensures CodesOf(s)[i..i + |t|][k] == CodesOf(t)[k] {
      AtIndex(s, i, t, k);
    }
  }

  lemma NumberIsParsed(s: string, number: ToNumber, i: nat, raw: string)
    requires At(s, i, raw) && GoodNumber(raw, number) && Ends(s, i + |raw|)
    ensures ParseNumber(s, number, i) == Some((NumberNode(raw), i + |raw|))
    ensures i < |s| && (s[i] == '-' || '0' <= s[i] <= '9')
  {
    hide IsNumber, ConsumeNumber, MatchNumber, HasFloatMark;
    var p := CodesOf(s);
    CodesAt(s, i, raw);
    ConsumeNumberExact(p, i, i + |raw|);
    ConsumedIsMatched(p, i);
  }

  // ----- one step of the parser and of the printer -------------------------------------------

  lemma ScalarIsParsed(v: Value, number: ToNumber, s: string, i: nat)
    requires !v.Arr? && !v.Obj?
    requires Printable(v, number) && At(s, i, Print(v)) && Ends(s, i + |Print(v)|)
    ensures ParseValue(s, number, i) == Some((v, i + |Print(v)|))
  {
    hide FindQuote, MatchNumber, ParseObject, ParseArray, GoodNumber, Ends;
    if v.Str? {
      hide ParseString, ParseNumber, ParseLiteral;
      StringIsParsed(s, i, v.text);
    } else if v.Int? || v.Float? {
      hide ParseString, ParseNumber, ParseLiteral;
      NumberIsParsed(s, number, i, v.raw);
    } else {
      hide ParseString, ParseNumber;
      AtIndex(s, i, Print(v), 0);
    }
  }

  lemma SeparatorsEnd(s: string, k: nat)
    requires k < |s| && (s[k] == ',' || s[k] == ']' || s[k] == '}')
    ensures Ends(s, k) && SkipSpace(s, k) == k
  {
  }

  lemma ArrayStep(s: string, number: ToNumber, i: nat)
    requires IsAt(s, i, '[') && i + 1 < |s| && !IsSpace(s[i + 1])
    ensures s[i + 1] == ']' ==> ParseValue(s, number, i) == Some((Arr([]), i + 2))
    ensures s[i + 1] != ']' && ParseElements(s, number, i + 1).Some? ==>
              var elements := ParseElements(s, number, i + 1).value;
              ParseValue(s, number, i) == Some((Arr(elements.0), elements.1))
  {
    assert SkipSpace(s, i) == i && SkipSpace(s, i + 1) == i + 1;
  }

  lemma ObjectStep(s: string, number: ToNumber, i: nat)
    requires IsAt(s, i, '{') && i + 1 < |s| && !IsSpace(s[i + 1])
    ensures s[i + 1] == '}' ==> ParseValue(s, number, i) == Some((Obj([]), i + 2))
    ensures s[i + 1] != '}' && ParseMembers(s, number, i + 1, {}).Some? ==>
              var members := ParseMembers(s, number, i + 1, {}).value;
              ParseValue(s, number, i) == Some((Obj(members.0), members.1))
  {
    assert SkipSpace(s, i) == i && SkipSpace(s, i + 1) == i + 1;
  }

  lemma ElementsStep(s: string, number: ToNumber, i: nat, v: Value, k: nat)
    requires ParseValue(s, number, i) == Some((v, k)) && (IsAt(s, k, ']') || IsAt(s, k, ','))
    ensures s[k] == ']' ==> ParseElements(s, number, i) == Some(([v], k + 1))
    ensures s[k] == ',' && ParseElements(s, number, k + 1).Some? ==>
              var rest := ParseElements(s, number, k + 1).value;
              ParseElements(s, number, i) == Some(([v] + rest.0, rest.1))
  {
    hide ParseElements, ParseValue;
    ElementsUnfold(s, number, i);
    SeparatorsEnd(s, k);
  }

  lemma MembersStep(s: string, number: ToNumber, i: nat, seen: set<string>, member: (string, Value), k: nat)
    requires ParseMember(s, number, i, seen) == Some((member, k)) && (IsAt(s, k, '}') || IsAt(s, k, ','))
    ensures s[k] == '}' ==> ParseMembers(s, number, i, seen) == Some(([member], k + 1))
    ensures s[k] == ',' && ParseMembers(s, number, k + 1, seen + {member.0}).Some? ==>
              var rest := ParseMembers(s, number, k + 1, seen + {member.0}).value;
              ParseMembers(s, number, i, seen) == Some(([member] + rest.0, rest.1))
  {
    hide ParseMembers, ParseMember;
    MembersUnfold(s, number, i, seen);
    SeparatorsEnd(s, k);
  }

  lemma MemberStep(s: string, number: ToNumber, i: nat, seen: set<string>, key: string, j: nat, v: Value, k: nat)
    requires IsAt(s, i, '"') && ParseString(s, i) == Some((key, j)) && key !in seen
    requires IsAt(s, j, ':') && ParseValue(s, number, j + 1) == Some((v, k))
    ensures ParseMember(s, number, i, seen) == Some(((key, v), k))
  {
    hide SkipSpace, ParseString, ParseValue;
    NothingSkipped(s, i);
    NothingSkipped(s, j);
  }

  lemma NothingSkipped(s: string, k: nat)
    requires k < |s| && !IsSpace(s[k])
    ensures SkipSpace(s, k) == k
  {
  }

  lemma ElementsPrinted(items: seq<Value>)
    requires items != []
    ensures PrintElements(items) == Print(items[0]) + if |items| == 1 then "]" else "," + PrintElements(items[1..])
  {
  }

  lemma MembersPrinted(fields: seq<(string, Value)>)
    requires fields != []
    ensures PrintMembers(fields)
            == PrintMember(fields[0]) + if |fields| == 1 then "}" else "," + PrintMembers(fields[1..])
  {
  }

  /** A printed value is not empty and starts with none of the closing or separating characters. */
  lemma {:induction false} FirstChar(v: Value, number: ToNumber)
    requires Printable(v, number)
    ensures Print(v) != "" && !IsSpace(Print(v)[0]) && Print(v)[0] != ']'
  {
    if v.Int? || v.Float? {
      var raw := v.raw;
      ConsumeNumberExact(CodesOf(raw), 0, |raw|);
      assert CodesOf(raw)[0..|raw|] == CodesOf(raw);
      ConsumedIsMatched(CodesOf(raw), 0);
    }
  }

  // ----- values -----------------------------------------------------------------------------

  lemma {:induction false} ValueIsParsed(v: Value, number: ToNumber, s: string, i: nat)
    requires Printable(v, number) && At(s, i, Print(v)) && Ends(s, i + |Print(v)|)
    ensures ParseValue(s, number, i) == Some((v, i + |Print(v)|))
    decreases v, 0
  {
    hide ParseValue, Print, Ends, At;
    if v.Arr? {
      ArrayIsParsed(v.items, number, s, i);
    } else if v.Obj? {
      ObjectIsParsed(v.fields, number, s, i);
    } else {
      ScalarIsParsed(v, number, s, i);
    }
  }

  ghost predicate AllPrintable(items: seq<Value>, number: ToNumber) {
    forall k :: 0 <= k < |items| ==> Printable(items[k], number)
  }

  ghost predicate FieldsPrintable(fields: seq<(string, Value)>, number: ToNumber) {
    forall k :: 0 <= k < |fields| ==> PlainText(fields[k].0) && Printable(fields[k].1, number)
  }

  lemma ArrayText(items: seq<Value>)
    ensures Print(Arr(items)) == if items == [] then "[]" else "[" + PrintElements(items)
  {
    hide PrintElements;
  }

  lemma ObjectText(fields: seq<(string, Value)>)
    ensures Print(Obj(fields)) == if fields == [] then "{}" else "{" + PrintMembers(fields)
  {
    hide PrintMembers;
  }

  lemma ArrayPrinted(items: seq<Value>, number: ToNumber, s: string, i: nat)
    requires AllPrintable(items, number) && At(s, i, Print(Arr(items)))
    ensures IsAt(s, i, '[') && i + 1 < |s| && !IsSpace(s[i + 1])
    ensures if items == [] then s[i + 1] == ']' && Print(Arr(items)) == "[]"
            else && s[i + 1] != ']' && At(s, i + 1, PrintElements(items))
                 && |Print(Arr(items))| == 1 + |PrintElements(items)|
  {
    hide Print, PrintElements, At, Printable;
    ArrayText(items);
    AtIndex(s, i, Print(Arr(items)), 0);
    if items == [] {
      AtIndex(s, i, "[]", 1);
    } else {
      AtSplit(s, i, "[", PrintElements(items));
      FirstChar(items[0], number);
      ElementsPrinted(items);
      AtIndex(s, i + 1, PrintElements(items), 0);
    }
  }

  lemma {:induction false} ArrayIsParsed(items: seq<Value>, number: ToNumber, s: string, i: nat)
    requires AllPrintable(items, number) && At(s, i, Print(Arr(items)))
    ensures ParseValue(s, number, i) == Some((Arr(items), i + |Print(Arr(items))|))
    decreases items, 2
  {
    hide ParseValue, ParseElements, Print, PrintElements, At, AllPrintable;
    ArrayPrinted(items, number, s, i);
    if items != [] {
      ElementsAreParsed(items, number, s, i + 1);
    }
    ArrayStep(s, number, i);
  }

  lemma ObjectPrinted(fields: seq<(string, Value)>, s: string, i: nat)
    requires At(s, i, Print(Obj(fields)))
    ensures IsAt(s, i, '{') && i + 1 < |s| && !IsSpace(s[i + 1])
    ensures if fields == [] then s[i + 1] == '}' && Print(Obj(fields)) == "{}"
            else && s[i + 1] != '}' && At(s, i + 1, PrintMembers(fields))
                 && |Print(Obj(fields))| == 1 + |PrintMembers(fields)|
  {
    hide Print, PrintMembers, At;
    ObjectText(fields);
    AtIndex(s, i, Print(Obj(fields)), 0);
    if fields == [] {
      AtIndex(s, i, "{}", 1);
    } else {
      AtSplit(s, i, "{", PrintMembers(fields));
      MembersPrinted(fields);
      AtIndex(s, i + 1, PrintMembers(fields), 0);
    }
  }

  lemma {:induction false} ObjectIsParsed(fields: seq<(string, Value)>, number: ToNumber, s: string, i: nat)
    requires DistinctKeys(fields) && FieldsPrintable(fields, number) && At(s, i, Print(Obj(fields)))
    ensures ParseValue(s, number, i) == Some((Obj(fields), i + |Print(Obj(fields))|))
    decreases fields, 4
  {
    hide ParseValue, ParseMembers, Print, PrintMembers, At, FieldsPrintable;
    ObjectPrinted(fields, s, i);
    if fields != [] {
      MembersAreParsed(fields, number, s, i + 1, {});
    }
    ObjectStep(s, number, i);
  }

  lemma ElementsLaidOut(items: seq<Value>, s: string, i: nat) returns (k: nat)
    requires items != [] && At(s, i, PrintElements(items))
    ensures k == i + |Print(items[0])| && At(s, i, Print(items[0])) && Ends(s, k) && k < |s|
    ensures if |items| == 1 then s[k] == ']' && i + |PrintElements(items)| == k + 1
            else && s[k] == ',' && At(s, k + 1, PrintElements(items[1..]))
                 && i + |PrintElements(items)| == k + 1 + |PrintElements(items[1..])|
  {
    hide Print, PrintElements, At, Ends, SkipSpace;
    var first := Print(items[0]);
    var after := if |items| == 1 then "]" else "," + PrintElements(items[1..]);
    k := i + |first|;
    ElementsPrinted(items);
    AtSplit(s, i, first, after);
    AtIndex(s, k, after, 0);
    SeparatorsEnd(s, k);
    if |items| > 1 {
      AtSplit(s, k, ",", PrintElements(items[1..]));
    }
  }

  lemma {:induction false} ElementsAreParsed(items: seq<Value>, number: ToNumber, s: string, i: nat)
    requires items != [] && AllPrintable(items, number)
    requires At(s, i, PrintElements(items))
    ensures ParseElements(s, number, i) == Some((items, i + |PrintElements(items)|))
    decreases items, 1
  {
    hide ParseValue, ParseElements, Print, PrintElements, At, Ends, Printable, SkipSpace;
    var k := ElementsLaidOut(items, s, i);
    ValueIsParsed(items[0], number, s, i);
    if |items| == 1 {
      assert items == [items[0]];
    } else {
      ElementsAreParsed(items[1..], number, s, k + 1);
      assert items == [items[0]] + items[1..];
    }
    ElementsStep(s, number, i, items[0], k);
  }

  lemma {:induction false} MemberIsParsed(field: (string, Value), number: ToNumber, s: string, i: nat, seen: set<string>)
    requires PlainText(field.0) && Printable(field.1, number) && field.0 !in seen
    requires At(s, i, PrintMember(field)) && Ends(s, i + |PrintMember(field)|)
    ensures ParseMember(s, number, i, seen) == Some((field, i + |PrintMember(field)|))
    decreases field, 1
  {
    hide ParseValue, ParseMember, ParseString, Print, Quoted, At, Ends;
    var key, value := Quoted(field.0), Print(field.1);
    assert PrintMember(field) == key + (":" + value);
    AtSplit(s, i, key, ":" + value);
    AtSplit(s, i + |key|, ":", value);
    AtIndex(s, i + |key|, ":", 0);
    StringIsParsed(s, i, field.0);
    ValueIsParsed(field.1, number, s, i + |key| + 1);
    MemberStep(s, number, i, seen, field.0, i + |key|, field.1, i + |PrintMember(field)|);
  }

  /** The first member and what its key leaves for the others. */
  lemma FirstMember(fields: seq<(string, Value)>, number: ToNumber, seen: set<string>)
    requires fields != [] && DistinctKeys(fields) && FieldsPrintable(fields, number)
    requires forall k :: 0 <= k < |fields| ==> fields[k].0 !in seen
    ensures PlainText(fields[0].0) && Printable(fields[0].1, number)
    ensures DistinctKeys(fields[1..]) && FieldsPrintable(fields[1..], number)
    ensures forall k :: 0 <= k < |fields| - 1 ==> fields[1..][k].0 !in seen + {fields[0].0}
  {
    hide PlainText, Printable;
  }

  /** Where the first member ends, what is there, and where the others are. */
  lemma MembersLaidOut(fields: seq<(string, Value)>, s: string, i: nat) returns (k: nat)
    requires fields != [] && At(s, i, PrintMembers(fields))
    ensures k == i + |PrintMember(fields[0])| && At(s, i, PrintMember(fields[0])) && Ends(s, k) && k < |s|
    ensures if |fields| == 1 then s[k] == '}' && i + |PrintMembers(fields)| == k + 1
            else && s[k] == ',' && At(s, k + 1, PrintMembers(fields[1..]))
                 && i + |PrintMembers(fields)| == k + 1 + |PrintMembers(fields[1..])|
  {
    hide PrintMember, PrintMembers, At, Ends, SkipSpace;
    var first := PrintMember(fields[0]);
    var after := if |fields| == 1 then "}" else "," + PrintMembers(fields[1..]);
    k := i + |first|;
    MembersPrinted(fields);
    AtSplit(s, i, first, after);
    AtIndex(s, k, after, 0);
    SeparatorsEnd(s, k);
    if |fields| > 1 {
      AtSplit(s, k, ",", PrintMembers(fields[1..]));
    }
  }

  lemma {:induction false} MembersAreParsed(fields: seq<(string, Value)>, number: ToNumber, s: string, i: nat,
                                            seen: set<string>)
    requires fields != [] && DistinctKeys(fields) && FieldsPrintable(fields, number)
    requires forall k :: 0 <= k < |fields| ==> fields[k].0 !in seen
    requires At(s, i, PrintMembers(fields))
    ensures ParseMembers(s, number, i, seen) == Some((fields, i + |PrintMembers(fields)|))
    decreases fields, 3
  {
    hide ParseMember, ParseMembers, PrintMember, PrintMembers, At, Ends, Printable, PlainText, DistinctKeys, FieldsPrintable,
         SkipSpace;
    FirstMember(fields, number, seen);
    var k := MembersLaidOut(fields, s, i);
    MemberIsParsed(fields[0], number, s, i, seen);
    if |fields| == 1 {
      assert fields == [fields[0]];
    } else {
      MembersAreParsed(fields[1..], number, s, k + 1, seen + {fields[0].0});
      assert fields == [fields[0]] + fields[1..];
    }
    MembersStep(s, number, i, seen, fields[0], k);
  }

  /** Parsing a printed value gives exactly that value back, for values of any depth. */
  lemma {:induction false} ParsePrint(v: Value, number: ToNumber)
    requires Printable(v, number)
    ensures Parse(Print(v), number) == Some(v)
  {
    var s := Print(v);
    assert s[0..|s|] == s;
    ValueIsParsed(v, number, s, 0);
  }
}
