/** One grammar: the two packages' JSON parsers differ only in numbers that no f64 holds. */
module JsonGrammar {
  import opened Wrappers
  import opened Lexemes
  import opened Json
  import opened PythonRecord

  /** Every float of the value, at any depth, is finite. */
  predicate FiniteFloats(v: Value, number: ToNumber)
    decreases v
  {
    match v
    case Float(raw) => number(raw).Finite?
    case Arr(items) => forall i :: 0 <= i < |items| ==> FiniteFloats(items[i], number)
    case Obj(fields) => forall i :: 0 <= i < |fields| ==> FiniteFloats(fields[i].1, number)
    case _ => true
  }

  predicate AllFinite(items: seq<Value>, number: ToNumber) {
    forall i :: 0 <= i < |items| ==> FiniteFloats(items[i], number)
  }

  predicate FieldsFinite(fields: seq<(string, Value)>, number: ToNumber) {
    forall i :: 0 <= i < |fields| ==> FiniteFloats(fields[i].1, number)
  }

  // ----- what the strict parser keeps of the other one's results ----------------------------

  function Kept(r: Option<(Value, nat)>, number: ToNumber): Option<(Value, nat)> {
    if r.Some? && FiniteFloats(r.value.0, number) then r else None
  }

  function KeptItems(r: Option<(seq<Value>, nat)>, number: ToNumber): Option<(seq<Value>, nat)> {
    if r.Some? && AllFinite(r.value.0, number) then r else None
  }

  function KeptField(r: Option<((string, Value), nat)>, number: ToNumber): Option<((string, Value), nat)> {
    if r.Some? && FiniteFloats(r.value.0.1, number) then r else None
  }

  function KeptFields(r: Option<(seq<(string, Value)>, nat)>, number: ToNumber): Option<(seq<(string, Value)>, nat)> {
    if r.Some? && FieldsFinite(r.value.0, number) then r else None
  }

  lemma KeptMore(first: Value, rest: Option<(seq<Value>, nat)>, number: ToNumber)
    ensures KeptItems(More([first], rest), number)
            == if FiniteFloats(first, number) then More([first], KeptItems(rest, number)) else None
  {
    hide FiniteFloats;
    if rest.Some? {
      var all := [first] + rest.value.0;
      assert AllFinite(all, number) <==> FiniteFloats(first, number) && AllFinite(rest.value.0, number) by {
        assert all[0] == first;
        forall i | 0 <= i < |rest.value.0| ensures all[i + 1] == rest.value.0[i] {
        }
      }
    }
  }

  lemma KeptMoreFields(first: (string, Value), rest: Option<(seq<(string, Value)>, nat)>, number: ToNumber)
    ensures KeptFields(More([first], rest), number)
            == if FiniteFloats(first.1, number) then More([first], KeptFields(rest, number)) else None
  {
    hide FiniteFloats;
    if rest.Some? {
      var all := [first] + rest.value.0;
      assert FieldsFinite(all, number) <==> FiniteFloats(first.1, number) && FieldsFinite(rest.value.0, number) by {
        assert all[0] == first;
        forall i | 0 <= i < |rest.value.0| ensures all[i + 1] == rest.value.0[i] {
        }
      }
    }
  }

  lemma KeptOne(v: Value, end: nat, number: ToNumber)
    ensures KeptItems(Some(([v], end)), number) == if FiniteFloats(v, number) then Some(([v], end)) else None
  {
    hide FiniteFloats;
    assert [v][0] == v;
  }

  lemma KeptOneField(field: (string, Value), end: nat, number: ToNumber)
    ensures KeptFields(Some(([field], end)), number) == if FiniteFloats(field.1, number) then Some(([field], end)) else None
  {
    hide FiniteFloats;
    assert [field][0] == field;
  }

  lemma ScalarKept(s: string, number: ToNumber, i: nat)
    ensures ParseNumber(s, number, i) == Kept(ParseNumber(s, AnyNumber, i), number)
  {
    hide MatchNumber, HasFloatMark;
  }

  lemma {:induction false} ValueKept(s: string, number: ToNumber, start: nat)
    ensures ParseValue(s, number, start) == Kept(ParseValue(s, AnyNumber, start), number)
    decreases |s| - start, 2
  {
    hide ParseObject, ParseArray, ParseNumber, ParseString;
    var i := SkipSpace(s, start);
    if i < |s| {
      if s[i] == '{' {
        ObjectKept(s, number, i);
      } else if s[i] == '[' {
        ArrayKept(s, number, i);
      } else {
        ScalarKept(s, number, i);
      }
    }
  }

  lemma {:induction false} ObjectKept(s: string, number: ToNumber, i: nat)
    requires i < |s|
    ensures ParseObject(s, number, i) == Kept(ParseObject(s, AnyNumber, i), number)
    decreases |s| - i, 1
  {
    hide ParseMembers, SkipSpace;
    var j := SkipSpace(s, i + 1);
    if !IsAt(s, j, '}') {
      MembersKept(s, number, j, {});
    }
  }

  lemma {:induction false} MemberKept(s: string, number: ToNumber, start: nat, seen: set<string>)
    ensures ParseMember(s, number, start, seen) == KeptField(ParseMember(s, AnyNumber, start, seen), number)
    decreases |s| - start, 3
  {
    hide ParseValue, ParseString, SkipSpace, FiniteFloats;
    var i := SkipSpace(s, start);
    if IsAt(s, i, '"') && ParseString(s, i).Some? {
      var key := ParseString(s, i).value;
      var j := SkipSpace(s, key.1);
      ValueKept(s, number, j + 1);
    }
  }

  lemma {:induction false} MembersKept(s: string, number: ToNumber, start: nat, seen: set<string>)
    ensures ParseMembers(s, number, start, seen) == KeptFields(ParseMembers(s, AnyNumber, start, seen), number)
    decreases |s| - start, 4
  {
    hide ParseMember, ParseMembers, SkipSpace, FiniteFloats;
    MembersUnfold(s, number, start, seen);
    MembersUnfold(s, AnyNumber, start, seen);
    MemberKept(s, number, start, seen);
    var r := ParseMember(s, AnyNumber, start, seen);
    if r.Some? {
      var k := SkipSpace(s, r.value.1);
      KeptOneField(r.value.0, k + 1, number);
      if IsAt(s, k, ',') {
        MembersKept(s, number, k + 1, seen + {r.value.0.0});
        KeptMoreFields(r.value.0, ParseMembers(s, AnyNumber, k + 1, seen + {r.value.0.0}), number);
      }
    }
  }

  lemma {:induction false} ArrayKept(s: string, number: ToNumber, i: nat)
    requires i < |s|
    ensures ParseArray(s, number, i) == Kept(ParseArray(s, AnyNumber, i), number)
    decreases |s| - i, 1
  {
    hide ParseElements, SkipSpace;
    var j := SkipSpace(s, i + 1);
    if !IsAt(s, j, ']') {
      ElementsKept(s, number, j);
    }
  }

  lemma {:induction false} ElementsKept(s: string, number: ToNumber, start: nat)
    ensures ParseElements(s, number, start) == KeptItems(ParseElements(s, AnyNumber, start), number)
    decreases |s| - start, 3
  {
    hide ParseValue, ParseElements, SkipSpace, FiniteFloats;
    ElementsUnfold(s, number, start);
    ElementsUnfold(s, AnyNumber, start);
    ValueKept(s, number, start);
    var r := ParseValue(s, AnyNumber, start);
    if r.Some? {
      var k := SkipSpace(s, r.value.1);
      KeptOne(r.value.0, k + 1, number);
      if IsAt(s, k, ',') {
        ElementsKept(s, number, k + 1);
        KeptMore(r.value.0, ParseElements(s, AnyNumber, k + 1), number);
      }
    }
  }

  /** The strict parser accepts what the other one accepts with finite floats, with the same value. */
  lemma ParseKept(s: string, number: ToNumber, v: Value)
    ensures Parse(s, number) == Some(v) <==> Parse(s, AnyNumber) == Some(v) && FiniteFloats(v, number)
  {
    hide ParseValue, SkipSpace, FiniteFloats;
    ValueKept(s, number, 0);
  }

  // ----- no escapes -------------------------------------------------------------------------

  ghost predicate Plainly(s: string, i: nat, j: nat) {
    forall k :: i <= k < j && k < |s| ==> s[k] != '\\'
  }

  lemma {:induction false} SpacePlainly(s: string, i: nat)
    ensures Plainly(s, i, SkipSpace(s, i))
    decreases |s| - i
  {
    if i < |s| && IsSpace(s[i]) {
      SpacePlainly(s, i + 1);
    }
  }

  lemma {:induction false} TextPlainly(s: string, i: nat)
    requires FindQuote(s, i).Some?
    ensures Plainly(s, i, FindQuote(s, i).value + 1)
    decreases |s| - i
  {
    if s[i] != '"' {
      TextPlainly(s, i + 1);
    }
  }

  lemma StringPlainly(s: string, i: nat)
    requires IsAt(s, i, '"') && ParseString(s, i).Some?
    ensures Plainly(s, i, ParseString(s, i).value.1)
  {
    hide FindQuote;
    TextPlainly(s, i + 1);
  }

  lemma {:induction false} DigitsPlainly(p: Codes, i: nat, k: nat)
    requires i <= k < SkipDigits(p, i)
    ensures HasDigit(p, k)
    decreases |p| - i
  {
    if HasDigit(p, i) && k > i {
      DigitsPlainly(p, i + 1, k);
    }
  }

  /** The characters of a number: digits, signs, a point and exponent marks. */
  lemma MatchedCharacters(p: Codes, i: nat, k: nat)
    requires MatchNumber(p, i).Some? && i <= k < MatchNumber(p, i).value
    ensures k < |p| && (HasDigit(p, k) || HasSign(p, k) || Has(p, k, POINT) || HasExponentMark(p, k))
  {
    hide SkipDigits;
    var a := if Has(p, i, MINUS) then i + 1 else i;
    var j := if p[a] == ZERO then a + 1 else SkipDigits(p, a + 1);
    var e := if Has(p, j, POINT) && HasDigit(p, j + 1) then SkipDigits(p, j + 1) else j;
    var digits := if HasSign(p, e + 1) then e + 2 else e + 1;
    if a < k < j {
      DigitsPlainly(p, a + 1, k);
    } else if j < k < e {
      DigitsPlainly(p, j + 1, k);
    } else if digits <= k {
      DigitsPlainly(p, digits, k);
    }
  }

  lemma NumberPlainly(s: string, number: ToNumber, i: nat)
    requires ParseNumber(s, number, i).Some?
    ensures Plainly(s, i, ParseNumber(s, number, i).value.1)
  {
    hide MatchNumber, HasFloatMark;
    var p := CodesOf(s);
    forall k | i <= k < MatchNumber(p, i).value ensures s[k] != '\\' {
      MatchedCharacters(p, i, k);
      assert p[k] == s[k] as int;
    }
  }

  lemma LiteralPlainly(s: string, i: nat, literal: string, v: Value)
    requires literal != "" && ParseLiteral(s, i, literal, v).Some? && '\\' !in literal
    ensures Plainly(s, i, ParseLiteral(s, i, literal, v).value.1)
  {
    forall k | i <= k < i + |literal| ensures s[k] != '\\' {
      assert s[k] == s[i..i + |literal|][k - i] == literal[k - i];
    }
  }

  lemma {:induction false} ValuePlainly(s: string, number: ToNumber, start: nat)
    requires ParseValue(s, number, start).Some?
    ensures Plainly(s, start, ParseValue(s, number, start).value.1)
    decreases |s| - start, 2
  {
    hide ParseObject, ParseArray, ParseNumber, ParseString, ParseLiteral, SkipSpace;
    var i := SkipSpace(s, start);
    SpacePlainly(s, start);
    if s[i] == '{' {
      ObjectPlainly(s, number, i);
    } else if s[i] == '[' {
      ArrayPlainly(s, number, i);
    } else if s[i] == '"' {
      StringPlainly(s, i);
    } else if s[i] == 't' {
      LiteralPlainly(s, i, "true", Bool(true));
    } else if s[i] == 'f' {
      LiteralPlainly(s, i, "false", Bool(false));
    } else if s[i] == 'n' {
      LiteralPlainly(s, i, "null", Null);
    } else {
      NumberPlainly(s, number, i);
    }
  }

  lemma {:induction false} ObjectPlainly(s: string, number: ToNumber, i: nat)
    requires IsAt(s, i, '{') && ParseObject(s, number, i).Some?
    ensures Plainly(s, i, ParseObject(s, number, i).value.1)
    decreases |s| - i, 1
  {
    hide ParseMembers, SkipSpace;
    var j := SkipSpace(s, i + 1);
    SpacePlainly(s, i + 1);
    if !IsAt(s, j, '}') {
      MembersPlainly(s, number, j, {});
    }
  }

  lemma {:induction false} MemberPlainly(s: string, number: ToNumber, start: nat, seen: set<string>)
    requires ParseMember(s, number, start, seen).Some?
    ensures Plainly(s, start, ParseMember(s, number, start, seen).value.1)
    decreases |s| - start, 3
  {
    hide ParseValue, ParseString, SkipSpace;
    var i := SkipSpace(s, start);
    var key := ParseString(s, i).value;
    var j := SkipSpace(s, key.1);
    SpacePlainly(s, start);
    StringPlainly(s, i);
    SpacePlainly(s, key.1);
    ValuePlainly(s, number, j + 1);
  }

  lemma {:induction false} MembersPlainly(s: string, number: ToNumber, start: nat, seen: set<string>)
    requires ParseMembers(s, number, start, seen).Some?
    ensures Plainly(s, start, ParseMembers(s, number, start, seen).value.1)
    decreases |s| - start, 4
  {
    hide ParseMember, ParseMembers, SkipSpace;
    MembersUnfold(s, number, start, seen);
    MemberPlainly(s, number, start, seen);
    var r := ParseMember(s, number, start, seen).value;
    var k := SkipSpace(s, r.1);
    SpacePlainly(s, r.1);
    if IsAt(s, k, ',') {
      MembersPlainly(s, number, k + 1, seen + {r.0.0});
    }
  }

  lemma {:induction false} ArrayPlainly(s: string, number: ToNumber, i: nat)
    requires IsAt(s, i, '[') && ParseArray(s, number, i).Some?
    ensures Plainly(s, i, ParseArray(s, number, i).value.1)
    decreases |s| - i, 1
  {
    hide ParseElements, SkipSpace;
    var j := SkipSpace(s, i + 1);
    SpacePlainly(s, i + 1);
    if !IsAt(s, j, ']') {
      ElementsPlainly(s, number, j);
    }
  }

  lemma {:induction false} ElementsPlainly(s: string, number: ToNumber, start: nat)
    requires ParseElements(s, number, start).Some?
    ensures Plainly(s, start, ParseElements(s, number, start).value.1)
    decreases |s| - start, 3
  {
    hide ParseValue, ParseElements, SkipSpace;
    ElementsUnfold(s, number, start);
    ValuePlainly(s, number, start);
    var r := ParseValue(s, number, start).value;
    var k := SkipSpace(s, r.1);
    SpacePlainly(s, r.1);
    if IsAt(s, k, ',') {
      ElementsPlainly(s, number, k + 1);
    }
  }

  /** A text that either parser accepts has no escape sequence. */
  lemma NoEscapes(s: string, number: ToNumber)
    requires Parse(s, number).Some?
    ensures '\\' !in s
  {
    hide ParseValue, SkipSpace;
    var end := ParseValue(s, number, 0).value.1;
    ValuePlainly(s, number, 0);
    SpacePlainly(s, end);
    forall k | 0 <= k < |s| ensures s[k] != '\\' {
    }
  }

  /** `json.loads` gives the value that the strict parser gives, and those with other floats. */
  lemma LoadsIs(s: string, number: ToNumber, v: Value)
    ensures Parse(s, number) == Some(v) <==> Loads(s) == Some(v) && FiniteFloats(v, number)
  {
    hide Parse, FiniteFloats;
    ParseKept(s, number, v);
    if Parse(s, AnyNumber).Some? {
      NoEscapes(s, AnyNumber);
    }
  }
}
