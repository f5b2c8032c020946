/**
 Two recognizers agree: every text that the TypeScript parser accepts passes, in UTF-8, the
 byte scanner of the contract.
 */
module JsonLexemes {
  import opened Wrappers
  import opened LittleEndian
  import opened Lexemes
  import opened RegistryRecord
  import opened Json
  import Utf8

  // ----- on code points ---------------------------------------------------------------------

  lemma {:induction false} ScanSpace(s: string, i: nat)
    ensures Scan(CodesOf(s), i, false) == Scan(CodesOf(s), SkipSpace(s, i), false)
    decreases |s| - i
  {
    if i < |s| && IsSpace(s[i]) {
      ScanSpace(s, i + 1);
    }
  }

  lemma {:induction false} ScanText(s: string, i: nat)
    requires FindQuote(s, i).Some?
    ensures Scan(CodesOf(s), i, true) == Scan(CodesOf(s), FindQuote(s, i).value + 1, false)
    decreases |s| - i
  {
    if s[i] != '"' {
      ScanText(s, i + 1);
    }
  }

  lemma ScanString(s: string, i: nat)
    requires IsAt(s, i, '"') && ParseString(s, i).Some?
    ensures Scan(CodesOf(s), i, false) == Scan(CodesOf(s), ParseString(s, i).value.1, false)
  {
    ScanText(s, i + 1);
  }

  lemma ScanOne(s: string, i: nat)
    requires i < |s| && s[i] != '"' && s[i] != '+' && s[i] != '-' && !IsDigit(s[i] as int)
    ensures Scan(CodesOf(s), i, false) == Scan(CodesOf(s), i + 1, false)
  {
  }

  lemma {:induction false} ScanLetters(s: string, i: nat, n: nat)
    requires i <= n <= |s| && forall k :: i <= k < n ==> 'a' <= s[k] <= 'z'
    ensures Scan(CodesOf(s), i, false) == Scan(CodesOf(s), n, false)
    decreases n - i
  {
    if i < n {
      ScanOne(s, i);
      ScanLetters(s, i + 1, n);
    }
  }

  lemma ScanLiteral(s: string, i: nat, literal: string, v: Value)
    requires literal != "" && ParseLiteral(s, i, literal, v).Some?
    requires forall k :: 0 <= k < |literal| ==> 'a' <= literal[k] <= 'z'
    ensures Scan(CodesOf(s), i, false) == Scan(CodesOf(s), i + |literal|, false)
  {
    forall k | i <= k < i + |literal| ensures 'a' <= s[k] <= 'z' {
      assert s[k] == s[i..i + |literal|][k - i];
    }
    ScanLetters(s, i, i + |literal|);
  }

  /** The parser's match is what the scanner consumes, if a delimiter or the end follows. */
  lemma MatchedIsConsumed(p: Codes, i: nat)
    requires MatchNumber(p, i).Some? && Delimited(p, MatchNumber(p, i).value)
    ensures ConsumeNumber(p, i) == MatchNumber(p, i)
    ensures i < |p| && (p[i] == MINUS || IsDigit(p[i]))
  {
    hide SkipDigits;
    var j := if Has(p, i, MINUS) then i + 1 else i;
    if p[j] == ZERO {
      assert !HasDigit(p, j + 1);
    }
  }

  lemma ScanNumber(s: string, number: ToNumber, i: nat)
    requires ParseNumber(s, number, i).Some? && Delimited(CodesOf(s), ParseNumber(s, number, i).value.1)
    ensures Scan(CodesOf(s), i, false) == Scan(CodesOf(s), ParseNumber(s, number, i).value.1, false)
  {
    MatchedIsConsumed(CodesOf(s), i);
  }

  /** White space or a separator after a value delimits it. */
  lemma SpaceDelimits(s: string, i: nat)
    requires i <= |s|
    requires SkipSpace(s, i) == |s|
             || IsAt(s, SkipSpace(s, i), ',') || IsAt(s, SkipSpace(s, i), ']') || IsAt(s, SkipSpace(s, i), '}')
    ensures Delimited(CodesOf(s), i)
  {
  }

  lemma {:induction false} ScanValue(s: string, number: ToNumber, start: nat)
    requires ParseValue(s, number, start).Some?
    requires Delimited(CodesOf(s), ParseValue(s, number, start).value.1)
    ensures Scan(CodesOf(s), start, false) == Scan(CodesOf(s), ParseValue(s, number, start).value.1, false)
    decreases |s| - start, 2
  {
    hide Scan, Delimited, CodesOf;
    var i := SkipSpace(s, start);
    ScanSpace(s, start);
    if s[i] == '{' {
      ScanObject(s, number, i);
    } else if s[i] == '[' {
      ScanArray(s, number, i);
    } else {
      ScanScalar(s, number, start, i);
    }
  }

  lemma ScanScalar(s: string, number: ToNumber, start: nat, i: nat)
    requires i == SkipSpace(s, start) && i < |s| && s[i] != '{' && s[i] != '['
    requires ParseValue(s, number, start).Some?
    requires Delimited(CodesOf(s), ParseValue(s, number, start).value.1)
    ensures Scan(CodesOf(s), i, false) == Scan(CodesOf(s), ParseValue(s, number, start).value.1, false)
  {
    hide Scan, Delimited, CodesOf, ParseObject, ParseArray, ParseString, ParseNumber;
    if s[i] == '"' {
      ScanString(s, i);
    } else if s[i] == 't' {
      ScanLiteral(s, i, "true", Bool(true));
    } else if s[i] == 'f' {
      ScanLiteral(s, i, "false", Bool(false));
    } else if s[i] == 'n' {
      ScanLiteral(s, i, "null", Null);
    } else {
      ScanNumber(s, number, i);
    }
  }

  lemma {:induction false} ScanArray(s: string, number: ToNumber, i: nat)
    requires IsAt(s, i, '[') && ParseArray(s, number, i).Some?
    ensures Scan(CodesOf(s), i, false) == Scan(CodesOf(s), ParseArray(s, number, i).value.1, false)
    decreases |s| - i, 1
  {
    hide Scan, CodesOf, ParseElements;
    var j := SkipSpace(s, i + 1);
    ScanOne(s, i);
    ScanSpace(s, i + 1);
    if IsAt(s, j, ']') {
      ScanOne(s, j);
    } else {
      ScanElements(s, number, j);
    }
  }

  lemma {:induction false} ScanElements(s: string, number: ToNumber, start: nat)
    requires ParseElements(s, number, start).Some?
    ensures Scan(CodesOf(s), start, false) == Scan(CodesOf(s), ParseElements(s, number, start).value.1, false)
    decreases |s| - start, 3
  {
    hide Scan, Delimited, CodesOf, ParseValue, ParseElements;
    ElementsUnfold(s, number, start);
    var end := ParseValue(s, number, start).value.1;
    var k := SkipSpace(s, end);
    SpaceDelimits(s, end);
    ScanValue(s, number, start);
    ScanSpace(s, end);
    ScanOne(s, k);
    if s[k] == ',' {
      ScanElements(s, number, k + 1);
    }
  }

  lemma {:induction false} ScanObject(s: string, number: ToNumber, i: nat)
    requires IsAt(s, i, '{') && ParseObject(s, number, i).Some?
    ensures Scan(CodesOf(s), i, false) == Scan(CodesOf(s), ParseObject(s, number, i).value.1, false)
    decreases |s| - i, 1
  {
    hide Scan, CodesOf, ParseMembers;
    var j := SkipSpace(s, i + 1);
    ScanOne(s, i);
    ScanSpace(s, i + 1);
    if IsAt(s, j, '}') {
      ScanOne(s, j);
    } else {
      ScanMembers(s, number, j, {});
    }
  }

  lemma {:induction false} ScanMembers(s: string, number: ToNumber, start: nat, seen: set<string>)
    requires ParseMembers(s, number, start, seen).Some?
    ensures Scan(CodesOf(s), start, false) == Scan(CodesOf(s), ParseMembers(s, number, start, seen).value.1, false)
    decreases |s| - start, 4
  {
    hide Scan, Delimited, CodesOf, ParseMember, ParseMembers;
    MembersUnfold(s, number, start, seen);
    var member, end := ParseMember(s, number, start, seen).value.0, ParseMember(s, number, start, seen).value.1;
    var k := SkipSpace(s, end);
    SpaceDelimits(s, end);
    ScanMember(s, number, start, seen);
    ScanSpace(s, end);
    ScanOne(s, k);
    if s[k] == ',' {
      ScanMembers(s, number, k + 1, seen + {member.0});
    }
  }

  lemma {:induction false} ScanMember(s: string, number: ToNumber, start: nat, seen: set<string>)
    requires ParseMember(s, number, start, seen).Some?
    requires Delimited(CodesOf(s), ParseMember(s, number, start, seen).value.1)
    ensures Scan(CodesOf(s), start, false) == Scan(CodesOf(s), ParseMember(s, number, start, seen).value.1, false)
    decreases |s| - start, 3
  {
    hide Scan, Delimited, CodesOf, ParseValue, ParseString;
    var i := SkipSpace(s, start);
    var key := ParseString(s, i).value;
    var j := SkipSpace(s, key.1);
    ScanSpace(s, start);
    ScanString(s, i);
    ScanSpace(s, key.1);
    ScanOne(s, j);
    ScanValue(s, number, j + 1);
  }

  lemma {:induction false} AcceptedCodesAreStrict(s: string, number: ToNumber)
    requires Parse(s, number).Some?
    ensures HasStrictLexemes(CodesOf(s))
  {
    var end := ParseValue(s, number, 0).value.1;
    SpaceDelimits(s, end);
    ScanValue(s, number, 0);
    ScanSpace(s, end);
  }

  // ----- on UTF-8 bytes ---------------------------------------------------------------------

  /** From byte `m` on, `b` is the encoding of `s` from position `i` on. */
  ghost predicate Tail(b: Bytes, m: nat, s: string, i: nat) {
    m <= |b| && b[m..] == Utf8.EncodeFrom(s, i)
  }

  lemma TailBounds(b: Bytes, m: nat, s: string, i: nat)
    requires Tail(b, m, s, i) && i <= |s|
    ensures m <= |b| && (i == |s| <==> m == |b|)
  {
  }

  lemma TailStep(b: Bytes, m: nat, s: string, i: nat)
    requires Tail(b, m, s, i) && i < |s|
    ensures Tail(b, m + |Utf8.EncodeChar(s[i])|, s, i + 1)
    ensures b[m..m + |Utf8.EncodeChar(s[i])|] == Utf8.EncodeChar(s[i])
    ensures m < |b| && b[m] == Utf8.EncodeChar(s[i])[0]
  {
    var c := Utf8.EncodeChar(s[i]);
    assert b[m..][..|c|] == b[m..m + |c|];
    assert b[m..][|c|..] == b[m + |c|..];
    assert b[m..][0] == b[m];
  }

  /** The ASCII part of a text is the same in bytes. */
  lemma {:induction false} TailAscii(b: Bytes, m: nat, s: string, i: nat, n: nat)
    requires Tail(b, m, s, i) && i <= n <= |s| && forall k :: i <= k < n ==> s[k] as int < 0x80
    ensures Tail(b, m + n - i, s, n) && b[m..m + n - i] == CodesOf(s)[i..n]
    decreases n - i
  {
    hide Utf8.EncodeFrom;
    if i < n {
      TailStep(b, m, s, i);
      TailAscii(b, m + 1, s, i + 1, n);
      assert b[m..m + n - i] == [b[m]] + b[m + 1..m + n - i];
      assert CodesOf(s)[i..n] == [CodesOf(s)[i]] + CodesOf(s)[i + 1..n];
    }
  }

  lemma {:induction false} ScanHighBytes(b: Bytes, m: nat, w: nat, inString: bool)
    requires m + w <= |b| && forall k :: m <= k < m + w ==> b[k] >= 0x80
    ensures Scan(b, m, inString) == Scan(b, m + w, inString)
    decreases w
  {
    if w > 0 {
      ScanHighBytes(b, m + 1, w - 1, inString);
    }
  }

  lemma NumberInBytes(b: Bytes, m: nat, s: string, i: nat)
    requires Tail(b, m, s, i) && ConsumeNumber(CodesOf(s), i).Some?
    ensures var n := ConsumeNumber(CodesOf(s), i).value;
            Tail(b, m + n - i, s, n) && ConsumeNumber(b, m) == Some(m + n - i)
  {
    hide ConsumeNumber, IsNumber, Tail;
    var p := CodesOf(s);
    var n := ConsumeNumber(p, i).value;
    ConsumeNumberExact(p, i, n);
    forall k | i <= k < n ensures s[k] as int < 0x80 {
      NumberIsAscii(p[i..n], k - i);
    }
    TailAscii(b, m, s, i, n);
    TailBounds(b, m + n - i, s, n);
    if n < |s| {
      TailStep(b, m + n - i, s, n);
    }
    ConsumeNumberExact(b, m, m + n - i);
  }

  /** Away from numbers, one ASCII character is scanned like the byte it is. */
  lemma ScanAsciiStep(b: Bytes, m: nat, p: Codes, i: nat, inString: bool)
    requires i < |p| && m < |b| && b[m] == p[i]
    requires inString || (p[i] != MINUS && !IsDigit(p[i]))
    requires Scan(p, i, inString)
    ensures var after := if p[i] == QUOTE then !inString else inString;
            Scan(p, i + 1, after) && (Scan(b, m + 1, after) ==> Scan(b, m, inString))
  {
  }

  lemma ScanHighStep(p: Codes, i: nat, inString: bool)
    requires i < |p| && p[i] >= 0x80 && Scan(p, i, inString)
    ensures Scan(p, i + 1, inString)
  {
  }

  lemma ScanNumberStep(p: Codes, i: nat)
    requires i < |p| && (p[i] == MINUS || IsDigit(p[i]))
    ensures Scan(p, i, false) <==> ConsumeNumber(p, i).Some? && Scan(p, ConsumeNumber(p, i).value, false)
  {
  }

  lemma HighBytes(b: Bytes, m: nat, c: char)
    requires m + |Utf8.EncodeChar(c)| <= |b| && b[m..m + |Utf8.EncodeChar(c)|] == Utf8.EncodeChar(c)
    requires c as int >= 0x80
    ensures forall k :: m <= k < m + |Utf8.EncodeChar(c)| ==> b[k] >= 0x80
  {
    hide Utf8.EncodeChar;
    var w := |Utf8.EncodeChar(c)|;
    forall k | m <= k < m + w ensures b[k] >= 0x80 {
      assert b[k] == b[m..m + w][k - m];
    }
  }

  /** One character, or one whole number, is scanned alike in code points and in bytes. */
  lemma BytesStep(b: Bytes, m: nat, s: string, i: nat, inString: bool) returns (m': nat, i': nat, after: bool)
    requires Tail(b, m, s, i) && i < |s| && Scan(CodesOf(s), i, inString)
    ensures i < i' <= |s| && Tail(b, m', s, i')
    ensures Scan(CodesOf(s), i', after) && (Scan(b, m', after) ==> Scan(b, m, inString))
  {
    hide Tail, Scan, Utf8.EncodeFrom, Utf8.EncodeChar, ConsumeNumber;
    var p := CodesOf(s);
    if !inString && (p[i] == MINUS || IsDigit(p[i])) {
      m', i', after := NumberBytesStep(b, m, s, i);
    } else {
      var w := |Utf8.EncodeChar(s[i])|;
      TailStep(b, m, s, i);
      TailBounds(b, m + w, s, i + 1);
      m', i' := m + w, i + 1;
      if p[i] >= 0x80 {
        after := inString;
        HighBytes(b, m, s[i]);
        ScanHighStep(p, i, inString);
        ScanHighBytes(b, m, w, inString);
      } else {
        after := if p[i] == QUOTE then !inString else inString;
        ScanAsciiStep(b, m, p, i, inString);
      }
    }
  }

  lemma NumberBytesStep(b: Bytes, m: nat, s: string, i: nat) returns (m': nat, i': nat, after: bool)
    requires Tail(b, m, s, i) && i < |s| && Scan(CodesOf(s), i, false)
    requires CodesOf(s)[i] == MINUS || IsDigit(CodesOf(s)[i])
    ensures i < i' <= |s| && Tail(b, m', s, i')
    ensures Scan(CodesOf(s), i', after) && (Scan(b, m', after) ==> Scan(b, m, false))
  {
    hide Tail, Scan, Utf8.EncodeFrom, Utf8.EncodeChar, ConsumeNumber;
    var p := CodesOf(s);
    ScanNumberStep(p, i);
    NumberInBytes(b, m, s, i);
    TailBounds(b, m, s, i);
    TailStep(b, m, s, i);
    ScanNumberStep(b, m);
    i', after := ConsumeNumber(p, i).value, false;
    m' := m + i' - i;
  }

  lemma {:induction false} ScanBytes(b: Bytes, m: nat, s: string, i: nat, inString: bool)
    requires Tail(b, m, s, i) && i <= |s|
    requires Scan(CodesOf(s), i, inString)
    ensures Scan(b, m, inString)
    decreases |s| - i
  {
    if i < |s| {
      hide Tail, Scan;
      var m', i', after := BytesStep(b, m, s, i, inString);
      ScanBytes(b, m', s, i', after);
    } else {
      TailBounds(b, m, s, i);
    }
  }

  /** Every text that the strict parser accepts has strict lexemes for the contract. */
  lemma {:induction false} AcceptedIsStrict(s: string, number: ToNumber)
    requires Parse(s, number).Some?
    ensures HasStrictLexemes(Utf8.Encode(s))
  {
    AcceptedCodesAreStrict(s, number);
    assert Utf8.Encode(s)[0..] == Utf8.Encode(s);
    ScanBytes(Utf8.Encode(s), 0, s, 0, false);
  }
}
