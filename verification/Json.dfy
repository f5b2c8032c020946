/**
 Strict JSON: the value type, the grammar that the TypeScript parser accepts, and a compact
 printer. Models sdk/typescript/src/strict-json.ts.
 A Dafny `char` is a Unicode scalar value, as the SDK demands of its input.
 */
module Json {
  import opened Wrappers
  import opened Lexemes
  import opened RegistryRecord

  /**
   `Int` and `Float` keep their lexeme. `Obj` lists the assignments to the result object, in
   order; their keys are distinct.
   */
  datatype Value =
    | Null
    | Bool(value: bool)
    | Str(text: string)
    | Int(raw: string)
    | Float(raw: string)
    | Arr(items: seq<Value>)
    | Obj(fields: seq<(string, Value)>)

  /** JavaScript's `Number`: the f64 that a number lexeme denotes. */
  type ToNumber = string -> F64

  function CodesOf(s: string): (codes: Codes)
    ensures |codes| == |s|
    ensures forall i :: 0 <= i < |s| ==> codes[i] == s[i] as int
  {
    seq(|s|, i requires 0 <= i < |s| => s[i] as int)
  }

  predicate IsAt(s: string, i: nat, c: char) {
    i < |s| && s[i] == c
  }

  predicate IsSpace(c: char) {
    c == ' ' || c == '\t' || c == '\n' || c == '\r'
  }

  function SkipSpace(s: string, i: nat): (j: nat)
    ensures i <= j
    ensures i <= |s| ==> j <= |s|
    decreases |s| - i
  {
    if i < |s| && IsSpace(s[i]) then SkipSpace(s, i + 1) else i
  }

  // ----- tokens -----------------------------------------------------------------------------

  /** The position of the closing quote of a string whose text starts at `i`. */
  function FindQuote(s: string, i: nat): (end: Option<nat>)
    ensures end.Some? ==> i <= end.value < |s|
    decreases |s| - i
  {
    if i >= |s| then None
    else if s[i] == '"' then Some(i)
    else if !Plain(s[i]) then None
    else FindQuote(s, i + 1)
  }

  /** `parseString`, called on the opening quote. */
  function ParseString(s: string, i: nat): (r: Option<(string, nat)>)
    requires i < |s|
    ensures r.Some? ==> i < r.value.1 <= |s|
  {
    var end :- FindQuote(s, i + 1);
    Some((s[i + 1..end], end + 1))
  }

  /**
   The longest match of the number expression of `parseNumber`. Unlike the contract's scanner it
   stops quietly where an optional part is malformed.
   */
  function MatchNumber(p: Codes, start: nat): (end: Option<nat>)
    ensures end.Some? ==> start < end.value <= |p|
  {
    var i := if Has(p, start, MINUS) then start + 1 else start;
    if !HasDigit(p, i) then None
    else
      var j := if p[i] == ZERO then i + 1 else SkipDigits(p, i + 1);
      var k := if Has(p, j, POINT) && HasDigit(p, j + 1) then SkipDigits(p, j + 1) else j;
      var digits := if HasSign(p, k + 1) then k + 2 else k + 1;
      Some(if HasExponentMark(p, k) && HasDigit(p, digits) then SkipDigits(p, digits) else k)
  }

  /** `/[.eE]/` occurs in the lexeme. */
  predicate HasFloatMark(raw: string) {
    exists i :: 0 <= i < |raw| && (raw[i] == '.' || raw[i] == 'e' || raw[i] == 'E')
  }

  function NumberNode(raw: string): Value {
    if HasFloatMark(raw) then Float(raw) else Int(raw)
  }

  function ParseNumber(s: string, number: ToNumber, i: nat): (r: Option<(Value, nat)>)
    ensures r.Some? ==> i < r.value.1 <= |s|
  {
    var end :- MatchNumber(CodesOf(s), i);
    var raw := s[i..end];
    if HasFloatMark(raw) && number(raw) == NotFinite then None else Some((NumberNode(raw), end))
  }

  function ParseLiteral(s: string, i: nat, literal: string, value: Value): (r: Option<(Value, nat)>)
    requires literal != ""
    ensures r.Some? ==> i < r.value.1 <= |s|
  {
    if i + |literal| <= |s| && s[i..i + |literal|] == literal then Some((value, i + |literal|)) else None
  }

  // ----- values -----------------------------------------------------------------------------

  function ParseValue(s: string, number: ToNumber, start: nat): (r: Option<(Value, nat)>)
    ensures r.Some? ==> start < r.value.1 <= |s|
    decreases |s| - start, 2
  {
    var i := SkipSpace(s, start);
    if i >= |s| then None
    else if s[i] == '{' then ParseObject(s, number, i)
    else if s[i] == '[' then ParseArray(s, number, i)
    else if s[i] == '"' then
      var text :- ParseString(s, i);
      Some((Str(text.0), text.1))
    else if s[i] == 't' then ParseLiteral(s, i, "true", Bool(true))
    else if s[i] == 'f' then ParseLiteral(s, i, "false", Bool(false))
    else if s[i] == 'n' then ParseLiteral(s, i, "null", Null)
    else ParseNumber(s, number, i)
  }

  /** Called on the opening brace. */
  function ParseObject(s: string, number: ToNumber, i: nat): (r: Option<(Value, nat)>)
    requires i < |s|
    ensures r.Some? ==> i < r.value.1 <= |s|
    decreases |s| - i, 1
  {
    var j := SkipSpace(s, i + 1);
    if IsAt(s, j, '}') then Some((Obj([]), j + 1))
    else
      var members :- ParseMembers(s, number, j, {});
      Some((Obj(members.0), members.1))
  }

  /** One key, its colon and its value; `seen` are the earlier keys. */
  function ParseMember(s: string, number: ToNumber, start: nat, seen: set<string>)
    : (r: Option<((string, Value), nat)>)
    ensures r.Some? ==> start < r.value.1 <= |s|
    decreases |s| - start, 3
  {
    var i := SkipSpace(s, start);
    if !IsAt(s, i, '"') then None
    else
      var key :- ParseString(s, i);
      var j := SkipSpace(s, key.1);
      if key.0 in seen || !IsAt(s, j, ':') then None
      else
        var value :- ParseValue(s, number, j + 1);
        Some(((key.0, value.0), value.1))
  }

  /** Members up to and including the closing brace. */
  function ParseMembers(s: string, number: ToNumber, start: nat, seen: set<string>)
    : (r: Option<(seq<(string, Value)>, nat)>)
    ensures r.Some? ==> start < r.value.1 <= |s|
    decreases |s| - start, 4
  {
    var member :- ParseMember(s, number, start, seen);
    var k := SkipSpace(s, member.1);
    if IsAt(s, k, '}') then Some(([member.0], k + 1))
    else if IsAt(s, k, ',') then
      var rest :- ParseMembers(s, number, k + 1, seen + {member.0.0});
      Some(([member.0] + rest.0, rest.1))
    else None
  }

  /** Called on the opening bracket. */
  function ParseArray(s: string, number: ToNumber, i: nat): (r: Option<(Value, nat)>)
    requires i < |s|
    ensures r.Some? ==> i < r.value.1 <= |s|
    decreases |s| - i, 1
  {
    var j := SkipSpace(s, i + 1);
    if IsAt(s, j, ']') then Some((Arr([]), j + 1))
    else
      var elements :- ParseElements(s, number, j);
      Some((Arr(elements.0), elements.1))
  }

  /** Elements up to and including the closing bracket. */
  function ParseElements(s: string, number: ToNumber, start: nat): (r: Option<(seq<Value>, nat)>)
    ensures r.Some? ==> start < r.value.1 <= |s|
    decreases |s| - start, 3
  {
    var value :- ParseValue(s, number, start);
    var k := SkipSpace(s, value.1);
    if IsAt(s, k, ']') then Some(([value.0], k + 1))
    else if IsAt(s, k, ',') then
      var rest :- ParseElements(s, number, k + 1);
      Some(([value.0] + rest.0, rest.1))
    else None
  }

  /** The whole text is one value, between optional white space. */
  function Parse(s: string, number: ToNumber): Option<Value> {
    var value :- ParseValue(s, number, 0);
    if SkipSpace(s, value.1) == |s| then Some(value.0) else None
  }

  // ----- one round of each loop -------------------------------------------------------------

  /** What a loop returns that has collected `done` and would parse `rest` next. */
  ghost function More<T>(done: seq<T>, rest: Option<(seq<T>, nat)>): Option<(seq<T>, nat)> {
    if rest.Some? then Some((done + rest.value.0, rest.value.1)) else None
  }

  lemma MoreLaws<T>(done: seq<T>, next: seq<T>, rest: Option<(seq<T>, nat)>)
    ensures More([], rest) == rest
    ensures More(done, More(next, rest)) == More(done + next, rest)
  {
    if rest.Some? {
      assert [] + rest.value.0 == rest.value.0;
      assert done + (next + rest.value.0) == (done + next) + rest.value.0;
    }
  }

  lemma MembersUnfold(s: string, number: ToNumber, start: nat, seen: set<string>)
    ensures ParseMembers(s, number, start, seen)
            == match ParseMember(s, number, start, seen)
               case None => None
               case Some((member, end)) =>
                 var k := SkipSpace(s, end);
                 if IsAt(s, k, '}') then Some(([member], k + 1))
                 else if IsAt(s, k, ',') then More([member], ParseMembers(s, number, k + 1, seen + {member.0}))
                 else None
  {
    hide ParseMember, SkipSpace, IsAt;
  }

  lemma ElementsUnfold(s: string, number: ToNumber, start: nat)
    ensures ParseElements(s, number, start)
            == match ParseValue(s, number, start)
               case None => None
               case Some((value, end)) =>
                 var k := SkipSpace(s, end);
                 if IsAt(s, k, ']') then Some(([value], k + 1))
                 else if IsAt(s, k, ',') then More([value], ParseElements(s, number, k + 1))
                 else None
  {
  }

  // ----- printer ----------------------------------------------------------------------------

  function Quoted(text: string): string {
    "\"" + text + "\""
  }

  function Print(v: Value): string
    decreases v, 0
  {
    match v
    case Null => "null"
    case Bool(b) => if b then "true" else "false"
    case Str(text) => Quoted(text)
    case Int(raw) => raw
    case Float(raw) => raw
    case Arr(items) => if items == [] then "[]" else "[" + PrintElements(items)
    case Obj(fields) => if fields == [] then "{}" else "{" + PrintMembers(fields)
  }

  function PrintElements(items: seq<Value>): string
    requires items != []
    decreases items, 1
  {
    Print(items[0]) + if |items| == 1 then "]" else "," + PrintElements(items[1..])
  }

  function PrintMember(field: (string, Value)): string
    decreases field, 1
  {
    Quoted(field.0) + ":" + Print(field.1)
  }

  function PrintMembers(fields: seq<(string, Value)>): string
    requires fields != []
    decreases fields, 2
  {
    PrintMember(fields[0]) + if |fields| == 1 then "}" else "," + PrintMembers(fields[1..])
  }

  predicate DistinctKeys(fields: seq<(string, Value)>) {
    forall i, j :: 0 <= i < j < |fields| ==> fields[i].0 != fields[j].0
  }

  ghost predicate GoodNumber(raw: string, number: ToNumber) {
    IsNumber(CodesOf(raw)) && (HasFloatMark(raw) ==> number(raw).Finite?)
  }

  /** Values whose printed form needs no escapes and whose numbers are JSON numbers. */
  ghost predicate Printable(v: Value, number: ToNumber)
    decreases v
  {
    match v
    case Null => true
    case Bool(_) => true
    case Str(text) => PlainText(text)
    case Int(raw) => GoodNumber(raw, number) && !HasFloatMark(raw)
    case Float(raw) => GoodNumber(raw, number) && HasFloatMark(raw)
    case Arr(items) => forall i :: 0 <= i < |items| ==> Printable(items[i], number)
    case Obj(fields) =>
      && DistinctKeys(fields)
      && forall i :: 0 <= i < |fields| ==> PlainText(fields[i].0) && Printable(fields[i].1, number)
  }
}
