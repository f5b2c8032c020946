/**
 The numbers that the SDK reads from parsed JSON. The parser makes an object for every number, and
 assigning such an object to the key `__proto__` makes it the prototype of another one, which then
 passes the parser's `instanceof` tests. Models sdk/typescript/src/strict-json.ts and the readers of
 sdk/typescript/src/record.ts.
 */
module Numerals {
  import opened Wrappers
  import opened DecimalText
  import opened Json
  import Grouping

  /** Assigning to this key sets the prototype of a JavaScript object and makes no own property. */
  const PROTO: string := "__proto__"

  function Own(fields: seq<(string, Value)>, name: string): Option<Value> {
    var i :- Grouping.Find(fields, name);
    Some(fields[i].1)
  }

  /**
   What a value is as a number: an integer with its lexeme, or with another `raw` property in front
   of it; or a float, whose `value` another property may hide. `None` hides it for good.
   */
  datatype Numeral = Lexeme(raw: string) | Shadowed(text: Option<string>) | Fraction(text: Option<string>)

  function NumeralOf(v: Value): Option<Numeral>
    decreases v
  {
    match v
    case Int(raw) => Some(Lexeme(raw))
    case Float(raw) => Some(Fraction(Some(raw)))
    case Obj(fields) =>
      var i :- Grouping.Find(fields, PROTO);
      var inherited :- NumeralOf(fields[i].1);
      Some(Hidden(fields, inherited))
    case _ => None
  }

  /** An own property hides the one of the prototype; a text may stand for `raw`, nothing for `value`. */
  function Hidden(fields: seq<(string, Value)>, n: Numeral): Numeral {
    match n
    case Fraction(text) => Fraction(if Own(fields, "value").Some? then None else text)
    case _ =>
      match Own(fields, "raw")
      case None => n
      case Some(Str(text)) => Shadowed(Some(text))
      case Some(_) => Shadowed(None)
  }

  // ----- `BigInt` of any text ---------------------------------------------------------------

  /** White space and line ends of ECMAScript. */
  predicate IsBlank(c: char) {
    var n := c as int;
    9 <= n <= 13 || n == 32 || n == 0xA0 || n == 0xFEFF || n == 0x1680 || 0x2000 <= n <= 0x200A
    || n == 0x2028 || n == 0x2029 || n == 0x202F || n == 0x205F || n == 0x3000
  }

  function TrimStart(text: string): string {
    if text != "" && IsBlank(text[0]) then TrimStart(text[1..]) else text
  }

  function Trim(text: string): string {
    if text != "" && IsBlank(text[|text| - 1]) then Trim(text[..|text| - 1]) else TrimStart(text)
  }

  /** The value of a digit in a base up to 16. */
  function DigitIn(c: char): nat {
    if '0' <= c <= '9' then (c - '0') as int
    else if 'a' <= c <= 'f' then (c - 'a') as int + 10
    else if 'A' <= c <= 'F' then (c - 'A') as int + 10
    else 16
  }

  /** `None` if a character is not a digit of the base. */
  function NumberIn(text: string, base: nat): Option<nat> {
    if text == "" then Some(0)
    else
      var high :- NumberIn(text[..|text| - 1], base);
      var low := DigitIn(text[|text| - 1]);
      if low < base then Some(high * base + low) else None
  }

  function Negated(n: Option<nat>): Option<int> {
    if n.Some? then Some(0 - n.value as int) else None
  }

  /** `BigInt(text)`; `None` stands for its exception. */
  function BigInt(text: string): Option<int> {
    var t := Trim(text);
    if t == "" then Some(0)
    else if |t| > 2 && t[..2] in ["0x", "0X"] then NumberIn(t[2..], 16)
    else if |t| > 2 && t[..2] in ["0o", "0O"] then NumberIn(t[2..], 8)
    else if |t| > 2 && t[..2] in ["0b", "0B"] then NumberIn(t[2..], 2)
    else if |t| > 1 && t[0] == '-' then
      Negated(NumberIn(t[1..], 10))
    else if |t| > 1 && t[0] == '+' then NumberIn(t[1..], 10)
    else NumberIn(t, 10)
  }

  /** On digits it is the number that they write. */
  lemma {:induction false} BigIntOfDigits(raw: string)
    requires raw != "" && forall i :: 0 <= i < |raw| ==> '0' <= raw[i] <= '9'
    ensures BigInt(raw) == Some(ValueOf(raw))
  {
    NumberOfDigits(raw);
    assert Trim(raw) == raw;
    if |raw| > 2 {
      assert raw[..2][1] == raw[1];
    }
  }

  lemma {:induction false} NumberOfDigits(raw: string)
    requires forall i :: 0 <= i < |raw| ==> '0' <= raw[i] <= '9'
    ensures NumberIn(raw, 10) == Some(ValueOf(raw))
  {
    if raw != "" {
      NumberOfDigits(raw[..|raw| - 1]);
    }
  }
}
