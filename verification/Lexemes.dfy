/**
 The byte scanner of the contract: which payloads have strict JSON lexemes.
 Models contracts/registry-v2/src/record.rs, and states the number grammar of
 RFC 8259 section 6 on its own.
 */
module Lexemes {
  import opened Wrappers

  /** Bytes or code points; the scanner only looks at ASCII values. */
  type Codes = seq<int>

  const QUOTE: int := 34
  const BACKSLASH: int := 92
  const PLUS: int := 43
  const MINUS: int := 45
  const POINT: int := 46
  const ZERO: int := 48

  predicate IsDigit(c: int) {
    48 <= c <= 57
  }

  predicate IsDelimiter(c: int) {
    c in {32, 9, 10, 13, 44, 93, 125}
  }

  /** `payload.get(index) == Some(c)` */
  predicate Has(p: Codes, i: nat, c: int) {
    i < |p| && p[i] == c
  }

  predicate HasDigit(p: Codes, i: nat) {
    i < |p| && IsDigit(p[i])
  }

  predicate HasSign(p: Codes, i: nat) {
    Has(p, i, PLUS) || Has(p, i, MINUS)
  }

  predicate HasExponentMark(p: Codes, i: nat) {
    Has(p, i, 69) || Has(p, i, 101)
  }

  /** End of input or one of the seven delimiters. */
  predicate Delimited(p: Codes, i: nat) {
    i < |p| ==> IsDelimiter(p[i])
  }

  // ----- specification of the scanner -------------------------------------------------------

  function SkipDigits(p: Codes, i: nat): (j: nat)
    ensures i <= j
    ensures i <= |p| ==> j <= |p|
    ensures !HasDigit(p, j)
    decreases |p| - i
  {
    if HasDigit(p, i) then SkipDigits(p, i + 1) else i
  }

  function IntegerPart(p: Codes, start: nat): Option<nat> {
    var i := if Has(p, start, MINUS) then start + 1 else start;
    if Has(p, i, ZERO) then (if HasDigit(p, i + 1) then None else Some(i + 1))
    else if HasDigit(p, i) then Some(SkipDigits(p, i + 1))
    else None
  }

  function FractionPart(p: Codes, i: nat): Option<nat> {
    if Has(p, i, POINT) then
      (if HasDigit(p, i + 1) then Some(SkipDigits(p, i + 1)) else None)
    else Some(i)
  }

  function ExponentPart(p: Codes, i: nat): Option<nat> {
    if HasExponentMark(p, i) then
      var digits := if HasSign(p, i + 1) then i + 2 else i + 1;
      if HasDigit(p, digits) then Some(SkipDigits(p, digits)) else None
    else Some(i)
  }

  function ConsumeNumber(p: Codes, start: nat): (end: Option<nat>)
    ensures end.Some? ==> start < end.value <= |p|
  {
    var i :- IntegerPart(p, start);
    var j :- FractionPart(p, i);
    var k :- ExponentPart(p, j);
    if Delimited(p, k) then Some(k) else None
  }

  /** True if the scanner, at `i` and inside a string or not, accepts the rest. */
  predicate Scan(p: Codes, i: nat, inString: bool)
    decreases |p| - i
  {
    if i >= |p| then !inString
    else if inString then
      if p[i] == QUOTE then Scan(p, i + 1, false)
      else p[i] != BACKSLASH && !(0 <= p[i] <= 31) && Scan(p, i + 1, true)
    else if p[i] == QUOTE then Scan(p, i + 1, true)
    else if p[i] == PLUS then false
    else if p[i] == MINUS || IsDigit(p[i]) then
      var next := ConsumeNumber(p, i);
      next.Some? && Scan(p, next.value, false)
    else Scan(p, i + 1, false)
  }

  predicate HasStrictLexemes(p: Codes) {
    Scan(p, 0, false)
  }

  // ----- the loops of the source ------------------------------------------------------------

  /** The digit loops of `consume_json_number`. */
  method SkipDigitsLoop(p: Codes, start: nat) returns (index: nat)
    ensures index == SkipDigits(p, start)
  {
    index := start;
    while HasDigit(p, index)
      invariant SkipDigits(p, index) == SkipDigits(p, start)
      decreases |p| - index
    {
      index := index + 1;
    }
  }

  method ConsumeInteger(p: Codes, start: nat) returns (r: Option<nat>)
    ensures r == IntegerPart(p, start)
  {
    var index := start;
    if Has(p, index, MINUS) {
      index := index + 1;
    }
    if Has(p, index, ZERO) {
      return if HasDigit(p, index + 1) then None else Some(index + 1);
    }
    if !HasDigit(p, index) {
      return None;
    }
    index := SkipDigitsLoop(p, index + 1);
    r := Some(index);
  }

  method ConsumeFraction(p: Codes, start: nat) returns (r: Option<nat>)
    ensures r == FractionPart(p, start)
  {
    if !Has(p, start, POINT) {
      return Some(start);
    }
    var fractionStart := start + 1;
    var index := SkipDigitsLoop(p, fractionStart);
    r := if index == fractionStart then None else Some(index);
  }

  method ConsumeExponent(p: Codes, start: nat) returns (r: Option<nat>)
    ensures r == ExponentPart(p, start)
  {
    if !HasExponentMark(p, start) {
      return Some(start);
    }
    var exponentStart := if HasSign(p, start + 1) then start + 2 else start + 1;
    var index := SkipDigitsLoop(p, exponentStart);
    r := if index == exponentStart then None else Some(index);
  }

  method ConsumeJsonNumber(p: Codes, start: nat) returns (r: Option<nat>)
    ensures r == ConsumeNumber(p, start)
  {
    var index := ConsumeInteger(p, start);
    if index.Some? {
      index := ConsumeFraction(p, index.value);
    }
    if index.Some? {
      index := ConsumeExponent(p, index.value);
    }
    r := if index.Some? && Delimited(p, index.value) then index else None;
  }

  method HasStrictJsonLexemes(payload: Codes) returns (r: bool)
    ensures r == HasStrictLexemes(payload)
  {
    var index := 0;
    var inString := false;
    while index < |payload|
      invariant 0 <= index <= |payload|
      invariant HasStrictLexemes(payload) == Scan(payload, index, inString)
    {
      var byte := payload[index];
      if inString {
        if byte == QUOTE {
          inString := false;
        } else if byte == BACKSLASH || 0 <= byte <= 31 {
          return false;
        }
        index := index + 1;
      } else if byte == QUOTE {
        inString := true;
        index := index + 1;
      } else if byte == PLUS {
        return false;
      } else if byte == MINUS || IsDigit(byte) {
        var next := ConsumeJsonNumber(payload, index);
        if next.None? {
          return false;
        }
        index := next.value;
      } else {
        index := index + 1;
      }
    }
    r := !inString;
  }

  // ----- RFC 8259 section 6 -----------------------------------------------------------------

  ghost predicate AllDigits(t: Codes) {
    forall k :: 0 <= k < |t| ==> IsDigit(t[k])
  }

  /** At least one digit. */
  ghost predicate IsDigits(t: Codes) {
    t != [] && AllDigits(t)
  }

  ghost predicate IsInt(t: Codes) {
    var digits := if Has(t, 0, MINUS) then t[1..] else t;
    IsDigits(digits) && (digits[0] == ZERO ==> |digits| == 1)
  }

  ghost predicate IsFraction(t: Codes) {
    t == [] || (t[0] == POINT && IsDigits(t[1..]))
  }

  ghost predicate IsExponent(t: Codes) {
    t == [] || (HasExponentMark(t, 0) && IsDigits(if HasSign(t, 1) then t[2..] else t[1..]))
  }

  /** number = int [ frac ] [ exp ], cut at `i` and `j` */
  ghost predicate IsNumberSplit(t: Codes, i: nat, j: nat) {
    i <= j <= |t| && IsInt(t[..i]) && IsFraction(t[i..j]) && IsExponent(t[j..])
  }

  ghost predicate IsNumber(t: Codes) {
    exists i: nat, j: nat :: IsNumberSplit(t, i, j)
  }

  /** `SkipDigits` finds the end of the digits that start at `i`. */
  lemma {:induction false} SkipDigitsExact(p: Codes, i: nat, n: nat)
    requires i <= |p| && !HasDigit(p, n)
    ensures SkipDigits(p, i) == n <==> i <= n <= |p| && AllDigits(p[i..n])
    decreases |p| - i
  {
    if HasDigit(p, i) {
      SkipDigitsExact(p, i + 1, n);
      if i < n <= |p| {
        assert p[i..n] == [p[i]] + p[i + 1..n];
      }
    } else if i < n <= |p| {
      assert p[i..n][0] == p[i];
    }
  }

  lemma FirstDigit(p: Codes, d: nat, n: nat)
    requires d < n <= |p|
    ensures AllDigits(p[d..n]) <==> IsDigit(p[d]) && AllDigits(p[d + 1..n])
  {
    if AllDigits(p[d..n]) {
      assert IsDigit(p[d..n][0]);
      var rest := p[d + 1..n];
      forall k | 0 <= k < |rest| ensures IsDigit(rest[k]) {
        assert rest[k] == p[d..n][k + 1];
      }
    }
    if IsDigit(p[d]) && AllDigits(p[d + 1..n]) {
      var all := p[d..n];
      forall k | 0 <= k < |all| ensures IsDigit(all[k]) {
        assert k > 0 ==> all[k] == p[d + 1..n][k - 1];
      }
    }
  }

  /** The digits of an integer part, after its sign: a zero alone, or digits that start otherwise. */
  lemma UnsignedExact(p: Codes, d: nat, n: nat)
    requires d < n <= |p| && !HasDigit(p, n)
    ensures IsDigits(p[d..n]) && (p[d] == ZERO ==> n == d + 1)
            <==> if p[d] == ZERO then n == d + 1 else HasDigit(p, d) && SkipDigits(p, d + 1) == n
  {
    hide SkipDigits, AllDigits;
    SkipDigitsExact(p, d + 1, n);
    FirstDigit(p, d, n);
    assert n == d + 1 ==> p[d + 1..n] == [];
    NoDigits();
  }

  lemma NoDigits()
    ensures AllDigits([])
  {
  }

  lemma SignedInt(p: Codes, i: nat, n: nat)
    requires i <= n <= |p|
    ensures var d := if Has(p, i, MINUS) then i + 1 else i;
            IsInt(p[i..n]) <==> d < n && IsDigits(p[d..n]) && (p[d] == ZERO ==> n == d + 1)
  {
    hide AllDigits;
    var d := if Has(p, i, MINUS) then i + 1 else i;
    if d <= n {
      var t := p[i..n];
      assert (if Has(t, 0, MINUS) then t[1..] else t) == p[d..n];
    }
  }

  lemma {:induction false} IntegerPartExact(p: Codes, i: nat, n: nat)
    requires !HasDigit(p, n)
    ensures IntegerPart(p, i) == Some(n) <==> i <= n <= |p| && IsInt(p[i..n])
  {
    hide IsDigits, IsInt, SkipDigits;
    var d := if Has(p, i, MINUS) then i + 1 else i;
    if i <= n <= |p| {
      SignedInt(p, i, n);
      if d < n {
        UnsignedExact(p, d, n);
      }
    }
  }

  lemma {:induction false} FractionPartExact(p: Codes, i: nat, n: nat)
    requires i <= |p| && !HasDigit(p, n) && !Has(p, n, POINT)
    ensures FractionPart(p, i) == Some(n) <==> i <= n <= |p| && IsFraction(p[i..n])
  {
    if i < n <= |p| {
      assert p[i..n][1..] == p[i + 1..n];
      SkipDigitsExact(p, i + 1, n);
    }
  }

  lemma {:induction false} ExponentPartExact(p: Codes, i: nat, n: nat)
    requires i <= |p| && !HasDigit(p, n) && !HasExponentMark(p, n)
    ensures ExponentPart(p, i) == Some(n) <==> i <= n <= |p| && IsExponent(p[i..n])
  {
    if i < n <= |p| {
      var t := p[i..n];
      assert HasExponentMark(t, 0) == HasExponentMark(p, i);
      if i + 1 < n {
        assert HasSign(t, 1) == HasSign(p, i + 1);
        var d := if HasSign(p, i + 1) then i + 2 else i + 1;
        assert (if HasSign(t, 1) then t[2..] else t[1..]) == p[d..n];
        SkipDigitsExact(p, d, n);
      }
    }
  }

  /** The cut points inside the payload instead of inside the lexeme. */
  ghost predicate IsNumberAt(p: Codes, i: nat, a: nat, b: nat, n: nat) {
    i <= a <= b <= n <= |p| && IsInt(p[i..a]) && IsFraction(p[a..b]) && IsExponent(p[b..n])
  }

  lemma SliceOfSlice(p: Codes, i: nat, n: nat, a: nat, b: nat)
    requires i <= a <= b <= n <= |p|
    ensures p[i..n][a - i..b - i] == p[a..b]
  {
    var t := p[i..n];
    var l, r := t[a - i..b - i], p[a..b];
    forall k | 0 <= k < b - a ensures l[k] == r[k] {
      assert l[k] == t[a - i + k] && r[k] == p[a + k];
    }
  }

  /** Moves the cut points from the lexeme to the payload and back. */
  lemma NumberSplitAt(p: Codes, i: nat, a: nat, b: nat, n: nat)
    requires i <= a <= b <= n <= |p|
    ensures IsNumberSplit(p[i..n], a - i, b - i) <==> IsNumberAt(p, i, a, b, n)
  {
    SliceOfSlice(p, i, n, i, a);
    SliceOfSlice(p, i, n, a, b);
    SliceOfSlice(p, i, n, b, n);
    assert p[i..n][b - i..] == p[i..n][b - i..n - i];
  }

  lemma {:induction false} ConsumedIsNumber(p: Codes, i: nat, n: nat)
    requires ConsumeNumber(p, i) == Some(n)
    ensures i <= n <= |p| && IsNumber(p[i..n]) && Delimited(p, n)
  {
    var a := IntegerPart(p, i).value;
    var b := FractionPart(p, a).value;
    IntegerPartExact(p, i, a);
    FractionPartExact(p, a, b);
    ExponentPartExact(p, b, n);
    NumberSplitAt(p, i, a, b, n);
  }

  lemma SplitFits(t: Codes, i: nat, j: nat)
    requires IsNumberSplit(t, i, j)
    ensures i <= j <= |t|
  {
  }

  lemma {:induction false} NumberIsConsumed(p: Codes, i: nat, n: nat)
    requires i <= n <= |p| && IsNumber(p[i..n]) && Delimited(p, n)
    ensures ConsumeNumber(p, i) == Some(n)
  {
    hide IsNumberSplit, ConsumeNumber, IsNumberAt;
    var u: nat, v: nat :| IsNumberSplit(p[i..n], u, v);
    SplitFits(p[i..n], u, v);
    var a, b := i + u, i + v;
    NumberSplitAt(p, i, a, b, n);
    PartsAreConsumed(p, i, a, b, n);
  }

  lemma PartsAreConsumed(p: Codes, i: nat, a: nat, b: nat, n: nat)
    requires IsNumberAt(p, i, a, b, n) && Delimited(p, n)
    ensures ConsumeNumber(p, i) == Some(n)
  {
    hide IntegerPart, FractionPart, ExponentPart, IsInt;
    assert b < n ==> p[b] == p[b..n][0];
    assert a < b ==> p[a] == p[a..b][0];
    ExponentPartExact(p, b, n);
    FractionPartExact(p, a, b);
    IntegerPartExact(p, i, a);
  }

  /**
   `consume_json_number` returns `n` exactly when `p[i..n]` is a number of RFC 8259
   and a delimiter or the end of the payload follows.
   */
  lemma {:induction false} ConsumeNumberExact(p: Codes, i: nat, n: nat)
    ensures ConsumeNumber(p, i) == Some(n) <==> i <= n <= |p| && IsNumber(p[i..n]) && Delimited(p, n)
  {
    if ConsumeNumber(p, i) == Some(n) {
      ConsumedIsNumber(p, i, n);
    }
    if i <= n <= |p| && IsNumber(p[i..n]) && Delimited(p, n) {
      NumberIsConsumed(p, i, n);
    }
  }

  lemma NumberIsAscii(t: Codes, k: nat)
    requires IsNumber(t) && k < |t|
    ensures t[k] < 0x80
  {
    var i: nat, j: nat :| IsNumberSplit(t, i, j);
    if k < i {
      assert t[k] == t[..i][k];
      assert k > 0 ==> t[k] == t[..i][1..][k - 1];
    } else if k < j {
      assert t[k] == t[i..j][k - i];
      assert k > i ==> t[k] == t[i..j][1..][k - i - 1];
    } else {
      var e := t[j..];
      assert t[k] == e[k - j];
      assert k > j ==> t[k] == e[1..][k - j - 1];
      assert k > j + 1 ==> t[k] == e[2..][k - j - 2];
    }
  }
}
