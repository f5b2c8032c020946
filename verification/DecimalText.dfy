/** Integers as decimal text. */
module DecimalText {

  function DigitChar(d: nat): (c: char)
    requires d < 10
    ensures '0' <= c <= '9'
  {
    '0' + d as char
  }

  function DigitValue(c: char): nat {
    if '0' <= c <= '9' then (c - '0') as int else 0
  }

  /** `BigInt.toString` and Python's `str` of a non-negative integer. */
  function Digits(n: nat): (t: string)
    ensures t != ""
    ensures forall i :: 0 <= i < |t| ==> '0' <= t[i] <= '9'
  {
    if n < 10 then [DigitChar(n)] else Digits(n / 10) + [DigitChar(n % 10)]
  }

  /** `BigInt(raw)` of a digit string. */
  function ValueOf(raw: string): nat {
    if raw == "" then 0 else 10 * ValueOf(raw[..|raw| - 1]) + DigitValue(raw[|raw| - 1])
  }

  lemma {:induction false} DigitsBack(n: nat)
    ensures ValueOf(Digits(n)) == n
  {
    var t := Digits(n);
    if n < 10 {
      assert t[..|t| - 1] == "";
      assert ValueOf("") == 0;
    } else {
      DigitsBack(n / 10);
      assert t[..|t| - 1] == Digits(n / 10);
    }
  }

  /** Python's `str` of any integer. */
  function IntText(n: int): string {
    if n < 0 then "-" + Digits(-n) else Digits(n)
  }

  lemma IntTextInjective(m: int, n: int)
    requires IntText(m) == IntText(n)
    ensures m == n
  {
    hide Digits, ValueOf;
    var s, t := IntText(m), IntText(n);
    assert (m < 0) == (s[0] == '-') && (n < 0) == (t[0] == '-');
    if m < 0 {
      assert s[1..] == Digits(-m) && t[1..] == Digits(-n);
      DigitsBack(-m);
      DigitsBack(-n);
    } else {
      DigitsBack(m);
      DigitsBack(n);
    }
  }

  lemma IntTextCharacters(n: int)
    ensures forall k :: 0 <= k < |IntText(n)| ==> IntText(n)[k] == '-' || '0' <= IntText(n)[k] <= '9'
  {
  }

  /** A text, a mark that no integer contains, and an integer determine the text and the integer. */
  lemma TaggedInjective(a: string, b: string, mark: char, m: int, n: int)
    requires mark != '-' && !('0' <= mark <= '9')
    requires a + [mark] + IntText(m) == b + [mark] + IntText(n)
    ensures a == b && m == n
  {
    hide IntText;
    var x, y := a + [mark] + IntText(m), b + [mark] + IntText(n);
    IntTextCharacters(m);
    IntTextCharacters(n);
    assert x[|a|] == mark && y[|b|] == mark;
    forall k | |a| < k < |x| ensures x[k] != mark {
      assert x[k] == IntText(m)[k - |a| - 1];
    }
    forall k | |b| < k < |y| ensures y[k] != mark {
      assert y[k] == IntText(n)[k - |b| - 1];
    }
    assert |a| == |b|;
    assert a == x[..|a|] && b == y[..|b|];
    assert IntText(m) == x[|a| + 1..] && IntText(n) == y[|b| + 1..];
    IntTextInjective(m, n);
  }
}
