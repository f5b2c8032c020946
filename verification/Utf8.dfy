/** UTF-8 (RFC 3629) for texts of Unicode scalar values, as far as sizes and scanning need it. */
module Utf8 {
  import opened LittleEndian
  import opened Wrappers

  function EncodeChar(c: char): (bytes: Bytes)
    ensures 1 <= |bytes| <= 4
    ensures c as int < 0x80 ==> bytes == [c as int]
    ensures c as int >= 0x80 ==> forall k :: 0 <= k < |bytes| ==> bytes[k] >= 0x80
  {
    var v := c as int;
    if v < 0x80 then [v]
    else if v < 0x800 then [0xC0 + v / 64, 0x80 + v % 64]
    else if v < 0x1_0000 then [0xE0 + v / 4096, 0x80 + v / 64 % 64, 0x80 + v % 64]
    else [0xF0 + v / 262144, 0x80 + v / 4096 % 64, 0x80 + v / 64 % 64, 0x80 + v % 64]
  }

  /** The encoding of the text from position `i` on. */
  function EncodeFrom(s: string, i: nat): Bytes
    decreases |s| - i
  {
    if i >= |s| then [] else EncodeChar(s[i]) + EncodeFrom(s, i + 1)
  }

  function Encode(s: string): Bytes {
    EncodeFrom(s, 0)
  }

  function Size(s: string): nat {
    if s == "" then 0 else |EncodeChar(s[0])| + Size(s[1..])
  }

  lemma {:induction false} SizeIsLengthFrom(s: string, i: nat)
    requires i <= |s|
    ensures |EncodeFrom(s, i)| == Size(s[i..])
    decreases |s| - i
  {
    if i < |s| {
      assert s[i..][1..] == s[i + 1..];
      SizeIsLengthFrom(s, i + 1);
    }
  }

  lemma SizeIsLength(s: string)
    ensures |Encode(s)| == Size(s)
  {
    assert s[0..] == s;
    SizeIsLengthFrom(s, 0);
  }

  lemma {:induction false} SizeAdds(s: string, t: string)
    ensures Size(s + t) == Size(s) + Size(t)
  {
    if s == "" {
      assert s + t == t;
    } else {
      assert (s + t)[1..] == s[1..] + t;
      SizeAdds(s[1..], t);
    }
  }

  /** ASCII text has one byte for each character. */
  lemma {:induction false} AsciiSize(s: string)
    requires forall i :: 0 <= i < |s| ==> s[i] as int < 0x80
    ensures Size(s) == |s|
  {
    if s != "" {
      AsciiSize(s[1..]);
    }
  }

  // ----- decoding ---------------------------------------------------------------------------

  predicate IsScalar(v: int) {
    0 <= v < 0xD800 || 0xE000 <= v < 0x11_0000
  }

  /** How many bytes a character with this first byte takes; 0 if there is none. */
  function Width(first: Byte): nat {
    if first < 0x80 then 1
    else if first < 0xC0 then 0
    else if first < 0xE0 then 2
    else if first < 0xF0 then 3
    else if first < 0xF8 then 4
    else 0
  }

  function Low(b: int): int {
    b - 0x80
  }

  /** The number that the bits of the bytes make up. */
  function Value(b: Bytes): int
    requires 1 <= |b| <= 4
  {
    var first: int := b[0];
    if |b| == 1 then first
    else if |b| == 2 then (first - 0xC0) * 64 + Low(b[1])
    else if |b| == 3 then (first - 0xE0) * 4096 + Low(b[1]) * 64 + Low(b[2])
    else (first - 0xF0) * 262144 + Low(b[1]) * 4096 + Low(b[2]) * 64 + Low(b[3])
  }

  /** The character that starts the bytes. Overlong forms and surrogates are refused. */
  function DecodeChar(b: Bytes): Option<char> {
    if b == [] then None
    else
      var w := Width(b[0]);
      if w == 0 || w > |b| || !IsScalar(Value(b[..w])) then None
      else
        var c := Value(b[..w]) as char;
        if EncodeChar(c) == b[..w] then Some(c) else None
  }

  /** Strict decoding, as a fatal `TextDecoder` does it before it looks for a byte order mark. */
  function Decode(b: Bytes): Option<string>
    decreases |b|
  {
    if b == [] then Some("")
    else
      var c :- DecodeChar(b);
      var rest :- Decode(b[|EncodeChar(c)|..]);
      Some([c] + rest)
  }

  lemma SixBits(v: nat)
    ensures v == v / 64 * 64 + v % 64 && v / 64 / 64 == v / 4096 && v / 4096 / 64 == v / 262144
  {
  }

  lemma ValueBack(c: char)
    ensures Value(EncodeChar(c)) == c as int && Width(EncodeChar(c)[0]) == |EncodeChar(c)|
  {
    var v := c as int;
    SixBits(v);
    SixBits(v / 64);
    SixBits(v / 4096);
  }

  lemma CharBack(c: char, rest: Bytes)
    ensures DecodeChar(EncodeChar(c) + rest) == Some(c)
  {
    hide EncodeChar, Value, Width;
    ValueBack(c);
    var b := EncodeChar(c) + rest;
    assert b[..|EncodeChar(c)|] == EncodeChar(c);
  }

  lemma {:induction false} EncodeSplits(s: string, i: nat)
    requires i <= |s|
    ensures EncodeFrom(s, i) == Encode(s[i..])
    decreases |s| - i
  {
    if i < |s| {
      var t := s[i..];
      EncodeSplits(s, i + 1);
      assert t[1..] == s[i + 1..];
      EncodeSplits(t, 1);
    }
  }

  lemma EncodeHead(s: string)
    requires s != ""
    ensures Encode(s) == EncodeChar(s[0]) + Encode(s[1..])
  {
    EncodeSplits(s, 1);
  }

  /** Decoding accepts exactly the encodings, and reads each of them back. */
  lemma {:induction false} DecodeIsInverse(b: Bytes, s: string)
    ensures Decode(b) == Some(s) <==> b == Encode(s)
    decreases |b|
  {
    hide EncodeChar, DecodeChar;
    if b == Encode(s) && s != "" {
      EncodeHead(s);
      CharBack(s[0], Encode(s[1..]));
      assert b[|EncodeChar(s[0])|..] == Encode(s[1..]);
      DecodeIsInverse(Encode(s[1..]), s[1..]);
      assert s == [s[0]] + s[1..];
    }
    if Decode(b) == Some(s) && b != [] {
      DecodedHead(b, s);
      DecodeIsInverse(b[|EncodeChar(s[0])|..], s[1..]);
      EncodeHead(s);
    }
  }

  lemma DecodedHead(b: Bytes, s: string)
    requires b != [] && Decode(b) == Some(s)
    ensures s != "" && |EncodeChar(s[0])| <= |b| && b == EncodeChar(s[0]) + b[|EncodeChar(s[0])|..]
    ensures Decode(b[|EncodeChar(s[0])|..]) == Some(s[1..])
  {
    hide EncodeChar, Value, Width;
    var c := DecodeChar(b).value;
    assert b[..|EncodeChar(c)|] == EncodeChar(c);
  }
}
