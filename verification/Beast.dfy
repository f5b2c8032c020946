/**
 Beast stream framing: the incremental decoder, and why its result does not depend on how the
 stream is cut into chunks. Models tools/mlat/beast_tcp_adapter.py.
 */
module Beast {
  import opened Wrappers

  /** The decoder only compares bytes, so nothing bounds them here. */
  type Byte = int
  type Bytes = seq<Byte>

  /** Start marker and escape byte. */
  const ESC: Byte := 0x1A

  datatype Frame = Frame(kind: Byte, payload: Bytes)

  /** `TYPE_TO_MESSAGE_LEN` */
  function MessageLen(kind: Byte): Option<nat> {
    if kind == 0x31 then Some(2)
    else if kind == 0x32 then Some(7)
    else if kind == 0x33 then Some(14)
    else None
  }

  /** Six bytes of timestamp, one of signal level, then the message. */
  function PayloadLen(kind: Byte): nat
    requires MessageLen(kind).Some?
  {
    6 + 1 + MessageLen(kind).value
  }

  // ----- specification ----------------------------------------------------------------------

  /** `rest` is what remains of the input. A broken body leaves the marker that broke it in `rest`. */
  datatype Body = Complete(payload: Bytes, rest: Bytes) | Incomplete | Broken(rest: Bytes)

  function Prepend(byte: Byte, body: Body): Body {
    match body
    case Complete(payload, rest) => Complete([byte] + payload, rest)
    case Incomplete => Incomplete
    case Broken(rest) => Broken(rest)
  }

  function ReadBody(s: Bytes, need: nat): (body: Body)
    ensures body.Complete? ==> |body.payload| == need && |body.rest| <= |s|
    ensures body.Broken? ==> |body.rest| <= |s|
  {
    if need == 0 then Complete([], s)
    else if s == [] then Incomplete
    else if s[0] != ESC then Prepend(s[0], ReadBody(s[1..], need - 1))
    else if |s| == 1 then Incomplete
    else if s[1] == ESC then Prepend(ESC, ReadBody(s[2..], need - 1))
    else Broken(s)
  }

  datatype Parsed = Parsed(frames: seq<Frame>, rest: Bytes)

  function After(frames: seq<Frame>, parsed: Parsed): Parsed {
    Parsed(frames + parsed.frames, parsed.rest)
  }

  function Parse(s: Bytes): Parsed
    decreases |s|
  {
    if s == [] then Parsed([], [])
    else if s[0] != ESC then Parse(s[1..])
    else if |s| == 1 then Parsed([], s)
    else if MessageLen(s[1]).None? then Parse(s[1..])
    else match ReadBody(s[2..], PayloadLen(s[1]))
      case Incomplete => Parsed([], s)
      case Broken(rest) => Parse(rest)
      case Complete(payload, rest) => After([Frame(s[1], payload)], Parse(rest))
  }

  // ----- the loops of the source ------------------------------------------------------------

  lemma AfterAssociates(a: seq<Frame>, b: seq<Frame>, parsed: Parsed)
    ensures After(a, After(b, parsed)) == After(a + b, parsed)
    ensures After([], parsed) == parsed
  {
    assert a + (b + parsed.frames) == (a + b) + parsed.frames;
  }

  ghost function Onto(decoded: Bytes, body: Body): Body {
    if body.Complete? then Complete(decoded + body.payload, body.rest) else body
  }

  lemma OntoStep(decoded: Bytes, byte: Byte, body: Body)
    ensures Onto(decoded, Prepend(byte, body)) == Onto(decoded + [byte], body)
    ensures Onto([], body) == body
  {
    if body.Complete? {
      assert decoded + ([byte] + body.payload) == (decoded + [byte]) + body.payload;
    }
  }

  /** One byte or one escape pair read at `cursor`. */
  lemma ReadAt(buffer: Bytes, cursor: nat, need: nat)
    requires cursor <= |buffer|
    ensures ReadBody(buffer[cursor..], need)
            == if need == 0 then Complete([], buffer[cursor..])
               else if cursor == |buffer| then Incomplete
               else if buffer[cursor] != ESC then Prepend(buffer[cursor], ReadBody(buffer[cursor + 1..], need - 1))
               else if cursor + 1 == |buffer| then Incomplete
               else if buffer[cursor + 1] == ESC then Prepend(ESC, ReadBody(buffer[cursor + 2..], need - 1))
               else Broken(buffer[cursor..])
  {
    var s := buffer[cursor..];
    if s != [] {
      assert s[1..] == buffer[cursor + 1..];
    }
    if |s| > 1 {
      assert s[2..] == buffer[cursor + 2..];
    }
  }

  /** The inner loop: collects `expectedLen` unescaped bytes from `start`. */
  method ReadBodyLoop(buffer: Bytes, start: nat, expectedLen: nat)
    returns (decoded: Bytes, cursor: nat, corrupted: bool, incomplete: bool)
    requires start <= |buffer|
    ensures start <= cursor <= |buffer| && !(corrupted && incomplete)
    ensures ReadBody(buffer[start..], expectedLen)
            == if incomplete then Incomplete
               else if corrupted then Broken(buffer[cursor..])
               else Complete(decoded, buffer[cursor..])
  {
    hide ReadBody;
    decoded, cursor, corrupted, incomplete := [], start, false, false;
    ghost var whole := ReadBody(buffer[start..], expectedLen);
    OntoStep([], ESC, whole);
    while |decoded| < expectedLen
      invariant start <= cursor <= |buffer| && |decoded| <= expectedLen
      invariant whole == Onto(decoded, ReadBody(buffer[cursor..], expectedLen - |decoded|))
      decreases |buffer| - cursor
    {
      ghost var need := expectedLen - |decoded| - 1;
      ReadAt(buffer, cursor, need + 1);
      if cursor >= |buffer| {
        incomplete := true;
        return;
      }
      var byte := buffer[cursor];
      if byte == ESC {
        if cursor + 1 >= |buffer| {
          incomplete := true;
          return;
        }
        if buffer[cursor + 1] != ESC {
          corrupted := true;
          return;
        }
        OntoStep(decoded, ESC, ReadBody(buffer[cursor + 2..], need));
        decoded := decoded + [ESC];
        cursor := cursor + 2;
      } else {
        OntoStep(decoded, byte, ReadBody(buffer[cursor + 1..], need));
        decoded := decoded + [byte];
        cursor := cursor + 1;
      }
    }
    ReadAt(buffer, cursor, 0);
    assert decoded + [] == decoded;
  }

  method FindMarker(buffer: Bytes, start: nat) returns (idx: nat)
    requires start <= |buffer|
    ensures start <= idx <= |buffer|
    ensures idx < |buffer| ==> buffer[idx] == ESC
    ensures Parse(buffer[start..]) == Parse(buffer[idx..])
  {
    idx := start;
    while idx < |buffer| && buffer[idx] != ESC
      invariant start <= idx <= |buffer|
      invariant Parse(buffer[start..]) == Parse(buffer[idx..])
    {
      assert buffer[idx..][1..] == buffer[idx + 1..];
      idx := idx + 1;
    }
  }

  /** What a marker at `idx` leads to, if a byte follows it. */
  lemma MarkerAt(buffer: Bytes, idx: nat)
    requires idx < |buffer| - 1 && buffer[idx] == ESC
    ensures var kind := buffer[idx + 1];
            Parse(buffer[idx..])
            == if MessageLen(kind).None? then Parse(buffer[idx + 1..])
               else match ReadBody(buffer[idx + 2..], PayloadLen(kind))
                 case Incomplete => Parsed([], buffer[idx..])
                 case Broken(rest) => Parse(rest)
                 case Complete(payload, rest) => After([Frame(kind, payload)], Parse(rest))
  {
    hide ReadBody;
    var s := buffer[idx..];
    assert s[1..] == buffer[idx + 1..] && s[2..] == buffer[idx + 2..];
  }

  /** No byte follows the marker, or there is none. */
  lemma NothingAt(buffer: Bytes, idx: nat)
    requires |buffer| - 1 <= idx <= |buffer| && (idx < |buffer| ==> buffer[idx] == ESC)
    ensures Parse(buffer[idx..]) == Parsed([], buffer[idx..])
  {
  }

  method ParseBeastFrames(buffer: Bytes) returns (frames: seq<Frame>, rest: Bytes)
    ensures Parsed(frames, rest) == Parse(buffer)
  {
    hide Parse, ReadBody, MessageLen;
    frames := [];
    var idx := 0;
    assert buffer[0..] == buffer;
    while true
      invariant 0 <= idx <= |buffer|
      invariant Parse(buffer) == After(frames, Parse(buffer[idx..]))
      decreases |buffer| - idx
    {
      idx := FindMarker(buffer, idx);
      if idx >= |buffer| - 1 {
        NothingAt(buffer, idx);
        break;
      }
      MarkerAt(buffer, idx);
      var typeByte := buffer[idx + 1];
      if MessageLen(typeByte).None? {
        idx := idx + 1;
        continue;
      }
      var decoded, cursor, corrupted, incomplete := ReadBodyLoop(buffer, idx + 2, PayloadLen(typeByte));
      if incomplete {
        break;
      }
      if !corrupted {
        AfterAssociates(frames, [Frame(typeByte, decoded)], Parse(buffer[cursor..]));
        frames := frames + [Frame(typeByte, decoded)];
      }
      idx := cursor;
    }
    rest := buffer[idx..];
    assert frames + [] == frames;
  }

  /** The chunks up to the first empty read, which ends the stream. */
  function Received(chunks: seq<Bytes>): Bytes {
    if chunks == [] || chunks[0] == [] then [] else chunks[0] + Received(chunks[1..])
  }

  /** Appending a chunk and parsing leaves what the rest of the stream still needs. */
  lemma StreamStep(buffer: Bytes, chunk: Bytes, more: Bytes)
    ensures var parsed := Parse(buffer + chunk);
            && Parse(buffer + (chunk + more)) == After(parsed.frames, Parse(parsed.rest + more))
            && Parse(parsed.rest) == Parsed([], parsed.rest)
  {
    Associates(buffer, chunk, more);
    ChunkIndependent(buffer + chunk, more);
    RestIsStable(buffer + chunk);
  }

  lemma ReceivedStep(chunks: seq<Bytes>, i: nat)
    requires i < |chunks| && chunks[i] != []
    ensures Received(chunks[i..]) == chunks[i] + Received(chunks[i + 1..])
  {
    assert chunks[i..][1..] == chunks[i + 1..];
  }

  /** The read loop of `stream_records`: the remainder of one chunk is carried into the next. */
  method ReadStream(chunks: seq<Bytes>) returns (emitted: seq<Frame>, buffer: Bytes)
    ensures Parsed(emitted, buffer) == Parse(Received(chunks))
  {
    emitted, buffer := [], [];
    var i := 0;
    ghost var all := Parse(Received(chunks));
    assert chunks[0..] == chunks && [] + Received(chunks) == Received(chunks);
    AfterAssociates([], [], all);
    while i < |chunks| && chunks[i] != []
      invariant 0 <= i <= |chunks|
      invariant all == After(emitted, Parse(buffer + Received(chunks[i..])))
      invariant Parse(buffer) == Parsed([], buffer)
    {
      ghost var more := Received(chunks[i + 1..]);
      ReceivedStep(chunks, i);
      StreamStep(buffer, chunks[i], more);
      var frames, rest := ParseBeastFrames(buffer + chunks[i]);
      AfterAssociates(emitted, frames, Parse(rest + more));
      emitted := emitted + frames;
      buffer := rest;
      i := i + 1;
    }
    assert Received(chunks[i..]) == [] && buffer + [] == buffer;
    assert emitted + [] == emitted;
  }

  // ----- chunk independence -----------------------------------------------------------------

  lemma {:induction false} BodyExtends(a: Bytes, b: Bytes, need: nat)
    ensures match ReadBody(a, need)
            case Complete(payload, rest) => ReadBody(a + b, need) == Complete(payload, rest + b)
            case Broken(rest) => ReadBody(a + b, need) == Broken(rest + b)
            case Incomplete => true
  {
    if need != 0 && a != [] {
      if a[0] != ESC {
        assert (a + b)[1..] == a[1..] + b;
        BodyExtends(a[1..], b, need - 1);
      } else if |a| > 1 && a[1] == ESC {
        assert (a + b)[2..] == a[2..] + b;
        BodyExtends(a[2..], b, need - 1);
      }
    }
  }

  /** A byte that starts no frame is skipped, whatever follows. */
  lemma SkipFirst(a: Bytes, b: Bytes)
    requires a != [] && (a[0] != ESC || (|a| > 1 && MessageLen(a[1]).None?))
    ensures Parse(a) == Parse(a[1..]) && Parse(a + b) == Parse(a[1..] + b)
  {
    assert (a + b)[1..] == a[1..] + b;
  }

  /** A body that is complete or broken stays so, whatever follows. */
  lemma FrameFirst(a: Bytes, b: Bytes)
    requires |a| > 1 && a[0] == ESC && MessageLen(a[1]).Some?
    ensures var body := ReadBody(a[2..], PayloadLen(a[1]));
            && (body.Incomplete? ==> Parse(a) == Parsed([], a))
            && (body.Broken? ==> Parse(a) == Parse(body.rest) && Parse(a + b) == Parse(body.rest + b))
            && (body.Complete? ==>
                  && Parse(a) == After([Frame(a[1], body.payload)], Parse(body.rest))
                  && Parse(a + b) == After([Frame(a[1], body.payload)], Parse(body.rest + b)))
  {
    hide ReadBody;
    BodyExtends(a[2..], b, PayloadLen(a[1]));
    assert (a + b)[2..] == a[2..] + b;
  }

  /** Parsing `a`, then what is left of it followed by `b`, is parsing `a + b`. */
  lemma {:induction false} ChunkIndependent(a: Bytes, b: Bytes)
    ensures Parse(a + b) == After(Parse(a).frames, Parse(Parse(a).rest + b))
    decreases |a|
  {
    hide ReadBody;
    if a == [] {
      assert a + b == b;
    } else if a[0] != ESC || (|a| > 1 && MessageLen(a[1]).None?) {
      SkipFirst(a, b);
      ChunkIndependent(a[1..], b);
    } else if |a| > 1 {
      hide Parse;
      FrameFirst(a, b);
      match ReadBody(a[2..], PayloadLen(a[1]))
      case Incomplete =>
        AfterAssociates([], [], Parse(a + b));
      case Broken(rest) => ChunkIndependent(rest, b);
      case Complete(payload, rest) =>
        ChunkIndependent(rest, b);
        AfterAssociates([Frame(a[1], payload)], Parse(rest).frames, Parse(Parse(rest).rest + b));
    }
  }

  /** The remainder is a suffix that holds no frame by itself. */
  lemma {:induction false} RestIsStable(s: Bytes)
    ensures Parse(Parse(s).rest) == Parsed([], Parse(s).rest)
    decreases |s|
  {
    if s != [] {
      if s[0] != ESC || (|s| > 1 && MessageLen(s[1]).None?) {
        RestIsStable(s[1..]);
      } else if |s| > 1 {
        var body := ReadBody(s[2..], PayloadLen(s[1]));
        if !body.Incomplete? {
          RestIsStable(body.rest);
        }
      }
    }
  }

  lemma {:induction false} IncompleteIsShort(s: Bytes, need: nat)
    requires ReadBody(s, need).Incomplete?
    ensures |s| <= 2 * need - 1
  {
    if s != [] && s[0] != ESC {
      IncompleteIsShort(s[1..], need - 1);
    } else if |s| > 1 {
      IncompleteIsShort(s[2..], need - 1);
    }
  }

  /** At most 43 bytes are carried from one chunk to the next. */
  lemma {:induction false} RestIsBounded(s: Bytes)
    ensures |Parse(s).rest| <= 43
    decreases |s|
  {
    if s != [] {
      if s[0] != ESC || (|s| > 1 && MessageLen(s[1]).None?) {
        RestIsBounded(s[1..]);
      } else if |s| > 1 {
        var body := ReadBody(s[2..], PayloadLen(s[1]));
        if body.Incomplete? {
          IncompleteIsShort(s[2..], PayloadLen(s[1]));
        } else {
          RestIsBounded(body.rest);
        }
      }
    }
  }

  /** The bound is reached: a long frame of escaped bytes that lacks its last byte. */
  lemma BoundIsReached()
    ensures var s := [ESC, 0x33] + seq(41, _ => ESC); Parse(s) == Parsed([], s) && |s| == 43
  {
    var s := [ESC, 0x33] + seq(41, _ => ESC);
    EscapesOnly(s[2..], 21);
  }

  lemma {:induction false} EscapesOnly(s: Bytes, need: nat)
    requires |s| == 2 * need - 1 && forall i :: 0 <= i < |s| ==> s[i] == ESC
    ensures ReadBody(s, need).Incomplete?
  {
    if need > 1 {
      EscapesOnly(s[2..], need - 1);
    }
  }

  // ----- encoding ---------------------------------------------------------------------------

  ghost predicate ValidFrame(f: Frame) {
    MessageLen(f.kind).Some? && |f.payload| == PayloadLen(f.kind)
  }

  function EscapeByte(byte: Byte): Bytes {
    if byte == ESC then [ESC, ESC] else [byte]
  }

  function Escape(payload: Bytes): Bytes {
    if payload == [] then [] else EscapeByte(payload[0]) + Escape(payload[1..])
  }

  function Encode(f: Frame): Bytes {
    [ESC, f.kind] + Escape(f.payload)
  }

  function EncodeAll(frames: seq<Frame>): Bytes {
    if frames == [] then [] else Encode(frames[0]) + EncodeAll(frames[1..])
  }

  lemma ReadEscapedByte(byte: Byte, inner: Bytes, need: nat)
    requires need > 0
    ensures ReadBody(EscapeByte(byte) + inner, need) == Prepend(byte, ReadBody(inner, need - 1))
  {
    if byte == ESC {
      assert ([ESC, ESC] + inner)[2..] == inner;
    } else {
      assert ([byte] + inner)[1..] == inner;
    }
  }

  lemma PrependOnto(byte: Byte, decoded: Bytes, body: Body)
    ensures Prepend(byte, Onto(decoded, body)) == Onto([byte] + decoded, body)
  {
    if body.Complete? {
      assert [byte] + (decoded + body.payload) == ([byte] + decoded) + body.payload;
    }
  }

  lemma EscapeSplits(payload: Bytes, tail: Bytes)
    requires payload != []
    ensures Escape(payload) + tail == EscapeByte(payload[0]) + (Escape(payload[1..]) + tail)
    ensures payload == [payload[0]] + payload[1..]
  {
    Associates(EscapeByte(payload[0]), Escape(payload[1..]), tail);
  }

  lemma Associates(a: Bytes, b: Bytes, c: Bytes)
    ensures (a + b) + c == a + (b + c)
  {
  }

  /** Reading an escaped payload of at most `need` bytes takes exactly that payload off the front. */
  lemma {:induction false} ReadEscaped(payload: Bytes, tail: Bytes, need: nat)
    requires |payload| <= need
    ensures ReadBody(Escape(payload) + tail, need) == Onto(payload, ReadBody(tail, need - |payload|))
  {
    var body := ReadBody(tail, need - |payload|);
    if payload == [] {
      assert Escape(payload) + tail == tail;
      OntoStep([], ESC, body);
    } else {
      EscapeSplits(payload, tail);
      ReadEscapedByte(payload[0], Escape(payload[1..]) + tail, need);
      ReadEscaped(payload[1..], tail, need - 1);
      PrependOnto(payload[0], payload[1..], body);
    }
  }

  lemma {:induction false} ParseEncoded(f: Frame, tail: Bytes)
    requires ValidFrame(f)
    ensures Parse(Encode(f) + tail) == After([f], Parse(tail))
  {
    var s := Encode(f) + tail;
    assert s[2..] == Escape(f.payload) + tail;
    ReadEscaped(f.payload, tail, PayloadLen(f.kind));
    assert f.payload + [] == f.payload;
  }

  /** Parsing the concatenated encodings of any frames returns those frames, whatever follows. */
  lemma {:induction false} ParseEncodedAll(frames: seq<Frame>, tail: Bytes)
    requires forall i :: 0 <= i < |frames| ==> ValidFrame(frames[i])
    ensures Parse(EncodeAll(frames) + tail) == After(frames, Parse(tail))
  {
    if frames == [] {
      assert EncodeAll(frames) + tail == tail;
      AfterAssociates([], [], Parse(tail));
    } else {
      assert EncodeAll(frames) + tail == Encode(frames[0]) + (EncodeAll(frames[1..]) + tail);
      ParseEncoded(frames[0], EncodeAll(frames[1..]) + tail);
      ParseEncodedAll(frames[1..], tail);
      AfterAssociates([frames[0]], frames[1..], Parse(tail));
      assert [frames[0]] + frames[1..] == frames;
    }
  }

  // ----- soundness --------------------------------------------------------------------------

  /** The frames' exact encodings occur in `s`, disjoint and in order, and `s` ends with `rest`. */
  ghost predicate Explains(s: Bytes, parsed: Parsed)
    decreases |parsed.frames|
  {
    if parsed.frames == [] then exists gap :: s == gap + parsed.rest
    else exists gap, tail ::
      && s == gap + Encode(parsed.frames[0]) + tail
      && Explains(tail, Parsed(parsed.frames[1..], parsed.rest))
  }

  lemma ExplainsLonger(prefix: Bytes, s: Bytes, parsed: Parsed)
    requires Explains(s, parsed)
    ensures Explains(prefix + s, parsed)
  {
    hide Encode;
    if parsed.frames == [] {
      var gap :| s == gap + parsed.rest;
      assert prefix + s == (prefix + gap) + parsed.rest;
    } else {
      var gap, tail :| && s == gap + Encode(parsed.frames[0]) + tail
                       && Explains(tail, Parsed(parsed.frames[1..], parsed.rest));
      assert prefix + s == (prefix + gap) + Encode(parsed.frames[0]) + tail;
    }
  }

  ghost predicate IsSuffix(rest: Bytes, s: Bytes) {
    |rest| <= |s| && s[|s| - |rest|..] == rest
  }

  /** What was read is exactly the part of the input that is gone. */
  ghost predicate Accounts(s: Bytes, body: Body) {
    match body
    case Complete(payload, rest) => s == Escape(payload) + rest
    case Broken(rest) => IsSuffix(rest, s)
    case Incomplete => true
  }

  lemma AccountsLonger(byte: Byte, s: Bytes, body: Body)
    requires Accounts(s, body)
    ensures Accounts(EscapeByte(byte) + s, Prepend(byte, body))
  {
    if body.Complete? {
      var payload := [byte] + body.payload;
      assert payload[1..] == body.payload;
      EscapeSplits(payload, body.rest);
    }
  }

  lemma AccountsStep(byte: Byte, inner: Bytes, need: nat)
    requires need > 0 && Accounts(inner, ReadBody(inner, need - 1))
    ensures Accounts(EscapeByte(byte) + inner, ReadBody(EscapeByte(byte) + inner, need))
  {
    ReadEscapedByte(byte, inner, need);
    AccountsLonger(byte, inner, ReadBody(inner, need - 1));
  }

  /** A body of length zero, and one that is incomplete or broken at once. */
  lemma AccountsAtOnce(s: Bytes, need: nat)
    requires need == 0 || s == [] || (s[0] == ESC && (|s| == 1 || s[1] != ESC))
    ensures Accounts(s, ReadBody(s, need))
  {
    assert s == [] + s;
  }

  lemma {:induction false} BodyIsEscaped(s: Bytes, need: nat)
    ensures Accounts(s, ReadBody(s, need))
  {
    hide Accounts, ReadBody;
    if need == 0 || s == [] || (s[0] == ESC && (|s| == 1 || s[1] != ESC)) {
      AccountsAtOnce(s, need);
    } else if s[0] != ESC {
      assert s == EscapeByte(s[0]) + s[1..];
      BodyIsEscaped(s[1..], need - 1);
      AccountsStep(s[0], s[1..], need);
    } else {
      assert s == EscapeByte(ESC) + s[2..];
      BodyIsEscaped(s[2..], need - 1);
      AccountsStep(ESC, s[2..], need);
    }
  }

  lemma ExplainsFrame(f: Frame, tail: Bytes, parsed: Parsed)
    requires Explains(tail, parsed)
    ensures Explains(Encode(f) + tail, After([f], parsed))
  {
    var longer := After([f], parsed);
    assert longer.frames[1..] == parsed.frames;
    assert Encode(f) + tail == [] + Encode(longer.frames[0]) + tail;
  }

  lemma ExplainsNothing(s: Bytes)
    ensures Explains(s, Parsed([], s))
  {
    assert s == [] + s;
  }

  lemma ExplainsSuffix(rest: Bytes, s: Bytes, parsed: Parsed)
    requires IsSuffix(rest, s) && Explains(rest, parsed)
    ensures Explains(s, parsed)
  {
    var cut := |s| - |rest|;
    ExplainsLonger(s[..cut], rest, parsed);
    assert s == s[..cut] + rest;
  }

  lemma BodyStep(s: Bytes) returns (emitted: seq<Frame>, rest: Bytes)
    requires Parse(s) != Parsed([], s) && s[0] == ESC && MessageLen(s[1]).Some?
    ensures |rest| < |s| && Parse(s) == After(emitted, Parse(rest))
    ensures if emitted == [] then IsSuffix(rest, s)
            else |emitted| == 1 && ValidFrame(emitted[0]) && s == Encode(emitted[0]) + rest
  {
    var body := ReadBody(s[2..], PayloadLen(s[1]));
    BodyIsEscaped(s[2..], PayloadLen(s[1]));
    rest := body.rest;
    if body.Complete? {
      emitted := [Frame(s[1], body.payload)];
      assert s == [ESC, s[1]] + s[2..];
    } else {
      emitted := [];
      AfterAssociates([], [], Parse(rest));
    }
  }

  /** One step of `Parse`: the frame it emits, if any, and the suffix it goes on with. */
  lemma ParseStep(s: Bytes) returns (emitted: seq<Frame>, rest: Bytes)
    requires Parse(s) != Parsed([], s)
    ensures |rest| < |s| && Parse(s) == After(emitted, Parse(rest))
    ensures if emitted == [] then IsSuffix(rest, s)
            else |emitted| == 1 && ValidFrame(emitted[0]) && s == Encode(emitted[0]) + rest
  {
    if s[0] != ESC || MessageLen(s[1]).None? {
      emitted, rest := [], s[1..];
      AfterAssociates([], [], Parse(rest));
    } else {
      emitted, rest := BodyStep(s);
    }
  }

  /** Every emitted frame is well formed, and its encoding is a segment of the input. */
  lemma {:induction false} ParseIsSound(s: Bytes)
    ensures Explains(s, Parse(s))
    ensures forall i :: 0 <= i < |Parse(s).frames| ==> ValidFrame(Parse(s).frames[i])
    decreases |s|
  {
    if Parse(s) == Parsed([], s) {
      ExplainsNothing(s);
    } else {
      var emitted, rest := ParseStep(s);
      ParseIsSound(rest);
      if emitted == [] {
        AfterAssociates([], [], Parse(rest));
        ExplainsSuffix(rest, s, Parse(rest));
      } else {
        assert emitted == [emitted[0]];
        ExplainsFrame(emitted[0], rest, Parse(rest));
      }
    }
  }

  // ----- resynchronization ------------------------------------------------------------------

  /** A frame cut off after its marker, its type, or a whole number of payload bytes. */
  ghost predicate CutShort(cut: Bytes, f: Frame) {
    || cut == []
    || cut == [ESC]
    || exists k :: 0 <= k < |f.payload| && cut == [ESC, f.kind] + Escape(f.payload[..k])
  }

  /** A frame cut short outside an escape pair loses only itself when a frame follows. */
  lemma {:induction false} CutLosesOnlyItself(cut: Bytes, f: Frame, next: Frame, tail: Bytes)
    requires ValidFrame(f) && ValidFrame(next) && CutShort(cut, f)
    ensures Parse(cut + Encode(next) + tail) == After([next], Parse(tail))
  {
    var s := cut + Encode(next) + tail;
    var rest := Encode(next) + tail;
    assert s == cut + rest;
    ParseEncoded(next, tail);
    if cut == [] {
      assert s == rest;
    } else if cut == [ESC] {
      assert s[1] == ESC && s[1..] == rest;
    } else {
      var k :| 0 <= k < |f.payload| && cut == [ESC, f.kind] + Escape(f.payload[..k]);
      assert rest[0] == ESC && rest[1] == next.kind != ESC;
      CutBody(f.kind, f.payload[..k], rest);
    }
  }

  lemma ParseBroken(kind: Byte, after: Bytes, rest: Bytes)
    requires MessageLen(kind).Some? && ReadBody(after, PayloadLen(kind)) == Broken(rest)
    ensures Parse([ESC, kind] + after) == Parse(rest)
  {
    assert ([ESC, kind] + after)[2..] == after;
  }

  /** A marker that is not an escape pair ends the body before it and is parsed as a new start. */
  lemma CutBody(kind: Byte, read: Bytes, rest: Bytes)
    requires MessageLen(kind).Some? && |read| < PayloadLen(kind)
    requires |rest| > 1 && rest[0] == ESC && rest[1] != ESC
    ensures Parse([ESC, kind] + Escape(read) + rest) == Parse(rest)
  {
    Associates([ESC, kind], Escape(read), rest);
    ReadEscaped(read, rest, PayloadLen(kind));
    ParseBroken(kind, Escape(read) + rest, rest);
  }

  lemma EscapeUnfolds(payload: Bytes)
    ensures Escape(payload) == if payload == [] then [] else EscapeByte(payload[0]) + Escape(payload[1..])
  {
  }

  lemma {:induction false} EscapeConcat(a: Bytes, b: Bytes)
    ensures Escape(a + b) == Escape(a) + Escape(b)
  {
    hide *;
    EscapeUnfolds(a);
    if a == [] {
      assert a + b == b;
    } else {
      EscapeConcat(a[1..], b);
      EscapeUnfolds(a + b);
      assert (a + b)[1..] == a[1..] + b;
      Associates(EscapeByte(a[0]), Escape(a[1..]), Escape(b));
    }
  }

  /** A frame cut between the two bytes of the escape pair of payload byte `k`. */
  function CutInPair(f: Frame, k: nat): Bytes
    requires k < |f.payload|
  {
    [ESC, f.kind] + Escape(f.payload[..k]) + [ESC]
  }

  /** What the body of the cut frame goes on with: the marker of the next frame reads as an escaped byte. */
  function RunOn(f: Frame, k: nat, next: Frame): Bytes
    requires k < |f.payload|
  {
    f.payload[..k] + ([ESC, next.kind] + next.payload)
  }

  lemma EscapeMarker(next: Frame)
    requires next.kind != ESC
    ensures Escape([ESC, next.kind] + next.payload) == [ESC] + Encode(next)
  {
    var inner := [ESC, next.kind] + next.payload;
    assert inner[1..] == [next.kind] + next.payload;
    assert inner[1..][1..] == next.payload;
  }

  lemma RunOnIs(f: Frame, k: nat, next: Frame, tail: Bytes)
    requires k < |f.payload| && next.kind != ESC
    ensures CutInPair(f, k) + Encode(next) + tail == [ESC, f.kind] + (Escape(RunOn(f, k, next)) + tail)
  {
    EscapeConcat(f.payload[..k], [ESC, next.kind] + next.payload);
    EscapeMarker(next);
    var start, read := [ESC, f.kind], Escape(f.payload[..k]);
    assert start + read + [ESC] + Encode(next) + tail == start + (read + ([ESC] + Encode(next)) + tail);
  }

  /**
   Cut inside an escape pair, a frame swallows the next one: its body runs on through the marker,
   type and payload of that frame. If this is enough to fill it, a frame of the first type comes
   out, made of both payloads, and parsing goes on in the middle of the next frame.
   */
  lemma {:induction false} CutInsideEscapePair(f: Frame, k: nat, next: Frame, tail: Bytes)
    requires ValidFrame(f) && ValidFrame(next) && k < |f.payload| && f.payload[k] == ESC
    ensures var w, n := RunOn(f, k, next), PayloadLen(f.kind);
            |w| >= n ==>
              Parse(CutInPair(f, k) + Encode(next) + tail)
              == After([Frame(f.kind, w[..n])], Parse(Escape(w[n..]) + tail))
  {
    hide Parse, RunOn, CutInPair;
    var w, n := RunOn(f, k, next), PayloadLen(f.kind);
    RunOnIs(f, k, next, tail);
    if |w| >= n {
      var first := Frame(f.kind, w[..n]);
      assert w == w[..n] + w[n..];
      EscapeConcat(w[..n], w[n..]);
      assert [ESC, f.kind] + (Escape(w) + tail) == Encode(first) + (Escape(w[n..]) + tail);
      ParseEncoded(first, Escape(w[n..]) + tail);
    }
  }

  /** If it is not enough, both frames are lost when a third one follows. */
  lemma {:induction false} CutInsidePairLosesBoth(f: Frame, k: nat, next: Frame, third: Frame, tail: Bytes)
    requires ValidFrame(f) && ValidFrame(next) && ValidFrame(third) && k < |f.payload| && f.payload[k] == ESC
    requires |RunOn(f, k, next)| < PayloadLen(f.kind)
    ensures Parse(CutInPair(f, k) + Encode(next) + (Encode(third) + tail)) == After([third], Parse(tail))
  {
    hide Parse, CutInPair;
    var w := RunOn(f, k, next);
    var rest := Encode(third) + tail;
    RunOnIs(f, k, next, rest);
    assert [ESC, f.kind] + (Escape(w) + rest) == [ESC, f.kind] + Escape(w) + rest;
    assert rest[0] == ESC && rest[1] == third.kind != ESC;
    CutBody(f.kind, w, rest);
    ParseEncoded(third, tail);
  }

  /** If the pair is that of the last payload byte, the cut frame itself comes out whole. */
  lemma CutInLastPair(f: Frame, next: Frame, tail: Bytes)
    requires ValidFrame(f) && ValidFrame(next) && f.payload[|f.payload| - 1] == ESC
    ensures Parse(CutInPair(f, |f.payload| - 1) + Encode(next) + tail)
            == After([f], Parse([next.kind] + (Escape(next.payload) + tail)))
  {
    hide Parse, CutInPair;
    var n := |f.payload|;
    var w := RunOn(f, n - 1, next);
    CutInsideEscapePair(f, n - 1, next, tail);
    assert w[..n] == f.payload;
    assert w[n..] == [next.kind] + next.payload;
    assert ([next.kind] + next.payload)[1..] == next.payload;
    assert Escape(w[n..]) + tail == [next.kind] + (Escape(next.payload) + tail);
  }

  // ----- 48-bit tick counter ----------------------------------------------------------------

  const TICK_MODULUS: int := 0x1_0000_0000_0000

  /** `delta_ticks` of `normalize_beast_timestamp`; Python's `%` of a positive modulus is Euclidean. */
  function DeltaTicks(frameTick: int, anchorTick: int): int {
    var delta := (frameTick - anchorTick) % TICK_MODULUS;
    if delta >= TICK_MODULUS / 2 then delta - TICK_MODULUS else delta
  }

  /** The signed distance is recovered exactly when it is within half a wrap of the anchor. */
  lemma DeltaTicksExact(tick: int, anchor: int)
    ensures DeltaTicks(tick % TICK_MODULUS, anchor % TICK_MODULUS) == tick - anchor
            <==> -(TICK_MODULUS / 2) <= tick - anchor < TICK_MODULUS / 2
  {
    var m := TICK_MODULUS;
    assert tick % m - anchor % m == tick - anchor - m * (tick / m - anchor / m);
    ModuloShift(tick - anchor, tick / m - anchor / m);
  }

  lemma ModuloShift(x: int, k: int)
    ensures (x - TICK_MODULUS * k) % TICK_MODULUS == x % TICK_MODULUS
  {
    var m := TICK_MODULUS;
    assert x - m * k == m * (x / m - k) + x % m;
  }
}
