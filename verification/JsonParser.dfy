/** The recursive-descent parser itself: an object whose methods advance `position`. */
module JsonParser {
  import opened Wrappers
  import opened Lexemes
  import opened RegistryRecord
  import opened Json

  /** Every `None` stands for a thrown error. */
  class StrictJsonParser {
    const source: string
    const number: ToNumber
    var position: nat

    constructor (source: string, number: ToNumber)
      ensures this.source == source && this.number == number && position == 0
    {
      this.source, this.number, this.position := source, number, 0;
    }

    method SkipWhitespace()
      modifies this
      ensures position == SkipSpace(source, old(position))
    {
      while position < |source| && IsSpace(source[position])
        invariant SkipSpace(source, position) == SkipSpace(source, old(position))
        decreases |source| - position
      {
        position := position + 1;
      }
    }

    method ParseStringAt() returns (r: Option<string>)
      requires position < |source|
      modifies this
      ensures match ParseString(source, old(position))
              case None => r == None
              case Some((text, end)) => r == Some(text) && position == end
    {
      var start := position;
      position := position + 1;
      while position < |source|
        invariant start < position <= |source|
        invariant FindQuote(source, start + 1) == FindQuote(source, position)
        decreases |source| - position
      {
        var character := source[position];
        if character == '"' {
          position := position + 1;
          return Some(source[start + 1..position - 1]);
        }
        if !Plain(character) {
          return None;
        }
        position := position + 1;
      }
      r := None;
    }

    method ParseNumberAt() returns (r: Option<Value>)
      modifies this
      ensures match ParseNumber(source, number, old(position))
              case None => r == None
              case Some((value, end)) => r == Some(value) && position == end
    {
      var end := MatchNumber(CodesOf(source), position);
      if end.None? {
        return None;
      }
      var raw := source[position..end.value];
      if HasFloatMark(raw) && number(raw) == NotFinite {
        return None;
      }
      position := end.value;
      r := Some(NumberNode(raw));
    }

    method ParseLiteralAt(literal: string, value: Value) returns (r: Option<Value>)
      requires literal != ""
      modifies this
      ensures match ParseLiteral(source, old(position), literal, value)
              case None => r == None
              case Some((v, end)) => r == Some(v) && position == end
    {
      if position + |literal| > |source| || source[position..position + |literal|] != literal {
        return None;
      }
      position := position + |literal|;
      r := Some(value);
    }

    method ParseValueAt() returns (r: Option<Value>)
      modifies this
      ensures match ParseValue(source, number, old(position))
              case None => r == None
              case Some((value, end)) => r == Some(value) && position == end
      decreases |source| - position, 2
    {
      SkipWhitespace();
      if position >= |source| {
        return None;
      }
      var current := source[position];
      if current == '{' {
        r := ParseObjectAt();
      } else if current == '[' {
        r := ParseArrayAt();
      } else if current == '"' {
        var text := ParseStringAt();
        r := if text.Some? then Some(Str(text.value)) else None;
      } else if current == 't' {
        r := ParseLiteralAt("true", Bool(true));
      } else if current == 'f' {
        r := ParseLiteralAt("false", Bool(false));
      } else if current == 'n' {
        r := ParseLiteralAt("null", Null);
      } else {
        r := ParseNumberAt();
      }
    }

    method ParseMemberAt(keys: set<string>) returns (r: Option<(string, Value)>)
      modifies this
      ensures match ParseMember(source, number, old(position), keys)
              case None => r == None
              case Some((member, end)) => r == Some(member) && position == end
      decreases |source| - position, 3
    {
      hide SkipSpace, ParseString, ParseValue;
      SkipWhitespace();
      if !IsAt(source, position, '"') {
        return None;
      }
      var key := ParseStringAt();
      if key.None? || key.value in keys {
        return None;
      }
      SkipWhitespace();
      if !IsAt(source, position, ':') {
        return None;
      }
      position := position + 1;
      var value := ParseValueAt();
      r := if value.Some? then Some((key.value, value.value)) else None;
    }

    method ParseObjectAt() returns (r: Option<Value>)
      requires position < |source|
      modifies this
      ensures match ParseObject(source, number, old(position))
              case None => r == None
              case Some((value, end)) => r == Some(value) && position == end
      decreases |source| - position, 1
    {
      position := position + 1;
      SkipWhitespace();
      if IsAt(source, position, '}') {
        position := position + 1;
        return Some(Obj([]));
      }
      var result := ParseMembersAt();
      r := if result.Some? then Some(Obj(result.value)) else None;
    }

    /** The loop of `parseObject`: fills the result object and the set of its keys. */
    method ParseMembersAt() returns (r: Option<seq<(string, Value)>>)
      requires position <= |source|
      modifies this
      ensures match ParseMembers(source, number, old(position), {})
              case None => r == None
              case Some((members, end)) => r == Some(members) && position == end
      decreases |source| - position, 4
    {
      hide ParseMembers, ParseMember, SkipSpace;
      var result: seq<(string, Value)> := [];
      var keys: set<string> := {};
      ghost var all := ParseMembers(source, number, position, {});
      MoreLaws([], [], all);
      while true
        invariant old(position) <= position <= |source|
        invariant all == More(result, ParseMembers(source, number, position, keys))
        decreases |source| - position
      {
        MembersUnfold(source, number, position, keys);
        var member := ParseMemberAt(keys);
        if member.None? {
          return None;
        }
        SkipWhitespace();
        if IsAt(source, position, '}') {
          position := position + 1;
          return Some(result + [member.value]);
        }
        if !IsAt(source, position, ',') {
          return None;
        }
        MoreLaws(result, [member.value], ParseMembers(source, number, position + 1, keys + {member.value.0}));
        keys := keys + {member.value.0};
        result := result + [member.value];
        position := position + 1;
      }
    }

    method ParseArrayAt() returns (r: Option<Value>)
      requires position < |source|
      modifies this
      ensures match ParseArray(source, number, old(position))
              case None => r == None
              case Some((value, end)) => r == Some(value) && position == end
      decreases |source| - position, 1
    {
      position := position + 1;
      SkipWhitespace();
      if IsAt(source, position, ']') {
        position := position + 1;
        return Some(Arr([]));
      }
      var result := ParseElementsAt();
      r := if result.Some? then Some(Arr(result.value)) else None;
    }

    /** The loop of `parseArray`. */
    method ParseElementsAt() returns (r: Option<seq<Value>>)
      requires position <= |source|
      modifies this
      ensures match ParseElements(source, number, old(position))
              case None => r == None
              case Some((items, end)) => r == Some(items) && position == end
      decreases |source| - position, 4
    {
      hide ParseElements, ParseValue, SkipSpace;
      var result: seq<Value> := [];
      ghost var all := ParseElements(source, number, position);
      MoreLaws([], [], all);
      while true
        invariant old(position) <= position <= |source|
        invariant all == More(result, ParseElements(source, number, position))
        decreases |source| - position
      {
        ElementsUnfold(source, number, position);
        var value := ParseValueAt();
        if value.None? {
          return None;
        }
        SkipWhitespace();
        if IsAt(source, position, ']') {
          position := position + 1;
          return Some(result + [value.value]);
        }
        if !IsAt(source, position, ',') {
          return None;
        }
        MoreLaws(result, [value.value], ParseElements(source, number, position + 1));
        result := result + [value.value];
        position := position + 1;
      }
    }

    method ParseAll() returns (r: Option<Value>)
      requires position == 0
      modifies this
      ensures r == Parse(source, number)
    {
      r := ParseValueAt();
      if r.Some? {
        SkipWhitespace();
        if position != |source| {
          r := None;
        }
      }
    }
  }

  method ParseStrictJson(source: string, number: ToNumber) returns (r: Option<Value>)
    ensures r == Parse(source, number)
  {
    var parser := new StrictJsonParser(source, number);
    r := parser.ParseAll();
  }
}
