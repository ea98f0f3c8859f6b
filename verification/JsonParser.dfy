/** The parser object: a position that advances over the input, proved against the reader's functions. */
module JsonParser {
  import opened Core
  import opened Utf8
  import opened JsonGrammar
  import opened JsonReader
  import opened JsonCompleteness

  /** A method's result and the new position are what the function reads; on failure only the code matters. */
  ghost predicate Agrees<T>(spec: Result<At<T>>, r: Result<T>, position: nat) {
    && (r.Success? ==> Yields(spec, r.value, position))
    && (r.Failure? ==> spec.Failure? && spec.error == r.error)
  }

  /** Reading the whole is what was collected so far and then reading the rest. */
  ghost predicate Continues<T>(whole: Result<At<seq<T>>>, collected: seq<T>, rest: Result<At<seq<T>>>) {
    && (rest.Success? ==> Yields(whole, collected + rest.value.value, rest.value.next))
    && (rest.Failure? ==> whole.Failure? && whole.error == rest.error)
  }

  lemma Starting<T>(whole: Result<At<seq<T>>>)
    ensures Continues(whole, [], whole)
  {
    assert whole.Success? ==> [] + whole.value.value == whole.value.value;
  }

  /** One step: the rest was a first piece and a shorter rest. */
  lemma Collect<T>(whole: Result<At<seq<T>>>, collected: seq<T>, rest: Result<At<seq<T>>>, piece: seq<T>,
                   shorter: Result<At<seq<T>>>)
    requires Continues(whole, collected, rest)
    requires Continues(rest, piece, shorter)
    ensures Continues(whole, collected + piece, shorter)
  {
    assert shorter.Success? ==> collected + (piece + shorter.value.value) == collected + piece + shorter.value.value;
  }

  class Parser {
    const input: Bytes
    var position: nat

    ghost predicate InBounds()
      reads this
    {
      position <= |input|
    }

    constructor (text: Bytes)
      ensures input == text && position == 0
    {
      input, position := text, 0;
    }

    method SkipWhitespace()
      requires InBounds()
      modifies this
      ensures position == SkipWs(input, old(position))
    {
      while position < |input|
        invariant old(position) <= position <= |input|
        invariant SkipWs(input, old(position)) == SkipWs(input, position)
      {
        if !IsWs(input[position]) {
          return;
        }
        position := position + 1;
      }
    }

    /** Skip whitespace and step over one expected byte, if it is there. */
    method Consume(expected: uint8) returns (ok: bool)
      requires InBounds()
      modifies this
      ensures ok == Sees(input, SkipWs(input, old(position)), expected)
      ensures position == if ok then SkipWs(input, old(position)) + 1 else SkipWs(input, old(position))
      ensures InBounds()
    {
      SkipWhitespace();
      if position >= |input| || input[position] != expected {
        return false;
      }
      position := position + 1;
      ok := true;
    }

    method ConsumeLiteral(literal: Bytes) returns (ok: bool)
      requires InBounds()
      modifies this
      ensures ok <==> old(position) + |literal| <= |input| && input[old(position)..old(position) + |literal|] == literal
      ensures position == if ok then old(position) + |literal| else old(position)
    {
      ok := position + |literal| <= |input| && input[position..position + |literal|] == literal;
      if ok {
        position := position + |literal|;
      }
    }

    method SkipDigits()
      requires InBounds()
      modifies this
      ensures position == ScanDigits(input, old(position))
    {
      while position < |input| && IsDigit(input[position])
        invariant old(position) <= position <= |input|
        invariant ScanDigits(input, old(position)) == ScanDigits(input, position)
      {
        position := position + 1;
      }
    }

    method ParseNumber() returns (r: Result<Json>)
      requires InBounds()
      modifies this
      ensures r.Success? ==>
        && ReadNumber(input, old(position)) == Success(position)
        && old(position) <= position <= |input| && r.value == Number(input[old(position)..position])
      ensures r.Failure? ==> ReadNumber(input, old(position)) == Failure(r.error)
    {
      var start := position;
      if position < |input| && input[position] == MINUS {
        position := position + 1;
      }
      if position >= |input| {
        return Failure(InvalidJson);
      }
      if input[position] == ZERO {
        position := position + 1;
        if position < |input| && IsDigit(input[position]) {
          return Failure(InvalidJson);
        }
      } else if IsDigit(input[position]) {
        SkipDigits();
      } else {
        return Failure(InvalidJson);
      }
      assert ReadNumber(input, start) == ReadFraction(input, position);
      var ok := ParseFraction();
      if !ok {
        return Failure(InvalidJson);
      }
      r := Success(Number(input[start..position]));
    }

    /** The optional fraction, and then the optional exponent. */
    method ParseFraction() returns (ok: bool)
      requires InBounds()
      modifies this
      ensures ok ==> ReadFraction(input, old(position)) == Success(position) && old(position) <= position <= |input|
      ensures !ok ==> ReadFraction(input, old(position)) == Failure(InvalidJson)
    {
      if position < |input| && input[position] == POINT {
        position := position + 1;
        var fractionStart := position;
        SkipDigits();
        if fractionStart == position {
          return false;
        }
      }
      ok := ParseExponent();
    }

    method ParseExponent() returns (ok: bool)
      requires InBounds()
      modifies this
      ensures ok ==> ReadExponent(input, old(position)) == Success(position) && old(position) <= position <= |input|
      ensures !ok ==> ReadExponent(input, old(position)) == Failure(InvalidJson)
    {
      if position < |input| && IsExponent(input[position]) {
        position := position + 1;
        if position < |input| && IsSign(input[position]) {
          position := position + 1;
        }
        var exponentStart := position;
        SkipDigits();
        if exponentStart == position {
          return false;
        }
      }
      ok := true;
    }

    /** Four hexadecimal digits, accumulated one by one. */
    method ParseHexQuad() returns (value: Option<nat>)
      requires InBounds()
      modifies this
      ensures value == ReadQuad(input, old(position))
      ensures value.Some? ==> position == old(position) + 4 <= |input|
      ensures value.None? ==> position == old(position)
    {
      if |input| - position < 4 {
        return None;
      }
      var sum := 0;
      var index := 0;
      while index < 4
        invariant index <= 4 && position == old(position) && position + 4 <= |input|
        invariant forall k :: position <= k < position + index ==> HexDigit(input[k]).Some?
        invariant sum == (
          if index == 0 then 0
          else if index == 1 then HexDigit(input[position]).value
          else if index == 2 then HexDigit(input[position]).value * 0x10 + HexDigit(input[position + 1]).value
          else if index == 3 then
            HexDigit(input[position]).value * 0x100 + HexDigit(input[position + 1]).value * 0x10
              + HexDigit(input[position + 2]).value
          else
            HexDigit(input[position]).value * 0x1000 + HexDigit(input[position + 1]).value * 0x100
            + HexDigit(input[position + 2]).value * 0x10 + HexDigit(input[position + 3]).value)
      {
        var digit := HexDigit(input[position + index]);
        if digit.None? {
          return None;
        }
        sum := sum * 16 + digit.value;
        index := index + 1;
      }
      position := position + 4;
      value := Some(sum);
    }

    /** The escape whose `\u` was just read. */
    method ParseUnicode() returns (r: Result<Bytes>)
      requires 2 <= position && InBounds()
      modifies this
      ensures Agrees(ReadUnicode(input, old(position) - 2), r, position)
    {
      var quad := ParseHexQuad();
      if quad.None? {
        return Failure(InvalidJson);
      }
      var codePoint := quad.value;
      if HighSurrogate(codePoint) {
        if |input| - position < 6 || input[position] != BACKSLASH || input[position + 1] != LOWER_U {
          return Failure(InvalidJson);
        }
        position := position + 2;
        var low := ParseHexQuad();
        if low.None? || !LowSurrogate(low.value) {
          return Failure(InvalidJson);
        }
        codePoint := Combine(codePoint, low.value);
      } else if LowSurrogate(codePoint) {
        return Failure(InvalidJson);
      }
      r := Success(Encode(codePoint));
    }

    /** One char of a string, whose first byte is not the closing quote. */
    method ParseChar() returns (r: Result<Bytes>)
      requires position < |input| && input[position] != QUOTE
      modifies this
      ensures Agrees(ReadChar(input, old(position)), r, position)
    {
      var value := input[position];
      position := position + 1;
      if value < 0x20 {
        return Failure(InvalidJson);
      }
      if value != BACKSLASH {
        return Success([value]);
      }
      if position >= |input| {
        return Failure(InvalidJson);
      }
      var escape := input[position];
      position := position + 1;
      var simple := SimpleEscape(escape);
      if simple.Some? {
        return Success([simple.value]);
      }
      if escape != LOWER_U {
        return Failure(InvalidJson);
      }
      r := ParseUnicode();
    }

    method ParseString() returns (r: Result<Bytes>)
      requires InBounds()
      modifies this
      ensures Agrees(ReadString(input, old(position)), r, position)
    {
      if position >= |input| || input[position] != QUOTE {
        return Failure(InvalidJson);
      }
      position := position + 1;
      var output: Bytes := [];
      ghost var whole := ReadChars(input, position);
      Starting(whole);
      while position < |input|
        invariant InBounds()
        invariant Continues(whole, output, ReadChars(input, position))
        decreases |input| - position
      {
        if input[position] == QUOTE {
          position := position + 1;
          assert output + [] == output;
          return Success(output);
        }
        ghost var here := position;
        var piece := ParseChar();
        if piece.Failure? {
          return Failure(piece.error);
        }
        CharsStep(input, here, position, piece.value);
        Collect(whole, output, ReadChars(input, here), piece.value, ReadChars(input, position));
        output := output + piece.value;
      }
      r := Failure(InvalidJson);
    }

    // ---------- Values ----------

    method ParseValue(depth: nat) returns (r: Result<Json>)
      requires InBounds()
      modifies this
      ensures Agrees(ReadValue(input, old(position), depth), r, position)
      decreases |input| - position, 1
    {
      if depth > MAXIMUM_DEPTH {
        return Failure(ResourceLimit);
      }
      SkipWhitespace();
      if position >= |input| {
        return Failure(InvalidJson);
      }
      var first := input[position];
      if first == LEFT_BRACE {
        r := ParseObject(depth + 1);
      } else if first == LEFT_BRACKET {
        r := ParseArray(depth + 1);
      } else {
        r := ParseScalar();
      }
    }

    method ParseScalar() returns (r: Result<Json>)
      requires position < |input|
      modifies this
      ensures Agrees(ReadScalar(input, old(position)), r, position)
    {
      var first := input[position];
      if first == QUOTE {
        var text := ParseString();
        return if text.Failure? then Failure(text.error) else Success(String(text.value));
      } else if first == TRUE[0] {
        var ok := ConsumeLiteral(TRUE);
        return if ok then Success(Boolean(true)) else Failure(InvalidJson);
      } else if first == FALSE[0] {
        var ok := ConsumeLiteral(FALSE);
        return if ok then Success(Boolean(false)) else Failure(InvalidJson);
      } else if first == NULL[0] {
        var ok := ConsumeLiteral(NULL);
        return if ok then Success(Null) else Failure(InvalidJson);
      } else {
        r := ParseNumber();
      }
    }

    method ParseArray(depth: nat) returns (r: Result<Json>)
      requires position < |input| && input[position] == LEFT_BRACKET
      modifies this
      ensures Agrees(ReadArray(input, old(position), depth), r, position)
      decreases |input| - position, 0
    {
      position := position + 1;
      var empty := Consume(RIGHT_BRACKET);
      if empty {
        return Success(Array([]));
      }
      var elements: seq<Json> := [];
      ghost var whole := ReadElements(input, position, depth);
      ghost var start := position;
      Starting(whole);
      while true
        invariant start <= position && InBounds()
        invariant Continues(whole, elements, ReadElements(input, position, depth))
        decreases |input| - position
      {
        ghost var here, collected := position, elements;
        var element := ParseValue(depth);
        if element.Failure? {
          return element;
        }
        ghost var behind := position;
        elements := elements + [element.value];
        var closed := Consume(RIGHT_BRACKET);
        if closed {
          ElementsLast(input, here, depth, element.value, behind);
          return Success(Array(elements));
        }
        SkipTwice(input, behind);
        var comma := Consume(COMMA);
        if !comma {
          return Failure(InvalidJson);
        }
        ElementsNext(input, here, depth, element.value, behind, position);
        Collect(whole, collected, ReadElements(input, here, depth), [element.value],
                ReadElements(input, position, depth));
      }
    }

    method ParseMember(depth: nat, keys: set<Bytes>) returns (r: Result<Member>)
      requires InBounds()
      modifies this
      ensures Agrees(ReadMember(input, old(position), depth, keys), r, position)
      decreases |input| - position, 2
    {
      SkipWhitespace();
      if position >= |input| || input[position] != QUOTE {
        return Failure(InvalidJson);
      }
      var key := ParseString();
      if key.Failure? {
        return Failure(key.error);
      }
      if key.value in keys {
        return Failure(DuplicateKey);
      }
      var colon := Consume(COLON);
      if !colon {
        return Failure(InvalidJson);
      }
      var member := ParseValue(depth);
      if member.Failure? {
        return Failure(member.error);
      }
      r := Success(Member(key.value, member.value));
    }

    method ParseObject(depth: nat) returns (r: Result<Json>)
      requires position < |input| && input[position] == LEFT_BRACE
      modifies this
      ensures Agrees(ReadObject(input, old(position), depth), r, position)
      decreases |input| - position, 0
    {
      position := position + 1;
      var empty := Consume(RIGHT_BRACE);
      if empty {
        return Success(Object([]));
      }
      var keys: set<Bytes> := {};
      var members: seq<Member> := [];
      ghost var whole := ReadMembers(input, position, depth, {});
      ghost var start := position;
      Starting(whole);
      while true
        invariant start <= position && InBounds()
        invariant Continues(whole, members, ReadMembers(input, position, depth, keys))
        decreases |input| - position
      {
        ghost var here, before, collected := position, keys, members;
        var member := ParseMember(depth, keys);
        if member.Failure? {
          return Failure(member.error);
        }
        ghost var behind := position;
        keys := keys + {member.value.key};
        members := members + [member.value];
        var closed := Consume(RIGHT_BRACE);
        if closed {
          MembersLast(input, here, depth, before, member.value, behind);
          return Success(Object(members));
        }
        SkipTwice(input, behind);
        var comma := Consume(COMMA);
        if !comma {
          return Failure(InvalidJson);
        }
        MembersNext(input, here, depth, before, member.value, behind, position);
        Collect(whole, collected, ReadMembers(input, here, depth, before), [member.value],
                ReadMembers(input, position, depth, keys));
      }
    }

    /** Parse the whole text. */
    method Parse() returns (r: Result<Json>)
      requires position == 0
      modifies this
      ensures r == ReadJson(input)
    {
      var utf8 := IsValid(input);
      if !utf8 {
        return Failure(InvalidUtf8);
      }
      r := ParseValue(0);
      if r.Failure? {
        return;
      }
      SkipWhitespace();
      if position != |input| {
        return Failure(InvalidJson);
      }
    }
  }

  // ---------- Steps of the loops ----------

  lemma CharsStep(s: Bytes, i: nat, k: nat, piece: Bytes)
    requires i < |s| && s[i] != QUOTE && Yields(ReadChar(s, i), piece, k)
    ensures Continues(ReadChars(s, i), piece, ReadChars(s, k))
  {
  }

  lemma {:induction false} SkipTwice(s: Bytes, i: nat)
    requires i <= |s|
    ensures SkipWs(s, SkipWs(s, i)) == SkipWs(s, i)
    decreases |s| - i
  {
    if i < |s| && IsWs(s[i]) { SkipTwice(s, i + 1); }
  }

  lemma ElementsLast(s: Bytes, i: nat, depth: nat, v: Json, e: nat)
    requires i <= |s| && Yields(ReadValue(s, i, depth), v, e) && Sees(s, SkipWs(s, e), RIGHT_BRACKET)
    ensures Yields(ReadElements(s, i, depth), [v], SkipWs(s, e) + 1)
  {
  }

  lemma {:induction false} ElementsNext(s: Bytes, i: nat, depth: nat, v: Json, e: nat, next: nat)
    requires i <= |s| && Yields(ReadValue(s, i, depth), v, e)
    requires !Sees(s, SkipWs(s, e), RIGHT_BRACKET) && Sees(s, SkipWs(s, e), COMMA) && next == SkipWs(s, e) + 1
    ensures Continues(ReadElements(s, i, depth), [v], ReadElements(s, next, depth))
  {
  }

  lemma MembersLast(s: Bytes, i: nat, depth: nat, keys: set<Bytes>, m: Member, e: nat)
    requires i <= |s| && Yields(ReadMember(s, i, depth, keys), m, e) && Sees(s, SkipWs(s, e), RIGHT_BRACE)
    ensures Yields(ReadMembers(s, i, depth, keys), [m], SkipWs(s, e) + 1)
  {
  }

  lemma MembersNext(s: Bytes, i: nat, depth: nat, keys: set<Bytes>, m: Member, e: nat, next: nat)
    requires i <= |s| && Yields(ReadMember(s, i, depth, keys), m, e)
    requires !Sees(s, SkipWs(s, e), RIGHT_BRACE) && Sees(s, SkipWs(s, e), COMMA) && next == SkipWs(s, e) + 1
    ensures Continues(ReadMembers(s, i, depth, keys), [m], ReadMembers(s, next, depth, keys + {m.key}))
  {
  }

  /** The library's entry point: exactly the admissible texts are accepted, with the value they denote. */
  method ParseJson(input: Bytes) returns (r: Result<Json>)
    ensures forall v :: r == Success(v) <==> Valid(input) && JsonText(input, v) && Fits(v, 0) && UniqueKeys(v)
    ensures r == Failure(InvalidUtf8) <==> !Valid(input)
    ensures r.Success? ==> AllUtf8(r.value)
  {
    var parser := new Parser(input);
    r := parser.Parse();
    forall v ensures r == Success(v) <==> Valid(input) && JsonText(input, v) && Fits(v, 0) && UniqueKeys(v) {
      ParseExact(input, v);
    }
    DecodedUtf8(input);
  }

  // ---------- Looking up a member ----------

  lemma OnlyMember(v: Json, k: nat)
    requires v.Object? && k < |v.members|
    ensures v.members[k] == Member(v.members[k].key, v.members[k].value)
    ensures UniqueKeys(v) ==> forall x :: Member(v.members[k].key, x) in v.members <==> x == v.members[k].value
  {
    var m := v.members[k];
    if UniqueKeys(v) {
      forall x ensures Member(m.key, x) in v.members <==> x == m.value {
        if Member(m.key, x) in v.members {
          var n :| 0 <= n < |v.members| && v.members[n] == Member(m.key, x);
          assert n == k;
        }
      }
    }
  }

  /** The first member with a key; in a parsed value it is the only one. */
  method Find(v: Json, key: Bytes) returns (r: Option<Json>)
    ensures !v.Object? ==> r == None
    ensures v.Object? && r == None ==> forall k :: 0 <= k < |v.members| ==> v.members[k].key != key
    ensures v.Object? && r.Some? ==>
      exists k :: 0 <= k < |v.members| && v.members[k] == Member(key, r.value) && forall n :: 0 <= n < k ==>
        v.members[n].key != key
    ensures v.Object? && UniqueKeys(v) ==> forall x :: r == Some(x) <==> Member(key, x) in v.members
  {
    if !v.Object? {
      return None;
    }
    var index := 0;
    while index < |v.members|
      invariant index <= |v.members|
      invariant forall n :: 0 <= n < index ==> v.members[n].key != key
    {
      if v.members[index].key == key {
        OnlyMember(v, index);
        return Some(v.members[index].value);
      }
      index := index + 1;
    }
    r := None;
  }
}
