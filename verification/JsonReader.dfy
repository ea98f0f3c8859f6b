/** The recursive-descent reader as functions of the text and a position. */
module JsonReader {
  import opened Core
  import opened Utf8
  import opened JsonGrammar

  /** What was read, and the position behind it. */
  datatype At<+T> = At(value: T, next: nat)

  ghost predicate Yields<T>(r: Result<At<T>>, value: T, next: nat) {
    r.Success? && r.value.value == value && r.value.next == next
  }

  function SkipWs(s: Bytes, i: nat): (j: nat)
    requires i <= |s|
    ensures i <= j <= |s|
    decreases |s| - i
  {
    if i < |s| && IsWs(s[i]) then SkipWs(s, i + 1) else i
  }

  function ScanDigits(s: Bytes, i: nat): (j: nat)
    requires i <= |s|
    ensures i <= j <= |s|
    decreases |s| - i
  {
    if i < |s| && IsDigit(s[i]) then ScanDigits(s, i + 1) else i
  }

  predicate Sees(s: Bytes, i: nat, b: uint8) {
    i < |s| && s[i] == b
  }

  // ---------- Numbers ----------

  function ReadNumber(s: Bytes, i: nat): (r: Result<nat>)
    requires i <= |s|
    ensures r.Success? ==> i < r.value <= |s|
    ensures r.Failure? ==> r.error != InvalidUtf8
  {
    var a := if Sees(s, i, MINUS) then i + 1 else i;
    if a >= |s| then Failure(InvalidJson)
    else if s[a] == ZERO then
      if a + 1 < |s| && IsDigit(s[a + 1]) then Failure(InvalidJson) else ReadFraction(s, a + 1)
    else if IsDigit(s[a]) then ReadFraction(s, ScanDigits(s, a + 1))
    else Failure(InvalidJson)
  }

  function ReadFraction(s: Bytes, i: nat): (r: Result<nat>)
    requires i <= |s|
    ensures r.Success? ==> i <= r.value <= |s|
    ensures r.Failure? ==> r.error != InvalidUtf8
  {
    if Sees(s, i, POINT) then
      var j := ScanDigits(s, i + 1);
      if j == i + 1 then Failure(InvalidJson) else ReadExponent(s, j)
    else ReadExponent(s, i)
  }

  function ReadExponent(s: Bytes, i: nat): (r: Result<nat>)
    requires i <= |s|
    ensures r.Success? ==> i <= r.value <= |s|
    ensures r.Failure? ==> r.error != InvalidUtf8
  {
    if i < |s| && IsExponent(s[i]) then
      var k := if i + 1 < |s| && IsSign(s[i + 1]) then i + 2 else i + 1;
      var j := ScanDigits(s, k);
      if j == k then Failure(InvalidJson) else Success(j)
    else Success(i)
  }

  // ---------- Strings ----------

  function ReadQuad(s: Bytes, i: nat): Option<nat> {
    if i + 4 > |s| then None
    else
      match (HexDigit(s[i]), HexDigit(s[i + 1]), HexDigit(s[i + 2]), HexDigit(s[i + 3]))
      case (Some(a), Some(b), Some(c), Some(d)) => Some(a * 0x1000 + b * 0x100 + c * 0x10 + d)
      case _ => None
  }

  /** The escape at `i`, which is known to start with a backslash and a `u`. */
  function ReadUnicode(s: Bytes, i: nat): (r: Result<At<Bytes>>)
    ensures r.Success? ==> i < r.value.next <= |s|
    ensures r.Failure? ==> r.error != InvalidUtf8
  {
    match ReadQuad(s, i + 2)
    case None => Failure(InvalidJson)
    case Some(n) =>
      if HighSurrogate(n) then
        if i + 12 > |s| || !UnicodeEscape(s, i + 6) then Failure(InvalidJson)
        else
          match ReadQuad(s, i + 8)
          case None => Failure(InvalidJson)
          case Some(low) =>
            if LowSurrogate(low) then Success(At(Encode(Combine(n, low)), i + 12)) else Failure(InvalidJson)
      else if LowSurrogate(n) then Failure(InvalidJson)
      else Success(At(Encode(n), i + 6))
  }

  function ReadChar(s: Bytes, i: nat): (r: Result<At<Bytes>>)
    requires i < |s|
    ensures r.Success? ==> i < r.value.next <= |s|
    ensures r.Failure? ==> r.error != InvalidUtf8
  {
    if s[i] < 0x20 then Failure(InvalidJson)
    else if s[i] != BACKSLASH then Success(At([s[i]], i + 1))
    else if i + 1 >= |s| then Failure(InvalidJson)
    else if SimpleEscape(s[i + 1]).Some? then Success(At([SimpleEscape(s[i + 1]).value], i + 2))
    else if s[i + 1] == LOWER_U then ReadUnicode(s, i)
    else Failure(InvalidJson)
  }

  /** The chars up to the closing quote. */
  function ReadChars(s: Bytes, i: nat): (r: Result<At<Bytes>>)
    requires i <= |s|
    ensures r.Success? ==> i < r.value.next <= |s|
    ensures r.Failure? ==> r.error != InvalidUtf8
    decreases |s| - i
  {
    if i >= |s| then Failure(InvalidJson)
    else if s[i] == QUOTE then Success(At([], i + 1))
    else
      match ReadChar(s, i)
      case Failure(e) => Failure(e)
      case Success(At(piece, k)) =>
        match ReadChars(s, k)
        case Failure(e) => Failure(e)
        case Success(At(rest, j)) => Success(At(piece + rest, j))
  }

  function ReadString(s: Bytes, i: nat): (r: Result<At<Bytes>>)
    ensures r.Success? ==> i < r.value.next <= |s|
    ensures r.Failure? ==> r.error != InvalidUtf8
  {
    if Sees(s, i, QUOTE) then ReadChars(s, i + 1) else Failure(InvalidJson)
  }

  // ---------- Values ----------

  function ReadLiteral(s: Bytes, i: nat, word: Bytes, v: Json): (r: Result<At<Json>>)
    requires i <= |s| && word != []
    ensures r.Success? ==> i < r.value.next <= |s|
    ensures r.Failure? ==> r.error != InvalidUtf8
  {
    if i + |word| <= |s| && s[i..i + |word|] == word then Success(At(v, i + |word|)) else Failure(InvalidJson)
  }

  /** A string, a literal or a number. */
  function ReadScalar(s: Bytes, i: nat): (r: Result<At<Json>>)
    requires i < |s|
    ensures r.Success? ==> i < r.value.next <= |s|
    ensures r.Failure? ==> r.error != InvalidUtf8
  {
    if s[i] == QUOTE then
      match ReadString(s, i)
      case Failure(e) => Failure(e)
      case Success(At(text, j)) => Success(At(String(text), j))
    else if s[i] == TRUE[0] then ReadLiteral(s, i, TRUE, Boolean(true))
    else if s[i] == FALSE[0] then ReadLiteral(s, i, FALSE, Boolean(false))
    else if s[i] == NULL[0] then ReadLiteral(s, i, NULL, Null)
    else
      match ReadNumber(s, i)
      case Failure(e) => Failure(e)
      case Success(j) => Success(At(Number(s[i..j]), j))
  }

  /** A value inside `depth` containers, after any whitespace. */
  function ReadValue(s: Bytes, i: nat, depth: nat): (r: Result<At<Json>>)
    requires i <= |s|
    ensures r.Success? ==> SkipWs(s, i) < r.value.next <= |s|
    ensures r.Failure? ==> r.error != InvalidUtf8
    decreases |s| - i, 1
  {
    if depth > MAXIMUM_DEPTH then Failure(ResourceLimit)
    else
      var p := SkipWs(s, i);
      if p >= |s| then Failure(InvalidJson)
      else if s[p] == LEFT_BRACE then ReadObject(s, p, depth + 1)
      else if s[p] == LEFT_BRACKET then ReadArray(s, p, depth + 1)
      else ReadScalar(s, p)
  }

  /** The array whose bracket is at `i`. */
  function ReadArray(s: Bytes, i: nat, depth: nat): (r: Result<At<Json>>)
    requires i < |s|
    ensures r.Success? ==> i < r.value.next <= |s|
    ensures r.Failure? ==> r.error != InvalidUtf8
    decreases |s| - i, 0
  {
    var q := SkipWs(s, i + 1);
    if Sees(s, q, RIGHT_BRACKET) then Success(At(Array([]), q + 1))
    else
      match ReadElements(s, q, depth)
      case Failure(e) => Failure(e)
      case Success(At(vs, j)) => Success(At(Array(vs), j))
  }

  /** One or more elements and the closing bracket. */
  function ReadElements(s: Bytes, i: nat, depth: nat): (r: Result<At<seq<Json>>>)
    requires i <= |s|
    ensures r.Success? ==> i < r.value.next <= |s| && r.value.value != []
    ensures r.Failure? ==> r.error != InvalidUtf8
    decreases |s| - i, 2
  {
    match ReadValue(s, i, depth)
    case Failure(e) => Failure(e)
    case Success(At(v, e)) =>
      var q := SkipWs(s, e);
      if Sees(s, q, RIGHT_BRACKET) then Success(At([v], q + 1))
      else if Sees(s, q, COMMA) then
        match ReadElements(s, q + 1, depth)
        case Failure(e) => Failure(e)
        case Success(At(vs, j)) => Success(At([v] + vs, j))
      else Failure(InvalidJson)
  }

  /** The object whose brace is at `i`. */
  function ReadObject(s: Bytes, i: nat, depth: nat): (r: Result<At<Json>>)
    requires i < |s|
    ensures r.Success? ==> i < r.value.next <= |s|
    ensures r.Failure? ==> r.error != InvalidUtf8
    decreases |s| - i, 0
  {
    var q := SkipWs(s, i + 1);
    if Sees(s, q, RIGHT_BRACE) then Success(At(Object([]), q + 1))
    else
      match ReadMembers(s, q, depth, {})
      case Failure(e) => Failure(e)
      case Success(At(ms, j)) => Success(At(Object(ms), j))
  }

  /** One member whose key is not among `keys`. */
  function ReadMember(s: Bytes, i: nat, depth: nat, keys: set<Bytes>): (r: Result<At<Member>>)
    requires i <= |s|
    ensures r.Success? ==> i < r.value.next <= |s|
    ensures r.Failure? ==> r.error != InvalidUtf8
    decreases |s| - i, 2
  {
    match ReadString(s, SkipWs(s, i))
    case Failure(e) => Failure(e)
    case Success(At(key, k)) =>
      if key in keys then Failure(DuplicateKey)
      else
        var c := SkipWs(s, k);
        if !Sees(s, c, COLON) then Failure(InvalidJson)
        else
          match ReadValue(s, c + 1, depth)
          case Failure(e) => Failure(e)
          case Success(At(v, e)) => Success(At(Member(key, v), e))
  }

  /** One or more members and the closing brace. */
  function ReadMembers(s: Bytes, i: nat, depth: nat, keys: set<Bytes>): (r: Result<At<seq<Member>>>)
    requires i <= |s|
    ensures r.Success? ==> i < r.value.next <= |s| && r.value.value != []
    ensures r.Failure? ==> r.error != InvalidUtf8
    decreases |s| - i, 3
  {
    match ReadMember(s, i, depth, keys)
    case Failure(e) => Failure(e)
    case Success(At(m, e)) =>
      var q := SkipWs(s, e);
      if Sees(s, q, RIGHT_BRACE) then Success(At([m], q + 1))
      else if Sees(s, q, COMMA) then
        match ReadMembers(s, q + 1, depth, keys + {m.key})
        case Failure(e) => Failure(e)
        case Success(At(ms, j)) => Success(At([m] + ms, j))
      else Failure(InvalidJson)
  }

  /** The whole text. */
  ghost function ReadJson(s: Bytes): Result<Json> {
    if !Valid(s) then Failure(InvalidUtf8)
    else
      match ReadValue(s, 0, 0)
      case Failure(e) => Failure(e)
      case Success(At(v, e)) => if SkipWs(s, e) == |s| then Success(v) else Failure(InvalidJson)
  }
}
