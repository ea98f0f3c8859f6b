/**
 * The grammar of sections 2 to 7 of RFC 8259, as relations between a stretch `s[i..j]` of the
 * text and the value that it denotes.
 */
module JsonGrammar {
  import opened Core
  import opened Utf8

  datatype Json =
    | Null
    | Boolean(b: bool)
    | Number(text: Bytes)
    | String(text: Bytes)
    | Array(elements: seq<Json>)
    | Object(members: seq<Member>)

  datatype Member = Member(key: Bytes, value: Json)

  const QUOTE: uint8 := 0x22
  const BACKSLASH: uint8 := 0x5C
  const SOLIDUS: uint8 := 0x2F
  const COMMA: uint8 := 0x2C
  const COLON: uint8 := 0x3A
  const LEFT_BRACKET: uint8 := 0x5B
  const RIGHT_BRACKET: uint8 := 0x5D
  const LEFT_BRACE: uint8 := 0x7B
  const RIGHT_BRACE: uint8 := 0x7D
  const MINUS: uint8 := 0x2D
  const PLUS: uint8 := 0x2B
  const POINT: uint8 := 0x2E
  const ZERO: uint8 := 0x30
  const NINE: uint8 := 0x39
  const LOWER_U: uint8 := 0x75

  const TRUE: Bytes := [0x74, 0x72, 0x75, 0x65]
  const FALSE: Bytes := [0x66, 0x61, 0x6C, 0x73, 0x65]
  const NULL: Bytes := [0x6E, 0x75, 0x6C, 0x6C]

  // ---------- Whitespace and digits ----------

  predicate IsWs(b: uint8) { b == 0x20 || b == 0x0A || b == 0x0D || b == 0x09 }

  predicate IsDigit(b: uint8) { ZERO <= b <= NINE }

  ghost predicate Ws(s: Bytes, i: nat, j: nat) {
    i <= j <= |s| && forall k :: i <= k < j ==> IsWs(s[k])
  }

  ghost predicate Digits(s: Bytes, i: nat, j: nat) {
    i <= j <= |s| && forall k :: i <= k < j ==> IsDigit(s[k])
  }

  ghost predicate LiteralAt(s: Bytes, i: nat, j: nat, word: Bytes) {
    i <= j <= |s| && s[i..j] == word
  }

  // ---------- Numbers: [ minus ] int [ frac ] [ exp ] ----------

  ghost predicate IntAt(s: Bytes, i: nat, j: nat) {
    && i < j <= |s|
    && ((s[i] == ZERO && j == i + 1) || (ZERO < s[i] <= NINE && Digits(s, i, j)))
  }

  ghost predicate FracAt(s: Bytes, i: nat, j: nat) {
    && i <= j <= |s|
    && (i == j || (s[i] == POINT && i + 1 < j && Digits(s, i + 1, j)))
  }

  predicate IsExponent(b: uint8) { b == 0x65 || b == 0x45 }

  predicate IsSign(b: uint8) { b == PLUS || b == MINUS }

  ghost predicate ExpAt(s: Bytes, i: nat, j: nat) {
    && i <= j <= |s|
    && (|| i == j
        || (IsExponent(s[i]) && i + 1 < j && Digits(s, i + 1, j))
        || (IsExponent(s[i]) && i + 2 < j && IsSign(s[i + 1]) && Digits(s, i + 2, j)))
  }

  ghost predicate MinusAt(s: Bytes, i: nat, j: nat) {
    i <= j <= |s| && (i == j || (j == i + 1 && s[i] == MINUS))
  }

  ghost predicate NumberAt(s: Bytes, i: nat, j: nat) {
    exists a, b, c :: MinusAt(s, i, a) && IntAt(s, a, b) && FracAt(s, b, c) && ExpAt(s, c, j)
  }

  // ---------- Strings ----------

  function HexDigit(b: uint8): Option<nat> {
    if ZERO <= b <= NINE then Some(b - ZERO)
    else if 0x61 <= b <= 0x66 then Some(b - 0x61 + 10)
    else if 0x41 <= b <= 0x46 then Some(b - 0x41 + 10)
    else None
  }

  /** Four hexadecimal digits spell a number. */
  ghost predicate QuadAt(s: Bytes, i: nat, n: nat) {
    && i + 4 <= |s|
    && (forall k :: i <= k < i + 4 ==> HexDigit(s[k]).Some?)
    && n == HexDigit(s[i]).value * 0x1000 + HexDigit(s[i + 1]).value * 0x100
            + HexDigit(s[i + 2]).value * 0x10 + HexDigit(s[i + 3]).value
  }

  /** The byte that a two-character escape stands for. */
  function SimpleEscape(b: uint8): Option<uint8> {
    if b == QUOTE || b == BACKSLASH || b == SOLIDUS then Some(b)
    else if b == 0x62 then Some(0x08)
    else if b == 0x66 then Some(0x0C)
    else if b == 0x6E then Some(0x0A)
    else if b == 0x72 then Some(0x0D)
    else if b == 0x74 then Some(0x09)
    else None
  }

  predicate UnicodeEscape(s: Bytes, i: nat) {
    i + 2 <= |s| && s[i] == BACKSLASH && s[i + 1] == LOWER_U
  }

  predicate Unescaped(b: uint8) { b >= 0x20 && b != QUOTE && b != BACKSLASH }

  ghost predicate PlainAt(s: Bytes, i: nat, j: nat, piece: Bytes) {
    i < |s| && j == i + 1 && Unescaped(s[i]) && piece == [s[i]]
  }

  ghost predicate ShortEscapeAt(s: Bytes, i: nat, j: nat, piece: Bytes) {
    && i + 2 <= |s| && j == i + 2 && s[i] == BACKSLASH
    && SimpleEscape(s[i + 1]).Some? && piece == [SimpleEscape(s[i + 1]).value]
  }

  ghost predicate ScalarEscapeAt(s: Bytes, i: nat, j: nat, piece: Bytes) {
    && j == i + 6 && UnicodeEscape(s, i)
    && exists n :: QuadAt(s, i + 2, n) && Scalar(n) && piece == Encode(n)
  }

  ghost predicate PairEscapeAt(s: Bytes, i: nat, j: nat, piece: Bytes) {
    && j == i + 12 && UnicodeEscape(s, i) && UnicodeEscape(s, i + 6)
    && exists high, low :: QuadAt(s, i + 2, high) && QuadAt(s, i + 8, low)
         && HighSurrogate(high) && LowSurrogate(low) && piece == Encode(Combine(high, low))
  }

  /** One char of a string and the bytes it denotes; an unpaired surrogate denotes nothing. */
  ghost predicate CharAt(s: Bytes, i: nat, j: nat, piece: Bytes) {
    || PlainAt(s, i, j, piece)
    || ShortEscapeAt(s, i, j, piece)
    || ScalarEscapeAt(s, i, j, piece)
    || PairEscapeAt(s, i, j, piece)
  }

  ghost predicate CharsAt(s: Bytes, i: nat, j: nat, text: Bytes)
    decreases j - i
  {
    && i <= j <= |s|
    && (if i == j then text == []
        else
          exists k: nat, n: nat ::
            i < k <= j && n <= |text| && CharAt(s, i, k, text[..n]) && CharsAt(s, k, j, text[n..]))
  }

  ghost predicate StringAt(s: Bytes, i: nat, j: nat, text: Bytes) {
    i + 2 <= j <= |s| && s[i] == QUOTE && s[j - 1] == QUOTE && CharsAt(s, i + 1, j - 1, text)
  }

  // ---------- Values ----------

  ghost predicate ValueAt(s: Bytes, i: nat, j: nat, v: Json)
    requires i <= j <= |s|
    decreases j - i, 0
  {
    match v
    case Null => LiteralAt(s, i, j, NULL)
    case Boolean(b) => LiteralAt(s, i, j, if b then TRUE else FALSE)
    case Number(text) => NumberAt(s, i, j) && text == s[i..j]
    case String(text) => StringAt(s, i, j, text)
    case Array(vs) =>
      && i + 2 <= j && s[i] == LEFT_BRACKET && s[j - 1] == RIGHT_BRACKET
      && if vs == [] then Ws(s, i + 1, j - 1) else ElementsAt(s, i + 1, j - 1, vs)
    case Object(ms) =>
      && i + 2 <= j && s[i] == LEFT_BRACE && s[j - 1] == RIGHT_BRACE
      && if ms == [] then Ws(s, i + 1, j - 1) else MembersAt(s, i + 1, j - 1, ms)
  }

  /** A value between whitespace. */
  ghost predicate PaddedAt(s: Bytes, i: nat, j: nat, v: Json)
    requires i <= j <= |s|
    decreases j - i, 1
  {
    exists a: nat, b: nat :: Ws(s, i, a) && a <= b <= j && ValueAt(s, a, b, v) && Ws(s, b, j)
  }

  /** value *( value-separator value ) */
  ghost predicate ElementsAt(s: Bytes, i: nat, j: nat, vs: seq<Json>)
    requires i <= j <= |s| && vs != []
    decreases j - i, 2
  {
    if |vs| == 1 then PaddedAt(s, i, j, vs[0])
    else exists k :: i <= k < j && s[k] == COMMA && PaddedAt(s, i, k, vs[0]) && ElementsAt(s, k + 1, j, vs[1..])
  }

  /** string name-separator value, between whitespace. */
  ghost predicate MemberAt(s: Bytes, i: nat, j: nat, m: Member)
    requires i <= j <= |s|
    decreases j - i, 2
  {
    exists a: nat, b: nat, c: nat :: Ws(s, i, a) && StringAt(s, a, b, m.key) && Ws(s, b, c) && c < j && s[c] == COLON
      && PaddedAt(s, c + 1, j, m.value)
  }

  /** member *( value-separator member ) */
  ghost predicate MembersAt(s: Bytes, i: nat, j: nat, ms: seq<Member>)
    requires i <= j <= |s| && ms != []
    decreases j - i, 3
  {
    if |ms| == 1 then MemberAt(s, i, j, ms[0])
    else exists k :: i <= k < j && s[k] == COMMA && MemberAt(s, i, k, ms[0]) && MembersAt(s, k + 1, j, ms[1..])
  }

  /** JSON-text = ws value ws */
  ghost predicate JsonText(s: Bytes, v: Json) {
    PaddedAt(s, 0, |s|, v)
  }

  // ---------- What the library asks beyond the grammar ----------

  const MAXIMUM_DEPTH := 64

  /** Every value inside `v` lies in at most 64 containers, if `v` itself lies in `depth`. */
  predicate Fits(v: Json, depth: nat) {
    && depth <= MAXIMUM_DEPTH
    && match v
       case Array(vs) => forall k :: 0 <= k < |vs| ==> Fits(vs[k], depth + 1)
       case Object(ms) => forall k :: 0 <= k < |ms| ==> Fits(ms[k].value, depth + 1)
       case _ => true
  }

  predicate DistinctKeys(ms: seq<Member>) {
    forall i, j :: 0 <= i < j < |ms| ==> ms[i].key != ms[j].key
  }

  /** No object inside `v` has two members of the same key. */
  predicate UniqueKeys(v: Json) {
    match v
    case Array(vs) => forall k :: 0 <= k < |vs| ==> UniqueKeys(vs[k])
    case Object(ms) => DistinctKeys(ms) && forall k :: 0 <= k < |ms| ==> UniqueKeys(ms[k].value)
    case _ => true
  }
}
