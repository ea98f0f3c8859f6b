/** Whitespace, numbers and strings: the reader follows the grammar, in both directions. */
module JsonTokens {
  import opened Core
  import opened Utf8
  import opened JsonGrammar
  import opened JsonReader

  // ---------- Whitespace and digits ----------

  lemma {:induction false} SkipsWs(s: Bytes, i: nat)
    requires i <= |s|
    ensures Ws(s, i, SkipWs(s, i)) && (SkipWs(s, i) < |s| ==> !IsWs(s[SkipWs(s, i)]))
    decreases |s| - i
  {
    if i < |s| && IsWs(s[i]) { SkipsWs(s, i + 1); }
  }

  lemma {:induction false} SkipStops(s: Bytes, i: nat, j: nat)
    requires Ws(s, i, j) && (j < |s| ==> !IsWs(s[j]))
    ensures SkipWs(s, i) == j
    decreases j - i
  {
    if i < j { SkipStops(s, i + 1, j); }
  }

  lemma {:induction false} ScansDigits(s: Bytes, i: nat)
    requires i <= |s|
    ensures Digits(s, i, ScanDigits(s, i))
    decreases |s| - i
  {
    if i < |s| && IsDigit(s[i]) { ScansDigits(s, i + 1); }
  }

  lemma {:induction false} ScanStops(s: Bytes, i: nat, j: nat)
    requires Digits(s, i, j) && (j < |s| ==> !IsDigit(s[j]))
    ensures ScanDigits(s, i) == j
    decreases j - i
  {
    if i < j { ScanStops(s, i + 1, j); }
  }

  // ---------- Numbers ----------

  /** What may stand behind a value. */
  predicate Follows(s: Bytes, j: nat) {
    j < |s| ==> IsWs(s[j]) || s[j] == COMMA || s[j] == RIGHT_BRACKET || s[j] == RIGHT_BRACE
  }

  lemma ExponentSound(s: Bytes, i: nat)
    requires i <= |s|
    ensures ReadExponent(s, i).Success? ==> ExpAt(s, i, ReadExponent(s, i).value)
  {
    if i < |s| && IsExponent(s[i]) {
      var k := if i + 1 < |s| && IsSign(s[i + 1]) then i + 2 else i + 1;
      ScansDigits(s, k);
    }
  }

  lemma FractionSound(s: Bytes, i: nat)
    requires i <= |s|
    ensures ReadFraction(s, i).Success? ==>
      exists c :: FracAt(s, i, c) && ExpAt(s, c, ReadFraction(s, i).value)
  {
    var c := if Sees(s, i, POINT) then ScanDigits(s, i + 1) else i;
    if Sees(s, i, POINT) { ScansDigits(s, i + 1); }
    if ReadFraction(s, i).Success? {
      ExponentSound(s, c);
      assert FracAt(s, i, c) && ExpAt(s, c, ReadFraction(s, i).value);
    }
  }

  lemma NumberSound(s: Bytes, i: nat)
    requires i <= |s|
    ensures ReadNumber(s, i).Success? ==> NumberAt(s, i, ReadNumber(s, i).value)
  {
    if ReadNumber(s, i).Success? {
      var j := ReadNumber(s, i).value;
      var a := if Sees(s, i, MINUS) then i + 1 else i;
      ScansDigits(s, a + 1);
      var b := if s[a] == ZERO then a + 1 else ScanDigits(s, a + 1);
      FractionSound(s, b);
      var c :| FracAt(s, b, c) && ExpAt(s, c, j);
      assert MinusAt(s, i, a) && IntAt(s, a, b);
    }
  }

  lemma ExponentComplete(s: Bytes, i: nat, j: nat)
    requires ExpAt(s, i, j) && Follows(s, j)
    ensures ReadExponent(s, i) == Success(j)
  {
    if i < j {
      if IsSign(s[i + 1]) {
        assert !IsDigit(s[i + 1]);
        ScanStops(s, i + 2, j);
      } else {
        ScanStops(s, i + 1, j);
      }
    }
  }

  lemma FractionComplete(s: Bytes, i: nat, c: nat, j: nat)
    requires FracAt(s, i, c) && ExpAt(s, c, j) && Follows(s, j)
    ensures ReadFraction(s, i) == Success(j)
  {
    ExponentComplete(s, c, j);
    if i < c { ScanStops(s, i + 1, c); }
  }

  lemma {:induction false} NumberComplete(s: Bytes, i: nat, j: nat)
    requires NumberAt(s, i, j) && Follows(s, j)
    ensures ReadNumber(s, i) == Success(j)
  {
    var a: nat, b: nat, c: nat :| MinusAt(s, i, a) && IntAt(s, a, b) && FracAt(s, b, c) && ExpAt(s, c, j);
    FractionComplete(s, b, c, j);
    assert b < |s| ==> !IsDigit(s[b]);
    assert IsDigit(s[a]);
    if s[a] != ZERO {
      assert Digits(s, a + 1, b);
      ScanStops(s, a + 1, b);
    }
  }

  // ---------- Strings ----------

  lemma FourHex(s: Bytes, i: nat)
    requires i + 4 <= |s|
    requires HexDigit(s[i]).Some? && HexDigit(s[i + 1]).Some? && HexDigit(s[i + 2]).Some? && HexDigit(s[i + 3]).Some?
    ensures forall k :: i <= k < i + 4 ==> HexDigit(s[k]).Some?
  {
    forall k | i <= k < i + 4 ensures HexDigit(s[k]).Some? {
      assert k == i || k == i + 1 || k == i + 2 || k == i + 3;
    }
  }

  lemma QuadExact(s: Bytes, i: nat, n: nat)
    ensures ReadQuad(s, i) == Some(n) <==> QuadAt(s, i, n)
  {
    if ReadQuad(s, i) == Some(n) {
      FourHex(s, i);
    }
  }

  /** One char is read exactly as the grammar derives it. */
  lemma CharExact(s: Bytes, i: nat, j: nat, piece: Bytes)
    requires i < |s| && s[i] != QUOTE
    ensures Yields(ReadChar(s, i), piece, j) <==> CharAt(s, i, j, piece)
  {
    if UnicodeEscape(s, i) { UnicodeExact(s, i, j, piece); }
  }

  lemma UnicodeExact(s: Bytes, i: nat, j: nat, piece: Bytes)
    requires UnicodeEscape(s, i)
    ensures Yields(ReadUnicode(s, i), piece, j) <==>
      ScalarEscapeAt(s, i, j, piece) || PairEscapeAt(s, i, j, piece)
  {
    if Yields(ReadUnicode(s, i), piece, j) {
      UnicodeSound(s, i);
    }
    if ScalarEscapeAt(s, i, j, piece) {
      var n :| QuadAt(s, i + 2, n) && Scalar(n) && piece == Encode(n);
      QuadExact(s, i + 2, n);
    }
    if PairEscapeAt(s, i, j, piece) {
      var high, low :| QuadAt(s, i + 2, high) && QuadAt(s, i + 8, low)
        && HighSurrogate(high) && LowSurrogate(low) && piece == Encode(Combine(high, low));
      QuadExact(s, i + 2, high);
      QuadExact(s, i + 8, low);
    }
  }

  lemma {:induction false} UnicodeSound(s: Bytes, i: nat)
    requires UnicodeEscape(s, i) && ReadUnicode(s, i).Success?
    ensures ScalarEscapeAt(s, i, ReadUnicode(s, i).value.next, ReadUnicode(s, i).value.value)
      || PairEscapeAt(s, i, ReadUnicode(s, i).value.next, ReadUnicode(s, i).value.value)
  {
    var n := ReadQuad(s, i + 2).value;
    QuadExact(s, i + 2, n);
    if HighSurrogate(n) {
      var low := ReadQuad(s, i + 8).value;
      QuadExact(s, i + 8, low);
    }
  }

  lemma ReadCharsCons(s: Bytes, i: nat, j: nat, text: Bytes)
    returns (k: nat, piece: Bytes, rest: Bytes)
    requires i < |s| && s[i] != QUOTE && Yields(ReadChars(s, i), text, j)
    ensures i < k < j <= |s| && text == piece + rest
    ensures Yields(ReadChar(s, i), piece, k) && Yields(ReadChars(s, k), rest, j)
  {
    piece, k := ReadChar(s, i).value.value, ReadChar(s, i).value.next;
    rest := ReadChars(s, k).value.value;
  }

  lemma {:induction false} CharsSound(s: Bytes, i: nat, j: nat, text: Bytes)
    requires i <= |s| && Yields(ReadChars(s, i), text, j)
    ensures i < j <= |s| && s[j - 1] == QUOTE && CharsAt(s, i, j - 1, text)
    decreases |s| - i
  {
    if s[i] != QUOTE {
      var k, piece, rest := ReadCharsCons(s, i, j, text);
      CharsSound(s, k, j, rest);
      CharExact(s, i, k, piece);
      CharsCons(s, i, k, j - 1, piece, rest);
    }
  }

  lemma CharsCons(s: Bytes, i: nat, k: nat, j: nat, piece: Bytes, rest: Bytes)
    requires i < k <= j <= |s| && CharAt(s, i, k, piece) && CharsAt(s, k, j, rest)
    ensures CharsAt(s, i, j, piece + rest)
  {
    var text := piece + rest;
    assert text[..|piece|] == piece && text[|piece|..] == rest;
  }

  lemma ReadCharsStep(s: Bytes, i: nat, k: nat, j: nat, piece: Bytes, rest: Bytes, text: Bytes)
    requires i < |s| && s[i] != QUOTE && Yields(ReadChar(s, i), piece, k) && Yields(ReadChars(s, k), rest, j)
    requires text == piece + rest
    ensures Yields(ReadChars(s, i), text, j)
  {
  }

  lemma ReadCharsEnd(s: Bytes, j: nat, text: Bytes)
    requires Sees(s, j, QUOTE) && CharsAt(s, j, j, text)
    ensures Yields(ReadChars(s, j), text, j + 1)
  {
  }

  lemma {:induction false} CharsComplete(s: Bytes, i: nat, j: nat, text: Bytes)
    requires CharsAt(s, i, j, text) && Sees(s, j, QUOTE)
    ensures Yields(ReadChars(s, i), text, j + 1)
    decreases j - i
  {
    if i == j {
      ReadCharsEnd(s, j, text);
    } else {
      var k, piece, rest := FirstCharAt(s, i, j, text);
      CharsComplete(s, k, j, rest);
      ReadCharsStep(s, i, k, j + 1, piece, rest, text);
    }
  }

  lemma FirstCharAt(s: Bytes, i: nat, j: nat, text: Bytes)
    returns (k: nat, piece: Bytes, rest: Bytes)
    requires CharsAt(s, i, j, text) && i < j
    ensures i < k <= j && text == piece + rest && CharsAt(s, k, j, rest)
    ensures s[i] != QUOTE && Yields(ReadChar(s, i), piece, k)
  {
    var n: nat;
    k, n :| i < k <= j && n <= |text| && CharAt(s, i, k, text[..n]) && CharsAt(s, k, j, text[n..]);
    piece, rest := text[..n], text[n..];
    CharExact(s, i, k, piece);
  }

  /** A string is read exactly as the grammar derives it. */
  lemma StringExact(s: Bytes, i: nat, j: nat, text: Bytes)
    ensures Yields(ReadString(s, i), text, j) <==> StringAt(s, i, j, text)
  {
    hide ReadChars, CharsAt;
    if Yields(ReadString(s, i), text, j) {
      CharsSound(s, i + 1, j, text);
    }
    if StringAt(s, i, j, text) {
      CharsComplete(s, i + 1, j - 1, text);
    }
  }

  // ---------- Decoded strings are valid UTF-8 ----------

  lemma PieceValid(s: Bytes, i: nat, j: nat, piece: Bytes)
    requires CharAt(s, i, j, piece) && s[i] <= 0x7F
    ensures IsChar(piece)
    ensures i < j <= |s| && s[j - 1] <= 0x7F
  {
    if ScalarEscapeAt(s, i, j, piece) {
      var n :| QuadAt(s, i + 2, n) && Scalar(n) && piece == Encode(n);
      EncodeDecode(n);
      assert HexDigit(s[i + 5]).Some?;
    } else if PairEscapeAt(s, i, j, piece) {
      var high, low :| QuadAt(s, i + 2, high) && QuadAt(s, i + 8, low)
        && HighSurrogate(high) && LowSurrogate(low) && piece == Encode(Combine(high, low));
      SurrogatePairs(Combine(high, low), high, low);
      EncodeDecode(Combine(high, low));
      assert HexDigit(s[i + 11]).Some?;
    }
  }

  lemma CopiedByte(s: Bytes, i: nat, piece: Bytes, k: nat)
    requires i < |s| && s[i] > 0x7F && Yields(ReadChar(s, i), piece, k)
    ensures piece == [s[i]] && k == i + 1
  {
  }

  lemma OneByteMore(s: Bytes, i: nat, n: nat, rest: Bytes)
    requires 0 < n && i + n <= |s|
    ensures [s[i]] + (s[i + 1..i + n] + rest) == s[i..i + n] + rest
  {
  }

  /** The bytes of a character beyond ASCII are copied one by one. */
  lemma {:induction false} CopiesRun(s: Bytes, i: nat, n: nat, j: nat, text: Bytes) returns (rest: Bytes)
    requires i + n <= |s| && forall k :: i <= k < i + n ==> s[k] > 0x7F
    requires Yields(ReadChars(s, i), text, j)
    ensures Yields(ReadChars(s, i + n), rest, j) && text == s[i..i + n] + rest
    decreases n
  {
    if n == 0 {
      rest := text;
    } else {
      var k, piece, tail := ReadCharsCons(s, i, j, text);
      CopiedByte(s, i, piece, k);
      hide ReadChars, ReadChar;
      rest := CopiesRun(s, i + 1, n - 1, j, tail);
      OneByteMore(s, i, n, rest);
    }
  }

  /** Read from a character boundary, the decoded text is valid UTF-8. */
  lemma {:induction false} CharsValid(s: Bytes, i: nat, j: nat, text: Bytes)
    requires i <= |s| && Valid(s[i..]) && Yields(ReadChars(s, i), text, j)
    ensures Valid(text)
    decreases |s| - i
  {
    if s[i] == QUOTE {
    } else if s[i] <= 0x7F {
      hide ReadChars, ReadChar, Valid;
      var k, piece, rest := ReadCharsCons(s, i, j, text);
      CharExact(s, i, k, piece);
      PieceValid(s, i, k, piece);
      BoundaryAfterAscii(s, i, k);
      CharsValid(s, k, j, rest);
      ValidCons(piece, rest);
    } else {
      hide ReadChars, ReadChar, Valid, IsChar;
      var n := CharHere(s, i);
      CharShape(s[i..i + n]);
      HighRun(s, i, n);
      Cut(s, i, n);
      var rest := CopiesRun(s, i, n, j, text);
      CharsValid(s, i + n, j, rest);
      ValidCons(s[i..i + n], rest);
    }
  }

  lemma BoundaryAfterAscii(s: Bytes, i: nat, k: nat)
    requires i < k <= |s| && Valid(s[i..]) && s[k - 1] <= 0x7F
    ensures Valid(s[k..])
  {
    hide Valid;
    var t := s[i..];
    DropTwice(s, i, k);
    SplitAtAscii(t, k - 1 - i);
  }

  lemma HighRun(s: Bytes, i: nat, n: nat)
    requires 1 <= n && i + n <= |s| && s[i] > 0x7F && AllTails(s[i..i + n])
    ensures forall k :: i <= k < i + n ==> s[k] > 0x7F
  {
    var c := s[i..i + n];
    forall k | i <= k < i + n ensures s[k] > 0x7F {
      assert s[k] == c[k - i];
      assert k > i ==> Tail(c[k - i]);
    }
  }

  /** Every string inside a valid text denotes valid UTF-8. */
  lemma StringValid(s: Bytes, i: nat, j: nat, text: Bytes)
    requires Valid(s) && StringAt(s, i, j, text)
    ensures Valid(text)
  {
    StringExact(s, i, j, text);
    SplitAtAscii(s, i);
    CharsValid(s, i + 1, j, text);
  }

  // ---------- Escaping a scalar ----------

  function HexOf(d: nat): uint8
    requires d < 16
  {
    if d < 10 then ZERO + d else 0x61 + (d - 10)
  }

  function Quad(n: nat): Bytes
    requires n <= 0xFFFF
  {
    [BACKSLASH, LOWER_U, HexOf(n / 0x1000), HexOf(n / 0x100 % 0x10), HexOf(n / 0x10 % 0x10), HexOf(n % 0x10)]
  }

  /** The escape of a scalar: one `\u` group, or the two groups of its surrogate pair. */
  function Escape(n: nat): Bytes
    requires Scalar(n)
  {
    if n <= 0xFFFF then Quad(n) else Quad(HighOf(n)) + Quad(LowOf(n))
  }

  lemma QuadRead(s: Bytes, i: nat, n: nat)
    requires n <= 0xFFFF && i + 6 <= |s| && s[i..i + 6] == Quad(n)
    ensures UnicodeEscape(s, i) && QuadAt(s, i + 2, n)
  {
    var q := s[i..i + 6];
    assert forall k :: i <= k < i + 6 ==> s[k] == q[k - i];
    HexRead(n / 0x1000);
    HexRead(n / 0x100 % 0x10);
    HexRead(n / 0x10 % 0x10);
    HexRead(n % 0x10);
    HexSum(n);
    assert s[i + 2] == q[2] && s[i + 3] == q[3] && s[i + 4] == q[4] && s[i + 5] == q[5];
    FourHex(s, i + 2);
  }

  lemma HexRead(d: nat)
    requires d < 16
    ensures HexDigit(HexOf(d)) == Some(d)
  {
  }

  lemma HexSum(n: nat)
    requires n <= 0xFFFF
    ensures n == n / 0x1000 * 0x1000 + n / 0x100 % 0x10 * 0x100 + n / 0x10 % 0x10 * 0x10 + n % 0x10
    ensures n / 0x1000 < 0x10
  {
    var a, b := n / 0x10, n / 0x100;
    assert a / 0x10 == b && b / 0x10 == n / 0x1000;
  }

  lemma BasicEscape(s: Bytes, n: nat)
    requires Scalar(n) && n <= 0xFFFF && s == [QUOTE] + Quad(n) + [QUOTE]
    ensures CharAt(s, 1, 7, Encode(n))
  {
    hide Encode, HexOf;
    assert s[1..7] == Quad(n);
    QuadRead(s, 1, n);
    assert ScalarEscapeAt(s, 1, 7, Encode(n));
  }

  lemma PairEscape(s: Bytes, n: nat, high: nat, low: nat)
    requires Scalar(n) && n > 0xFFFF && high == HighOf(n) && low == LowOf(n)
    requires high <= 0xFFFF && low <= 0xFFFF && s == [QUOTE] + (Quad(high) + Quad(low)) + [QUOTE]
    ensures CharAt(s, 1, 13, Encode(n))
  {
    SurrogatePairs(n, high, low);
    hide Encode, HexOf, HighOf, LowOf;
    assert s[1..7] == Quad(high) && s[7..13] == Quad(low);
    QuadRead(s, 1, high);
    QuadRead(s, 7, low);
    assert PairEscapeAt(s, 1, 13, Encode(n));
  }

  /** The escape between quotes is one char that denotes the scalar. */
  lemma EscapeIsChar(s: Bytes, n: nat)
    requires Scalar(n) && s == [QUOTE] + Escape(n) + [QUOTE]
    ensures CharAt(s, 1, |Escape(n)| + 1, Encode(n))
  {
    hide CharAt, Encode;
    if n <= 0xFFFF {
      BasicEscape(s, n);
    } else {
      PairEscape(s, n, HighOf(n), LowOf(n));
    }
  }

  lemma NoChars(s: Bytes, i: nat)
    requires i <= |s|
    ensures CharsAt(s, i, i, [])
  {
  }

  lemma QuotedString(s: Bytes, i: nat, j: nat, text: Bytes)
    requires 1 <= i <= j < |s| && s[i - 1] == QUOTE && s[j] == QUOTE && CharsAt(s, i, j, text)
    ensures StringAt(s, i - 1, j + 1, text)
  {
  }

  /** A quoted escape of any scalar is read back as the UTF-8 encoding of that scalar. */
  lemma EscapeRoundTrip(n: nat)
    requires Scalar(n)
    ensures Yields(ReadString([QUOTE] + Escape(n) + [QUOTE], 0), Encode(n), |Escape(n)| + 2)
  {
    var s := [QUOTE] + Escape(n) + [QUOTE];
    var end := |Escape(n)| + 1;
    hide Escape, CharAt, StringAt, ReadString, Encode;
    EscapeIsChar(s, n);
    NoChars(s, end);
    CharsCons(s, 1, end, end, Encode(n), []);
    assert Encode(n) + [] == Encode(n);
    QuotedString(s, 1, end, Encode(n));
    StringExact(s, 0, end + 1, Encode(n));
  }
}
