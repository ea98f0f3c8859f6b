/**
 * Strings and numbers of RFC 8259 from the other side: how they are written, in plain bytes and with every
 * freedom that sections 6 and 7 leave. The grammar derives exactly what can be written.
 */
module JsonPrinter {
  import opened Core
  import opened Utf8
  import opened JsonGrammar
  import opened JsonReader
  import opened JsonTokens
  import opened JsonCompleteness

  // ---------- Strings: section 7 ----------

  /** How one char of a string is written. */
  datatype Piece =
    | Plain(b: uint8)
    | Short(letter: uint8)
    | Unicode(digits: Bytes)
    | Surrogates(high: Bytes, low: Bytes)

  /** What a letter behind a backslash stands for. */
  const ESCAPES: map<uint8, uint8> := map[
    0x22 := 0x22, 0x5C := 0x5C, 0x2F := 0x2F, 0x62 := 0x08, 0x66 := 0x0C, 0x6E := 0x0A, 0x72 := 0x0D, 0x74 := 0x09]

  const LOWER_HEX: seq<uint8> :=
    [0x30, 0x31, 0x32, 0x33, 0x34, 0x35, 0x36, 0x37, 0x38, 0x39, 0x61, 0x62, 0x63, 0x64, 0x65, 0x66]

  const UPPER_HEX: seq<uint8> :=
    [0x30, 0x31, 0x32, 0x33, 0x34, 0x35, 0x36, 0x37, 0x38, 0x39, 0x41, 0x42, 0x43, 0x44, 0x45, 0x46]

  /** The byte is the hexadecimal digit of `d`, in either case. */
  ghost predicate IsHex(b: uint8, d: nat) {
    d < 16 && (b == LOWER_HEX[d] || b == UPPER_HEX[d])
  }

  /** The four digits spell `n`. */
  ghost predicate Spells(digits: Bytes, n: nat) {
    && |digits| == 4
    && exists a: nat, b: nat, c: nat, d: nat ::
         IsHex(digits[0], a) && IsHex(digits[1], b) && IsHex(digits[2], c) && IsHex(digits[3], d)
         && n == a * 4096 + b * 256 + c * 16 + d
  }

  ghost function Written(p: Piece): Bytes {
    match p
    case Plain(b) => [b]
    case Short(letter) => [0x5C, letter]
    case Unicode(digits) => [0x5C, 0x75] + digits
    case Surrogates(high, low) => [0x5C, 0x75] + high + [0x5C, 0x75] + low
  }

  /** The piece is written as section 7 allows, and stands for `text`. */
  ghost predicate Means(p: Piece, text: Bytes) {
    match p
    case Plain(b) => b >= 0x20 && b != 0x22 && b != 0x5C && text == [b]
    case Short(letter) => letter in ESCAPES && text == [ESCAPES[letter]]
    case Unicode(digits) => exists n :: Spells(digits, n) && !(0xD800 <= n <= 0xDFFF) && text == Encoded(n)
    case Surrogates(high, low) =>
      exists h: nat, l: nat :: Spells(high, h) && Spells(low, l) && 0xD800 <= h <= 0xDBFF && 0xDC00 <= l <= 0xDFFF
        && text == Encoded(0x1_0000 + (h - 0xD800) * 0x400 + (l - 0xDC00))
  }

  /** The bytes of a code point, by the table of section 3 of RFC 3629. */
  ghost function Encoded(n: nat): Bytes {
    if n < 0x80 then [n]
    else if n < 0x800 then [0xC0 + n / 64, 0x80 + n % 64]
    else if n < 0x1_0000 then [0xE0 + n / 4096, 0x80 + n / 64 % 64, 0x80 + n % 64]
    else if n < 0x20_0000 then [0xF0 + n / 262144, 0x80 + n / 4096 % 64, 0x80 + n / 64 % 64, 0x80 + n % 64]
    else []
  }

  ghost function WrittenAll(ps: seq<Piece>): Bytes {
    if ps == [] then [] else Written(ps[0]) + WrittenAll(ps[1..])
  }

  ghost predicate MeanAll(ps: seq<Piece>, text: Bytes) {
    if ps == [] then text == []
    else exists n :: 0 <= n <= |text| && Means(ps[0], text[..n]) && MeanAll(ps[1..], text[n..])
  }

  // ---------- Numbers: section 6 ----------

  ghost predicate AllDigits(t: Bytes) { forall k :: 0 <= k < |t| ==> 0x30 <= t[k] <= 0x39 }

  /** The four parts of a number. */
  ghost predicate IsNumber(minus: Bytes, whole: Bytes, fraction: Bytes, exponent: Bytes) {
    && (minus == [] || minus == [0x2D])
    && whole != [] && AllDigits(whole) && (|whole| > 1 ==> whole[0] != 0x30)
    && (fraction == [] || (|fraction| > 1 && fraction[0] == 0x2E && AllDigits(fraction[1..])))
    && (exponent == []
        || (|exponent| > 1 && (exponent[0] == 0x65 || exponent[0] == 0x45)
            && (AllDigits(exponent[1..])
                || (|exponent| > 2 && (exponent[1] == 0x2B || exponent[1] == 0x2D) && AllDigits(exponent[2..])))))
  }

  ghost predicate NumberText(t: Bytes) {
    exists minus, whole, fraction, exponent ::
      IsNumber(minus, whole, fraction, exponent) && t == minus + whole + fraction + exponent
  }

  // ---------- Strings are read as they are written ----------

  /** Where a text made of two parts splits. */
  lemma Divided(s: Bytes, i: nat, j: nat, x: Bytes, y: Bytes)
    requires i <= j <= |s| && s[i..j] == x + y
    ensures i + |x| <= j && s[i..i + |x|] == x && s[i + |x|..j] == y
  {
    var t := s[i..j];
    assert t[..|x|] == x && t[|x|..] == y;
    assert s[i..i + |x|] == t[..|x|] && s[i + |x|..j] == t[|x|..];
  }

  lemma Joined(s: Bytes, i: nat, k: nat, j: nat)
    requires i <= k <= j <= |s|
    ensures s[i..j] == s[i..k] + s[k..j]
  {
  }

  /** A text between two single bytes. */
  lemma Framed(s: Bytes, i: nat, j: nat, a: uint8, x: Bytes, b: uint8)
    requires i <= j <= |s|
    ensures s[i..j] == [a] + x + [b] <==> i + 2 <= j && s[i] == a && s[i + 1..j - 1] == x && s[j - 1] == b
  {
    if s[i..j] == [a] + x + [b] {
      Divided(s, i, j, [a] + x, [b]);
      Divided(s, i, j - 1, [a], x);
      assert s[i..i + 1][0] == a && s[j - 1..j][0] == b;
    }
  }

  lemma HexExact(b: uint8, d: nat)
    ensures IsHex(b, d) <==> HexDigit(b) == Some(d)
  {
  }

  lemma SpellsExact(s: Bytes, i: nat, n: nat)
    requires i + 4 <= |s|
    ensures Spells(s[i..i + 4], n) <==> QuadAt(s, i, n)
  {
    var t := s[i..i + 4];
    assert t[0] == s[i] && t[1] == s[i + 1] && t[2] == s[i + 2] && t[3] == s[i + 3];
    if Spells(t, n) {
      var a: nat, b: nat, c: nat, d: nat :| IsHex(t[0], a) && IsHex(t[1], b) && IsHex(t[2], c) && IsHex(t[3], d)
        && n == a * 4096 + b * 256 + c * 16 + d;
      HexExact(t[0], a);
      HexExact(t[1], b);
      HexExact(t[2], c);
      HexExact(t[3], d);
      FourHex(s, i);
    }
    if QuadAt(s, i, n) {
      assert HexDigit(s[i]).Some? && HexDigit(s[i + 1]).Some? && HexDigit(s[i + 2]).Some? && HexDigit(s[i + 3]).Some?;
      HexExact(t[0], HexDigit(t[0]).value);
      HexExact(t[1], HexDigit(t[1]).value);
      HexExact(t[2], HexDigit(t[2]).value);
      HexExact(t[3], HexDigit(t[3]).value);
    }
  }

  lemma EncodedExact(n: nat)
    requires Scalar(n)
    ensures Encoded(n) == Encode(n)
  {
  }

  lemma SpellsBelow(digits: Bytes, n: nat)
    requires Spells(digits, n)
    ensures |digits| == 4 && n <= 0xFFFF
  {
  }

  lemma Slice4(s: Bytes, i: nat, j: nat, digits: Bytes)
    requires i + 6 == j <= |s| && s[i..j] == [0x5C, 0x75] + digits
    ensures s[i] == 0x5C && s[i + 1] == 0x75 && s[i + 2..j] == digits
  {
    var t := s[i..j];
    assert t[0] == s[i] && t[1] == s[i + 1] && t[2..] == s[i + 2..j];
  }

  lemma UnicodeIsChar(s: Bytes, i: nat, j: nat, digits: Bytes, text: Bytes)
    requires i <= j <= |s| && s[i..j] == [0x5C, 0x75] + digits && Means(Unicode(digits), text)
    ensures ScalarEscapeAt(s, i, j, text)
  {
    var n :| Spells(digits, n) && !(0xD800 <= n <= 0xDFFF) && text == Encoded(n);
    Slice4(s, i, j, digits);
    SpellsExact(s, i + 2, n);
    SpellsBelow(digits, n);
    EncodedExact(n);
  }

  lemma TwoGroups(s: Bytes, i: nat, j: nat, high: Bytes, low: Bytes)
    requires i <= j <= |s| && s[i..j] == [0x5C, 0x75] + high + [0x5C, 0x75] + low && |high| == |low| == 4
    ensures j == i + 12 && UnicodeEscape(s, i) && UnicodeEscape(s, i + 6)
    ensures s[i + 2..i + 6] == high && s[i + 8..i + 12] == low
  {
    assert [0x5C, 0x75] + high + [0x5C, 0x75] + low == ([0x5C, 0x75] + high) + ([0x5C, 0x75] + low);
    Divided(s, i, j, [0x5C, 0x75] + high, [0x5C, 0x75] + low);
    Slice4(s, i, i + 6, high);
    Slice4(s, i + 6, j, low);
  }

  lemma PairEncoded(h: nat, l: nat)
    requires 0xD800 <= h <= 0xDBFF && 0xDC00 <= l <= 0xDFFF
    ensures HighSurrogate(h) && LowSurrogate(l)
    ensures Encoded(0x1_0000 + (h - 0xD800) * 0x400 + (l - 0xDC00)) == Encode(Combine(h, l))
  {
    hide Encoded, Encode;
    EncodedExact(Combine(h, l));
  }

  /** What a pair of escapes means. */
  lemma SurrogateNumbers(high: Bytes, low: Bytes, text: Bytes) returns (h: nat, l: nat)
    requires Means(Surrogates(high, low), text)
    ensures Spells(high, h) && Spells(low, l) && HighSurrogate(h) && LowSurrogate(l)
    ensures text == Encode(Combine(h, l))
  {
    hide Spells, Encoded, Encode;
    h, l :| Spells(high, h) && Spells(low, l) && 0xD800 <= h <= 0xDBFF && 0xDC00 <= l <= 0xDFFF
      && text == Encoded(0x1_0000 + (h - 0xD800) * 0x400 + (l - 0xDC00));
    PairEncoded(h, l);
  }

  lemma SurrogatesAreChar(s: Bytes, i: nat, j: nat, high: Bytes, low: Bytes, text: Bytes)
    requires i <= j <= |s| && s[i..j] == [0x5C, 0x75] + high + [0x5C, 0x75] + low && Means(Surrogates(high, low), text)
    ensures PairEscapeAt(s, i, j, text)
  {
    hide Encode, Combine, Means, Spells, QuadAt, UnicodeEscape;
    var h, l := SurrogateNumbers(high, low, text);
    SpellsBelow(high, h);
    SpellsBelow(low, l);
    TwoGroups(s, i, j, high, low);
    SpellsExact(s, i + 2, h);
    SpellsExact(s, i + 8, l);
  }

  /** A written piece is a char that denotes what the piece means. */
  lemma PieceIsChar(s: Bytes, i: nat, j: nat, p: Piece, text: Bytes)
    requires i <= j <= |s| && s[i..j] == Written(p) && Means(p, text)
    ensures i < j && CharAt(s, i, j, text)
  {
    match p
    case Plain(b) => assert s[i..j][0] == s[i];
    case Short(letter) => assert s[i..j][0] == s[i] && s[i..j][1] == s[i + 1];
    case Unicode(digits) => UnicodeIsChar(s, i, j, digits, text);
    case Surrogates(high, low) => SurrogatesAreChar(s, i, j, high, low, text);
  }

  lemma {:induction false} PiecesAreChars(s: Bytes, i: nat, j: nat, ps: seq<Piece>, text: Bytes)
    requires i <= j <= |s| && s[i..j] == WrittenAll(ps) && MeanAll(ps, text)
    ensures CharsAt(s, i, j, text)
    decreases |ps|
  {
    hide Means, Written, CharAt;
    if ps == [] {
    } else {
      var n :| 0 <= n <= |text| && Means(ps[0], text[..n]) && MeanAll(ps[1..], text[n..]);
      var k := i + |Written(ps[0])|;
      Divided(s, i, j, Written(ps[0]), WrittenAll(ps[1..]));
      hide CharsAt, WrittenAll, MeanAll;
      PieceIsChar(s, i, k, ps[0], text[..n]);
      PiecesAreChars(s, k, j, ps[1..], text[n..]);
      CharsCons(s, i, k, j, text[..n], text[n..]);
      assert text[..n] + text[n..] == text;
    }
  }

  /** The piece that writes a char. */
  lemma CharIsPiece(s: Bytes, i: nat, j: nat, text: Bytes) returns (p: Piece)
    requires CharAt(s, i, j, text)
    ensures i <= j <= |s| && s[i..j] == Written(p) && Means(p, text)
  {
    hide ScalarEscapeAt, PairEscapeAt;
    if PlainAt(s, i, j, text) {
      p := Plain(s[i]);
    } else if ShortEscapeAt(s, i, j, text) {
      p := Short(s[i + 1]);
    } else if ScalarEscapeAt(s, i, j, text) {
      p := ScalarIsPiece(s, i, j, text);
    } else {
      p := PairIsPiece(s, i, j, text);
    }
  }

  lemma UnicodeAt(s: Bytes, i: nat)
    requires UnicodeEscape(s, i) && i + 6 <= |s|
    ensures s[i..i + 6] == [0x5C, 0x75] + s[i + 2..i + 6]
  {
  }

  lemma ScalarIsPiece(s: Bytes, i: nat, j: nat, text: Bytes) returns (p: Piece)
    requires ScalarEscapeAt(s, i, j, text)
    ensures i <= j <= |s| && s[i..j] == Written(p) && Means(p, text)
  {
    var n :| QuadAt(s, i + 2, n) && Scalar(n) && text == Encode(n);
    assert i + 6 <= |s|;
    SpellsExact(s, i + 2, n);
    EncodedExact(n);
    hide Encode, Encoded, Spells, QuadAt;
    UnicodeAt(s, i);
    p := Unicode(s[i + 2..i + 6]);
  }

  lemma PairIsPiece(s: Bytes, i: nat, j: nat, text: Bytes) returns (p: Piece)
    requires PairEscapeAt(s, i, j, text)
    ensures i <= j <= |s| && s[i..j] == Written(p) && Means(p, text)
  {
    var high, low :| QuadAt(s, i + 2, high) && QuadAt(s, i + 8, low)
      && HighSurrogate(high) && LowSurrogate(low) && text == Encode(Combine(high, low));
    assert i + 12 <= |s|;
    SpellsExact(s, i + 2, high);
    SpellsExact(s, i + 8, low);
    EncodedExact(Combine(high, low));
    hide Encode, Encoded, Spells, QuadAt;
    UnicodeAt(s, i);
    UnicodeAt(s, i + 6);
    Joined(s, i, i + 6, j);
    p := Surrogates(s[i + 2..i + 6], s[i + 8..i + 12]);
    assert Written(p) == ([0x5C, 0x75] + s[i + 2..i + 6]) + ([0x5C, 0x75] + s[i + 8..i + 12]);
  }

  lemma MeanAllCons(p: Piece, ps: seq<Piece>, piece: Bytes, rest: Bytes)
    requires Means(p, piece) && MeanAll(ps, rest)
    ensures MeanAll([p] + ps, piece + rest)
    ensures WrittenAll([p] + ps) == Written(p) + WrittenAll(ps)
  {
    var text := piece + rest;
    assert text[..|piece|] == piece && text[|piece|..] == rest;
    assert ([p] + ps)[1..] == ps;
  }

  lemma {:induction false} CharsArePieces(s: Bytes, i: nat, j: nat, text: Bytes) returns (ps: seq<Piece>)
    requires CharsAt(s, i, j, text)
    ensures i <= j <= |s| && s[i..j] == WrittenAll(ps) && MeanAll(ps, text)
    decreases j - i
  {
    hide Means, Written, CharAt;
    if i == j {
      ps := [];
    } else {
      var k: nat, n: nat :| i < k <= j && n <= |text| && CharAt(s, i, k, text[..n]) && CharsAt(s, k, j, text[n..]);
      hide CharsAt, WrittenAll, MeanAll;
      var p := CharIsPiece(s, i, k, text[..n]);
      var rest := CharsArePieces(s, k, j, text[n..]);
      MeanAllCons(p, rest, text[..n], text[n..]);
      assert text[..n] + text[n..] == text;
      Joined(s, i, k, j);
      ps := [p] + rest;
    }
  }

  lemma QuotedIsString(s: Bytes, i: nat, j: nat, ps: seq<Piece>, text: Bytes)
    requires i <= j <= |s| && s[i..j] == [0x22] + WrittenAll(ps) + [0x22] && MeanAll(ps, text)
    ensures StringAt(s, i, j, text)
  {
    hide WrittenAll, MeanAll, CharsAt;
    Framed(s, i, j, 0x22, WrittenAll(ps), 0x22);
    PiecesAreChars(s, i + 1, j - 1, ps, text);
  }

  lemma StringIsQuoted(s: Bytes, i: nat, j: nat, text: Bytes) returns (ps: seq<Piece>)
    requires StringAt(s, i, j, text)
    ensures i <= j <= |s| && s[i..j] == [0x22] + WrittenAll(ps) + [0x22] && MeanAll(ps, text)
  {
    hide WrittenAll, MeanAll, CharsAt;
    ps := CharsArePieces(s, i + 1, j - 1, text);
    Framed(s, i, j, 0x22, WrittenAll(ps), 0x22);
  }

  // ---------- Numbers ----------

  lemma DigitsExact(s: Bytes, i: nat, j: nat)
    requires i <= j <= |s|
    ensures Digits(s, i, j) <==> AllDigits(s[i..j])
  {
    if AllDigits(s[i..j]) {
      forall k | i <= k < j ensures IsDigit(s[k]) {
        assert s[k] == s[i..j][k - i];
      }
    }
  }

  lemma PartsExact(s: Bytes, i: nat, a: nat, b: nat, c: nat, j: nat)
    requires i <= a <= b <= c <= j <= |s|
    ensures IsNumber(s[i..a], s[a..b], s[b..c], s[c..j]) <==>
      MinusAt(s, i, a) && IntAt(s, a, b) && FracAt(s, b, c) && ExpAt(s, c, j)
  {
    MinusExact(s, i, a);
    WholeExact(s, a, b);
    FractionExact(s, b, c);
    ExponentExact(s, c, j);
  }

  lemma MinusExact(s: Bytes, i: nat, a: nat)
    requires i <= a <= |s|
    ensures MinusAt(s, i, a) <==> (s[i..a] == [] || s[i..a] == [0x2D])
  {
    if a == i + 1 { assert s[i..a] == [s[i]]; }
  }

  lemma WholeExact(s: Bytes, i: nat, j: nat)
    requires i <= j <= |s|
    ensures IntAt(s, i, j) <==> (s[i..j] != [] && AllDigits(s[i..j]) && (|s[i..j]| > 1 ==> s[i..j][0] != 0x30))
  {
    DigitsExact(s, i, j);
    if i < j { assert s[i..j][0] == s[i]; }
  }

  lemma FractionExact(s: Bytes, i: nat, j: nat)
    requires i <= j <= |s|
    ensures var t := s[i..j];
      FracAt(s, i, j) <==> (t == [] || (|t| > 1 && t[0] == 0x2E && AllDigits(t[1..])))
  {
    if i < j {
      DigitsExact(s, i + 1, j);
      assert s[i..j][0] == s[i] && s[i..j][1..] == s[i + 1..j];
    }
  }

  lemma ExponentExact(s: Bytes, i: nat, j: nat)
    requires i <= j <= |s|
    ensures var t := s[i..j];
      ExpAt(s, i, j) <==> (t == [] || (|t| > 1 && (t[0] == 0x65 || t[0] == 0x45)
        && (AllDigits(t[1..]) || (|t| > 2 && (t[1] == 0x2B || t[1] == 0x2D) && AllDigits(t[2..])))))
  {
    if i < j {
      DigitsExact(s, i + 1, j);
      assert s[i..j][0] == s[i] && s[i..j][1..] == s[i + 1..j];
      if i + 1 < j {
        DigitsExact(s, i + 2, j);
        assert s[i..j][1] == s[i + 1] && s[i..j][2..] == s[i + 2..j];
      }
    }
  }

  /** The two descriptions of a number agree. */
  lemma NumberExact(s: Bytes, i: nat, j: nat)
    requires i <= j <= |s|
    ensures NumberAt(s, i, j) <==> NumberText(s[i..j])
  {
    hide IsNumber, MinusAt, IntAt, FracAt, ExpAt;
    if NumberAt(s, i, j) {
      var a, b, c := NumberParts(s, i, j);
      PartsExact(s, i, a, b, c, j);
      Joined(s, i, a, b);
      Joined(s, i, b, c);
      Joined(s, i, c, j);
    }
    if NumberText(s[i..j]) {
      var minus, whole, fraction, exponent :|
        IsNumber(minus, whole, fraction, exponent) && s[i..j] == minus + whole + fraction + exponent;
      var a := i + |minus|;
      var b := a + |whole|;
      var c := b + |fraction|;
      Divided(s, i, j, minus + whole + fraction, exponent);
      Divided(s, i, c, minus + whole, fraction);
      Divided(s, i, b, minus, whole);
      PartsExact(s, i, a, b, c, j);
    }
  }

  lemma NumberParts(s: Bytes, i: nat, j: nat) returns (a: nat, b: nat, c: nat)
    requires i <= j <= |s| && NumberAt(s, i, j)
    ensures i <= a <= b <= c <= j
    ensures MinusAt(s, i, a) && IntAt(s, a, b) && FracAt(s, b, c) && ExpAt(s, c, j)
  {
    var x, y, z :| MinusAt(s, i, x) && IntAt(s, x, y) && FracAt(s, y, z) && ExpAt(s, z, j);
    a, b, c := x, y, z;
  }
}
