/** Writing any text as a string and reading it back, and the escapes that are refused. */
module JsonEscapes {
  import opened Core
  import opened Utf8
  import opened JsonGrammar
  import opened JsonReader
  import opened JsonTokens
  import opened JsonPrinter
  import opened JsonDocuments

  // ---------- An escaper ----------

  /** The shortest escape where one is needed, with hexadecimal digits of the chosen case. */
  ghost function PieceFor(b: uint8, upper: bool): Piece {
    if b == 0x22 || b == 0x5C then Short(b)
    else if b == 0x08 then Short(0x62)
    else if b == 0x09 then Short(0x74)
    else if b == 0x0A then Short(0x6E)
    else if b == 0x0C then Short(0x66)
    else if b == 0x0D then Short(0x72)
    else if b < 0x20 then
      Unicode([0x30, 0x30, LOWER_HEX[b / 16], if upper then UPPER_HEX[b % 16] else LOWER_HEX[b % 16]])
    else Plain(b)
  }

  ghost function Escaped(text: Bytes, upper: bool): (ps: seq<Piece>)
    ensures |ps| == |text|
  {
    seq(|text|, k requires 0 <= k < |text| => PieceFor(text[k], upper))
  }

  lemma PieceForMeans(b: uint8, upper: bool)
    ensures Means(PieceFor(b, upper), [b])
  {
    var p := PieceFor(b, upper);
    if p.Unicode? {
      var d := p.digits;
      assert IsHex(d[0], 0) && IsHex(d[1], 0) && IsHex(d[2], b / 16) && IsHex(d[3], b % 16);
      assert Spells(d, b) by { assert b == 0 * 4096 + 0 * 256 + b / 16 * 16 + b % 16; }
    }
  }

  lemma {:induction false} EscapedMeans(text: Bytes, upper: bool)
    ensures MeanAll(Escaped(text, upper), text)
    decreases |text|
  {
    if text == [] {
    } else {
      hide *;
      EscapedMeans(text[1..], upper);
      PieceForMeans(text[0], upper);
      EscapedCons(text[0], text[1..], upper);
      assert text == [text[0]] + text[1..];
      MeanAllCons(PieceFor(text[0], upper), Escaped(text[1..], upper), [text[0]], text[1..]);
    }
  }

  lemma EscapedCons(b: uint8, text: Bytes, upper: bool)
    ensures Escaped([b] + text, upper) == [PieceFor(b, upper)] + Escaped(text, upper)
  {
    hide PieceFor;
  }

  // ---------- The written text is valid UTF-8 ----------

  lemma {:induction false} AsciiPrefix(t: Bytes, s: Bytes)
    requires (forall k :: 0 <= k < |t| ==> t[k] <= 0x7F) && Valid(s)
    ensures Valid(t + s)
    decreases |t|
  {
    hide Valid;
    if t == [] {
      assert t + s == s;
    } else {
      AsciiPrefix(t[1..], s);
      assert [t[0]] + (t[1..] + s) == t + s;
      ValidCons([t[0]], t[1..] + s);
    }
  }

  lemma PieceForAscii(b: uint8, upper: bool)
    requires b <= 0x7F
    ensures forall k :: 0 <= k < |Written(PieceFor(b, upper))| ==> Written(PieceFor(b, upper))[k] <= 0x7F
  {
  }

  lemma {:induction false} WrittenAppends(ps: seq<Piece>, qs: seq<Piece>)
    ensures WrittenAll(ps + qs) == WrittenAll(ps) + WrittenAll(qs)
    decreases |ps|
  {
    hide Written;
    if ps == [] {
      assert ps + qs == qs;
    } else {
      WrittenAppends(ps[1..], qs);
      assert (ps + qs)[1..] == ps[1..] + qs;
    }
  }

  lemma EscapedAppends(a: Bytes, b: Bytes, upper: bool)
    ensures WrittenAll(Escaped(a + b, upper)) == WrittenAll(Escaped(a, upper)) + WrittenAll(Escaped(b, upper))
  {
    hide PieceFor, WrittenAll;
    assert Escaped(a + b, upper) == Escaped(a, upper) + Escaped(b, upper);
    WrittenAppends(Escaped(a, upper), Escaped(b, upper));
  }

  /** The bytes of a character beyond ASCII are written as they are. */
  lemma {:induction false} HighUnescaped(c: Bytes, upper: bool)
    requires forall k :: 0 <= k < |c| ==> c[k] > 0x7F
    ensures WrittenAll(Escaped(c, upper)) == c
    decreases |c|
  {
    if c == [] {
    } else {
      HighUnescaped(c[1..], upper);
      assert Escaped(c, upper)[1..] == Escaped(c[1..], upper);
    }
  }

  lemma {:induction false} EscapedValid(text: Bytes, upper: bool, rest: Bytes)
    requires Valid(text) && Valid(rest)
    ensures Valid(WrittenAll(Escaped(text, upper)) + rest)
    decreases |text|
  {
    hide *;
    if text == [] {
      NothingEscaped(upper, rest);
    } else {
      var n := FirstChar(text);
      var c, tail := text[..n], text[n..];
      EscapedValid(tail, upper, rest);
      EscapedAppends(c, tail, upper);
      assert c + tail == text;
      CharEscaped(c, upper, WrittenAll(Escaped(tail, upper)) + rest);
      Regroup(WrittenAll(Escaped(c, upper)), WrittenAll(Escaped(tail, upper)), rest);
    }
  }

  lemma OnePiece(p: Piece)
    ensures WrittenAll([p]) == Written(p)
  {
    assert Written(p) + [] == Written(p);
  }

  lemma NothingEscaped(upper: bool, rest: Bytes)
    ensures WrittenAll(Escaped([], upper)) + rest == rest
  {
  }

  lemma Regroup(a: Bytes, b: Bytes, c: Bytes)
    ensures (a + b) + c == a + (b + c)
  {
  }

  lemma CharEscaped(c: Bytes, upper: bool, more: Bytes)
    requires IsChar(c) && Valid(more)
    ensures Valid(WrittenAll(Escaped(c, upper)) + more)
  {
    hide Valid;
    if c[0] <= 0x7F {
      PieceForAscii(c[0], upper);
      assert Escaped(c, upper) == [PieceFor(c[0], upper)];
      OnePiece(PieceFor(c[0], upper));
      AsciiPrefix(Written(PieceFor(c[0], upper)), more);
    } else {
      HighUnescaped(c, upper);
      ValidCons(c, more);
    }
  }

  // ---------- Round trips ----------

  lemma LoneString(ps: seq<Piece>, text: Bytes) returns (item: Item)
    requires MeanAll(ps, text)
    ensures LegalItem(item) && PrintItem(item) == Quoted(ps) && Value(item.doc) == String(text)
  {
    hide MeanAll, Quoted;
    item := Item([], StringDoc(ps, text), []);
    assert [] + Quoted(ps) + [] == Quoted(ps);
  }

  /** However a text is written between quotes, as valid UTF-8, it is read back. */
  lemma WrittenIsRead(ps: seq<Piece>, text: Bytes)
    requires MeanAll(ps, text) && Valid(Quoted(ps))
    ensures ReadJson(Quoted(ps)) == Success(String(text))
  {
    assert Nesting(String(text)) <= 64 && UniqueKeys(String(text));
    hide *;
    var item := LoneString(ps, text);
    ReadsThePrinted(Quoted(ps), String(text));
  }

  lemma OneQuote()
    ensures Valid([0x22])
  {
    assert Valid([]);
    ValidCons([0x22], []);
    assert [0x22] + [] == [0x22];
  }

  /** Every valid UTF-8 text survives being escaped, quoted and read, with digits of either case. */
  lemma TextRoundTrip(text: Bytes, upper: bool)
    requires Valid(text)
    ensures ReadJson(Quoted(Escaped(text, upper))) == Success(String(text))
  {
    var ps := Escaped(text, upper);
    EscapedMeans(text, upper);
    OneQuote();
    hide Valid, Escaped, WrittenAll, MeanAll, PieceFor;
    EscapedValid(text, upper, [0x22]);
    AsciiPrefix([0x22], WrittenAll(ps) + [0x22]);
    assert [0x22] + (WrittenAll(ps) + [0x22]) == Quoted(ps);
    WrittenIsRead(ps, text);
  }

  // ---------- Refusals ----------

  lemma BadEscapeHere(s: Bytes, j: nat)
    requires j < |s| && s[j] == 0x5C && (j + 1 < |s| ==> s[j + 1] !in ESCAPES && s[j + 1] != 0x75)
    ensures ReadChars(s, j) == Failure(InvalidJson)
  {
  }

  lemma ReadCharsFails(s: Bytes, i: nat, k: nat, piece: Bytes, error: ErrorCode)
    requires i < |s| && s[i] != QUOTE && Yields(ReadChar(s, i), piece, k) && k <= |s|
    requires ReadChars(s, k) == Failure(error)
    ensures ReadChars(s, i) == Failure(error)
  {
  }

  lemma CharIsNoQuote(s: Bytes, i: nat, j: nat, piece: Bytes)
    requires CharAt(s, i, j, piece)
    ensures i < |s| && s[i] != QUOTE
  {
  }

  lemma {:induction false} BadEscapeFails(s: Bytes, i: nat, j: nat, ps: seq<Piece>, text: Bytes)
    requires i <= j < |s| && s[i..j] == WrittenAll(ps) && MeanAll(ps, text)
    requires s[j] == 0x5C && (j + 1 < |s| ==> s[j + 1] !in ESCAPES && s[j + 1] != 0x75)
    ensures ReadChars(s, i) == Failure(InvalidJson)
    decreases |ps|
  {
    hide Means, Written, CharAt, ReadChar, ReadChars;
    if ps == [] {
      BadEscapeHere(s, j);
    } else {
      var n :| 0 <= n <= |text| && Means(ps[0], text[..n]) && MeanAll(ps[1..], text[n..]);
      var k := i + |Written(ps[0])|;
      Divided(s, i, j, Written(ps[0]), WrittenAll(ps[1..]));
      hide WrittenAll, MeanAll;
      PieceIsChar(s, i, k, ps[0], text[..n]);
      CharIsNoQuote(s, i, k, text[..n]);
      CharExact(s, i, k, text[..n]);
      BadEscapeFails(s, k, j, ps[1..], text[n..]);
      ReadCharsFails(s, i, k, text[..n], InvalidJson);
    }
  }

  /** In a string, a backslash before any byte but the eight letters and `u` is refused, whatever follows. */
  lemma UnknownEscapeRefused(ps: seq<Piece>, text: Bytes, b: uint8, tail: Bytes)
    requires MeanAll(ps, text) && b !in ESCAPES && b != 0x75
    ensures var s := [0x22] + WrittenAll(ps) + [0x5C, b] + tail;
      ReadJson(s) == Failure(if Valid(s) then InvalidJson else InvalidUtf8)
  {
    hide ReadChars, WrittenAll, MeanAll, Valid, ReadJson;
    var s := [0x22] + WrittenAll(ps) + [0x5C, b] + tail;
    var j := 1 + |WrittenAll(ps)|;
    assert s[1..j] == WrittenAll(ps) && s[j] == 0x5C && s[j + 1] == b && s[0] == 0x22;
    BadEscapeFails(s, 1, j, ps, text);
    StringFails(s);
  }

  lemma StringFails(s: Bytes)
    requires s != [] && s[0] == 0x22 && ReadChars(s, 1) == Failure(InvalidJson)
    ensures ReadJson(s) == Failure(if Valid(s) then InvalidJson else InvalidUtf8)
  {
    hide ReadChars, Valid;
    assert SkipWs(s, 0) == 0;
    assert ReadString(s, 0) == Failure(InvalidJson);
    assert ReadScalar(s, 0) == Failure(InvalidJson);
    assert ReadValue(s, 0, 0) == Failure(InvalidJson);
  }
}
