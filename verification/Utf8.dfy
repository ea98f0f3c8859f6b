/** UTF-8: the byte ranges of section 4 of RFC 3629, the validator, the encoder and surrogate pairs. */
module Utf8 {
  import opened Core

  type Bytes = seq<uint8>

  // ---------- The definition: UTF8-octets = *( UTF8-char ) ----------

  predicate Tail(b: uint8) { 0x80 <= b <= 0xBF }

  /** One UTF8-char, by the alternatives of the grammar. */
  predicate IsChar(c: Bytes) {
    || (|c| == 1 && c[0] <= 0x7F)
    || (|c| == 2 && 0xC2 <= c[0] <= 0xDF && Tail(c[1]))
    || (|c| == 3 && Tail(c[2]) &&
        (|| (c[0] == 0xE0 && 0xA0 <= c[1] <= 0xBF)
         || (0xE1 <= c[0] <= 0xEC && Tail(c[1]))
         || (c[0] == 0xED && 0x80 <= c[1] <= 0x9F)
         || (0xEE <= c[0] <= 0xEF && Tail(c[1]))))
    || (|c| == 4 && Tail(c[2]) && Tail(c[3]) &&
        (|| (c[0] == 0xF0 && 0x90 <= c[1] <= 0xBF)
         || (0xF1 <= c[0] <= 0xF3 && Tail(c[1]))
         || (c[0] == 0xF4 && 0x80 <= c[1] <= 0x8F)))
  }

  /** A sequence of UTF8-chars. */
  ghost predicate Valid(s: Bytes)
    decreases |s|
  {
    s == [] || exists n :: 1 <= n <= |s| && IsChar(s[..n]) && Valid(s[n..])
  }

  // ---------- Structure of valid sequences ----------

  lemma FirstChar(s: Bytes) returns (n: nat)
    requires Valid(s) && s != []
    ensures 1 <= n <= |s| && IsChar(s[..n]) && Valid(s[n..])
  {
    n :| 1 <= n <= |s| && IsChar(s[..n]) && Valid(s[n..]);
  }

  lemma ValidCons(c: Bytes, s: Bytes)
    requires IsChar(c)
    ensures Valid(s) <==> Valid(c + s)
  {
    var t := c + s;
    assert t[..|c|] == c && t[|c|..] == s;
    if Valid(t) {
      var n := FirstChar(t);
      SameLength(c, t[..n]);
    }
  }

  /** The first byte determines the length. */
  lemma SameLength(c: Bytes, d: Bytes)
    requires IsChar(c) && IsChar(d) && c[0] == d[0]
    ensures |c| == |d|
  {
  }

  lemma AsciiBoundary(s: Bytes, n: nat, i: nat)
    requires n <= |s| && IsChar(s[..n]) && 0 < i < |s| && s[i] <= 0x7F
    ensures n <= i
  {
    var c := s[..n];
    assert forall k :: 0 < k < |c| ==> c[k] > 0x7F;
  }

  lemma AsciiAlone(s: Bytes, n: nat)
    requires 1 <= n <= |s| && IsChar(s[..n]) && s[0] <= 0x7F
    ensures n == 1
  {
    assert s[..n][0] == s[0];
  }

  lemma DropTwice(s: Bytes, n: nat, i: nat)
    requires n <= i <= |s|
    ensures s[n..][i - n..] == s[i..]
  {
  }

  /** A valid sequence may be cut before and after any ASCII byte. */
  lemma {:induction false} SplitAtAscii(s: Bytes, i: nat)
    requires Valid(s) && i < |s| && s[i] <= 0x7F
    ensures Valid(s[i..]) && Valid(s[i + 1..])
    decreases |s|
  {
    hide Valid, IsChar;
    var n := FirstChar(s);
    if i == 0 {
      AsciiAlone(s, n);
      assert s[0..] == s;
    } else {
      AsciiBoundary(s, n, i);
      var rest := s[n..];
      DropTwice(s, n, i);
      DropTwice(s, n, i + 1);
      SplitAtAscii(rest, i - n);
    }
  }

  // ---------- The validator ----------

  function ContinuationCount(first: uint8): Option<nat> {
    if 0xC2 <= first <= 0xDF then Some(1)
    else if 0xE0 <= first <= 0xEF then Some(2)
    else if 0xF0 <= first <= 0xF4 then Some(3)
    else None
  }

  /** The payload bits of a leading byte. */
  function LeadBits(first: uint8): nat {
    if first <= 0xDF then first % 0x20 else if first <= 0xEF then first % 0x10 else first % 0x08
  }

  /** The payload bits of a continuation byte. */
  function TailBits(b: uint8): nat { b % 0x40 }

  /** The scalar value that the bytes of a character spell. */
  function DecodeBits(c: Bytes): nat
    requires c != []
  {
    if |c| == 1 then LeadBits(c[0]) else DecodeBits(c[..|c| - 1]) * 0x40 + TailBits(c[|c| - 1])
  }

  ghost predicate AllTails(c: Bytes) {
    forall k :: 1 <= k < |c| ==> Tail(c[k])
  }

  predicate OutOfRange(count: nat, codePoint: nat) {
    || (count == 2 && (codePoint < 0x800 || 0xD800 <= codePoint <= 0xDFFF))
    || (count == 3 && (codePoint < 0x1_0000 || codePoint > 0x10_FFFF))
  }

  lemma Spelled2(c: Bytes)
    requires |c| == 2
    ensures DecodeBits(c) == LeadBits(c[0]) * 0x40 + TailBits(c[1])
  {
    assert c[..1][0] == c[0];
  }

  lemma Spelled3(c: Bytes)
    requires |c| == 3
    ensures DecodeBits(c) == LeadBits(c[0]) * 0x1000 + TailBits(c[1]) * 0x40 + TailBits(c[2])
  {
    Spelled2(c[..2]);
  }

  lemma Spelled4(c: Bytes)
    requires |c| == 4
    ensures DecodeBits(c) == LeadBits(c[0]) * 0x4_0000 + TailBits(c[1]) * 0x1000 + TailBits(c[2]) * 0x40
      + TailBits(c[3])
  {
    Spelled3(c[..3]);
  }

  /** The arithmetic test on the assembled code point is the grammar's test on the second byte. */
  lemma RangeTest(c: Bytes)
    requires |c| > 1 && ContinuationCount(c[0]) == Some(|c| - 1) && AllTails(c)
    ensures OutOfRange(|c| - 1, DecodeBits(c)) <==> !IsChar(c)
  {
    assert Tail(c[1]);
    if |c| == 3 {
      RangeTest3(c);
    } else if |c| == 4 {
      RangeTest4(c);
    }
  }

  lemma RangeTest3(c: Bytes)
    requires |c| == 3 && ContinuationCount(c[0]) == Some(2) && AllTails(c)
    ensures OutOfRange(2, DecodeBits(c)) <==> !IsChar(c)
  {
    Spelled3(c);
    hide DecodeBits;
    assert Tail(c[1]) && Tail(c[2]);
  }

  lemma RangeTest4(c: Bytes)
    requires |c| == 4 && ContinuationCount(c[0]) == Some(3) && AllTails(c)
    ensures OutOfRange(3, DecodeBits(c)) <==> !IsChar(c)
  {
    Spelled4(c);
    hide DecodeBits;
    assert Tail(c[1]) && Tail(c[2]) && Tail(c[3]);
  }

  lemma CharShape(c: Bytes)
    requires IsChar(c) && c[0] > 0x7F
    ensures ContinuationCount(c[0]) == Some(|c| - 1)
    ensures AllTails(c)
  {
  }

  /** The first character of `s[i..]` has a fixed length, so `s[i..]` is valid exactly when the rest is. */
  lemma Cut(s: Bytes, i: nat, n: nat)
    requires i + n <= |s| && n > 0 && IsChar(s[i..i + n])
    ensures Valid(s[i..]) <==> Valid(s[i + n..])
  {
    assert s[i..] == s[i..i + n] + s[i + n..];
    ValidCons(s[i..i + n], s[i + n..]);
  }

  /** Without a character of the length that its first byte calls for, nothing valid starts here. */
  lemma NoChar(s: Bytes, i: nat, n: nat)
    requires i < |s| && s[i] > 0x7F
    requires ContinuationCount(s[i]) == None || ContinuationCount(s[i]) == Some(n)
    requires ContinuationCount(s[i]) == Some(n) && i + n < |s| ==> !IsChar(s[i..i + n + 1])
    ensures !Valid(s[i..])
  {
    if Valid(s[i..]) {
      var m := CharHere(s, i);
      CharShape(s[i..i + m]);
      assert false;
    }
  }

  lemma CharHere(s: Bytes, i: nat) returns (m: nat)
    requires i < |s| && Valid(s[i..])
    ensures 1 <= m && i + m <= |s| && IsChar(s[i..i + m])
  {
    m := FirstChar(s[i..]);
    assert s[i..][..m] == s[i..i + m];
  }

  /** The library's validator decides the grammar. */
  method IsValid(input: Bytes) returns (valid: bool)
    ensures valid <==> Valid(input)
  {
    var index := 0;
    assert input[0..] == input;
    while index < |input|
      invariant index <= |input|
      invariant Valid(input) <==> Valid(input[index..])
    {
      var length := CharLength(input, index);
      if length == 0 {
        return false;
      }
      Cut(input, index, length);
      index := index + length;
    }
    valid := true;
  }

  /** The length of the character at an index, or 0 if there is none. */
  method CharLength(input: Bytes, index: nat) returns (length: nat)
    requires index < |input|
    ensures length > 0 ==> index + length <= |input| && IsChar(input[index..index + length])
    ensures length == 0 ==> !Valid(input[index..])
  {
    var first := input[index];
    if first <= 0x7F {
      return 1;
    }
    var count := ContinuationCount(first);
    if count.None? {
      NoChar(input, index, 0);
      return 0;
    }
    if |input| - index - 1 < count.value {
      NoChar(input, index, count.value);
      return 0;
    }
    var codePoint, tails := Continue(input, index, count.value);
    ghost var c := input[index..index + count.value + 1];
    CharTest(c, codePoint, tails);
    if !tails || OutOfRange(count.value, codePoint) {
      NoChar(input, index, count.value);
      return 0;
    }
    length := count.value + 1;
  }

  lemma CharTest(c: Bytes, codePoint: nat, tails: bool)
    requires |c| > 1 && ContinuationCount(c[0]) == Some(|c| - 1)
    requires tails <==> AllTails(c)
    requires tails ==> codePoint == DecodeBits(c)
    ensures IsChar(c) <==> tails && !OutOfRange(|c| - 1, codePoint)
  {
    if tails { RangeTest(c); } else if IsChar(c) { CharShape(c); }
  }

  /** Collect the continuation bytes. */
  method Continue(input: Bytes, index: nat, count: nat) returns (codePoint: nat, tails: bool)
    requires index + count < |input|
    ensures tails <==> AllTails(input[index..index + count + 1])
    ensures tails ==> codePoint == DecodeBits(input[index..index + count + 1])
  {
    codePoint := LeadBits(input[index]);
    var offset := 1;
    while offset <= count
      invariant 1 <= offset <= count + 1
      invariant AllTails(input[index..index + offset])
      invariant codePoint == DecodeBits(input[index..index + offset])
    {
      var next := input[index + offset];
      ghost var c := input[index..index + offset + 1];
      assert c[offset] == next && c[..offset] == input[index..index + offset];
      if !Tail(next) {
        assert !Tail(input[index..index + count + 1][offset]);
        return codePoint, false;
      }
      codePoint := codePoint * 0x40 + TailBits(next);
      offset := offset + 1;
      assert AllTails(c) by {
        assert forall k :: 1 <= k < offset - 1 ==> c[k] == c[..offset - 1][k];
      }
    }
    tails := true;
  }

  // ---------- The encoder ----------

  predicate Scalar(n: nat) { n <= 0x10_FFFF && !(0xD800 <= n <= 0xDFFF) }

  /** The bytes appended for a code point: shifts and masks as division and remainder by powers of two. */
  function Encode(n: nat): Bytes
    requires n <= 0x10_FFFF
  {
    if n <= 0x7F then [n]
    else if n <= 0x7FF then [0xC0 + n / 0x40, 0x80 + n % 0x40]
    else if n <= 0xFFFF then [0xE0 + n / 0x1000, 0x80 + n / 0x40 % 0x40, 0x80 + n % 0x40]
    else [0xF0 + n / 0x4_0000, 0x80 + n / 0x1000 % 0x40, 0x80 + n / 0x40 % 0x40, 0x80 + n % 0x40]
  }

  /** The scalar value of a character. */
  function Decode(c: Bytes): nat
    requires c != []
  {
    if |c| == 1 then c[0] else DecodeBits(c)
  }

  /** Every scalar is encoded as one character, and is read back. */
  lemma EncodeDecode(n: nat)
    requires Scalar(n)
    ensures IsChar(Encode(n)) && Decode(Encode(n)) == n
  {
    if n > 0xFFFF {
      EncodeDecode4(n);
    } else if n > 0x7FF {
      EncodeDecode3(n);
    } else if n > 0x7F {
      Spelled2(Encode(n));
    }
  }

  lemma {:induction false} EncodeDecode3(n: nat)
    requires Scalar(n) && 0x7FF < n <= 0xFFFF
    ensures IsChar(Encode(n)) && Decode(Encode(n)) == n
  {
    var c := Encode(n);
    Spelled3(c);
    assert TailBits(c[1]) == n / 0x40 % 0x40 && TailBits(c[2]) == n % 0x40 && LeadBits(c[0]) == n / 0x1000;
  }

  lemma EncodeDecode4(n: nat)
    requires 0xFFFF < n <= 0x10_FFFF
    ensures IsChar(Encode(n)) && Decode(Encode(n)) == n
  {
    var c := Encode(n);
    Spelled4(c);
    Lead4(n / 0x4_0000);
    TailDigit(n / 0x1000 % 0x40);
    TailDigit(n / 0x40 % 0x40);
    TailDigit(n % 0x40);
    Digits4(n);
  }

  lemma TailDigit(d: nat)
    requires d < 0x40
    ensures Tail(0x80 + d) && TailBits(0x80 + d) == d
  {
  }

  lemma Lead4(a: nat)
    requires a <= 4
    ensures LeadBits(0xF0 + a) == a
  {
  }

  lemma Digits4(n: nat)
    requires 0xFFFF < n <= 0x10_FFFF
    ensures n == n / 0x4_0000 * 0x4_0000 + n / 0x1000 % 0x40 * 0x1000 + n / 0x40 % 0x40 * 0x40 + n % 0x40
    ensures n / 0x4_0000 <= 4
    ensures n / 0x4_0000 == 0 ==> n / 0x1000 % 0x40 >= 0x10
    ensures n / 0x4_0000 == 4 ==> n / 0x1000 % 0x40 <= 0x0F
  {
    var m, k := n / 0x40, n / 0x1000;
    assert m / 0x40 == k && k / 0x40 == n / 0x4_0000;
  }

  lemma Undigits4(a: nat, b: nat, c: nat, d: nat, n: nat)
    requires b < 0x40 && c < 0x40 && d < 0x40 && n == a * 0x4_0000 + b * 0x1000 + c * 0x40 + d
    ensures n / 0x4_0000 == a && n / 0x1000 % 0x40 == b && n / 0x40 % 0x40 == c && n % 0x40 == d
  {
    var m, k := n / 0x40, n / 0x1000;
    assert m == a * 0x1000 + b * 0x40 + c;
    assert k == m / 0x40 == a * 0x40 + b;
  }

  /** Every character is the encoding of the scalar it spells: the shortest form is the only one. */
  lemma DecodeEncode(c: Bytes)
    requires IsChar(c)
    ensures Scalar(Decode(c)) && Encode(Decode(c)) == c
  {
    if |c| == 2 {
      Spelled2(c);
    } else if |c| == 3 {
      DecodeEncode3(c);
    } else if |c| == 4 {
      DecodeEncode4(c);
    }
  }

  lemma {:induction false} DecodeEncode3(c: Bytes)
    requires IsChar(c) && |c| == 3
    ensures Scalar(Decode(c)) && Encode(Decode(c)) == c
  {
    Spelled3(c);
    Undigits4(0, LeadBits(c[0]), TailBits(c[1]), TailBits(c[2]), Decode(c));
    assert c[0] == 0xE0 + LeadBits(c[0]) && c[1] == 0x80 + TailBits(c[1]) && c[2] == 0x80 + TailBits(c[2]);
  }

  lemma {:induction false} DecodeEncode4(c: Bytes)
    requires IsChar(c) && |c| == 4
    ensures Scalar(Decode(c)) && Encode(Decode(c)) == c
  {
    Spelled4(c);
    Undigits4(LeadBits(c[0]), TailBits(c[1]), TailBits(c[2]), TailBits(c[3]), Decode(c));
    assert c[0] == 0xF0 + LeadBits(c[0]) && c[1] == 0x80 + TailBits(c[1]);
    assert c[2] == 0x80 + TailBits(c[2]) && c[3] == 0x80 + TailBits(c[3]);
  }

  // ---------- Surrogate pairs (section 2.2 of RFC 2781) ----------

  predicate HighSurrogate(u: nat) { 0xD800 <= u <= 0xDBFF }

  predicate LowSurrogate(u: nat) { 0xDC00 <= u <= 0xDFFF }

  function Combine(high: nat, low: nat): nat
    requires HighSurrogate(high) && LowSurrogate(low)
  {
    0x1_0000 + (high - 0xD800) * 0x400 + (low - 0xDC00)
  }

  function HighOf(n: nat): nat
    requires 0x1_0000 <= n <= 0x10_FFFF
  {
    0xD800 + (n - 0x1_0000) / 0x400
  }

  function LowOf(n: nat): nat
    requires 0x1_0000 <= n <= 0x10_FFFF
  {
    0xDC00 + (n - 0x1_0000) % 0x400
  }

  /** Pairs and supplementary scalars correspond one to one. */
  lemma SurrogatePairs(n: nat, high: nat, low: nat)
    requires 0x1_0000 <= n <= 0x10_FFFF && HighSurrogate(high) && LowSurrogate(low)
    ensures HighSurrogate(HighOf(n)) && LowSurrogate(LowOf(n))
    ensures Combine(high, low) == n <==> high == HighOf(n) && low == LowOf(n)
    ensures Scalar(Combine(high, low)) && Combine(high, low) > 0xFFFF
  {
    var m := n - 0x1_0000;
    assert m == m / 0x400 * 0x400 + m % 0x400;
  }
}
