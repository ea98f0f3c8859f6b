/**
 * What the grammar derives, within the depth limit and without repeated keys, the reader returns;
 * with soundness, the reader accepts exactly the texts of the grammar and returns what they denote.
 */
module JsonCompleteness {
  import opened Core
  import opened Utf8
  import opened JsonGrammar
  import opened JsonReader
  import opened JsonTokens
  import opened JsonSoundness

  // ---------- How values begin ----------

  predicate Starts(b: uint8) {
    !IsWs(b) && b != COMMA && b != COLON && b != RIGHT_BRACKET && b != RIGHT_BRACE
  }

  lemma ValueStarts(s: Bytes, i: nat, j: nat, v: Json)
    requires i <= j <= |s| && ValueAt(s, i, j, v)
    ensures i < j && Starts(s[i])
  {
    match v {
      case Null => LiteralStarts(s, i, j, NULL);
      case Boolean(b) => LiteralStarts(s, i, j, if b then TRUE else FALSE);
      case Number(_) =>
        var a: nat, b: nat, c: nat :| MinusAt(s, i, a) && IntAt(s, a, b) && FracAt(s, b, c) && ExpAt(s, c, j);
      case _ =>
    }
  }

  lemma LiteralStarts(s: Bytes, i: nat, j: nat, word: Bytes)
    requires LiteralAt(s, i, j, word) && word != []
    ensures i < j && s[i] == word[0]
  {
    assert s[i..j][0] == s[i];
  }

  lemma MemberParts(s: Bytes, i: nat, j: nat, m: Member) returns (a: nat, b: nat, c: nat)
    requires i <= j <= |s| && MemberAt(s, i, j, m)
    ensures Ws(s, i, a) && StringAt(s, a, b, m.key) && Ws(s, b, c) && c < j && s[c] == COLON
    ensures PaddedAt(s, c + 1, j, m.value)
  {
    a, b, c :| Ws(s, i, a) && StringAt(s, a, b, m.key) && Ws(s, b, c) && c < j && s[c] == COLON
      && PaddedAt(s, c + 1, j, m.value);
  }

  lemma MembersParts(s: Bytes, i: nat, j: nat, ms: seq<Member>) returns (k: nat)
    requires i <= j <= |s| && |ms| > 1 && MembersAt(s, i, j, ms)
    ensures i <= k < j && s[k] == COMMA && MemberAt(s, i, k, ms[0]) && MembersAt(s, k + 1, j, ms[1..])
  {
    k :| i <= k < j && s[k] == COMMA && MemberAt(s, i, k, ms[0]) && MembersAt(s, k + 1, j, ms[1..]);
  }

  // ---------- Completeness ----------

  lemma LiteralComplete(s: Bytes, i: nat, j: nat, word: Bytes, v: Json)
    requires LiteralAt(s, i, j, word) && word != []
    ensures Yields(ReadLiteral(s, i, word, v), v, j)
  {
  }

  lemma NumberStarts(s: Bytes, i: nat, j: nat)
    requires NumberAt(s, i, j)
    ensures i < j <= |s| && (s[i] == MINUS || IsDigit(s[i]))
  {
    var a: nat, b: nat, c: nat :| MinusAt(s, i, a) && IntAt(s, a, b) && FracAt(s, b, c) && ExpAt(s, c, j);
  }

  lemma ScalarComplete(s: Bytes, i: nat, j: nat, v: Json)
    requires i < j <= |s| && ValueAt(s, i, j, v) && !v.Array? && !v.Object? && Follows(s, j)
    ensures Yields(ReadScalar(s, i), v, j) && s[i] != LEFT_BRACE && s[i] != LEFT_BRACKET
  {
    match v {
      case Null =>
        LiteralStarts(s, i, j, NULL);
        LiteralComplete(s, i, j, NULL, v);
      case Boolean(b) =>
        LiteralStarts(s, i, j, if b then TRUE else FALSE);
        LiteralComplete(s, i, j, if b then TRUE else FALSE, v);
      case Number(_) =>
        NumberStarts(s, i, j);
        NumberComplete(s, i, j);
      case String(text) =>
        StringExact(s, i, j, text);
    }
  }

  lemma {:induction false} ValueComplete(s: Bytes, i: nat, p: nat, j: nat, depth: nat, v: Json)
    requires Ws(s, i, p) && p <= j <= |s| && ValueAt(s, p, j, v) && Follows(s, j)
    requires Fits(v, depth) && UniqueKeys(v)
    ensures Yields(ReadValue(s, i, depth), v, j)
    decreases v, 1
  {
    ValueStarts(s, p, j, v);
    SkipStops(s, i, p);
    if v.Array? {
      ArrayComplete(s, p, j, depth + 1, v.elements);
    } else if v.Object? {
      ObjectComplete(s, p, j, depth + 1, v.members);
    } else {
      ScalarComplete(s, p, j, v);
    }
  }

  lemma {:induction false} ArrayComplete(s: Bytes, p: nat, j: nat, depth: nat, vs: seq<Json>)
    requires p <= j <= |s| && ValueAt(s, p, j, Array(vs)) && AllFit(vs, depth)
    ensures p < |s| && Yields(ReadArray(s, p, depth), Array(vs), j)
    decreases vs, 1
  {
    if vs == [] {
      SkipStops(s, p + 1, j - 1);
    } else {
      var q := ElementsStart(s, p + 1, j - 1, vs);
      ElementsComplete(s, q, j - 1, depth, vs);
    }
  }

  /** The whitespace before the first element may be read first. */
  lemma ElementsStart(s: Bytes, i: nat, j: nat, vs: seq<Json>) returns (q: nat)
    requires vs != [] && i <= j <= |s| && ElementsAt(s, i, j, vs)
    ensures q == SkipWs(s, i) && q < j && Starts(s[q]) && ElementsAt(s, q, j, vs)
  {
    if |vs| == 1 {
      q := PaddedStart(s, i, j, vs[0]);
    } else {
      var k := ElementsParts(s, i, j, vs);
      q := PaddedStart(s, i, k, vs[0]);
      MoreElements(s, q, k, j, vs[0], vs[1..]);
      assert [vs[0]] + vs[1..] == vs;
    }
  }

  lemma PaddedStart(s: Bytes, i: nat, j: nat, v: Json) returns (q: nat)
    requires i <= j <= |s| && PaddedAt(s, i, j, v)
    ensures q == SkipWs(s, i) && q < j && Starts(s[q]) && PaddedAt(s, q, j, v)
  {
    var a: nat, b: nat :| Ws(s, i, a) && a <= b <= j && ValueAt(s, a, b, v) && Ws(s, b, j);
    ValueStarts(s, a, b, v);
    SkipStops(s, i, a);
    q := a;
    Pad(s, q, a, b, j, v);
  }

  /** A padded value is read, and the whitespace behind it ends at `j`. */
  lemma {:induction false} PaddedComplete(s: Bytes, i: nat, j: nat, depth: nat, v: Json) returns (e: nat)
    requires i <= j <= |s| && PaddedAt(s, i, j, v) && Follows(s, j) && (j < |s| ==> !IsWs(s[j]))
    requires Fits(v, depth) && UniqueKeys(v)
    ensures Yields(ReadValue(s, i, depth), v, e) && e <= |s| && SkipWs(s, e) == j
    decreases v, 2
  {
    var a: nat, b: nat :| Ws(s, i, a) && a <= b <= j && ValueAt(s, a, b, v) && Ws(s, b, j);
    assert Follows(s, b);
    ValueComplete(s, i, a, b, depth, v);
    SkipStops(s, b, j);
    e := b;
  }

  lemma ElementsParts(s: Bytes, i: nat, j: nat, vs: seq<Json>) returns (k: nat)
    requires i <= j <= |s| && |vs| > 1 && ElementsAt(s, i, j, vs)
    ensures i <= k < j && s[k] == COMMA && PaddedAt(s, i, k, vs[0]) && ElementsAt(s, k + 1, j, vs[1..])
  {
    k :| i <= k < j && s[k] == COMMA && PaddedAt(s, i, k, vs[0]) && ElementsAt(s, k + 1, j, vs[1..]);
  }

  lemma OneElement(s: Bytes, i: nat, j: nat, vs: seq<Json>)
    requires i <= j <= |s| && |vs| == 1 && ElementsAt(s, i, j, vs)
    ensures PaddedAt(s, i, j, vs[0])
  {
  }

  lemma FirstElementFits(vs: seq<Json>, depth: nat)
    requires vs != [] && AllFit(vs, depth)
    ensures Fits(vs[0], depth) && UniqueKeys(vs[0]) && AllFit(vs[1..], depth)
  {
  }

  lemma BehindValue(s: Bytes, j: nat)
    requires j < |s| && (s[j] == COMMA || s[j] == RIGHT_BRACE || s[j] == RIGHT_BRACKET)
    ensures Follows(s, j) && !IsWs(s[j])
  {
  }

  lemma {:induction false} ElementsComplete(s: Bytes, i: nat, j: nat, depth: nat, vs: seq<Json>)
    requires vs != [] && i <= j < |s| && s[j] == RIGHT_BRACKET && ElementsAt(s, i, j, vs) && AllFit(vs, depth)
    ensures Yields(ReadElements(s, i, depth), vs, j + 1)
    decreases vs, 0
  {
    hide *;
    FirstElementFits(vs, depth);
    if |vs| == 1 {
      BehindValue(s, j);
      OneElement(s, i, j, vs);
      var e := PaddedComplete(s, i, j, depth, vs[0]);
      ElementsEnd(s, i, depth, vs, e, j);
    } else {
      var k := ElementsParts(s, i, j, vs);
      BehindValue(s, k);
      var e := PaddedComplete(s, i, k, depth, vs[0]);
      ElementsComplete(s, k + 1, j, depth, vs[1..]);
      ElementsStep(s, i, depth, vs, e, k, j + 1);
    }
  }

  lemma ElementsEnd(s: Bytes, i: nat, depth: nat, vs: seq<Json>, e: nat, j: nat)
    requires i <= |s| && |vs| == 1 && Yields(ReadValue(s, i, depth), vs[0], e)
    requires e <= |s| && SkipWs(s, e) == j < |s| && s[j] == RIGHT_BRACKET
    ensures Yields(ReadElements(s, i, depth), vs, j + 1)
  {
    assert vs == [vs[0]];
  }

  lemma ElementsStep(s: Bytes, i: nat, depth: nat, vs: seq<Json>, e: nat, k: nat, j: nat)
    requires i <= |s| && vs != [] && Yields(ReadValue(s, i, depth), vs[0], e)
    requires e <= |s| && SkipWs(s, e) == k < |s| && s[k] == COMMA
    requires Yields(ReadElements(s, k + 1, depth), vs[1..], j)
    ensures Yields(ReadElements(s, i, depth), vs, j)
  {
    assert vs == [vs[0]] + vs[1..];
  }

  lemma {:induction false} ObjectComplete(s: Bytes, p: nat, j: nat, depth: nat, ms: seq<Member>)
    requires p <= j <= |s| && ValueAt(s, p, j, Object(ms)) && MembersFit(ms, depth) && DistinctKeys(ms)
    ensures p < |s| && Yields(ReadObject(s, p, depth), Object(ms), j)
    decreases ms, 1
  {
    if ms == [] {
      SkipStops(s, p + 1, j - 1);
    } else {
      var q := MembersStart(s, p + 1, j - 1, ms);
      MembersComplete(s, q, j - 1, depth, {}, ms);
    }
  }

  lemma {:induction false} MembersStart(s: Bytes, i: nat, j: nat, ms: seq<Member>) returns (q: nat)
    requires ms != [] && i <= j <= |s| && MembersAt(s, i, j, ms)
    ensures q == SkipWs(s, i) && q < j && s[q] == QUOTE && MembersAt(s, q, j, ms)
  {
    if |ms| == 1 {
      q := MemberStart(s, i, j, ms[0]);
    } else {
      var k := MembersParts(s, i, j, ms);
      q := MemberStart(s, i, k, ms[0]);
      MoreMembers(s, q, k, j, ms[0], ms[1..]);
      assert [ms[0]] + ms[1..] == ms;
    }
  }

  lemma MemberStart(s: Bytes, i: nat, j: nat, m: Member) returns (q: nat)
    requires i <= j <= |s| && MemberAt(s, i, j, m)
    ensures q == SkipWs(s, i) && q < j && s[q] == QUOTE && MemberAt(s, q, j, m)
  {
    var a, b, c := MemberParts(s, i, j, m);
    SkipStops(s, i, a);
    q := a;
    ComposeMember(s, q, a, b, c, j, m);
  }

  /** The string and the colon of a member are read where the grammar puts them. */
  lemma MemberTokens(s: Bytes, i: nat, j: nat, m: Member) returns (a: nat, b: nat, c: nat)
    requires i <= j <= |s| && MemberAt(s, i, j, m)
    ensures SkipWs(s, i) == a && Yields(ReadString(s, a), m.key, b) && b <= |s| && SkipWs(s, b) == c
    ensures c < j && s[c] == COLON && PaddedAt(s, c + 1, j, m.value)
  {
    a, b, c := MemberParts(s, i, j, m);
    assert s[a] == QUOTE;
    SkipStops(s, i, a);
    StringExact(s, a, b, m.key);
    SkipStops(s, b, c);
  }

  lemma {:induction false} MemberComplete(s: Bytes, i: nat, j: nat, depth: nat, keys: set<Bytes>, m: Member)
    returns (e: nat)
    requires i <= j <= |s| && MemberAt(s, i, j, m) && Follows(s, j) && (j < |s| ==> !IsWs(s[j]))
    requires m.key !in keys && Fits(m.value, depth) && UniqueKeys(m.value)
    ensures Yields(ReadMember(s, i, depth, keys), m, e) && e <= |s| && SkipWs(s, e) == j
    decreases m, 0
  {
    hide *;
    var a, b, c := MemberTokens(s, i, j, m);
    e := PaddedComplete(s, c + 1, j, depth, m.value);
    MemberStep(s, i, depth, keys, m, a, b, c, e);
  }

  lemma MemberStep(s: Bytes, i: nat, depth: nat, keys: set<Bytes>, m: Member, a: nat, b: nat, c: nat, e: nat)
    requires i <= |s| && SkipWs(s, i) == a && Yields(ReadString(s, a), m.key, b) && b <= |s| && SkipWs(s, b) == c < |s|
    requires s[c] == COLON && m.key !in keys && Yields(ReadValue(s, c + 1, depth), m.value, e)
    ensures Yields(ReadMember(s, i, depth, keys), m, e)
  {
  }

  lemma {:induction false} MembersComplete(s: Bytes, i: nat, j: nat, depth: nat, keys: set<Bytes>, ms: seq<Member>)
    requires ms != [] && i <= j < |s| && s[j] == RIGHT_BRACE && MembersAt(s, i, j, ms)
    requires MembersFit(ms, depth) && KeysAvoid(ms, keys)
    ensures Yields(ReadMembers(s, i, depth, keys), ms, j + 1)
    decreases ms, 0
  {
    hide *;
    FirstFits(ms, depth, keys);
    if |ms| == 1 {
      BehindValue(s, j);
      OneMember(s, i, j, ms);
      var e := MemberComplete(s, i, j, depth, keys, ms[0]);
      MembersEnd(s, i, depth, keys, ms, e, j);
    } else {
      var k := MembersParts(s, i, j, ms);
      BehindValue(s, k);
      var e := MemberComplete(s, i, k, depth, keys, ms[0]);
      MembersComplete(s, k + 1, j, depth, keys + {ms[0].key}, ms[1..]);
      MembersStep(s, i, depth, keys, ms, e, k, j + 1);
    }
  }

  lemma OneMember(s: Bytes, i: nat, j: nat, ms: seq<Member>)
    requires i <= j <= |s| && |ms| == 1 && MembersAt(s, i, j, ms)
    ensures MemberAt(s, i, j, ms[0])
  {
  }

  lemma FirstFits(ms: seq<Member>, depth: nat, keys: set<Bytes>)
    requires ms != [] && MembersFit(ms, depth) && KeysAvoid(ms, keys)
    ensures ms[0].key !in keys && Fits(ms[0].value, depth) && UniqueKeys(ms[0].value)
    ensures MembersFit(ms[1..], depth) && KeysAvoid(ms[1..], keys + {ms[0].key})
  {
  }

  lemma MembersEnd(s: Bytes, i: nat, depth: nat, keys: set<Bytes>, ms: seq<Member>, e: nat, j: nat)
    requires i <= |s| && |ms| == 1 && Yields(ReadMember(s, i, depth, keys), ms[0], e)
    requires e <= |s| && SkipWs(s, e) == j < |s| && s[j] == RIGHT_BRACE
    ensures Yields(ReadMembers(s, i, depth, keys), ms, j + 1)
  {
    assert ms == [ms[0]];
  }

  lemma MembersStep(s: Bytes, i: nat, depth: nat, keys: set<Bytes>, ms: seq<Member>, e: nat, k: nat, j: nat)
    requires i <= |s| && ms != [] && Yields(ReadMember(s, i, depth, keys), ms[0], e)
    requires e <= |s| && SkipWs(s, e) == k < |s| && s[k] == COMMA
    requires Yields(ReadMembers(s, k + 1, depth, keys + {ms[0].key}), ms[1..], j)
    ensures Yields(ReadMembers(s, i, depth, keys), ms, j)
  {
    assert ms == [ms[0]] + ms[1..];
  }

  // ---------- The whole text ----------

  /**
   * The library accepts exactly the valid UTF-8 texts of the grammar whose value has no repeated
   * key and nothing deeper than 64 containers, and it returns the value that the text denotes.
   */
  lemma ParseExact(s: Bytes, v: Json)
    ensures ReadJson(s) == Success(v) <==> Valid(s) && JsonText(s, v) && Fits(v, 0) && UniqueKeys(v)
  {
    if ReadJson(s) == Success(v) {
      var e := ReadValue(s, 0, 0).value.next;
      ReadPadded(s, 0, 0, v, e);
    }
    if Valid(s) && JsonText(s, v) && Fits(v, 0) && UniqueKeys(v) {
      var e := PaddedComplete(s, 0, |s|, 0, v);
    }
  }

  /** Every string and key inside the value is valid UTF-8. */
  ghost predicate AllUtf8(v: Json) {
    match v
    case String(text) => Valid(text)
    case Array(vs) => forall k :: 0 <= k < |vs| ==> AllUtf8(vs[k])
    case Object(ms) => forall k :: 0 <= k < |ms| ==> Valid(ms[k].key) && AllUtf8(ms[k].value)
    case _ => true
  }

  lemma {:induction false} ValueUtf8(s: Bytes, i: nat, j: nat, v: Json)
    requires Valid(s) && i <= j <= |s| && ValueAt(s, i, j, v)
    ensures AllUtf8(v)
    decreases v, 1
  {
    match v {
      case String(text) => StringValid(s, i, j, text);
      case Array(vs) => if vs != [] { ElementsUtf8(s, i + 1, j - 1, vs); }
      case Object(ms) => if ms != [] { MembersUtf8(s, i + 1, j - 1, ms); }
      case _ =>
    }
  }

  lemma {:induction false} PaddedUtf8(s: Bytes, i: nat, j: nat, v: Json)
    requires Valid(s) && i <= j <= |s| && PaddedAt(s, i, j, v)
    ensures AllUtf8(v)
    decreases v, 2
  {
    var a: nat, b: nat :| Ws(s, i, a) && a <= b <= j && ValueAt(s, a, b, v) && Ws(s, b, j);
    ValueUtf8(s, a, b, v);
  }

  lemma {:induction false} ElementsUtf8(s: Bytes, i: nat, j: nat, vs: seq<Json>)
    requires Valid(s) && vs != [] && i <= j <= |s| && ElementsAt(s, i, j, vs)
    ensures forall k :: 0 <= k < |vs| ==> AllUtf8(vs[k])
    decreases vs, 0
  {
    if |vs| == 1 {
      PaddedUtf8(s, i, j, vs[0]);
    } else {
      var k := ElementsParts(s, i, j, vs);
      PaddedUtf8(s, i, k, vs[0]);
      ElementsUtf8(s, k + 1, j, vs[1..]);
      assert forall n :: 1 <= n < |vs| ==> vs[n] == vs[1..][n - 1];
    }
  }

  ghost predicate MembersValid(ms: seq<Member>) {
    forall k :: 0 <= k < |ms| ==> Valid(ms[k].key) && AllUtf8(ms[k].value)
  }

  lemma MembersValidCons(ms: seq<Member>)
    requires ms != [] && Valid(ms[0].key) && AllUtf8(ms[0].value) && MembersValid(ms[1..])
    ensures MembersValid(ms)
  {
    assert forall n :: 1 <= n < |ms| ==> ms[n] == ms[1..][n - 1];
  }

  lemma {:induction false} MembersUtf8(s: Bytes, i: nat, j: nat, ms: seq<Member>)
    requires Valid(s) && ms != [] && i <= j <= |s| && MembersAt(s, i, j, ms)
    ensures MembersValid(ms)
    decreases ms, 0
  {
    hide *;
    if |ms| == 1 {
      OneMember(s, i, j, ms);
      MemberUtf8(s, i, j, ms[0]);
      NoMembersValid(ms[1..]);
    } else {
      var k := MembersParts(s, i, j, ms);
      MemberUtf8(s, i, k, ms[0]);
      MembersUtf8(s, k + 1, j, ms[1..]);
    }
    MembersValidCons(ms);
  }

  lemma NoMembersValid(ms: seq<Member>)
    requires ms == []
    ensures MembersValid(ms)
  {
  }

  lemma {:induction false} MemberUtf8(s: Bytes, i: nat, j: nat, m: Member)
    requires Valid(s) && i <= j <= |s| && MemberAt(s, i, j, m)
    ensures Valid(m.key) && AllUtf8(m.value)
    decreases m, 0
  {
    var a, b, c := MemberParts(s, i, j, m);
    StringValid(s, a, b, m.key);
    PaddedUtf8(s, c + 1, j, m.value);
  }

  /** Whatever the library returns, all of its strings are valid UTF-8. */
  lemma DecodedUtf8(s: Bytes)
    ensures ReadJson(s).Success? ==> AllUtf8(ReadJson(s).value)
  {
    if ReadJson(s).Success? {
      ParseExact(s, ReadJson(s).value);
      PaddedUtf8(s, 0, |s|, ReadJson(s).value);
    }
  }
}
