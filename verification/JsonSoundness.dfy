/** What the reader returns is what the grammar derives, within the depth limit and without repeated keys. */
module JsonSoundness {
  import opened Utf8
  import opened JsonGrammar
  import opened JsonReader
  import opened JsonTokens

  ghost predicate AllFit(vs: seq<Json>, depth: nat) {
    forall k :: 0 <= k < |vs| ==> Fits(vs[k], depth) && UniqueKeys(vs[k])
  }

  ghost predicate MembersFit(ms: seq<Member>, depth: nat) {
    forall k :: 0 <= k < |ms| ==> Fits(ms[k].value, depth) && UniqueKeys(ms[k].value)
  }

  ghost predicate KeysAvoid(ms: seq<Member>, keys: set<Bytes>) {
    DistinctKeys(ms) && forall k :: 0 <= k < |ms| ==> ms[k].key !in keys
  }

  /** One or more members up to a closing brace at `j - 1`, all admissible. */
  ghost predicate MembersRead(s: Bytes, i: nat, depth: nat, keys: set<Bytes>, ms: seq<Member>, j: nat) {
    && ms != [] && i < j <= |s| && s[j - 1] == RIGHT_BRACE && MembersAt(s, i, j - 1, ms)
    && MembersFit(ms, depth) && KeysAvoid(ms, keys)
  }

  // ---------- Composing derivations ----------

  lemma Pad(s: Bytes, i: nat, a: nat, b: nat, j: nat, v: Json)
    requires Ws(s, i, a) && a <= b <= j <= |s| && ValueAt(s, a, b, v) && Ws(s, b, j)
    ensures PaddedAt(s, i, j, v)
  {
  }

  lemma LastElement(s: Bytes, i: nat, j: nat, v: Json)
    requires i <= j <= |s| && PaddedAt(s, i, j, v)
    ensures ElementsAt(s, i, j, [v])
  {
  }

  lemma MoreElements(s: Bytes, i: nat, k: nat, j: nat, v: Json, vs: seq<Json>)
    requires i <= k < j <= |s| && s[k] == COMMA && PaddedAt(s, i, k, v)
    requires vs != [] && ElementsAt(s, k + 1, j, vs)
    ensures ElementsAt(s, i, j, [v] + vs)
  {
    assert ([v] + vs)[1..] == vs;
  }

  lemma ComposeMember(s: Bytes, i: nat, a: nat, b: nat, c: nat, j: nat, m: Member)
    requires Ws(s, i, a) && StringAt(s, a, b, m.key) && Ws(s, b, c) && c < j <= |s| && s[c] == COLON
    requires PaddedAt(s, c + 1, j, m.value)
    ensures i <= j && MemberAt(s, i, j, m)
  {
  }

  lemma LastMember(s: Bytes, i: nat, j: nat, m: Member)
    requires i <= j <= |s| && MemberAt(s, i, j, m)
    ensures MembersAt(s, i, j, [m])
  {
  }

  lemma MoreMembers(s: Bytes, i: nat, k: nat, j: nat, m: Member, ms: seq<Member>)
    requires i <= k < j <= |s| && s[k] == COMMA && MemberAt(s, i, k, m)
    requires ms != [] && MembersAt(s, k + 1, j, ms)
    ensures MembersAt(s, i, j, [m] + ms)
  {
    assert ([m] + ms)[1..] == ms;
  }

  // ---------- Soundness ----------

  lemma ScalarSound(s: Bytes, i: nat, j: nat, v: Json)
    requires i < |s| && Yields(ReadScalar(s, i), v, j)
    ensures i < j <= |s| && ValueAt(s, i, j, v)
    ensures !v.Array? && !v.Object?
  {
    if s[i] == QUOTE {
      StringExact(s, i, j, v.text);
    } else if v.Number? {
      NumberSound(s, i);
    }
  }

  lemma {:induction false} ValueSound(s: Bytes, i: nat, depth: nat, v: Json, j: nat)
    requires i <= |s| && Yields(ReadValue(s, i, depth), v, j)
    ensures SkipWs(s, i) < j <= |s| && ValueAt(s, SkipWs(s, i), j, v)
    ensures Fits(v, depth) && UniqueKeys(v)
    decreases |s| - i, 1
  {
    var p := SkipWs(s, i);
    if s[p] == LEFT_BRACE {
      ObjectSound(s, p, depth + 1, v, j);
    } else if s[p] == LEFT_BRACKET {
      ArraySound(s, p, depth + 1, v, j);
    } else {
      ScalarSound(s, p, j, v);
    }
  }

  lemma {:induction false} ArraySound(s: Bytes, i: nat, depth: nat, v: Json, j: nat)
    requires i < |s| && s[i] == LEFT_BRACKET && 0 < depth <= MAXIMUM_DEPTH + 1 && Yields(ReadArray(s, i, depth), v, j)
    ensures i < j <= |s| && ValueAt(s, i, j, v)
    ensures Fits(v, depth - 1) && UniqueKeys(v)
    decreases |s| - i, 0
  {
    var q := SkipWs(s, i + 1);
    SkipsWs(s, i + 1);
    if Sees(s, q, RIGHT_BRACKET) {
      assert v == Array([]);
    } else {
      ElementsSound(s, q, depth, v.elements, j);
      ElementsPadded(s, i + 1, q, j - 1, v.elements);
      ArrayFits(v.elements, depth - 1);
    }
  }

  /** Whitespace before the first element belongs to that element. */
  lemma ElementsPadded(s: Bytes, i: nat, q: nat, j: nat, vs: seq<Json>)
    requires vs != [] && q <= j <= |s| && Ws(s, i, q) && ElementsAt(s, q, j, vs)
    ensures ElementsAt(s, i, j, vs)
  {
    if |vs| == 1 {
      PaddedMore(s, i, q, j, vs[0]);
    } else {
      var k :| q <= k < j && s[k] == COMMA && PaddedAt(s, q, k, vs[0]) && ElementsAt(s, k + 1, j, vs[1..]);
      PaddedMore(s, i, q, k, vs[0]);
      MoreElements(s, i, k, j, vs[0], vs[1..]);
      assert [vs[0]] + vs[1..] == vs;
    }
  }

  lemma PaddedMore(s: Bytes, i: nat, q: nat, j: nat, v: Json)
    requires q <= j <= |s| && Ws(s, i, q) && PaddedAt(s, q, j, v)
    ensures PaddedAt(s, i, j, v)
  {
    var a: nat, b: nat :| Ws(s, q, a) && a <= b <= j && ValueAt(s, a, b, v) && Ws(s, b, j);
    Pad(s, i, a, b, j, v);
  }

  /** The first element read, the position of the byte behind it, and what is read after a comma. */
  lemma FirstRead(s: Bytes, i: nat, depth: nat, vs: seq<Json>, j: nat)
    returns (v: Json, e: nat, q: nat, rest: seq<Json>)
    requires i <= |s| && Yields(ReadElements(s, i, depth), vs, j)
    ensures Yields(ReadValue(s, i, depth), v, e) && i < e <= q < |s| && q == SkipWs(s, e)
    ensures s[q] == RIGHT_BRACKET ==> vs == [v] && j == q + 1
    ensures s[q] != RIGHT_BRACKET ==>
      s[q] == COMMA && vs == [v] + rest && Yields(ReadElements(s, q + 1, depth), rest, j)
  {
    v, e := ReadValue(s, i, depth).value.value, ReadValue(s, i, depth).value.next;
    q := SkipWs(s, e);
    if s[q] == RIGHT_BRACKET {
      rest := [];
    } else {
      rest := ReadElements(s, q + 1, depth).value.value;
    }
  }

  lemma FitCons(v: Json, vs: seq<Json>, depth: nat)
    requires Fits(v, depth) && UniqueKeys(v) && AllFit(vs, depth)
    ensures AllFit([v] + vs, depth)
  {
  }

  lemma {:induction false} ReadPadded(s: Bytes, i: nat, depth: nat, v: Json, e: nat)
    requires i <= |s| && Yields(ReadValue(s, i, depth), v, e)
    ensures i < e <= SkipWs(s, e) && PaddedAt(s, i, SkipWs(s, e), v)
    ensures Fits(v, depth) && UniqueKeys(v)
    decreases |s| - i, 2
  {
    ValueSound(s, i, depth, v, e);
    SkipsWs(s, i);
    SkipsWs(s, e);
    Pad(s, i, SkipWs(s, i), e, SkipWs(s, e), v);
  }

  lemma {:induction false} ElementsSound(s: Bytes, i: nat, depth: nat, vs: seq<Json>, j: nat)
    requires i <= |s| && Yields(ReadElements(s, i, depth), vs, j)
    ensures vs != [] && i < j <= |s| && s[j - 1] == RIGHT_BRACKET && ElementsAt(s, i, j - 1, vs)
    ensures AllFit(vs, depth)
    decreases |s| - i, 3
  {
    hide ReadElements, ReadValue, PaddedAt, ElementsAt, Fits, UniqueKeys;
    var v, e, q, rest := FirstRead(s, i, depth, vs, j);
    ReadPadded(s, i, depth, v, e);
    if s[q] == RIGHT_BRACKET {
      LastElement(s, i, q, v);
    } else {
      ElementsSound(s, q + 1, depth, rest, j);
      MoreElements(s, i, q, j - 1, v, rest);
      FitCons(v, rest, depth);
    }
  }

  lemma ObjectFits(ms: seq<Member>, depth: nat)
    requires depth <= MAXIMUM_DEPTH && MembersFit(ms, depth + 1) && DistinctKeys(ms)
    ensures Fits(Object(ms), depth) && UniqueKeys(Object(ms))
  {
  }

  lemma ArrayFits(vs: seq<Json>, depth: nat)
    requires depth <= MAXIMUM_DEPTH && AllFit(vs, depth + 1)
    ensures Fits(Array(vs), depth) && UniqueKeys(Array(vs))
  {
  }

  lemma {:induction false} ObjectSound(s: Bytes, i: nat, depth: nat, v: Json, j: nat)
    requires i < |s| && s[i] == LEFT_BRACE && 0 < depth <= MAXIMUM_DEPTH + 1 && Yields(ReadObject(s, i, depth), v, j)
    ensures i < j <= |s| && ValueAt(s, i, j, v)
    ensures Fits(v, depth - 1) && UniqueKeys(v)
    decreases |s| - i, 0
  {
    var q := SkipWs(s, i + 1);
    SkipsWs(s, i + 1);
    if Sees(s, q, RIGHT_BRACE) {
      assert v == Object([]);
    } else {
      assert v.Object?;
      MembersSound(s, q, depth, {}, v.members, j);
      ObjectWhole(s, i, q, depth - 1, v.members, j);
    }
  }

  lemma ObjectWhole(s: Bytes, i: nat, q: nat, depth: nat, ms: seq<Member>, j: nat)
    requires i < |s| && s[i] == LEFT_BRACE && Ws(s, i + 1, q) && MembersRead(s, q, depth + 1, {}, ms, j)
      && depth <= MAXIMUM_DEPTH
    ensures i < j <= |s| && ValueAt(s, i, j, Object(ms))
    ensures Fits(Object(ms), depth) && UniqueKeys(Object(ms))
  {
    MembersPadded(s, i + 1, q, j - 1, ms);
    ObjectFits(ms, depth);
  }

  lemma MembersPadded(s: Bytes, i: nat, q: nat, j: nat, ms: seq<Member>)
    requires ms != [] && q <= j <= |s| && Ws(s, i, q) && MembersAt(s, q, j, ms)
    ensures MembersAt(s, i, j, ms)
  {
    hide MemberAt;
    if |ms| == 1 {
      MemberMore(s, i, q, j, ms[0]);
    } else {
      var k :| q <= k < j && s[k] == COMMA && MemberAt(s, q, k, ms[0]) && MembersAt(s, k + 1, j, ms[1..]);
      MemberMore(s, i, q, k, ms[0]);
      MoreMembers(s, i, k, j, ms[0], ms[1..]);
      assert [ms[0]] + ms[1..] == ms;
    }
  }

  lemma MemberMore(s: Bytes, i: nat, q: nat, j: nat, m: Member)
    requires q <= j <= |s| && Ws(s, i, q) && MemberAt(s, q, j, m)
    ensures MemberAt(s, i, j, m)
  {
    var a: nat, b: nat, c: nat :| Ws(s, q, a) && StringAt(s, a, b, m.key) && Ws(s, b, c) && c < j && s[c] == COLON
      && PaddedAt(s, c + 1, j, m.value);
    ComposeMember(s, i, a, b, c, j, m);
  }

  /** The pieces of a member that was read. */
  lemma MemberRead(s: Bytes, i: nat, depth: nat, keys: set<Bytes>, m: Member, e: nat)
    returns (a: nat, k: nat, c: nat)
    requires i <= |s| && Yields(ReadMember(s, i, depth, keys), m, e)
    ensures a == SkipWs(s, i) && Yields(ReadString(s, a), m.key, k) && k <= |s| && c == SkipWs(s, k)
    ensures i <= c < |s| && s[c] == COLON && Yields(ReadValue(s, c + 1, depth), m.value, e)
    ensures m.key !in keys
  {
    a := SkipWs(s, i);
    k := ReadString(s, a).value.next;
    c := SkipWs(s, k);
  }

  /** One member and the whitespace behind it. */
  lemma {:induction false} MemberSound(s: Bytes, i: nat, depth: nat, keys: set<Bytes>, m: Member, e: nat)
    requires i <= |s| && Yields(ReadMember(s, i, depth, keys), m, e)
    ensures i < e <= SkipWs(s, e) && MemberAt(s, i, SkipWs(s, e), m)
    ensures m.key !in keys && Fits(m.value, depth) && UniqueKeys(m.value)
    decreases |s| - i, 3
  {
    hide *;
    var a, k, c := MemberRead(s, i, depth, keys, m, e);
    SkipsWs(s, i);
    SkipsWs(s, k);
    StringExact(s, a, k, m.key);
    ReadPadded(s, c + 1, depth, m.value, e);
    ComposeMember(s, i, a, k, c, SkipWs(s, e), m);
  }

  /** The first member read, the position of the byte behind it, and what is read after a comma. */
  lemma FirstMemberRead(s: Bytes, i: nat, depth: nat, keys: set<Bytes>, ms: seq<Member>, j: nat)
    returns (m: Member, e: nat, q: nat, rest: seq<Member>)
    requires i <= |s| && Yields(ReadMembers(s, i, depth, keys), ms, j)
    ensures Yields(ReadMember(s, i, depth, keys), m, e) && i < e <= q < |s| && q == SkipWs(s, e)
    ensures s[q] == RIGHT_BRACE ==> ms == [m] && j == q + 1
    ensures s[q] != RIGHT_BRACE ==>
      s[q] == COMMA && ms == [m] + rest && Yields(ReadMembers(s, q + 1, depth, keys + {m.key}), rest, j)
  {
    m, e := ReadMember(s, i, depth, keys).value.value, ReadMember(s, i, depth, keys).value.next;
    q := SkipWs(s, e);
    if s[q] == RIGHT_BRACE {
      rest := [];
    } else {
      rest := ReadMembers(s, q + 1, depth, keys + {m.key}).value.value;
    }
  }

  lemma MembersFitCons(m: Member, ms: seq<Member>, depth: nat, keys: set<Bytes>)
    requires Fits(m.value, depth) && UniqueKeys(m.value) && MembersFit(ms, depth)
    requires m.key !in keys && KeysAvoid(ms, keys + {m.key})
    ensures MembersFit([m] + ms, depth) && KeysAvoid([m] + ms, keys)
  {
  }

  lemma OneMemberRead(s: Bytes, i: nat, depth: nat, keys: set<Bytes>, m: Member, q: nat)
    requires i <= q < |s| && s[q] == RIGHT_BRACE && MemberAt(s, i, q, m)
    requires m.key !in keys && Fits(m.value, depth) && UniqueKeys(m.value)
    ensures MembersRead(s, i, depth, keys, [m], q + 1)
  {
    LastMember(s, i, q, m);
  }

  lemma MoreMembersRead(s: Bytes, i: nat, depth: nat, keys: set<Bytes>, m: Member, q: nat, ms: seq<Member>, j: nat)
    requires i <= q < |s| && s[q] == COMMA && MemberAt(s, i, q, m)
    requires m.key !in keys && Fits(m.value, depth) && UniqueKeys(m.value)
    requires MembersRead(s, q + 1, depth, keys + {m.key}, ms, j)
    ensures MembersRead(s, i, depth, keys, [m] + ms, j)
  {
    MoreMembers(s, i, q, j - 1, m, ms);
    MembersFitCons(m, ms, depth, keys);
  }

  lemma {:induction false} MembersSound(s: Bytes, i: nat, depth: nat, keys: set<Bytes>, ms: seq<Member>, j: nat)
    requires i <= |s| && Yields(ReadMembers(s, i, depth, keys), ms, j)
    ensures MembersRead(s, i, depth, keys, ms, j)
    decreases |s| - i, 4
  {
    hide *;
    var m, e, q, rest := FirstMemberRead(s, i, depth, keys, ms, j);
    MemberSound(s, i, depth, keys, m, e);
    if s[q] == RIGHT_BRACE {
      OneMemberRead(s, i, depth, keys, m, q);
    } else {
      MembersSound(s, q + 1, depth, keys + {m.key}, rest, j);
      MoreMembersRead(s, i, depth, keys, m, q, rest, j);
    }
  }
}
