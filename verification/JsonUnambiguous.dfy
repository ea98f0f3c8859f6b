/** The grammar is unambiguous: a text denotes at most one value, admissible or not. */
module JsonUnambiguous {
  import opened Utf8
  import opened JsonGrammar
  import opened JsonReader
  import opened JsonTokens
  import opened JsonCompleteness

  predicate Ends(s: Bytes, j: nat) {
    j < |s| ==> s[j] == COMMA || s[j] == RIGHT_BRACKET || s[j] == RIGHT_BRACE
  }

  lemma ScalarUnique(s: Bytes, i: nat, j: nat, k: nat, v: Json, w: Json)
    requires i <= j <= |s| && ValueAt(s, i, j, v) && Follows(s, j) && !v.Array? && !v.Object?
    requires i <= k <= |s| && ValueAt(s, i, k, w) && Follows(s, k)
    ensures j == k && v == w
  {
    ValueStarts(s, i, j, v);
    ValueStarts(s, i, k, w);
    ScalarComplete(s, i, j, v);
    if w.Array? || w.Object? {
      ContainerStarts(s, i, k, w);
    } else {
      ScalarComplete(s, i, k, w);
    }
  }

  lemma ContainerStarts(s: Bytes, i: nat, j: nat, v: Json)
    requires i <= j <= |s| && ValueAt(s, i, j, v) && (v.Array? || v.Object?)
    ensures i + 2 <= j && s[i] == if v.Array? then LEFT_BRACKET else LEFT_BRACE
  {
  }

  /** Two values that begin at one place, each followed by a delimiter, are one value. */
  lemma {:induction false} ValueUnique(s: Bytes, i: nat, j: nat, k: nat, v: Json, w: Json)
    requires i <= j <= |s| && ValueAt(s, i, j, v) && Follows(s, j)
    requires i <= k <= |s| && ValueAt(s, i, k, w) && Follows(s, k)
    ensures j == k && v == w
    decreases v, 1
  {
    hide *;
    if !v.Array? && !v.Object? {
      ScalarUnique(s, i, j, k, v, w);
    } else if !w.Array? && !w.Object? {
      ScalarUnique(s, i, k, j, w, v);
    } else {
      ContainerStarts(s, i, j, v);
      ContainerStarts(s, i, k, w);
      BracketsDiffer();
      if v.Array? {
        ArrayUnique(s, i, j, k, v.elements, w.elements);
      } else {
        ObjectUnique(s, i, j, k, v.members, w.members);
      }
    }
  }

  lemma BracketsDiffer()
    ensures LEFT_BRACKET != LEFT_BRACE
  {
  }

  lemma PaddedParts(s: Bytes, i: nat, j: nat, v: Json) returns (a: nat, b: nat)
    requires i <= j <= |s| && PaddedAt(s, i, j, v) && Ends(s, j)
    ensures a == SkipWs(s, i) && a <= b <= j && ValueAt(s, a, b, v) && Follows(s, b) && SkipWs(s, b) == j
  {
    a, b :| Ws(s, i, a) && a <= b <= j && ValueAt(s, a, b, v) && Ws(s, b, j);
    ValueStarts(s, a, b, v);
    SkipStops(s, i, a);
    SkipStops(s, b, j);
  }

  lemma {:induction false} PaddedUnique(s: Bytes, i: nat, j: nat, k: nat, v: Json, w: Json)
    requires i <= j <= |s| && PaddedAt(s, i, j, v) && Ends(s, j)
    requires i <= k <= |s| && PaddedAt(s, i, k, w) && Ends(s, k)
    ensures j == k && v == w
    decreases v, 2
  {
    hide *;
    var a, b := PaddedParts(s, i, j, v);
    var a', b' := PaddedParts(s, i, k, w);
    ValueUnique(s, a, b, b', v, w);
  }

  // ---------- Arrays ----------

  lemma EmptyOrElements(s: Bytes, i: nat, j: nat, vs: seq<Json>)
    requires i <= j <= |s| && ValueAt(s, i, j, Array(vs))
    ensures i + 1 <= j - 1 < |s| && s[j - 1] == RIGHT_BRACKET
    ensures vs == [] ==> SkipWs(s, i + 1) == j - 1
    ensures vs != [] ==> ElementsAt(s, i + 1, j - 1, vs)
    ensures vs != [] ==> SkipWs(s, i + 1) < |s| && s[SkipWs(s, i + 1)] != RIGHT_BRACKET
  {
    if vs == [] {
      SkipStops(s, i + 1, j - 1);
    } else {
      var q := ElementsStart(s, i + 1, j - 1, vs);
    }
  }

  lemma {:induction false} ArrayUnique(s: Bytes, i: nat, j: nat, k: nat, vs: seq<Json>, ws: seq<Json>)
    requires i <= j <= |s| && ValueAt(s, i, j, Array(vs))
    requires i <= k <= |s| && ValueAt(s, i, k, Array(ws))
    ensures j == k && vs == ws
    decreases vs, 1
  {
    hide *;
    EmptyOrElements(s, i, j, vs);
    EmptyOrElements(s, i, k, ws);
    if vs != [] && ws != [] {
      ElementsUnique(s, i + 1, j - 1, k - 1, vs, ws);
    }
  }

  /** The first element, the delimiter behind it and, after a comma, the others. */
  lemma FirstElement(s: Bytes, i: nat, j: nat, vs: seq<Json>) returns (k: nat)
    requires vs != [] && i <= j < |s| && s[j] == RIGHT_BRACKET && ElementsAt(s, i, j, vs)
    ensures i <= k <= j && PaddedAt(s, i, k, vs[0]) && Ends(s, k)
    ensures if |vs| == 1 then k == j else k < j && s[k] == COMMA && ElementsAt(s, k + 1, j, vs[1..])
    ensures s[k] == COMMA <==> |vs| > 1
  {
    hide PaddedAt, ValueAt, ElementsAt;
    if |vs| == 1 {
      OneElement(s, i, j, vs);
      k := j;
    } else {
      k := ElementsParts(s, i, j, vs);
    }
  }

  lemma {:induction false} ElementsUnique(s: Bytes, i: nat, j: nat, k: nat, vs: seq<Json>, ws: seq<Json>)
    requires vs != [] && i <= j < |s| && s[j] == RIGHT_BRACKET && ElementsAt(s, i, j, vs)
    requires ws != [] && i <= k < |s| && s[k] == RIGHT_BRACKET && ElementsAt(s, i, k, ws)
    ensures j == k && vs == ws
    decreases vs, 0
  {
    hide *;
    var a := FirstElement(s, i, j, vs);
    var b := FirstElement(s, i, k, ws);
    PaddedUnique(s, i, a, b, vs[0], ws[0]);
    assert vs == [vs[0]] + vs[1..] && ws == [ws[0]] + ws[1..];
    if |vs| > 1 {
      ElementsUnique(s, a + 1, j, k, vs[1..], ws[1..]);
    }
  }

  // ---------- Objects ----------

  lemma EmptyOrMembers(s: Bytes, i: nat, j: nat, ms: seq<Member>)
    requires i <= j <= |s| && ValueAt(s, i, j, Object(ms))
    ensures i + 1 <= j - 1 < |s| && s[j - 1] == RIGHT_BRACE
    ensures ms == [] ==> SkipWs(s, i + 1) == j - 1
    ensures ms != [] ==> MembersAt(s, i + 1, j - 1, ms)
    ensures ms != [] ==> SkipWs(s, i + 1) < |s| && s[SkipWs(s, i + 1)] != RIGHT_BRACE
  {
    if ms == [] {
      SkipStops(s, i + 1, j - 1);
    } else {
      var q := MembersStart(s, i + 1, j - 1, ms);
    }
  }

  lemma {:induction false} ObjectUnique(s: Bytes, i: nat, j: nat, k: nat, ms: seq<Member>, ns: seq<Member>)
    requires i <= j <= |s| && ValueAt(s, i, j, Object(ms))
    requires i <= k <= |s| && ValueAt(s, i, k, Object(ns))
    ensures j == k && ms == ns
    decreases ms, 1
  {
    hide *;
    EmptyOrMembers(s, i, j, ms);
    EmptyOrMembers(s, i, k, ns);
    if ms != [] && ns != [] {
      MembersUnique(s, i + 1, j - 1, k - 1, ms, ns);
    }
  }

  lemma SameToken(s: Bytes, a: nat, text: Bytes, b: nat, text': Bytes, b': nat)
    requires Yields(ReadString(s, a), text, b) && Yields(ReadString(s, a), text', b')
    ensures text == text' && b == b'
  {
  }

  lemma {:induction false} MemberUnique(s: Bytes, i: nat, j: nat, k: nat, m: Member, n: Member)
    requires i <= j <= |s| && MemberAt(s, i, j, m) && Ends(s, j)
    requires i <= k <= |s| && MemberAt(s, i, k, n) && Ends(s, k)
    ensures j == k && m == n
    decreases m, 0
  {
    hide *;
    var a, b, c := MemberTokens(s, i, j, m);
    var a', b', c' := MemberTokens(s, i, k, n);
    SameToken(s, a, m.key, b, n.key, b');
    PaddedUnique(s, c + 1, j, k, m.value, n.value);
  }

  /** The first member, the delimiter behind it and, after a comma, the others. */
  lemma FirstMember(s: Bytes, i: nat, j: nat, ms: seq<Member>) returns (k: nat)
    requires ms != [] && i <= j < |s| && s[j] == RIGHT_BRACE && MembersAt(s, i, j, ms)
    ensures i <= k <= j && MemberAt(s, i, k, ms[0]) && Ends(s, k)
    ensures if |ms| == 1 then k == j else k < j && s[k] == COMMA && MembersAt(s, k + 1, j, ms[1..])
    ensures s[k] == COMMA <==> |ms| > 1
  {
    hide MemberAt, PaddedAt, ValueAt, MembersAt, StringAt;
    if |ms| == 1 {
      OneMember(s, i, j, ms);
      k := j;
    } else {
      k := MembersParts(s, i, j, ms);
    }
  }

  lemma {:induction false} MembersUnique(s: Bytes, i: nat, j: nat, k: nat, ms: seq<Member>, ns: seq<Member>)
    requires ms != [] && i <= j < |s| && s[j] == RIGHT_BRACE && MembersAt(s, i, j, ms)
    requires ns != [] && i <= k < |s| && s[k] == RIGHT_BRACE && MembersAt(s, i, k, ns)
    ensures j == k && ms == ns
    decreases ms, 0
  {
    hide *;
    var a := FirstMember(s, i, j, ms);
    var b := FirstMember(s, i, k, ns);
    MemberUnique(s, i, a, b, ms[0], ns[0]);
    assert ms == [ms[0]] + ms[1..] && ns == [ns[0]] + ns[1..];
    if |ms| > 1 {
      MembersUnique(s, a + 1, j, k, ms[1..], ns[1..]);
    }
  }

  // ---------- The whole text ----------

  /** A text denotes at most one value of the grammar, however deep, repeated keys included. */
  lemma Unambiguous(s: Bytes, v: Json, w: Json)
    requires JsonText(s, v) && JsonText(s, w)
    ensures v == w
  {
    PaddedUnique(s, 0, |s|, |s|, v, w);
  }
}
