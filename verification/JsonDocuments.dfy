/**
 * The texts of RFC 8259 from the other side: a printer of documents, with every freedom of layout that the
 * format leaves. The library reads exactly what can be printed, and reads back what was printed.
 */
module JsonDocuments {
  import opened Core
  import opened Utf8
  import opened JsonGrammar
  import opened JsonReader
  import opened JsonTokens
  import opened JsonCompleteness
  import opened JsonPrinter

  // ---------- Documents: sections 2 to 5 ----------

  /** A value with the way it is laid out. */
  datatype Doc =
    | NullDoc
    | BoolDoc(b: bool)
    | NumberDoc(text: Bytes)
    | StringDoc(pieces: seq<Piece>, text: Bytes)
    | ArrayDoc(blank: Bytes, items: seq<Item>)
    | ObjectDoc(blank: Bytes, fields: seq<Field>)

  datatype Item = Item(before: Bytes, doc: Doc, after: Bytes)

  datatype Field = Field(before: Bytes, pieces: seq<Piece>, key: Bytes, between: Bytes, item: Item)

  ghost predicate Blank(t: Bytes) {
    forall k :: 0 <= k < |t| ==> t[k] == 0x20 || t[k] == 0x09 || t[k] == 0x0A || t[k] == 0x0D
  }

  ghost predicate Legal(d: Doc) {
    match d
    case NumberDoc(text) => NumberText(text)
    case StringDoc(pieces, text) => MeanAll(pieces, text)
    case ArrayDoc(blank, items) => Blank(blank) && forall k :: 0 <= k < |items| ==> LegalItem(items[k])
    case ObjectDoc(blank, fields) => Blank(blank) && forall k :: 0 <= k < |fields| ==> LegalField(fields[k])
    case _ => true
  }

  ghost predicate LegalItem(item: Item) { Blank(item.before) && Legal(item.doc) && Blank(item.after) }

  ghost predicate LegalField(f: Field) {
    Blank(f.before) && MeanAll(f.pieces, f.key) && Blank(f.between) && LegalItem(f.item)
  }

  /** The value of a document, without its layout. */
  ghost function Value(d: Doc): Json {
    match d
    case NullDoc => Null
    case BoolDoc(b) => Boolean(b)
    case NumberDoc(text) => Number(text)
    case StringDoc(pieces, text) => String(text)
    case ArrayDoc(blank, items) => Array(Values(items))
    case ObjectDoc(blank, fields) => Object(Members(fields))
  }

  ghost function Values(items: seq<Item>): (vs: seq<Json>)
    ensures |vs| == |items|
  {
    if items == [] then [] else [Value(items[0].doc)] + Values(items[1..])
  }

  ghost function Members(fields: seq<Field>): (ms: seq<Member>)
    ensures |ms| == |fields|
  {
    if fields == [] then [] else [Member(fields[0].key, Value(fields[0].item.doc))] + Members(fields[1..])
  }

  ghost function Quoted(pieces: seq<Piece>): Bytes { [0x22] + WrittenAll(pieces) + [0x22] }

  ghost function Print(d: Doc): Bytes {
    match d
    case NullDoc => [0x6E, 0x75, 0x6C, 0x6C]
    case BoolDoc(b) => if b then [0x74, 0x72, 0x75, 0x65] else [0x66, 0x61, 0x6C, 0x73, 0x65]
    case NumberDoc(text) => text
    case StringDoc(pieces, text) => Quoted(pieces)
    case ArrayDoc(blank, items) => [0x5B] + (if items == [] then blank else PrintItems(items)) + [0x5D]
    case ObjectDoc(blank, fields) => [0x7B] + (if fields == [] then blank else PrintFields(fields)) + [0x7D]
  }

  ghost function PrintItem(item: Item): Bytes { item.before + Print(item.doc) + item.after }

  ghost function PrintField(f: Field): Bytes {
    f.before + Quoted(f.pieces) + f.between + [0x3A] + PrintItem(f.item)
  }

  ghost function PrintItems(items: seq<Item>): Bytes
    requires items != []
  {
    if |items| == 1 then PrintItem(items[0]) else PrintItem(items[0]) + [0x2C] + PrintItems(items[1..])
  }

  ghost function PrintFields(fields: seq<Field>): Bytes
    requires fields != []
  {
    if |fields| == 1 then PrintField(fields[0]) else PrintField(fields[0]) + [0x2C] + PrintFields(fields[1..])
  }

  // ---------- What is printed is derived ----------

  lemma BlankExact(s: Bytes, i: nat, j: nat)
    requires i <= j <= |s|
    ensures Blank(s[i..j]) <==> Ws(s, i, j)
  {
    if Blank(s[i..j]) {
      forall k | i <= k < j ensures IsWs(s[k]) {
        assert s[k] == s[i..j][k - i];
      }
    }
  }

  /** A text with one byte in the middle. */
  lemma Parted(s: Bytes, i: nat, j: nat, x: Bytes, b: uint8, y: Bytes)
    requires i <= j <= |s| && s[i..j] == x + [b] + y
    ensures var k := i + |x|; k < j && s[i..k] == x && s[k] == b && s[k + 1..j] == y
  {
    Divided(s, i, j, x + [b], y);
    Divided(s, i, i + |x| + 1, x, [b]);
    assert s[i + |x|..i + |x| + 1][0] == b;
  }

  lemma {:induction false} DocIsValue(s: Bytes, i: nat, j: nat, d: Doc)
    requires i <= j <= |s| && Legal(d) && s[i..j] == Print(d)
    ensures ValueAt(s, i, j, Value(d))
    decreases d, 1
  {
    match d {
      case NumberDoc(text) => NumberExact(s, i, j);
      case StringDoc(pieces, text) => QuotedIsString(s, i, j, pieces, text);
      case ArrayDoc(blank, items) => hide *; ArrayIsValue(s, i, j, d);
      case ObjectDoc(blank, fields) => hide *; ObjectIsValue(s, i, j, d);
      case _ =>
    }
  }

  lemma {:induction false} ArrayIsValue(s: Bytes, i: nat, j: nat, d: Doc)
    requires i <= j <= |s| && Legal(d) && d.ArrayDoc? && s[i..j] == Print(d)
    ensures ValueAt(s, i, j, Value(d))
    decreases d, 0
  {
    hide Blank, LegalItem, Values, PrintItems, ElementsAt;
    Framed(s, i, j, 0x5B, if d.items == [] then d.blank else PrintItems(d.items), 0x5D);
    if d.items == [] { BlankExact(s, i + 1, j - 1); } else { ItemsAreElements(s, i + 1, j - 1, d.items); }
  }

  lemma {:induction false} ObjectIsValue(s: Bytes, i: nat, j: nat, d: Doc)
    requires i <= j <= |s| && Legal(d) && d.ObjectDoc? && s[i..j] == Print(d)
    ensures ValueAt(s, i, j, Value(d))
    decreases d, 0
  {
    hide Blank, LegalField, Members, PrintFields, MembersAt;
    Framed(s, i, j, 0x7B, if d.fields == [] then d.blank else PrintFields(d.fields), 0x7D);
    if d.fields == [] { BlankExact(s, i + 1, j - 1); } else { FieldsAreMembers(s, i + 1, j - 1, d.fields); }
  }

  lemma {:induction false} ItemIsPadded(s: Bytes, i: nat, j: nat, item: Item)
    requires i <= j <= |s| && LegalItem(item) && s[i..j] == PrintItem(item)
    ensures PaddedAt(s, i, j, Value(item.doc))
    decreases item, 0
  {
    hide Blank, Print, Value, ValueAt, Ws, Legal;
    Divided(s, i, j, item.before + Print(item.doc), item.after);
    var a := i + |item.before|;
    var b := a + |Print(item.doc)|;
    Divided(s, i, b, item.before, Print(item.doc));
    BlankExact(s, i, a);
    BlankExact(s, b, j);
    DocIsValue(s, a, b, item.doc);
  }

  lemma {:induction false} ItemsAreElements(s: Bytes, i: nat, j: nat, items: seq<Item>)
    requires i <= j <= |s| && items != [] && s[i..j] == PrintItems(items)
    requires forall k :: 0 <= k < |items| ==> LegalItem(items[k])
    ensures ElementsAt(s, i, j, Values(items))
    decreases items, 0
  {
    hide PrintItem, PaddedAt, Value, LegalItem;
    if |items| == 1 {
      ItemIsPadded(s, i, j, items[0]);
    } else {
      var k := i + |PrintItem(items[0])|;
      Parted(s, i, j, PrintItem(items[0]), 0x2C, PrintItems(items[1..]));
      hide PrintItems;
      ItemIsPadded(s, i, k, items[0]);
      ItemsAreElements(s, k + 1, j, items[1..]);
      assert Values(items)[1..] == Values(items[1..]);
    }
  }

  lemma {:induction false} FieldIsMember(s: Bytes, i: nat, j: nat, f: Field)
    requires i <= j <= |s| && LegalField(f) && s[i..j] == PrintField(f)
    ensures MemberAt(s, i, j, Member(f.key, Value(f.item.doc)))
    decreases f, 0
  {
    hide Blank, MeanAll, WrittenAll, PrintItem, PaddedAt, Value, LegalItem, StringAt, Ws;
    var c := i + |f.before + Quoted(f.pieces) + f.between|;
    Parted(s, i, j, f.before + Quoted(f.pieces) + f.between, 0x3A, PrintItem(f.item));
    Divided(s, i, c, f.before + Quoted(f.pieces), f.between);
    var a := i + |f.before|;
    var b := a + |Quoted(f.pieces)|;
    Divided(s, i, b, f.before, Quoted(f.pieces));
    BlankExact(s, i, a);
    QuotedIsString(s, a, b, f.pieces, f.key);
    BlankExact(s, b, c);
    ItemIsPadded(s, c + 1, j, f.item);
  }

  lemma {:induction false} FieldsAreMembers(s: Bytes, i: nat, j: nat, fields: seq<Field>)
    requires i <= j <= |s| && fields != [] && s[i..j] == PrintFields(fields)
    requires forall k :: 0 <= k < |fields| ==> LegalField(fields[k])
    ensures MembersAt(s, i, j, Members(fields))
    decreases fields, 0
  {
    hide PrintField, MemberAt, Value, LegalField;
    if |fields| == 1 {
      FieldIsMember(s, i, j, fields[0]);
    } else {
      var k := i + |PrintField(fields[0])|;
      Parted(s, i, j, PrintField(fields[0]), 0x2C, PrintFields(fields[1..]));
      FieldIsMember(s, i, k, fields[0]);
      FieldsAreMembers(s, k + 1, j, fields[1..]);
      assert Members(fields)[1..] == Members(fields[1..]);
    }
  }

  // ---------- What is derived is printed ----------

  lemma {:induction false} ValueIsDoc(s: Bytes, i: nat, j: nat, v: Json) returns (d: Doc)
    requires i <= j <= |s| && ValueAt(s, i, j, v)
    ensures Legal(d) && s[i..j] == Print(d) && Value(d) == v
    decreases v, 1
  {
    hide NumberText, NumberAt, MeanAll, WrittenAll;
    match v {
      case Null => d := NullDoc;
      case Boolean(b) => d := BoolDoc(b);
      case Number(text) =>
        NumberExact(s, i, j);
        d := NumberDoc(text);
      case String(text) =>
        var pieces := StringIsQuoted(s, i, j, text);
        d := StringDoc(pieces, text);
      case Array(vs) => hide *; d := ArrayIsDoc(s, i, j, v);
      case Object(ms) => hide *; d := ObjectIsDoc(s, i, j, v);
    }
  }

  lemma {:induction false} ArrayIsDoc(s: Bytes, i: nat, j: nat, v: Json) returns (d: Doc)
    requires i <= j <= |s| && v.Array? && ValueAt(s, i, j, v)
    ensures Legal(d) && s[i..j] == Print(d) && Value(d) == v
    decreases v, 0
  {
    assert Blank([]);
    hide Blank, LegalItem, PrintItems, ElementsAt;
    if v.elements == [] {
      BlankExact(s, i + 1, j - 1);
      d := ArrayDoc(s[i + 1..j - 1], []);
      Framed(s, i, j, 0x5B, s[i + 1..j - 1], 0x5D);
    } else {
      var items := ElementsAreItems(s, i + 1, j - 1, v.elements);
      d := ArrayDoc([], items);
      hide Values;
      Framed(s, i, j, 0x5B, PrintItems(items), 0x5D);
    }
  }

  lemma {:induction false} ObjectIsDoc(s: Bytes, i: nat, j: nat, v: Json) returns (d: Doc)
    requires i <= j <= |s| && v.Object? && ValueAt(s, i, j, v)
    ensures Legal(d) && s[i..j] == Print(d) && Value(d) == v
    decreases v, 0
  {
    assert Blank([]);
    hide Blank, LegalField, PrintFields, MembersAt;
    if v.members == [] {
      BlankExact(s, i + 1, j - 1);
      d := ObjectDoc(s[i + 1..j - 1], []);
      Framed(s, i, j, 0x7B, s[i + 1..j - 1], 0x7D);
    } else {
      var fields := MembersAreFields(s, i + 1, j - 1, v.members);
      d := ObjectDoc([], fields);
      hide Members;
      Framed(s, i, j, 0x7B, PrintFields(fields), 0x7D);
    }
  }

  lemma {:induction false} PaddedIsItem(s: Bytes, i: nat, j: nat, v: Json) returns (item: Item)
    requires i <= j <= |s| && PaddedAt(s, i, j, v)
    ensures LegalItem(item) && s[i..j] == PrintItem(item) && Value(item.doc) == v
    decreases v, 2
  {
    hide Blank, Legal, Print, Value, ValueAt;
    var a: nat, b: nat :| Ws(s, i, a) && a <= b <= j && ValueAt(s, a, b, v) && Ws(s, b, j);
    var d := ValueIsDoc(s, a, b, v);
    BlankExact(s, i, a);
    BlankExact(s, b, j);
    Joined(s, i, a, b);
    Joined(s, i, b, j);
    item := Item(s[i..a], d, s[b..j]);
  }

  lemma {:induction false} ElementsAreItems(s: Bytes, i: nat, j: nat, vs: seq<Json>) returns (items: seq<Item>)
    requires i <= j <= |s| && vs != [] && ElementsAt(s, i, j, vs)
    ensures items != [] && forall k :: 0 <= k < |items| ==> LegalItem(items[k])
    ensures s[i..j] == PrintItems(items) && Values(items) == vs
    decreases vs, 0
  {
    hide LegalItem, PrintItem, PaddedAt, Value;
    if |vs| == 1 {
      var item := PaddedIsItem(s, i, j, vs[0]);
      items := [item];
    } else {
      var k := ElementsParts(s, i, j, vs);
      var item := PaddedIsItem(s, i, k, vs[0]);
      var rest := ElementsAreItems(s, k + 1, j, vs[1..]);
      items := [item] + rest;
      assert items[1..] == rest;
      Joined(s, i, k, k + 1);
      Joined(s, i, k + 1, j);
    }
  }

  lemma {:induction false} MemberIsField(s: Bytes, i: nat, j: nat, m: Member) returns (f: Field)
    requires i <= j <= |s| && MemberAt(s, i, j, m)
    ensures LegalField(f) && s[i..j] == PrintField(f) && Member(f.key, Value(f.item.doc)) == m
    decreases m, 0
  {
    hide Blank, MeanAll, WrittenAll, LegalItem, PrintItem, PaddedAt, Value, StringAt, Ws;
    var a, b, c := MemberParts(s, i, j, m);
    var pieces := StringIsQuoted(s, a, b, m.key);
    var item := PaddedIsItem(s, c + 1, j, m.value);
    WsBounds(s, i, a);
    WsBounds(s, b, c);
    BlankExact(s, i, a);
    BlankExact(s, b, c);
    Joined(s, i, a, b);
    Joined(s, i, b, c);
    Joined(s, i, c, c + 1);
    Joined(s, i, c + 1, j);
    f := Field(s[i..a], pieces, m.key, s[b..c], item);
  }

  lemma WsBounds(s: Bytes, i: nat, j: nat)
    requires Ws(s, i, j)
    ensures i <= j <= |s|
  {
  }

  lemma {:induction false} MembersAreFields(s: Bytes, i: nat, j: nat, ms: seq<Member>) returns (fields: seq<Field>)
    requires i <= j <= |s| && ms != [] && MembersAt(s, i, j, ms)
    ensures fields != [] && forall k :: 0 <= k < |fields| ==> LegalField(fields[k])
    ensures s[i..j] == PrintFields(fields) && Members(fields) == ms
    decreases ms, 0
  {
    hide LegalField, PrintField, MemberAt, Value;
    if |ms| == 1 {
      var f := MemberIsField(s, i, j, ms[0]);
      fields := [f];
    } else {
      var k := MembersParts(s, i, j, ms);
      var f := MemberIsField(s, i, k, ms[0]);
      var rest := MembersAreFields(s, k + 1, j, ms[1..]);
      fields := [f] + rest;
      assert fields[1..] == rest;
      Joined(s, i, k, k + 1);
      Joined(s, i, k + 1, j);
    }
  }

  // ---------- The library and the printer ----------

  /** A text of the grammar is a printed document between blanks. */
  lemma TextIsPrinted(s: Bytes, v: Json)
    ensures JsonText(s, v) <==> exists item :: LegalItem(item) && PrintItem(item) == s && Value(item.doc) == v
  {
    assert s[0..|s|] == s;
    if JsonText(s, v) {
      var item := PaddedIsItem(s, 0, |s|, v);
    }
    if item :| LegalItem(item) && PrintItem(item) == s && Value(item.doc) == v {
      ItemIsPadded(s, 0, |s|, item);
    }
  }

  /** The containers around the deepest value. */
  ghost function Nesting(v: Json): nat {
    match v
    case Array(vs) => ElementsNesting(vs)
    case Object(ms) => MembersNesting(ms)
    case _ => 0
  }

  ghost function ElementsNesting(vs: seq<Json>): nat {
    if vs == [] then 0
    else
      var here, rest := 1 + Nesting(vs[0]), ElementsNesting(vs[1..]);
      if here >= rest then here else rest
  }

  ghost function MembersNesting(ms: seq<Member>): nat {
    if ms == [] then 0
    else
      var here, rest := 1 + Nesting(ms[0].value), MembersNesting(ms[1..]);
      if here >= rest then here else rest
  }

  lemma {:induction false} NestingExact(v: Json, depth: nat)
    ensures Fits(v, depth) <==> depth + Nesting(v) <= 64
    decreases v, 0
  {
    match v {
      case Array(vs) => if depth <= 64 { ElementsNestingExact(vs, depth); }
      case Object(ms) => if depth <= 64 { MembersNestingExact(ms, depth); }
      case _ =>
    }
  }

  lemma {:induction false} ElementsNestingExact(vs: seq<Json>, depth: nat)
    requires depth <= 64
    ensures (forall k :: 0 <= k < |vs| ==> Fits(vs[k], depth + 1)) <==> depth + ElementsNesting(vs) <= 64
    decreases vs, 0
  {
    if vs == [] {
    } else {
      NestingExact(vs[0], depth + 1);
      ElementsNestingExact(vs[1..], depth);
      assert vs == [vs[0]] + vs[1..];
      hide Fits, Nesting;
      assert (forall k :: 0 <= k < |vs[1..]| ==> Fits(vs[1..][k], depth + 1)) <==>
        (forall k :: 1 <= k < |vs| ==> Fits(vs[k], depth + 1)) by {
        assert forall k :: 1 <= k < |vs| ==> vs[k] == vs[1..][k - 1];
      }
    }
  }

  lemma {:induction false} MembersNestingExact(ms: seq<Member>, depth: nat)
    requires depth <= 64
    ensures (forall k :: 0 <= k < |ms| ==> Fits(ms[k].value, depth + 1)) <==> depth + MembersNesting(ms) <= 64
    decreases ms, 0
  {
    if ms == [] {
    } else {
      NestingExact(ms[0].value, depth + 1);
      MembersNestingExact(ms[1..], depth);
      hide Fits, Nesting;
      assert (forall k :: 0 <= k < |ms[1..]| ==> Fits(ms[1..][k].value, depth + 1)) <==>
        (forall k :: 1 <= k < |ms| ==> Fits(ms[k].value, depth + 1)) by {
        assert forall k :: 1 <= k < |ms| ==> ms[k] == ms[1..][k - 1];
      }
    }
  }

  /**
   * The library accepts exactly the printed documents that are valid UTF-8, nest at most 64 deep and repeat no
   * key in an object, and returns their values: whatever the layout and whatever the escapes, and nothing else.
   */
  lemma ReadsThePrinted(s: Bytes, v: Json)
    ensures ReadJson(s) == Success(v) <==>
      && Valid(s) && Nesting(v) <= 64 && UniqueKeys(v)
      && exists item :: LegalItem(item) && PrintItem(item) == s && Value(item.doc) == v
  {
    ParseExact(s, v);
    TextIsPrinted(s, v);
    NestingExact(v, 0);
  }
}
