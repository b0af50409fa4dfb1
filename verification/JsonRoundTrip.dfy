/** Printing an element and reading the text back. */
module JsonRoundTrip {
  import opened JsonSpec
  import opened JsonStrings

  // ----- what is printed, and what comes back -----

  /** A lexeme that the number parser takes whole, with the kind it gives it. Every number of the grammar
      in section 6 of RFC 8259 is one (JsonReading.GrammarNumber), and so is whatever the parser itself
      keeps (JsonReading.NumberKeepsLexeme). */
  predicate NumberLexeme(kind: Kind, text: string) {
    text != "" && StartsNumber(text[0]) && ParseNumber(text) == Ok(Prim(kind, text), "")
  }

  predicate ValidPrim(kind: Kind, text: string) {
    match kind
    case StringKind => Bytes(text)
    case IntegerKind => NumberLexeme(kind, text)
    case RealKind => NumberLexeme(kind, text)
    case BoolKind => text == "true" || text == "false"
    case NullKind => text == "null"
  }

  predicate UniqueNames(members: seq<Member>) {
    forall i, j :: 0 <= i < j < |members| ==> members[i].name != members[j].name
  }

  /** An element as the constructors of the library build it. */
  predicate Valid(j: Json)
    decreases j
  {
    match j
    case Prim(kind, text) => ValidPrim(kind, text)
    case Arr(items) => forall i :: 0 <= i < |items| ==> Valid(items[i])
    case Obj(members) =>
      && UniqueNames(members)
      && forall i :: 0 <= i < |members| ==> Bytes(members[i].name) && Valid(members[i].value)
  }

  /** What reading the printed element gives. */
  function Back(j: Json): Json
    decreases j
  {
    match j
    case Prim(kind, text) => if kind == StringKind then Prim(kind, Reread(text)) else j
    case Arr(items) => Arr(BackItems(items))
    case Obj(members) => Obj(BackMembers([], members))
  }

  function BackItems(items: seq<Json>): (r: seq<Json>)
    ensures |r| == |items|
    decreases items
  {
    if items == [] then [] else [Back(items[0])] + BackItems(items[1..])
  }

  function BackMembers(done: seq<Member>, members: seq<Member>): seq<Member>
    decreases members
  {
    if members == [] then done
    else BackMembers(Appended(done, Kept(members[0].name), Back(members[0].value)), members[1..])
  }

  // ----- primitives -----

  lemma {:induction false} NumberReads(data: string, n: Scan, out: string, rest: string)
    requires NumberBody(data, n, out).Ok? && NumberBody(data, n, out).rest == ""
    requires EndsHere(rest)
    ensures NumberBody(data + rest, n, out) == Ok(NumberBody(data, n, out).value, rest)
    ensures data != "" ==> AnyDigit(data[|data| - 1])
    ensures data == "" ==> AnyDigit(n.prev)
    decreases |data|
  {
    if data == "" {
      assert data + rest == rest;
    } else {
      var m := NumberStep(n, data[0]).value;
      assert (data + rest)[1..] == data[1..] + rest;
      NumberReads(data[1..], m, out + [data[0]], rest);
      assert m.prev == data[0];
    }
  }

  lemma WordReads(word: string, rest: string)
    requires EndsHere(rest)
    ensures WordNext(word + rest, word)
  {
    assert (word + rest)[|word|..] == rest;
  }

  lemma StringReads(s: string, rest: string)
    ensures ParseString(Quoted(s) + rest) == Ok(Kept(s), rest)
  {
    hide StringBody, Encoded, Kept;
    ReadEncoded(s, rest, "");
    assert (Quoted(s) + rest)[1..] == Encoded(s) + "\"" + rest;
    assert "" + Kept(s) == Kept(s);
  }

  /** An element's text begins with none of the punctuation that the container loops look for, and
      ends with none of it. */
  predicate Opener(c: char) {
    !IsWhitespace(c) && c != ']' && c != ',' && c != '}' && c != ':'
  }

  predicate Closer(c: char) { c != ',' && c != '[' && c != ':' && c != '{' }

  predicate Framed(text: string) {
    text != "" && Opener(text[0]) && Closer(text[|text| - 1])
  }

  predicate ReadsAs(text: string, rest: string, j: Json) {
    Framed(text) && ParseValue(text + rest) == Ok(j, rest)
  }

  lemma StringPrimReads(text: string, rest: string)
    ensures ReadsAs(Quoted(text), rest, Prim(StringKind, Reread(text)))
  {
    hide ParseString, Encoded, Reread;
    StringReads(text, rest);
    assert (Quoted(text) + rest)[0] == '"';
    assert Reread(text) == Decoded(Kept(text)) by {
      RereadIs(text);
    }
  }

  lemma RereadIs(text: string)
    ensures Reread(text) == Decoded(Kept(text))
  {
  }

  lemma NumberPrimReads(kind: Kind, text: string, rest: string)
    requires NumberLexeme(kind, text) && EndsHere(rest)
    ensures ReadsAs(text, rest, Prim(kind, text))
  {
    hide NumberBody;
    NumberReads(text, SCAN_START, "", rest);
    assert (text + rest)[0] == text[0];
  }

  lemma WordPrimReads(kind: Kind, text: string, rest: string)
    requires EndsHere(rest)
    requires (kind == BoolKind && (text == "true" || text == "false")) || (kind == NullKind && text == "null")
    ensures ReadsAs(text, rest, Prim(kind, text))
  {
    hide NumberBody;
    WordReads(text, rest);
    assert (text + rest)[|text|..] == rest;
    assert (text + rest)[0] == text[0];
  }

  lemma PrimReads(kind: Kind, text: string, rest: string)
    requires ValidPrim(kind, text) && EndsHere(rest)
    ensures ReadsAs(PrimText(kind, text), rest, Back(Prim(kind, text)))
  {
    hide ReadsAs, Quoted, Reread;
    match kind
    case StringKind => StringPrimReads(text, rest);
    case IntegerKind => NumberPrimReads(kind, text, rest);
    case RealKind => NumberPrimReads(kind, text, rest);
    case BoolKind => WordPrimReads(kind, text, rest);
    case NullKind => WordPrimReads(kind, text, rest);
  }

  // ----- whitespace -----

  predicate AllBlank(s: string) { forall i :: 0 <= i < |s| ==> IsWhitespace(s[i]) }

  lemma {:induction false} SpacesAreBlank(n: nat)
    ensures AllBlank(Spaces(n))
  {
    if n > 0 {
      SpacesAreBlank(n - 1);
    }
  }

  lemma BreakIsBlank(style: Style)
    ensures AllBlank(style.Break())
  {
    if style.Pretty? {
      SpacesAreBlank(style.level * SPACES_PER_INDENT);
    }
  }

  lemma {:induction false} ArraySkip(blank: string, data: string, prev: char, items: seq<Json>)
    requires AllBlank(blank)
    ensures ArrayBody(blank + data, prev, items) == ArrayBody(data, prev, items)
    decreases |blank|
  {
    if blank == "" {
      assert blank + data == data;
    } else {
      assert (blank + data)[1..] == blank[1..] + data;
      ArraySkip(blank[1..], data, prev, items);
    }
  }

  lemma {:induction false} ObjectSkip(blank: string, data: string, prev: char, name: Option<string>,
                                      members: seq<Member>)
    requires AllBlank(blank)
    ensures ObjectBody(blank + data, prev, name, members) == ObjectBody(data, prev, name, members)
    decreases |blank|
  {
    if blank == "" {
      assert blank + data == data;
    } else {
      assert (blank + data)[1..] == blank[1..] + data;
      ObjectSkip(blank[1..], data, prev, name, members);
    }
  }

  // ----- arrays -----

  lemma ArrayOne(text: string, tail: string, j: Json, prev: char, items: seq<Json>)
    requires ReadsAs(text, tail, j) && (prev == '[' || prev == ',')
    ensures ArrayBody(text + tail, prev, items) == ArrayBody(tail, text[|text| - 1], items + [j])
  {
    assert (text + tail)[0] == text[0];
    assert LastRead(text + tail, tail) == text[|text| - 1];
  }

  lemma ArrayComma(tail: string, prev: char, items: seq<Json>)
    requires Closer(prev)
    ensures ArrayBody("," + tail, prev, items) == ArrayBody(tail, ',', items)
  {
    assert ("," + tail)[1..] == tail;
  }

  lemma ArrayClose(style: Style, rest: string, prev: char, items: seq<Json>)
    ensures ArrayBody(style.Break() + "]" + rest, prev, items) == Ok(Arr(items), rest)
    ensures EndsHere(style.Break() + "]" + rest)
  {
    BreakIsBlank(style);
    assert style.Break() + "]" + rest == style.Break() + ("]" + rest);
    ArraySkip(style.Break(), "]" + rest, prev, items);
    assert ("]" + rest)[1..] == rest;
  }

  function ItemsTail(items: seq<Json>, style: Style, rest: string): string
    requires items != []
  {
    (if |items| == 1 then "" else ",") + (ItemsText(items[1..], style) + style.Break() + "]" + rest)
  }

  lemma {:induction false} ItemRead(items: seq<Json>, style: Style, rest: string, prev: char, done: seq<Json>)
    requires items != [] && Valid(items[0])
    requires prev == '[' || prev == ','
    ensures var text := Text(items[0], style.Inner());
      && Framed(text)
      && ArrayBody(ItemsText(items, style) + style.Break() + "]" + rest, prev, done)
      == ArrayBody(ItemsTail(items, style, rest), text[|text| - 1], done + [Back(items[0])])
    decreases items, 0
  {
    hide ArrayBody, ParseValue, Text, Style.Break, Valid, Framed, ItemsText, ItemsTail;
    var pad, text, tail := style.Inner().Break(), Text(items[0], style.Inner()), ItemsTail(items, style, rest);
    ItemText(items, style, rest);
    BreakIsBlank(style.Inner());
    ArraySkip(pad, text + tail, prev, done);
    ItemsTailEnds(items, style, rest);
    Reads(items[0], style.Inner(), tail);
    ArrayOne(text, tail, Back(items[0]), prev, done);
  }

  lemma LastTail(items: seq<Json>, style: Style, rest: string)
    requires |items| == 1
    ensures ItemsTail(items, style, rest) == style.Break() + "]" + rest
  {
  }

  lemma ItemsTailEnds(items: seq<Json>, style: Style, rest: string)
    requires items != []
    ensures EndsHere(ItemsTail(items, style, rest))
  {
    hide ArrayBody;
    if |items| == 1 {
      ArrayClose(style, rest, '[', []);
      LastTail(items, style, rest);
    }
  }

  lemma ItemText(items: seq<Json>, style: Style, rest: string)
    requires items != []
    ensures ItemsText(items, style) + style.Break() + "]" + rest
         == style.Inner().Break() + (Text(items[0], style.Inner()) + ItemsTail(items, style, rest))
  {
    hide Text, Style.Break;
    var a, b, c := style.Inner().Break(), Text(items[0], style.Inner()), if |items| == 1 then "" else ",";
    var it, brk := ItemsText(items[1..], style), style.Break();
    assert ItemsText(items, style) == a + b + c + it;
    assert ItemsTail(items, style, rest) == c + (it + brk + "]" + rest);
    hide ItemsText, ItemsTail;
    Regrouped(a, b, c, it, brk, "]", rest);
  }

  lemma Regrouped(a: string, b: string, c: string, d: string, e: string, f: string, g: string)
    ensures a + b + c + d + e + f + g == a + (b + (c + (d + e + f + g)))
  {
    assert d + e + f + g == d + (e + f + g);
    Regroup(a, b, c, d, e + f + g);
  }

  lemma {:induction false} ItemsRead(items: seq<Json>, style: Style, rest: string, prev: char, done: seq<Json>)
    requires items != [] && (forall i :: 0 <= i < |items| ==> Valid(items[i]))
    requires prev == '[' || prev == ','
    ensures ArrayBody(ItemsText(items, style) + style.Break() + "]" + rest, prev, done)
         == Ok(Arr(done + BackItems(items)), rest)
    decreases items
  {
    hide ArrayBody, Text, Style.Break, Valid, ItemsText, Back;
    ItemRead(items, style, rest, prev, done);
    var text, next := Text(items[0], style.Inner()), done + [Back(items[0])];
    if |items| == 1 {
      LastTail(items, style, rest);
      ArrayClose(style, rest, text[|text| - 1], next);
      assert done + BackItems(items) == next;
    } else {
      ArrayComma(ItemsText(items[1..], style) + style.Break() + "]" + rest, text[|text| - 1], next);
      ItemsRead(items[1..], style, rest, ',', next);
      assert next + BackItems(items[1..]) == done + BackItems(items);
    }
  }

  lemma ArrayReads(body: string, rest: string, items: seq<Json>)
    requires ArrayBody(body + "]" + rest, '[', []) == Ok(Arr(items), rest)
    ensures ReadsAs("[" + body + "]", rest, Arr(items))
  {
    hide ArrayBody;
    var data := "[" + body + "]" + rest;
    assert data[0] == '[' && data[1..] == body + "]" + rest;
  }

  // ----- objects -----

  lemma ObjectKey(name: string, colon: string, tail: string, prev: char, members: seq<Member>)
    requires (prev == '{' || prev == ',') && (colon == ":" || colon == ": ")
    ensures ObjectBody(Quoted(name) + colon + tail, prev, None, members)
         == ObjectBody(tail, ':', Some(Kept(name)), members)
  {
    hide ObjectBody, ParseString, Quoted, Kept;
    KeyIsQuoted(name, colon + tail);
    assert Quoted(name) + (colon + tail) == Quoted(name) + colon + tail;
    StringReads(name, colon + tail);
    KeyStep(Quoted(name) + (colon + tail), colon + tail, prev, Kept(name), members);
    ColonStep(colon, tail, Kept(name), members);
  }

  lemma KeyIsQuoted(name: string, rest: string)
    ensures Quoted(name) + rest != "" && (Quoted(name) + rest)[0] == '"'
  {
  }

  /** A quoted key. */
  lemma KeyStep(data: string, rest: string, prev: char, key: string, members: seq<Member>)
    requires data != "" && data[0] == '"' && (prev == '{' || prev == ',') && ParseString(data) == Ok(key, rest)
    ensures ObjectBody(data, prev, None, members) == ObjectBody(rest, '"', Some(key), members)
  {
  }

  /** The colon after it, with or without a blank. */
  lemma ColonStep(colon: string, tail: string, key: string, members: seq<Member>)
    requires colon == ":" || colon == ": "
    ensures ObjectBody(colon + tail, '"', Some(key), members) == ObjectBody(tail, ':', Some(key), members)
  {
    assert (colon + tail)[0] == ':' && (colon + tail)[1..] == colon[1..] + tail;
    ObjectSkip(colon[1..], tail, ':', Some(key), members);
  }

  lemma ObjectValue(text: string, tail: string, j: Json, name: string, members: seq<Member>)
    requires ReadsAs(text, tail, j)
    ensures ObjectBody(text + tail, ':', Some(name), members)
         == ObjectBody(tail, text[|text| - 1], None, Appended(members, name, j))
  {
    assert (text + tail)[0] == text[0];
    assert LastRead(text + tail, tail) == text[|text| - 1];
  }

  lemma ObjectComma(tail: string, prev: char, members: seq<Member>)
    requires Closer(prev)
    ensures ObjectBody("," + tail, prev, None, members) == ObjectBody(tail, ',', None, members)
  {
    assert ("," + tail)[1..] == tail;
  }

  lemma ObjectClose(style: Style, rest: string, prev: char, members: seq<Member>)
    ensures ObjectBody(style.Break() + "}" + rest, prev, None, members) == Ok(Obj(members), rest)
    ensures EndsHere(style.Break() + "}" + rest)
  {
    BreakIsBlank(style);
    assert style.Break() + "}" + rest == style.Break() + ("}" + rest);
    ObjectSkip(style.Break(), "}" + rest, prev, None, members);
    assert ("}" + rest)[1..] == rest;
  }

  lemma {:induction false} MembersRead(members: seq<Member>, style: Style, rest: string, prev: char,
                                       done: seq<Member>)
    requires forall i :: 0 <= i < |members| ==> Valid(members[i].value)
    requires prev == '{' || (prev == ',' && members != [])
    ensures ObjectBody(MembersText(members, style) + style.Break() + "}" + rest, prev, None, done)
         == Ok(Obj(BackMembers(done, members)), rest)
    decreases members
  {
    hide ObjectBody, ParseValue, Text, Style.Break, Valid, Quoted, Kept, Appended;
    if members == [] {
      assert MembersText(members, style) + style.Break() + "}" + rest == style.Break() + "}" + rest;
      ObjectClose(style, rest, prev, done);
    } else {
      MemberRead(members, style, rest, prev, done);
      var text := Text(members[0].value, style.Inner());
      var next := Appended(done, Kept(members[0].name), Back(members[0].value));
      if |members| == 1 {
        assert MembersText(members[1..], style) == "";
        assert MembersTail(members, style, rest) == style.Break() + "}" + rest;
        ObjectClose(style, rest, text[|text| - 1], next);
      } else {
        ObjectComma(MembersText(members[1..], style) + style.Break() + "}" + rest, text[|text| - 1], next);
        MembersRead(members[1..], style, rest, ',', next);
      }
    }
  }

  function MembersTail(members: seq<Member>, style: Style, rest: string): string
    requires members != []
  {
    (if |members| == 1 then "" else ",") + (MembersText(members[1..], style) + style.Break() + "}" + rest)
  }

  lemma {:induction false} MemberRead(members: seq<Member>, style: Style, rest: string, prev: char,
                                      done: seq<Member>)
    requires members != [] && Valid(members[0].value)
    requires prev == '{' || prev == ','
    ensures var text := Text(members[0].value, style.Inner());
      && Framed(text)
      && ObjectBody(MembersText(members, style) + style.Break() + "}" + rest, prev, None, done)
      == ObjectBody(MembersTail(members, style, rest), text[|text| - 1], None,
                    Appended(done, Kept(members[0].name), Back(members[0].value)))
    decreases members, 0
  {
    hide ObjectBody, ParseValue, Text, Style.Break, Valid, Quoted, Kept, Appended, MembersTail, MembersText, Framed;
    var pad, text := style.Inner().Break(), Text(members[0].value, style.Inner());
    var key, colon, tail := Quoted(members[0].name), style.Colon(), MembersTail(members, style, rest);
    MemberText(members, style, rest);
    BreakIsBlank(style.Inner());
    ObjectSkip(pad, key + colon + (text + tail), prev, None, done);
    ObjectKey(members[0].name, colon, text + tail, prev, done);
    TailEnds(members, style, rest);
    Reads(members[0].value, style.Inner(), tail);
    ObjectValue(text, tail, Back(members[0].value), Kept(members[0].name), done);
  }

  lemma MemberText(members: seq<Member>, style: Style, rest: string)
    requires members != []
    ensures MembersText(members, style) + style.Break() + "}" + rest
         == style.Inner().Break()
            + (Quoted(members[0].name) + style.Colon()
               + (Text(members[0].value, style.Inner()) + MembersTail(members, style, rest)))
  {
    hide Text, Style.Break, Quoted, Style.Colon;
    Regroup(style.Inner().Break() + (Quoted(members[0].name) + style.Colon()), Text(members[0].value, style.Inner()),
            if |members| == 1 then "" else ",", MembersText(members[1..], style), style.Break() + "}" + rest);
    var pad, key, colon := style.Inner().Break(), Quoted(members[0].name), style.Colon();
    assert pad + key + colon == pad + (key + colon);
    var mt, brk := MembersText(members[1..], style), style.Break();
    assert mt + brk + "}" + rest == mt + (brk + "}" + rest);
    assert MembersText(members, style) + brk + "}" + rest == MembersText(members, style) + (brk + "}" + rest);
  }

  lemma Regroup(a: string, b: string, c: string, d: string, e: string)
    ensures a + b + c + d + e == a + (b + (c + (d + e)))
  {
  }

  lemma TailEnds(members: seq<Member>, style: Style, rest: string)
    requires members != []
    ensures EndsHere(MembersTail(members, style, rest))
  {
    hide ObjectBody;
    if |members| == 1 {
      ObjectClose(style, rest, '{', []);
      assert MembersTail(members, style, rest) == style.Break() + "}" + rest;
    }
  }

  lemma ObjectReads(body: string, rest: string, members: seq<Member>)
    requires ObjectBody(body + "}" + rest, '{', None, []) == Ok(Obj(members), rest)
    ensures ReadsAs("{" + body + "}", rest, Obj(members))
  {
    hide ObjectBody;
    var data := "{" + body + "}" + rest;
    assert data[0] == '{' && data[1..] == body + "}" + rest;
  }

  // ----- elements -----

  /** Whatever separator or end follows, the parser reads the printed element, no less and no more,
      in either style and at any level. */
  lemma {:induction false} Reads(j: Json, style: Style, rest: string)
    requires Valid(j) && EndsHere(rest)
    ensures ReadsAs(Text(j, style), rest, Back(j))
    decreases j
  {
    hide ArrayBody, ObjectBody, Style.Break, ReadsAs;
    match j
    case Prim(kind, text) => PrimReads(kind, text, rest);
    case Arr(items) =>
      if items == [] {
        ArrayClose(Compact, rest, '[', []);
        NoBreak(rest);
        ArrayReads("", rest, []);
        assert "[" + "" + "]" == "[]";
      } else {
        ItemsRead(items, style, rest, '[', []);
        assert [] + BackItems(items) == BackItems(items);
        ArrayReads(ItemsText(items, style) + style.Break(), rest, BackItems(items));
        assert "[" + (ItemsText(items, style) + style.Break()) + "]" == Text(j, style);
      }
    case Obj(members) =>
      MembersRead(members, style, rest, '{', []);
      ObjectReads(MembersText(members, style) + style.Break(), rest, BackMembers([], members));
      assert "{" + (MembersText(members, style) + style.Break()) + "}" == Text(j, style);
  }

  lemma NoBreak(rest: string)
    ensures Compact.Break() + "]" + rest == "" + "]" + rest
  {
  }
}
