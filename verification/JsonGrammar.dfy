/** The texts of RFC 8259: values with blanks around them, and what the parser reads them as. */
module JsonGrammar {
  import opened JsonSpec
  import opened JsonStrings
  import opened JsonRoundTrip
  import opened JsonReading
  import opened JsonEscapes

  /** Space, tab, line feed, carriage return. */
  predicate Blanks(s: string) { forall i :: 0 <= i < |s| ==> s[i] in " \t\n\r" }

  /** A value with the blanks before and after it. */
  datatype Doc = Doc(before: string, node: Node, after: string)

  /** An empty array or object may have blanks inside. */
  datatype Node = Str(glyphs: seq<Glyph>)
                | Num(number: Number)
                | True | False | Null
                | List(gap: string, docs: seq<Doc>)
                | Object(gap: string, pairs: seq<Pair>)

  /** A member: its key, with blanks before and after it, and its value. */
  datatype Pair = Pair(before: string, key: seq<Glyph>, gap: string, doc: Doc)

  predicate ValidDoc(d: Doc)
    decreases d
  {
    Blanks(d.before) && Blanks(d.after) && ValidNode(d.node)
  }

  predicate ValidNode(n: Node)
    decreases n
  {
    match n
    case Str(glyphs) => AllValid(glyphs)
    case Num(number) => number.Valid()
    case List(gap, docs) => Blanks(gap) && forall i :: 0 <= i < |docs| ==> ValidDoc(docs[i])
    case Object(gap, pairs) => Blanks(gap) && forall i :: 0 <= i < |pairs| ==> ValidPair(pairs[i])
    case _ => true
  }

  predicate ValidPair(p: Pair)
    decreases p
  {
    Blanks(p.before) && Blanks(p.gap) && AllValid(p.key) && ValidDoc(p.doc)
  }

  // ----- the text -----

  function DocText(d: Doc): string
    decreases d
  {
    d.before + NodeText(d.node) + d.after
  }

  function NodeText(n: Node): string
    decreases n
  {
    match n
    case Str(glyphs) => "\"" + Written(glyphs) + "\""
    case Num(number) => number.Text()
    case True => "true"
    case False => "false"
    case Null => "null"
    case List(gap, docs) => "[" + (if docs == [] then gap else DocsText(docs)) + "]"
    case Object(gap, pairs) => "{" + (if pairs == [] then gap else PairsText(pairs)) + "}"
  }

  function DocsText(docs: seq<Doc>): string
    requires docs != []
    decreases docs
  {
    DocText(docs[0]) + if |docs| == 1 then "" else "," + DocsText(docs[1..])
  }

  function PairText(p: Pair): string
    decreases p
  {
    p.before + "\"" + Written(p.key) + "\"" + p.gap + ":" + DocText(p.doc)
  }

  function PairsText(pairs: seq<Pair>): string
    requires pairs != []
    decreases pairs
  {
    PairText(pairs[0]) + if |pairs| == 1 then "" else "," + PairsText(pairs[1..])
  }

  // ----- the meaning -----

  /** Strings are read twice as values and once as keys; numbers keep their text; and of members with the same
      name the last one counts. */
  function Meaning(n: Node): Json
    decreases n
  {
    match n
    case Str(glyphs) => Prim(StringKind, Decoded(ReadOnce(glyphs)))
    case Num(number) => Prim(if number.frac.Some? then RealKind else IntegerKind, number.Text())
    case True => Prim(BoolKind, "true")
    case False => Prim(BoolKind, "false")
    case Null => Prim(NullKind, "null")
    case List(_, docs) => Arr(Meanings(docs))
    case Object(_, pairs) => Obj(LastOnes(MembersOf(pairs)))
  }

  function Meanings(docs: seq<Doc>): seq<Json>
    decreases docs
  {
    if docs == [] then [] else [Meaning(docs[0].node)] + Meanings(docs[1..])
  }

  function MembersOf(pairs: seq<Pair>): seq<Member>
    decreases pairs
  {
    if pairs == [] then [] else [Member(ReadOnce(pairs[0].key), Meaning(pairs[0].doc.node))] + MembersOf(pairs[1..])
  }

  predicate Named(members: seq<Member>, name: string) { exists i :: 0 <= i < |members| && members[i].name == name }

  /** The members that no later one has the name of. */
  function LastOnes(members: seq<Member>): seq<Member> {
    if members == [] then []
    else if Named(members[1..], members[0].name) then LastOnes(members[1..])
    else [members[0]] + LastOnes(members[1..])
  }

  // ----- repeated names -----

  /** Appending one member after another. */
  function AllAppended(done: seq<Member>, members: seq<Member>): seq<Member>
    decreases |members|
  {
    if members == [] then done
    else AllAppended(Appended(done, members[0].name, members[0].value), members[1..])
  }

  lemma {:induction false} LastOnesNames(members: seq<Member>)
    ensures UniqueNames(LastOnes(members))
    ensures forall name :: Named(LastOnes(members), name) <==> Named(members, name)
    decreases |members|
  {
    if members != [] {
      LastOnesNames(members[1..]);
      var rest := LastOnes(members[1..]);
      forall name ensures Named(LastOnes(members), name) <==> Named(members, name) {
        NamedFirst(members, name);
        if !Named(members[1..], members[0].name) {
          assert LastOnes(members)[1..] == rest;
          NamedFirst(LastOnes(members), name);
        }
      }
      if !Named(members[1..], members[0].name) {
        assert !Named(rest, members[0].name);
        assert forall i :: 0 <= i < |rest| ==> rest[i].name != members[0].name;
      }
    }
  }

  lemma NamedFirst(members: seq<Member>, name: string)
    requires members != []
    ensures Named(members, name) <==> members[0].name == name || Named(members[1..], name)
  {
    if i :| 0 <= i < |members| && members[i].name == name {
      assert i > 0 ==> members[1..][i - 1].name == name;
    }
    if i :| 0 <= i < |members[1..]| && members[1..][i].name == name {
      assert members[i + 1].name == name;
    }
  }

  lemma {:induction false} RemovedNone(members: seq<Member>, name: string)
    requires !Named(members, name)
    ensures RemoveKey(members, name) == members
    decreases |members|
  {
    if members != [] {
      NamedFirst(members, name);
      RemovedNone(members[1..], name);
    }
  }

  /** One more member at the end: an earlier one with its name is gone. */
  lemma {:induction false} LastOnesAppended(members: seq<Member>, m: Member)
    ensures LastOnes(members + [m]) == Appended(LastOnes(members), m.name, m.value)
    decreases |members|
  {
    if members == [] {
      assert [m][1..] == [];
    } else {
      var first, rest := members[0], members[1..];
      assert (members + [m])[1..] == rest + [m];
      LastOnesAppended(rest, m);
      NamedLast(rest, m, first.name);
      LastOnesNames(rest);
      if !Named(rest, first.name) && first.name == m.name {
        RemovedNone(LastOnes(rest), m.name);
      }
    }
  }

  lemma NamedLast(members: seq<Member>, m: Member, name: string)
    ensures Named(members + [m], name) <==> Named(members, name) || m.name == name
  {
    if i :| 0 <= i < |members| && members[i].name == name {
      assert (members + [m])[i].name == name;
    }
    if m.name == name {
      assert (members + [m])[|members|].name == name;
    }
    if i :| 0 <= i < |members + [m]| && (members + [m])[i].name == name {
      assert i < |members| ==> members[i].name == name;
    }
  }

  lemma {:induction false} AllAppendedIs(front: seq<Member>, members: seq<Member>)
    ensures AllAppended(LastOnes(front), members) == LastOnes(front + members)
    decreases |members|
  {
    if members == [] {
      assert front + members == front;
    } else {
      LastOnesAppended(front, members[0]);
      assert Member(members[0].name, members[0].value) == members[0];
      AllAppendedIs(front + [members[0]], members[1..]);
      assert front + [members[0]] + members[1..] == front + members;
    }
  }

  // ----- reading -----

  lemma BlanksAre(s: string)
    requires Blanks(s)
    ensures AllBlank(s) && forall i :: 0 <= i < |s| ==> IsSpace(s[i])
  {
    forall i | 0 <= i < |s| ensures IsWhitespace(s[i]) {
      assert s[i] in " \t\n\r";
    }
  }

  /** Behind a value there may be blanks, and then a comma, a closing bracket or brace, or the end. */
  lemma EndAfter(after: string, rest: string)
    requires Blanks(after) && (rest == "" || rest[0] == ',' || rest[0] == ']' || rest[0] == '}')
    ensures EndsHere(after + rest)
  {
    BlanksAre(after);
    if after == "" {
      assert after + rest == rest;
    } else {
      assert (after + rest)[0] == after[0];
    }
  }

  lemma ValidIsReadable(glyphs: seq<Glyph>)
    requires AllValid(glyphs)
    ensures AllReadable(glyphs)
  {
  }

  lemma StrReads(glyphs: seq<Glyph>, rest: string)
    requires AllReadable(glyphs)
    ensures ReadsAs("\"" + Written(glyphs) + "\"", rest, Prim(StringKind, Decoded(ReadOnce(glyphs))))
    ensures ParseString("\"" + Written(glyphs) + "\"" + rest) == Ok(ReadOnce(glyphs), rest)
  {
    hide StringBody, Written, ReadOnce, Decoded, AllReadable;
    var data := "\"" + Written(glyphs) + "\"" + rest;
    JsonEscapes.StringReads(glyphs, rest, "");
    assert data[1..] == Written(glyphs) + "\"" + rest;
    assert "" + ReadOnce(glyphs) == ReadOnce(glyphs);
  }

  lemma NumReads(x: Number, rest: string)
    requires x.Valid() && EndsHere(rest)
    ensures ReadsAs(x.Text(), rest, Prim(if x.frac.Some? then RealKind else IntegerKind, x.Text()))
  {
    hide NumberLexeme, EndsHere;
    GrammarNumber(x);
    NumberPrimReads(if x.frac.Some? then RealKind else IntegerKind, x.Text(), rest);
  }

  lemma {:induction false} NodeReads(n: Node, rest: string)
    requires ValidNode(n) && EndsHere(rest)
    ensures ReadsAs(NodeText(n), rest, Meaning(n))
    decreases n
  {
    hide ReadsAs, EndsHere, Number.Valid, Number.Text, AllValid, Decoded, DocsText, PairsText, Meanings, MembersOf;
    match n
    case Str(glyphs) =>
      ValidIsReadable(glyphs);
      StrReads(glyphs, rest);
    case Num(x) => NumReads(x, rest);
    case True => WordPrimReads(BoolKind, "true", rest);
    case False => WordPrimReads(BoolKind, "false", rest);
    case Null => WordPrimReads(NullKind, "null", rest);
    case List(gap, docs) =>
      if docs == [] {
        GapReads(gap, rest);
        NoMeanings();
      } else {
        DocsRead(docs, rest, '[', []);
        assert [] + Meanings(docs) == Meanings(docs);
        ArrayReads(DocsText(docs), rest, Meanings(docs));
      }
    case Object(gap, pairs) =>
      NothingYet(pairs);
      if pairs == [] {
        BraceReads(gap, rest);
      } else {
        PairsRead(pairs, rest, '{', []);
        ObjectReads(PairsText(pairs), rest, LastOnes(MembersOf(pairs)));
      }
  }

  lemma NoMeanings()
    ensures Meanings([]) == []
  {
  }

  lemma NothingYet(pairs: seq<Pair>)
    ensures AllAppended([], MembersOf(pairs)) == LastOnes(MembersOf(pairs))
    ensures pairs == [] ==> LastOnes(MembersOf(pairs)) == []
  {
    AllAppendedIs([], MembersOf(pairs));
    assert [] + MembersOf(pairs) == MembersOf(pairs);
  }

  lemma GapReads(gap: string, rest: string)
    requires Blanks(gap)
    ensures ReadsAs("[" + gap + "]", rest, Arr([]))
  {
    BlanksAre(gap);
    ArraySkip(gap, "]" + rest, '[', []);
    assert ("]" + rest)[1..] == rest && gap + "]" + rest == gap + ("]" + rest);
    ArrayReads(gap, rest, []);
  }

  lemma BraceReads(gap: string, rest: string)
    requires Blanks(gap)
    ensures ReadsAs("{" + gap + "}", rest, Obj([]))
  {
    BlanksAre(gap);
    ObjectSkip(gap, "}" + rest, '{', None, []);
    assert ("}" + rest)[1..] == rest && gap + "}" + rest == gap + ("}" + rest);
    ObjectReads(gap, rest, []);
  }

  /** One element of an array, with its blanks. */
  lemma {:induction false} DocRead(d: Doc, rest: string, prev: char, done: seq<Json>) returns (last: char)
    requires ValidDoc(d) && (prev == '[' || prev == ',')
    requires rest != "" && (rest[0] == ',' || rest[0] == ']')
    ensures Closer(last)
    ensures ArrayBody(DocText(d) + rest, prev, done) == ArrayBody(rest, last, done + [Meaning(d.node)])
    decreases d, 0
  {
    hide ArrayBody, ParseValue, Meaning, NodeText, ValidNode, EndsHere;
    var text, tail := NodeText(d.node), d.after + rest;
    BlanksAre(d.before);
    BlanksAre(d.after);
    EndAfter(d.after, rest);
    assert DocText(d) + rest == d.before + (text + tail);
    ArraySkip(d.before, text + tail, prev, done);
    NodeReads(d.node, tail);
    ArrayOne(text, tail, Meaning(d.node), prev, done);
    last := text[|text| - 1];
    ArraySkip(d.after, rest, last, done + [Meaning(d.node)]);
  }

  lemma {:induction false} DocsRead(docs: seq<Doc>, rest: string, prev: char, done: seq<Json>)
    requires docs != [] && (forall i :: 0 <= i < |docs| ==> ValidDoc(docs[i])) && (prev == '[' || prev == ',')
    ensures ArrayBody(DocsText(docs) + "]" + rest, prev, done) == Ok(Arr(done + Meanings(docs)), rest)
    decreases docs
  {
    hide ArrayBody, Meaning, DocText, ValidDoc, DocsText, Meanings;
    var next := done + [Meaning(docs[0].node)];
    assert docs[0] in docs;
    DocsFirst(docs, rest);
    MeaningsFirst(docs, done);
    if |docs| == 1 {
      var last := DocRead(docs[0], "]" + rest, prev, done);
      ArrayEnds(rest, last, next);
    } else {
      var more := DocsText(docs[1..]) + "]" + rest;
      var last := DocRead(docs[0], "," + more, prev, done);
      JsonRoundTrip.ArrayComma(more, last, next);
      DocsRead(docs[1..], rest, ',', next);
    }
  }

  lemma GlueLast(a: string, close: string, rest: string)
    ensures a + "" + close + rest == a + (close + rest)
  {
  }

  lemma GlueMore(a: string, b: string, close: string, rest: string)
    ensures a + ("," + b) + close + rest == a + ("," + (b + close + rest))
  {
  }

  /** A text with one more behind it, or the last one. */
  lemma DocsFirst(docs: seq<Doc>, rest: string)
    requires docs != []
    ensures |docs| == 1 ==> DocsText(docs) + "]" + rest == DocText(docs[0]) + ("]" + rest)
    ensures |docs| > 1 ==>
      DocsText(docs) + "]" + rest == DocText(docs[0]) + ("," + (DocsText(docs[1..]) + "]" + rest))
  {
    hide DocText;
    if |docs| == 1 {
      GlueLast(DocText(docs[0]), "]", rest);
    } else {
      GlueMore(DocText(docs[0]), DocsText(docs[1..]), "]", rest);
    }
  }

  lemma MeaningsFirst(docs: seq<Doc>, done: seq<Json>)
    requires docs != []
    ensures done + [Meaning(docs[0].node)] + Meanings(docs[1..]) == done + Meanings(docs)
    ensures |docs| == 1 ==> done + [Meaning(docs[0].node)] == done + Meanings(docs)
  {
    hide Meaning;
    assert Meanings(docs) == [Meaning(docs[0].node)] + Meanings(docs[1..]);
    assert |docs| == 1 ==> docs[1..] == [] && Meanings(docs[1..]) == [];
    hide Meanings;
    Associates(done, Meaning(docs[0].node), Meanings(docs[1..]));
  }

  lemma Associates(a: seq<Json>, j: Json, b: seq<Json>)
    ensures a + [j] + b == a + ([j] + b) && a + ([j] + []) == a + [j]
  {
  }

  lemma ArrayEnds(rest: string, prev: char, items: seq<Json>)
    ensures ArrayBody("]" + rest, prev, items) == Ok(Arr(items), rest)
  {
    assert ("]" + rest)[1..] == rest;
  }

  /** The key of a member, with its blanks and its colon. */
  lemma KeyRead(p: Pair, tail: string, prev: char, done: seq<Member>)
    requires Blanks(p.before) && Blanks(p.gap) && AllValid(p.key) && (prev == '{' || prev == ',')
    ensures ObjectBody(p.before + "\"" + Written(p.key) + "\"" + p.gap + ":" + tail, prev, None, done)
         == ObjectBody(tail, ':', Some(ReadOnce(p.key)), done)
  {
    hide ObjectBody, ParseString, Written, ReadOnce, AllValid;
    var key, colon := "\"" + Written(p.key) + "\"", p.gap + (":" + tail);
    BlanksAre(p.before);
    BlanksAre(p.gap);
    assert p.before + "\"" + Written(p.key) + "\"" + p.gap + ":" + tail == p.before + (key + colon);
    ObjectSkip(p.before, key + colon, prev, None, done);
    ValidIsReadable(p.key);
    StrReads(p.key, colon);
    assert (key + colon)[0] == '"';
    KeyStep(key + colon, colon, prev, ReadOnce(p.key), done);
    ObjectSkip(p.gap, ":" + tail, '"', Some(ReadOnce(p.key)), done);
    ColonRead(tail, ReadOnce(p.key), done);
  }

  lemma ColonRead(tail: string, name: string, done: seq<Member>)
    ensures ObjectBody(":" + tail, '"', Some(name), done) == ObjectBody(tail, ':', Some(name), done)
  {
    assert (":" + tail)[1..] == tail;
  }

  /** One member, with its blanks. */
  lemma {:induction false} PairRead(p: Pair, rest: string, prev: char, done: seq<Member>) returns (last: char)
    requires ValidPair(p) && (prev == '{' || prev == ',')
    requires rest != "" && (rest[0] == ',' || rest[0] == '}')
    ensures Closer(last)
    ensures ObjectBody(PairText(p) + rest, prev, None, done)
         == ObjectBody(rest, last, None, Appended(done, ReadOnce(p.key), Meaning(p.doc.node)))
    decreases p, 0
  {
    hide ObjectBody, ParseValue, Meaning, NodeText, ValidNode, EndsHere, Written, ReadOnce, AllValid, Appended;
    var d, name := p.doc, ReadOnce(p.key);
    var text, tail := NodeText(d.node), d.after + rest;
    var value := d.before + (text + tail);
    PairIs(p, rest);
    KeyRead(p, value, prev, done);
    BlanksAre(d.before);
    BlanksAre(d.after);
    EndAfter(d.after, rest);
    ObjectSkip(d.before, text + tail, ':', Some(name), done);
    NodeReads(d.node, tail);
    ObjectValue(text, tail, Meaning(d.node), name, done);
    last := text[|text| - 1];
    ObjectSkip(d.after, rest, last, None, Appended(done, name, Meaning(d.node)));
  }

  lemma PairIs(p: Pair, rest: string)
    ensures PairText(p) + rest
         == p.before + "\"" + Written(p.key) + "\"" + p.gap + ":"
            + (p.doc.before + (NodeText(p.doc.node) + (p.doc.after + rest)))
  {
    hide Written, NodeText;
    var head := p.before + "\"" + Written(p.key) + "\"" + p.gap + ":";
    var d := p.doc;
    assert head + (d.before + NodeText(d.node) + d.after) + rest == head + (d.before + (NodeText(d.node) + (d.after + rest)));
  }

  lemma {:induction false} PairsRead(pairs: seq<Pair>, rest: string, prev: char, done: seq<Member>)
    requires pairs != [] && (forall i :: 0 <= i < |pairs| ==> ValidPair(pairs[i])) && (prev == '{' || prev == ',')
    ensures ObjectBody(PairsText(pairs) + "}" + rest, prev, None, done)
         == Ok(Obj(AllAppended(done, MembersOf(pairs))), rest)
    decreases pairs
  {
    hide ObjectBody, Meaning, PairText, ValidPair, ReadOnce, Appended, PairsText, MembersOf;
    var name, value := ReadOnce(pairs[0].key), Meaning(pairs[0].doc.node);
    var next := Appended(done, name, value);
    PairsFirst(pairs, rest);
    MembersFirst(pairs);
    if |pairs| == 1 {
      var last := PairRead(pairs[0], "}" + rest, prev, done);
      ObjectEnds(rest, last, next);
      assert AllAppended(done, MembersOf(pairs)) == AllAppended(next, []);
    } else {
      var more := PairsText(pairs[1..]) + "}" + rest;
      var last := PairRead(pairs[0], "," + more, prev, done);
      JsonRoundTrip.ObjectComma(more, last, next);
      PairsRead(pairs[1..], rest, ',', next);
    }
  }

  lemma PairsFirst(pairs: seq<Pair>, rest: string)
    requires pairs != []
    ensures |pairs| == 1 ==> PairsText(pairs) + "}" + rest == PairText(pairs[0]) + ("}" + rest)
    ensures |pairs| > 1 ==>
      PairsText(pairs) + "}" + rest == PairText(pairs[0]) + ("," + (PairsText(pairs[1..]) + "}" + rest))
  {
    hide PairText;
    if |pairs| == 1 {
      GlueLast(PairText(pairs[0]), "}", rest);
    } else {
      GlueMore(PairText(pairs[0]), PairsText(pairs[1..]), "}", rest);
    }
  }

  lemma MembersFirst(pairs: seq<Pair>)
    requires pairs != []
    ensures var all := MembersOf(pairs);
      && all != [] && all[0] == Member(ReadOnce(pairs[0].key), Meaning(pairs[0].doc.node))
      && all[1..] == MembersOf(pairs[1..]) && (|pairs| == 1 ==> all[1..] == [])
  {
    hide Meaning, ReadOnce;
    assert |pairs| == 1 ==> pairs[1..] == [];
  }

  lemma ObjectEnds(rest: string, prev: char, members: seq<Member>)
    ensures ObjectBody("}" + rest, prev, None, members) == Ok(Obj(members), rest)
  {
    assert ("}" + rest)[1..] == rest;
  }

  lemma {:induction false} ParseSkip(blank: string, data: string)
    requires AllBlank(blank) && data != ""
    ensures Parse(blank + data) == Parse(data)
    decreases |blank|
  {
    if blank == "" {
      assert blank + data == data;
    } else {
      assert (blank + data)[1..] == blank[1..] + data;
      ParseSkip(blank[1..], data);
    }
  }

  /** Every text of the grammar is accepted to its end, and read as what it means. What is left over are the
      blanks behind the value. */
  lemma DocumentMeans(d: Doc)
    requires ValidDoc(d)
    ensures ParseAll(DocText(d)) == Ok(Meaning(d.node), d.after)
  {
    hide Parse, ParseValue, NodeText, Meaning, ValidNode;
    var text := NodeText(d.node);
    BlanksAre(d.before);
    BlanksAre(d.after);
    EndAfter(d.after, "");
    assert d.after + "" == d.after && DocText(d) == d.before + (text + d.after);
    NodeReads(d.node, d.after);
    ParseSkip(d.before, text + d.after);
    ParseHere(text + d.after);
    assert (text + d.after)[0] == text[0];
  }

  lemma ParseHere(data: string)
    requires data != "" && !IsWhitespace(data[0])
    ensures Parse(data) == ParseValue(data)
  {
  }
}
