/** Exactly which texts the parser accepts. It takes every text of RFC 8259, and some more: commas and colons may
    be missing or left over in places, keys may be bare words, and numbers may put an exponent before the
    fraction or zeros behind a minus sign. */
module JsonAccept {
  import opened JsonSpec
  import opened JsonStrings
  import opened JsonRoundTrip
  import opened JsonEscapes
  import G = JsonGrammar

  // ----- numbers -----

  predicate Numeric(c: char) { '0' <= c <= '9' }

  predicate HasDot(s: string) { '.' in s }

  predicate HasE(s: string) { 'e' in s || 'E' in s }

  /** Whether a character may come next in a number: no second digit behind a leading zero; a point and an
      exponent once, and behind a digit; a sign at the start, if it is a minus, or right behind the e. */
  predicate MayFollow(s: string, c: char) {
    if Numeric(c) then s != "0"
    else if c == '.' then !HasDot(s) && s != "" && Numeric(s[|s| - 1])
    else if c == 'e' || c == 'E' then !HasE(s) && s != "" && Numeric(s[|s| - 1])
    else if c == '-' then s == "" || s[|s| - 1] == 'e' || s[|s| - 1] == 'E'
    else c == '+' && s != "" && (s[|s| - 1] == 'e' || s[|s| - 1] == 'E')
  }

  predicate Prefix(s: string) { forall i :: 0 <= i < |s| ==> MayFollow(s[..i], s[i]) }

  /** A number as the parser takes it: each character may follow those before it, and the last is a digit. */
  predicate Lexeme(s: string) { s != "" && Prefix(s) && Numeric(s[|s| - 1]) }

  /** The scanner's state behind the beginning of a number. */
  function ScanOf(s: string): Scan {
    Scan(if s == "" then '\0' else s[|s| - 1], s != "" && s[0] == '0', HasDot(s), HasE(s))
  }

  lemma PrefixLast(s: string, c: char)
    ensures Prefix(s + [c]) <==> Prefix(s) && MayFollow(s, c)
  {
    var t := s + [c];
    assert forall i :: 0 <= i <= |s| ==> t[..i] == s[..i];
    assert s[..|s|] == s;
    if Prefix(t) {
      assert forall i :: 0 <= i < |s| ==> MayFollow(t[..i], t[i]);
      assert MayFollow(t[..|s|], t[|s|]);
    }
  }

  /** A number with a leading zero and neither a point nor an exponent is that zero. */
  lemma LeadingZero(s: string)
    requires Prefix(s) && s != "" && s[0] == '0' && !HasDot(s) && !HasE(s)
    ensures s == "0"
  {
    if |s| > 1 {
      SecondChar(s);
      assert false;
    }
  }

  lemma SecondChar(s: string)
    requires Prefix(s) && |s| > 1
    ensures MayFollow([s[0]], s[1]) && s[1] in s
  {
    assert s[..1] == [s[0]];
  }

  lemma OneMore(s: string, c: char)
    ensures ScanOf(s + [c])
         == Scan(c, if s == "" then c == '0' else s[0] == '0', HasDot(s) || c == '.', HasE(s) || c == 'e' || c == 'E')
  {
  }

  lemma NoNul(s: string)
    requires Prefix(s)
    ensures '\0' !in s && forall i :: 0 <= i < |s| ==> !IsSeparator(s[i])
  {
    forall i | 0 <= i < |s| ensures s[i] != '\0' && !IsSeparator(s[i]) {
      assert MayFollow(s[..i], s[i]);
    }
  }

  /** The scanner takes a character if and only if it may follow. */
  lemma StepIff(s: string, c: char)
    requires Prefix(s)
    ensures NumberStep(ScanOf(s), c).Ok? <==> MayFollow(s, c)
    ensures MayFollow(s, c) ==> NumberStep(ScanOf(s), c) == Ok(ScanOf(s + [c]), "") && !IsSeparator(c)
  {
    OneMore(s, c);
    NoNul(s);
    if s != "" && s[0] == '0' && !HasDot(s) && !HasE(s) {
      LeadingZero(s);
    }
    var n := ScanOf(s);
    assert s != "" ==> n.prev in s;
    assert n.zeroStarted && !n.seenDot && !n.seenExponent <==> s == "0";
    hide HasDot, HasE, Prefix;
  }

  function NumberOf(s: string): Json { Prim(if HasDot(s) then RealKind else IntegerKind, s) }

  lemma DigitAtEnd(s: string)
    requires Prefix(s)
    ensures AnyDigit(ScanOf(s).prev) <==> s != "" && Numeric(s[|s| - 1])
  {
  }

  lemma {:induction false} NumberAccepted(data: string, s: string) returns (t: string)
    requires Prefix(s) && NumberBody(data, ScanOf(s), s).Ok?
    ensures Lexeme(s + t) && data == t + NumberBody(data, ScanOf(s), s).rest
    ensures EndsHere(NumberBody(data, ScanOf(s), s).rest)
    ensures NumberBody(data, ScanOf(s), s).value == NumberOf(s + t)
    decreases |data|
  {
    hide ScanOf, Prefix, HasDot, MayFollow, NumberStep;
    DigitAtEnd(s);
    if data == "" || IsSeparator(data[0]) {
      t := "";
      assert s + t == s;
      IsNumber(s);
    } else {
      var c := data[0];
      StepIff(s, c);
      PrefixLast(s, c);
      var more := NumberAccepted(data[1..], s + [c]);
      t := [c] + more;
      OneInFront(s, c, more, data);
    }
  }

  lemma OneInFront(s: string, c: char, more: string, data: string)
    requires data != "" && data[0] == c
    ensures s + [c] + more == s + ([c] + more)
    ensures forall rest :: data[1..] == more + rest ==> data == [c] + more + rest
  {
  }

  lemma IsNumber(s: string)
    ensures NumberOf(s) == Prim(if ScanOf(s).seenDot then RealKind else IntegerKind, s)
  {
  }

  lemma {:induction false} NumberTaken(t: string, rest: string, s: string)
    requires Lexeme(s + t) && EndsHere(rest)
    ensures Prefix(s) && NumberBody(t + rest, ScanOf(s), s) == Ok(NumberOf(s + t), rest)
    decreases |t|
  {
    hide ScanOf, Prefix, HasDot, MayFollow, NumberStep;
    PrefixFront(s, t);
    if t == "" {
      assert s + t == s && t + rest == rest;
      DigitAtEnd(s);
      IsNumber(s);
    } else {
      assert s + t == s + [t[0]] + t[1..];
      PrefixFront(s + [t[0]], t[1..]);
      PrefixLast(s, t[0]);
      StepIff(s, t[0]);
      NumberTaken(t[1..], rest, s + [t[0]]);
      assert (t + rest)[1..] == t[1..] + rest;
    }
  }

  lemma PrefixFront(s: string, t: string)
    requires Prefix(s + t)
    ensures Prefix(s)
  {
    forall i | 0 <= i < |s| ensures MayFollow(s[..i], s[i]) {
      assert (s + t)[..i] == s[..i] && (s + t)[i] == s[i];
    }
  }

  // ----- texts -----

  /** What a text is made of inside an array or an object. A bare key has its colon with it. */
  datatype Tok = Blank(c: char) | Comma | Colon | Key(glyphs: seq<Glyph>) | Word(word: string, gap: string)
               | Value(node: Node)

  datatype Node = Str(glyphs: seq<Glyph>) | Num(lexeme: string) | True | False | Null
                | List(toks: seq<Tok>) | Object(toks: seq<Tok>)

  predicate IsBlank(c: char) { c in " \t\n\r" }

  predicate WordChar(c: char) { '0' <= c <= '9' || 'A' <= c <= 'Z' || 'a' <= c <= 'z' || c == '_' }

  /** Numbers, booleans and null: what follows them has to end them. */
  predicate Scalar(n: Node) { n.Num? || n.True? || n.False? || n.Null? }

  predicate ValidNode(n: Node)
    decreases n
  {
    match n
    case Str(glyphs) => AllReadable(glyphs)
    case Num(lexeme) => Lexeme(lexeme)
    case List(toks) => ListOk(None, toks)
    case Object(toks) => ObjectOk(None, toks)
    case _ => true
  }

  predicate ValidTok(t: Tok)
    decreases t
  {
    t.Value? ==> ValidNode(t.node)
  }

  /** What may stand in an array behind the last token that was not a blank: a comma behind a value; an array or
      an object at the start or behind a comma; and any other value anywhere, but not directly behind a scalar. */
  predicate ListOk(last: Option<Tok>, toks: seq<Tok>)
    decreases toks
  {
    toks == []
    || match toks[0]
       case Blank(c) => IsBlank(c) && ListOk(last, toks[1..])
       case Comma => last.Some? && last.value.Value? && ListOk(Some(toks[0]), toks[1..])
       case Value(n) =>
         && ValidTok(toks[0]) && (n.List? || n.Object? ==> last.None? || last.value.Comma?)
         && (Scalar(n) && |toks| > 1 ==> toks[1].Blank? || toks[1].Comma?)
         && ListOk(Some(toks[0]), toks[1..])
       case _ => false
  }

  /** What may stand in an object: a comma at the start or behind a value; a quoted key at the start or behind a
      comma; a bare key there and behind a value; a colon behind a quoted key; a value behind a key or its colon;
      and the end at the start, behind a comma or behind a value. */
  predicate ObjectOk(last: Option<Tok>, toks: seq<Tok>)
    decreases toks
  {
    if toks == [] then last.None? || last.value.Comma? || last.value.Value?
    else
      match toks[0]
      case Blank(c) => IsBlank(c) && ObjectOk(last, toks[1..])
      case Comma => (last.None? || last.value.Value?) && ObjectOk(Some(toks[0]), toks[1..])
      case Colon => last.Some? && last.value.Key? && ObjectOk(Some(toks[0]), toks[1..])
      case Key(glyphs) => AllReadable(glyphs) && (last.None? || last.value.Comma?) && ObjectOk(Some(toks[0]), toks[1..])
      case Word(word, gap) =>
        && word != "" && WordChar(word[0]) && (forall i :: 0 <= i < |word| ==> WordChar(word[i]) || word[i] == '-')
        && (forall i :: 0 <= i < |gap| ==> IsBlank(gap[i]))
        && (last.None? || last.value.Comma? || last.value.Value?) && ObjectOk(Some(toks[0]), toks[1..])
      case Value(n) =>
        && ValidTok(toks[0]) && last.Some? && (last.value.Key? || last.value.Colon? || last.value.Word?)
        && (Scalar(n) && |toks| > 1 ==> toks[1].Blank? || toks[1].Comma?)
        && ObjectOk(Some(toks[0]), toks[1..])
  }

  function TokText(t: Tok): string
    decreases t
  {
    match t
    case Blank(c) => [c]
    case Comma => ","
    case Colon => ":"
    case Key(glyphs) => "\"" + Written(glyphs) + "\""
    case Word(word, gap) => word + gap + ":"
    case Value(n) => NodeText(n)
  }

  function TokTexts(toks: seq<Tok>): string
    decreases toks
  {
    if toks == [] then "" else TokText(toks[0]) + TokTexts(toks[1..])
  }

  function NodeText(n: Node): string
    decreases n
  {
    match n
    case Str(glyphs) => "\"" + Written(glyphs) + "\""
    case Num(lexeme) => lexeme
    case True => "true"
    case False => "false"
    case Null => "null"
    case List(toks) => "[" + TokTexts(toks) + "]"
    case Object(toks) => "{" + TokTexts(toks) + "}"
  }

  function Meaning(n: Node): Json
    decreases n
  {
    match n
    case Str(glyphs) => Prim(StringKind, Decoded(ReadOnce(glyphs)))
    case Num(lexeme) => NumberOf(lexeme)
    case True => Prim(BoolKind, "true")
    case False => Prim(BoolKind, "false")
    case Null => Prim(NullKind, "null")
    case List(toks) => Arr(ValuesIn(toks))
    case Object(toks) => Obj(G.LastOnes(MembersIn("", toks)))
  }

  function MeaningOf(t: Tok): Json
    decreases t
  {
    if t.Value? then Meaning(t.node) else Prim(NullKind, "null")
  }

  /** The values, in order. */
  function ValuesIn(toks: seq<Tok>): seq<Json>
    decreases toks
  {
    if toks == [] then []
    else (if toks[0].Value? then [MeaningOf(toks[0])] else []) + ValuesIn(toks[1..])
  }

  /** The values under the keys before them. */
  function MembersIn(name: string, toks: seq<Tok>): seq<Member>
    decreases toks
  {
    if toks == [] then []
    else
      match toks[0]
      case Key(glyphs) => MembersIn(ReadOnce(glyphs), toks[1..])
      case Word(word, _) => MembersIn(word, toks[1..])
      case Value(n) => [Member(name, MeaningOf(toks[0]))] + MembersIn(name, toks[1..])
      case _ => MembersIn(name, toks[1..])
  }

  // ----- every such text is accepted -----

  /** The last character that the loops have seen, by the last token. */
  predicate Stands(prev: char, last: Option<Tok>, open: char) {
    match last
    case None => prev == open
    case Some(Comma) => prev == ','
    case Some(Colon) => prev == ':'
    case Some(Word(_, _)) => prev == ':'
    case Some(Key(_)) => prev == '"'
    case Some(Value(_)) => Closer(prev)
    case Some(Blank(_)) => false
  }

  lemma NumTaken(lexeme: string, rest: string)
    requires Lexeme(lexeme) && EndsHere(rest)
    ensures ReadsAs(lexeme, rest, NumberOf(lexeme))
  {
    FirstChar(lexeme);
    hide NumberBody, Prefix, NumberOf;
    assert "" + lexeme == lexeme;
    NumberTaken(lexeme, rest, "");
    StartIs();
    assert (lexeme + rest)[0] == lexeme[0];
  }

  lemma FirstChar(s: string)
    requires Lexeme(s)
    ensures StartsNumber(s[0])
  {
    assert MayFollow(s[..0], s[0]) && s[..0] == "";
  }

  lemma StartIs()
    ensures ScanOf("") == SCAN_START
  {
  }

  lemma {:induction false} NodeTaken(n: Node, rest: string)
    requires ValidNode(n) && (Scalar(n) ==> EndsHere(rest))
    ensures ReadsAs(NodeText(n), rest, Meaning(n))
    decreases n
  {
    hide ReadsAs, EndsHere, AllReadable, Lexeme, NumberOf, Decoded, TokTexts, ListOk, ObjectOk, ValuesIn, MembersIn;
    match n
    case Str(glyphs) => G.StrReads(glyphs, rest);
    case Num(lexeme) => NumTaken(lexeme, rest);
    case True => WordPrimReads(BoolKind, "true", rest);
    case False => WordPrimReads(BoolKind, "false", rest);
    case Null => WordPrimReads(NullKind, "null", rest);
    case List(toks) =>
      ListTaken(toks, rest, '[', None, []);
      assert [] + ValuesIn(toks) == ValuesIn(toks);
      ArrayReads(TokTexts(toks), rest, ValuesIn(toks));
    case Object(toks) =>
      ObjectTaken(toks, rest, '{', None, None, "", []);
      Collected(MembersIn("", toks));
      ObjectReads(TokTexts(toks), rest, G.LastOnes(MembersIn("", toks)));
  }

  lemma Collected(members: seq<Member>)
    ensures G.AllAppended([], members) == G.LastOnes(members)
  {
    G.AllAppendedIs([], members);
    assert [] + members == members;
  }

  /** What follows a scalar ends it. */
  lemma AfterScalar(toks: seq<Tok>, close: string, rest: string)
    requires close == "]" || close == "}"
    requires toks != [] ==> toks[0].Comma? || (toks[0].Blank? && IsBlank(toks[0].c))
    ensures EndsHere(TokTexts(toks) + close + rest)
  {
    if toks == [] {
      assert TokTexts(toks) + close + rest == close + rest;
    } else {
      assert (TokTexts(toks) + close + rest)[0] == TokText(toks[0])[0];
    }
  }

  /** A value may stand behind another one if it is no array and no object. */
  lemma ArrayValue(text: string, tail: string, j: Json, prev: char, items: seq<Json>)
    requires ReadsAs(text, tail, j) && (prev == '[' || prev == ',' || (text[0] != '[' && text[0] != '{'))
    ensures ArrayBody(text + tail, prev, items) == ArrayBody(tail, text[|text| - 1], items + [j])
  {
    assert (text + tail)[0] == text[0];
    assert LastRead(text + tail, tail) == text[|text| - 1];
  }

  lemma BlankSkips(c: char)
    requires IsBlank(c)
    ensures AllBlank([c])
  {
  }

  lemma TextsFirst(toks: seq<Tok>, close: string, rest: string)
    requires toks != []
    ensures TokTexts(toks) + close + rest == TokText(toks[0]) + (TokTexts(toks[1..]) + close + rest)
  {
    hide TokText;
    Regrouped(TokText(toks[0]), TokTexts(toks[1..]), close, rest);
  }

  lemma Regrouped(a: string, b: string, c: string, d: string)
    ensures a + b + c + d == a + (b + c + d)
  {
  }

  lemma {:induction false} ListTaken(toks: seq<Tok>, rest: string, prev: char, last: Option<Tok>, items: seq<Json>)
    requires ListOk(last, toks) && Stands(prev, last, '[')
    ensures ArrayBody(TokTexts(toks) + "]" + rest, prev, items) == Ok(Arr(items + ValuesIn(toks)), rest)
    decreases toks
  {
    hide ArrayBody, Meaning, MeaningOf, ParseValue, TokTexts, ValuesIn, Scalar;
    if toks == [] {
      NoTexts("]", rest);
      G.ArrayEnds(rest, prev, items);
      NoValues(items);
    } else {
      var t, more := toks[0], toks[1..];
      var tail := TokTexts(more) + "]" + rest;
      TextsFirst(toks, "]", rest);
      match t
      case Blank(c) =>
        BlankSkips(c);
        ArraySkip([c], tail, prev, items);
        ListTaken(more, rest, prev, last, items);
        NoValue(toks, more, items);
      case Comma =>
        JsonRoundTrip.ArrayComma(tail, prev, items);
        ListTaken(more, rest, ',', Some(t), items);
        NoValue(toks, more, items);
      case Value(n) =>
        var text := ListValue(toks, rest, prev, last, items);
        ListTaken(more, rest, text[|text| - 1], Some(t), items + [MeaningOf(t)]);
        OneValue(toks, more, items);
    }
  }

  lemma NoValues(items: seq<Json>)
    ensures items + ValuesIn([]) == items
  {
  }

  lemma NoValue(toks: seq<Tok>, more: seq<Tok>, items: seq<Json>)
    requires toks != [] && toks[1..] == more && !toks[0].Value?
    ensures items + ValuesIn(more) == items + ValuesIn(toks)
  {
    assert ValuesIn(toks) == [] + ValuesIn(more);
  }

  lemma OneValue(toks: seq<Tok>, more: seq<Tok>, items: seq<Json>)
    requires toks != [] && toks[1..] == more && toks[0].Value?
    ensures items + [MeaningOf(toks[0])] + ValuesIn(more) == items + ValuesIn(toks)
  {
    hide MeaningOf;
  }

  lemma NoTexts(close: string, rest: string)
    ensures TokTexts([]) + close + rest == close + rest
  {
  }

  lemma {:induction false} ListValue(toks: seq<Tok>, rest: string, prev: char, last: Option<Tok>, items: seq<Json>)
    returns (text: string)
    requires ListOk(last, toks) && Stands(prev, last, '[') && toks != [] && toks[0].Value?
    ensures text != "" && Closer(text[|text| - 1])
    ensures var tail := TokTexts(toks[1..]) + "]" + rest;
      ArrayBody(TokText(toks[0]) + tail, prev, items) == ArrayBody(tail, text[|text| - 1], items + [MeaningOf(toks[0])])
    decreases toks, 0
  {
    hide ArrayBody, ParseValue, TokTexts, Meaning, EndsHere;
    var n, tail := toks[0].node, TokTexts(toks[1..]) + "]" + rest;
    text := NodeText(n);
    if Scalar(n) {
      AfterScalar(toks[1..], "]", rest);
    }
    assert n < toks[0];
    NodeTaken(n, tail);
    Opening(n);
    ArrayValue(text, tail, Meaning(n), prev, items);
  }

  lemma Opening(n: Node)
    requires ValidNode(n)
    ensures NodeText(n) != "" && (NodeText(n)[0] == '[' <==> n.List?) && (NodeText(n)[0] == '{' <==> n.Object?)
  {
    if n.Num? {
      FirstChar(n.lexeme);
    }
  }

  /** The key that is waiting for its value. */
  predicate Waiting(name: Option<string>, last: Option<Tok>, key: string) {
    if last.Some? && (last.value.Key? || last.value.Colon? || last.value.Word?) then name == Some(key) else name == None
  }

  lemma {:induction false} ObjectTaken(toks: seq<Tok>, rest: string, prev: char, last: Option<Tok>,
                                       name: Option<string>, key: string, members: seq<Member>)
    requires ObjectOk(last, toks) && Stands(prev, last, '{') && Waiting(name, last, key)
    ensures ObjectBody(TokTexts(toks) + "}" + rest, prev, name, members)
         == Ok(Obj(G.AllAppended(members, MembersIn(key, toks))), rest)
    decreases toks
  {
    hide ObjectBody, Meaning, ParseValue, TokTexts, Appended, AllReadable, ReadOnce;
    if toks == [] {
      NoTexts("}", rest);
      G.ObjectEnds(rest, prev, members);
    } else {
      var t, more := toks[0], toks[1..];
      var tail := TokTexts(more) + "}" + rest;
      TextsFirst(toks, "}", rest);
      match t
      case Blank(c) =>
        BlankSkips(c);
        ObjectSkip([c], tail, prev, name, members);
        ObjectTaken(more, rest, prev, last, name, key, members);
      case Comma =>
        CommaTaken(tail, prev, members);
        ObjectTaken(more, rest, ',', Some(t), None, key, members);
      case Colon =>
        G.ColonRead(tail, key, members);
        ObjectTaken(more, rest, ':', Some(t), name, key, members);
      case Key(glyphs) =>
        KeyTaken(glyphs, tail, prev, members);
        ObjectTaken(more, rest, '"', Some(t), Some(ReadOnce(glyphs)), ReadOnce(glyphs), members);
      case Word(word, gap) =>
        WordTaken(word, gap, tail, prev, members);
        ObjectTaken(more, rest, ':', Some(t), Some(word), word, members);
      case Value(n) =>
        var text := ObjectValueTaken(toks, rest, prev, last, key, members);
        ObjectTaken(more, rest, text[|text| - 1], Some(t), None, key, Appended(members, key, MeaningOf(t)));
        assert MembersIn(key, toks)[0] == Member(key, MeaningOf(t)) && MembersIn(key, toks)[1..] == MembersIn(key, more);
    }
  }

  /** A comma at the start is skipped as well. */
  lemma CommaTaken(tail: string, prev: char, members: seq<Member>)
    requires prev != ',' && prev != ':'
    ensures ObjectBody("," + tail, prev, None, members) == ObjectBody(tail, ',', None, members)
  {
    assert ("," + tail)[1..] == tail;
  }

  lemma KeyTaken(glyphs: seq<Glyph>, tail: string, prev: char, members: seq<Member>)
    requires AllReadable(glyphs) && (prev == '{' || prev == ',')
    ensures ObjectBody("\"" + Written(glyphs) + "\"" + tail, prev, None, members)
         == ObjectBody(tail, '"', Some(ReadOnce(glyphs)), members)
  {
    hide ObjectBody, ParseString, Written, ReadOnce, AllReadable;
    var data := "\"" + Written(glyphs) + "\"" + tail;
    G.StrReads(glyphs, tail);
    assert data[0] == '"';
    KeyStep(data, tail, prev, ReadOnce(glyphs), members);
  }

  lemma {:induction false} WordSkips(word: string, rest: string)
    requires forall i :: 0 <= i < |word| ==> WordChar(word[i]) || word[i] == '-'
    requires rest != "" && !WordChar(rest[0]) && rest[0] != '-'
    ensures SkipWord(word + rest) == rest
    decreases |word|
  {
    if word == "" {
      assert word + rest == rest;
    } else {
      assert (word + rest)[1..] == word[1..] + rest;
      WordSkips(word[1..], rest);
    }
  }

  lemma {:induction false} GapSkips(gap: string, rest: string)
    requires (forall i :: 0 <= i < |gap| ==> IsBlank(gap[i])) && rest != "" && !IsWhitespace(rest[0])
    ensures SkipBlank(gap + rest) == rest
    decreases |gap|
  {
    if gap == "" {
      assert gap + rest == rest;
    } else {
      assert IsBlank(gap[0]);
      assert (gap + rest)[1..] == gap[1..] + rest;
      GapSkips(gap[1..], rest);
    }
  }

  lemma WordTaken(word: string, gap: string, tail: string, prev: char, members: seq<Member>)
    requires word != "" && WordChar(word[0]) && forall i :: 0 <= i < |word| ==> WordChar(word[i]) || word[i] == '-'
    requires forall i :: 0 <= i < |gap| ==> IsBlank(gap[i])
    ensures ObjectBody(word + gap + ":" + tail, prev, None, members) == ObjectBody(tail, ':', Some(word), members)
  {
    var data, after := word + gap + ":" + tail, gap + (":" + tail);
    assert data == word + after && data[0] == word[0];
    assert data[1..] == word[1..] + after;
    assert after[0] == if gap == "" then ':' else gap[0];
    assert gap != "" ==> IsBlank(gap[0]);
    WordSkips(word[1..], after);
    GapSkips(gap, ":" + tail);
    assert data[..|data| - |after|] == word && (":" + tail)[1..] == tail;
    assert UnquotedKey(data) == Some((word, tail));
  }

  lemma {:induction false} ObjectValueTaken(toks: seq<Tok>, rest: string, prev: char, last: Option<Tok>, key: string,
                                            members: seq<Member>) returns (text: string)
    requires ObjectOk(last, toks) && Stands(prev, last, '{') && Waiting(Some(key), last, key) && toks != [] && toks[0].Value?
    ensures text != "" && Closer(text[|text| - 1])
    ensures var tail := TokTexts(toks[1..]) + "}" + rest;
      ObjectBody(TokText(toks[0]) + tail, prev, Some(key), members)
      == ObjectBody(tail, text[|text| - 1], None, Appended(members, key, MeaningOf(toks[0])))
    decreases toks, 0
  {
    hide ObjectBody, ParseValue, TokTexts, Meaning, EndsHere, Appended;
    var n, tail := toks[0].node, TokTexts(toks[1..]) + "}" + rest;
    text := NodeText(n);
    if Scalar(n) {
      AfterScalar(toks[1..], "}", rest);
    }
    assert n < toks[0];
    NodeTaken(n, tail);
    ValueTaken(text, tail, Meaning(n), prev, key, members);
  }

  lemma ValueTaken(text: string, tail: string, j: Json, prev: char, name: string, members: seq<Member>)
    requires ReadsAs(text, tail, j)
    ensures ObjectBody(text + tail, prev, Some(name), members)
         == ObjectBody(tail, text[|text| - 1], None, Appended(members, name, j))
  {
    assert (text + tail)[0] == text[0];
    assert LastRead(text + tail, tail) == text[|text| - 1];
  }

  // ----- and no other -----

  lemma ScalarAccepted(data: string) returns (n: Node)
    requires data != "" && ParseScalar(data).Ok?
    ensures ValidNode(n) && Scalar(n) && EndsHere(ParseScalar(data).rest)
    ensures data == NodeText(n) + ParseScalar(data).rest && Meaning(n) == ParseScalar(data).value
  {
    if StartsNumber(data[0]) {
      n := NumAccepted(data);
    } else {
      n := WordAccepted(data);
    }
  }

  lemma NumAccepted(data: string) returns (n: Node)
    requires ParseNumber(data).Ok?
    ensures n.Num? && Lexeme(n.lexeme) && EndsHere(ParseNumber(data).rest)
    ensures data == n.lexeme + ParseNumber(data).rest && NumberOf(n.lexeme) == ParseNumber(data).value
  {
    hide NumberBody, Prefix, MayFollow;
    StartIs();
    assert Prefix("") by {
      NothingBefore();
    }
    var t := NumberAccepted(data, "");
    assert "" + t == t;
    n := Num(t);
  }

  lemma NothingBefore()
    ensures Prefix("")
  {
  }

  lemma WordAccepted(data: string) returns (n: Node)
    requires data != "" && ParseScalar(data).Ok? && !StartsNumber(data[0])
    ensures (n.True? || n.False? || n.Null?) && EndsHere(ParseScalar(data).rest)
    ensures data == NodeText(n) + ParseScalar(data).rest && Meaning(n) == ParseScalar(data).value
  {
    n := if WordNext(data, "true") then True else if WordNext(data, "false") then False else Null;
    var text := NodeText(n);
    assert text <= data && data == text + data[|text|..];
  }

  lemma {:induction false} NodeAccepted(data: string) returns (n: Node)
    requires data != "" && ParseValue(data).Ok?
    ensures ValidNode(n) && (Scalar(n) ==> EndsHere(ParseValue(data).rest))
    ensures data == NodeText(n) + ParseValue(data).rest && Meaning(n) == ParseValue(data).value
    decreases |data|, 0
  {
    hide ArrayBody, ObjectBody, StringBody, ParseScalar, Decoded, TokTexts, ListOk, ObjectOk, ValuesIn, MembersIn, EndsHere;
    hide AllReadable, Written, ReadOnce;
    var rest := ParseValue(data).rest;
    if data[0] == '"' {
      var glyphs := StringAccepted(data[1..], "");
      n := Str(glyphs);
      assert "" + ReadOnce(glyphs) == ReadOnce(glyphs);
      assert data == ['"'] + data[1..];
    } else if data[0] == '[' {
      var toks := ListAccepted(data[1..], '[', None, []);
      n := List(toks);
      assert [] + ValuesIn(toks) == ValuesIn(toks);
      assert data == ['['] + data[1..];
    } else if data[0] == '{' {
      var toks := ObjectAccepted(data[1..], '{', None, None, "", []);
      n := Object(toks);
      Collected(MembersIn("", toks));
      assert data == ['{'] + data[1..];
    } else {
      n := ScalarAccepted(data);
    }
  }

  /** No value, key or colon ends a scalar. */
  lemma SeparatorNext(toks: seq<Tok>, close: string, rest: string)
    requires toks != [] && (toks[0].Value? ==> ValidNode(toks[0].node))
    requires toks[0].Word? ==> toks[0].word != "" && WordChar(toks[0].word[0])
    requires EndsHere(TokTexts(toks) + close + rest)
    ensures toks[0].Blank? || toks[0].Comma?
  {
    hide NodeText;
    var text := TokText(toks[0]);
    if toks[0].Value? {
      NotSeparator(toks[0].node);
    }
    assert text != "" && (TokTexts(toks) + close + rest)[0] == text[0];
  }

  lemma NotSeparator(n: Node)
    requires ValidNode(n)
    ensures NodeText(n) != "" && !IsSeparator(NodeText(n)[0])
  {
    if n.Num? {
      FirstChar(n.lexeme);
    }
  }

  lemma LastOf(text: string, rest: string)
    requires text != ""
    ensures LastRead(text + rest, rest) == text[|text| - 1]
  {
  }

  /** A value that has been read, with what it leaves. */
  lemma {:induction false} ValueAccepted(data: string) returns (n: Node, last: char)
    requires data != "" && ParseValue(data).Ok?
    ensures ValidNode(n) && (Scalar(n) ==> EndsHere(ParseValue(data).rest))
    ensures data == NodeText(n) + ParseValue(data).rest && Meaning(n) == ParseValue(data).value
    ensures (data[0] == '[' || data[0] == '{') <==> n.List? || n.Object?
    ensures last == LastRead(data, ParseValue(data).rest) && Closer(last)
    decreases |data|, 1
  {
    hide ParseValue, NodeText, ValidNode, Meaning, EndsHere;
    n := NodeAccepted(data);
    var rest := ParseValue(data).rest;
    NodeTaken(n, rest);
    Opening(n);
    last := NodeText(n)[|NodeText(n)| - 1];
    LastOf(NodeText(n), rest);
  }

  lemma {:induction false} ListAccepted(data: string, prev: char, last: Option<Tok>, items: seq<Json>) returns (toks: seq<Tok>)
    requires ArrayBody(data, prev, items).Ok? && Stands(prev, last, '[')
    requires last.Some? ==> last.value.Comma? || last.value.Value?
    ensures var r := ArrayBody(data, prev, items);
      ListOk(last, toks) && data == TokTexts(toks) + "]" + r.rest && r.value == Arr(items + ValuesIn(toks))
    decreases |data|, 2
  {
    hide ParseValue, NodeText, ValidNode, Meaning, EndsHere;
    var c, r := data[0], ArrayBody(data, prev, items);
    if IsWhitespace(c) {
      var more := ListAccepted(data[1..], prev, last, items);
      toks := [Blank(c)] + more;
      ListGrown(data, [c], toks, more, "]", r.rest);
      NoValue(toks, more, items);
    } else if c == ']' {
      toks := [];
      assert data == TokTexts(toks) + "]" + data[1..] && items + ValuesIn(toks) == items;
    } else if c == ',' {
      var more := ListAccepted(data[1..], ',', Some(Comma), items);
      toks := [Comma] + more;
      ListGrown(data, ",", toks, more, "]", r.rest);
      NoValue(toks, more, items);
    } else {
      var n, end := ValueAccepted(data);
      var t, rest, value := Value(n), ParseValue(data).rest, ParseValue(data).value;
      var more := ListAccepted(rest, end, Some(t), items + [value]);
      toks := [t] + more;
      ListValueGrown(data, n, more, rest, r.rest, items, last);
    }
  }

  /** A token in front. */
  lemma ListGrown(data: string, text: string, toks: seq<Tok>, more: seq<Tok>, close: string, rest: string)
    requires toks != [] && toks[1..] == more && TokText(toks[0]) == text
    requires text <= data && data[|text|..] == TokTexts(more) + close + rest
    ensures data == TokTexts(toks) + close + rest
  {
    hide TokText;
    TextsFirst(toks, close, rest);
    hide TokTexts;
    assert data == text + data[|text|..];
  }

  lemma ListValueGrown(data: string, n: Node, more: seq<Tok>, left: string, rest: string, items: seq<Json>, last: Option<Tok>)
    requires ValidNode(n) && (Scalar(n) ==> EndsHere(left)) && data == NodeText(n) + left
    requires n.List? || n.Object? ==> last.None? || last.value.Comma?
    requires ListOk(Some(Value(n)), more) && left == TokTexts(more) + "]" + rest
    ensures var toks := [Value(n)] + more;
      && ListOk(last, toks) && data == TokTexts(toks) + "]" + rest
      && items + [Meaning(n)] + ValuesIn(more) == items + ValuesIn(toks)
  {
    var toks := [Value(n)] + more;
    assert toks[1..] == more;
    if Scalar(n) && more != [] {
      assert more[0].Value? ==> ValidNode(more[0].node);
      SeparatorNext(more, "]", rest);
      assert more[0] == toks[1];
    }
    hide NodeText, ValidNode, Meaning, EndsHere;
    ListGrown(data, NodeText(n), toks, more, "]", rest);
    assert toks[0] == Value(n) && MeaningOf(toks[0]) == Meaning(n);
    assert items + [Meaning(n)] + ValuesIn(more) == items + ([Meaning(n)] + ValuesIn(more));
  }

  lemma {:induction false} ObjectAccepted(data: string, prev: char, last: Option<Tok>, name: Option<string>, key: string,
                                          members: seq<Member>) returns (toks: seq<Tok>)
    requires ObjectBody(data, prev, name, members).Ok? && Stands(prev, last, '{') && Waiting(name, last, key)
    ensures var r := ObjectBody(data, prev, name, members);
      && ObjectOk(last, toks) && data == TokTexts(toks) + "}" + r.rest
      && r.value == Obj(G.AllAppended(members, MembersIn(key, toks)))
    decreases |data|, 2
  {
    hide ParseValue, NodeText, ValidNode, Meaning, EndsHere, ParseString, UnquotedKey, Appended, AllReadable, Written, ReadOnce;
    var c, r := data[0], ObjectBody(data, prev, name, members);
    if IsWhitespace(c) {
      var more := ObjectAccepted(data[1..], prev, last, name, key, members);
      toks := [Blank(c)] + more;
      ListGrown(data, [c], toks, more, "}", r.rest);
    } else if c == ':' {
      var more := ObjectAccepted(data[1..], ':', Some(Colon), name, key, members);
      toks := [Colon] + more;
      ListGrown(data, ":", toks, more, "}", r.rest);
    } else if c == ',' {
      var more := ObjectAccepted(data[1..], ',', Some(Comma), None, key, members);
      toks := [Comma] + more;
      ListGrown(data, ",", toks, more, "}", r.rest);
    } else if c == '}' {
      toks := [];
      assert data == TokTexts(toks) + "}" + data[1..];
    } else if name.Some? {
      var n, end := ValueAccepted(data);
      var rest, value := ParseValue(data).rest, ParseValue(data).value;
      var more := ObjectAccepted(rest, end, Some(Value(n)), None, key, Appended(members, key, value));
      toks := [Value(n)] + more;
      ObjectValueGrown(data, n, more, rest, r.rest, key, last, members);
    } else if c == '"' {
      var glyphs, rest := KeyAccepted(data);
      var more := ObjectAccepted(rest, '"', Some(Key(glyphs)), Some(ReadOnce(glyphs)), ReadOnce(glyphs), members);
      toks := [Key(glyphs)] + more;
      ListGrown(data, "\"" + Written(glyphs) + "\"", toks, more, "}", r.rest);
    } else {
      var word, gap, rest := BareAccepted(data);
      var more := ObjectAccepted(rest, ':', Some(Word(word, gap)), Some(word), word, members);
      toks := [Word(word, gap)] + more;
      ListGrown(data, word + gap + ":", toks, more, "}", r.rest);
    }
  }

  lemma ObjectValueGrown(data: string, n: Node, more: seq<Tok>, left: string, rest: string, key: string, last: Option<Tok>,
                         members: seq<Member>)
    requires ValidNode(n) && (Scalar(n) ==> EndsHere(left)) && data == NodeText(n) + left
    requires last.Some? && (last.value.Key? || last.value.Colon? || last.value.Word?)
    requires ObjectOk(Some(Value(n)), more) && left == TokTexts(more) + "}" + rest
    ensures var toks := [Value(n)] + more;
      && ObjectOk(last, toks) && data == TokTexts(toks) + "}" + rest
      && G.AllAppended(Appended(members, key, Meaning(n)), MembersIn(key, more)) == G.AllAppended(members, MembersIn(key, toks))
  {
    var toks := [Value(n)] + more;
    assert toks[1..] == more;
    if Scalar(n) && more != [] {
      SeparatorNext(more, "}", rest);
      assert more[0] == toks[1];
    }
    hide NodeText, ValidNode, Meaning, EndsHere, Appended;
    ListGrown(data, NodeText(n), toks, more, "}", rest);
    assert toks[0] == Value(n) && MeaningOf(toks[0]) == Meaning(n);
    var all := MembersIn(key, toks);
    assert all[0] == Member(key, Meaning(n)) && all[1..] == MembersIn(key, more);
  }

  lemma KeyAccepted(data: string) returns (glyphs: seq<Glyph>, rest: string)
    requires data != "" && data[0] == '"' && ParseString(data).Ok?
    ensures AllReadable(glyphs) && ParseString(data) == Ok(ReadOnce(glyphs), rest) && |rest| < |data|
    ensures var text := "\"" + Written(glyphs) + "\""; text <= data && data[|text|..] == rest
  {
    hide StringBody, Written, ReadOnce;
    glyphs := StringAccepted(data[1..], "");
    rest := ParseString(data).rest;
    assert "" + ReadOnce(glyphs) == ReadOnce(glyphs);
    assert data == ['"'] + data[1..] == "\"" + Written(glyphs) + "\"" + rest;
  }

  lemma InFront(data: string, a: string, b: string)
    requires data != "" && data[1..] == a + b
    ensures data == [data[0]] + a + b
  {
    assert data == [data[0]] + data[1..];
  }

  lemma {:induction false} WordRead(data: string) returns (word: string)
    ensures data == word + SkipWord(data) && forall i :: 0 <= i < |word| ==> WordChar(word[i]) || word[i] == '-'
    decreases |data|
  {
    if data == "" || !(data[0] == '-' || IsWord(data[0])) {
      word := "";
      assert "" + data == data;
    } else {
      var more := WordRead(data[1..]);
      word := [data[0]] + more;
      InFront(data, more, SkipWord(data[1..]));
    }
  }

  lemma {:induction false} GapRead(data: string) returns (gap: string)
    ensures data == gap + SkipBlank(data) && forall i :: 0 <= i < |gap| ==> IsBlank(gap[i])
    decreases |data|
  {
    if data == "" || !IsWhitespace(data[0]) {
      gap := "";
      assert "" + data == data;
    } else {
      var more := GapRead(data[1..]);
      gap := [data[0]] + more;
      InFront(data, more, SkipBlank(data[1..]));
    }
  }

  lemma BareAccepted(data: string) returns (word: string, gap: string, rest: string)
    requires data != "" && UnquotedKey(data).Some?
    ensures UnquotedKey(data) == Some((word, rest)) && |rest| < |data|
    ensures word != "" && WordChar(word[0]) && forall i :: 0 <= i < |word| ==> WordChar(word[i]) || word[i] == '-'
    ensures forall i :: 0 <= i < |gap| ==> IsBlank(gap[i])
    ensures var text := word + gap + ":"; text <= data && data[|text|..] == rest
  {
    hide SkipWord, SkipBlank;
    var more := WordRead(data[1..]);
    word := [data[0]] + more;
    var after := SkipWord(data[1..]);
    gap := GapRead(after);
    var tail := SkipBlank(after);
    rest := tail[1..];
    assert data == [data[0]] + data[1..] == word + after && tail == ":" + rest;
    assert data[..|data| - |after|] == word;
    assert data == word + gap + ":" + rest;
  }

  /** The parser accepts exactly the texts of this grammar: blanks, a value, and nothing but space behind it, which
      a blank has to begin if the value is a number, a boolean or null. */
  lemma AcceptedIff(text: string, j: Json, rest: string)
    ensures ParseAll(text) == Ok(j, rest)
       <==> exists lead: string, n: Node :: Fits(text, j, rest, lead, n)
  {
    hide Parse, ParseValue, NodeText, ValidNode, Meaning, IsSpace, Fits;
    if ParseAll(text) == Ok(j, rest) {
      var lead, n := TextAccepted(text);
    }
    forall lead: string, n: Node | Fits(text, j, rest, lead, n) ensures ParseAll(text) == Ok(j, rest) {
      TextTaken(text, j, rest, lead, n);
    }
  }

  ghost predicate Fits(text: string, j: Json, rest: string, lead: string, n: Node) {
    && (forall i :: 0 <= i < |lead| ==> IsBlank(lead[i]))
    && ValidNode(n) && j == Meaning(n) && text == lead + NodeText(n) + rest
    && (forall i :: 0 <= i < |rest| ==> IsBlank(rest[i]) || rest[i] == 11 as char || rest[i] == 12 as char)
    && (Scalar(n) && rest != "" ==> IsBlank(rest[0]))
  }

  lemma TextTaken(text: string, j: Json, rest: string, lead: string, n: Node)
    requires Fits(text, j, rest, lead, n)
    ensures ParseAll(text) == Ok(j, rest)
  {
    hide Parse, ParseValue, NodeText, ValidNode, Meaning;
    SpaceBehind(rest);
    AllBlanks(lead);
    NodeTaken(n, rest);
    ParseTaken(lead, NodeText(n), rest, j);
  }

  lemma SpaceBehind(rest: string)
    requires forall i :: 0 <= i < |rest| ==> IsBlank(rest[i]) || rest[i] == 11 as char || rest[i] == 12 as char
    ensures forall i :: 0 <= i < |rest| ==> IsSpace(rest[i])
    ensures rest == "" || IsBlank(rest[0]) ==> EndsHere(rest)
  {
  }

  lemma AllBlanks(s: string)
    requires forall i :: 0 <= i < |s| ==> IsBlank(s[i])
    ensures AllBlank(s)
  {
  }

  lemma ParseTaken(lead: string, text: string, rest: string, j: Json)
    requires AllBlank(lead) && ReadsAs(text, rest, j) && forall i :: 0 <= i < |rest| ==> IsSpace(rest[i])
    ensures ParseAll(lead + text + rest) == Ok(j, rest)
  {
    hide Parse, ParseValue, IsSpace;
    var data := text + rest;
    assert data[0] == text[0] && lead + text + rest == lead + data;
    G.ParseSkip(lead, data);
    G.ParseHere(data);
  }

  lemma {:induction false} ParseAccepted(text: string) returns (lead: string, n: Node)
    requires Parse(text).Ok?
    ensures forall i :: 0 <= i < |lead| ==> IsBlank(lead[i])
    ensures ValidNode(n) && Parse(text).value == Meaning(n) && text == lead + NodeText(n) + Parse(text).rest
    ensures Scalar(n) ==> EndsHere(Parse(text).rest)
    decreases |text|
  {
    hide ParseValue, NodeText, ValidNode, Meaning, EndsHere, Scalar;
    if IsWhitespace(text[0]) {
      lead, n := ParseAccepted(text[1..]);
      lead := [text[0]] + lead;
      assert text == [text[0]] + text[1..];
    } else {
      lead := "";
      n := NodeAccepted(text);
      assert "" + NodeText(n) == NodeText(n);
    }
  }

  lemma TextAccepted(text: string) returns (lead: string, n: Node)
    requires ParseAll(text).Ok?
    ensures Fits(text, ParseAll(text).value, ParseAll(text).rest, lead, n)
  {
    hide Parse, NodeText, ValidNode, Meaning;
    lead, n := ParseAccepted(text);
    var rest := Parse(text).rest;
    forall i | 0 <= i < |rest| ensures IsBlank(rest[i]) || rest[i] == 11 as char || rest[i] == 12 as char {
      assert IsSpace(rest[i]);
    }
    if Scalar(n) && rest != "" {
      assert IsSpace(rest[0]) && IsSeparator(rest[0]);
    }
  }
}
