/** What the parser accepts and what it yields: every number of RFC 8259, and only elements that can
    be printed and read again. */
module JsonReading {
  import opened JsonSpec
  import opened JsonStrings
  import opened JsonRoundTrip
  import opened JsonCanon
  import opened JsonTheorems

  // ----- the numbers of section 6 of RFC 8259 -----

  predicate Digits(s: string) { s != "" && forall i :: 0 <= i < |s| ==> '0' <= s[i] <= '9' }

  predicate IntPart(s: string) { Digits(s) && (s[0] == '0' ==> |s| == 1) }

  /** An exponent: its letter, its sign if any, and its digits. */
  datatype Exponent = Exponent(letter: char, sign: string, digits: string) {
    predicate Valid() { (letter == 'e' || letter == 'E') && (sign == "" || sign == "+" || sign == "-") && Digits(digits) }

    function Text(): string { [letter] + sign + digits }
  }

  datatype Number = Number(minus: bool, whole: string, frac: Option<string>, exp: Option<Exponent>) {
    predicate Valid() {
      IntPart(whole) && (frac.Some? ==> Digits(frac.value)) && (exp.Some? ==> exp.value.Valid())
    }

    function FracText(): string { if frac.Some? then "." + frac.value else "" }

    function ExpText(): string { if exp.Some? then exp.value.Text() else "" }

    function Text(): string { (if minus then "-" else "") + whole + FracText() + ExpText() }
  }

  /** A run of digits changes nothing but the last character, unless a leading zero came before. */
  lemma {:induction false} DigitsScan(digits: string, tail: string, n: Scan, out: string)
    requires Digits(digits)
    requires n.prev != '\0' && (n.zeroStarted ==> n.seenDot || n.seenExponent)
    ensures NumberBody(digits + tail, n, out)
         == NumberBody(tail, n.(prev := digits[|digits| - 1]), out + digits)
    decreases |digits|
  {
    var m := n.(prev := digits[0]);
    assert (digits + tail)[1..] == digits[1..] + tail;
    assert NumberStep(n, digits[0]) == Ok(m, "");
    if |digits| == 1 {
      assert digits[1..] + tail == tail && out + digits == out + [digits[0]];
    } else {
      DigitsScan(digits[1..], tail, m, out + [digits[0]]);
      assert out + [digits[0]] + digits[1..] == out + digits;
    }
  }

  lemma OneScan(c: char, tail: string, n: Scan, m: Scan, out: string)
    requires !IsSeparator(c) && NumberStep(n, c) == Ok(m, "")
    ensures NumberBody([c] + tail, n, out) == NumberBody(tail, m, out + [c])
  {
    assert ([c] + tail)[1..] == tail;
  }

  /** The scan after an integer part. */
  lemma IntScan(minus: bool, whole: string, tail: string)
    returns (n: Scan)
    requires IntPart(whole)
    ensures ParseNumber((if minus then "-" else "") + whole + tail)
         == NumberBody(tail, n, (if minus then "-" else "") + whole)
    ensures AnyDigit(n.prev) && !n.seenDot && !n.seenExponent
  {
    hide NumberBody;
    var sign := if minus then "-" else "";
    var start := if minus then SCAN_START.(prev := '-') else SCAN_START;
    if minus {
      OneScan('-', whole + tail, SCAN_START, start, "");
      assert sign + whole + tail == ['-'] + (whole + tail);
      assert "" + ['-'] == sign;
    } else {
      assert sign + whole + tail == whole + tail;
    }
    var first := Scan(whole[0], whole[0] == '0' && !minus, false, false);
    OneScan(whole[0], whole[1..] + tail, start, first, sign);
    assert [whole[0]] + (whole[1..] + tail) == whole + tail;
    if |whole| == 1 {
      n := first;
      assert whole[1..] + tail == tail && sign + whole == sign + [whole[0]];
    } else {
      DigitsScan(whole[1..], tail, first, sign + [whole[0]]);
      n := first.(prev := whole[|whole| - 1]);
      assert sign + [whole[0]] + whole[1..] == sign + whole;
    }
  }

  lemma FracScan(frac: string, tail: string, n: Scan, out: string) returns (m: Scan)
    requires Digits(frac) && AnyDigit(n.prev) && !n.seenDot && !n.seenExponent
    ensures NumberBody("." + frac + tail, n, out) == NumberBody(tail, m, out + ("." + frac))
    ensures AnyDigit(m.prev) && m.seenDot && !m.seenExponent
  {
    hide NumberBody;
    var dot := n.(prev := '.', seenDot := true);
    OneScan('.', frac + tail, n, dot, out);
    assert "." + frac + tail == ['.'] + (frac + tail);
    DigitsScan(frac, tail, dot, out + ['.']);
    m := dot.(prev := frac[|frac| - 1]);
    assert out + ['.'] + frac == out + ("." + frac);
  }

  lemma ExpScan(e: Exponent, n: Scan, out: string) returns (m: Scan)
    requires e.Valid() && AnyDigit(n.prev) && !n.seenExponent
    ensures NumberBody(e.Text(), n, out) == NumberBody("", m, out + e.Text())
    ensures AnyDigit(m.prev) && m.seenDot == n.seenDot
  {
    hide NumberBody;
    var after := n.(prev := e.letter, seenExponent := true);
    OneScan(e.letter, e.sign + e.digits, n, after, out);
    assert e.Text() == [e.letter] + (e.sign + e.digits);
    var next := out + [e.letter];
    var signed := SignScan(e, after, next);
    DigitsScan(e.digits, "", signed, next + e.sign);
    assert e.digits + "" == e.digits;
    m := signed.(prev := e.digits[|e.digits| - 1]);
    assert next + e.sign + e.digits == out + e.Text();
  }

  lemma SignScan(e: Exponent, n: Scan, out: string) returns (m: Scan)
    requires e.Valid() && IsE(n.prev) && n.seenExponent
    ensures NumberBody(e.sign + e.digits, n, out) == NumberBody(e.digits, m, out + e.sign)
    ensures m == n.(prev := m.prev) && m.prev != '\0'
  {
    hide NumberBody;
    if e.sign == "" {
      m := n;
      assert e.sign + e.digits == e.digits && out + e.sign == out;
    } else {
      m := n.(prev := e.sign[0]);
      OneScan(e.sign[0], e.digits, n, m, out);
      assert [e.sign[0]] == e.sign;
    }
  }

  /** Every number of the grammar is read whole, as a real if it has a fraction and as an integer if
      it has none. */
  lemma GrammarNumber(x: Number)
    requires x.Valid()
    ensures NumberLexeme(if x.frac.Some? then RealKind else IntegerKind, x.Text())
  {
    hide NumberBody;
    var head := (if x.minus then "-" else "") + x.whole;
    var text := x.Text();
    assert text == head + (x.FracText() + x.ExpText());
    var n := IntScan(x.minus, x.whole, x.FracText() + x.ExpText());
    var m := n;
    if x.frac.Some? {
      m := FracScan(x.frac.value, x.ExpText(), n, head);
    } else {
      assert x.FracText() + x.ExpText() == x.ExpText();
    }
    var out := head + x.FracText();
    assert x.frac.None? ==> out == head;
    var last := m;
    if x.exp.Some? {
      last := ExpScan(x.exp.value, m, out);
    }
    assert out + x.ExpText() == text;
    assert x.exp.None? ==> out == text;
    EndScan(last, text);
    assert text[0] == head[0];
  }

  lemma EndScan(n: Scan, out: string)
    requires AnyDigit(n.prev)
    ensures NumberBody("", n, out) == Ok(Prim(if n.seenDot then RealKind else IntegerKind, out), "")
  {
  }

  // ----- everything read can be printed -----

  lemma BytesJoin(s: string, t: string)
    ensures Bytes(s + t) <==> Bytes(s) && Bytes(t)
  {
    if Bytes(s + t) {
      assert forall i :: 0 <= i < |s| ==> s[i] == (s + t)[i];
      assert forall i :: 0 <= i < |t| ==> t[i] == (s + t)[|s| + i];
    }
  }

  lemma {:induction false} StringBytes(data: string, out: string)
    requires Bytes(data) && Bytes(out) && StringBody(data, out).Ok?
    ensures Bytes(StringBody(data, out).value) && Bytes(StringBody(data, out).rest)
    decreases |data|
  {
    if data[0] == '"' {
    } else if data[0] != '\\' {
      StringBytes(data[1..], out + [data[0]]);
    } else {
      assert Bytes(Unescaped(data[1]));
      StringBytes(data[2..], out + Unescaped(data[1]));
    }
  }

  lemma {:induction false} DecodedBytes(s: string)
    requires Bytes(s)
    ensures Bytes(Decoded(s))
    decreases |s|
  {
    if s != "" {
      var (out, n) := DecodedHead(s);
      DecodedBytes(s[n..]);
      assert Bytes(out);
      BytesJoin(out, Decoded(s[n..]));
    }
  }

  /** The lexeme that a number keeps is itself a number of the same kind. */
  lemma {:induction false} NumberKeepsLexeme(data: string, n: Scan, out: string)
    returns (lexeme: string)
    requires NumberBody(data, n, out).Ok?
    ensures data == lexeme + NumberBody(data, n, out).rest
    ensures NumberBody(lexeme, n, out) == Ok(NumberBody(data, n, out).value, "")
    ensures NumberBody(data, n, out).value.Prim? && NumberBody(data, n, out).value.text == out + lexeme
    ensures NumberBody(data, n, out).value.kind in {IntegerKind, RealKind}
    decreases |data|
  {
    if data == "" || IsSeparator(data[0]) {
      lexeme := "";
      assert out + lexeme == out;
    } else {
      var m := NumberStep(n, data[0]).value;
      var tail := NumberKeepsLexeme(data[1..], m, out + [data[0]]);
      lexeme := [data[0]] + tail;
      assert lexeme[1..] == tail;
      assert out + [data[0]] + tail == out + lexeme;
    }
  }

  lemma ScalarValid(data: string)
    requires data != "" && Bytes(data) && ParseScalar(data).Ok?
    ensures Valid(ParseScalar(data).value) && Bytes(ParseScalar(data).rest)
  {
    if StartsNumber(data[0]) {
      var lexeme := NumberKeepsLexeme(data, SCAN_START, "");
      assert "" + lexeme == lexeme;
      BytesJoin(lexeme, ParseNumber(data).rest);
      NumberShortens(data);
      assert lexeme[0] == data[0];
    }
  }

  lemma {:induction false} ArrayValid(data: string, prev: char, items: seq<Json>)
    requires Bytes(data) && (forall i :: 0 <= i < |items| ==> Valid(items[i])) && ArrayBody(data, prev, items).Ok?
    ensures Valid(ArrayBody(data, prev, items).value) && Bytes(ArrayBody(data, prev, items).rest)
    decreases |data|
  {
    hide ParseValue;
    if IsWhitespace(data[0]) {
      ArrayValid(data[1..], prev, items);
    } else if data[0] == ']' {
    } else if data[0] == ',' {
      ArrayValid(data[1..], ',', items);
    } else {
      ValueValid(data);
      var r := ParseValue(data);
      ArrayValid(r.rest, LastRead(data, r.rest), items + [r.value]);
    }
  }

  ghost predicate GoodMembers(members: seq<Member>) {
    UniqueNames(members) && forall x :: x in members ==> GoodMember(x)
  }

  lemma AppendedGood(members: seq<Member>, name: string, value: Json)
    requires GoodMembers(members) && Bytes(name) && Valid(value)
    ensures GoodMembers(Appended(members, name, value))
  {
    hide Appended, Valid;
    AppendedUnique(members, name, value);
  }

  lemma {:induction false} ObjectValid(data: string, prev: char, name: Option<string>, members: seq<Member>)
    requires Bytes(data) && (name.Some? ==> Bytes(name.value)) && GoodMembers(members)
    requires ObjectBody(data, prev, name, members).Ok?
    ensures Valid(ObjectBody(data, prev, name, members).value)
    ensures Bytes(ObjectBody(data, prev, name, members).rest)
    decreases |data|
  {
    hide ParseValue, UnquotedKey, StringBody;
    if IsWhitespace(data[0]) {
      ObjectValid(data[1..], prev, name, members);
    } else if data[0] == ':' || data[0] == ',' {
      ObjectValid(data[1..], data[0], name, members);
    } else if data[0] == '}' {
      ValidMembers(members);
    } else if name.Some? {
      ValueValid(data);
      var r := ParseValue(data);
      AppendedGood(members, name.value, r.value);
      ObjectValid(r.rest, LastRead(data, r.rest), None, Appended(members, name.value, r.value));
    } else if data[0] == '"' {
      StringBytes(data[1..], "");
      var r := ParseString(data);
      ObjectValid(r.rest, '"', Some(r.value), members);
    } else {
      UnquotedBytes(data);
      var (key, rest) := UnquotedKey(data).value;
      ObjectValid(rest, ':', Some(key), members);
    }
  }

  lemma {:induction false} SkipWordBytes(s: string)
    requires Bytes(s)
    ensures Bytes(SkipWord(s))
  {
    if s != "" {
      SkipWordBytes(s[1..]);
    }
  }

  lemma {:induction false} SkipBlankBytes(s: string)
    requires Bytes(s)
    ensures Bytes(SkipBlank(s))
  {
    if s != "" {
      SkipBlankBytes(s[1..]);
    }
  }

  lemma UnquotedBytes(data: string)
    requires Bytes(data) && UnquotedKey(data).Some?
    ensures Bytes(UnquotedKey(data).value.0) && Bytes(UnquotedKey(data).value.1)
  {
    SkipWordBytes(data[1..]);
    SkipBlankBytes(SkipWord(data[1..]));
  }

  lemma {:induction false} ValueValid(data: string)
    requires data != "" && Bytes(data) && ParseValue(data).Ok?
    ensures Valid(ParseValue(data).value) && Bytes(ParseValue(data).rest)
    decreases |data|, 0
  {
    hide ArrayBody, ObjectBody, StringBody, ParseScalar, Decoded;
    if data[0] == '"' {
      StringBytes(data[1..], "");
      DecodedBytes(StringBody(data[1..], "").value);
    } else if data[0] == '[' {
      ArrayValid(data[1..], '[', []);
    } else if data[0] == '{' {
      ObjectValid(data[1..], '{', None, []);
    } else {
      ScalarValid(data);
    }
  }

  lemma {:induction false} ParseValid(data: string)
    requires Bytes(data) && Parse(data).Ok?
    ensures Valid(Parse(data).value)
    decreases |data|
  {
    hide ParseValue, Valid;
    if IsWhitespace(data[0]) {
      ParseValid(data[1..]);
    } else {
      ValueValid(data);
    }
  }

  /** Whatever text the parser has accepted, its element prints to a text that the parser accepts to
      the end, in either style; and the element is back, in key order, if and only if its strings
      survive. */
  lemma Reprint(text: string, style: Style)
    requires Bytes(text) && ParseAll(text).Ok?
    ensures var j := ParseAll(text).value;
      && Valid(j)
      && ParseAll(Printed(j, style)) == Ok(Back(Canonical(j)), "")
      && (ParseAll(Printed(j, style)) == Ok(Canonical(j), "") <==> Faithful(j))
  {
    hide Parse, Printed, Canonical, Faithful, Back, Valid;
    ParseValid(text);
    RoundTrip(ParseAll(text).value, style);
  }
}
