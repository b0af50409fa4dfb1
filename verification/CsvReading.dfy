/** What the reader makes of any text, told on the text: fields in the forms a record may be written in, the
    separators between them, and whatever stands at the end. */
module CsvReading {
  import opened CsvSpec
  import opened CsvRoundTrip

  predicate White(c: char) { c in " \t\r\n" }

  predicate AllWhite(s: string) { forall i :: 0 <= i < |s| ==> White(s[i]) }

  /** Text that needs no quotes to be read as one field: it may have blanks and line ends anywhere. */
  predicate Unquoted(s: string) { forall i :: 0 <= i < |s| ==> s[i] != ',' && s[i] != '"' }

  /** A field as it is written. Blanks around the quotes do not belong to it; other blanks do. */
  datatype Field = Bare(text: string) | Quoted(before: string, text: string, after: string) {
    predicate Valid() {
      match this
      case Bare(text) => Unquoted(text)
      case Quoted(before, _, after) => AllWhite(before) && AllWhite(after)
    }

    function Text(): string {
      match this
      case Bare(text) => text
      case Quoted(before, text, after) => before + "\"" + Doubled(text) + "\"" + after
    }

    /** Exactly one blank behind the closing quote. */
    predicate OneBlank() { Quoted? && |after| == 1 }
  }

  /** What a text ends in: a field; a quoted field that is never closed; or a field with something behind it
      that cannot stand there. */
  datatype Last = Whole(field: Field) | Unclosed(before: string, text: string) | Broken(field: Field, bad: char, rest: string) {
    predicate Valid() {
      match this
      case Whole(f) => f.Valid()
      case Unclosed(before, _) => AllWhite(before)
      case Broken(f, bad, _) =>
        && f.Valid()
        && match f
           case Bare(text) => !AllWhite(text) && bad == '"'
           case Quoted(_, _, after) => bad != ',' && !White(bad) && (after == "" ==> bad != '"')
    }

    function Text(): string {
      match this
      case Whole(f) => f.Text()
      case Unclosed(before, text) => before + "\"" + Doubled(text)
      case Broken(f, bad, rest) => f.Text() + [bad] + rest
    }
  }

  /** A whole text: fields with a comma behind each, and its end. */
  datatype Line = Line(fields: seq<Field>, last: Last) {
    predicate Valid() { last.Valid() && forall i :: 0 <= i < |fields| ==> fields[i].Valid() }

    function Text(): string { Separated(fields) + last.Text() }

    /** What the last field is read as. A line end behind unquoted text is dropped. An empty last field has
        the text of a quoted field before it. */
    function LastText(f: Field): string {
      match f
      case Quoted(_, text, _) => text
      case Bare(text) =>
        if text == "" then
          if fields != [] && fields[|fields| - 1].Quoted? then fields[|fields| - 1].text else ""
        else if |text| >= 2 && text[|text| - 2..] == "\r\n" then text[..|text| - 2]
        else text
    }

    function Meaning(): Parsed {
      if exists i :: 0 <= i < |fields| && fields[i].OneBlank() then Undefined
      else
        match last
        case Whole(f) => Fields(TextsOf(fields) + [LastText(f)])
        case Unclosed(_, _) => CsvError
        case Broken(_, _, rest) => if rest == "" then Fields(TextsOf(fields) + [""]) else CsvError
    }
  }

  function Separated(fields: seq<Field>): string {
    if fields == [] then "" else fields[0].Text() + "," + Separated(fields[1..])
  }

  function TextsOf(fields: seq<Field>): seq<string> {
    if fields == [] then [] else [fields[0].text] + TextsOf(fields[1..])
  }

  // ----- running over a field -----

  lemma {:induction false} BareRun(a: Auto, s: string)
    requires a.Auto? && (a.state == PreStartSpace || a.state == NoQuoteMode) && a.open && Unquoted(s)
    ensures Exec(a, s)
         == Auto(if AllWhite(s) then a.state else NoQuoteMode, a.text + s, true, a.out)
    decreases |s|
  {
    if s == "" {
      assert a.text + s == a.text;
    } else {
      BareRun(Step(a, s[0]), s[1..]);
      assert a.text + [s[0]] + s[1..] == a.text + s;
      WhiteFirst(s);
    }
  }

  lemma WhiteFirst(s: string)
    requires s != ""
    ensures AllWhite(s) <==> White(s[0]) && AllWhite(s[1..])
  {
    if White(s[0]) && AllWhite(s[1..]) {
      forall i | 0 <= i < |s| ensures White(s[i]) {
        if i > 0 {
          assert White(s[1..][i - 1]);
        }
      }
    }
  }

  lemma BareField(a: Auto, s: string)
    requires AtField(a) && s != "" && Unquoted(s)
    ensures Exec(a, s) == Auto(if AllWhite(s) then PreStartSpace else NoQuoteMode, s, true, a.out)
  {
    hide Exec;
    BareRunFrom(a, s);
    WhiteFirst(s);
    var b := Step(a, s[0]);
    BareRun(b, s[1..]);
    assert [s[0]] + s[1..] == s;
  }

  lemma BareRunFrom(a: Auto, s: string)
    requires s != ""
    ensures Exec(a, s) == Exec(Step(a, s[0]), s[1..])
  {
  }

  /** The opening quote, with blanks before it or without. */
  lemma Opening(a: Auto, before: string)
    requires AtField(a) && AllWhite(before)
    ensures Exec(a, before + "\"") == Auto(LeadingQuote, "", false, a.out)
  {
    hide Exec;
    ExecSplit(a, before, "\"");
    if before == "" {
      NoText(a);
      ExecOne(a, '"');
    } else {
      BareField(a, before);
      ExecOne(Auto(PreStartSpace, before, true, a.out), '"');
    }
  }

  lemma NoText(a: Auto)
    ensures Exec(a, "") == a
  {
  }

  lemma Body(a: Auto, before: string, text: string)
    requires AtField(a) && AllWhite(before)
    ensures Exec(a, before + "\"" + Doubled(text))
         == if text == "" then Auto(LeadingQuote, "", false, a.out) else Auto(WithQuoteMode, text, true, a.out)
  {
    hide Exec, Doubled;
    ExecSplit(a, before + "\"", Doubled(text));
    Opening(a, before);
    QuotedTail(Auto(LeadingQuote, "", false, a.out), text);
    assert "" + text == text;
  }

  lemma Closed(a: Auto, before: string, text: string)
    requires AtField(a) && AllWhite(before)
    ensures Exec(a, before + "\"" + Doubled(text) + "\"") == Auto(InternalQuote, text, true, a.out)
  {
    hide Exec, Doubled;
    ExecSplit(a, before + "\"" + Doubled(text), "\"");
    Body(a, before, text);
    ExecOne(Exec(a, before + "\"" + Doubled(text)), '"');
  }

  lemma {:induction false} BlanksAfter(a: Auto, s: string)
    requires a.Auto? && a.state == SpaceAfterQuote && AllWhite(s)
    ensures Exec(a, s) == if s == "" then a else Auto(SpaceAfterQuote, a.text, false, a.out)
    decreases |s|
  {
    if s != "" {
      WhiteFirst(s);
      BlanksAfter(Step(a, s[0]), s[1..]);
    }
  }

  lemma After(text: string, out: seq<string>, after: string)
    requires AllWhite(after)
    ensures Exec(Auto(InternalQuote, text, true, out), after)
         == if after == "" then Auto(InternalQuote, text, true, out)
            else Auto(SpaceAfterQuote, text, |after| == 1, out)
  {
    hide Exec;
    var a := Auto(InternalQuote, text, true, out);
    if after == "" {
      NoText(a);
    } else {
      BareRunFrom(a, after);
      WhiteFirst(after);
      BlanksAfter(Auto(SpaceAfterQuote, text, true, out), after[1..]);
    }
  }

  /** The automaton behind a field. */
  function Behind(a: Auto, f: Field): Auto
    requires a.Auto?
  {
    match f
    case Bare(text) =>
      if text == "" then a else Auto(if AllWhite(text) then PreStartSpace else NoQuoteMode, text, true, a.out)
    case Quoted(_, text, after) =>
      if after == "" then Auto(InternalQuote, text, true, a.out)
      else Auto(SpaceAfterQuote, text, |after| == 1, a.out)
  }

  lemma FieldRun(a: Auto, f: Field)
    requires AtField(a) && f.Valid()
    ensures Exec(a, f.Text()) == Behind(a, f)
  {
    hide Exec, Doubled;
    match f
    case Bare(text) =>
      if text == "" {
        NoText(a);
      } else {
        BareField(a, text);
      }
    case Quoted(before, text, after) =>
      ExecSplit(a, before + "\"" + Doubled(text) + "\"", after);
      Closed(a, before, text);
      After(text, a.out, after);
  }

  // ----- separators -----

  /** What the buffer keeps behind a field's comma. */
  function Kept(f: Field): string { if f.Quoted? then f.text else "" }

  lemma CommaRun(a: Auto, f: Field)
    requires AtField(a) && f.Valid()
    ensures Exec(a, f.Text() + ",") == if f.OneBlank() then Unterminated else Auto(Separator, Kept(f), false, a.out + [f.text])
  {
    hide Exec, Field.Text, AllWhite;
    ExecSplit(a, f.Text(), ",");
    FieldRun(a, f);
    ExecOne(Behind(a, f), ',');
  }

  lemma {:induction false} Stuck(s: string)
    ensures Exec(Unterminated, s) == Unterminated && Exec(Malformed, s) == Malformed
    decreases |s|
  {
    if s != "" {
      Stuck(s[1..]);
    }
  }

  /** The automaton behind fields with their commas. */
  lemma {:induction false} SeparatedRun(a: Auto, fields: seq<Field>) returns (b: Auto)
    requires AtField(a) && forall i :: 0 <= i < |fields| ==> fields[i].Valid()
    ensures b == Exec(a, Separated(fields))
    ensures (exists i :: 0 <= i < |fields| && fields[i].OneBlank()) ==> b == Unterminated
    ensures !(exists i :: 0 <= i < |fields| && fields[i].OneBlank()) ==>
      && AtField(b) && b.out == a.out + TextsOf(fields)
      && b.text == if fields == [] then a.text else Kept(fields[|fields| - 1])
    decreases |fields|
  {
    hide Exec, Field.Text, Field.Valid, Field.OneBlank;
    if fields == [] {
      NoText(a);
      b := a;
      assert a.out + TextsOf(fields) == a.out;
    } else {
      var f, rest := fields[0], fields[1..];
      ExecSplit(a, f.Text() + ",", Separated(rest));
      CommaRun(a, f);
      if f.OneBlank() {
        Stuck(Separated(rest));
        b := Unterminated;
        assert fields[0].OneBlank();
      } else {
        b := SeparatedRun(Exec(a, f.Text() + ","), rest);
        OneBlankLater(fields);
        assert a.out + [f.text] + TextsOf(rest) == a.out + TextsOf(fields);
      }
    }
  }

  lemma OneBlankLater(fields: seq<Field>)
    requires fields != [] && !fields[0].OneBlank()
    ensures (exists i :: 0 <= i < |fields| && fields[i].OneBlank())
       <==> exists i :: 0 <= i < |fields[1..]| && fields[1..][i].OneBlank()
  {
    hide Field.OneBlank;
    if i :| 0 <= i < |fields| && fields[i].OneBlank() {
      assert fields[1..][i - 1].OneBlank();
    }
    if i :| 0 <= i < |fields[1..]| && fields[1..][i].OneBlank() {
      assert fields[i + 1].OneBlank();
    }
  }

  // ----- the end of a text -----

  lemma WholeEnd(a: Auto, f: Field)
    requires AtField(a) && f.Valid()
    ensures Finish(Exec(a, f.Text())) == Fields(a.out + [if f == Bare("") then a.text else Line([], Whole(f)).LastText(f)])
  {
    hide Exec;
    FieldRun(a, f);
    if f.Bare? && f.text != "" {
      var n := |f.text|;
      assert n >= 2 ==> f.text[n - 2..] == [f.text[n - 2], f.text[n - 1]];
      assert "\r\n" == ['\r', '\n'];
    }
  }

  lemma UnclosedEnd(a: Auto, before: string, text: string)
    requires AtField(a) && AllWhite(before)
    ensures Finish(Exec(a, before + "\"" + Doubled(text))) == CsvError
  {
    hide Exec, Doubled;
    Body(a, before, text);
  }

  lemma BrokenEnd(a: Auto, last: Last)
    requires AtField(a) && last.Broken? && last.Valid()
    ensures Finish(Exec(a, last.Text())) == if last.rest == "" then Fields(a.out + [""]) else CsvError
  {
    hide Exec, Field.Text;
    var f, bad, rest := last.field, last.bad, last.rest;
    assert f.Text() + [bad] + rest == f.Text() + ([bad] + rest);
    ExecSplit(a, f.Text(), [bad] + rest);
    FieldRun(a, f);
    BareRunFrom(Behind(a, f), [bad] + rest);
    assert ([bad] + rest)[1..] == rest;
    assert NowhereToGo(Step(Behind(a, f), bad), a.out) by {
      hide Finish;
      BadChar(a, last);
    }
    Lost(Step(Behind(a, f), bad), rest, a.out);
  }

  predicate NowhereToGo(b: Auto, out: seq<string>) { b.Auto? && b.state == Error && b.text == "" && b.out == out }

  lemma BadChar(a: Auto, last: Last)
    requires AtField(a) && last.Broken? && last.Valid()
    ensures NowhereToGo(Step(Behind(a, last.field), last.bad), a.out)
  {
  }

  lemma Lost(b: Auto, rest: string, out: seq<string>)
    requires NowhereToGo(b, out)
    ensures Finish(Exec(b, rest)) == if rest == "" then Fields(out + [""]) else CsvError
  {
    if rest != "" {
      Stuck(rest[1..]);
    }
  }

  // ----- every text -----

  /** Every text is read as what is written in it. */
  lemma Reading(line: Line)
    requires line.Valid()
    ensures Parse(line.Text()) == line.Meaning()
  {
    hide Exec, Finish, Last.Valid, Last.Text, Separated, TextsOf, Field.Valid, Field.OneBlank;
    ExecSplit(START, Separated(line.fields), line.last.Text());
    var b := SeparatedRun(START, line.fields);
    if exists i :: 0 <= i < |line.fields| && line.fields[i].OneBlank() {
      Stuck(line.last.Text());
      EndsUndefined();
    } else {
      assert b.out == TextsOf(line.fields);
      LastRun(b, line);
    }
  }

  lemma EndsUndefined()
    ensures Finish(Unterminated) == Undefined
  {
  }

  lemma LastRun(b: Auto, line: Line)
    requires AtField(b) && line.last.Valid() && b.out == TextsOf(line.fields)
    requires b.text == if line.fields == [] then "" else Kept(line.fields[|line.fields| - 1])
    requires !exists i :: 0 <= i < |line.fields| && line.fields[i].OneBlank()
    ensures Finish(Exec(b, line.last.Text())) == line.Meaning()
  {
    hide Exec, Finish, TextsOf, Field.Text, Field.Valid, Field.OneBlank, AtField;
    match line.last
    case Whole(f) => WholeEnd(b, f);
    case Unclosed(before, text) => UnclosedEnd(b, before, text);
    case Broken(_, _, _) => BrokenEnd(b, line.last);
  }

  function WhiteCount(s: string): (n: nat)
    ensures n <= |s| && AllWhite(s[..n]) && (n < |s| ==> !White(s[n]))
  {
    if s == "" || !White(s[0]) then 0
    else
      var n := 1 + WhiteCount(s[1..]);
      WhiteFirst(s[..n]);
      assert s[..n][1..] == s[1..][..n - 1];
      n
  }

  function BareCount(s: string): (n: nat)
    ensures n <= |s| && Unquoted(s[..n]) && (n < |s| ==> s[n] == ',' || s[n] == '"')
  {
    if s == "" || s[0] == ',' || s[0] == '"' then 0 else 1 + BareCount(s[1..])
  }

  /** The text behind an opening quote, up to the quote that closes it, if one does. */
  lemma {:induction false} QuoteSplit(s: string) returns (text: string, closed: bool, rest: string)
    ensures s == Doubled(text) + (if closed then "\"" + rest else "")
    ensures closed && rest != "" ==> rest[0] != '"'
    ensures |rest| <= |s|
    decreases |s|
  {
    if s == "" {
      text, closed, rest := "", false, "";
    } else if s[0] == '"' && (|s| == 1 || s[1] != '"') {
      text, closed, rest := "", true, s[1..];
    } else {
      var n := if s[0] == '"' then 2 else 1;
      text, closed, rest := QuoteSplit(s[n..]);
      text := [s[0]] + text;
      DoubledFirst(s[0], text[1..]);
      assert s == s[..n] + s[n..];
    }
  }

  lemma DoubledFirst(c: char, s: string)
    ensures Doubled([c] + s) == (if c == '"' then "\"\"" else [c]) + Doubled(s)
  {
    assert ([c] + s)[1..] == s;
  }

  lemma OnlyLast(last: Last)
    requires last.Valid()
    ensures Line([], last).Valid() && Line([], last).Text() == last.Text()
  {
    hide Last.Valid, Last.Text;
    assert Separated([]) + last.Text() == last.Text();
  }

  lemma OneMore(f: Field, more: Line)
    requires f.Valid() && more.Valid()
    ensures var line := Line([f] + more.fields, more.last);
      line.Valid() && line.Text() == f.Text() + ("," + more.Text())
  {
    hide Last.Valid, Last.Text, Field.Valid, Field.Text;
    assert ([f] + more.fields)[1..] == more.fields;
    assert f.Text() + "," + Separated(more.fields) + more.last.Text() == f.Text() + ("," + more.Text());
  }

  /** Every text is the text of a line. */
  lemma {:induction false} Written(s: string) returns (line: Line)
    ensures line.Valid() && line.Text() == s
    decreases |s|
  {
    hide Doubled, AllWhite, Line.Valid, Line.Text, Field.Text;
    var f, open, rest := FirstField(s);
    if open {
      line := Line([], Unclosed(f.before, f.text));
      OnlyLast(line.last);
    } else if rest == "" {
      line := Line([], Whole(f));
      OnlyLast(line.last);
      assert s == f.Text();
    } else if rest[0] == ',' {
      var more := Written(rest[1..]);
      line := Line([f] + more.fields, more.last);
      OneMore(f, more);
      assert rest == "," + rest[1..];
    } else {
      line := Line([], Broken(f, rest[0], rest[1..]));
      OnlyLast(line.last);
      assert rest == [rest[0]] + rest[1..];
      assert f.Text() + [rest[0]] + rest[1..] == f.Text() + rest;
    }
  }

  /** The field at the head of a text and what follows it. */
  lemma FirstField(s: string) returns (f: Field, open: bool, rest: string)
    ensures f.Valid()
    ensures open ==> f.Quoted? && s == f.before + "\"" + Doubled(f.text)
    ensures !open ==> s == f.Text() + rest
    ensures !open && rest != "" && rest[0] != ',' ==> Broken(f, rest[0], rest[1..]).Valid()
  {
    var n := WhiteCount(s);
    if n < |s| && s[n] == '"' {
      var text, closed, tail := QuoteSplit(s[n + 1..]);
      var before, after := s[..n], tail[..WhiteCount(tail)];
      open, rest, f := !closed, tail[WhiteCount(tail)..], Quoted(before, text, after);
      hide Doubled, AllWhite;
      assert s == before + "\"" + s[n + 1..];
      if closed {
        assert tail == after + rest;
        Regrouped(before, Doubled(text), after, rest);
        assert after == "" ==> rest == tail;
      }
    } else {
      var m := BareCount(s);
      open, rest, f := false, s[m..], Bare(s[..m]);
      assert s == s[..m] + s[m..];
      if m < |s| && s[m] == '"' {
        NotAllWhite(s, n, m);
      }
    }
  }

  lemma Regrouped(a: string, b: string, c: string, d: string)
    ensures a + "\"" + (b + ("\"" + (c + d))) == a + "\"" + b + "\"" + c + d
  {
  }

  lemma NotAllWhite(s: string, n: nat, m: nat)
    requires n < |s| && m < |s| && s[m] == '"' && s[n] != '"' && !White(s[n])
    requires AllWhite(s[..n]) && Unquoted(s[..m])
    requires m == BareCount(s) && n == WhiteCount(s)
    ensures !AllWhite(s[..m])
  {
    forall i | 0 <= i < n ensures s[i] != '"' {
      assert White(s[..n][i]);
    }
    assert s[..m][n] == s[n];
  }

  /** A text is malformed if and only if no field before its end has exactly one blank between its closing
      quote and its comma, and it ends inside quotes or has something after a character that cannot stand
      where it does: a quote in unquoted text, or anything but a blank or a comma behind a quoted field. */
  lemma MalformedIff(s: string)
    ensures Parse(s) == CsvError
       <==> exists line: Line :: line.Valid() && line.Text() == s
              && (forall i :: 0 <= i < |line.fields| ==> !line.fields[i].OneBlank())
              && (line.last.Unclosed? || (line.last.Broken? && line.last.rest != ""))
  {
    hide Parse, Line.Valid, Line.Text, Field.OneBlank;
    var line := Written(s);
    Reading(line);
    forall other: Line | other.Valid() && other.Text() == s ensures Parse(s) == other.Meaning() {
      Reading(other);
    }
  }

  /** The buffer is copied without its terminator if and only if a field has exactly one blank between its
      closing quote and its comma. */
  lemma UndefinedIff(s: string)
    ensures Parse(s) == Undefined
       <==> exists line: Line, i :: line.Valid() && line.Text() == s && 0 <= i < |line.fields| && line.fields[i].OneBlank()
  {
    hide Parse, Line.Valid, Line.Text, Field.OneBlank;
    var line := Written(s);
    Reading(line);
    forall other: Line | other.Valid() && other.Text() == s ensures Parse(s) == other.Meaning() {
      Reading(other);
    }
  }

  /** A record of fields in any of their forms is read as exactly their texts, if and only if no quoted field
      has exactly one blank before its comma, an unquoted last field does not end in a line end, and the last
      field is not empty behind a quoted field with a text. */
  lemma RecordIff(fields: seq<Field>)
    requires fields != [] && forall i :: 0 <= i < |fields| ==> fields[i].Valid()
    ensures var n := |fields| - 1; var line := Line(fields[..n], Whole(fields[n]));
      Parse(line.Text()) == Fields(TextsOf(fields))
      <==> (forall i :: 0 <= i < n ==> !fields[i].OneBlank())
           && !(fields[n].Bare? && |fields[n].text| >= 2 && fields[n].text[|fields[n].text| - 2..] == "\r\n")
           && !(fields[n] == Bare("") && n > 0 && fields[n - 1].Quoted? && fields[n - 1].text != "")
  {
    hide Parse, Line.Text, Field.Valid, TextsOf;
    var n := |fields| - 1;
    var line := Line(fields[..n], Whole(fields[n]));
    Reading(line);
    TextsLast(fields[..n], fields[n]);
    assert fields[..n] + [fields[n]] == fields;
    var a, b := TextsOf(fields[..n]) + [line.LastText(fields[n])], TextsOf(fields[..n]) + [fields[n].text];
    assert a[|a| - 1] == line.LastText(fields[n]) && b[|b| - 1] == fields[n].text;
    forall i | 0 <= i < n ensures line.fields[i] == fields[i] {
    }
  }

  lemma {:induction false} TextsLast(fields: seq<Field>, f: Field)
    ensures TextsOf(fields + [f]) == TextsOf(fields) + [f.text]
    decreases |fields|
  {
    if fields == [] {
      assert [f][1..] == [];
    } else {
      assert (fields + [f])[1..] == fields[1..] + [f];
      TextsLast(fields[1..], f);
    }
  }

  // ----- what the writer writes -----

  /** A field is written in quotes if and only if it has a quote, a comma, a carriage return or a line feed. */
  lemma WrittenIs(field: string)
    ensures Encoded(field)
         == if '"' in field || ',' in field || '\r' in field || '\n' in field then Quoted("", field, "").Text()
            else Bare(field).Text()
  {
    hide Doubled;
    assert NeedsQuotes(field) <==> '"' in field || ',' in field || '\r' in field || '\n' in field by {
      if c :| c in field && Special(c) {
        var i :| 0 <= i < |field| && field[i] == c;
        assert Special(field[i]);
      }
    }
    assert "" + "\"" + Doubled(field) + "\"" + "" == ['"'] + Doubled(field) + ['"'];
  }

  // ----- where a record ends in a file -----

  function Quotes(s: string): nat {
    if s == "" then 0 else Quotes(s[..|s| - 1]) + if s[|s| - 1] == '"' then 1 else 0
  }

  /** A line end that is not inside quotes. */
  predicate EndsRecord(s: string, n: nat) {
    2 <= n <= |s| && s[n - 2] == '\r' && s[n - 1] == '\n' && Quotes(s[..n]) % 2 == 0
  }

  lemma {:induction false} SplitFrom(s: string, i: nat)
    requires i <= |s|
    ensures var n := i + RecordLength(s[i..], if i == 0 then '\0' else s[i - 1], Quotes(s[..i]) % 2 == 1);
      && n <= |s| && (n == |s| || EndsRecord(s, n))
      && forall m :: i < m < n ==> !EndsRecord(s, m)
    decreases |s| - i
  {
    if i < |s| {
      assert s[i..][1..] == s[i + 1..];
      assert s[..i + 1][..i] == s[..i];
      SplitFrom(s, i + 1);
    }
  }

  /** The splitter cuts behind the first line end that is not inside quotes, or takes all there is. */
  lemma SplitsAtLineEnd(s: string)
    ensures var n := RecordLength(s, '\0', false);
      && n <= |s| && (n == |s| || EndsRecord(s, n))
      && forall m :: 0 <= m < n ==> !EndsRecord(s, m)
  {
    assert s[0..] == s && s[..0] == "" && Quotes("") == 0;
    hide RecordLength, Quotes;
    SplitFrom(s, 0);
  }
}
