/** Reading back what the writer wrote. */
module CsvRoundTrip {
  import opened CsvSpec

  lemma {:induction false} ExecSplit(a: Auto, s: string, t: string)
    ensures Exec(a, s + t) == Exec(Exec(a, s), t)
    decreases |s|
  {
    if s == [] {
      assert s + t == t;
    } else {
      assert (s + t)[1..] == s[1..] + t;
      ExecSplit(Step(a, s[0]), s[1..], t);
    }
  }

  lemma ExecOne(a: Auto, c: char)
    ensures Exec(a, [c]) == Step(a, c)
  {
    assert [c][1..] == [];
  }

  lemma ExecTwo(a: Auto, c: char, d: char)
    ensures Exec(a, [c]) == Step(a, c)
    ensures Exec(a, [c, d]) == Step(Step(a, c), d)
  {
    ExecOne(a, c);
    ExecOne(Step(a, c), d);
    assert [c, d][1..] == [d];
  }

  /** Where a field may begin. */
  predicate AtField(a: Auto) {
    a.Auto? && ((a.state == NewLine && a.text == "" && a.open) || a.state == Separator)
  }

  predicate Plain(s: string) {
    forall i :: 0 <= i < |s| ==> !Special(s[i])
  }

  /** Inside an unquoted field. */
  lemma {:induction false} PlainTail(a: Auto, s: string)
    requires a.Auto? && (a.state == PreStartSpace || a.state == NoQuoteMode) && a.open && Plain(s)
    ensures var b := Exec(a, s);
            b.Auto? && (b.state == PreStartSpace || b.state == NoQuoteMode) && b.open && b.text == a.text + s && b.out == a.out
    decreases |s|
  {
    if s != [] {
      assert !Special(s[0]);
      PlainTail(Step(a, s[0]), s[1..]);
      assert a.text + s == a.text + [s[0]] + s[1..];
    } else {
      assert a.text + s == a.text;
    }
  }

  lemma PlainField(a: Auto, s: string)
    requires AtField(a) && Plain(s) && s != []
    ensures var b := Exec(a, s);
            b.Auto? && (b.state == PreStartSpace || b.state == NoQuoteMode) && b.open && b.text == s && b.out == a.out
  {
    assert !Special(s[0]);
    PlainTail(Step(a, s[0]), s[1..]);
    assert [s[0]] + s[1..] == s;
  }

  lemma {:induction false} QuotedTail(a: Auto, s: string)
    requires a.Auto? && (a.state == LeadingQuote || (a.state == WithQuoteMode && a.open)) && (a.state == LeadingQuote ==> a.text == "")
    ensures var b := Exec(a, Doubled(s));
            && b.Auto? && b.text == a.text + s && b.out == a.out
            && (if s == [] then b == a else b.state == WithQuoteMode && b.open)
    decreases |s|
  {
    if s == [] {
      assert a.text + s == a.text;
    } else {
      var b := Auto(WithQuoteMode, a.text + [s[0]], true, a.out);
      QuotedChar(a, s[0]);
      ExecSplit(a, if s[0] == '"' then ['"', '"'] else [s[0]], Doubled(s[1..]));
      QuotedTail(b, s[1..]);
      assert a.text + s == a.text + [s[0]] + s[1..];
    }
  }

  lemma QuotedChar(a: Auto, c: char)
    requires a.Auto? && (a.state == LeadingQuote || (a.state == WithQuoteMode && a.open)) && (a.state == LeadingQuote ==> a.text == "")
    ensures Exec(a, if c == '"' then ['"', '"'] else [c]) == Auto(WithQuoteMode, a.text + [c], true, a.out)
  {
    ExecTwo(a, c, c);
    assert "" + [c] == [c];
  }

  lemma QuotedField(a: Auto, s: string)
    requires AtField(a) && NeedsQuotes(s)
    ensures Exec(a, Encoded(s)) == Auto(InternalQuote, s, true, a.out)
  {
    var open := Auto(LeadingQuote, "", false, a.out);
    assert Encoded(s) == ['"'] + (Doubled(s) + ['"']);
    ExecSplit(a, ['"'], Doubled(s) + ['"']);
    assert Exec(a, ['"']) == open;
    ExecSplit(open, Doubled(s), ['"']);
    QuotedTail(open, s);
    assert "" + s == s;
  }

  lemma NotQuoted(s: string)
    requires !NeedsQuotes(s)
    ensures Plain(s) && Encoded(s) == s
  {
  }

  /** The buffer keeps a quoted field's text after its comma. */
  function Stale(field: string): string {
    if NeedsQuotes(field) then field else ""
  }

  /** One field with its comma. */
  lemma FieldThenComma(a: Auto, s: string)
    requires AtField(a)
    ensures Exec(a, Encoded(s) + [',']) == Auto(Separator, Stale(s), false, a.out + [s])
  {
    ExecSplit(a, Encoded(s), [',']);
    if NeedsQuotes(s) {
      QuotedField(a, s);
    } else {
      NotQuoted(s);
      if s != [] { PlainField(a, s); }
    }
  }

  /** The line end after an unquoted field. */
  lemma LineEnd(b: Auto, s: string)
    requires b.Auto? && Plain(s)
    requires if s == "" then AtField(b) else (b.state == PreStartSpace || b.state == NoQuoteMode) && b.open && b.text == s
    ensures Finish(Exec(b, CRLF)) == Fields(b.out + [s])
  {
    ExecTwo(b, '\r', '\n');
    assert "" + ['\r'] == ['\r'];
    assert s + ['\r'] + ['\n'] == s + CRLF;
    assert Trimmed(s + CRLF) == s;
  }

  /** The last field with the line end. */
  lemma LastField(a: Auto, s: string)
    requires AtField(a)
    ensures Finish(Exec(a, Encoded(s) + CRLF)) == Fields(a.out + [s])
  {
    ExecSplit(a, Encoded(s), CRLF);
    if NeedsQuotes(s) {
      QuotedField(a, s);
      ExecTwo(Auto(InternalQuote, s, true, a.out), '\r', '\n');
    } else {
      NotQuoted(s);
      if s != [] { PlainField(a, s); }
      LineEnd(Exec(a, s), s);
    }
  }

  lemma {:induction false} RecordFrom(a: Auto, fields: seq<string>)
    requires AtField(a) && |fields| >= 1
    ensures Finish(Exec(a, Joined(fields) + CRLF)) == Fields(a.out + fields)
    decreases |fields|
  {
    if |fields| == 1 {
      LastField(a, fields[0]);
      assert [fields[0]] == fields;
    } else {
      var head, rest := Encoded(fields[0]) + [','], Joined(fields[1..]) + CRLF;
      assert Joined(fields) + CRLF == head + rest;
      ExecSplit(a, head, rest);
      FieldThenComma(a, fields[0]);
      RecordFrom(Exec(a, head), fields[1..]);
      assert a.out + [fields[0]] + fields[1..] == a.out + fields;
    }
  }

  /** A record survives writing and parsing. */
  lemma RecordRoundTrip(fields: seq<string>)
    requires |fields| >= 1
    ensures Parse(Joined(fields) + CRLF) == Fields(fields)
  {
    RecordFrom(START, fields);
    assert [] + fields == fields;
  }

  // ----- a record without its line end -----

  /** What the reader makes of the last field when no line end follows. */
  function LastRead(fields: seq<string>): string
    requires |fields| >= 1
  {
    var last := fields[|fields| - 1];
    if last == "" && |fields| >= 2 then Stale(fields[|fields| - 2]) else last
  }

  lemma OpenLastField(a: Auto, s: string)
    requires AtField(a)
    ensures Finish(Exec(a, Encoded(s))) == Fields(a.out + [if s == "" then a.text else s])
  {
    if NeedsQuotes(s) {
      QuotedField(a, s);
    } else {
      NotQuoted(s);
      if s != [] {
        PlainField(a, s);
        assert |s| > 1 ==> !Special(s[|s| - 1]);
      }
    }
  }

  lemma {:induction false} OpenRecordFrom(a: Auto, fields: seq<string>)
    requires AtField(a) && |fields| >= 1
    ensures Finish(Exec(a, Joined(fields))) ==
            Fields(a.out + fields[..|fields| - 1] + [if fields == [""] then a.text else LastRead(fields)])
    decreases |fields|
  {
    hide Exec, Encoded, Finish, NeedsQuotes;
    if |fields| == 1 {
      OpenLastField(a, fields[0]);
      assert a.out + fields[..0] == a.out;
    } else {
      var head := Encoded(fields[0]) + [','];
      assert Joined(fields) == head + Joined(fields[1..]);
      ExecSplit(a, head, Joined(fields[1..]));
      FieldThenComma(a, fields[0]);
      OpenRecordFrom(Exec(a, head), fields[1..]);
      assert a.out + [fields[0]] + fields[1..][..|fields| - 2] == a.out + fields[..|fields| - 1];
    }
  }

  /** Without the line end a record is read back exactly when it does not end in an empty field
      after a quoted one. */
  lemma OpenRecordRoundTrip(fields: seq<string>)
    requires |fields| >= 1
    ensures var n := |fields|;
            Parse(Joined(fields)) == Fields(fields) <==> !(n >= 2 && fields[n - 1] == "" && NeedsQuotes(fields[n - 2]))
  {
    hide Joined, Parse, NeedsQuotes;
    var n := |fields|;
    OpenRecord(fields);
    var read := fields[..n - 1] + [LastRead(fields)];
    assert read[n - 1] == LastRead(fields) && fields[..n - 1] + [fields[n - 1]] == fields;
    SpecialNotEmpty();
  }

  lemma SpecialNotEmpty()
    ensures !NeedsQuotes("")
  {
  }

  lemma OpenRecord(fields: seq<string>)
    requires |fields| >= 1
    ensures Parse(Joined(fields)) == Fields(fields[..|fields| - 1] + [LastRead(fields)])
  {
    OpenRecordFrom(START, fields);
    assert [] + fields[..|fields| - 1] == fields[..|fields| - 1];
  }

  lemma StaleExample()
    ensures Joined(["a,b", ""]) == "\"a,b\"," && Parse("\"a,b\",") == Fields(["a,b", "a,b"])
  {
    var fields := ["a,b", ""];
    assert Special("a,b"[1]);
    assert NeedsQuotes("a,b") && !NeedsQuotes("");
    OpenRecord(fields);
    StaleText();
    hide Exec, Finish, Encoded, Joined, NeedsQuotes, Doubled;
    assert fields[..1] == ["a,b"];
  }

  lemma StaleText()
    requires NeedsQuotes("a,b") && !NeedsQuotes("")
    ensures Joined(["a,b", ""]) == "\"a,b\","
  {
    hide NeedsQuotes;
    assert Doubled("a,b") == "a,b";
    assert ["a,b", ""][1..] == [""];
    assert Encoded("a,b") == "\"a,b\"";
  }

  // ----- splitting a file into records -----

  datatype Scan = Scan(prev: char, inQuotes: bool)

  function ScanStep(a: Scan, c: char): Scan {
    Scan(c, if c == '"' then !a.inQuotes else a.inQuotes)
  }

  function ScanAll(a: Scan, s: string): Scan
    decreases |s|
  {
    if s == [] then a else ScanAll(ScanStep(a, s[0]), s[1..])
  }

  /** No record ends inside `s`. */
  predicate Whole(a: Scan, s: string)
    decreases |s|
  {
    s == [] || (!(s[0] == '\n' && !a.inQuotes && a.prev == '\r') && Whole(ScanStep(a, s[0]), s[1..]))
  }

  lemma {:induction false} ScanSplit(a: Scan, s: string, t: string)
    ensures ScanAll(a, s + t) == ScanAll(ScanAll(a, s), t)
    ensures Whole(a, s + t) <==> Whole(a, s) && Whole(ScanAll(a, s), t)
    decreases |s|
  {
    if s == [] {
      assert s + t == t;
    } else {
      assert (s + t)[1..] == s[1..] + t;
      ScanSplit(ScanStep(a, s[0]), s[1..], t);
    }
  }

  lemma {:induction false} LengthOfWhole(a: Scan, s: string, t: string)
    requires Whole(a, s)
    ensures var b := ScanAll(a, s); RecordLength(s + t, a.prev, a.inQuotes) == |s| + RecordLength(t, b.prev, b.inQuotes)
    decreases |s|
  {
    if s == [] {
      assert s + t == t;
    } else {
      assert (s + t)[1..] == s[1..] + t;
      LengthOfWhole(ScanStep(a, s[0]), s[1..], t);
    }
  }

  lemma {:induction false} PlainWhole(a: Scan, s: string)
    requires !a.inQuotes && Plain(s)
    ensures Whole(a, s) && !ScanAll(a, s).inQuotes
    decreases |s|
  {
    if s != [] {
      assert !Special(s[0]);
      PlainWhole(ScanStep(a, s[0]), s[1..]);
    }
  }

  lemma ScanTwo(a: Scan, c: char, d: char)
    ensures ScanAll(a, [c]) == ScanStep(a, c) && ScanAll(a, [c, d]) == ScanStep(ScanStep(a, c), d)
    ensures c != '\n' || a.inQuotes ==> Whole(a, [c])
    ensures c == d == '"' ==> Whole(a, [c, d])
  {
    assert [c][1..] == [] && [c, d][1..] == [d] && [d][1..] == [];
    assert ScanAll(ScanStep(a, c), [d]) == ScanStep(ScanStep(a, c), d);
  }

  lemma {:induction false} DoubledWhole(a: Scan, s: string)
    requires a.inQuotes
    ensures Whole(a, Doubled(s)) && ScanAll(a, Doubled(s)).inQuotes
    decreases |s|
  {
    if s != [] {
      var head := if s[0] == '"' then ['"', '"'] else [s[0]];
      ScanTwo(a, s[0], s[0]);
      ScanSplit(a, head, Doubled(s[1..]));
      DoubledWhole(ScanAll(a, head), s[1..]);
    }
  }

  lemma EncodedWhole(a: Scan, s: string)
    requires !a.inQuotes
    ensures Whole(a, Encoded(s)) && !ScanAll(a, Encoded(s)).inQuotes
  {
    if NeedsQuotes(s) {
      assert Encoded(s) == ['"'] + (Doubled(s) + ['"']);
      ScanSplit(a, ['"'], Doubled(s) + ['"']);
      var b := ScanStep(a, '"');
      assert ScanAll(a, ['"']) == b && Whole(a, ['"']);
      ScanSplit(b, Doubled(s), ['"']);
      DoubledWhole(b, s);
    } else {
      NotQuoted(s);
      PlainWhole(a, s);
    }
  }

  lemma {:induction false} JoinedWhole(a: Scan, fields: seq<string>)
    requires !a.inQuotes
    ensures Whole(a, Joined(fields)) && !ScanAll(a, Joined(fields)).inQuotes
    decreases |fields|
  {
    if |fields| == 1 {
      EncodedWhole(a, fields[0]);
    } else if fields != [] {
      var head := Encoded(fields[0]) + [','];
      assert Joined(fields) == head + Joined(fields[1..]);
      EncodedWhole(a, fields[0]);
      ScanSplit(a, Encoded(fields[0]), [',']);
      ScanSplit(a, head, Joined(fields[1..]));
      var b := ScanAll(a, Encoded(fields[0]));
      assert [','][1..] == [] && ScanAll(b, [',']) == ScanStep(b, ',') && Whole(b, [',']);
      JoinedWhole(ScanAll(a, head), fields[1..]);
    }
  }

  /** The first record the splitter cuts off is the first record written. */
  lemma FirstRecord(fields: seq<string>, rest: string)
    ensures RecordLength(Joined(fields) + CRLF + rest, '\0', false) == |Joined(fields)| + 2
  {
    var a := Scan('\0', false);
    JoinedWhole(a, fields);
    assert Joined(fields) + CRLF + rest == Joined(fields) + (CRLF + rest);
    LengthOfWhole(a, Joined(fields), CRLF + rest);
    assert (CRLF + rest)[1..] == ['\n'] + rest;
  }

  /** Every file the writer can produce is read back as the records it was given. */
  lemma {:induction false} FileRoundTrip(records: seq<seq<string>>)
    requires forall i :: 0 <= i < |records| ==> |records[i]| >= 1
    ensures ReadAll(Text(records)) == seq(|records|, i requires 0 <= i < |records| => Fields(records[i]))
    decreases |records|
  {
    if records != [] {
      var line, rest := Joined(records[0]) + CRLF, Text(records[1..]);
      FirstRecord(records[0], rest);
      assert Text(records) == line + rest;
      assert (line + rest)[..|line|] == line && (line + rest)[|line|..] == rest;
      RecordRoundTrip(records[0]);
      FileRoundTrip(records[1..]);
    }
  }

  lemma {:induction false} CleanDoubled(s: string)
    requires Clean(s)
    ensures Clean(Doubled(s))
  {
    if s != [] {
      assert s[0] in s;
      CleanDoubled(s[1..]);
    }
  }

  lemma {:induction false} CleanJoined(fields: seq<string>)
    requires forall j :: 0 <= j < |fields| ==> Clean(fields[j])
    ensures Clean(Joined(fields))
  {
    if fields != [] {
      CleanDoubled(fields[0]);
      CleanJoined(fields[1..]);
    }
  }

  lemma {:induction false} CleanText(records: seq<seq<string>>)
    requires forall i, j :: 0 <= i < |records| && 0 <= j < |records[i]| ==> Clean(records[i][j])
    ensures Clean(Text(records))
  {
    if records != [] {
      CleanJoined(records[0]);
      CleanText(records[1..]);
    }
  }
}
