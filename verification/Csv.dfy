/** The CSV writer, the record splitter and the parser, as they run. */
module Csv {
  import opened CsvSpec
  import opened CsvRoundTrip
  import opened Writers

  datatype Option<T> = None | Some(value: T)

  /** strpbrk: whether any of the characters that call for quotes occurs. */
  method HasSpecial(s: string) returns (found: bool)
    ensures found <==> NeedsQuotes(s)
  {
    for i := 0 to |s|
      invariant forall j :: 0 <= j < i ==> !Special(s[j])
    {
      if Special(s[i]) {
        return true;
      }
    }
    return false;
  }

  lemma {:induction false} DoubledSplit(s: string, t: string)
    ensures Doubled(s + t) == Doubled(s) + Doubled(t)
    decreases |s|
  {
    if s == [] {
      assert s + t == t;
    } else {
      assert (s + t)[1..] == s[1..] + t;
      DoubledSplit(s[1..], t);
    }
  }

  method WriteCsvEscapedString(w: Writer, s: string)
    modifies w
    ensures w.data == old(w.data) + ['"'] + Doubled(s) + ['"']
  {
    w.WriteChar('"');
    for i := 0 to |s|
      invariant w.data == old(w.data) + ['"'] + Doubled(s[..i])
    {
      assert s[..i + 1] == s[..i] + [s[i]] && [s[i]][1..] == [];
      DoubledSplit(s[..i], [s[i]]);
      if s[i] == '"' {
        w.WriteChar('"');
      }
      w.WriteChar(s[i]);
    }
    assert s[..|s|] == s;
    w.WriteChar('"');
  }

  method WriteEncoded(w: Writer, s: string)
    modifies w
    ensures w.data == old(w.data) + Encoded(s)
  {
    var special := HasSpecial(s);
    if special {
      WriteCsvEscapedString(w, s);
      assert old(w.data) + ['"'] + Doubled(s) + ['"'] == old(w.data) + (['"'] + Doubled(s) + ['"']);
    } else {
      w.Write(s);
    }
  }

  class CsvWriter {
    const w: Writer
    const terminateLastLine: bool
    var beginningOfLine: bool

    constructor (w: Writer, terminateLastLine: bool)
      ensures this.w == w && this.terminateLastLine == terminateLastLine && beginningOfLine
    {
      this.w, this.terminateLastLine, beginningOfLine := w, terminateLastLine, true;
    }

    method Field(s: string)
      modifies this, w
      ensures w.data == old(w.data) + (if old(beginningOfLine) then "" else [',']) + Encoded(s) && !beginningOfLine
    {
      if beginningOfLine {
        beginningOfLine := false;
      } else {
        w.WriteChar(',');
      }
      WriteEncoded(w, s);
    }

    method NewRecord()
      modifies this, w
      ensures w.data == old(w.data) + CRLF && beginningOfLine
    {
      w.Write(CRLF);
      beginningOfLine := true;
    }

    method Close()
      modifies w
      ensures w.data == old(w.data) + if !beginningOfLine && terminateLastLine then CRLF else ""
    {
      if !beginningOfLine && terminateLastLine {
        w.Write(CRLF);
      }
    }

    /** A record's fields one after the other. */
    method Fields(fields: seq<string>)
      requires beginningOfLine && |fields| >= 1
      modifies this, w
      ensures w.data == old(w.data) + Joined(fields) && !beginningOfLine
    {
      Field(fields[0]);
      assert fields[..1] == [fields[0]];
      for i := 1 to |fields|
        invariant w.data == old(w.data) + Joined(fields[..i]) && !beginningOfLine
      {
        assert fields[..i + 1] == fields[..i] + [fields[i]];
        JoinedSplit(fields[..i], fields[i]);
        Field(fields[i]);
      }
      assert fields[..|fields|] == fields;
    }
  }

  lemma {:induction false} JoinedSplit(fields: seq<string>, last: string)
    requires |fields| >= 1
    ensures Joined(fields + [last]) == Joined(fields) + [','] + Encoded(last)
    decreases |fields|
  {
    if |fields| > 1 {
      assert (fields + [last])[1..] == fields[1..] + [last];
      JoinedSplit(fields[1..], last);
    } else {
      assert (fields + [last])[1..] == [last];
    }
  }

  lemma {:induction false} TextSplit(records: seq<seq<string>>, last: seq<string>)
    ensures Text(records + [last]) == Text(records) + Joined(last) + CRLF
    decreases |records|
  {
    hide Joined;
    if records != [] {
      assert (records + [last])[1..] == records[1..] + [last];
      TextSplit(records[1..], last);
      assert Text(records + [last]) == Joined(records[0]) + CRLF + (Text(records[1..]) + Joined(last) + CRLF);
    } else {
      assert records + [last] == [last] && [last][1..] == [];
    }
  }

  /** A whole file; the last line is left for `Close` to end. */
  method WriteFile(records: seq<seq<string>>) returns (text: string)
    requires forall i :: 0 <= i < |records| ==> |records[i]| >= 1
    ensures text == Text(records)
  {
    var w := new Writer();
    var csvw := new CsvWriter(w, true);
    for i := 0 to |records|
      invariant fresh(w) && fresh(csvw) && csvw.w == w && csvw.terminateLastLine
      invariant csvw.beginningOfLine <==> i == 0
      invariant w.data + (if i == 0 then "" else CRLF) == Text(records[..i])
    {
      if i > 0 {
        csvw.NewRecord();
      }
      assert records[..i + 1] == records[..i] + [records[i]];
      TextSplit(records[..i], records[i]);
      csvw.Fields(records[i]);
    }
    csvw.Close();
    assert records[..|records|] == records;
    text := w.data;
  }

  // ----- reading -----

  /** The C string at the front of `s`. */
  function CString(s: string): string {
    if s == [] || s[0] == '\0' then [] else [s[0]] + CString(s[1..])
  }

  lemma {:induction false} CStringClean(s: string)
    requires Clean(s)
    ensures CString(s) == s
  {
    if s != [] {
      assert s[0] in s;
      CStringClean(s[1..]);
    }
  }

  class File {
    const content: string
    var pos: nat

    constructor (content: string)
      ensures this.content == content && pos == 0
    {
      this.content, pos := content, 0;
    }

    /** The next record of the file, as a C string. */
    method GetCsvLineNext() returns (line: Option<string>)
      requires pos <= |content|
      modifies this
      ensures pos <= |content|
      ensures var rest := old(content[pos..]); var n := RecordLength(rest, '\0', false);
              pos == old(pos) + n && line == if rest == [] then None else Some(CString(rest[..n]))
    {
      ghost var rest := content[pos..];
      var buffer := "";
      var prev, inQuotes := '\0', false;
      while true
        invariant old(pos) <= pos <= |content| && buffer == content[old(pos)..pos]
        invariant RecordLength(rest, '\0', false) == pos - old(pos) + RecordLength(content[pos..], prev, inQuotes)
        decreases |content| - pos
      {
        if pos == |content| {
          break;
        }
        var current := content[pos];
        pos := pos + 1;
        buffer := buffer + [current];
        assert content[pos - 1..][1..] == content[pos..];
        if current == '"' {
          inQuotes := !inQuotes;
        } else if !inQuotes && current == '\n' && prev == '\r' {
          break;
        }
        prev := current;
      }
      if |buffer| == 0 {
        if rest != [] { RecordNonEmpty(rest); }
        return None;
      }
      assert buffer == rest[..RecordLength(rest, '\0', false)];
      return Some(CString(buffer));
    }
  }

  lemma {:induction false} CStringAt(s: string, k: nat)
    requires k < |s| && s[k] == '\0' && Clean(s[..k])
    ensures CString(s) == s[..k]
    decreases k
  {
    if k > 0 {
      assert s[..k] == [s[0]] + s[1..][..k - 1];
      CStringAt(s[1..], k - 1);
    }
  }

  const NULL: int := -1

  /** The parser's variables: the buffer `snatched`, the pointer `sn` into it, the state and the
      list under construction. */
  class Automaton {
    const snatched: array<char>
    var sn: int
    var state: State
    var list: seq<string>

    constructor (size: nat)
      ensures fresh(snatched) && snatched.Length == size + 1
      ensures sn == 0 && state == NewLine && list == []
    {
      snatched := new char[size + 1];
      sn, state, list := 0, NewLine, [];
      new;
      snatched[0] := '\0';
    }

    /** `text` is in the buffer, up to the pointer or up to the terminator. */
    ghost predicate Holds(text: string)
      reads this, snatched
    {
      && Clean(text)
      && if 0 <= sn then sn <= snatched.Length && snatched[..sn] == text else Ended(text)
    }

    ghost predicate Ended(text: string)
      reads snatched
    {
      |text| < snatched.Length && snatched[|text|] == '\0' && snatched[..|text|] == text
    }

    /** The automaton is in the state `a`, having used at most `room` characters of the buffer. */
    ghost predicate Mirrors(a: Auto, room: nat)
      reads this, snatched
    {
      && NULL <= sn <= room < snatched.Length
      && (a.Auto? ==>
            && state == a.state && list == a.out && (a.open <==> 0 <= sn)
            && if state == Error then a.text == "" && Ended("") else Holds(a.text))
    }

    /** `*sn = c; sn++` */
    method Put(c: char, ghost text: string)
      requires 0 <= sn < snatched.Length && Holds(text) && c != '\0'
      modifies this`sn, snatched
      ensures sn == old(sn) + 1 && Holds(text + [c])
    {
      snatched[sn] := c;
      sn := sn + 1;
      assert snatched[..sn] == old(snatched[..sn]) + [c];
    }

    /** `*sn = '\0'; sn = NULL` */
    method Terminate(ghost text: string)
      requires 0 <= sn < snatched.Length && Holds(text)
      modifies this`sn, snatched
      ensures sn == NULL && Ended(text) && Holds(text)
    {
      snatched[sn] := '\0';
      sn := NULL;
    }

    /** `snatched[0] = '\0'` */
    method Truncate()
      requires snatched.Length > 0
      modifies snatched
      ensures Ended("")
    {
      snatched[0] := '\0';
    }

    /** `SeqAppend(*newlist, xstrdup(snatched))` */
    method AppendCopy(ghost text: string)
      requires Clean(text)
      modifies this`list
      ensures Ended(text) ==> list == old(list) + [text]
    {
      if Ended(text) { CStringAt(snatched[..], |text|); assert snatched[..][..|text|] == text; }
      list := list + [CString(snatched[..])];
    }

    method OnNewLine(c: char, ghost a: Auto, ghost room: nat)
      requires Mirrors(a, room) && Usual(a) && a.Auto? && a.state == NewLine && c != '\0' && room + 1 < snatched.Length
      modifies this`sn, this`state, this`list, snatched
      ensures Mirrors(Step(a, c), room + 1)
    {
      if c == ',' {
        Terminate("");
        list := list + [""];
        state := Separator;
      } else if Blank(c) {
        Put(c, a.text);
        state := PreStartSpace;
      } else if c == '"' {
        Truncate();
        sn := NULL;
        state := LeadingQuote;
      } else {
        Put(c, a.text);
        state := NoQuoteMode;
      }
    }

    method OnPreStartSpace(c: char, ghost a: Auto, ghost room: nat)
      requires Mirrors(a, room) && Usual(a) && a.Auto? && a.state == PreStartSpace && c != '\0' && room + 1 < snatched.Length
      modifies this`sn, this`state, this`list, snatched
      ensures Mirrors(Step(a, c), room + 1)
    {
      if c == ',' {
        Terminate(a.text);
        AppendCopy(a.text);
        Truncate();
        state := Separator;
      } else if Blank(c) {
        Put(c, a.text);
        state := PreStartSpace;
      } else if c == '"' {
        Truncate();
        sn := NULL;
        state := LeadingQuote;
      } else {
        Put(c, a.text);
        state := NoQuoteMode;
      }
    }

    method OnNoQuoteMode(c: char, ghost a: Auto, ghost room: nat)
      requires Mirrors(a, room) && Usual(a) && a.Auto? && a.state == NoQuoteMode && c != '\0' && room + 1 < snatched.Length
      modifies this`sn, this`state, this`list, snatched
      ensures Mirrors(Step(a, c), room + 1)
    {
      if c == ',' {
        Terminate(a.text);
        AppendCopy(a.text);
        Truncate();
        state := Separator;
      } else if c == '"' {
        Truncate();
        sn := NULL;
        state := Error;
      } else {
        Put(c, a.text);
        state := NoQuoteMode;
      }
    }

    method OnSeparator(c: char, ghost a: Auto, ghost room: nat)
      requires Mirrors(a, room) && Usual(a) && a.Auto? && a.state == Separator && c != '\0' && room + 1 < snatched.Length
      modifies this`sn, this`state, this`list, snatched
      ensures Mirrors(Step(a, c), room + 1)
    {
      if c == ',' {
        Truncate();
        sn := NULL;
        AppendCopy("");
        state := Separator;
      } else if Blank(c) {
        sn := 0;
        Put(c, "");
        assert "" + [c] == [c];
        state := PreStartSpace;
      } else if c == '"' {
        Truncate();
        sn := NULL;
        state := LeadingQuote;
      } else {
        sn := 0;
        Put(c, "");
        assert "" + [c] == [c];
        state := NoQuoteMode;
      }
    }

    method OnLeadingQuote(c: char, ghost a: Auto, ghost room: nat)
      requires Mirrors(a, room) && Usual(a) && a.Auto? && a.state == LeadingQuote && c != '\0' && room + 1 < snatched.Length
      modifies this`sn, this`state, this`list, snatched
      ensures Mirrors(Step(a, c), room + 1)
    {
      sn := 0;
      if c == '"' {
        state := InternalQuote;
      } else {
        Put(c, "");
        assert "" + [c] == [c];
        state := WithQuoteMode;
      }
    }

    method OnInternalQuote(c: char, ghost a: Auto, ghost room: nat)
      requires Mirrors(a, room) && Usual(a) && a.Auto? && a.state == InternalQuote && c != '\0' && room + 1 < snatched.Length
      modifies this`sn, this`state, this`list, snatched
      ensures Mirrors(Step(a, c), room + 1)
    {
      if c == ',' {
        Terminate(a.text);
        AppendCopy(a.text);
        state := Separator;
      } else if Blank(c) {
        state := SpaceAfterQuote;
      } else if c == '"' {
        Put(c, a.text);
        state := WithQuoteMode;
      } else {
        Truncate();
        sn := sn + 1;
        state := Error;
      }
    }

    method OnWithQuoteMode(c: char, ghost a: Auto, ghost room: nat)
      requires Mirrors(a, room) && Usual(a) && a.Auto? && a.state == WithQuoteMode && c != '\0' && room + 1 < snatched.Length
      modifies this`sn, this`state, this`list, snatched
      ensures Mirrors(Step(a, c), room + 1)
    {
      if c == '"' {
        state := InternalQuote;
      } else {
        Put(c, a.text);
        state := WithQuoteMode;
      }
    }

    method OnSpaceAfterQuote(c: char, ghost a: Auto, ghost room: nat)
      requires Mirrors(a, room) && Usual(a) && a.Auto? && a.state == SpaceAfterQuote && c != '\0' && room + 1 < snatched.Length && (c == ',' ==> sn == NULL)
      modifies this`sn, this`state, this`list, snatched
      ensures Mirrors(Step(a, c), room + 1)
    {
      if c == ',' {
        sn := NULL;
        AppendCopy(a.text);
        state := Separator;
      } else if Blank(c) {
        if sn != NULL {
          snatched[sn] := '\0';
        }
        sn := NULL;
        state := SpaceAfterQuote;
      } else {
        Truncate();
        sn := NULL;
        state := Error;
      }
    }

    /** The end of the text: terminate, trim a trailing CRLF, copy. */
    method LastField(ghost a: Auto, ghost room: nat) returns (last: string)
      requires Mirrors(a, room) && Usual(a) && a.Auto?
      modifies this`sn, snatched
      ensures list == old(list)
      ensures last == if state == NoQuoteMode || state == PreStartSpace then Trimmed(a.text) else a.text
    {
      if sn != NULL {
        if state == Error { snatched[sn] := '\0'; sn := NULL; } else { Terminate(a.text); }
      }
      CStringAt(snatched[..], |a.text|);
      assert snatched[..][..|a.text|] == a.text;
      if state == NoQuoteMode || state == PreStartSpace {
        var len := |CString(snatched[..])|;
        if len > 1 && snatched[len - 2] == '\r' && snatched[len - 1] == '\n' {
          snatched[len - 2] := '\0';
          CStringAt(snatched[..], len - 2);
          assert snatched[..][..len - 2] == a.text[..len - 2];
        }
      }
      last := CString(snatched[..]);
    }
  }

  /** What the states say about the write pointer. */
  predicate Usual(a: Auto) {
    a.Auto? ==>
      match a.state
      case NewLine => a.open && a.text == ""
      case PreStartSpace => a.open
      case NoQuoteMode => a.open
      case InternalQuote => a.open
      case WithQuoteMode => a.open
      case Separator => !a.open
      case LeadingQuote => !a.open
      case _ => true
  }

  lemma UsualStep(a: Auto, c: char)
    requires Usual(a)
    ensures Usual(Step(a, c))
  {
  }

  /** Once malformed or undefined, always so. */
  lemma {:induction false} Stuck(a: Auto, s: string)
    requires !a.Auto?
    ensures Exec(a, s) == a
    decreases |s|
  {
    if s != [] { Stuck(a, s[1..]); }
  }

  method LaunchCsvAutomata(str: string) returns (parsed: Parsed)
    requires Clean(str)
    ensures parsed == Parse(str)
  {
    var m := new Automaton(|str|);
    ghost var a := START;
    for i := 0 to |str|
      invariant fresh(m) && fresh(m.snatched) && m.snatched.Length == |str| + 1
      invariant a.Auto? && Usual(a) && m.Mirrors(a, i) && Exec(START, str) == Exec(a, str[i..])
    {
      var c := str[i];
      assert c in str && str[i..][0] == c && str[i..][1..] == str[i + 1..];
      UsualStep(a, c);
      match m.state {
        case Error =>
          Stuck(Malformed, str[i + 1..]);
          return CsvError;
        case NewLine => m.OnNewLine(c, a, i);
        case PreStartSpace => m.OnPreStartSpace(c, a, i);
        case NoQuoteMode => m.OnNoQuoteMode(c, a, i);
        case Separator => m.OnSeparator(c, a, i);
        case LeadingQuote => m.OnLeadingQuote(c, a, i);
        case InternalQuote => m.OnInternalQuote(c, a, i);
        case WithQuoteMode => m.OnWithQuoteMode(c, a, i);
        case SpaceAfterQuote =>
          if c == ',' && m.sn != NULL {
            Stuck(Step(a, c), str[i + 1..]);
            return Undefined;  // xstrdup() of a buffer without a terminator
          }
          m.OnSpaceAfterQuote(c, a, i);
      }
      a := Step(a, c);
    }
    assert str[|str|..] == [];
    if m.state != LeadingQuote && m.state != WithQuoteMode {
      var last := m.LastField(a, |str|);
      parsed := CsvSpec.Parsed.Fields(m.list + [last]);
    } else {
      parsed := CsvError;
    }
  }

  /** The whole file, record by record. */
  method ReadFile(text: string) returns (records: seq<Parsed>)
    requires Clean(text)
    ensures records == ReadAll(text)
  {
    var file := new File(text);
    records := [];
    assert text[0..] == text;
    while true
      invariant fresh(file) && file.content == text && file.pos <= |text|
      invariant ReadAll(text) == records + ReadAll(text[file.pos..])
      decreases |text| - file.pos
    {
      ghost var rest := text[file.pos..];
      var line := file.GetCsvLineNext();
      if line.None? {
        break;
      }
      ghost var n := RecordLength(rest, '\0', false);
      RecordNonEmpty(rest);
      CStringClean(rest[..n]);
      assert rest[n..] == text[file.pos..];
      var parsed := LaunchCsvAutomata(line.value);
      records := records + [parsed];
    }
  }

  /** Writing records and reading the file gives the records back. */
  method WriteThenRead(records: seq<seq<string>>) returns (read: seq<Parsed>)
    requires forall i :: 0 <= i < |records| ==> |records[i]| >= 1
    requires forall i, j :: 0 <= i < |records| && 0 <= j < |records[i]| ==> Clean(records[i][j])
    ensures read == seq(|records|, i requires 0 <= i < |records| => CsvSpec.Parsed.Fields(records[i]))
  {
    var text := WriteFile(records);
    CleanText(records);
    FileRoundTrip(records);
    read := ReadFile(text);
  }
}
