/** The CSV format of section 2 of RFC 4180 as the writer produces it, and the automaton the reader
    runs, stated on values. */
module CsvSpec {
  /** A C string: text without the terminator. */
  ghost predicate Clean(s: string) { '\0' !in s }

  // ----- the writer's text -----

  predicate Special(c: char) {
    c == '"' || c == ',' || c == '\r' || c == '\n'
  }

  predicate NeedsQuotes(field: string) {
    exists i :: 0 <= i < |field| && Special(field[i])
  }

  /** Every quote written twice. */
  function Doubled(s: string): string {
    if s == [] then []
    else (if s[0] == '"' then ['"', '"'] else [s[0]]) + Doubled(s[1..])
  }

  function Encoded(field: string): string {
    if NeedsQuotes(field) then ['"'] + Doubled(field) + ['"'] else field
  }

  /** The fields of one record, separated by commas. */
  function Joined(fields: seq<string>): string {
    if fields == [] then []
    else if |fields| == 1 then Encoded(fields[0])
    else Encoded(fields[0]) + [','] + Joined(fields[1..])
  }

  const CRLF: string := ['\r', '\n']

  function Text(records: seq<seq<string>>): string {
    if records == [] then [] else Joined(records[0]) + CRLF + Text(records[1..])
  }

  // ----- the reader's automaton -----

  datatype State = NewLine | PreStartSpace | NoQuoteMode | Separator | LeadingQuote
                 | InternalQuote | WithQuoteMode | SpaceAfterQuote | Error

  /** `text` is what the buffer holds, either up to the write pointer (`open`) or, when there is no
      write pointer, up to its terminator. */
  datatype Auto = Auto(state: State, text: string, open: bool, out: seq<string>)
                | Malformed
                | Unterminated  // the buffer would be copied before it got its terminator

  predicate Blank(c: char) { c == ' ' || c == '\t' || c == '\n' || c == '\r' }

  const START := Auto(NewLine, "", true, [])

  function Step(a: Auto, c: char): Auto {
    if !a.Auto? then a else
    match a.state
    case Error => Malformed
    case NewLine =>
      if c == ',' then Auto(Separator, a.text, false, a.out + [""])
      else if Blank(c) then Auto(PreStartSpace, a.text + [c], true, a.out)
      else if c == '"' then Auto(LeadingQuote, "", false, a.out)
      else Auto(NoQuoteMode, a.text + [c], true, a.out)
    case PreStartSpace =>
      if c == ',' then Auto(Separator, "", false, a.out + [a.text])
      else if Blank(c) then Auto(PreStartSpace, a.text + [c], true, a.out)
      else if c == '"' then Auto(LeadingQuote, "", false, a.out)
      else Auto(NoQuoteMode, a.text + [c], true, a.out)
    case NoQuoteMode =>
      if c == ',' then Auto(Separator, "", false, a.out + [a.text])
      else if c == '"' then Auto(Error, "", false, a.out)
      else Auto(NoQuoteMode, a.text + [c], true, a.out)
    case Separator =>
      if c == ',' then Auto(Separator, "", false, a.out + [""])
      else if Blank(c) then Auto(PreStartSpace, [c], true, a.out)
      else if c == '"' then Auto(LeadingQuote, "", false, a.out)
      else Auto(NoQuoteMode, [c], true, a.out)
    case LeadingQuote =>
      if c == '"' then Auto(InternalQuote, "", true, a.out)
      else Auto(WithQuoteMode, [c], true, a.out)
    case InternalQuote =>
      if c == ',' then Auto(Separator, a.text, false, a.out + [a.text])
      else if Blank(c) then Auto(SpaceAfterQuote, a.text, true, a.out)
      else if c == '"' then Auto(WithQuoteMode, a.text + [c], true, a.out)
      else Auto(Error, "", true, a.out)
    case WithQuoteMode =>
      if c == '"' then Auto(InternalQuote, a.text, true, a.out)
      else Auto(WithQuoteMode, a.text + [c], true, a.out)
    case SpaceAfterQuote =>
      if c == ',' then (if a.open then Unterminated else Auto(Separator, a.text, false, a.out + [a.text]))
      else if Blank(c) then Auto(SpaceAfterQuote, a.text, false, a.out)
      else Auto(Error, "", false, a.out)
  }

  function Exec(a: Auto, s: string): Auto
    decreases |s|
  {
    if s == [] then a else Exec(Step(a, s[0]), s[1..])
  }

  datatype Parsed = Fields(fields: seq<string>) | CsvError | Undefined

  function Trimmed(s: string): string {
    if |s| > 1 && s[|s| - 2] == '\r' && s[|s| - 1] == '\n' then s[..|s| - 2] else s
  }

  function Finish(a: Auto): Parsed {
    match a
    case Malformed => CsvError
    case Unterminated => Undefined
    case Auto(state, text, open, out) =>
      if state == LeadingQuote || state == WithQuoteMode then CsvError
      else if state == NoQuoteMode || state == PreStartSpace then Fields(out + [Trimmed(text)])
      else Fields(out + [text])
  }

  function Parse(s: string): Parsed { Finish(Exec(START, s)) }

  // ----- the record splitter -----

  /** The length of the first record of `s`, its CRLF included, or of all of `s`. */
  function RecordLength(s: string, prev: char, inQuotes: bool): (n: nat)
    ensures n <= |s|
  {
    if s == [] then 0
    else if s[0] == '"' then 1 + RecordLength(s[1..], s[0], !inQuotes)
    else if !inQuotes && s[0] == '\n' && prev == '\r' then 1
    else 1 + RecordLength(s[1..], s[0], inQuotes)
  }

  lemma RecordNonEmpty(s: string)
    requires s != []
    ensures RecordLength(s, '\0', false) > 0
  {
  }

  /** Splitting and parsing a whole file. */
  function ReadAll(s: string): seq<Parsed>
    decreases |s|
  {
    if s == [] then []
    else
      RecordNonEmpty(s);
      var n := RecordLength(s, '\0', false);
      [Parse(s[..n])] + ReadAll(s[n..])
  }
}
