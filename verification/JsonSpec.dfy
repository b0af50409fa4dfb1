/** JSON elements, the text the two printers give them, and the reading of a text, on values.
    A text is a C string: the bytes before its terminator. A pointer into a text is what is left of
    the text from there on. */
module JsonSpec {
  datatype Option<T> = None | Some(value: T)

  datatype Kind = StringKind | IntegerKind | RealKind | BoolKind | NullKind

  /** A primitive holds its text: a number keeps the lexeme it was read from. */
  datatype Json = Prim(kind: Kind, text: string)
                | Arr(items: seq<Json>)
                | Obj(members: seq<Member>)
  datatype Member = Member(name: string, value: Json)

  datatype ParseError =
    | StringNoDoublequoteStart
    | StringNoDoublequoteEnd
    | NumberExponentNegative
    | NumberExponentPositive
    | NumberDuplicateZero
    | NumberNoDigit
    | NumberMultipleDots
    | NumberExponentDuplicate
    | NumberExponentDigit
    | NumberExponentFollowLeadingZero
    | NumberBadSymbol
    | NumberDigitEnd
    | ArrayStart
    | ArrayEnd
    | ArrayComma
    | ObjectBadSymbol
    | ObjectEnd
    | ObjectColon
    | ObjectComma
    | ObjectCommaMissing
    | ObjectArrayLval
    | ObjectObjectLval
    | ObjectOpenLval
    | InvalidEnd
    | NoData

  /** `rest` is what follows the last character read. */
  datatype Parsed<T> = Ok(value: T, rest: string)
                     | Fail(error: ParseError)
                     | Overrun  // the cursor would step over the terminator

  // ----- characters -----

  predicate IsWhitespace(c: char) { c == ' ' || c == '\t' || c == '\n' || c == '\r' }

  predicate IsSeparator(c: char) { IsWhitespace(c) || c == ',' || c == ']' || c == '}' }

  predicate IsDigit(c: char) { '1' <= c <= '9' }

  predicate StartsNumber(c: char) { c == '-' || c == '0' || IsDigit(c) }

  predicate IsPrintableAscii(c: char) { ' ' <= c <= '~' }

  predicate IsHex(c: char) { '0' <= c <= '9' || 'A' <= c <= 'F' || 'a' <= c <= 'f' }

  /** isspace in the C locale. */
  predicate IsSpace(c: char) { IsWhitespace(c) || c == 11 as char || c == 12 as char }

  /** The word characters of unquoted keys. */
  predicate IsWord(c: char) { '0' <= c <= '9' || 'A' <= c <= 'Z' || 'a' <= c <= 'z' || c == '_' }

  const BS: char := 8 as char
  const FF: char := 12 as char

  /** A byte of a C string. */
  predicate IsByte(c: char) { 0 < c as int < 256 }

  predicate Bytes(s: string) { forall i :: 0 <= i < |s| ==> IsByte(s[i]) }

  // ----- escapes -----

  function HexDigit(n: int): char
    requires 0 <= n < 16
  {
    if n < 10 then ('0' as int + n) as char else ('a' as int + n - 10) as char
  }

  function HexValue(c: char): (n: int)
    requires IsHex(c)
    ensures 0 <= n < 16
  {
    if c <= '9' then c as int - '0' as int
    else if c <= 'F' then c as int - 'A' as int + 10
    else c as int - 'a' as int + 10
  }

  /** The `u` escape the encoder writes for a byte. */
  function UnicodeEscape(c: char): string {
    var n := c as int % 256;
    ['\\', 'u', '0', '0', HexDigit(n / 16), HexDigit(n % 16)]
  }

  /** The letter of a control character's short escape. */
  function ShortEscape(c: char): Option<char> {
    if c == BS then Some('b')
    else if c == FF then Some('f')
    else if c == '\n' then Some('n')
    else if c == '\r' then Some('r')
    else if c == '\t' then Some('t')
    else None
  }

  function ControlOf(c: char): Option<char> {
    if c == 'b' then Some(BS)
    else if c == 'f' then Some(FF)
    else if c == 'n' then Some('\n')
    else if c == 'r' then Some('\r')
    else if c == 't' then Some('\t')
    else None
  }

  function EncodedChar(c: char): string {
    if c == '"' || c == '\\' then ['\\', c]
    else if ShortEscape(c).Some? then ['\\', ShortEscape(c).value]
    else if IsPrintableAscii(c) then [c]
    else UnicodeEscape(c)
  }

  function Encoded(s: string): string {
    if s == "" then "" else EncodedChar(s[0]) + Encoded(s[1..])
  }

  /** The byte four hexadecimal digits stand for, if they stand for one. */
  function HexByte(s: string): (r: Option<char>)
    ensures r.Some? ==> |s| >= 4 && r.value as int < 256
  {
    if |s| < 4 || !IsHex(s[0]) || !IsHex(s[1]) || !IsHex(s[2]) || !IsHex(s[3]) then None
    else
      var n := ((HexValue(s[0]) * 16 + HexValue(s[1])) * 16 + HexValue(s[2])) * 16 + HexValue(s[3]);
      if n > 255 then None else Some(n as char)
  }

  /** What printing one byte with %c adds to a C string: nothing for the terminator. */
  function ByteText(c: char): string { if c == '\0' then "" else [c] }

  /** One step of the decoder at the head of a text: what it writes and how much it reads. */
  function DecodedHead(s: string): (string, nat)
    requires s != ""
  {
    if s[0] != '\\' then ([s[0]], 1)
    else if |s| == 1 then (['\\'], 1)
    else if s[1] == '"' || s[1] == '\\' then ([s[1]], 2)
    else if ControlOf(s[1]).Some? then ([ControlOf(s[1]).value], 2)
    else if s[1] == 'u' then
      match HexByte(s[2..])
      case Some(c) => (ByteText(c), 6)
      case None => ("", 1)
    else (['\\'], 1)
  }

  function Decoded(s: string): string {
    if s == "" then ""
    else
      var (out, n) := DecodedHead(s);
      out + Decoded(s[n..])
  }

  // ----- printing -----

  /** JsonWrite at an indentation level, or JsonWriteCompact. */
  datatype Style = Pretty(level: nat) | Compact {
    function Inner(): Style {
      match this
      case Pretty(n) => Pretty(n + 1)
      case Compact => Compact
    }

    /** What stands between an element and the next line's element. */
    function Break(): string {
      match this
      case Pretty(n) => "\n" + Indent(n)
      case Compact => ""
    }

    function Colon(): string {
      match this
      case Pretty(_) => ": "
      case Compact => ":"
    }
  }

  function Spaces(n: nat): string {
    if n == 0 then "" else Spaces(n - 1) + " "
  }

  const SPACES_PER_INDENT := 2

  function Indent(n: nat): string { Spaces(n * SPACES_PER_INDENT) }

  function Quoted(s: string): string { "\"" + Encoded(s) + "\"" }

  function PrimText(kind: Kind, text: string): string {
    if kind == StringKind then Quoted(text) else text
  }

  /** The text of an element whose object members are printed as they stand. */
  function Text(j: Json, style: Style): string
    decreases j
  {
    match j
    case Prim(kind, text) => PrimText(kind, text)
    case Arr(items) =>
      if items == [] then "[]" else "[" + ItemsText(items, style) + style.Break() + "]"
    case Obj(members) =>
      "{" + MembersText(members, style) + style.Break() + "}"
  }

  function ItemsText(items: seq<Json>, style: Style): string
    decreases items
  {
    if items == [] then ""
    else
      style.Inner().Break() + Text(items[0], style.Inner())
      + (if |items| == 1 then "" else ",") + ItemsText(items[1..], style)
  }

  function MembersText(members: seq<Member>, style: Style): string
    decreases members
  {
    if members == [] then ""
    else
      style.Inner().Break() + Quoted(members[0].name) + style.Colon() + Text(members[0].value, style.Inner())
      + (if |members| == 1 then "" else ",") + MembersText(members[1..], style)
  }

  // ----- reading strings and numbers -----

  /** What JsonParseAsString writes for a backslash and the character after it. */
  function Unescaped(c: char): string {
    if c == '\\' || c == '"' || c == '/' then [c]
    else if ControlOf(c).Some? then [ControlOf(c).value]
    else ['\\', c]
  }

  /** The string's characters up to its closing quote. */
  function StringBody(data: string, out: string): (r: Parsed<string>)
    ensures r.Ok? ==> |r.rest| < |data|
    decreases |data|
  {
    if data == "" then Fail(StringNoDoublequoteEnd)
    else if data[0] == '"' then Ok(out, data[1..])
    else if data[0] != '\\' then StringBody(data[1..], out + [data[0]])
    else if |data| == 1 then Overrun
    else StringBody(data[2..], out + Unescaped(data[1]))
  }

  function ParseString(data: string): (r: Parsed<string>)
    ensures r.Ok? ==> |r.rest| < |data|
  {
    if data == "" || data[0] != '"' then Fail(StringNoDoublequoteStart) else StringBody(data[1..], "")
  }

  /** How far a number has been read. `prev` is the last character, or the terminator at first. */
  datatype Scan = Scan(prev: char, zeroStarted: bool, seenDot: bool, seenExponent: bool)

  const SCAN_START := Scan('\0', false, false, false)

  predicate AnyDigit(c: char) { c == '0' || IsDigit(c) }

  predicate IsE(c: char) { c == 'e' || c == 'E' }

  /** Reading one more character of a number. */
  function NumberStep(n: Scan, c: char): Parsed<Scan> {
    if c == '-' then
      if n.prev != '\0' && !IsE(n.prev) then Fail(NumberExponentNegative) else Ok(n.(prev := c), "")
    else if c == '+' then
      if !IsE(n.prev) then Fail(NumberExponentPositive) else Ok(n.(prev := c), "")
    else if c == '0' then
      if n.zeroStarted && !n.seenDot && !n.seenExponent then Fail(NumberDuplicateZero)
      else Ok(n.(prev := c, zeroStarted := n.zeroStarted || n.prev == '\0'), "")
    else if c == '.' then
      if n.seenDot then Fail(NumberMultipleDots)
      else if !AnyDigit(n.prev) then Fail(NumberNoDigit)
      else Ok(n.(prev := c, seenDot := true), "")
    else if IsE(c) then
      if n.seenExponent then Fail(NumberExponentDuplicate)
      else if !AnyDigit(n.prev) then Fail(NumberExponentDigit)
      else Ok(n.(prev := c, seenExponent := true), "")
    else if n.zeroStarted && !n.seenDot && !n.seenExponent then Fail(NumberExponentFollowLeadingZero)
    else if !IsDigit(c) then Fail(NumberBadSymbol)
    else Ok(n.(prev := c), "")
  }

  function NumberBody(data: string, n: Scan, out: string): (r: Parsed<Json>)
    ensures r.Ok? ==> |r.rest| <= |data|
    decreases |data|
  {
    if data == "" || IsSeparator(data[0]) then
      if !AnyDigit(n.prev) then Fail(NumberDigitEnd)
      else Ok(Prim(if n.seenDot then RealKind else IntegerKind, out), data)
    else
      match NumberStep(n, data[0])
      case Ok(m, _) => NumberBody(data[1..], m, out + [data[0]])
      case Fail(e) => Fail(e)
      case Overrun => Overrun
  }

  function ParseNumber(data: string): (r: Parsed<Json>)
    ensures r.Ok? ==> |r.rest| <= |data|
  {
    NumberBody(data, SCAN_START, "")
  }

  // ----- reading elements -----

  predicate EndsHere(data: string) { data == "" || IsSeparator(data[0]) }

  /** `word` is next and a separator or the end follows it. */
  predicate WordNext(data: string, word: string) {
    word <= data && EndsHere(data[|word|..])
  }

  /** A number, a boolean or null. */
  function ParseScalar(data: string): (r: Parsed<Json>)
    requires data != ""
    ensures r.Ok? ==> |r.rest| < |data|
  {
    if StartsNumber(data[0]) then
      NumberShortens(data);
      ParseNumber(data)
    else if WordNext(data, "true") then Ok(Prim(BoolKind, "true"), data[4..])
    else if WordNext(data, "false") then Ok(Prim(BoolKind, "false"), data[5..])
    else if WordNext(data, "null") then Ok(Prim(NullKind, "null"), data[4..])
    else Fail(ObjectBadSymbol)
  }

  lemma NumberShortens(data: string)
    requires data != "" && StartsNumber(data[0])
    ensures ParseNumber(data).Ok? ==> |ParseNumber(data).rest| < |data|
  {
  }

  /** The last character a successful read has passed: the one before what is left. */
  function LastRead(data: string, rest: string): char
    requires |rest| < |data|
  {
    data[|data| - |rest| - 1]
  }

  /** Appending under a key takes the place of an earlier member with that key. */
  function RemoveKey(members: seq<Member>, name: string): (r: seq<Member>)
    ensures |r| <= |members|
  {
    if members == [] then []
    else if members[0].name == name then members[1..]
    else [members[0]] + RemoveKey(members[1..], name)
  }

  function Appended(members: seq<Member>, name: string, value: Json): seq<Member> {
    RemoveKey(members, name) + [Member(name, value)]
  }

  function SkipWord(data: string): (r: string)
    ensures |r| <= |data|
  {
    if data == "" || !(data[0] == '-' || IsWord(data[0])) then data else SkipWord(data[1..])
  }

  function SkipBlank(data: string): (r: string)
    ensures |r| <= |data|
  {
    if data == "" || !IsWhitespace(data[0]) then data else SkipBlank(data[1..])
  }

  /** An unquoted key and the text after the colon that follows it. */
  function UnquotedKey(data: string): (r: Option<(string, string)>)
    ensures r.Some? ==> |r.value.1| < |data|
  {
    if data == "" || !IsWord(data[0]) then None
    else
      var word := SkipWord(data[1..]);
      var tail := SkipBlank(word);
      if tail == "" || tail[0] != ':' then None
      else Some((data[..|data| - |word|], tail[1..]))
  }

  function ArrayBody(data: string, prev: char, items: seq<Json>): (r: Parsed<Json>)
    ensures r.Ok? ==> |r.rest| < |data|
    decreases |data|
  {
    if data == "" then Fail(ArrayEnd)
    else if IsWhitespace(data[0]) then ArrayBody(data[1..], prev, items)
    else if data[0] == ']' then Ok(Arr(items), data[1..])
    else if data[0] == ',' then
      if prev == ',' || prev == '[' then Fail(ArrayComma) else ArrayBody(data[1..], ',', items)
    else if (data[0] == '[' || data[0] == '{') && prev != '[' && prev != ',' then Fail(ArrayStart)
    else
      match ParseValue(data)
      case Ok(j, rest) => ArrayBody(rest, LastRead(data, rest), items + [j])
      case Fail(e) => Fail(e)
      case Overrun => Overrun
  }

  function ObjectBody(data: string, prev: char, name: Option<string>, members: seq<Member>): (r: Parsed<Json>)
    ensures r.Ok? ==> |r.rest| < |data|
    decreases |data|
  {
    if data == "" then Fail(ObjectEnd)
    else if IsWhitespace(data[0]) then ObjectBody(data[1..], prev, name, members)
    else if data[0] == ':' then
      if name.None? || prev == ':' || prev == ',' then Fail(ObjectColon)
      else ObjectBody(data[1..], ':', name, members)
    else if data[0] == ',' then
      if name.Some? || prev == ':' || prev == ',' then Fail(ObjectComma)
      else ObjectBody(data[1..], ',', name, members)
    else if data[0] == '}' then
      if name.Some? then Fail(ObjectOpenLval) else Ok(Obj(members), data[1..])
    else if name.Some? then
      match ParseValue(data)
      case Ok(j, rest) => ObjectBody(rest, LastRead(data, rest), None, Appended(members, name.value, j))
      case Fail(e) => Fail(e)
      case Overrun => Overrun
    else if data[0] == '"' then
      if prev != '{' && prev != ',' then Fail(ObjectCommaMissing)
      else
        match ParseString(data)
        case Ok(key, rest) => ObjectBody(rest, '"', Some(key), members)
        case Fail(e) => Fail(e)
        case Overrun => Overrun
    else if data[0] == '[' then Fail(ObjectArrayLval)
    else if data[0] == '{' then Fail(ObjectObjectLval)
    else
      match UnquotedKey(data)
      case Some((key, rest)) => ObjectBody(rest, ':', Some(key), members)
      case None => Fail(ObjectBadSymbol)
  }

  /** An element at its first character. A string is decoded a second time. */
  function ParseValue(data: string): (r: Parsed<Json>)
    requires data != ""
    ensures r.Ok? ==> |r.rest| < |data|
    decreases |data|, 0
  {
    if data[0] == '"' then
      match ParseString(data)
      case Ok(s, rest) => Ok(Prim(StringKind, Decoded(s)), rest)
      case Fail(e) => Fail(e)
      case Overrun => Overrun
    else if data[0] == '[' then ArrayBody(data[1..], '[', [])
    else if data[0] == '{' then ObjectBody(data[1..], '{', None, [])
    else ParseScalar(data)
  }

  /** JsonParse: leading whitespace, then one element. */
  function Parse(data: string): (r: Parsed<Json>)
    ensures r.Ok? ==> |r.rest| < |data|
  {
    if data == "" then Fail(NoData)
    else if IsWhitespace(data[0]) then Parse(data[1..])
    else ParseValue(data)
  }

  /** JsonParseAll: nothing but space may follow. */
  function ParseAll(data: string): Parsed<Json> {
    var r := Parse(data);
    if r.Ok? && exists i :: 0 <= i < |r.rest| && !IsSpace(r.rest[i]) then Fail(InvalidEnd) else r
  }
}
