/** The strings of section 7 of RFC 8259, as they are written, and what they are read as: once by the parser,
    and once more by the decoder when they are values. */
module JsonEscapes {
  import opened JsonSpec
  import opened JsonStrings

  // ----- hexadecimal digits -----

  predicate IsHexDigit(c: char, d: int) {
    0 <= d < 16 && (c == "0123456789abcdef"[d] || c == "0123456789ABCDEF"[d])
  }

  /** Four digits and their values. */
  predicate FourDigits(digits: string, values: seq<int>) {
    |digits| == |values| == 4 && forall i :: 0 <= i < 4 ==> IsHexDigit(digits[i], values[i])
  }

  function CodeOf(values: seq<int>): int
    requires |values| == 4
  {
    0x1000 * values[0] + 0x100 * values[1] + 0x10 * values[2] + values[3]
  }

  lemma HexTable(c: char, d: int)
    ensures IsHexDigit(c, d) <==> IsHex(c) && HexValue(c) == d
  {
  }

  /** The decoder's test for a code of at most 255 at the head of a text. */
  lemma HexByteIs(digits: string, values: seq<int>, rest: string)
    requires FourDigits(digits, values)
    ensures HexByte(digits + rest) == if 0 <= CodeOf(values) <= 255 then Some(CodeOf(values) as char) else None
  {
    hide IsHexDigit, IsHex, HexValue;
    forall i | 0 <= i < 4 ensures IsHex(digits[i]) && HexValue(digits[i]) == values[i] && (digits + rest)[i] == digits[i] {
      assert IsHexDigit(digits[i], values[i]);
      HexTable(digits[i], values[i]);
    }
  }

  /** A code of at most 255 stands at the head of the text. */
  ghost predicate StartsCode(s: string) {
    |s| >= 4 && exists values: seq<int> :: FourDigits(s[..4], values) && CodeOf(values) <= 255
  }

  lemma NoCode(s: string)
    ensures HexByte(s).Some? <==> StartsCode(s)
  {
    if HexByte(s).Some? {
      var values := [HexValue(s[0]), HexValue(s[1]), HexValue(s[2]), HexValue(s[3])];
      forall i | 0 <= i < 4 ensures IsHexDigit(s[..4][i], values[i]) {
        HexTable(s[i], values[i]);
      }
      assert FourDigits(s[..4], values);
    }
    if StartsCode(s) {
      var values: seq<int> :| FourDigits(s[..4], values) && CodeOf(values) <= 255;
      HexByteIs(s[..4], values, s[4..]);
      assert s == s[..4] + s[4..];
      assert forall i :: 0 <= i < 4 ==> IsHexDigit(s[..4][i], values[i]);
    }
  }

  const LETTERS := "\"\\/bfnrt"

  /** What a letter behind a backslash stands for. */
  function Meant(letter: char): char {
    if letter == 'b' then 8 as char
    else if letter == 'f' then 12 as char
    else if letter == 'n' then 10 as char
    else if letter == 'r' then 13 as char
    else if letter == 't' then 9 as char
    else letter
  }

  // ----- strings as they are written -----

  /** A character, a letter behind a backslash, or a code of four digits. */
  datatype Glyph = Raw(c: char) | Escape(letter: char) | Code(digits: string, values: seq<int>) {
    /** The standard has eight letters. */
    predicate Valid() { Readable() && (Escape? ==> letter in LETTERS) }

    /** The parser takes any character behind a backslash. */
    predicate Readable() {
      match this
      case Raw(c) => c != '"' && c != '\\'
      case Escape(_) => true
      case Code(digits, values) => FourDigits(digits, values)
    }

    function Text(): string {
      match this
      case Raw(c) => [c]
      case Escape(letter) => ['\\', letter]
      case Code(digits, _) => "\\u" + digits
    }

    /** What the parser reads: a code stays as it is, and so does a letter that stands for nothing. */
    function Once(): string {
      match this
      case Raw(c) => [c]
      case Escape(letter) => if letter in LETTERS then [Meant(letter)] else ['\\', letter]
      case Code(digits, _) => "\\u" + digits
    }
  }

  predicate AllValid(glyphs: seq<Glyph>) { forall i :: 0 <= i < |glyphs| ==> glyphs[i].Valid() }

  predicate AllReadable(glyphs: seq<Glyph>) { forall i :: 0 <= i < |glyphs| ==> glyphs[i].Readable() }

  function Written(glyphs: seq<Glyph>): string {
    if glyphs == [] then "" else glyphs[0].Text() + Written(glyphs[1..])
  }

  function ReadOnce(glyphs: seq<Glyph>): string {
    if glyphs == [] then "" else glyphs[0].Once() + ReadOnce(glyphs[1..])
  }

  lemma EscapeMeans(letter: char)
    ensures Unescaped(letter) == Escape(letter).Once()
  {
    LettersAre();
  }

  lemma HexIsQuiet(digits: string, values: seq<int>)
    requires FourDigits(digits, values)
    ensures forall i :: 0 <= i < |digits| ==> digits[i] != '"' && digits[i] != '\\'
  {
    hide IsHexDigit;
    forall i | 0 <= i < 4 ensures digits[i] != '"' && digits[i] != '\\' {
      assert IsHexDigit(digits[i], values[i]);
      HexTable(digits[i], values[i]);
    }
  }

  lemma GlyphReads(g: Glyph, tail: string, out: string)
    requires g.Readable()
    ensures StringBody(g.Text() + tail, out) == StringBody(tail, out + g.Once())
  {
    match g
    case Raw(c) => assert ([c] + tail)[1..] == tail;
    case Escape(letter) =>
      EscapeMeans(letter);
      assert (['\\', letter] + tail)[2..] == tail;
    case Code(digits, values) =>
      HexIsQuiet(digits, values);
      CodeReads(digits, tail, out);
  }

  lemma CodeReads(digits: string, tail: string, out: string)
    requires forall i :: 0 <= i < |digits| ==> digits[i] != '"' && digits[i] != '\\'
    ensures StringBody("\\u" + digits + tail, out) == StringBody(tail, out + ("\\u" + digits))
  {
    assert ("\\u" + digits + tail)[2..] == digits + tail;
    assert Unescaped('u') == "\\u";
    ReadPlain(digits, tail, out + "\\u");
    assert out + "\\u" + digits == out + ("\\u" + digits);
  }

  /** The parser reads every string up to its closing quote, and each part of it as what it stands for, but for
      codes. */
  lemma {:induction false} StringReads(glyphs: seq<Glyph>, rest: string, out: string)
    requires AllReadable(glyphs)
    ensures StringBody(Written(glyphs) + "\"" + rest, out) == Ok(out + ReadOnce(glyphs), rest)
    decreases |glyphs|
  {
    hide StringBody, Glyph.Readable, Glyph.Text, Glyph.Once;
    if glyphs == [] {
      ReadQuote(rest, out);
      assert Written(glyphs) + "\"" + rest == "\"" + rest && out + ReadOnce(glyphs) == out;
    } else {
      var g, more := glyphs[0], glyphs[1..];
      var tail := Written(more) + "\"" + rest;
      GlyphReads(g, tail, out);
      StringReads(more, rest, out + g.Once());
      assert Written(glyphs) + "\"" + rest == g.Text() + tail;
      assert out + g.Once() + ReadOnce(more) == out + ReadOnce(glyphs);
    }
  }

  /** What the parser has accepted as a string is one. */
  lemma {:induction false} StringAccepted(data: string, out: string) returns (glyphs: seq<Glyph>)
    requires StringBody(data, out).Ok?
    ensures AllReadable(glyphs)
    ensures data == Written(glyphs) + "\"" + StringBody(data, out).rest
    ensures StringBody(data, out).value == out + ReadOnce(glyphs)
    decreases |data|
  {
    hide Glyph.Once, Glyph.Text, Glyph.Readable;
    if data[0] == '"' {
      glyphs := [];
      assert Written(glyphs) + "\"" + data[1..] == ['"'] + data[1..] == data;
      assert out + ReadOnce(glyphs) == out;
    } else {
      var g := FirstGlyph(data, out);
      hide StringBody;
      var rest := data[|g.Text()|..];
      GlyphReads(g, rest, out);
      var more := StringAccepted(rest, out + g.Once());
      glyphs := [g] + more;
      assert glyphs[1..] == more;
      Reassociated(g.Text(), Written(more), "\"", StringBody(data, out).rest);
      Reassociated(out, g.Once(), ReadOnce(more), "");
    }
  }

  lemma Reassociated(a: string, b: string, c: string, d: string)
    ensures a + (b + c + d) == a + b + c + d && a + b + c == a + (b + c)
  {
  }

  lemma FirstGlyph(data: string, out: string) returns (g: Glyph)
    requires StringBody(data, out).Ok? && data[0] != '"'
    ensures g.Readable() && 1 <= |g.Text()| <= |data| && data == g.Text() + data[|g.Text()|..]
  {
    g := if data[0] == '\\' then Escape(data[1]) else Raw(data[0]);
  }

  // ----- the second reading -----

  /** A part of a text that the decoder reads: a character; a letter behind a backslash; a code of at most 255;
      a backslash before a u without one, which is dropped; and any other backslash, which stays. */
  datatype Part = Plain(c: char) | Short(letter: char) | Byte(digits: string, values: seq<int>) | Dropped | Lone {
    ghost predicate Valid(rest: string) {
      match this
      case Plain(c) => c != '\\'
      case Short(letter) => letter in "\"\\bfnrt"
      case Byte(digits, values) => FourDigits(digits, values) && CodeOf(values) <= 255
      case Dropped => rest != "" && rest[0] == 'u' && !StartsCode(rest[1..])
      case Lone => rest == "" || rest[0] !in "\"\\bfnrtu"
    }

    function Text(): string {
      match this
      case Plain(c) => [c]
      case Short(letter) => ['\\', letter]
      case Byte(digits, _) => "\\u" + digits
      case Dropped => "\\"
      case Lone => "\\"
    }

    /** The code zero ends a C string, and leaves nothing. */
    function Meaning(): string {
      match this
      case Plain(c) => [c]
      case Short(letter) => [Meant(letter)]
      case Byte(_, values) => if |values| == 4 && 0 < CodeOf(values) <= 255 then [CodeOf(values) as char] else ""
      case Dropped => ""
      case Lone => "\\"
    }
  }

  function PartsText(parts: seq<Part>): string {
    if parts == [] then "" else parts[0].Text() + PartsText(parts[1..])
  }

  function PartsMeaning(parts: seq<Part>): string {
    if parts == [] then "" else parts[0].Meaning() + PartsMeaning(parts[1..])
  }

  ghost predicate ValidParts(parts: seq<Part>) {
    parts == [] || (parts[0].Valid(PartsText(parts[1..])) && ValidParts(parts[1..]))
  }

  lemma ShortMeans(letter: char, rest: string)
    requires letter in "\"\\bfnrt"
    ensures DecodedHead(['\\', letter] + rest) == ([Meant(letter)], 2)
  {
  }

  lemma LoneMeans(rest: string)
    requires rest == "" || rest[0] !in "\"\\bfnrtu"
    ensures DecodedHead(['\\'] + rest) == (['\\'], 1)
  {
    if rest != "" {
      var s, c := "\"\\bfnrtu", rest[0];
      assert s[0] == '"' && s[1] == '\\' && s[2] == 'b' && s[3] == 'f';
      assert s[4] == 'n' && s[5] == 'r' && s[6] == 't' && s[7] == 'u';
      assert (['\\'] + rest)[1] == c;
    }
  }

  lemma ByteMeans(digits: string, values: seq<int>, rest: string)
    requires FourDigits(digits, values) && CodeOf(values) <= 255
    ensures CodeOf(values) >= 0
    ensures DecodedHead("\\u" + digits + rest) == (if CodeOf(values) == 0 then "" else [CodeOf(values) as char], 6)
  {
    assert forall i :: 0 <= i < 4 ==> IsHexDigit(digits[i], values[i]);
    var s := "\\u" + digits + rest;
    HexByteIs(digits, values, rest);
    CodeTail(digits, rest);
    hide HexByte, IsHexDigit, FourDigits, CodeOf;
    CodeHead(s, CodeOf(values));
  }

  lemma CodeTail(digits: string, rest: string)
    ensures ("\\u" + digits + rest)[2..] == digits + rest
  {
  }

  lemma CodeHead(s: string, code: int)
    requires |s| >= 2 && s[0] == '\\' && s[1] == 'u' && 0 <= code <= 255 && HexByte(s[2..]) == Some(code as char)
    ensures DecodedHead(s) == (if code == 0 then "" else [code as char], 6)
  {
  }

  lemma DroppedMeans(rest: string)
    requires rest != "" && rest[0] == 'u' && !StartsCode(rest[1..])
    ensures DecodedHead(['\\'] + rest) == ("", 1)
  {
    hide StartsCode, HexByte;
    NoCode(rest[1..]);
    assert (['\\'] + rest)[1] == 'u' && (['\\'] + rest)[2..] == rest[1..];
  }

  lemma PartMeans(p: Part, rest: string)
    requires p.Valid(rest)
    ensures DecodedHead(p.Text() + rest) == (p.Meaning(), |p.Text()|)
  {
    hide StartsCode, HexByte, DecodedHead, FourDigits, CodeOf;
    match p
    case Plain(c) => OtherMeans(c, rest);
    case Short(letter) => ShortMeans(letter, rest);
    case Byte(digits, values) =>
      ByteMeans(digits, values, rest);
      FourLong(digits, values);
    case Dropped => DroppedMeans(rest);
    case Lone => LoneMeans(rest);
  }

  lemma FourLong(digits: string, values: seq<int>)
    requires FourDigits(digits, values)
    ensures |digits| == |values| == 4
  {
  }

  lemma OtherMeans(c: char, rest: string)
    requires c != '\\'
    ensures DecodedHead([c] + rest) == ([c], 1)
  {
  }

  /** The decoder reads every part of a text as what it stands for. */
  lemma {:induction false} DecodedMeans(parts: seq<Part>)
    requires ValidParts(parts)
    ensures Decoded(PartsText(parts)) == PartsMeaning(parts)
    decreases |parts|
  {
    hide DecodedHead, Part.Valid, Part.Meaning, Part.Text;
    if parts != [] {
      var p, rest := parts[0], PartsText(parts[1..]);
      PartMeans(p, rest);
      NotNothing(p);
      assert (p.Text() + rest)[|p.Text()|..] == rest;
      DecodedMeans(parts[1..]);
    }
  }

  lemma NotNothing(p: Part)
    ensures p.Text() != ""
  {
  }

  /** Every text is made of such parts. */
  lemma {:induction false} Parted(s: string) returns (parts: seq<Part>)
    ensures ValidParts(parts) && PartsText(parts) == s
    decreases |s|
  {
    hide Part.Valid, Part.Text;
    if s == "" {
      parts := [];
    } else {
      var p := FirstPart(s);
      NotNothing(p);
      var n := |p.Text()|;
      var more := Parted(s[n..]);
      parts := [p] + more;
      assert parts[1..] == more && s == s[..n] + s[n..];
    }
  }

  lemma FirstPart(s: string) returns (p: Part)
    requires s != ""
    ensures p.Text() <= s && p.Valid(s[|p.Text()|..])
  {
    hide StartsCode, FourDigits;
    if s[0] != '\\' {
      p := Plain(s[0]);
    } else if |s| == 1 || s[1] !in "\"\\bfnrtu" {
      p := Lone;
    } else if s[1] != 'u' {
      ShortLetter(s[1]);
      p := Short(s[1]);
    } else if StartsCode(s[2..]) {
      var values := TheCode(s[2..]);
      assert s[2..][..4] == s[2..6];
      p := Byte(s[2..6], values);
    } else {
      assert s[1..][1..] == s[2..];
      p := Dropped;
    }
  }

  lemma ShortLetter(c: char)
    requires c in "\"\\bfnrtu" && c != 'u'
    ensures c in "\"\\bfnrt"
  {
    var s, t := "\"\\bfnrtu", "\"\\bfnrt";
    assert forall i :: 0 <= i < 7 ==> s[i] == t[i];
  }

  lemma TheCode(s: string) returns (values: seq<int>)
    requires StartsCode(s)
    ensures |s| >= 4 && FourDigits(s[..4], values) && CodeOf(values) <= 255
  {
    values :| FourDigits(s[..4], values) && CodeOf(values) <= 255;
  }

  // ----- values without a backslash of their own -----

  /** What a value has for a part of the written string: the character it stands for, but a code above 255
      loses its backslash only. */
  function Twice(g: Glyph): string {
    match g
    case Raw(c) => [c]
    case Escape(letter) => [Meant(letter)]
    case Code(digits, values) =>
      if |values| == 4 && 0 < CodeOf(values) <= 255 then [CodeOf(values) as char]
      else if |values| == 4 && CodeOf(values) == 0 then ""
      else "u" + digits
  }

  function ReadTwice(glyphs: seq<Glyph>): string {
    if glyphs == [] then "" else Twice(glyphs[0]) + ReadTwice(glyphs[1..])
  }

  lemma OtherCode(digits: string, values: seq<int>, rest: string)
    requires FourDigits(digits, values) && CodeOf(values) > 255
    ensures Decoded("\\u" + digits + rest) == "u" + digits + Decoded(rest)
  {
    HexIsQuiet(digits, values);
    hide HexByte, IsHexDigit, DecodedHead, Decoded;
    var s := "\\u" + digits + rest;
    HexByteIs(digits, values, rest);
    assert s[2..] == digits + rest;
    DroppedHead(s);
    assert s[1..] == ("u" + digits) + rest;
    DecodePlain("u" + digits, rest);
    OneDecoded(s);
    assert "" + ("u" + digits + Decoded(rest)) == "u" + digits + Decoded(rest);
  }

  lemma DroppedHead(s: string)
    requires |s| >= 2 && s[0] == '\\' && s[1] == 'u' && HexByte(s[2..]).None?
    ensures DecodedHead(s) == ("", 1)
  {
  }

  lemma OneDecoded(s: string)
    requires s != ""
    ensures DecodedHead(s).1 <= |s| && Decoded(s) == DecodedHead(s).0 + Decoded(s[DecodedHead(s).1..])
  {
  }

  lemma GlyphTwice(g: Glyph, rest: string)
    requires g.Valid() && g != Escape('\\')
    ensures Decoded(g.Once() + rest) == Twice(g) + Decoded(rest)
  {
    hide Decoded, DecodedHead, CodeOf, FourDigits;
    var s := g.Once() + rest;
    match g
    case Raw(c) =>
      OtherMeans(c, rest);
      OneDecoded(s);
      assert s[1..] == rest;
    case Escape(letter) =>
      NoBackslashMeant(letter);
      OtherMeans(Meant(letter), rest);
      OneDecoded(s);
      assert s[1..] == rest;
    case Code(digits, values) =>
      FourLong(digits, values);
      if CodeOf(values) <= 255 {
        ByteMeans(digits, values, rest);
        OneDecoded(s);
        assert s[6..] == rest;
      } else {
        OtherCode(digits, values, rest);
      }
  }

  lemma NoBackslashMeant(letter: char)
    requires letter in LETTERS && letter != '\\'
    ensures Meant(letter) != '\\'
  {
  }

  /** In a string without an escaped backslash the second reading finds nothing to undo but the codes. */
  lemma {:induction false} ValueReads(glyphs: seq<Glyph>)
    requires AllValid(glyphs) && Escape('\\') !in glyphs
    ensures Decoded(ReadOnce(glyphs)) == ReadTwice(glyphs)
    decreases |glyphs|
  {
    hide DecodedHead, Glyph.Valid, Glyph.Once, Twice;
    if glyphs != [] {
      GlyphTwice(glyphs[0], ReadOnce(glyphs[1..]));
      ValueReads(glyphs[1..]);
    }
  }

  // ----- the encoder -----

  function LowerDigit(n: int): char
    requires 0 <= n < 16
  {
    "0123456789abcdef"[n]
  }

  /** How the encoder writes a byte: quotes, backslashes and five control characters behind a backslash, other
      printable characters as they are, and the rest as codes in lower case. */
  function GlyphOf(c: char): Glyph
    requires 0 < c as int < 256
  {
    var n := c as int;
    if c == '"' || c == '\\' then Escape(c)
    else if n == 8 then Escape('b')
    else if n == 12 then Escape('f')
    else if n == 10 then Escape('n')
    else if n == 13 then Escape('r')
    else if n == 9 then Escape('t')
    else if 32 <= n <= 126 then Raw(c)
    else Code(['0', '0', LowerDigit(n / 16), LowerDigit(n % 16)], [0, 0, n / 16, n % 16])
  }

  function GlyphsOf(s: string): (r: seq<Glyph>)
    requires forall i :: 0 <= i < |s| ==> 0 < s[i] as int < 256
    ensures |r| == |s|
  {
    if s == "" then [] else [GlyphOf(s[0])] + GlyphsOf(s[1..])
  }

  lemma HexDigitIs(n: int)
    requires 0 <= n < 16
    ensures HexDigit(n) == LowerDigit(n)
  {
  }

  lemma ByteEncoded(c: char)
    requires 0 < c as int < 256
    ensures GlyphOf(c).Valid() && EncodedChar(c) == GlyphOf(c).Text()
  {
    match GlyphOf(c)
    case Raw(_) =>
    case Escape(letter) => LettersAre();
    case Code(_, _) =>
      CodeEncoded(c);
  }

  lemma LettersAre()
    ensures forall c :: c in LETTERS <==>
      c == '"' || c == '\\' || c == '/' || c == 'b' || c == 'f' || c == 'n' || c == 'r' || c == 't'
  {
    var s := LETTERS;
    assert s[0] == '"' && s[1] == '\\' && s[2] == '/' && s[3] == 'b' && s[4] == 'f';
    assert s[5] == 'n' && s[6] == 'r' && s[7] == 't';
  }

  lemma CodeEncoded(c: char)
    requires 0 < c as int < 256 && GlyphOf(c).Code?
    ensures GlyphOf(c).Valid() && EncodedChar(c) == GlyphOf(c).Text()
  {
    IsCode(c);
    hide HexDigit, EncodedChar, GlyphOf, UnicodeEscape;
    UnicodeIs(c);
    SixLong(LowerDigit(c as int / 16), LowerDigit(c as int % 16));
  }

  lemma UnicodeIs(c: char)
    requires 0 < c as int < 256
    ensures UnicodeEscape(c) == ['\\', 'u', '0', '0', LowerDigit(c as int / 16), LowerDigit(c as int % 16)]
  {
    hide HexDigit, LowerDigit;
    HexDigitIs(c as int / 16);
    HexDigitIs(c as int % 16);
  }

  lemma SixLong(a: char, b: char)
    ensures "\\u" + ['0', '0', a, b] == ['\\', 'u', '0', '0', a, b]
  {
  }

  lemma IsCode(c: char)
    requires 0 < c as int < 256 && GlyphOf(c).Code?
    ensures EncodedChar(c) == UnicodeEscape(c) && GlyphOf(c).Valid()
    ensures var n := c as int;
      GlyphOf(c).Text() == "\\u" + ['0', '0', LowerDigit(n / 16), LowerDigit(n % 16)]
  {
    hide HexDigit;
  }

  /** The encoder writes a string of the standard's grammar, byte by byte. */
  lemma {:induction false} EncodedIs(s: string)
    requires forall i :: 0 <= i < |s| ==> 0 < s[i] as int < 256
    ensures AllValid(GlyphsOf(s)) && Encoded(s) == Written(GlyphsOf(s))
    decreases |s|
  {
    hide GlyphOf, EncodedChar, Glyph.Valid, Glyph.Text;
    if s != "" {
      ByteEncoded(s[0]);
      EncodedIs(s[1..]);
      assert GlyphsOf(s)[1..] == GlyphsOf(s[1..]);
    }
  }
}
