/** The cursor parser of json.c, as it runs: `data` is what is left of the text, and each loop moves
    it on. */
module JsonParser {
  import opened JsonSpec
  import opened JsonRoundTrip
  import opened JsonCanon
  import opened JsonTheorems
  import opened JsonReading
  import opened Writers
  import opened JsonWriter

  method DecodeString(s: string) returns (out: string)
    ensures out == Decoded(s)
  {
    hide Decoded;
    var w := new Writer();
    DecodeStringWriter(s, w);
    out := w.data;
    assert "" + Decoded(s) == Decoded(s);
  }

  method ParseAsString(text: string) returns (r: Parsed<string>)
    ensures r == ParseString(text)
  {
    if text == "" || text[0] != '"' {
      return Fail(StringNoDoublequoteStart);
    }
    var data, out := text[1..], "";
    while data != ""
      invariant StringBody(data, out) == StringBody(text[1..], "")
      decreases |data|
    {
      if data[0] == '"' {
        return Ok(out, data[1..]);
      }
      if data[0] == '\\' {
        if |data| == 1 {
          return Overrun;
        }
        out := out + Unescaped(data[1]);
        data := data[2..];
      } else {
        out := out + [data[0]];
        data := data[1..];
      }
    }
    return Fail(StringNoDoublequoteEnd);
  }

  method ParseAsNumber(text: string) returns (r: Parsed<Json>)
    ensures r == ParseNumber(text)
  {
    var data, out, n := text, "", SCAN_START;
    while data != "" && !IsSeparator(data[0])
      invariant NumberBody(data, n, out) == NumberBody(text, SCAN_START, "")
      decreases |data|
    {
      var step := NumberStep(n, data[0]);
      if !step.Ok? {
        return Fail(step.error);
      }
      n := step.value;
      out := out + [data[0]];
      data := data[1..];
    }
    if !AnyDigit(n.prev) {
      return Fail(NumberDigitEnd);
    }
    return Ok(Prim(if n.seenDot then RealKind else IntegerKind, out), data);
  }

  /** JsonParseAsBoolean: nothing if neither word is next. */
  method ParseAsBoolean(data: string) returns (r: Option<Parsed<Json>>)
    ensures r == if WordNext(data, "true") then Some(Ok(Prim(BoolKind, "true"), data[4..]))
                 else if WordNext(data, "false") then Some(Ok(Prim(BoolKind, "false"), data[5..]))
                 else None
  {
    if "true" <= data {
      if EndsHere(data[4..]) {
        return Some(Ok(Prim(BoolKind, "true"), data[4..]));
      }
    } else if "false" <= data {
      if EndsHere(data[5..]) {
        return Some(Ok(Prim(BoolKind, "false"), data[5..]));
      }
    }
    if "true" <= data {
      assert data[0] == "true"[0];
    }
    return None;
  }

  method ParseAsScalar(data: string) returns (r: Parsed<Json>)
    requires data != ""
    ensures r == ParseScalar(data)
  {
    hide NumberBody;
    if StartsNumber(data[0]) {
      r := ParseAsNumber(data);
      return;
    }
    var b := ParseAsBoolean(data);
    if b.Some? {
      return b.value;
    }
    if WordNext(data, "null") {
      return Ok(Prim(NullKind, "null"), data[4..]);
    }
    return Fail(ObjectBadSymbol);
  }

  /** The value of a string element: its text is unescaped by the parser and then by the decoder. */
  method ParseStringElement(data: string) returns (r: Parsed<Json>)
    requires data != "" && data[0] == '"'
    ensures r == ParseValue(data)
  {
    hide StringBody, Decoded;
    var s := ParseAsString(data);
    match s
    case Ok(value, rest) =>
      var decoded := DecodeString(value);
      r := Ok(Prim(StringKind, decoded), rest);
    case Fail(e) => r := Fail(e);
    case Overrun => r := Overrun;
  }

  /** An element at its first character. */
  method ParseElement(data: string) returns (r: Parsed<Json>)
    requires data != ""
    ensures r == ParseValue(data)
    decreases |data|, 1
  {
    hide ArrayBody, ObjectBody;
    if data[0] == '"' {
      r := ParseStringElement(data);
    } else if data[0] == '[' {
      r := ParseAsArray(data);
    } else if data[0] == '{' {
      r := ParseAsObject(data);
    } else {
      r := ParseAsScalar(data);
    }
  }

  method ParseAsArray(text: string) returns (r: Parsed<Json>)
    ensures r == if text == "" || text[0] != '[' then Fail(ArrayStart) else ParseValue(text)
    decreases |text|, 0
  {
    hide ParseValue, ParseScalar;
    if text == "" || text[0] != '[' {
      return Fail(ArrayStart);
    }
    var items: seq<Json>, prev, data := [], '[', text[1..];
    ArrayValue(text);
    while data != ""
      invariant |data| < |text|
      invariant ArrayBody(data, prev, items) == ParseValue(text)
      decreases |data|
    {
      var c := data[0];
      if IsWhitespace(c) {
        data := data[1..];
        continue;
      }
      if c == ']' {
        return Ok(Arr(items), data[1..]);
      } else if c == ',' {
        if prev == ',' || prev == '[' {
          return Fail(ArrayComma);
        }
        data, prev := data[1..], ',';
      } else {
        if (c == '[' || c == '{') && prev != '[' && prev != ',' {
          return Fail(ArrayStart);
        }
        var child := ParseElement(data);
        if !child.Ok? {
          return child;
        }
        prev := LastRead(data, child.rest);
        items := items + [child.value];
        data := child.rest;
      }
    }
    return Fail(ArrayEnd);
  }

  lemma ArrayValue(text: string)
    requires text != "" && text[0] == '['
    ensures ParseValue(text) == ArrayBody(text[1..], '[', [])
  {
    hide ArrayBody;
  }

  lemma ObjectValueIs(text: string)
    requires text != "" && text[0] == '{'
    ensures ParseValue(text) == ObjectBody(text[1..], '{', None, [])
  {
    hide ObjectBody;
  }

  /** JsonObjectRemoveKey and JsonObjectAppendElement on an object's children. */
  method AppendElement(members: seq<Member>, name: string, value: Json) returns (r: seq<Member>)
    ensures r == Appended(members, name, value)
    ensures UniqueNames(members) ==> UniqueNames(r)
  {
    var i := 0;
    while i < |members| && members[i].name != name
      invariant 0 <= i <= |members|
      invariant RemoveKey(members, name) == members[..i] + RemoveKey(members[i..], name)
    {
      assert members[i..][1..] == members[i + 1..];
      i := i + 1;
    }
    assert RemoveKey(members[i..], name) == if i < |members| then members[i + 1..] else [] by {
      if i < |members| {
        assert members[i..][1..] == members[i + 1..];
      }
    }
    r := (if i < |members| then members[..i] + members[i + 1..] else members) + [Member(name, value)];
    if UniqueNames(members) {
      AppendedUnique(members, name, value);
    }
  }

  method UnquotedKeyWithColon(data: string) returns (r: Option<(string, string)>)
    ensures r == UnquotedKey(data)
  {
    if data == "" || !IsWord(data[0]) {
      return None;
    }
    var i := data[1..];
    while i != "" && (i[0] == '-' || IsWord(i[0]))
      invariant SkipWord(i) == SkipWord(data[1..])
      decreases |i|
    {
      i := i[1..];
    }
    var word := i;
    while i != "" && IsWhitespace(i[0])
      invariant SkipBlank(i) == SkipBlank(word)
      decreases |i|
    {
      i := i[1..];
    }
    if i == "" || i[0] != ':' {
      return None;
    }
    return Some((data[..|data| - |word|], i[1..]));
  }

  method ParseAsObject(text: string) returns (r: Parsed<Json>)
    ensures r == if text == "" || text[0] != '{' then Fail(ArrayStart) else ParseValue(text)
    decreases |text|, 0
  {
    hide ParseValue, ParseScalar, ParseString, UnquotedKey, Appended;
    if text == "" || text[0] != '{' {
      return Fail(ArrayStart);
    }
    var members: seq<Member>, name: Option<string>, prev, data := [], None, '{', text[1..];
    ObjectValueIs(text);
    while data != ""
      invariant |data| < |text|
      invariant ObjectBody(data, prev, name, members) == ParseValue(text)
      decreases |data|
    {
      var c := data[0];
      if IsWhitespace(c) {
        data := data[1..];
        continue;
      }
      if c == ':' {
        if name.None? || prev == ':' || prev == ',' {
          return Fail(ObjectColon);
        }
        data, prev := data[1..], ':';
      } else if c == ',' {
        if name.Some? || prev == ':' || prev == ',' {
          return Fail(ObjectComma);
        }
        data, prev := data[1..], ',';
      } else if c == '}' {
        if name.Some? {
          return Fail(ObjectOpenLval);
        }
        return Ok(Obj(members), data[1..]);
      } else if name.Some? {
        var child := ParseElement(data);
        if !child.Ok? {
          return child;
        }
        prev := LastRead(data, child.rest);
        members := AppendElement(members, name.value, child.value);
        name := None;
        data := child.rest;
      } else if c == '"' {
        if prev != '{' && prev != ',' {
          return Fail(ObjectCommaMissing);
        }
        var key := ParseAsString(data);
        match key
        case Ok(value, rest) => name, prev, data := Some(value), '"', rest;
        case Fail(e) => return Fail(e);
        case Overrun => return Overrun;
      } else if c == '[' {
        return Fail(ObjectArrayLval);
      } else if c == '{' {
        return Fail(ObjectObjectLval);
      } else {
        var key := UnquotedKeyWithColon(data);
        if key.None? {
          return Fail(ObjectBadSymbol);
        }
        name, prev, data := Some(key.value.0), ':', key.value.1;
      }
    }
    return Fail(ObjectEnd);
  }

  /** JsonParse. */
  method ParseText(text: string) returns (r: Parsed<Json>)
    ensures r == Parse(text)
  {
    hide ParseValue;
    var data := text;
    while data != ""
      invariant Parse(data) == Parse(text)
      decreases |data|
    {
      if IsWhitespace(data[0]) {
        data := data[1..];
      } else {
        r := ParseElement(data);
        return;
      }
    }
    return Fail(NoData);
  }

  /** JsonParseAll. */
  method ParseWhole(text: string) returns (r: Parsed<Json>)
    ensures r == ParseAll(text)
  {
    hide Parse;
    r := ParseText(text);
    if r.Ok? {
      for i := 0 to |r.rest|
        invariant forall k :: 0 <= k < i ==> IsSpace(r.rest[k])
      {
        if !IsSpace(r.rest[i]) {
          return Fail(InvalidEnd);
        }
      }
    }
  }

  /** Writing an element and parsing the text: the parser takes all of it, and the result is the
      element as the writer left it exactly when the strings in it survive. */
  method WriteThenParse(j: Json, style: Style) returns (left: Json, r: Parsed<Json>)
    requires Valid(j)
    ensures left == Canonical(j)
    ensures r == Ok(Back(left), "")
    ensures r == Ok(left, "") <==> Faithful(j)
  {
    hide Valid, Faithful, Canonical, Printed, Back, ParseAll, Unique;
    ValidIsUnique(j);
    var w := new Writer();
    match style {
      case Pretty(n) => left := Write(w, j, n);
      case Compact => left := WriteCompact(w, j);
    }
    assert "" + Printed(j, style) == Printed(j, style);
    r := ParseWhole(w.data);
    RoundTrip(j, style);
  }
}
