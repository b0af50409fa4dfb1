/** What becomes of a string that is printed and read back. A key is unescaped once, by the parser;
    a value is unescaped a second time, by the decoder, so that a value with a backslash may not
    survive. Both cases are characterised exactly. */
module JsonStrings {
  import opened JsonSpec

  // ----- one unescaping: keys -----

  /** Whether the encoder writes the character in a form that the parser undoes. */
  predicate Plain(c: char) { IsPrintableAscii(c) || ShortEscape(c).Some? }

  predicate CleanKey(s: string) { forall i :: 0 <= i < |s| ==> Plain(s[i]) }

  /** The parser's reading of an encoded string: escapes of the `u` form stay as they are. */
  function Kept(s: string): (r: string)
    ensures |r| >= |s|
  {
    if s == "" then ""
    else KeptChar(s[0]) + Kept(s[1..])
  }

  function KeptChar(c: char): string { if Plain(c) then [c] else UnicodeEscape(c) }

  lemma {:induction false} ReadEncoded(s: string, rest: string, out: string)
    ensures StringBody(Encoded(s) + "\"" + rest, out) == Ok(out + Kept(s), rest)
    decreases |s|
  {
    hide StringBody, EncodedChar, UnicodeEscape, Plain;
    if s == "" {
      ReadQuote(rest, out);
      assert Encoded(s) + "\"" + rest == "\"" + rest;
      assert out + Kept(s) == out;
    } else {
      var head, tail := KeptChar(s[0]), Encoded(s[1..]) + "\"" + rest;
      ReadEncodedHead(s[0], tail, out);
      assert Encoded(s) + "\"" + rest == EncodedChar(s[0]) + tail;
      ReadEncoded(s[1..], rest, out + head);
      assert out + Kept(s) == out + head + Kept(s[1..]);
    }
  }

  lemma ReadQuote(rest: string, out: string)
    ensures StringBody("\"" + rest, out) == Ok(out, rest)
  {
    assert ("\"" + rest)[1..] == rest;
  }

  lemma ReadEncodedHead(c: char, tail: string, out: string)
    ensures StringBody(EncodedChar(c) + tail, out)
         == StringBody(tail, out + KeptChar(c))
  {
    var data := EncodedChar(c) + tail;
    if Plain(c) && c != '"' && c != '\\' && ShortEscape(c).None? {
      assert data[1..] == tail;
    } else if Plain(c) {
      assert data[2..] == tail;
    } else {
      ReadUnicode(c, tail, out);
    }
  }

  /** None of the characters of a `u` escape ends the string or begins an escape. */
  lemma {:induction false} ReadPlain(text: string, tail: string, out: string)
    requires forall i :: 0 <= i < |text| ==> text[i] != '"' && text[i] != '\\'
    ensures StringBody(text + tail, out) == StringBody(tail, out + text)
    decreases |text|
  {
    if text == "" {
      assert text + tail == tail && out + text == out;
    } else {
      assert (text + tail)[1..] == text[1..] + tail;
      ReadPlain(text[1..], tail, out + [text[0]]);
      assert out + [text[0]] + text[1..] == out + text;
    }
  }

  lemma ReadUnicode(c: char, tail: string, out: string)
    ensures StringBody(UnicodeEscape(c) + tail, out) == StringBody(tail, out + UnicodeEscape(c))
  {
    var esc := UnicodeEscape(c);
    assert (esc + tail)[2..] == esc[2..] + tail;
    ReadPlain(esc[2..], tail, out + ['\\', 'u']);
    assert out + ['\\', 'u'] + esc[2..] == out + esc;
  }

  /** A key survives if and only if it is made of printable characters and the five control
      characters that have a short escape. */
  lemma {:induction false} KeyRoundTrip(s: string)
    ensures Kept(s) == s <==> CleanKey(s)
    ensures ParseString(Quoted(s)) == Ok(s, "") <==> CleanKey(s)
  {
    KeptIff(s);
    ReadEncoded(s, "", "");
    assert Quoted(s)[1..] == Encoded(s) + "\"" + "";
    assert "" + Kept(s) == Kept(s);
  }

  lemma {:induction false} KeptIff(s: string)
    ensures Kept(s) == s <==> CleanKey(s)
    decreases |s|
  {
    if s != "" {
      KeptIff(s[1..]);
      if Plain(s[0]) {
        assert Kept(s)[1..] == Kept(s[1..]);
      }
    }
  }

  // ----- two unescapings: values -----

  /** A character the decoder leaves alone when it follows a backslash. */
  predicate Quiet(c: char) {
    Plain(c) && c != '"' && c != '\\' && c != 'u' && ControlOf(c).None?
  }

  /** Every backslash is the last character or stands before a quiet one. */
  predicate SafeValue(s: string) {
    forall i :: 0 <= i < |s| && s[i] == '\\' ==> i + 1 == |s| || Quiet(s[i + 1])
  }

  /** The value that comes back. */
  function Reread(s: string): string { Decoded(Kept(s)) }

  function Backslashes(s: string): nat {
    if s == "" then 0 else (if s[0] == '\\' then 1 else 0) + Backslashes(s[1..])
  }

  lemma {:induction false} BackslashesAdd(s: string, t: string)
    ensures Backslashes(s + t) == Backslashes(s) + Backslashes(t)
    decreases |s|
  {
    if s == "" {
      assert s + t == t;
    } else {
      assert (s + t)[1..] == s[1..] + t;
      BackslashesAdd(s[1..], t);
    }
  }

  /** Decoding text that begins no escape. */
  lemma {:induction false} DecodePlain(text: string, tail: string)
    requires '\\' !in text
    ensures Decoded(text + tail) == text + Decoded(tail)
    decreases |text|
  {
    if text == "" {
      assert text + tail == tail && text + Decoded(tail) == Decoded(tail);
    } else {
      assert (text + tail)[1..] == text[1..] + tail;
      DecodePlain(text[1..], tail);
      assert text + Decoded(tail) == [text[0]] + (text[1..] + Decoded(tail));
    }
  }

  lemma HexByteOfEscape(c: char, tail: string)
    requires IsByte(c)
    ensures HexByte(UnicodeEscape(c)[2..] + tail) == Some(c)
  {
    hide HexDigit, HexValue;
    var n := c as int;
    var s := UnicodeEscape(c)[2..] + tail;
    assert s[0] == '0' && s[1] == '0' && s[2] == HexDigit(n / 16) && s[3] == HexDigit(n % 16);
    HexOf(0);
    HexOf(n / 16);
    HexOf(n % 16);
  }

  lemma HexOf(n: int)
    requires 0 <= n < 16
    ensures IsHex(HexDigit(n)) && HexValue(HexDigit(n)) == n && HexDigit(0) == '0'
  {
  }

  /** The decoder undoes the `u` escape of any byte. */
  lemma DecodeUnicode(c: char, tail: string)
    requires IsByte(c)
    ensures Decoded(UnicodeEscape(c) + tail) == [c] + Decoded(tail)
  {
    var s := UnicodeEscape(c) + tail;
    HexByteOfEscape(c, tail);
    assert s[2..] == UnicodeEscape(c)[2..] + tail;
    assert DecodedHead(s) == ([c], 6);
    assert s[6..] == tail;
  }

  /** The decoder's step on a kept string, told on the string itself: what is written for the first
      characters, and how many there are. */
  function RereadHead(s: string): (r: (string, nat))
    requires s != ""
    ensures 1 <= r.1 <= |s|
  {
    if s[0] != '\\' then ([s[0]], 1)
    else if |s| == 1 then ("\\", 1)
    else if s[1] == '"' || s[1] == '\\' then ([s[1]], 2)
    else if ControlOf(s[1]).Some? then ([ControlOf(s[1]).value], 2)
    else if s[1] == 'u' then
      match HexByte(s[2..])
      case Some(c) => (ByteText(c), 6)
      case None => ("", 1)
    else if Plain(s[1]) then ("\\", 1)
    else (UnicodeEscape(s[1]), 2)
  }

  lemma KeptNext(s: string, k: nat)
    requires k < |s| && Plain(s[k])
    ensures Kept(s[k..]) == [s[k]] + Kept(s[k + 1..])
  {
    hide Plain, UnicodeEscape;
    assert s[k..][1..] == s[k + 1..];
  }

  lemma {:induction false} KeptPlain(s: string, k: nat)
    requires k <= |s| && CleanKey(s[..k])
    ensures Kept(s) == s[..k] + Kept(s[k..])
    decreases k
  {
    hide Kept, Plain;
    if k == 0 {
      assert s[0..] == s;
      assert s[..0] + Kept(s) == Kept(s);
    } else {
      assert s[..k][..k - 1] == s[..k - 1] && s[..k][k - 1] == s[k - 1];
      KeptPlain(s, k - 1);
      KeptNext(s, k - 1);
      assert s[..k - 1] + ([s[k - 1]] + Kept(s[k..])) == s[..k] + Kept(s[k..]);
    }
  }

  /** How many of the first four characters are hexadecimal digits, up to the first that is not. */
  function HexRun(s: string, k: nat): (n: nat)
    requires k <= 4 && k <= |s| && forall i :: 0 <= i < k ==> IsHex(s[i])
    ensures n <= 4 && n <= |s| && forall i :: 0 <= i < n ==> IsHex(s[i])
    ensures n == 4 || n == |s| || !IsHex(s[n])
    decreases 4 - k
  {
    if k < 4 && k < |s| && IsHex(s[k]) then HexRun(s, k + 1) else k
  }

  lemma KeptFirst(s: string)
    requires s != ""
    ensures IsHex(Kept(s)[0]) <==> IsHex(s[0])
  {
  }

  lemma HexIsKept(s: string)
    ensures HexByte(Kept(s)) == HexByte(s)
    ensures HexByte(s).Some? ==> |Kept(s)| >= 4 && Kept(s)[4..] == Kept(s[4..])
  {
    hide HexRun, Kept, HexByte;
    var n := HexRun(s, 0);
    HexIsClean(s[..n]);
    KeptPlain(s, n);
    if HexByte(s).Some? {
      FourHex(s);
    }
    if n < |s| {
      KeptFirst(s[n..]);
      SameHex(s[..n], s[n..], Kept(s[n..]));
      assert s == s[..n] + s[n..];
    } else {
      assert s[n..] == "" && s[..n] == s;
      KeptNothing();
      assert s + "" == s;
    }
  }

  lemma KeptNothing()
    ensures Kept("") == ""
  {
  }

  lemma HexIsClean(s: string)
    requires forall i :: 0 <= i < |s| ==> IsHex(s[i])
    ensures CleanKey(s)
  {
  }

  lemma FourHex(s: string)
    requires HexByte(s).Some?
    ensures HexRun(s, 0) == 4
  {
  }

  lemma SameHex(a: string, b: string, c: string)
    requires b != "" && c != "" && |a| <= 4
    requires |a| == 4 || (!IsHex(b[0]) && !IsHex(c[0]))
    ensures HexByte(a + b) == HexByte(a + c)
  {
    if |a| < 4 {
      assert (a + b)[|a|] == b[0] && (a + c)[|a|] == c[0];
    }
  }

  lemma RereadStep(s: string)
    requires s != "" && Bytes(s)
    ensures Reread(s) == RereadHead(s).0 + Reread(s[RereadHead(s).1..])
  {
    var k := Kept(s);
    if s[0] != '\\' {
      if Plain(s[0]) {
        assert k[1..] == Kept(s[1..]);
      } else {
        DecodeUnicode(s[0], Kept(s[1..]));
      }
    } else if |s| == 1 {
      assert k == "\\" && Decoded("") == "";
    } else {
      RereadEscape(s);
    }
  }

  lemma RereadEscape(s: string)
    requires |s| >= 2 && Bytes(s) && s[0] == '\\'
    ensures Reread(s) == RereadHead(s).0 + Reread(s[RereadHead(s).1..])
  {
    assert Kept(s)[1..] == Kept(s[1..]);
    if !Plain(s[1]) {
      RereadByte(s);
    } else {
      KeptPlain(s, 2);
      assert Kept(s)[1] == s[1] && Kept(s)[2..] == Kept(s[2..]);
      if s[1] == 'u' {
        RereadUnicode(s);
      }
    }
  }

  lemma RereadByte(s: string)
    requires |s| >= 2 && Bytes(s) && s[0] == '\\' && !Plain(s[1])
    ensures Reread(s) == UnicodeEscape(s[1]) + Reread(s[2..])
  {
    var esc, k := UnicodeEscape(s[1]), Kept(s[2..]);
    KeptByte(s);
    EscapeTail(s[1]);
    hide Kept, UnicodeEscape, DecodedHead;
    assert (['\\'] + (esc + k))[2..] == esc[1..] + k;
    TwoBackslashes(Kept(s));
    DecodePlain(esc[1..], k);
    assert ['\\'] + (esc[1..] + Decoded(k)) == esc + Decoded(k);
  }

  lemma KeptByte(s: string)
    requires |s| >= 2 && s[0] == '\\' && !Plain(s[1])
    ensures Kept(s) == ['\\'] + (UnicodeEscape(s[1]) + Kept(s[2..]))
  {
    hide UnicodeEscape;
    assert s[1..][1..] == s[2..];
  }

  lemma EscapeTail(c: char)
    ensures UnicodeEscape(c) != "" && UnicodeEscape(c)[0] == '\\' && '\\' !in UnicodeEscape(c)[1..]
  {
  }

  lemma TwoBackslashes(t: string)
    requires |t| >= 2 && t[0] == t[1] == '\\'
    ensures Decoded(t) == ['\\'] + Decoded(t[2..])
  {
  }

  lemma RereadUnicode(s: string)
    requires |s| >= 2 && Bytes(s) && s[0] == '\\' && s[1] == 'u'
    requires Kept(s)[0] == '\\' && Kept(s)[1] == 'u'
    requires Kept(s)[1..] == Kept(s[1..]) && Kept(s)[2..] == Kept(s[2..])
    ensures Reread(s) == RereadHead(s).0 + Reread(s[RereadHead(s).1..])
  {
    hide Kept, HexByte;
    HexIsKept(s[2..]);
    if HexByte(s[2..]).Some? {
      assert Kept(s)[2..][4..] == Kept(s)[6..];
      assert s[2..][4..] == s[6..];
    }
  }

  /** Reading back never adds a backslash. */
  lemma {:induction false} BackslashesDoNotGrow(s: string)
    requires Bytes(s)
    ensures Backslashes(Reread(s)) <= Backslashes(s)
    decreases |s|
  {
    if s != "" {
      var (out, n) := RereadHead(s);
      RereadStep(s);
      BackslashesDoNotGrow(s[n..]);
      BackslashesAdd(out, Reread(s[n..]));
      HeadBackslashes(s);
      assert s == s[..n] + s[n..];
      BackslashesAdd(s[..n], s[n..]);
    }
  }

  lemma HeadBackslashes(s: string)
    requires s != ""
    ensures Backslashes(RereadHead(s).0) <= Backslashes(s[..RereadHead(s).1])
    ensures s[0] == '\\' && (RereadHead(s).0 == "" || RereadHead(s).0[0] != '\\')
        ==> Backslashes(RereadHead(s).0) < Backslashes(s[..RereadHead(s).1])
  {
    var (out, n) := RereadHead(s);
    assert s[..n][0] == s[0];
    if s[0] == '\\' && |s| >= 2 && !Plain(s[1]) {
      OneBackslash(s[1]);
    } else if out != "" {
      assert out[1..] == "";
    }
  }

  lemma OneBackslash(c: char)
    ensures Backslashes(UnicodeEscape(c)) == 1
  {
    var e := UnicodeEscape(c);
    NoBackslash(e[1..]);
  }

  lemma {:induction false} NoBackslash(s: string)
    requires '\\' !in s
    ensures Backslashes(s) == 0
    decreases |s|
  {
    if s != "" {
      NoBackslash(s[1..]);
    }
  }

  /** Reading back cannot put text without a backslash in front of the string. */
  lemma {:induction false} NoNewFront(front: string, s: string)
    requires front != "" && '\\' !in front && Bytes(s)
    ensures Reread(s) != front + s
    decreases |s|
  {
    if s != "" {
      var (out, n) := RereadHead(s);
      RereadStep(s);
      if s[0] != '\\' {
        if Reread(s) == front + s {
          assert Reread(s)[0] == s[0] && Reread(s)[1..] == Reread(s[1..]);
          assert (front + s)[1..] == front[1..] + [s[0]] + s[1..];
          NoNewFront(front[1..] + [s[0]], s[1..]);
        }
      } else if out == "" || out[0] != '\\' {
        FewerBackslashes(s);
        NoBackslash(front);
        BackslashesAdd(front, s);
      } else {
        assert Reread(s)[0] == '\\' && (front + s)[0] == front[0];
      }
    }
  }

  lemma FewerBackslashes(s: string)
    requires s != "" && Bytes(s) && s[0] == '\\'
    requires RereadHead(s).0 == "" || RereadHead(s).0[0] != '\\'
    ensures Backslashes(Reread(s)) < Backslashes(s)
  {
    hide RereadHead, Reread;
    var (out, n) := RereadHead(s);
    RereadStep(s);
    HeadBackslashes(s);
    assert s == s[..n] + s[n..];
    BackslashesAdd(s[..n], s[n..]);
    BackslashesAdd(out, Reread(s[n..]));
    BackslashesDoNotGrow(s[n..]);
  }

  /** A value survives printing and reading if and only if every backslash in it is the last
      character or stands before a character that begins no escape. */
  lemma {:induction false} ValueRoundTrip(s: string)
    requires Bytes(s)
    ensures Reread(s) == s <==> SafeValue(s)
    decreases |s|
  {
    if s != "" {
      RereadStep(s);
      if s[0] != '\\' || |s| == 1 || Quiet(s[1]) {
        ValueRoundTrip(s[1..]);
        assert RereadHead(s) == ([s[0]], 1);
        assert Reread(s)[1..] == Reread(s[1..]);
        SafeTail(s);
      } else {
        assert !SafeValue(s);
        BadEscape(s);
      }
    }
  }

  lemma SafeTail(s: string)
    requires s != ""
    requires s[0] != '\\' || |s| == 1 || Quiet(s[1])
    ensures SafeValue(s) <==> SafeValue(s[1..])
  {
    if SafeValue(s[1..]) {
      forall i | 0 <= i < |s| && s[i] == '\\' ensures i + 1 == |s| || Quiet(s[i + 1]) {
        if i > 0 {
          assert s[1..][i - 1] == '\\';
        }
      }
    }
  }

  lemma BadEscape(s: string)
    requires Bytes(s) && |s| >= 2 && s[0] == '\\' && !Quiet(s[1])
    ensures Reread(s) != s
  {
    hide Reread, HexByte, Backslashes;
    RereadStep(s);
    var (out, n) := RereadHead(s);
    var back := Reread(s[n..]);
    if out == "" || out[0] != '\\' {
      FewerBackslashes(s);
    } else if s[1] == '\\' {
      BackslashesDoNotGrow(s[2..]);
      OneMore(s[1..]);
      assert s[1..][1..] == s[2..];
      assert Reread(s)[1..] == back;
    } else if s[1] == 'u' {
      assert out == ['\\'] && n == 6;
      HexHasNoBackslash(s[2..]);
      assert s[1..] == s[1..6] + s[6..];
      NoNewFront(s[1..6], s[6..]);
      assert Reread(s)[1..] == back;
    } else {
      assert Reread(s)[1] == 'u';
    }
  }

  lemma OneMore(s: string)
    requires s != "" && s[0] == '\\'
    ensures Backslashes(s) == 1 + Backslashes(s[1..])
  {
  }

  lemma HexHasNoBackslash(s: string)
    requires HexByte(s).Some?
    ensures '\\' !in s[..4]
  {
  }

  /** The family that fails begins with the pair of characters backslash and n, which comes back as
      a line feed. */
  lemma BackslashNIsLost()
    ensures Reread("\\n") == "\n" && !SafeValue("\\n")
  {
    var s := "\\n";
    RereadStep(s);
    assert s[2..] == "";
    assert s[0] == '\\' && !Quiet(s[1]);
  }
}
