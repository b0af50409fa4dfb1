/** The printer's text, its length, and the parser's reading of it. */
module InetPrint {
  import opened InetSpec
  import opened InetParse

  // ----- numbers -----

  function DigitChar(d: int): char
    requires 0 <= d < 16
  {
    if d < 10 then ('0' as int + d) as char else ('a' as int + d - 10) as char
  }

  /** %x */
  function HexText(n: int): (r: string)
    requires 0 <= n
    ensures r != ""
  {
    if n < 16 then [DigitChar(n)] else HexText(n / 16) + [DigitChar(n % 16)]
  }

  /** %u */
  function DecText(n: int): (r: string)
    requires 0 <= n
    ensures r != ""
  {
    if n < 10 then [DigitChar(n)] else DecText(n / 10) + [DigitChar(n % 10)]
  }

  predicate AllHex(g: string) { forall i :: 0 <= i < |g| ==> HexDigit(g[i]).Some? }

  predicate AllDec(g: string) { forall i :: 0 <= i < |g| ==> DecDigit(g[i]).Some? }

  lemma {:induction false} HexFromLast(v: int, g: string, c: char)
    requires AllHex(g) && HexDigit(c).Some?
    ensures AllHex(g + [c]) && HexFrom(v, g + [c]) == HexFrom(v, g) * 16 + HexDigit(c).value
    decreases |g|
  {
    if g == "" {
      assert g + [c] == [c] && [c][1..] == "";
    } else {
      assert (g + [c])[1..] == g[1..] + [c];
      HexFromLast(v * 16 + HexDigit(g[0]).value, g[1..], c);
    }
  }

  lemma {:induction false} DecFromLast(v: int, g: string, c: char)
    requires AllDec(g) && DecDigit(c).Some?
    ensures AllDec(g + [c]) && DecFrom(v, g + [c]) == DecFrom(v, g) * 10 + DecDigit(c).value
    decreases |g|
  {
    if g == "" {
      assert g + [c] == [c] && [c][1..] == "";
    } else {
      assert (g + [c])[1..] == g[1..] + [c];
      DecFromLast(v * 10 + DecDigit(g[0]).value, g[1..], c);
    }
  }

  lemma {:induction false} HexTextValue(n: int)
    requires 0 <= n
    ensures AllHex(HexText(n)) && HexFrom(0, HexText(n)) == n
    decreases n
  {
    if n < 16 {
      assert [DigitChar(n)][1..] == "";
    } else {
      HexTextValue(n / 16);
      HexFromLast(0, HexText(n / 16), DigitChar(n % 16));
    }
  }

  /** The hexadecimal text is the shortest there is, in lower case. */
  lemma {:induction false} HexTextShortest(n: int)
    requires 0 <= n
    ensures forall i :: 0 <= i < |HexText(n)| ==> HexText(n)[i] in "0123456789abcdef"
    ensures HexText(n)[0] == '0' ==> n == 0 && |HexText(n)| == 1
    decreases n
  {
    LowerDigit(n % 16);
    if n >= 16 {
      HexTextShortest(n / 16);
    }
  }

  lemma LowerDigit(d: int)
    requires 0 <= d < 16
    ensures DigitChar(d) == "0123456789abcdef"[d] && DigitChar(d) in "0123456789abcdef"
    ensures DigitChar(d) == '0' ==> d == 0
  {
  }

  lemma {:induction false} DecTextValue(n: int)
    requires 0 <= n
    ensures AllDec(DecText(n)) && DecFrom(0, DecText(n)) == n
    decreases n
  {
    if n < 10 {
      assert [DigitChar(n)][1..] == "";
    } else {
      DecTextValue(n / 10);
      DecFromLast(0, DecText(n / 10), DigitChar(n % 10));
    }
  }

  /** No numeral of the number is shorter, and no other is as short. */
  lemma {:induction false} DecTextLeast(n: int, g: string)
    requires 0 <= n && g != "" && AllDec(g) && DecFrom(0, g) == n
    ensures |DecText(n)| <= |g| && (|DecText(n)| == |g| ==> g == DecText(n))
    decreases |g|
  {
    var k := |g| - 1;
    var init, last := g[..k], g[k];
    assert g == init + [last];
    DecFromLast(0, init, last);
    DecNonNegative(0, init);
    assert last == DigitChar(n % 10) && DecFrom(0, init) == n / 10;
    if init != "" {
      DecTextLeast(n / 10, init);
      if n < 10 {
        assert n / 10 == 0 && |DecText(0)| == 1;
      }
    }
  }

  lemma {:induction false} DecNonNegative(v: int, g: string)
    requires 0 <= v && AllDec(g)
    ensures 0 <= DecFrom(v, g)
    decreases |g|
  {
    if g != "" {
      DecNonNegative(v * 10 + DecDigit(g[0]).value, g[1..]);
    }
  }

  // ----- dotted quads -----

  predicate Octets(src: seq<int>) { |src| == 4 && forall i :: 0 <= i < 4 ==> IsByte(src[i]) }

  function QuadText(src: seq<int>): Dotted
    requires Octets(src)
  {
    Dotted(DecText(src[0]), DecText(src[1]), DecText(src[2]), DecText(src[3]))
  }

  /** The quad is read back as its octets, and it fits sixteen bytes with its terminator. */
  lemma QuadTextReads(src: seq<int>)
    requires Octets(src)
    ensures QuadText(src).Valid() && QuadText(src).Bytes() == src && Pton4(QuadText(src).Text()) == Some(src)
    ensures |QuadText(src).Text()| <= 15
  {
    hide DecText, DecFrom, Pton4;
    forall i | 0 <= i < 4
      ensures AllDec(DecText(src[i])) && DecFrom(0, DecText(src[i])) == src[i] && |DecText(src[i])| <= 3
    {
      DecTextValue(src[i]);
      ByteLength(src[i]);
    }
    QuadReads(QuadText(src));
  }

  /** No text of the same octets is shorter, and no other is as short. */
  lemma QuadTextLeast(src: seq<int>, d: Dotted)
    requires Octets(src) && d.Valid() && d.Bytes() == src
    ensures |QuadText(src).Text()| <= |d.Text()|
    ensures |QuadText(src).Text()| == |d.Text()| ==> d == QuadText(src)
  {
    hide DecText, DecFrom;
    DecTextLeast(src[0], d.a);
    DecTextLeast(src[1], d.b);
    DecTextLeast(src[2], d.c);
    DecTextLeast(src[3], d.d);
  }

  /** Each further digit multiplies what can be written by sixteen, or by ten. */
  lemma {:induction false} HexTextLength(n: int, limit: int, k: nat)
    requires 0 <= n < limit && k >= 1 && limit == Power(16, k)
    ensures |HexText(n)| <= k
    decreases k
  {
    if n >= 16 {
      assert k > 1;
      HexTextLength(n / 16, Power(16, k - 1), k - 1);
    }
  }

  lemma {:induction false} DecTextLength(n: int, limit: int, k: nat)
    requires 0 <= n < limit && k >= 1 && limit == Power(10, k)
    ensures |DecText(n)| <= k
    decreases k
  {
    if n >= 10 {
      assert k > 1;
      DecTextLength(n / 10, Power(10, k - 1), k - 1);
    }
  }

  function Power(b: nat, k: nat): nat { if k == 0 then 1 else b * Power(b, k - 1) }

  lemma WordLength(n: int)
    requires IsWord(n)
    ensures |HexText(n)| <= 4
  {
    hide HexText;
    assert Power(16, 1) == 16 && Power(16, 2) == 256 && Power(16, 3) == 4096;
    HexTextLength(n, 65536, 4);
  }

  lemma ByteLength(n: int)
    requires IsByte(n)
    ensures |DecText(n)| <= 3
  {
    hide DecText;
    assert Power(10, 1) == 10 && Power(10, 2) == 100;
    DecTextLength(n, 1000, 3);
  }

  // ----- the text -----

  /** The run of zero words that the double colon stands for. */
  datatype Run = NoRun | Run(base: nat, len: nat)

  predicate Words(w: seq<int>) { forall i :: 0 <= i < |w| ==> IsWord(w[i]) }

  ghost predicate ZeroRun(w: seq<int>, i: int, m: int) {
    0 <= i && 0 <= m && i + m <= |w| && forall k :: i <= k < i + m ==> w[k] == 0
  }

  /** The leftmost of the longest runs of two or more zero words, if there is any (section 4.2 of
      RFC 5952). */
  ghost predicate Best(w: seq<int>, run: Run) {
    match run
    case NoRun => forall i, m :: ZeroRun(w, i, m) ==> m < 2
    case Run(b, n) =>
      n >= 2 && ZeroRun(w, b, n) && forall i, m :: ZeroRun(w, i, m) ==> m < n || (m == n && i >= b)
  }

  lemma BestIsUnique(w: seq<int>, r: Run, s: Run)
    requires Best(w, r) && Best(w, s)
    ensures r == s
  {
    if r.Run? {
      assert ZeroRun(w, r.base, r.len);
    }
    if s.Run? {
      assert ZeroRun(w, s.base, s.len);
    }
  }

  function HexTexts(w: seq<int>): (r: seq<string>)
    requires Words(w)
    ensures |r| == |w|
  {
    if w == [] then [] else [HexText(w[0])] + HexTexts(w[1..])
  }

  /** The address embeds an IPv4 address that is printed as such. */
  predicate Embeds4(w: seq<int>, run: Run)
    requires |w| == WORDS
  {
    run.Run? && run.base == 0 && (run.len == 6 || (run.len == 5 && w[5] == 0xffff))
  }

  function QuadOf(w: seq<int>): Dotted
    requires |w| == WORDS && Words(w)
  {
    QuadText([w[6] / 256, w[6] % 256, w[7] / 256, w[7] % 256])
  }

  /** What follows the double colon. */
  function TailOf(w: seq<int>, run: Run): Tail
    requires |w| == WORDS && Words(w) && run.Run? && run.base + run.len <= WORDS
  {
    if Embeds4(w, run) then Tail(HexTexts(w[run.len..6]), Some(QuadOf(w)))
    else Tail(HexTexts(w[run.base + run.len..]), None)
  }

  function Render(w: seq<int>, run: Run): string
    requires |w| == WORDS && Words(w) && (run.Run? ==> run.base + run.len <= WORDS)
  {
    match run
    case NoRun => Joined(HexTexts(w))
    case Run(b, n) => Joined(HexTexts(w[..b])) + "::" + TailOf(w, run).Text()
  }

  // ----- the round trip -----

  lemma {:induction false} HexTextsRead(w: seq<int>)
    requires Words(w)
    ensures Groups(HexTexts(w)) && ValuesOf(HexTexts(w)) == w
    decreases |w|
  {
    if w != [] {
      HexTextValue(w[0]);
      HexTextsRead(w[1..]);
      assert HexTexts(w)[1..] == HexTexts(w[1..]);
      assert Groups(HexTexts(w)) by {
        forall i | 0 <= i < |w| ensures IsGroup(HexTexts(w)[i]) {
          if i > 0 {
            assert HexTexts(w)[i] == HexTexts(w[1..])[i - 1];
          }
        }
      }
      assert [w[0]] + w[1..] == w;
    }
  }

  lemma QuadOfReads(w: seq<int>)
    requires |w| == WORDS && Words(w)
    ensures QuadOf(w).Valid() && QuadOf(w).Bytes() == BytesOf(w[6..])
  {
    hide QuadText;
    QuadTextReads([w[6] / 256, w[6] % 256, w[7] / 256, w[7] % 256]);
    assert w[6..][1..] == w[7..] && w[7..][1..] == [];
    assert BytesOf(w[7..]) == TwoBytes(w[7]) + [];
    assert BytesOf(w[6..]) == TwoBytes(w[6]) + BytesOf(w[7..]);
  }

  lemma {:induction false} BytesOfJoin(v: seq<int>, w: seq<int>)
    ensures BytesOf(v + w) == BytesOf(v) + BytesOf(w)
    decreases |v|
  {
    if v == [] {
      assert v + w == w;
    } else {
      assert (v + w)[1..] == v[1..] + w;
      BytesOfJoin(v[1..], w);
    }
  }

  lemma {:induction false} BytesOfZeros(w: seq<int>)
    requires forall k :: 0 <= k < |w| ==> w[k] == 0
    ensures BytesOf(w) == Zeros(2 * |w|)
    decreases |w|
  {
    if w != [] {
      BytesOfZeros(w[1..]);
    }
  }

  lemma TailOfReads(w: seq<int>, run: Run)
    requires |w| == WORDS && Words(w) && run.Run? && run.base + run.len <= WORDS
    ensures TailOf(w, run).Valid() && TailOf(w, run).Bytes() == BytesOf(w[run.base + run.len..])
    ensures TailOf(w, run).Size() == 2 * (WORDS - run.base - run.len)
  {
    hide BytesOf, HexTexts, QuadOf, IsGroup, IsOctet;
    if Embeds4(w, run) {
      HexTextsRead(w[run.len..6]);
      QuadOfReads(w);
      assert w[run.len..6] + w[6..] == w[run.base + run.len..];
      BytesOfJoin(w[run.len..6], w[6..]);
    } else {
      HexTextsRead(w[run.base + run.len..]);
      assert BytesOf(w[run.base + run.len..]) + [] == BytesOf(w[run.base + run.len..]);
    }
  }

  /** The parser undoes the printer, whatever run of zero words was left out. */
  lemma RoundTrip(w: seq<int>, run: Run)
    requires |w| == WORDS && Words(w)
    requires run.Run? ==> run.len >= 1 && ZeroRun(w, run.base, run.len)
    ensures Pton6(Render(w, run)) == Some(BytesOf(w))
  {
    hide Pton6, BytesOf, HexTexts, IsGroup, IsOctet, TailOf;
    match run
    case NoRun =>
      HexTextsRead(w);
      FullForm(Tail(HexTexts(w), None));
      assert BytesOf(w) + [] == BytesOf(w);
    case Run(b, n) =>
      HexTextsRead(w[..b]);
      TailOfReads(w, run);
      GapForm(HexTexts(w[..b]), TailOf(w, run));
      GapBytes(w, b, n);
  }

  lemma GapBytes(w: seq<int>, b: nat, n: nat)
    requires ZeroRun(w, b, n)
    ensures BytesOf(w) == BytesOf(w[..b]) + Zeros(2 * n) + BytesOf(w[b + n..])
  {
    hide BytesOf;
    var zeros, rest := w[b..b + n], w[b + n..];
    BytesOfZeros(zeros);
    BytesOfJoin(w[..b], zeros);
    BytesOfJoin(w[..b] + zeros, rest);
    assert w == w[..b] + zeros + rest;
  }

  // ----- the length -----

  lemma {:induction false} JoinedLength(w: seq<int>)
    requires Words(w)
    ensures |Joined(HexTexts(w))| <= if w == [] then 0 else 5 * |w| - 1
    decreases |w|
  {
    if w != [] {
      WordLength(w[0]);
      JoinedLength(w[1..]);
      assert HexTexts(w)[1..] == HexTexts(w[1..]);
    }
  }

  const TEXT_SIZE := |"ffff:ffff:ffff:ffff:ffff:ffff:255.255.255.255"| + 1

  /** The text and its terminator fit the printer's buffer. */
  lemma RenderFits(w: seq<int>, run: Run)
    requires |w| == WORDS && Words(w)
    requires run.Run? ==> run.len >= 1 && run.base + run.len <= WORDS
    ensures |Render(w, run)| + 1 <= TEXT_SIZE == 46
  {
    hide Joined, HexTexts, QuadText, Dotted.Text;
    match run
    case NoRun => JoinedLength(w);
    case Run(b, n) =>
      JoinedLength(w[..b]);
      if Embeds4(w, run) {
        JoinedLength(w[n..6]);
        QuadTextReads([w[6] / 256, w[6] % 256, w[7] / 256, w[7] % 256]);
      } else {
        JoinedLength(w[b + n..]);
      }
  }

  // ----- when the end is written as four octets -----

  lemma {:induction false} NoDotInHex(n: nat)
    ensures '.' !in HexText(n)
    decreases n
  {
    if n >= 16 {
      NoDotInHex(n / 16);
    }
  }

  lemma {:induction false} NoDot(w: seq<int>)
    requires Words(w)
    ensures '.' !in Joined(HexTexts(w))
    decreases |w|
  {
    hide HexText;
    if w != [] {
      NoDotInHex(w[0]);
      NoDot(w[1..]);
      assert HexTexts(w)[1..] == HexTexts(w[1..]);
    }
  }

  lemma DotIff(w: seq<int>, run: Run)
    requires |w| == WORDS && Words(w) && (run.Run? ==> run.base + run.len <= WORDS)
    ensures '.' in Render(w, run) <==> run.Run? && Embeds4(w, run)
  {
    hide Joined, HexTexts, QuadText;
    match run
    case NoRun => NoDot(w);
    case Run(b, n) =>
      NoDot(w[..b]);
      if Embeds4(w, run) {
        var q := QuadOf(w);
        assert q.Text()[|q.a|] == '.' && '.' in q.Text();
      } else {
        NoDot(w[b + n..]);
      }
  }

  /** The last two words are written as four octets if and only if the first five are zero and the sixth is zero
      with a seventh that is not, or all ones. */
  lemma EmbeddedIff(w: seq<int>, run: Run)
    requires |w| == WORDS && Words(w) && Best(w, run)
    ensures run.Run? ==> run.base + run.len <= WORDS
    ensures '.' in Render(w, run)
       <==> (forall i :: 0 <= i < 5 ==> w[i] == 0) && ((w[5] == 0 && w[6] != 0) || w[5] == 0xffff)
  {
    hide Render, Words;
    if run.Run? {
      assert ZeroRun(w, run.base, run.len);
    }
    DotIff(w, run);
    if forall i :: 0 <= i < 5 ==> w[i] == 0 {
      assert ZeroRun(w, 0, 5);
      assert w[5] == 0 ==> ZeroRun(w, 0, 6);
      assert w[5] == w[6] == 0 ==> ZeroRun(w, 0, 7);
    }
  }
}
