/** inet_pton and inet_ntop for IPv6, as they run. */
module Inet {
  import opened InetSpec
  import opened InetParse
  import opened InetPrint

  // ----- inet_pton.c -----

  method InetPton4(src: string) returns (r: Option<seq<int>>)
    ensures r == Pton4(src)
  {
    var rest, saw, octets, tp := src, false, 0, 0;
    var tmp := new int[4](_ => 0);
    while rest != ""
      invariant 0 <= tp < 4 && octets == tp + (if saw then 1 else 0)
      invariant Quad(rest, tmp[..tp], tmp[tp], saw) == Quad(src, [], 0, false)
      decreases |rest|
    {
      var d := DecDigit(rest[0]);
      if d.Some? {
        var new_ := tmp[tp] * 10 + d.value;
        if new_ > 255 {
          return None;
        }
        tmp[tp] := new_;
        if !saw {
          octets := octets + 1;
          if octets > 4 {
            return None;
          }
          saw := true;
        }
      } else if rest[0] == '.' && saw {
        if octets == 4 {
          return None;
        }
        tp := tp + 1;
        tmp[tp] := 0;
        saw := false;
        assert tmp[..tp] == tmp[..tp - 1] + [tmp[tp - 1]];
      } else {
        return None;
      }
      rest := rest[1..];
    }
    if octets < 4 {
      return None;
    }
    assert tmp[..] == tmp[..3] + [tmp[3]];
    return Some(tmp[..]);
  }

  /** A byte of the buffer after `done` rounds of the shift. */
  ghost function ShiftByte(was: seq<int>, tp: nat, done: nat, k: nat): int
    requires |was| == ADDRESS_SIZE && tp <= ADDRESS_SIZE && k < ADDRESS_SIZE && done <= tp
  {
    if tp < ADDRESS_SIZE && k >= ADDRESS_SIZE - done then was[k - (ADDRESS_SIZE - tp)]
    else if k >= tp - done then 0
    else was[k]
  }

  /** The shift by hand at the end of inet_pton6. */
  method ShiftUp(tmp: array<int>, tp: nat, colonp: nat)
    requires tmp.Length == ADDRESS_SIZE && colonp <= tp <= ADDRESS_SIZE
    requires forall k :: tp <= k < ADDRESS_SIZE ==> tmp[k] == 0
    modifies tmp
    ensures tmp[..] == Shifted(old(tmp[..tp]), colonp)
  {
    var n := tp - colonp;
    ghost var was := tmp[..];
    for i := 1 to n + 1
      invariant forall k :: 0 <= k < ADDRESS_SIZE ==> tmp[k] == ShiftByte(was, tp, i - 1, k)
    {
      tmp[ADDRESS_SIZE - i] := tmp[colonp + n - i];
      tmp[colonp + n - i] := 0;
    }
    ShiftedBytes(was, tp, colonp);
    assert forall k :: 0 <= k < ADDRESS_SIZE ==> tmp[..][k] == tmp[k];
  }

  lemma ShiftedBytes(was: seq<int>, tp: nat, colonp: nat)
    requires |was| == ADDRESS_SIZE && colonp <= tp <= ADDRESS_SIZE
    ensures forall k :: 0 <= k < ADDRESS_SIZE ==>
      ShiftByte(was, tp, tp - colonp, k) == Shifted(was[..tp], colonp)[k]
  {
  }

  method InetPton6(text: string) returns (r: Option<seq<int>>)
    ensures r == Pton6(text)
  {
    hide Quad;
    var src := text;
    if src != "" && src[0] == ':' {
      src := src[1..];
      if src == "" || src[0] != ':' {
        return None;
      }
    }
    var tmp := new int[ADDRESS_SIZE](_ => 0);
    var tp, colonp, st := ScanGroups(tmp, src);
    if !st {
      return None;
    }
    if colonp.Some? {
      ShiftUp(tmp, tp, colonp.value);
      tp := ADDRESS_SIZE;
    } else if tp == ADDRESS_SIZE {
      assert tmp[..] == tmp[..tp];
    }
    if tp != ADDRESS_SIZE {
      return None;
    }
    return Some(tmp[..]);
  }

  /** Storing a group: two bytes, if there is room for them. */
  method PutWord(tmp: array<int>, tp: nat, val: int) returns (tp': nat)
    requires tmp.Length == ADDRESS_SIZE && tp + 2 <= ADDRESS_SIZE
    modifies tmp
    ensures tp' == tp + 2 && tmp[..tp'] == old(tmp[..tp]) + TwoBytes(val)
    ensures forall k :: tp' <= k < ADDRESS_SIZE ==> tmp[k] == old(tmp[k])
  {
    tmp[tp] := val / 256 % 256;
    tmp[tp + 1] := val % 256;
    tp' := tp + 2;
  }

  method PutQuad(tmp: array<int>, tp: nat, quad: seq<int>) returns (tp': nat)
    requires tmp.Length == ADDRESS_SIZE && tp + 4 <= ADDRESS_SIZE && |quad| == 4
    modifies tmp
    ensures tp' == tp + 4 && tmp[..tp'] == old(tmp[..tp]) + quad
    ensures forall k :: tp' <= k < ADDRESS_SIZE ==> tmp[k] == old(tmp[k])
  {
    tmp[tp], tmp[tp + 1], tmp[tp + 2], tmp[tp + 3] := quad[0], quad[1], quad[2], quad[3];
    tp' := tp + 4;
  }

  lemma {:induction false} QuadSize(src: string, done: seq<int>, cur: int, saw: bool)
    requires |done| <= 3
    ensures Quad(src, done, cur, saw).Some? ==> |Quad(src, done, cur, saw).value| == 4
    decreases |src|
  {
    if src != "" {
      if DecDigit(src[0]).Some? {
        QuadSize(src[1..], done, cur * 10 + DecDigit(src[0]).value, true);
      } else if |done| < 3 {
        QuadSize(src[1..], done + [cur], 0, false);
      }
    }
  }

  /** The main loop: the bytes go to `tmp`. */
  method ScanGroups(tmp: array<int>, text: string) returns (tp: nat, colonp: Option<nat>, ok: bool)
    requires tmp.Length == ADDRESS_SIZE && forall k :: 0 <= k < ADDRESS_SIZE ==> tmp[k] == 0
    modifies tmp
    ensures ok <==> Run6(text, Scan([], None, false, 0, text)).Some?
    ensures ok ==> tp <= ADDRESS_SIZE && (colonp.Some? ==> colonp.value <= tp)
    ensures ok ==> Run6(text, Scan([], None, false, 0, text)) == Some((tmp[..tp], colonp))
    ensures ok ==> forall k :: tp <= k < ADDRESS_SIZE ==> tmp[k] == 0
  {
    hide Quad, TwoBytes;
    var src, curtok, saw, val := text, text, false, 0;
    tp, colonp, ok := 0, None, false;
    while src != ""
      invariant tp <= ADDRESS_SIZE && (colonp.Some? ==> colonp.value <= tp) && !ok
      invariant forall k :: tp <= k < ADDRESS_SIZE ==> tmp[k] == 0
      invariant Run6(src, Scan(tmp[..tp], colonp, saw, val, curtok)) == Run6(text, Scan([], None, false, 0, text))
      decreases |src|
    {
      var ch := src[0];
      ghost var here := src;
      src := src[1..];
      var d := HexDigit(ch);
      if d.Some? {
        val := val * 16 + d.value;
        if val > 0xffff {
          return;
        }
        saw := true;
      } else if ch == ':' {
        curtok := src;
        if !saw {
          if colonp.Some? {
            return;
          }
          colonp := Some(tp);
        } else {
          if tp + 2 > ADDRESS_SIZE {
            return;
          }
          tp := PutWord(tmp, tp, val);
          saw, val := false, 0;
        }
      } else {
        if ch == '.' && tp + 4 <= ADDRESS_SIZE {
          var quad := InetPton4(curtok);
          if quad.Some? {
            QuadSize(curtok, [], 0, false);
            tp := PutQuad(tmp, tp, quad.value);
            ok := true;
          }
        }
        return;
      }
    }
    if saw {
      if tp + 2 > ADDRESS_SIZE {
        return;
      }
      tp := PutWord(tmp, tp, val);
    }
    ok := true;
  }

  // ----- inet_ntop.c -----

  /** The words of an address. */
  method WordsOf(src: seq<int>) returns (w: seq<int>)
    requires Address(src)
    ensures |w| == WORDS && Words(w) && BytesOf(w) == src
  {
    var words := new int[WORDS](_ => 0);
    for i := 0 to ADDRESS_SIZE
      invariant forall k :: 0 <= k < i / 2 ==> words[k] == WordAt(src, k)
      invariant i % 2 == 1 ==> words[i / 2] == src[i - 1] * 256
      invariant forall k :: (i + 1) / 2 <= k < WORDS ==> words[k] == 0
    {
      words[i / 2] := words[i / 2] + src[i] * (if i % 2 == 0 then 256 else 1);
    }
    w := words[..];
    BytesOfPairs(w, src);
  }

  function WordAt(src: seq<int>, k: nat): int
    requires 2 * k + 1 < |src|
  {
    src[2 * k] * 256 + src[2 * k + 1]
  }

  lemma {:induction false} BytesOfPairs(w: seq<int>, src: seq<int>)
    requires |src| == 2 * |w| && forall i :: 0 <= i < |src| ==> IsByte(src[i])
    requires forall k :: 0 <= k < |w| ==> w[k] == WordAt(src, k)
    ensures BytesOf(w) == src
    decreases |w|
  {
    if w != [] {
      var rest := src[2..];
      forall k | 0 <= k < |w| - 1 ensures w[1..][k] == WordAt(rest, k) {
        assert w[k + 1] == WordAt(src, k + 1) == WordAt(rest, k);
      }
      BytesOfPairs(w[1..], rest);
      assert w[0] == WordAt(src, 0);
      assert TwoBytes(w[0]) == [src[0], src[1]];
      assert src == [src[0], src[1]] + rest;
    }
  }

  /** Every run of zero words that ends by word `i` is part of the current run, or comes after the best
      one in the order of length and place. */
  ghost predicate Surveyed(w: seq<int>, i: nat, best: Run, cur: Run) {
    forall a, m :: m >= 1 && a + m <= i && ZeroRun(w, a, m) ==>
      || (cur.Run? && a >= cur.base)
      || (best.Run? && (m < best.len || (m == best.len && a >= best.base)))
  }

  ghost predicate Current(w: seq<int>, i: nat, cur: Run)
    requires i <= |w|
  {
    match cur
    case NoRun => i == 0 || w[i - 1] != 0
    case Run(b, n) => n >= 1 && b + n == i && ZeroRun(w, b, n) && (b == 0 || w[b - 1] != 0)
  }

  /** The better of the best run so far and one that has just ended: a later one only if longer. */
  function Better(best: Run, cur: Run): Run {
    if cur.Run? && (best.NoRun? || cur.len > best.len) then cur else best
  }

  ghost predicate SurveyState(w: seq<int>, i: nat, best: Run, cur: Run) {
    && i <= |w| && Surveyed(w, i, best, cur)
    && (i > 0 || cur.NoRun?) && (i == 0 || Current(w, i, cur))
    && (best.Run? ==> best.len >= 1 && ZeroRun(w, best.base, best.len)
                      && best.base + best.len <= if cur.Run? then cur.base else i)
  }

  lemma SurveyZero(w: seq<int>, i: nat, best: Run, cur: Run)
    requires i < |w| && SurveyState(w, i, best, cur) && w[i] == 0
    ensures SurveyState(w, i + 1, best, if cur.NoRun? then Run(i, 1) else Run(cur.base, cur.len + 1))
  {
    var cur' := if cur.NoRun? then Run(i, 1) else Run(cur.base, cur.len + 1);
    assert cur'.base == 0 || w[cur'.base - 1] != 0;
    forall a, m | m >= 1 && a + m <= i + 1 && ZeroRun(w, a, m)
      ensures (cur'.Run? && a >= cur'.base)
              || (best.Run? && (m < best.len || (m == best.len && a >= best.base)))
    {
    }
  }

  lemma SurveyOther(w: seq<int>, i: nat, best: Run, cur: Run)
    requires i < |w| && SurveyState(w, i, best, cur) && w[i] != 0
    ensures SurveyState(w, i + 1, Better(best, cur), NoRun)
  {
    var best' := Better(best, cur);
    forall a, m | m >= 1 && a + m <= i + 1 && ZeroRun(w, a, m)
      ensures best'.Run? && (m < best'.len || (m == best'.len && a >= best'.base))
    {
    }
  }

  lemma SurveyEnd(w: seq<int>, best: Run, cur: Run)
    requires SurveyState(w, |w|, best, cur)
    ensures var r := Better(best, cur); Best(w, if r.Run? && r.len >= 2 then r else NoRun)
  {
    var r := Better(best, cur);
    forall a, m | ZeroRun(w, a, m) && m >= 1 ensures r.Run? && (m < r.len || (m == r.len && a >= r.base)) {
    }
  }

  /** The search for the run to leave out. */
  method FindRun(w: seq<int>) returns (run: Run)
    ensures Best(w, run)
  {
    hide Surveyed, Current, Best;
    var best, cur := NoRun, NoRun;
    NothingSurveyed(w);
    for i := 0 to |w|
      invariant SurveyState(w, i, best, cur)
    {
      if w[i] == 0 {
        SurveyZero(w, i, best, cur);
        cur := if cur.NoRun? then Run(i, 1) else Run(cur.base, cur.len + 1);
      } else {
        SurveyOther(w, i, best, cur);
        if cur.Run? {
          if best.NoRun? || cur.len > best.len {
            best := cur;
          }
          cur := NoRun;
        }
      }
    }
    SurveyEnd(w, best, cur);
    if cur.Run? {
      if best.NoRun? || cur.len > best.len {
        best := cur;
      }
    }
    run := if best.Run? && best.len < 2 then NoRun else best;
  }

  lemma NothingSurveyed(w: seq<int>)
    ensures SurveyState(w, 0, NoRun, NoRun)
  {
  }

  /** What the formatting loop still has to write from word `i` on. */
  ghost function Left(w: seq<int>, run: Run, i: nat): string
    requires |w| == WORDS && Words(w) && i <= WORDS
    decreases WORDS - i
  {
    if i == WORDS then if run.Run? && run.base + run.len == WORDS then ":" else ""
    else if run.Run? && run.base <= i < run.base + run.len then
      (if i == run.base then ":" else "") + Left(w, run, i + 1)
    else
      (if i != 0 then ":" else "")
      + if i == 6 && Embeds4(w, run) then QuadOf(w).Text() else HexText(w[i]) + Left(w, run, i + 1)
  }

  lemma {:induction false} LeftInRun(w: seq<int>, run: Run, i: nat)
    requires |w| == WORDS && Words(w) && run.Run? && run.base < i <= run.base + run.len <= WORDS
    ensures Left(w, run, i) == Left(w, run, run.base + run.len)
    decreases WORDS - i
  {
    if i < run.base + run.len {
      LeftInRun(w, run, i + 1);
      assert "" + Left(w, run, i + 1) == Left(w, run, i + 1);
    }
  }

  lemma LeftAt(w: seq<int>, run: Run, i: nat)
    requires |w| == WORDS && Words(w) && i < WORDS && !(run.Run? && run.base <= i < run.base + run.len)
    requires !(i == 6 && Embeds4(w, run))
    ensures Left(w, run, i) == (if i != 0 then ":" else "") + (HexText(w[i]) + Left(w, run, i + 1))
  {
    hide HexText;
  }

  lemma HexTextsAt(w: seq<int>)
    requires w != [] && Words(w)
    ensures Joined(HexTexts(w)) == HexText(w[0]) + if |w| == 1 then "" else ":" + Joined(HexTexts(w[1..]))
  {
    hide HexText;
    assert HexTexts(w)[1..] == HexTexts(w[1..]);
    if |w| > 1 {
      assert HexText(w[0]) + (":" + Joined(HexTexts(w[1..]))) == HexText(w[0]) + ":" + Joined(HexTexts(w[1..]));
    }
  }

  /** Words behind the run, or all words if there is none, when nothing is embedded. */
  lemma {:induction false} LeftGroups(w: seq<int>, run: Run, i: nat)
    requires |w| == WORDS && Words(w) && i < WORDS && !Embeds4(w, run)
    requires run.Run? ==> run.base + run.len <= i
    ensures Left(w, run, i) == (if i != 0 then ":" else "") + Joined(HexTexts(w[i..]))
    decreases WORDS - i
  {
    hide HexText, HexTexts, Joined, Left, Embeds4;
    LeftAt(w, run, i);
    HexTextsAt(w[i..]);
    assert w[i..][1..] == w[i + 1..];
    if i + 1 < WORDS {
      LeftGroups(w, run, i + 1);
    } else {
      LeftEnd(w, run);
    }
  }

  lemma LeftEnd(w: seq<int>, run: Run)
    requires |w| == WORDS && Words(w)
    ensures Left(w, run, WORDS) == if run.Run? && run.base + run.len == WORDS then ":" else ""
  {
  }

  lemma LeftEmbedded(w: seq<int>, run: Run)
    requires |w| == WORDS && Words(w) && Embeds4(w, run)
    ensures Left(w, run, run.len) == ":" + TailOf(w, run).Text()
  {
    hide DecText;
    var quad := QuadOf(w).Text();
    assert Left(w, run, 6) == ":" + quad;
    if run.len == 6 {
      assert w[6..6] == [];
    } else {
      assert w[5..6] == [w[5]] && [w[5]][1..] == [] && HexTexts([]) == [];
      assert HexTexts(w[5..6]) == [HexText(w[5])];
      assert Left(w, run, 5) == ":" + (HexText(w[5]) + Left(w, run, 6));
      assert ":" + (HexText(w[5]) + (":" + quad)) == ":" + (HexText(w[5]) + ":" + quad);
    }
  }

  lemma LeftRunStart(w: seq<int>, run: Run)
    requires |w| == WORDS && Words(w) && run.Run? && run.len >= 1 && run.base + run.len <= WORDS
    ensures Left(w, run, run.base) == ":" + Left(w, run, run.base + run.len)
  {
    hide HexText, QuadOf;
    LeftInRun(w, run, run.base + 1);
  }

  /** From the start of the run on: two colons and the tail. */
  lemma LeftGap(w: seq<int>, run: Run)
    requires |w| == WORDS && Words(w) && run.Run? && run.len >= 1 && run.base + run.len <= WORDS
    ensures Left(w, run, run.base) == "::" + TailOf(w, run).Text()
  {
    hide HexText, HexTexts, QuadOf, Left, Joined;
    var e := run.base + run.len;
    LeftRunStart(w, run);
    if Embeds4(w, run) {
      LeftEmbedded(w, run);
    } else if e < WORDS {
      LeftGroups(w, run, e);
    } else {
      NoTail(w, run);
    }
    TwoColons(TailOf(w, run).Text());
  }

  lemma TwoColons(s: string)
    ensures ":" + (":" + s) == "::" + s
  {
  }

  lemma NoTail(w: seq<int>, run: Run)
    requires |w| == WORDS && Words(w) && run.Run? && run.base + run.len == WORDS && !Embeds4(w, run)
    ensures TailOf(w, run).Text() == "" && Left(w, run, WORDS) == ":" + ""
  {
    assert w[WORDS..] == [];
  }

  /** Before the run. */
  lemma {:induction false} LeftBefore(w: seq<int>, run: Run, i: nat)
    requires |w| == WORDS && Words(w) && run.Run? && run.len >= 1 && run.base + run.len <= WORDS && i < run.base
    ensures Left(w, run, i)
         == (if i != 0 then ":" else "") + (Joined(HexTexts(w[i..run.base])) + Left(w, run, run.base))
    decreases run.base - i
  {
    hide HexText, HexTexts, Joined, Left;
    var b := run.base;
    LeftAt(w, run, i);
    HexTextsAt(w[i..b]);
    assert w[i..b][1..] == w[i + 1..b];
    if i + 1 < b {
      LeftBefore(w, run, i + 1);
      Regroup(HexText(w[i]), Joined(HexTexts(w[i + 1..b])), Left(w, run, b));
    }
  }

  lemma Regroup(a: string, b: string, c: string)
    ensures a + (":" + (b + c)) == a + (":" + b) + c
  {
  }

  lemma LeftIsRender(w: seq<int>, run: Run)
    requires |w| == WORDS && Words(w) && (run.Run? ==> run.len >= 1 && run.base + run.len <= WORDS)
    ensures Left(w, run, 0) == Render(w, run)
  {
    hide HexTexts, Joined, Left;
    match run
    case NoRun =>
      LeftGroups(w, run, 0);
      assert w[0..] == w && "" + Joined(HexTexts(w)) == Joined(HexTexts(w));
    case Run(b, n) =>
      LeftGap(w, run);
      var gap := "::" + TailOf(w, run).Text();
      if b > 0 {
        LeftBefore(w, run, 0);
        assert w[0..b] == w[..b];
        var head := Joined(HexTexts(w[..b]));
        assert "" + (head + gap) == head + "::" + TailOf(w, run).Text();
      } else {
        assert w[..0] == [];
        NothingJoined();
        assert "" + gap == "" + "::" + TailOf(w, run).Text();
      }
  }

  lemma NothingJoined()
    ensures Joined(HexTexts([])) == ""
  {
  }

  /** inet_ntop4: the one shortest text that is read as these octets, if it fits with its terminator. */
  method InetNtop4(src: seq<int>, size: nat) returns (r: Option<string>)
    requires Octets(src)
    ensures r.Some? ==> Pton4(r.value) == Some(src) && |r.value| <= 15 && |r.value| < size
    ensures r.Some? ==> forall d: Dotted :: d.Valid() && d.Bytes() == src ==>
      |r.value| < |d.Text()| || d.Text() == r.value
    ensures r.None? <==> forall d: Dotted :: d.Valid() && d.Bytes() == src ==> |d.Text()| >= size
    ensures r.Some? ==> r.value == QuadText(src).Text()
  {
    hide DecText, Dotted.Text, Dotted.Valid, Dotted.Bytes, Pton4;
    var text := QuadText(src).Text();
    QuadTextReads(src);
    forall d: Dotted | d.Valid() && d.Bytes() == src ensures |text| < |d.Text()| || d.Text() == text {
      QuadTextLeast(src, d);
    }
    if |text| >= size {
      return None;
    }
    return Some(text);
  }

  /** The formatting loop. */
  method Format(w: seq<int>, run: Run) returns (r: Option<string>)
    requires |w| == WORDS && Words(w) && (run.Run? ==> run.len >= 1 && run.base + run.len <= WORDS)
    ensures r == Some(Render(w, run))
  {
    hide HexText, Render, DecText, Left;
    var tp, i := "", 0;
    LeftIsRender(w, run);
    RenderFits(w, run);
    assert "" + Left(w, run, 0) == Left(w, run, 0);
    while i < WORDS
      invariant 0 <= i <= WORDS && tp + Left(w, run, i) == Render(w, run)
    {
      LeftStep(w, run, i, tp);
      if run.Run? && run.base <= i < run.base + run.len {
        if i == run.base {
          tp := tp + ":";
        }
        i := i + 1;
        continue;
      }
      if i != 0 {
        tp := tp + ":";
      }
      if i == 6 && Embeds4(w, run) {
        QuadTextReads([w[6] / 256, w[6] % 256, w[7] / 256, w[7] % 256]);
        var quad := InetNtop4([w[6] / 256, w[6] % 256, w[7] / 256, w[7] % 256], TEXT_SIZE - |tp|);
        if quad.None? {
          return None;
        }
        tp := tp + quad.value;
        return Some(tp);
      }
      tp := tp + HexText(w[i]);
      i := i + 1;
    }
    LeftEnd(w, run);
    if run.Run? && run.base + run.len == WORDS {
      tp := tp + ":";
    }
    assert tp + "" == tp;
    return Some(tp);
  }

  lemma LeftStep(w: seq<int>, run: Run, i: nat, tp: string)
    requires |w| == WORDS && Words(w) && i < WORDS
    ensures var colon := if i != 0 then tp + ":" else tp;
      tp + Left(w, run, i)
      == if run.Run? && run.base <= i < run.base + run.len then
           (if i == run.base then tp + ":" else tp) + Left(w, run, i + 1)
         else if i == 6 && Embeds4(w, run) then colon + QuadOf(w).Text()
         else colon + HexText(w[i]) + Left(w, run, i + 1)
  {
    hide HexText, DecText, Dotted.Text;
    var more := Left(w, run, i + 1);
    if run.Run? && run.base <= i < run.base + run.len {
      Moved(tp, i == run.base, more);
    } else if i == 6 && Embeds4(w, run) {
      Moved(tp, true, QuadOf(w).Text());
    } else {
      Moved(tp, i != 0, HexText(w[i]) + more);
      var colon := if i != 0 then tp + ":" else tp;
      assert colon + (HexText(w[i]) + more) == colon + HexText(w[i]) + more;
    }
  }

  lemma Moved(tp: string, colon: bool, text: string)
    ensures tp + ((if colon then ":" else "") + text) == (if colon then tp + ":" else tp) + text
  {
    if colon {
      assert tp + (":" + text) == tp + ":" + text;
    } else {
      assert "" + text == text;
    }
  }

  /** inet_ntop6: the text leaves out the best run of zero words, it fits the buffer, and the parser
      reads it back as the same address. */
  method InetNtop6(src: seq<int>, size: nat) returns (r: Option<string>, ghost w: seq<int>, ghost run: Run)
    requires Address(src)
    ensures |w| == WORDS && Words(w) && BytesOf(w) == src && Best(w, run)
    ensures run.Run? ==> run.base + run.len <= WORDS
    ensures r == if |Render(w, run)| + 1 > size then None else Some(Render(w, run))
    ensures Pton6(Render(w, run)) == Some(src)
  {
    hide Words, Render, Pton6, BytesOf;
    var words := WordsOf(src);
    w := words;
    var best := FindRun(words);
    run := best;
    var text := Format(words, best);
    RenderFits(words, best);
    RoundTrip(words, best);
    if |text.value| + 1 > size {
      return None, w, run;
    }
    return text, w, run;
  }

  /** Printing an address into a buffer of any sufficient size and parsing the text gives the address. */
  method NtopThenPton(src: seq<int>) returns (back: Option<seq<int>>)
    requires Address(src)
    ensures back == Some(src)
  {
    hide Render, Pton6, BytesOf, Words;
    var text, w, run := InetNtop6(src, TEXT_SIZE);
    RenderFits(w, run);
    back := InetPton6(text.value);
  }
}
