/** The parser reads every address text of section 2.2 of RFC 4291. */
module InetParse {
  import opened InetSpec

  // ----- dotted decimal -----

  lemma {:induction false} OctetReads(g: string, rest: string, done: seq<int>, cur: int, saw: bool)
    requires forall i :: 0 <= i < |g| ==> DecDigit(g[i]).Some?
    requires 0 <= cur && DecFrom(cur, g) <= 255 && |done| <= 3 && (saw || g != "")
    ensures Quad(g + rest, done, cur, saw) == Quad(rest, done, DecFrom(cur, g), true)
    decreases |g|
  {
    if g == "" {
      assert g + rest == rest;
    } else {
      var d := DecDigit(g[0]).value;
      assert (g + rest)[1..] == g[1..] + rest;
      DecGrows(cur * 10 + d, g[1..]);
      OctetReads(g[1..], rest, done, cur * 10 + d, true);
    }
  }

  lemma {:induction false} DecGrows(v: int, g: string)
    requires 0 <= v && forall i :: 0 <= i < |g| ==> DecDigit(g[i]).Some?
    ensures v <= DecFrom(v, g)
    decreases |g|
  {
    if g != "" {
      DecGrows(v * 10 + DecDigit(g[0]).value, g[1..]);
    }
  }

  lemma OctetThenDot(g: string, rest: string, done: seq<int>)
    requires IsOctet(g) && |done| < 3
    ensures Quad(g + "." + rest, done, 0, false) == Quad(rest, done + [DecFrom(0, g)], 0, false)
  {
    hide DecFrom;
    OctetReads(g, "." + rest, done, 0, false);
    assert g + "." + rest == g + ("." + rest);
    assert ("." + rest)[1..] == rest;
  }

  lemma QuadReads(q: Dotted)
    requires q.Valid()
    ensures Pton4(q.Text()) == Some(q.Bytes())
  {
    hide Quad, DecFrom;
    var a, b, c := DecFrom(0, q.a), DecFrom(0, q.b), DecFrom(0, q.c);
    assert q.Text() == q.a + "." + (q.b + "." + (q.c + "." + q.d));
    OctetThenDot(q.a, q.b + "." + (q.c + "." + q.d), []);
    assert [] + [a] == [a] && [a] + [b] == [a, b] && [a, b] + [c] == [a, b, c];
    OctetThenDot(q.b, q.c + "." + q.d, [a]);
    OctetThenDot(q.c, q.d, [a, b]);
    LastOctet(q.d, [a, b, c]);
    assert [a, b, c] + [DecFrom(0, q.d)] == q.Bytes();
  }

  lemma LastOctet(g: string, done: seq<int>)
    requires IsOctet(g) && |done| == 3
    ensures Quad(g, done, 0, false) == Some(done + [DecFrom(0, g)])
  {
    OctetReads(g, "", done, 0, false);
    assert g + "" == g;
  }

  // ----- hexadecimal groups -----

  lemma {:induction false} HexGrows(v: int, g: string)
    requires 0 <= v && forall i :: 0 <= i < |g| ==> HexDigit(g[i]).Some?
    ensures v <= HexFrom(v, g)
    decreases |g|
  {
    if g != "" {
      HexGrows(v * 16 + HexDigit(g[0]).value, g[1..]);
    }
  }

  lemma {:induction false} GroupReads(g: string, rest: string, st: Scan)
    requires forall i :: 0 <= i < |g| ==> HexDigit(g[i]).Some?
    requires 0 <= st.val && HexFrom(st.val, g) <= 0xffff && (st.saw || g != "")
    ensures Run6(g + rest, st) == Run6(rest, st.(val := HexFrom(st.val, g), saw := true))
    decreases |g|
  {
    if g == "" {
      assert g + rest == rest;
    } else {
      var v := st.val * 16 + HexDigit(g[0]).value;
      assert (g + rest)[1..] == g[1..] + rest;
      HexGrows(v, g[1..]);
      GroupReads(g[1..], rest, st.(val := v, saw := true));
    }
  }

  /** A group and the colon after it. */
  lemma GroupThenColon(g: string, rest: string, out: seq<int>, colon: Option<nat>, tok: string)
    requires IsGroup(g) && |out| + 2 <= ADDRESS_SIZE
    ensures Run6(g + ":" + rest, Scan(out, colon, false, 0, tok))
         == Run6(rest, Scan(out + TwoBytes(HexFrom(0, g)), colon, false, 0, rest))
  {
    hide HexFrom;
    GroupReads(g, ":" + rest, Scan(out, colon, false, 0, tok));
    assert g + ":" + rest == g + (":" + rest);
    assert (":" + rest)[1..] == rest;
  }

  lemma LastGroup(g: string, out: seq<int>, colon: Option<nat>, tok: string)
    requires IsGroup(g) && |out| + 2 <= ADDRESS_SIZE
    ensures Run6(g, Scan(out, colon, false, 0, tok)) == Some((out + TwoBytes(HexFrom(0, g)), colon))
  {
    GroupReads(g, "", Scan(out, colon, false, 0, tok));
    assert g + "" == g;
  }

  /** Groups that are followed by a colon. */
  lemma {:induction false} GroupsRead(gs: seq<string>, rest: string, out: seq<int>, colon: Option<nat>, tok: string)
    requires gs != [] && Groups(gs) && |out| + 2 * |gs| <= ADDRESS_SIZE
    ensures Run6(Joined(gs) + ":" + rest, Scan(out, colon, false, 0, tok))
         == Run6(rest, Scan(out + BytesOf(ValuesOf(gs)), colon, false, 0, rest))
    decreases |gs|
  {
    var two := TwoBytes(HexFrom(0, gs[0]));
    hide Run6, HexFrom, TwoBytes, IsGroup, Joined, BytesOf, ValuesOf;
    if |gs| == 1 {
      OnlyRead(gs, rest, out, colon, tok);
    } else {
      var more := Joined(gs[1..]) + ":" + rest;
      FirstRead(gs, more, rest, out, colon, tok);
      GroupsRead(gs[1..], rest, out + two, colon, more);
      BytesMore(gs, out);
    }
  }

  lemma OnlyRead(gs: seq<string>, rest: string, out: seq<int>, colon: Option<nat>, tok: string)
    requires |gs| == 1 && Groups(gs) && |out| + 2 <= ADDRESS_SIZE
    ensures Run6(Joined(gs) + ":" + rest, Scan(out, colon, false, 0, tok))
         == Run6(rest, Scan(out + BytesOf(ValuesOf(gs)), colon, false, 0, rest))
  {
    hide Run6, HexFrom, TwoBytes, IsGroup, Joined, BytesOf, ValuesOf;
    GroupThenColon(gs[0], rest, out, colon, tok);
    OneGroup(gs[0]);
    assert gs == [gs[0]];
  }

  lemma BytesMore(gs: seq<string>, out: seq<int>)
    requires gs != [] && Groups(gs)
    ensures out + TwoBytes(HexFrom(0, gs[0])) + BytesOf(ValuesOf(gs[1..])) == out + BytesOf(ValuesOf(gs))
  {
    hide HexFrom, TwoBytes, IsGroup, BytesOf, ValuesOf;
    BytesFirst(gs);
  }

  /** The first of several groups. */
  lemma FirstRead(gs: seq<string>, more: string, rest: string, out: seq<int>, colon: Option<nat>, tok: string)
    requires |gs| > 1 && Groups(gs) && |out| + 2 <= ADDRESS_SIZE && more == Joined(gs[1..]) + ":" + rest
    ensures Groups(gs[1..])
    ensures Run6(Joined(gs) + ":" + rest, Scan(out, colon, false, 0, tok))
         == Run6(more, Scan(out + TwoBytes(HexFrom(0, gs[0])), colon, false, 0, more))
  {
    hide Run6, TwoBytes, HexFrom, IsGroup;
    GroupThenColon(gs[0], more, out, colon, tok);
    var tail := Joined(gs[1..]);
    assert gs[0] + ":" + tail + ":" + rest == gs[0] + ":" + (tail + ":" + rest);
  }

  lemma BytesFirst(gs: seq<string>)
    requires gs != [] && Groups(gs)
    ensures BytesOf(ValuesOf(gs)) == TwoBytes(HexFrom(0, gs[0])) + BytesOf(ValuesOf(gs[1..]))
  {
    hide IsGroup, HexFrom;
    assert ValuesOf(gs)[1..] == ValuesOf(gs[1..]);
  }

  // ----- the first octet of a quad, read as a group -----

  /** Three significant decimal digits are no more than three hexadecimal ones. */
  lemma {:induction false} DecimalAsHex(v: int, w: int, g: string)
    requires forall i :: 0 <= i < |g| ==> DecDigit(g[i]).Some?
    requires 0 <= v && DecFrom(v, g) < 1000
    requires (v < 10 && w == v) || (10 <= v < 100 && 0 <= w <= 0x99) || (100 <= v && 0 <= w <= 0x999)
    ensures (forall i :: 0 <= i < |g| ==> HexDigit(g[i]).Some?) && HexFrom(w, g) <= 0x999
    decreases |g|
  {
    if g != "" {
      var d := DecDigit(g[0]).value;
      DecGrows(v * 10 + d, g[1..]);
      DecimalAsHex(v * 10 + d, w * 16 + d, g[1..]);
      assert forall i :: 1 <= i < |g| ==> g[i] == g[1..][i - 1];
    }
  }

  lemma QuadAtEnd(q: Dotted, out: seq<int>, colon: Option<nat>)
    requires q.Valid() && |out| + 4 <= ADDRESS_SIZE
    ensures Run6(q.Text(), Scan(out, colon, false, 0, q.Text())) == Some((out + q.Bytes(), colon))
  {
    hide Quad, DecFrom;
    QuadReads(q);
    DecimalAsHex(0, 0, q.a);
    var rest := "." + q.b + "." + q.c + "." + q.d;
    assert q.Text() == q.a + rest;
    GroupReads(q.a, rest, Scan(out, colon, false, 0, q.Text()));
    assert rest[0] == '.';
  }

  // ----- whole addresses -----

  lemma {:induction false} TailReads(t: Tail, out: seq<int>, colon: Option<nat>)
    requires t.Valid() && |out| + t.Size() <= ADDRESS_SIZE
    ensures Run6(t.Text(), Scan(out, colon, false, 0, t.Text())) == Some((out + t.Bytes(), colon))
    decreases |t.groups|
  {
    hide Run6, HexFrom, Pton4, IsOctet, IsGroup;
    var gs := t.groups;
    if gs == [] {
      if t.quad.Some? {
        QuadAtEnd(t.quad.value, out, colon);
        assert [] + t.quad.value.Bytes() == t.quad.value.Bytes();
      } else {
        NothingLeft(out, colon);
        assert out + t.Bytes() == out;
      }
    } else if t.quad.Some? {
      var q := t.quad.value;
      GroupsRead(gs, q.Text(), out, colon, t.Text());
      QuadAtEnd(q, out + BytesOf(ValuesOf(gs)), colon);
      assert out + BytesOf(ValuesOf(gs)) + q.Bytes() == out + t.Bytes();
    } else {
      GroupsAtEnd(gs, out, colon, t.Text());
      assert BytesOf(ValuesOf(gs)) + [] == BytesOf(ValuesOf(gs));
    }
  }

  lemma NothingLeft(out: seq<int>, colon: Option<nat>)
    ensures Run6("", Scan(out, colon, false, 0, "")) == Some((out, colon))
  {
  }

  lemma GroupsAtEnd(gs: seq<string>, out: seq<int>, colon: Option<nat>, tok: string)
    requires gs != [] && Groups(gs) && |out| + 2 * |gs| <= ADDRESS_SIZE
    ensures Run6(Joined(gs), Scan(out, colon, false, 0, tok)) == Some((out + BytesOf(ValuesOf(gs)), colon))
  {
    hide Run6, HexFrom, TwoBytes, Joined, BytesOf, ValuesOf;
    var n := |gs| - 1;
    var init, last := gs[..n], gs[n];
    assert gs == init + [last];
    if n == 0 {
      assert gs == [last];
      LastGroup(last, out, colon, tok);
      OneGroup(last);
    } else {
      JoinedLast(init, last);
      GroupsRead(init, last, out, colon, tok);
      LastGroup(last, out + BytesOf(ValuesOf(init)), colon, last);
      ValuesLast(init, last);
      assert out + BytesOf(ValuesOf(init)) + TwoBytes(HexFrom(0, last))
          == out + (BytesOf(ValuesOf(init)) + TwoBytes(HexFrom(0, last)));
    }
  }

  lemma OneGroup(g: string)
    requires IsGroup(g)
    ensures Joined([g]) == g && BytesOf(ValuesOf([g])) == TwoBytes(HexFrom(0, g))
  {
    assert [g][1..] == [] && ValuesOf([g]) == [HexFrom(0, g)];
    assert [HexFrom(0, g)][1..] == [];
    assert BytesOf([]) == [];
  }

  lemma {:induction false} JoinedLast(gs: seq<string>, g: string)
    requires gs != []
    ensures Joined(gs + [g]) == Joined(gs) + ":" + g
    decreases |gs|
  {
    assert (gs + [g])[1..] == gs[1..] + [g];
    if |gs| == 1 {
      assert gs[1..] + [g] == [g];
    } else {
      JoinedLast(gs[1..], g);
      assert gs[0] + ":" + (Joined(gs[1..]) + ":" + g) == gs[0] + ":" + Joined(gs[1..]) + ":" + g;
    }
  }

  lemma {:induction false} ValuesLast(gs: seq<string>, g: string)
    requires Groups(gs) && IsGroup(g)
    ensures Groups(gs + [g]) && BytesOf(ValuesOf(gs + [g])) == BytesOf(ValuesOf(gs)) + TwoBytes(HexFrom(0, g))
    decreases |gs|
  {
    hide IsGroup, TwoBytes, HexFrom;
    if gs == [] {
      assert gs + [g] == [g];
      OneGroup(g);
    } else {
      assert (gs + [g])[1..] == gs[1..] + [g];
      ValuesLast(gs[1..], g);
      assert ValuesOf(gs + [g])[1..] == ValuesOf(gs[1..] + [g]);
      assert ValuesOf(gs)[1..] == ValuesOf(gs[1..]);
    }
  }

  /** Form 1: eight groups, or six groups and four octets, are read as they stand. */
  lemma FullForm(t: Tail)
    requires t.Valid() && t.Size() == ADDRESS_SIZE
    ensures Pton6(t.Text()) == Some(t.Bytes())
  {
    hide Run6, IsGroup, IsOctet;
    TailReads(t, [], None);
    assert [] + t.Bytes() == t.Bytes();
    StartsWithDigit(t);
  }

  lemma StartsWithDigit(t: Tail)
    requires t.Valid() && t.groups != []
    ensures t.Text() != "" && t.Text()[0] != ':'
  {
    assert IsGroup(t.groups[0]);
    assert t.Text()[0] == t.groups[0][0];
  }

  /** Forms 2 and 3: a double colon stands for as many zero bytes as are missing. If none are missing
      the text is not one the printer writes, and what follows the colons is lost. */
  lemma GapForm(gs: seq<string>, t: Tail)
    requires Groups(gs) && t.Valid() && 2 * |gs| + t.Size() <= ADDRESS_SIZE
    ensures Pton6(Joined(gs) + "::" + t.Text()) == Some(Filled(BytesOf(ValuesOf(gs)), t.Bytes()))
  {
    hide Run6, IsGroup, IsOctet, Joined, BytesOf, ValuesOf, Tail.Text, Tail.Bytes;
    var out := BytesOf(ValuesOf(gs));
    TailSize(t);
    TailReads(t, out, Some(|out|));
    GapRun(gs, t.Text());
    FilledIs(out, t.Bytes());
  }

  /** Zeros between, as many as are missing; if none are missing, zeros instead of the second part. */
  function Filled(a: seq<int>, b: seq<int>): seq<int> {
    if |a| + |b| < ADDRESS_SIZE then a + Zeros(ADDRESS_SIZE - |a| - |b|) + b else a + Zeros(|b|)
  }

  lemma FilledIs(a: seq<int>, b: seq<int>)
    requires |a| + |b| <= ADDRESS_SIZE
    ensures Finish(a + b, Some(|a|)) == Some(Filled(a, b))
  {
    assert (a + b)[..|a|] == a && (a + b)[|a|..] == b;
  }

  lemma TailSize(t: Tail)
    requires t.Valid()
    ensures |t.Bytes()| == t.Size()
  {
  }

  /** The run from the start of the text, or from behind a leading colon, to the end of the gap. */
  lemma GapRun(gs: seq<string>, rest: string)
    requires Groups(gs) && 2 * |gs| <= ADDRESS_SIZE
    ensures var src := Joined(gs) + "::" + rest;
      && src != "" && (src[0] == ':' ==> |src| > 1 && src[1] == ':')
      && var text := if src[0] == ':' then src[1..] else src;
         Run6(text, Scan([], None, false, 0, text))
         == Run6(rest, Scan(BytesOf(ValuesOf(gs)), Some(2 * |gs|), false, 0, rest))
  {
    hide Run6, IsGroup, IsOctet, BytesOf, ValuesOf;
    var src, colon := Joined(gs) + "::" + rest, ":" + rest;
    ColonReads(rest, BytesOf(ValuesOf(gs)), colon);
    if gs == [] {
      assert src[1..] == colon;
      NoGroups();
    } else {
      assert src == Joined(gs) + ":" + colon;
      GroupsRead(gs, colon, [], None, src);
      assert [] + BytesOf(ValuesOf(gs)) == BytesOf(ValuesOf(gs));
      GroupsStart(gs);
      assert src[0] == Joined(gs)[0];
    }
  }

  lemma NoGroups()
    ensures BytesOf(ValuesOf([])) == []
  {
  }

  lemma GroupsStart(gs: seq<string>)
    requires gs != [] && Groups(gs)
    ensures Joined(gs) != "" && Joined(gs)[0] != ':'
  {
    assert IsGroup(gs[0]);
    assert Joined(gs)[0] == gs[0][0];
  }

  lemma ColonReads(rest: string, out: seq<int>, tok: string)
    ensures Run6(":" + rest, Scan(out, None, false, 0, tok)) == Run6(rest, Scan(out, Some(|out|), false, 0, rest))
  {
    assert (":" + rest)[1..] == rest;
  }

  // ----- what the double colon loses -----

  /** The text is read as it is written, with zeros for whatever is missing, if and only if the double
      colon stands for something, or all that follows it is zero anyway. */
  lemma GapAsWritten(gs: seq<string>, t: Tail)
    requires Groups(gs) && t.Valid() && 2 * |gs| + t.Size() <= ADDRESS_SIZE
    ensures |BytesOf(ValuesOf(gs))| + |t.Bytes()| == 2 * |gs| + t.Size()
    ensures var a, b := BytesOf(ValuesOf(gs)), t.Bytes();
      Pton6(Joined(gs) + "::" + t.Text()) == Some(a + Zeros(ADDRESS_SIZE - |a| - |b|) + b)
      <==> 2 * |gs| + t.Size() < ADDRESS_SIZE || forall i :: 0 <= i < |b| ==> b[i] == 0
  {
    hide Joined, Pton6, BytesOf, ValuesOf, Tail.Text, Tail.Bytes, IsGroup;
    GapForm(gs, t);
    TailSize(t);
    var a, b := BytesOf(ValuesOf(gs)), t.Bytes();
    if |a| + |b| == ADDRESS_SIZE {
      assert a + Zeros(0) + b == a + b;
      assert (a + b)[|a|..] == b && (a + Zeros(|b|))[|a|..] == Zeros(|b|);
      if forall i :: 0 <= i < |b| ==> b[i] == 0 {
        assert b == Zeros(|b|);
      }
    }
  }

  /** Seven groups, a double colon and an eighth group: the eighth is read as zero. */
  lemma GapExample()
    ensures Pton6("1:2:3:4:5:6:7::8") == Some([0, 1, 0, 2, 0, 3, 0, 4, 0, 5, 0, 6, 0, 7, 0, 0])
  {
    hide Pton6, Joined, BytesOf, ValuesOf, IsGroup, HexFrom, TwoBytes;
    var gs, t := ["1", "2", "3", "4", "5", "6", "7"], Tail(["8"], None);
    SevenGroups(gs);
    EighthGroup(t);
    GapForm(gs, t);
    SevenJoined(gs);
    SevenValues(gs);
    assert "1:2:3:4:5:6:7" + "::" + "8" == "1:2:3:4:5:6:7::8";
    assert [0, 1, 0, 2, 0, 3, 0, 4, 0, 5, 0, 6, 0, 7] + Zeros(2)
        == [0, 1, 0, 2, 0, 3, 0, 4, 0, 5, 0, 6, 0, 7, 0, 0];
  }

  lemma SevenGroups(gs: seq<string>)
    requires gs == ["1", "2", "3", "4", "5", "6", "7"]
    ensures forall i :: 0 <= i < 7 ==> IsGroup(gs[i]) && HexFrom(0, gs[i]) == i + 1
  {
    hide IsGroup, HexFrom;
    forall i | 0 <= i < 7 ensures IsGroup(gs[i]) && HexFrom(0, gs[i]) == i + 1 {
      OneDigit(gs[i][0], i + 1);
      assert gs[i] == [gs[i][0]];
    }
  }

  lemma EighthGroup(t: Tail)
    requires t == Tail(["8"], None)
    ensures t.Valid() && t.Text() == "8" && |t.Bytes()| == t.Size() == 2
  {
    OneDigit('8', 8);
    assert ["8"][0] == ['8'];
  }

  lemma OneDigit(c: char, v: int)
    requires HexDigit(c) == Some(v) && 0 <= v < 16
    ensures IsGroup([c]) && HexFrom(0, [c]) == v
  {
    assert [c][1..] == "" && HexFrom(v, "") == v;
  }

  lemma JoinedFrom(gs: seq<string>, k: nat)
    requires k + 1 < |gs|
    ensures Joined(gs[k..]) == gs[k] + ":" + Joined(gs[k + 1..])
  {
    assert gs[k..][0] == gs[k] && gs[k..][1..] == gs[k + 1..];
  }

  lemma SevenJoined(gs: seq<string>)
    requires gs == ["1", "2", "3", "4", "5", "6", "7"]
    ensures Joined(gs) == "1:2:3:4:5:6:7"
  {
    hide Joined;
    FourJoined(gs);
    JoinedFrom(gs, 2);
    assert Joined(gs[2..]) == "3:4:5:6:7";
    JoinedFrom(gs, 1);
    assert Joined(gs[1..]) == "2:3:4:5:6:7";
    JoinedFrom(gs, 0);
    assert gs[0..] == gs;
  }

  lemma FourJoined(gs: seq<string>)
    requires gs == ["1", "2", "3", "4", "5", "6", "7"]
    ensures Joined(gs[3..]) == "4:5:6:7"
  {
    assert Joined(gs[6..]) == "7" by {
      assert gs[6..] == ["7"];
    }
    hide Joined;
    JoinedFrom(gs, 5);
    assert Joined(gs[5..]) == "6:7";
    JoinedFrom(gs, 4);
    assert Joined(gs[4..]) == "5:6:7";
    JoinedFrom(gs, 3);
  }

  lemma SevenValues(gs: seq<string>)
    requires Groups(gs) && |gs| == 7 && forall i :: 0 <= i < 7 ==> HexFrom(0, gs[i]) == i + 1
    ensures BytesOf(ValuesOf(gs)) == [0, 1, 0, 2, 0, 3, 0, 4, 0, 5, 0, 6, 0, 7]
  {
    hide HexFrom, IsGroup, BytesOf, ValuesOf;
    forall i | 0 <= i < 7 ensures BytesOf(ValuesOf(gs))[2 * i] == 0 && BytesOf(ValuesOf(gs))[2 * i + 1] == i + 1 {
      ValueAt(gs, i);
      BytesAt(ValuesOf(gs), i);
    }
    var r, want := BytesOf(ValuesOf(gs)), [0, 1, 0, 2, 0, 3, 0, 4, 0, 5, 0, 6, 0, 7];
    forall k | 0 <= k < 14 ensures r[k] == want[k] {
      assert k == 2 * (k / 2) + k % 2;
    }
  }

  lemma {:induction false} ValueAt(gs: seq<string>, i: nat)
    requires Groups(gs) && i < |gs|
    ensures ValuesOf(gs)[i] == HexFrom(0, gs[i])
    decreases |gs|
  {
    if i > 0 {
      ValueAt(gs[1..], i - 1);
    }
  }

  lemma {:induction false} BytesAt(ws: seq<int>, i: nat)
    requires i < |ws|
    ensures BytesOf(ws)[2 * i] == ws[i] / 256 % 256 && BytesOf(ws)[2 * i + 1] == ws[i] % 256
    decreases |ws|
  {
    if i > 0 {
      BytesAt(ws[1..], i - 1);
    }
  }
}
