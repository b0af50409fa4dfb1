/** Which texts the address parsers accept: exactly the dotted quads, and exactly the forms of section 2.2
    of RFC 4291, with groups and octets of any number of digits, a double colon that may stand for nothing,
    and a colon that may follow the last group. */
module InetAccept {
  import opened InetSpec
  import opened InetParse

  // ----- digits -----

  /** The digits by their place in a table. */
  lemma HexTable(c: char, d: int)
    ensures HexDigit(c) == Some(d) <==> 0 <= d < 16 && (c == "0123456789abcdef"[d] || c == "0123456789ABCDEF"[d])
    ensures DecDigit(c) == Some(d) <==> 0 <= d < 10 && c == "0123456789"[d]
  {
  }

  /** How many digits stand at the head of a text. */
  function HexCount(s: string): (n: nat)
    ensures n <= |s| && (forall i :: 0 <= i < n ==> HexDigit(s[i]).Some?) && (n < |s| ==> HexDigit(s[n]).None?)
  {
    if s == "" || HexDigit(s[0]).None? then 0 else 1 + HexCount(s[1..])
  }

  function DecCount(s: string): (n: nat)
    ensures n <= |s| && (forall i :: 0 <= i < n ==> DecDigit(s[i]).Some?) && (n < |s| ==> DecDigit(s[n]).None?)
  {
    if s == "" || DecDigit(s[0]).None? then 0 else 1 + DecCount(s[1..])
  }

  // ----- dotted decimal -----

  lemma {:induction false} TooBigOctet(g: string, rest: string, done: seq<int>, cur: int, saw: bool)
    requires forall i :: 0 <= i < |g| ==> DecDigit(g[i]).Some?
    requires 0 <= cur <= 255 && DecFrom(cur, g) > 255
    ensures Quad(g + rest, done, cur, saw) == None
    decreases |g|
  {
    if g != "" {
      var v := cur * 10 + DecDigit(g[0]).value;
      assert (g + rest)[1..] == g[1..] + rest;
      if v <= 255 && (saw || |done| + 1 <= 4) {
        TooBigOctet(g[1..], rest, done, v, true);
      }
    }
  }

  /** What an accepted text has at the place of an octet. */
  lemma OctetFirst(s: string, done: seq<int>) returns (g: string, rest: string)
    requires |done| <= 3 && Quad(s, done, 0, false).Some?
    ensures IsOctet(g) && s == g + rest && forall i :: 0 <= i < |g| ==> DecDigit(g[i]).Some?
    ensures rest == "" ==> |done| == 3 && Quad(s, done, 0, false) == Some(done + [DecFrom(0, g)])
    ensures rest != "" ==> |done| < 3 && rest[0] == '.'
    ensures rest != "" ==> Quad(s, done, 0, false) == Quad(rest[1..], done + [DecFrom(0, g)], 0, false)
  {
    hide DecFrom, DecDigit;
    var n := DecCount(s);
    g, rest := s[..n], s[n..];
    assert s == g + rest;
    if g != "" {
      if DecFrom(0, g) > 255 {
        TooBigOctet(g, rest, done, 0, false);
      }
      OctetReads(g, rest, done, 0, false);
    }
  }

  lemma {:induction false} QuadAccepted(s: string) returns (q: Dotted)
    requires Pton4(s).Some?
    ensures q.Valid() && q.Text() == s && Pton4(s) == Some(q.Bytes())
  {
    hide Quad, IsOctet, DecFrom;
    var a, ra := OctetFirst(s, []);
    var va := DecFrom(0, a);
    assert [] + [va] == [va];
    var b, rb := OctetFirst(ra[1..], [va]);
    var vb := DecFrom(0, b);
    assert [va] + [vb] == [va, vb];
    var c, rc := OctetFirst(rb[1..], [va, vb]);
    var vc := DecFrom(0, c);
    assert [va, vb] + [vc] == [va, vb, vc];
    var d, rd := OctetFirst(rc[1..], [va, vb, vc]);
    assert [va, vb, vc] + [DecFrom(0, d)] == [va, vb, vc, DecFrom(0, d)];
    q := Dotted(a, b, c, d);
    DottedText(q, s, ra, rb, rc, rd);
  }

  lemma DottedText(q: Dotted, s: string, ra: string, rb: string, rc: string, rd: string)
    requires s == q.a + ra && ra != "" && ra[0] == '.' && ra[1..] == q.b + rb
    requires rb != "" && rb[0] == '.' && rb[1..] == q.c + rc
    requires rc != "" && rc[0] == '.' && rc[1..] == q.d + rd && rd == ""
    ensures q.Text() == s
  {
    assert ra == "." + q.b + rb && rb == "." + q.c + rc && rc == "." + q.d;
  }

  /** A text is read as four octets if and only if it is four decimal octets between dots. */
  lemma Pton4Exactly(s: string, b: seq<int>)
    ensures Pton4(s) == Some(b) <==> exists q: Dotted :: q.Valid() && q.Text() == s && q.Bytes() == b
  {
    hide Pton4, Dotted.Valid, Dotted.Text, Dotted.Bytes;
    if Pton4(s) == Some(b) {
      var q := QuadAccepted(s);
    }
    forall q: Dotted | q.Valid() && q.Text() == s && q.Bytes() == b ensures Pton4(s) == Some(b) {
      QuadReads(q);
    }
  }

  // ----- the texts of IPv6 addresses -----

  /** An address as it may be written: in full or with a double colon, and possibly with one more colon
      behind the last group. */
  datatype Written = Full(tail: Tail, colon: bool) | Gapped(front: seq<string>, tail: Tail, colon: bool) {
    predicate Valid() {
      && tail.Valid() && (colon ==> tail.groups != [] && tail.quad.None?)
      && match this
         case Full(_, _) => tail.Size() == ADDRESS_SIZE
         case Gapped(_, _, _) => Groups(front) && 2 * |front| + tail.Size() <= ADDRESS_SIZE
    }

    function End(): string { tail.Text() + if colon then ":" else "" }

    function Text(): string {
      match this
      case Full(_, _) => End()
      case Gapped(_, _, _) => Joined(front) + "::" + End()
    }

    /** The double colon stands for all that is missing; if nothing is, it takes the place of the rest. */
    function Bytes(): seq<int>
      requires Valid()
    {
      match this
      case Full(_, _) => tail.Bytes()
      case Gapped(_, _, _) => Filled(BytesOf(ValuesOf(front)), tail.Bytes())
    }
  }

  // ----- what is accepted -----

  lemma {:induction false} TooBigGroup(g: string, rest: string, st: Scan)
    requires forall i :: 0 <= i < |g| ==> HexDigit(g[i]).Some?
    requires 0 <= st.val <= 0xffff && HexFrom(st.val, g) > 0xffff
    ensures Run6(g + rest, st) == None
    decreases |g|
  {
    if g != "" {
      var v := st.val * 16 + HexDigit(g[0]).value;
      assert (g + rest)[1..] == g[1..] + rest;
      if v <= 0xffff {
        TooBigGroup(g[1..], rest, st.(val := v, saw := true));
      }
    }
  }

  /** What an accepted text has at the place of a group. */
  lemma GroupFirst(s: string, out: seq<int>, colon: Option<nat>) returns (g: string, rest: string)
    requires Run6(s, Scan(out, colon, false, 0, s)).Some? && s != "" && s[0] != ':'
    ensures IsGroup(g) && s == g + rest && forall i :: 0 <= i < |g| ==> HexDigit(g[i]).Some?
    ensures var two := TwoBytes(HexFrom(0, g)); var r := Run6(s, Scan(out, colon, false, 0, s));
      || (rest == "" && |out| + 2 <= ADDRESS_SIZE && r == Some((out + two, colon)))
      || (rest != "" && rest[0] == ':' && |out| + 2 <= ADDRESS_SIZE
          && r == Run6(rest[1..], Scan(out + two, colon, false, 0, rest[1..])))
      || (rest != "" && rest[0] == '.' && |out| + 4 <= ADDRESS_SIZE && Pton4(s).Some?
          && r == Some((out + Pton4(s).value, colon)))
  {
    hide HexFrom, Pton4, TwoBytes;
    var n := HexCount(s);
    g, rest := s[..n], s[n..];
    assert s == g + rest;
    var st := Scan(out, colon, false, 0, s);
    if g == "" {
      NoQuad(s);
    } else {
      if HexFrom(0, g) > 0xffff {
        TooBigGroup(g, rest, st);
      }
      GroupReads(g, rest, st);
    }
  }

  lemma NoQuad(s: string)
    requires s != "" && s[0] == '.'
    ensures Pton4(s) == None
  {
  }

  /** The rest of an accepted text, from the start of a group on, when there is no double colon to come. */
  lemma {:induction false} EndAccepted(s: string, out: seq<int>, colon: Option<nat>) returns (t: Tail, last: bool)
    requires Run6(s, Scan(out, colon, false, 0, s)).Some? && |out| <= ADDRESS_SIZE
    requires Run6(s, Scan(out, colon, false, 0, s)).value.1 == colon
    ensures t.Valid() && (last ==> t.groups != [] && t.quad.None?)
    ensures s == t.Text() + if last then ":" else ""
    ensures |out| + t.Size() <= ADDRESS_SIZE
    ensures Run6(s, Scan(out, colon, false, 0, s)) == Some((out + t.Bytes(), colon))
    decreases |s|
  {
    hide Run6, IsGroup, HexFrom, TwoBytes, Joined, Tail.Text, Tail.Bytes, Tail.Valid, BytesOf, ValuesOf;
    if s == "" {
      t, last := Tail([], None), false;
      NothingLeft(out, colon);
      NothingInTail(t);
      assert out + [] == out;
    } else if s[0] == ':' {
      ColonHere(s, out, colon);
      ColonIsKept(s[1..], Scan(out, Some(|out|), false, 0, s[1..]));
    } else {
      var g, rest := GroupFirst(s, out, colon);
      var two := TwoBytes(HexFrom(0, g));
      if rest == "" {
        t, last := Tail([g], None), false;
        OneTail(g);
        assert s == g;
      } else if rest[0] == ':' {
        var t1, last1 := EndAccepted(rest[1..], out + two, colon);
        t, last := GroupInFront(g, t1, last1, out);
        assert rest == ":" + rest[1..];
      } else {
        var q := QuadAccepted(s);
        t, last := Tail([], Some(q)), false;
        QuadTail(q);
      }
    }
  }

  /** A group and a colon in front of the rest: the colon belongs to the group if there is no rest. */
  lemma GroupInFront(g: string, t: Tail, last: bool, out: seq<int>) returns (u: Tail, end: bool)
    requires IsGroup(g) && t.Valid() && (last ==> t.groups != [] && t.quad.None?)
    ensures u.Valid() && (end ==> u.groups != [] && u.quad.None?) && u.Size() == 2 + t.Size()
    ensures g + (":" + (t.Text() + if last then ":" else "")) == u.Text() + if end then ":" else ""
    ensures out + TwoBytes(HexFrom(0, g)) + t.Bytes() == out + u.Bytes()
  {
    assert forall i :: 0 <= i < |g| ==> HexDigit(g[i]).Some?;
    hide IsGroup, HexFrom, TwoBytes, BytesOf, ValuesOf, Joined;
    var two := TwoBytes(HexFrom(0, g));
    if t.groups == [] && t.quad.None? {
      u, end := Tail([g], None), true;
      OneGroup(g);
      NothingInTail(t);
      assert u.Text() == g && u.Bytes() == two;
    } else {
      u, end := Tail([g] + t.groups, t.quad), last;
      hide Tail.Bytes, Tail.Text, Tail.Valid;
      Prepended(g, t);
      assert out + two + t.Bytes() == out + (two + t.Bytes());
    }
  }

  lemma OneTail(g: string)
    requires IsGroup(g)
    ensures var t := Tail([g], None); t.Valid() && t.Text() == g && t.Bytes() == TwoBytes(HexFrom(0, g))
  {
    OneGroup(g);
  }

  lemma QuadTail(q: Dotted)
    requires q.Valid()
    ensures var t := Tail([], Some(q)); t.Valid() && t.Text() == q.Text() && t.Bytes() == q.Bytes()
  {
    assert [] + q.Bytes() == q.Bytes();
  }

  lemma NothingInTail(t: Tail)
    requires t.groups == [] && t.quad.None?
    ensures t.Valid() && t.Text() == "" && t.Bytes() == []
  {
  }

  /** A double colon that has been seen stays where it is. */
  lemma {:induction false} ColonIsKept(s: string, st: Scan)
    requires st.colon.Some? && Run6(s, st).Some?
    ensures Run6(s, st).value.1 == st.colon
    decreases |s|
  {
    hide Pton4, TwoBytes;
    if s != "" && HexDigit(s[0]).Some? {
      ColonIsKept(s[1..], st.(val := st.val * 16 + HexDigit(s[0]).value, saw := true));
    } else if s != "" && s[0] == ':' {
      ColonIsKept(s[1..], Scan(st.out + TwoBytes(st.val), st.colon, false, 0, s[1..]));
    }
  }

  lemma ColonHere(s: string, out: seq<int>, colon: Option<nat>)
    requires s != "" && s[0] == ':' && Run6(s, Scan(out, colon, false, 0, s)).Some?
    ensures colon.None?
    ensures Run6(s, Scan(out, colon, false, 0, s)) == Run6(s[1..], Scan(out, Some(|out|), false, 0, s[1..]))
  {
  }

  lemma Prepended(g: string, t: Tail)
    requires IsGroup(g) && t.Valid() && (t.groups != [] || t.quad.Some?)
    ensures var u := Tail([g] + t.groups, t.quad);
      u.Valid() && u.Text() == g + ":" + t.Text() && u.Bytes() == TwoBytes(HexFrom(0, g)) + t.Bytes()
  {
    var gs := [g] + t.groups;
    assert gs[0] == g && gs[1..] == t.groups;
    assert forall i :: 0 <= i < |g| ==> HexDigit(g[i]).Some?;
    hide IsGroup, HexFrom, TwoBytes, BytesOf, ValuesOf;
    BytesFirst(gs);
    var two, more := TwoBytes(HexFrom(0, g)), BytesOf(ValuesOf(t.groups));
    var end := if t.quad.Some? then t.quad.value.Bytes() else [];
    assert two + more + end == two + (more + end);
    PrependedText(g, t);
  }

  lemma PrependedText(g: string, t: Tail)
    requires t.groups != [] || t.quad.Some?
    ensures Tail([g] + t.groups, t.quad).Text() == g + ":" + t.Text()
  {
    var gs := [g] + t.groups;
    assert gs[1..] == t.groups;
    if t.groups == [] {
      assert Joined(gs) == g;
    } else {
      assert Joined(gs) == g + ":" + Joined(t.groups);
    }
    hide Joined, Dotted.Text;
    if t.quad.Some? && t.groups != [] {
      var q := t.quad.value.Text();
      assert g + ":" + Joined(t.groups) + ":" + q == g + ":" + (Joined(t.groups) + ":" + q);
    }
  }

  /** The groups in front of a double colon, each with its own colon. */
  function Front(gs: seq<string>): string { if gs == [] then "" else Joined(gs) + ":" }

  /** An accepted text, from the start of a group on, with a double colon to come. */
  lemma {:induction false} GapAccepted(s: string, out: seq<int>) returns (gs: seq<string>, t: Tail, last: bool)
    requires Run6(s, Scan(out, None, false, 0, s)).Some? && |out| <= ADDRESS_SIZE
    requires Run6(s, Scan(out, None, false, 0, s)).value.1.Some?
    ensures Groups(gs) && t.Valid() && (last ==> t.groups != [] && t.quad.None?)
    ensures s == Front(gs) + ":" + t.Text() + if last then ":" else ""
    ensures |out| + 2 * |gs| + t.Size() <= ADDRESS_SIZE
    ensures Run6(s, Scan(out, None, false, 0, s))
         == Some((out + BytesOf(ValuesOf(gs)) + t.Bytes(), Some(|out| + 2 * |gs|)))
    decreases |s|
  {
    hide Run6, IsGroup, HexFrom, TwoBytes, Tail.Valid, Tail.Text, Tail.Bytes, Joined;
    if s == "" {
      NothingLeft(out, None);
    } else if s[0] == ':' {
      gs := [];
      t, last := GapHere(s, out);
    } else {
      var g, rest := GroupFirst(s, out, None);
      assert rest != "" && rest[0] == ':';
      var two := TwoBytes(HexFrom(0, g));
      var gs1: seq<string>;
      gs1, t, last := GapAccepted(rest[1..], out + two);
      gs := [g] + gs1;
      FrontFirst(g, gs1, out);
      FrontText(s, g, rest, gs1, t.Text(), last);
    }
  }

  /** The double colon is here. */
  lemma GapHere(s: string, out: seq<int>) returns (t: Tail, last: bool)
    requires s != "" && s[0] == ':' && |out| <= ADDRESS_SIZE
    requires Run6(s, Scan(out, None, false, 0, s)).Some?
    ensures t.Valid() && (last ==> t.groups != [] && t.quad.None?) && |out| + t.Size() <= ADDRESS_SIZE
    ensures s == Front([]) + ":" + t.Text() + if last then ":" else ""
    ensures BytesOf(ValuesOf([])) == []
    ensures Run6(s, Scan(out, None, false, 0, s)) == Some((out + [] + t.Bytes(), Some(|out|)))
  {
    hide Run6, IsGroup, Tail.Valid, Tail.Text, Tail.Bytes;
    ColonHere(s, out, None);
    ColonIsKept(s[1..], Scan(out, Some(|out|), false, 0, s[1..]));
    t, last := EndAccepted(s[1..], out, Some(|out|));
    assert s == ":" + s[1..] && out + [] == out;
    assert Front([]) + ":" == ":";
  }

  lemma FrontFirst(g: string, gs: seq<string>, out: seq<int>)
    requires IsGroup(g) && Groups(gs)
    ensures Groups([g] + gs)
    ensures out + TwoBytes(HexFrom(0, g)) + BytesOf(ValuesOf(gs)) == out + BytesOf(ValuesOf([g] + gs))
  {
    assert forall i :: 0 <= i < |g| ==> HexDigit(g[i]).Some?;
    hide IsGroup, HexFrom, TwoBytes, BytesOf, ValuesOf;
    var all := [g] + gs;
    assert all[0] == g && all[1..] == gs;
    BytesFirst(all);
  }

  lemma FrontText(s: string, g: string, rest: string, gs: seq<string>, text: string, last: bool)
    requires s == g + rest && rest != "" && rest[0] == ':'
    requires rest[1..] == Front(gs) + ":" + text + if last then ":" else ""
    ensures s == Front([g] + gs) + ":" + text + if last then ":" else ""
  {
    var all := [g] + gs;
    assert all[1..] == gs;
    assert Front(all) == g + ":" + Front(gs);
    assert rest == ":" + rest[1..];
    var end := if last then ":" else "";
    assert g + (":" + (Front(gs) + ":" + text + end)) == g + ":" + Front(gs) + ":" + text + end;
  }

  /** Whatever is accepted has one of the forms. */
  lemma Accepted(s: string) returns (w: Written)
    requires Pton6(s).Some?
    ensures w.Valid() && w.Text() == s
  {
    hide Run6, IsGroup, BytesOf, ValuesOf, Tail.Valid, Tail.Text, Tail.Bytes, Joined;
    var lead := s != "" && s[0] == ':';
    var text := if lead then s[1..] else s;
    var (out, colon) := Run6(text, Scan([], None, false, 0, text)).value;
    if colon.None? {
      var t, last := EndAccepted(text, [], None);
      assert [] + t.Bytes() == t.Bytes();
      TailSize(t);
      w := Full(t, last);
      if lead {
        ColonHere(text, [], None);
        ColonIsKept(text[1..], Scan([], Some(0), false, 0, text[1..]));
      }
    } else {
      var gs, t, last := GapAccepted(text, []);
      w := Gapped(gs, t, last);
      GapText(s, text, gs, t, last);
    }
  }

  lemma GapText(s: string, text: string, gs: seq<string>, t: Tail, last: bool)
    requires Groups(gs) && s != "" && text == Front(gs) + ":" + t.Text() + if last then ":" else ""
    requires if s[0] == ':' then |s| > 1 && s[1] == ':' && text == s[1..] else text == s
    ensures s == Gapped(gs, t, last).Text()
  {
    hide IsGroup, Tail.Text;
    var end := t.Text() + if last then ":" else "";
    assert text == Front(gs) + ":" + end;
    if gs == [] {
      assert text[0] == ':' && s == ":" + text;
      assert "" + ":" + end == ":" + end && ":" + (":" + end) == "" + "::" + end;
    } else {
      GroupsStart(gs);
      assert text[0] == Joined(gs)[0];
      if s[0] == ':' {
        assert false;
      }
      assert Joined(gs) + ":" + ":" + end == Joined(gs) + "::" + end;
    }
  }

  // ----- every form is accepted -----

  lemma ColonAtEnd(t: Tail, out: seq<int>, colon: Option<nat>)
    requires t.Valid() && t.groups != [] && t.quad.None? && |out| + t.Size() <= ADDRESS_SIZE
    ensures var s := t.Text() + ":"; Run6(s, Scan(out, colon, false, 0, s)) == Some((out + t.Bytes(), colon))
  {
    hide IsGroup, BytesOf, ValuesOf, Joined;
    var s := t.Text() + ":";
    assert s == Joined(t.groups) + ":" + "";
    GroupsRead(t.groups, "", out, colon, s);
    NothingLeft(out + BytesOf(ValuesOf(t.groups)), colon);
    assert BytesOf(ValuesOf(t.groups)) + [] == BytesOf(ValuesOf(t.groups));
  }

  lemma EndReads(w: Written, out: seq<int>, colon: Option<nat>)
    requires w.Valid() && |out| + w.tail.Size() <= ADDRESS_SIZE
    ensures Run6(w.End(), Scan(out, colon, false, 0, w.End())) == Some((out + w.tail.Bytes(), colon))
  {
    hide Run6, IsGroup, Tail.Text, Tail.Bytes;
    if w.colon {
      ColonAtEnd(w.tail, out, colon);
    } else {
      assert w.End() == w.tail.Text();
      TailReads(w.tail, out, colon);
    }
  }

  lemma FullReads(w: Written)
    requires w.Valid() && w.Full?
    ensures Pton6(w.Text()) == Some(w.Bytes())
  {
    hide Run6, IsGroup, BytesOf, ValuesOf;
    EndReads(w, [], None);
    TailSize(w.tail);
    assert [] + w.tail.Bytes() == w.tail.Bytes();
    StartsWithDigit(w.tail);
    assert w.Text()[0] == w.tail.Text()[0];
  }

  lemma GappedReads(w: Written)
    requires w.Valid() && w.Gapped?
    ensures Pton6(w.Text()) == Some(w.Bytes())
  {
    hide Run6, IsGroup, BytesOf, ValuesOf, Tail.Text, Tail.Bytes, Tail.Valid, Joined;
    var out := BytesOf(ValuesOf(w.front));
    EndReads(w, out, Some(|out|));
    TailSize(w.tail);
    FilledIs(out, w.tail.Bytes());
    GapRun(w.front, w.End());
  }

  /** Every one of the forms is read, as the bytes it stands for. */
  lemma Reads(w: Written)
    requires w.Valid()
    ensures Pton6(w.Text()) == Some(w.Bytes())
  {
    if w.Full? {
      FullReads(w);
    } else {
      GappedReads(w);
    }
  }

  /** A text is accepted, as an address, if and only if it is one of the forms and stands for that address. */
  lemma Pton6Exactly(s: string, a: seq<int>)
    ensures Pton6(s) == Some(a) <==> exists w: Written :: w.Valid() && w.Text() == s && w.Bytes() == a
  {
    hide Pton6, Written.Valid, Written.Text, Written.Bytes;
    if Pton6(s) == Some(a) {
      var w := Accepted(s);
      Reads(w);
    }
    forall w: Written | w.Valid() && w.Text() == s && w.Bytes() == a ensures Pton6(s) == Some(a) {
      Reads(w);
    }
  }

  // ----- the colon at the end -----

  lemma TailEnds(t: Tail)
    requires t.Valid() && (t.groups != [] || t.quad.Some?)
    ensures t.Text() != "" && t.Text()[|t.Text()| - 1] != ':'
  {
    hide HexFrom, DecFrom;
    if t.quad.Some? {
      var q := t.quad.value;
      assert IsOctet(q.d) && q.d != "";
      assert q.Text()[|q.Text()| - 1] == q.d[|q.d| - 1];
      assert t.Text()[|t.Text()| - 1] == q.d[|q.d| - 1];
    } else {
      JoinedEnds(t.groups);
    }
  }

  lemma {:induction false} JoinedEnds(gs: seq<string>)
    requires gs != [] && Groups(gs)
    ensures Joined(gs) != "" && Joined(gs)[|Joined(gs)| - 1] != ':'
    decreases |gs|
  {
    hide HexFrom;
    if |gs| == 1 {
      assert IsGroup(gs[0]);
    } else {
      JoinedEnds(gs[1..]);
      assert Joined(gs)[|Joined(gs)| - 1] == Joined(gs[1..])[|Joined(gs[1..])| - 1];
    }
  }

  lemma WrittenEnds(w: Written)
    requires w.Valid()
    ensures var s := w.Text(); w.colon <==> |s| >= 2 && s[|s| - 1] == ':' && s[|s| - 2] != ':'
  {
    hide Tail.Valid, Joined, Tail.Bytes, Tail.Text, Groups;
    var s, t := w.Text(), w.tail.Text();
    if w.tail.groups != [] || w.tail.quad.Some? {
      TailEnds(w.tail);
      if w.colon {
        assert s[|s| - 2] == t[|t| - 1];
      } else {
        assert s[|s| - 1] == t[|t| - 1];
      }
    } else {
      NothingInTail(w.tail);
      assert s == Joined(w.front) + "::";
    }
  }

  /** The standard has no form with a colon behind the last group. An accepted text is of a form without one if
      and only if it does not end in a single colon. */
  lemma LoneColonIff(s: string)
    requires Pton6(s).Some?
    ensures (exists w: Written :: w.Valid() && w.Text() == s && !w.colon)
       <==> !(|s| >= 2 && s[|s| - 1] == ':' && s[|s| - 2] != ':')
  {
    hide Pton6, Written.Valid, Written.Text;
    var w := Accepted(s);
    WrittenEnds(w);
    forall v: Written | v.Valid() && v.Text() == s ensures v.colon <==> w.colon {
      WrittenEnds(v);
    }
  }
}
