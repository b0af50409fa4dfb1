/** How printed elements are laid out: the lines that both printers write, each on a line of its own with two
    blanks for every level, or all of them on one line. */
module JsonLayout {
  import opened JsonSpec

  datatype Line = Line(level: nat, text: string)

  /** The lines of an element at a level, with the text that stands between a key and its value. */
  function Lines(j: Json, level: nat, colon: string): (ls: seq<Line>)
    ensures ls != []
    decreases j
  {
    match j
    case Prim(kind, text) => [Line(level, PrimText(kind, text))]
    case Arr(items) =>
      if items == [] then [Line(level, "[]")]
      else [Line(level, "[")] + ItemLines(items, level + 1, colon) + [Line(level, "]")]
    case Obj(members) => [Line(level, "{")] + MemberLines(members, level + 1, colon) + [Line(level, "}")]
  }

  /** Every item but the last has a comma behind it. */
  function ItemLines(items: seq<Json>, level: nat, colon: string): (ls: seq<Line>)
    ensures items != [] ==> ls != []
    decreases items
  {
    if items == [] then []
    else if |items| == 1 then Lines(items[0], level, colon)
    else Behind(Lines(items[0], level, colon), ",") + ItemLines(items[1..], level, colon)
  }

  function MemberLines(members: seq<Member>, level: nat, colon: string): (ls: seq<Line>)
    ensures members != [] ==> ls != []
    decreases members
  {
    if members == [] then []
    else
      var ls := Before(Quoted(members[0].name) + colon, Lines(members[0].value, level, colon));
      if |members| == 1 then ls else Behind(ls, ",") + MemberLines(members[1..], level, colon)
  }

  /** Text in front of the first line, and behind the last. */
  function Before(text: string, ls: seq<Line>): (r: seq<Line>)
    requires ls != []
    ensures |r| == |ls|
  {
    [Line(ls[0].level, text + ls[0].text)] + ls[1..]
  }

  function Behind(ls: seq<Line>, text: string): (r: seq<Line>)
    requires ls != []
    ensures |r| == |ls|
  {
    var n := |ls| - 1;
    ls[..n] + [Line(ls[n].level, ls[n].text + text)]
  }

  function Blanks(n: nat): string { seq(n, _ => ' ') }

  /** Each line on a line of its own, but for the first behind a line feed and two blanks for every level. */
  function Stacked(ls: seq<Line>): string
    requires ls != []
  {
    ls[0].text + More(ls[1..])
  }

  function Broken(level: nat): string { "\n" + Blanks(2 * level) }

  function More(ls: seq<Line>): string {
    if ls == [] then "" else Broken(ls[0].level) + ls[0].text + More(ls[1..])
  }

  /** All lines on one line. */
  function Flat(ls: seq<Line>): string { if ls == [] then "" else ls[0].text + Flat(ls[1..]) }

  // ----- putting lines together -----

  lemma {:induction false} MoreJoin(a: seq<Line>, b: seq<Line>)
    ensures More(a + b) == More(a) + More(b) && Flat(a + b) == Flat(a) + Flat(b)
    decreases |a|
  {
    hide Broken;
    if a == [] {
      assert a + b == b;
    } else {
      assert (a + b)[1..] == a[1..] + b;
      MoreJoin(a[1..], b);
    }
  }

  lemma {:induction false} MoreBehind(ls: seq<Line>, text: string)
    requires ls != []
    ensures More(Behind(ls, text)) == More(ls) + text && Flat(Behind(ls, text)) == Flat(ls) + text
  {
    hide Broken;
    var n := |ls| - 1;
    var last := Line(ls[n].level, ls[n].text + text);
    MoreJoin(ls[..n], [last]);
    MoreJoin(ls[..n], [ls[n]]);
    assert ls == ls[..n] + [ls[n]];
    MoreOne(last);
    MoreOne(ls[n]);
  }

  lemma MoreOne(l: Line)
    ensures More([l]) == Broken(l.level) + l.text && Flat([l]) == l.text
  {
    assert [l][1..] == [];
  }

  lemma OneLine(l: Line)
    ensures Stacked([l]) == l.text
  {
    assert [l][1..] == [];
  }

  lemma MoreBefore(text: string, ls: seq<Line>)
    requires ls != []
    ensures More(Before(text, ls)) == Broken(ls[0].level) + text + Stacked(ls)
    ensures Flat(Before(text, ls)) == text + Flat(ls)
  {
    hide Broken;
    var r := Before(text, ls);
    assert r[1..] == ls[1..];
    var brk, first, more, flat := Broken(ls[0].level), ls[0].text, More(ls[1..]), Flat(ls[1..]);
    assert More(r) == brk + (text + first) + more;
    assert Flat(ls) == first + flat && Flat(r) == text + first + flat;
    assert Stacked(ls) == first + more;
    hide More, Flat, Stacked, Before;
    Regroup(brk, text, first, more);
    Regroup("", text, first, flat);
  }

  lemma MoreFirst(ls: seq<Line>)
    requires ls != []
    ensures More(ls) == Broken(ls[0].level) + Stacked(ls)
  {
    hide Broken;
    Regroup(Broken(ls[0].level), "", ls[0].text, More(ls[1..]));
  }

  lemma Regroup(a: string, b: string, c: string, d: string)
    ensures a + (b + c) + d == a + b + (c + d)
    ensures a + c + d == a + (c + d)
    ensures b + c + d == b + (c + d)
    ensures a + b + c + d == a + (b + c) + d
  {
  }

  lemma {:induction false} SpacesAre(n: nat)
    ensures Spaces(n) == Blanks(n)
  {
    if n > 0 {
      SpacesAre(n - 1);
      assert Blanks(n) == Blanks(n - 1) + " ";
    }
  }

  lemma BreakIs(level: nat)
    ensures Pretty(level).Break() == Broken(level)
  {
    SpacesAre(2 * level);
  }

  lemma {:induction false} LinesLevel(j: Json, level: nat, colon: string)
    ensures Lines(j, level, colon)[0].level == level
    decreases j
  {
  }

  /** An opening and a closing bracket on lines of their own. */
  lemma Bracketed(level: nat, open: string, inner: seq<Line>, close: string)
    ensures var ls := [Line(level, open)] + inner + [Line(level, close)];
      && Stacked(ls) == open + More(inner) + Broken(level) + close
      && Flat(ls) == open + Flat(inner) + close
  {
    hide Broken;
    var last := Line(level, close);
    var ls := [Line(level, open)] + inner + [last];
    assert ls[1..] == inner + [last];
    MoreJoin(inner, [last]);
    MoreOne(last);
    assert Stacked(ls) == open + More(inner + [last]) && Flat(ls) == open + Flat(inner + [last]);
    hide More, Flat, Stacked;
    Regroup("", open, More(inner), Broken(level) + close);
    assert open + (More(inner) + (Broken(level) + close)) == open + More(inner) + Broken(level) + close;
  }

  // ----- pretty printing -----

  lemma {:induction false} PrettyText(j: Json, level: nat)
    ensures Text(j, Pretty(level)) == Stacked(Lines(j, level, ": "))
    decreases j
  {
    hide Broken, Quoted, Style.Break, ItemsText, MembersText, ItemLines, MemberLines, Stacked;
    var ls := Lines(j, level, ": ");
    match j
    case Prim(kind, text) => OneLine(ls[0]);
    case Arr(items) =>
      if items == [] {
        OneLine(ls[0]);
      } else {
        Bracketed(level, "[", ItemLines(items, level + 1, ": "), "]");
        PrettyItems(items, level);
        BreakIs(level);
      }
    case Obj(members) =>
      Bracketed(level, "{", MemberLines(members, level + 1, ": "), "}");
      PrettyMembers(members, level);
      BreakIs(level);
  }

  lemma {:induction false} PrettyItems(items: seq<Json>, level: nat)
    ensures ItemsText(items, Pretty(level)) == More(ItemLines(items, level + 1, ": "))
    decreases items
  {
    hide Broken, Text, Style.Break, Lines, Behind, Stacked;
    if items != [] {
      var first := Lines(items[0], level + 1, ": ");
      BreakIs(level + 1);
      PrettyText(items[0], level + 1);
      LinesLevel(items[0], level + 1, ": ");
      MoreFirst(first);
      if |items| > 1 {
        PrettyItems(items[1..], level);
        MoreBehind(first, ",");
        MoreJoin(Behind(first, ","), ItemLines(items[1..], level + 1, ": "));
      } else {
        assert items[1..] == [];
      }
    }
  }

  lemma {:induction false} PrettyMembers(members: seq<Member>, level: nat)
    ensures MembersText(members, Pretty(level)) == More(MemberLines(members, level + 1, ": "))
    decreases members
  {
    hide Broken, Text, Style.Break, Lines, Behind, Before, Stacked, Quoted;
    if members != [] {
      var m := members[0];
      var value, key := Lines(m.value, level + 1, ": "), Quoted(m.name) + ": ";
      var first := Before(key, value);
      PrettyText(m.value, level + 1);
      LinesLevel(m.value, level + 1, ": ");
      MoreBefore(key, value);
      MembersStep(members, level);
      if |members| > 1 {
        PrettyMembers(members[1..], level);
        MoreBehind(first, ",");
        MoreJoin(Behind(first, ","), MemberLines(members[1..], level + 1, ": "));
      }
    }
  }

  lemma MembersStep(members: seq<Member>, level: nat)
    requires members != []
    ensures var m := members[0]; var first := Broken(level + 1) + (Quoted(m.name) + ": ") + Text(m.value, Pretty(level + 1));
      MembersText(members, Pretty(level))
      == if |members| == 1 then first else first + "," + MembersText(members[1..], Pretty(level))
  {
    hide Broken, Text, Style.Break, Quoted;
    var m := members[0];
    BreakIs(level + 1);
    Regroup(Broken(level + 1), Quoted(m.name), ": ", Text(m.value, Pretty(level + 1)));
    assert |members| == 1 ==> members[1..] == [];
  }

  // ----- compact printing -----

  lemma {:induction false} CompactText(j: Json, level: nat)
    ensures Text(j, Compact) == Flat(Lines(j, level, ":"))
    decreases j
  {
    hide Quoted, ItemsText, MembersText, ItemLines, MemberLines, Broken, Stacked;
    var ls := Lines(j, level, ":");
    match j
    case Prim(kind, text) => MoreOne(ls[0]);
    case Arr(items) =>
      if items == [] {
        MoreOne(ls[0]);
      } else {
        Bracketed(level, "[", ItemLines(items, level + 1, ":"), "]");
        CompactItems(items, level);
      }
    case Obj(members) =>
      Bracketed(level, "{", MemberLines(members, level + 1, ":"), "}");
      CompactMembers(members, level);
  }

  lemma {:induction false} CompactItems(items: seq<Json>, level: nat)
    ensures ItemsText(items, Compact) == Flat(ItemLines(items, level + 1, ":"))
    decreases items
  {
    hide Text, Lines, Behind;
    if items != [] {
      var first := Lines(items[0], level + 1, ":");
      CompactText(items[0], level + 1);
      if |items| > 1 {
        CompactItems(items[1..], level);
        MoreBehind(first, ",");
        MoreJoin(Behind(first, ","), ItemLines(items[1..], level + 1, ":"));
      } else {
        assert items[1..] == [];
      }
    }
  }

  lemma {:induction false} CompactMembers(members: seq<Member>, level: nat)
    ensures MembersText(members, Compact) == Flat(MemberLines(members, level + 1, ":"))
    decreases members
  {
    hide Text, Lines, Behind, Before, Quoted;
    if members != [] {
      var m := members[0];
      var value, key := Lines(m.value, level + 1, ":"), Quoted(m.name) + ":";
      CompactText(m.value, level + 1);
      MoreBefore(key, value);
      if |members| > 1 {
        CompactMembers(members[1..], level);
        MoreBehind(Before(key, value), ",");
        MoreJoin(Behind(Before(key, value), ","), MemberLines(members[1..], level + 1, ":"));
      } else {
        assert members[1..] == [];
      }
    }
  }
}
