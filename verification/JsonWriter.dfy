/** The encoder, the decoder and the two writers of json.c, as they run. A writer sorts the children
    of every object it prints; each method returns the element as it is left. */
module JsonWriter {
  import opened JsonSpec
  import opened JsonRoundTrip
  import opened JsonCanon
  import opened Strings
  import opened Writers
  import SeqSort

  // ----- strings -----

  method EncodeChar(c: char, w: Writer)
    modifies w
    ensures w.data == old(w.data) + EncodedChar(c)
  {
    if c == '"' || c == '\\' {
      w.WriteChar('\\');
      w.WriteChar(c);
    } else if ShortEscape(c).Some? {
      w.WriteChar('\\');
      w.WriteChar(ShortEscape(c).value);
    } else if IsPrintableAscii(c) {
      w.WriteChar(c);
    } else {
      w.Write(UnicodeEscape(c));
    }
  }

  method EncodeStringWriter(s: string, w: Writer)
    modifies w
    ensures w.data == old(w.data) + Encoded(s)
  {
    hide EncodedChar;
    var c := s;
    while c != ""
      invariant w.data + Encoded(c) == old(w.data) + Encoded(s)
      decreases |c|
    {
      EncodedStep(c, w.data);
      EncodeChar(c[0], w);
      c := c[1..];
    }
    assert w.data + Encoded("") == w.data;
  }

  lemma EncodedStep(c: string, before: string)
    requires c != ""
    ensures before + Encoded(c) == before + EncodedChar(c[0]) + Encoded(c[1..])
  {
    hide EncodedChar;
    assert before + EncodedChar(c[0]) + Encoded(c[1..]) == before + (EncodedChar(c[0]) + Encoded(c[1..]));
  }

  lemma DecodedStep(c: string, before: string)
    requires c != ""
    ensures var (out, n) := DecodedHead(c); before + Decoded(c) == before + out + Decoded(c[n..])
  {
    hide ControlOf, HexByte;
    var (out, n) := DecodedHead(c);
    assert before + out + Decoded(c[n..]) == before + (out + Decoded(c[n..]));
  }

  method DecodeStringWriter(s: string, w: Writer)
    modifies w
    ensures w.data == old(w.data) + Decoded(s)
  {
    var c := s;
    while c != ""
      invariant w.data + Decoded(c) == old(w.data) + Decoded(s)
      decreases |c|
    {
      ghost var before := w.data;
      ghost var (out, n) := DecodedHead(c);
      var step := 1;
      DecodedStep(c, before);
      if c[0] == '\\' {
        if |c| > 1 && (c[1] == '"' || c[1] == '\\') {
          w.WriteChar(c[1]);
          step := 2;
        } else if |c| > 1 && ControlOf(c[1]).Some? {
          w.WriteChar(ControlOf(c[1]).value);
          step := 2;
        } else if |c| > 1 && c[1] == 'u' {
          if |c| > 2 && HexByte(c[2..]).Some? {
            w.Write(ByteText(HexByte(c[2..]).value));
            step := 6;
          }
        } else {
          w.WriteChar(c[0]);
        }
      } else {
        w.WriteChar(c[0]);
      }
      assert w.data == before + out && step == n;
      c := c[step..];
    }
    assert w.data + Decoded("") == w.data;
  }

  method PrintIndent(w: Writer, n: nat)
    modifies w
    ensures w.data == old(w.data) + Indent(n)
  {
    assert w.data + Spaces(0) == w.data;
    for i := 0 to n * SPACES_PER_INDENT
      invariant w.data == old(w.data) + Spaces(i)
    {
      w.WriteChar(' ');
      assert old(w.data) + Spaces(i) + [' '] == old(w.data) + Spaces(i + 1);
    }
  }

  method WriteQuoted(w: Writer, s: string)
    modifies w
    ensures w.data == old(w.data) + Quoted(s)
  {
    hide Encoded;
    w.WriteChar('"');
    EncodeStringWriter(s, w);
    w.WriteChar('"');
  }

  method PrimitiveWrite(w: Writer, kind: Kind, text: string, n: nat)
    modifies w
    ensures w.data == old(w.data) + Indent(n) + PrimText(kind, text)
  {
    hide Quoted, Indent;
    PrintIndent(w, n);
    if kind == StringKind {
      WriteQuoted(w, text);
    } else {
      w.Write(text);
    }
  }

  // ----- sorted children -----

  lemma {:induction false} CountUnique(s: seq<Member>, x: Member)
    requires UniqueNames(s)
    ensures multiset(s)[x] <= 1
    decreases |s|
  {
    if s != [] {
      assert s == [s[0]] + s[1..];
      CountUnique(s[1..], x);
      if x == s[0] {
        assert x !in s[1..];
        assert x !in multiset(s[1..]);
      }
    }
  }

  lemma UniquePermuted(s: seq<Member>, t: seq<Member>)
    requires UniqueNames(s) && multiset(s) == multiset(t)
    ensures UniqueNames(t)
    ensures forall x :: x in s <==> x in t
  {
    forall x ensures x in s <==> x in t {
      assert x in s <==> x in multiset(s);
      assert x in t <==> x in multiset(t);
    }
    forall i, j | 0 <= i < j < |t| ensures t[i].name != t[j].name {
      CountUnique(s, t[i]);
      if t[i] == t[j] {
        TwiceIn(t, i, j);
      } else {
        assert t[i] in s && t[j] in s;
        var a :| 0 <= a < |s| && s[a] == t[i];
        var b :| 0 <= b < |s| && s[b] == t[j];
      }
    }
  }

  lemma TwiceIn(t: seq<Member>, i: nat, j: nat)
    requires i < j < |t| && t[i] == t[j]
    ensures multiset(t)[t[i]] >= 2
  {
    assert t == t[..j] + t[j..];
    assert t[i] == t[..j][i];
    assert t[j] == t[j..][0];
    assert t[i] in multiset(t[..j]) && t[i] in multiset(t[j..]);
  }

  lemma SortedIncreasing(s: seq<Member>)
    requires SeqSort.Sorted(s, ByName) && UniqueNames(s)
    ensures Increasing(s)
  {
    forall i, j | 0 <= i < j < |s| ensures StrCmp(s[i].name, s[j].name) < 0 {
      assert ByName(s[i], s[j]) <= 0;
      StrCmpSign(s[i].name, s[j].name);
    }
  }

  /** The children of an object, sorted in place by their names. */
  method SortChildren(members: seq<Member>) returns (sorted: seq<Member>)
    requires UniqueNames(members)
    ensures Increasing(sorted) && forall x :: x in sorted <==> x in members
  {
    hide SeqSort.Comparator, SeqSort.Sorted, UniqueNames, Increasing;
    var a := new Member[|members|](i requires 0 <= i < |members| => members[i]);
    assert a[..] == members;
    ByNameIsComparator();
    SeqSort.Sort(a, ByName);
    sorted := a[..];
    UniquePermuted(members, sorted);
    SortedIncreasing(sorted);
  }

  /** Sorting the children and then printing each is printing the canonical form. */
  lemma CanonicalOfSorted(members: seq<Member>, sorted: seq<Member>)
    requires UniqueNames(members) && Increasing(sorted) && forall x :: x in sorted <==> x in members
    ensures CanonicalMembers(sorted) == SortMembers(CanonicalMembers(members))
  {
    hide Canonical;
    var cs, cm := CanonicalMembers(sorted), CanonicalMembers(members);
    SortHolds(cm);
    forall x ensures x in cs <==> x in cm {
      if x in cs {
        var i :| 0 <= i < |cs| && cs[i] == x;
        assert sorted[i] in members;
        var k :| 0 <= k < |members| && members[k] == sorted[i];
        assert cm[k] == x;
      }
      if x in cm {
        var i :| 0 <= i < |cm| && cm[i] == x;
        assert members[i] in sorted;
        var k :| 0 <= k < |sorted| && sorted[k] == members[i];
        assert cs[k] == x;
      }
    }
    IncreasingIsUnique(cs, SortMembers(cm));
  }

  // ----- what is still to be written -----

  /** The text of the items from `i` on and of what closes the array. */
  ghost function ItemsLeft(items: seq<Json>, i: nat, style: Style): string
    requires i <= |items|
  {
    ItemsText(items[i..], style) + (style.Break() + "]")
  }

  ghost function MembersLeft(members: seq<Member>, i: nat, style: Style): string
    requires i <= |members|
  {
    MembersText(members[i..], style) + (style.Break() + "}")
  }

  lemma ItemsLeftStep(items: seq<Json>, i: nat, style: Style)
    requires i < |items|
    ensures ItemsLeft(items, i, style)
         == style.Inner().Break() + Text(items[i], style.Inner()) + (if i == |items| - 1 then "" else ",")
            + ItemsLeft(items, i + 1, style)
  {
    hide Text, Style.Break;
    assert items[i..][1..] == items[i + 1..];
  }

  lemma MembersLeftStep(members: seq<Member>, i: nat, style: Style)
    requires i < |members|
    ensures MembersLeft(members, i, style)
         == style.Inner().Break() + Quoted(members[i].name) + style.Colon() + Text(members[i].value, style.Inner())
            + (if i == |members| - 1 then "" else ",") + MembersLeft(members, i + 1, style)
  {
    hide Text, Style.Break, Quoted;
    assert members[i..][1..] == members[i + 1..];
  }

  /** In the pretty style every remaining text begins with a line feed, which the writer has already
      written. */
  lemma LeftBreaks(items: seq<Json>, members: seq<Member>, i: nat, n: nat)
    ensures i <= |items| ==> "\n" <= ItemsLeft(items, i, Pretty(n))
    ensures i <= |members| ==> "\n" <= MembersLeft(members, i, Pretty(n))
  {
    hide Text, Quoted;
    if i < |items| {
      ItemsLeftStep(items, i, Pretty(n));
    }
    if i < |members| {
      MembersLeftStep(members, i, Pretty(n));
    }
  }

  /** One element's share of the text that is left, when the line feed before it is out already. */
  lemma Handover(before: string, indent: string, mid: string, comma: string, left: string)
    requires "\n" <= left
    ensures before + indent + mid + (comma + "\n") + left[1..]
         == before + ("\n" + indent + mid + comma + left)[1..]
  {
    assert left == "\n" + left[1..];
    assert ("\n" + indent + mid + comma + left)[1..] == indent + mid + comma + left;
    assert before + indent + mid + (comma + "\n") + left[1..] == before + (indent + mid + (comma + ("\n" + left[1..])));
  }

  lemma Grouped(a: string, b: string, c: string, d: string)
    ensures a + (b + c + d) == a + b + c + d
  {
  }

  // ----- pretty -----

  method ArrayWrite(w: Writer, items: seq<Json>, n: nat) returns (left: seq<Json>)
    requires forall i :: 0 <= i < |items| ==> Unique(items[i])
    modifies w
    ensures left == CanonicalItems(items)
    ensures w.data == old(w.data) + Text(Arr(left), Pretty(n))
    decreases items, 1
  {
    hide Unique, Canonical, ItemsLeft, Indent, Text;
    if |items| == 0 {
      w.Write("[]");
      EmptyArrayText(n);
      return [];
    }
    w.Write("[\n");
    ArrayStart(CanonicalItems(items), n, old(w.data));
    left := ItemsWrite(w, items, n);
    PrintIndent(w, n);
    w.WriteChar(']');
    LeftEnds(left, [], n);
  }

  /** The loop over an array's children. */
  method ItemsWrite(w: Writer, items: seq<Json>, n: nat) returns (left: seq<Json>)
    requires forall i :: 0 <= i < |items| ==> Unique(items[i])
    modifies w
    ensures left == CanonicalItems(items)
    ensures "\n" <= ItemsLeft(left, 0, Pretty(n)) && "\n" <= ItemsLeft(left, |left|, Pretty(n))
    ensures w.data + ItemsLeft(left, |left|, Pretty(n))[1..] == old(w.data) + ItemsLeft(left, 0, Pretty(n))[1..]
    decreases items, 0
  {
    hide Unique, Canonical, ItemsLeft, Indent, Text;
    ghost var cs := CanonicalItems(items);
    left := [];
    LeftBreaks(cs, [], 0, n);
    for i := 0 to |items|
      invariant left == cs[..i]
      invariant "\n" <= ItemsLeft(cs, i, Pretty(n))
      invariant w.data + ItemsLeft(cs, i, Pretty(n))[1..] == old(w.data) + ItemsLeft(cs, 0, Pretty(n))[1..]
    {
      ghost var before := w.data;
      var child := ArrayChildWrite(w, items[i], n + 1);
      left := left + [child];
      w.Write(if i < |items| - 1 then ",\n" else "\n");
      ArrayStep(cs, i, n, before, w.data);
    }
  }

  lemma EmptyArrayText(n: nat)
    ensures Text(Arr([]), Pretty(n)) == Text(Arr([]), Compact) == "[]"
  {
  }

  lemma ArrayStart(cs: seq<Json>, n: nat, before: string)
    requires cs != []
    ensures "\n" <= ItemsLeft(cs, 0, Pretty(n))
    ensures before + "[\n" + ItemsLeft(cs, 0, Pretty(n))[1..] == before + Text(Arr(cs), Pretty(n))
  {
    hide Style.Break;
    LeftBreaks(cs, [], 0, n);
    assert cs[0..] == cs;
    var t := ItemsLeft(cs, 0, Pretty(n));
    assert t == "\n" + t[1..];
    assert Text(Arr(cs), Pretty(n)) == "[" + t;
  }

  lemma ArrayStep(cs: seq<Json>, i: nat, n: nat, before: string, after: string)
    requires i < |cs|
    requires after == before + Indent(n + 1) + Text(cs[i], Pretty(n + 1)) + (if i < |cs| - 1 then ",\n" else "\n")
    ensures "\n" <= ItemsLeft(cs, i, Pretty(n)) && "\n" <= ItemsLeft(cs, i + 1, Pretty(n))
    ensures after + ItemsLeft(cs, i + 1, Pretty(n))[1..] == before + ItemsLeft(cs, i, Pretty(n))[1..]
  {
    hide ItemsLeft, Text, Indent;
    LeftBreaks(cs, [], i, n);
    LeftBreaks(cs, [], i + 1, n);
    ItemsLeftStep(cs, i, Pretty(n));
    var comma := if i < |cs| - 1 then "," else "";
    assert comma + "\n" == if i < |cs| - 1 then ",\n" else "\n";
    Handover(before, Indent(n + 1), Text(cs[i], Pretty(n + 1)), comma, ItemsLeft(cs, i + 1, Pretty(n)));
  }

  /** What is left at the end: the closing bracket on its own line. */
  lemma LeftEnds(items: seq<Json>, members: seq<Member>, n: nat)
    ensures ItemsLeft(items, |items|, Pretty(n)) == "\n" + (Indent(n) + "]")
    ensures MembersLeft(members, |members|, Pretty(n)) == "\n" + (Indent(n) + "}")
  {
    assert items[|items|..] == [] && members[|members|..] == [];
  }

  /** A child of an array on its own line. */
  method ArrayChildWrite(w: Writer, child: Json, n: nat) returns (left: Json)
    requires Unique(child)
    modifies w
    ensures left == Canonical(child)
    ensures w.data == old(w.data) + Indent(n) + Text(left, Pretty(n))
    decreases child, 2
  {
    hide Indent, Unique;
    if child.Prim? {
      PrimitiveWrite(w, child.kind, child.text, n);
      left := child;
    } else {
      PrintIndent(w, n);
      left := ContainerWrite(w, child, n);
    }
  }

  /** A child of an object after its key. */
  method ObjectChildWrite(w: Writer, child: Json, n: nat) returns (left: Json)
    requires Unique(child)
    modifies w
    ensures left == Canonical(child)
    ensures w.data == old(w.data) + Text(left, Pretty(n))
    decreases child, 2
  {
    hide Unique;
    if child.Prim? {
      PrimitiveWrite(w, child.kind, child.text, 0);
      NoIndent();
      assert old(w.data) + Indent(0) == old(w.data);
      left := child;
    } else {
      left := ContainerWrite(w, child, n);
    }
  }

  lemma NoIndent()
    ensures Indent(0) == ""
  {
  }

  method ObjectWrite(w: Writer, members: seq<Member>, n: nat) returns (left: seq<Member>)
    requires UniqueNames(members) && forall i :: 0 <= i < |members| ==> Unique(members[i].value)
    modifies w
    ensures left == SortMembers(CanonicalMembers(members))
    ensures w.data == old(w.data) + Text(Obj(left), Pretty(n))
    decreases members, 1
  {
    hide Unique, UniqueNames, Canonical, MembersLeft, Indent, Text, Quoted, Increasing;
    w.Write("{\n");
    var sorted := SortChildren(members);
    CanonicalOfSorted(members, sorted);
    ObjectStart(CanonicalMembers(sorted), n, old(w.data));
    left := MembersWrite(w, sorted, n, members);
    PrintIndent(w, n);
    w.WriteChar('}');
    LeftEnds([], left, n);
  }

  /** The loop over an object's sorted children. */
  method MembersWrite(w: Writer, sorted: seq<Member>, n: nat, ghost members: seq<Member>) returns (left: seq<Member>)
    requires forall i :: 0 <= i < |members| ==> Unique(members[i].value)
    requires forall x :: x in sorted ==> x in members
    modifies w
    ensures left == CanonicalMembers(sorted)
    ensures "\n" <= MembersLeft(left, 0, Pretty(n)) && "\n" <= MembersLeft(left, |left|, Pretty(n))
    ensures w.data + MembersLeft(left, |left|, Pretty(n))[1..] == old(w.data) + MembersLeft(left, 0, Pretty(n))[1..]
    decreases members, 0
  {
    hide Unique, Canonical, MembersLeft, Indent, Text, Quoted;
    ghost var cs := CanonicalMembers(sorted);
    left := [];
    LeftBreaks([], cs, 0, n);
    for i := 0 to |sorted|
      invariant left == cs[..i]
      invariant "\n" <= MembersLeft(cs, i, Pretty(n))
      invariant w.data + MembersLeft(cs, i, Pretty(n))[1..] == old(w.data) + MembersLeft(cs, 0, Pretty(n))[1..]
    {
      ghost var before := w.data;
      assert sorted[i] in members;
      var child := MemberWrite(w, sorted[i], n + 1, i < |sorted| - 1);
      left := left + [child];
      ObjectStep(cs, i, n, before, w.data);
    }
  }

  /** A member of an object on its own line. */
  method MemberWrite(w: Writer, m: Member, n: nat, more: bool) returns (left: Member)
    requires Unique(m.value)
    modifies w
    ensures left == Member(m.name, Canonical(m.value))
    ensures w.data == old(w.data) + Indent(n) + (Quoted(m.name) + ": " + Text(left.value, Pretty(n)))
                      + (if more then ",\n" else "\n")
    decreases m, 3
  {
    hide Unique, Canonical, Indent, Text, Quoted;
    PrintIndent(w, n);
    ghost var before := w.data;
    WriteQuoted(w, m.name);
    w.Write(": ");
    var child := ObjectChildWrite(w, m.value, n);
    assert w.data == before + (Quoted(m.name) + ": " + Text(child, Pretty(n)));
    if more {
      w.WriteChar(',');
    }
    w.Write("\n");
    left := Member(m.name, child);
  }

  lemma ObjectStart(cs: seq<Member>, n: nat, before: string)
    ensures "\n" <= MembersLeft(cs, 0, Pretty(n))
    ensures before + "{\n" + MembersLeft(cs, 0, Pretty(n))[1..] == before + Text(Obj(cs), Pretty(n))
  {
    hide Style.Break;
    LeftBreaks([], cs, 0, n);
    assert cs[0..] == cs;
    var t := MembersLeft(cs, 0, Pretty(n));
    assert t == "\n" + t[1..];
    assert Text(Obj(cs), Pretty(n)) == "{" + t;
  }

  lemma ObjectStep(cs: seq<Member>, i: nat, n: nat, before: string, after: string)
    requires i < |cs|
    requires after == before + Indent(n + 1) + (Quoted(cs[i].name) + ": " + Text(cs[i].value, Pretty(n + 1)))
                      + (if i < |cs| - 1 then ",\n" else "\n")
    ensures "\n" <= MembersLeft(cs, i, Pretty(n)) && "\n" <= MembersLeft(cs, i + 1, Pretty(n))
    ensures after + MembersLeft(cs, i + 1, Pretty(n))[1..] == before + MembersLeft(cs, i, Pretty(n))[1..]
  {
    hide MembersLeft, Text, Indent, Quoted;
    LeftBreaks([], cs, i, n);
    LeftBreaks([], cs, i + 1, n);
    MembersLeftStep(cs, i, Pretty(n));
    var comma := if i < |cs| - 1 then "," else "";
    var indent, key, text := Indent(n + 1), Quoted(cs[i].name), Text(cs[i].value, Pretty(n + 1));
    assert comma + "\n" == if i < |cs| - 1 then ",\n" else "\n";
    Handover(before, indent, key + ": " + text, comma, MembersLeft(cs, i + 1, Pretty(n)));
    Grouped("\n" + indent, key, ": ", text);
  }

  method ContainerWrite(w: Writer, j: Json, n: nat) returns (left: Json)
    requires Unique(j) && !j.Prim?
    modifies w
    ensures left == Canonical(j)
    ensures w.data == old(w.data) + Text(left, Pretty(n))
    decreases j, 1
  {
    match j
    case Arr(items) =>
      var children := ArrayWrite(w, items, n);
      left := Arr(children);
    case Obj(members) =>
      var children := ObjectWrite(w, members, n);
      left := Obj(children);
  }

  /** JsonWrite. */
  method Write(w: Writer, j: Json, n: nat) returns (left: Json)
    requires Unique(j)
    modifies w
    ensures left == Canonical(j)
    ensures w.data == old(w.data) + Printed(j, Pretty(n))
  {
    hide Text, Indent, Unique;
    if j.Prim? {
      PrimitiveWrite(w, j.kind, j.text, n);
      PrimPrinted(j, Pretty(n));
      left := j;
    } else {
      left := ContainerWrite(w, j, n);
      PrimPrinted(j, Pretty(n));
    }
  }

  lemma PrimPrinted(j: Json, style: Style)
    ensures j.Prim? ==> Canonical(j) == j && Text(j, style) == PrimText(j.kind, j.text)
    ensures !j.Prim? || style == Compact ==> Printed(j, style) == Text(Canonical(j), style)
  {
    hide Indent;
    assert "" + Text(Canonical(j), style) == Text(Canonical(j), style);
  }

  // ----- compact -----

  method ArrayWriteCompact(w: Writer, items: seq<Json>) returns (left: seq<Json>)
    requires forall i :: 0 <= i < |items| ==> Unique(items[i])
    modifies w
    ensures left == CanonicalItems(items)
    ensures w.data == old(w.data) + Text(Arr(left), Compact)
    decreases items, 1
  {
    hide Unique, Canonical, ItemsLeft, Text;
    if |items| == 0 {
      w.Write("[]");
      EmptyArrayText(0);
      return [];
    }
    w.Write("[");
    CompactStart(CanonicalItems(items), [], old(w.data));
    left := ItemsWriteCompact(w, items);
    w.WriteChar(']');
    CompactEnds(left, []);
  }

  method ItemsWriteCompact(w: Writer, items: seq<Json>) returns (left: seq<Json>)
    requires forall i :: 0 <= i < |items| ==> Unique(items[i])
    modifies w
    ensures left == CanonicalItems(items)
    ensures w.data + ItemsLeft(left, |left|, Compact) == old(w.data) + ItemsLeft(left, 0, Compact)
    decreases items, 0
  {
    hide Unique, Canonical, ItemsLeft, Text;
    ghost var cs := CanonicalItems(items);
    left := [];
    for i := 0 to |items|
      invariant left == cs[..i]
      invariant w.data + ItemsLeft(cs, i, Compact) == old(w.data) + ItemsLeft(cs, 0, Compact)
    {
      ghost var before := w.data;
      var child := ChildWriteCompact(w, items[i]);
      left := left + [child];
      if i < |items| - 1 {
        w.Write(",");
      }
      CompactArrayStep(cs, i, before, w.data);
    }
  }

  lemma CompactStart(items: seq<Json>, members: seq<Member>, before: string)
    ensures items != [] ==> before + "[" + ItemsLeft(items, 0, Compact) == before + Text(Arr(items), Compact)
    ensures before + "{" + MembersLeft(members, 0, Compact) == before + Text(Obj(members), Compact)
  {
    assert items[0..] == items && members[0..] == members;
    if items != [] {
      assert Text(Arr(items), Compact) == "[" + ItemsLeft(items, 0, Compact);
    }
    assert Text(Obj(members), Compact) == "{" + MembersLeft(members, 0, Compact);
  }

  lemma CompactArrayStep(cs: seq<Json>, i: nat, before: string, after: string)
    requires i < |cs|
    requires after == before + Text(cs[i], Compact) + (if i < |cs| - 1 then "," else "")
    ensures after + ItemsLeft(cs, i + 1, Compact) == before + ItemsLeft(cs, i, Compact)
  {
    hide ItemsLeft, Text;
    ItemsLeftStep(cs, i, Compact);
    assert "" + Text(cs[i], Compact) == Text(cs[i], Compact);
  }

  lemma CompactEnds(items: seq<Json>, members: seq<Member>)
    ensures ItemsLeft(items, |items|, Compact) == "]" && MembersLeft(members, |members|, Compact) == "}"
  {
    assert items[|items|..] == [] && members[|members|..] == [];
  }

  method ChildWriteCompact(w: Writer, child: Json) returns (left: Json)
    requires Unique(child)
    modifies w
    ensures left == Canonical(child)
    ensures w.data == old(w.data) + Text(left, Compact)
    decreases child, 2
  {
    hide Unique;
    if child.Prim? {
      PrimitiveWrite(w, child.kind, child.text, 0);
      NoIndent();
      assert old(w.data) + Indent(0) == old(w.data);
      left := child;
    } else {
      left := ContainerWriteCompact(w, child);
    }
  }

  method ObjectWriteCompact(w: Writer, members: seq<Member>) returns (left: seq<Member>)
    requires UniqueNames(members) && forall i :: 0 <= i < |members| ==> Unique(members[i].value)
    modifies w
    ensures left == SortMembers(CanonicalMembers(members))
    ensures w.data == old(w.data) + Text(Obj(left), Compact)
    decreases members, 1
  {
    hide Unique, UniqueNames, Canonical, MembersLeft, Text, Increasing;
    w.Write("{");
    var sorted := SortChildren(members);
    CanonicalOfSorted(members, sorted);
    CompactStart([], CanonicalMembers(sorted), old(w.data));
    left := MembersWriteCompact(w, sorted, members);
    w.WriteChar('}');
    CompactEnds([], left);
  }

  method MembersWriteCompact(w: Writer, sorted: seq<Member>, ghost members: seq<Member>) returns (left: seq<Member>)
    requires forall i :: 0 <= i < |members| ==> Unique(members[i].value)
    requires forall x :: x in sorted ==> x in members
    modifies w
    ensures left == CanonicalMembers(sorted)
    ensures w.data + MembersLeft(left, |left|, Compact) == old(w.data) + MembersLeft(left, 0, Compact)
    decreases members, 0
  {
    hide Unique, Canonical, MembersLeft, Text, Quoted;
    ghost var cs := CanonicalMembers(sorted);
    left := [];
    for i := 0 to |sorted|
      invariant left == cs[..i]
      invariant w.data + MembersLeft(cs, i, Compact) == old(w.data) + MembersLeft(cs, 0, Compact)
    {
      ghost var before := w.data;
      assert sorted[i] in members;
      var child := MemberWriteCompact(w, sorted[i], i < |sorted| - 1);
      left := left + [child];
      CompactObjectStep(cs, i, before, w.data);
    }
  }

  method MemberWriteCompact(w: Writer, m: Member, more: bool) returns (left: Member)
    requires Unique(m.value)
    modifies w
    ensures left == Member(m.name, Canonical(m.value))
    ensures w.data == old(w.data) + Quoted(m.name) + ":" + Text(left.value, Compact) + (if more then "," else "")
    decreases m, 3
  {
    hide Unique, Canonical, Text, Quoted;
    WriteQuoted(w, m.name);
    w.Write(":");
    var child := ChildWriteCompact(w, m.value);
    if more {
      w.WriteChar(',');
    }
    left := Member(m.name, child);
  }

  lemma CompactObjectStep(cs: seq<Member>, i: nat, before: string, after: string)
    requires i < |cs|
    requires after == before + Quoted(cs[i].name) + ":" + Text(cs[i].value, Compact)
                      + (if i < |cs| - 1 then "," else "")
    ensures after + MembersLeft(cs, i + 1, Compact) == before + MembersLeft(cs, i, Compact)
  {
    hide MembersLeft, Text, Quoted;
    MembersLeftStep(cs, i, Compact);
    assert "" + Quoted(cs[i].name) == Quoted(cs[i].name);
  }

  method ContainerWriteCompact(w: Writer, j: Json) returns (left: Json)
    requires Unique(j) && !j.Prim?
    modifies w
    ensures left == Canonical(j)
    ensures w.data == old(w.data) + Text(left, Compact)
    decreases j, 1
  {
    match j
    case Arr(items) =>
      var children := ArrayWriteCompact(w, items);
      left := Arr(children);
    case Obj(members) =>
      var children := ObjectWriteCompact(w, members);
      left := Obj(children);
  }

  /** JsonWriteCompact. */
  method WriteCompact(w: Writer, j: Json) returns (left: Json)
    requires Unique(j)
    modifies w
    ensures left == Canonical(j)
    ensures w.data == old(w.data) + Printed(j, Compact)
  {
    hide Text, Unique;
    left := ChildWriteCompact(w, j);
    PrimPrinted(j, Compact);
  }
}
