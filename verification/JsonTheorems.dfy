/** The round trip of whole documents, exactly when it is the identity, and what the parser yields. */
module JsonTheorems {
  import opened JsonSpec
  import opened JsonStrings
  import opened JsonRoundTrip
  import opened JsonCanon
  import opened Strings

  // ----- when reading back changes nothing -----

  /** Every string value and every key is one that survives. */
  predicate Faithful(j: Json)
    decreases j
  {
    match j
    case Prim(kind, text) => kind == StringKind ==> SafeValue(text)
    case Arr(items) => forall i :: 0 <= i < |items| ==> Faithful(items[i])
    case Obj(members) =>
      forall i :: 0 <= i < |members| ==> CleanKey(members[i].name) && Faithful(members[i].value)
  }

  lemma {:induction false} RemoveKeyAbsent(members: seq<Member>, name: string)
    ensures |RemoveKey(members, name)| == |members| <==> forall x :: x in members ==> x.name != name
    ensures |RemoveKey(members, name)| == |members| ==> RemoveKey(members, name) == members
    decreases |members|
  {
    if members != [] {
      assert members == [members[0]] + members[1..];
      RemoveKeyAbsent(members[1..], name);
    }
  }

  /** A member as it comes back, before its key replaces an equal one. */
  function BackMember(m: Member): Member { Member(Kept(m.name), Back(m.value)) }

  /** Members that collide after their keys were read get lost, so only a full count leaves every
      member in its place. */
  lemma {:induction false} BackCount(done: seq<Member>, members: seq<Member>)
    ensures |BackMembers(done, members)| <= |done| + |members|
    ensures |BackMembers(done, members)| == |done| + |members| ==>
      && BackMembers(done, members)[..|done|] == done
      && forall i :: 0 <= i < |members| ==> BackMembers(done, members)[|done| + i] == BackMember(members[i])
    decreases |members|
  {
    hide Kept, Back;
    if members != [] {
      var m := BackMember(members[0]);
      var next := Appended(done, m.name, m.value);
      RemoveKeyAbsent(done, m.name);
      BackCount(next, members[1..]);
      var r := BackMembers(done, members);
      if |r| == |done| + |members| {
        assert next == done + [m];
        assert r[..|next|] == next;
        assert r[..|done|] == r[..|next|][..|done|] == done;
        assert r[|done|] == r[..|next|][|done|] == m;
        forall i | 1 <= i < |members| ensures r[|done| + i] == BackMember(members[i]) {
          assert r[|next| + (i - 1)] == BackMember(members[1..][i - 1]);
        }
      }
    }
  }

  lemma {:induction false} BackSame(done: seq<Member>, members: seq<Member>)
    requires UniqueNames(done + members)
    requires forall i :: 0 <= i < |members| ==> BackMember(members[i]) == members[i]
    ensures BackMembers(done, members) == done + members
    decreases |members|
  {
    if members == [] {
      assert done + members == done;
    } else {
      RemoveKeyAbsent(done, members[0].name);
      forall x | x in done ensures x.name != members[0].name {
        var i :| 0 <= i < |done| && done[i] == x;
        assert (done + members)[i] == x && (done + members)[|done|] == members[0];
      }
      assert done + members == done + [members[0]] + members[1..];
      BackSame(done + [members[0]], members[1..]);
    }
  }

  lemma {:induction false} BackIff(j: Json)
    requires Valid(j)
    ensures Back(j) == j <==> Faithful(j)
    decreases j
  {
    match j
    case Prim(kind, text) =>
      if kind == StringKind {
        ValueRoundTrip(text);
      }
    case Arr(items) => BackItemsIff(items);
    case Obj(members) =>
      forall i | 0 <= i < |members|
        ensures BackMember(members[i]) == members[i]
           <==> CleanKey(members[i].name) && Faithful(members[i].value)
      {
        KeptIff(members[i].name);
        BackIff(members[i].value);
      }
      BackCount([], members);
      if Faithful(j) {
        assert [] + members == members;
        BackSame([], members);
      }
  }

  lemma {:induction false} BackItemsIff(items: seq<Json>)
    requires forall i :: 0 <= i < |items| ==> Valid(items[i])
    ensures BackItems(items) == items <==> forall i :: 0 <= i < |items| ==> Faithful(items[i])
    decreases items
  {
    if items != [] {
      assert items == [items[0]] + items[1..];
      BackIff(items[0]);
      BackItemsIff(items[1..]);
      assert forall i :: 1 <= i < |items| ==> items[i] == items[1..][i - 1];
      assert BackItems(items)[1..] == BackItems(items[1..]);
    }
  }

  // ----- sorting changes neither condition -----

  lemma {:induction false} CanonicalValid(j: Json)
    requires Valid(j)
    ensures Valid(Canonical(j)) && (Faithful(Canonical(j)) <==> Faithful(j))
    decreases j
  {
    match j
    case Prim(_, _) =>
    case Arr(items) =>
      forall i | 0 <= i < |items|
        ensures Valid(Canonical(items[i])) && (Faithful(Canonical(items[i])) <==> Faithful(items[i]))
      {
        CanonicalValid(items[i]);
      }
    case Obj(members) =>
      forall i | 0 <= i < |members|
        ensures Valid(Canonical(members[i].value))
        ensures Faithful(Canonical(members[i].value)) <==> Faithful(members[i].value)
      {
        CanonicalValid(members[i].value);
      }
      SortedMembers(members);
  }

  ghost predicate GoodMember(m: Member) { Bytes(m.name) && Valid(m.value) }

  ghost predicate FaithfulMember(m: Member) { CleanKey(m.name) && Faithful(m.value) }

  lemma SortedMembers(members: seq<Member>)
    requires UniqueNames(members)
    requires forall i :: 0 <= i < |members| ==>
      GoodMember(members[i]) && Valid(Canonical(members[i].value))
      && (Faithful(Canonical(members[i].value)) <==> Faithful(members[i].value))
    ensures Valid(Canonical(Obj(members)))
    ensures Faithful(Canonical(Obj(members))) <==> Faithful(Obj(members))
  {
    hide Valid, Faithful, Canonical, CleanKey, Bytes, UniqueNames;
    var cs := CanonicalMembers(members);
    var ss := SortMembers(cs);
    assert UniqueNames(cs) && Canonical(Obj(members)) == Obj(ss) by {
      SameNames(members, cs);
    }
    SortHolds(cs);
    IncreasingUnique(ss);
    forall k | 0 <= k < |ss| ensures GoodMember(ss[k]) {
      assert ss[k] in cs;
      var i :| 0 <= i < |cs| && cs[i] == ss[k];
    }
    ValidMembers(ss);
    FaithfulMembers(ss);
    FaithfulMembers(members);
    if forall i :: 0 <= i < |members| ==> FaithfulMember(members[i]) {
      forall k | 0 <= k < |ss| ensures FaithfulMember(ss[k]) {
        assert ss[k] in cs;
        var i :| 0 <= i < |cs| && cs[i] == ss[k];
      }
    }
    if forall k :: 0 <= k < |ss| ==> FaithfulMember(ss[k]) {
      forall i | 0 <= i < |members| ensures FaithfulMember(members[i]) {
        assert cs[i] in ss;
        var k :| 0 <= k < |ss| && ss[k] == cs[i];
      }
    }
  }

  lemma SameNames(members: seq<Member>, cs: seq<Member>)
    requires UniqueNames(members) && cs == CanonicalMembers(members)
    ensures UniqueNames(cs) && Canonical(Obj(members)) == Obj(SortMembers(cs))
  {
  }

  lemma ValidMembers(members: seq<Member>)
    ensures Valid(Obj(members)) <==>
      UniqueNames(members) && forall i :: 0 <= i < |members| ==> GoodMember(members[i])
  {
  }

  lemma FaithfulMembers(members: seq<Member>)
    ensures Faithful(Obj(members)) <==> forall i :: 0 <= i < |members| ==> FaithfulMember(members[i])
  {
  }

  lemma IncreasingUnique(ms: seq<Member>)
    requires Increasing(ms)
    ensures UniqueNames(ms)
  {
    forall i, j | 0 <= i < j < |ms| ensures ms[i].name != ms[j].name {
      StrCmpSign(ms[i].name, ms[j].name);
    }
  }

  lemma {:induction false} ValidIsUnique(j: Json)
    requires Valid(j)
    ensures Unique(j)
    decreases j
  {
    match j
    case Prim(_, _) =>
    case Arr(items) =>
      forall i | 0 <= i < |items| ensures Unique(items[i]) {
        ValidIsUnique(items[i]);
      }
    case Obj(members) =>
      forall i | 0 <= i < |members| ensures Unique(members[i].value) {
        ValidIsUnique(members[i].value);
      }
  }

  // ----- the round trip -----

  lemma {:induction false} ParseSkips(blank: string, data: string)
    requires AllBlank(blank)
    ensures Parse(blank + data) == Parse(data)
    decreases |blank|
  {
    if blank == "" {
      assert blank + data == data;
    } else {
      assert (blank + data)[1..] == blank[1..] + data;
      ParseSkips(blank[1..], data);
    }
  }

  /** The text of either printer, at any indentation, is read to its end and gives the element with
      the members of its objects in key order. It is that element unchanged if and only if every
      string value and every key in it survives. */
  lemma RoundTrip(j: Json, style: Style)
    requires Valid(j)
    ensures ParseAll(Printed(j, style)) == Ok(Back(Canonical(j)), "")
    ensures ParseAll(Printed(j, style)) == Ok(Canonical(j), "") <==> Faithful(j)
  {
    hide ParseValue, Text, Valid, Faithful, Canonical, Back;
    CanonicalValid(j);
    var c := Canonical(j);
    Reads(c, style, "");
    assert Text(c, style) + "" == Text(c, style);
    var blank := if j.Prim? && style.Pretty? then Indent(style.level) else "";
    assert AllBlank(blank) by {
      if blank != "" {
        SpacesAreBlank(style.level * SPACES_PER_INDENT);
      }
    }
    ParseSkips(blank, Text(c, style));
    BackIff(c);
  }

  /** Two elements whose strings survive print the same text exactly when they differ only in the
      order of members. */
  lemma SameTextIff(a: Json, b: Json, style: Style)
    requires Valid(a) && Valid(b) && Faithful(a) && Faithful(b)
    ensures Printed(a, style) == Printed(b, style) <==> SameUpToOrder(a, b)
  {
    hide Valid, Faithful, Printed, ParseAll, SameUpToOrder;
    ValidIsUnique(a);
    ValidIsUnique(b);
    RoundTrip(a, style);
    RoundTrip(b, style);
    CanonicalIff(a, b);
    if SameUpToOrder(a, b) {
      CanonicalPrinting(a, b, style);
    }
  }
}
