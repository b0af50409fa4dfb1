/** The order of keys, the form that no longer depends on the order of members, and JsonCompare. */
module JsonCanon {
  import opened JsonSpec
  import opened JsonRoundTrip
  import opened Strings
  import SeqSort

  // ----- the order of keys -----

  function ByName(a: Member, b: Member): int { StrCmp(a.name, b.name) }

  lemma ByNameIsComparator()
    ensures SeqSort.Comparator(ByName)
  {
    forall a: Member, b: Member ensures ByName(a, b) <= 0 <==> ByName(b, a) >= 0 {
      StrCmpSign(a.name, b.name);
    }
    forall a: Member, b: Member, c: Member | ByName(a, b) <= 0 && ByName(b, c) <= 0 ensures ByName(a, c) <= 0 {
      StrCmpTransitive(a.name, b.name, c.name);
    }
  }

  // ----- sorted members -----

  ghost predicate Increasing(ms: seq<Member>) {
    forall i, j :: 0 <= i < j < |ms| ==> StrCmp(ms[i].name, ms[j].name) < 0
  }

  function Insert(m: Member, ms: seq<Member>): (r: seq<Member>)
    ensures |r| == |ms| + 1
  {
    if ms == [] then [m]
    else if StrCmp(m.name, ms[0].name) <= 0 then [m] + ms
    else [ms[0]] + Insert(m, ms[1..])
  }

  function SortMembers(ms: seq<Member>): (r: seq<Member>)
    ensures |r| == |ms|
  {
    if ms == [] then [] else Insert(ms[0], SortMembers(ms[1..]))
  }

  lemma {:induction false} InsertHolds(m: Member, ms: seq<Member>)
    requires Increasing(ms) && forall x :: x in ms ==> x.name != m.name
    ensures Increasing(Insert(m, ms))
    ensures forall x :: x in Insert(m, ms) <==> x == m || x in ms
    decreases |ms|
  {
    if ms != [] {
      StrCmpSign(m.name, ms[0].name);
      assert ms == [ms[0]] + ms[1..];
      if StrCmp(m.name, ms[0].name) <= 0 {
        InsertFront(m, ms);
      } else {
        InsertHolds(m, ms[1..]);
        forall x | x in Insert(m, ms[1..]) ensures StrCmp(ms[0].name, x.name) < 0 {
          StrCmpSign(ms[0].name, x.name);
        }
      }
    }
  }

  lemma InsertFront(m: Member, ms: seq<Member>)
    requires ms != [] && Increasing(ms) && StrCmp(m.name, ms[0].name) < 0
    ensures Increasing([m] + ms)
  {
    var r := [m] + ms;
    forall i, j | 0 <= i < j < |r| ensures StrCmp(r[i].name, r[j].name) < 0 {
      if i == 0 {
        if j > 1 {
          StrCmpTransitive(m.name, ms[0].name, r[j].name);
        }
        StrCmpSign(m.name, r[j].name);
        if m.name == r[j].name {
          StrCmpSign(ms[0].name, r[j].name);
        }
      }
    }
  }

  /** Sorting keeps the members and puts their names in increasing order. */
  lemma {:induction false} SortHolds(ms: seq<Member>)
    requires UniqueNames(ms)
    ensures Increasing(SortMembers(ms))
    ensures forall x :: x in SortMembers(ms) <==> x in ms
    decreases |ms|
  {
    if ms != [] {
      assert ms == [ms[0]] + ms[1..];
      SortHolds(ms[1..]);
      InsertHolds(ms[0], SortMembers(ms[1..]));
    }
  }

  /** Only one sequence has given members in increasing order of names. */
  lemma {:induction false} IncreasingIsUnique(s: seq<Member>, t: seq<Member>)
    requires Increasing(s) && Increasing(t)
    requires forall x :: x in s <==> x in t
    ensures s == t
    decreases |s|
  {
    if s == [] {
      HeadIsIn(t);
    } else {
      assert s[0] in t;
      assert t != [];
      assert t[0] in s;
      SameHead(s, t);
      assert s == [s[0]] + s[1..] && t == [t[0]] + t[1..];
      forall x ensures x in s[1..] <==> x in t[1..] {
        StrCmpSign(s[0].name, s[0].name);
        if x in s[1..] { assert x in s && x != s[0]; }
        if x in t[1..] { assert x in t && x != t[0]; }
      }
      IncreasingIsUnique(s[1..], t[1..]);
    }
  }

  lemma HeadIsIn(t: seq<Member>)
    ensures t == [] || exists x :: x in t
  {
    if t != [] {
      assert t[0] in t;
    }
  }

  lemma SameHead(s: seq<Member>, t: seq<Member>)
    requires Increasing(s) && Increasing(t) && s != [] && t != [] && s[0] in t && t[0] in s
    ensures s[0] == t[0]
  {
    var i :| 0 <= i < |t| && t[i] == s[0];
    var j :| 0 <= j < |s| && s[j] == t[0];
    StrCmpSign(s[0].name, t[0].name);
  }

  // ----- canonical form -----

  /** An element with the members of every object in it sorted: what a writer leaves behind. */
  function Canonical(j: Json): Json
    decreases j
  {
    match j
    case Prim(_, _) => j
    case Arr(items) => Arr(CanonicalItems(items))
    case Obj(members) => Obj(SortMembers(CanonicalMembers(members)))
  }

  function CanonicalItems(items: seq<Json>): (r: seq<Json>)
    ensures |r| == |items|
    ensures forall i :: 0 <= i < |items| ==> r[i] == Canonical(items[i])
    decreases items
  {
    if items == [] then [] else [Canonical(items[0])] + CanonicalItems(items[1..])
  }

  function CanonicalMembers(members: seq<Member>): (r: seq<Member>)
    ensures |r| == |members|
    ensures forall i :: 0 <= i < |members| ==> r[i] == Member(members[i].name, Canonical(members[i].value))
    decreases members
  {
    if members == [] then []
    else [Member(members[0].name, Canonical(members[0].value))] + CanonicalMembers(members[1..])
  }

  /** The text of JsonWrite and JsonWriteCompact. Only a primitive is indented by its own writer. */
  function Printed(j: Json, style: Style): string {
    (if j.Prim? && style.Pretty? then Indent(style.level) else "") + Text(Canonical(j), style)
  }

  /** No object has two members of one name. */
  predicate Unique(j: Json)
    decreases j
  {
    match j
    case Prim(_, _) => true
    case Arr(items) => forall i :: 0 <= i < |items| ==> Unique(items[i])
    case Obj(members) =>
      UniqueNames(members) && forall i :: 0 <= i < |members| ==> Unique(members[i].value)
  }

  /** The same element but for the order of object members, at every level. */
  predicate SameUpToOrder(a: Json, b: Json)
    decreases a
  {
    match a
    case Prim(_, _) => a == b
    case Arr(items) =>
      b.Arr? && |items| == |b.items| && forall i :: 0 <= i < |items| ==> SameUpToOrder(items[i], b.items[i])
    case Obj(members) =>
      && b.Obj? && |members| == |b.members|
      && forall i :: 0 <= i < |members| ==>
           exists k :: 0 <= k < |b.members| && b.members[k].name == members[i].name
                       && SameUpToOrder(members[i].value, b.members[k].value)
  }

  lemma UniqueCount(s: seq<Member>)
    requires UniqueNames(s)
    ensures |set x | x in s| == |s|
  {
    if s != [] {
      assert s == [s[0]] + s[1..];
      UniqueCount(s[1..]);
      assert (set x | x in s) == (set x | x in s[1..]) + {s[0]};
      assert s[0] !in s[1..];
    }
  }

  /** One inclusion and equal lengths are enough. */
  lemma Inclusion(s: seq<Member>, t: seq<Member>)
    requires UniqueNames(s) && UniqueNames(t) && |s| == |t|
    requires forall x :: x in s ==> x in t
    ensures forall x :: x in s <==> x in t
  {
    UniqueCount(s);
    UniqueCount(t);
    var ss, ts := set x | x in s, set x | x in t;
    assert |ts - ss| == |ts| - |ss| by {
      assert ts == (ts - ss) + ss;
    }
    assert ts - ss == {};
    forall x ensures x in s <==> x in t {
      assert x in s <==> x in ss;
      assert x in t <==> x in ts;
    }
  }

  /** Two elements have one canonical form exactly when they differ only in the order of members. */
  lemma {:induction false} CanonicalIff(a: Json, b: Json)
    requires Unique(a) && Unique(b)
    ensures SameUpToOrder(a, b) <==> Canonical(a) == Canonical(b)
    decreases a
  {
    match a
    case Prim(_, _) =>
    case Arr(items) =>
      if b.Arr? && |items| == |b.items| {
        forall i | 0 <= i < |items|
          ensures SameUpToOrder(items[i], b.items[i]) <==> Canonical(items[i]) == Canonical(b.items[i])
        {
          CanonicalIff(items[i], b.items[i]);
        }
        ItemsIff(items, b.items);
      }
    case Obj(members) =>
      if b.Obj? && |members| == |b.members| {
        forall i, k | 0 <= i < |members| && 0 <= k < |b.members|
          ensures SameUpToOrder(members[i].value, b.members[k].value)
             <==> Canonical(members[i].value) == Canonical(b.members[k].value)
        {
          CanonicalIff(members[i].value, b.members[k].value);
        }
        ObjectsCanonical(members, b.members);
      }
  }

  lemma ObjectsCanonical(s: seq<Member>, t: seq<Member>)
    requires UniqueNames(s) && UniqueNames(t) && |s| == |t|
    requires forall i, k :: 0 <= i < |s| && 0 <= k < |t| ==>
      (SameUpToOrder(s[i].value, t[k].value) <==> Canonical(s[i].value) == Canonical(t[k].value))
    ensures SameUpToOrder(Obj(s), Obj(t)) <==> Canonical(Obj(s)) == Canonical(Obj(t))
  {
    MembersIff(s, t);
  }

  lemma ItemsIff(s: seq<Json>, t: seq<Json>)
    requires |s| == |t|
    requires forall i :: 0 <= i < |s| ==> (SameUpToOrder(s[i], t[i]) <==> Canonical(s[i]) == Canonical(t[i]))
    ensures SameUpToOrder(Arr(s), Arr(t)) <==> Canonical(Arr(s)) == Canonical(Arr(t))
  {
    var cs, ct := CanonicalItems(s), CanonicalItems(t);
    assert cs == ct <==> forall i :: 0 <= i < |s| ==> cs[i] == ct[i];
  }

  /** The members of one object are found in the other, each with an equal canonical form. */
  ghost predicate Found(s: seq<Member>, t: seq<Member>) {
    forall i :: 0 <= i < |s| ==>
      exists k :: 0 <= k < |t| && t[k].name == s[i].name && Canonical(s[i].value) == Canonical(t[k].value)
  }

  lemma MembersIff(s: seq<Member>, t: seq<Member>)
    requires UniqueNames(s) && UniqueNames(t) && |s| == |t|
    ensures Found(s, t) <==> SortMembers(CanonicalMembers(s)) == SortMembers(CanonicalMembers(t))
  {
    var cs, ct := CanonicalMembers(s), CanonicalMembers(t);
    SortHolds(cs);
    SortHolds(ct);
    if Found(s, t) {
      forall x | x in cs ensures x in ct {
        var i :| 0 <= i < |cs| && cs[i] == x;
        var k :| 0 <= k < |t| && t[k].name == s[i].name && Canonical(s[i].value) == Canonical(t[k].value);
        assert ct[k] == x;
      }
      Inclusion(cs, ct);
      IncreasingIsUnique(SortMembers(cs), SortMembers(ct));
    }
    if SortMembers(cs) == SortMembers(ct) {
      forall i | 0 <= i < |s|
        ensures exists k :: 0 <= k < |t| && t[k].name == s[i].name && Canonical(s[i].value) == Canonical(t[k].value)
      {
        assert cs[i] in SortMembers(cs);
        assert cs[i] in ct;
        var k :| 0 <= k < |ct| && ct[k] == cs[i];
      }
    }
  }

  /** Elements that differ only in the order of members print the same text, in either style. */
  lemma CanonicalPrinting(a: Json, b: Json, style: Style)
    requires Unique(a) && Unique(b) && SameUpToOrder(a, b)
    ensures Printed(a, style) == Printed(b, style)
  {
    CanonicalIff(a, b);
  }

  // ----- what the parser builds -----

  /** Appending keeps the names unique, holds the new member and loses no other. */
  lemma {:induction false} AppendedUnique(members: seq<Member>, name: string, value: Json)
    requires UniqueNames(members)
    ensures UniqueNames(Appended(members, name, value))
    ensures forall x :: x in Appended(members, name, value)
                   <==> x == Member(name, value) || (x in members && x.name != name)
  {
    RemoveKeyHolds(members, name);
  }

  lemma {:induction false} RemoveKeyHolds(members: seq<Member>, name: string)
    requires UniqueNames(members)
    ensures UniqueNames(RemoveKey(members, name))
    ensures forall x :: x in RemoveKey(members, name) <==> x in members && x.name != name
    decreases |members|
  {
    if members != [] {
      assert members == [members[0]] + members[1..];
      if members[0].name != name {
        RemoveKeyHolds(members[1..], name);
      }
    }
  }

  // ----- JsonCompare -----

  const CONTAINER_TYPE := 1
  const PRIMITIVE_TYPE := 2
  const OBJECT_TYPE := 3
  const ARRAY_TYPE := 4

  function ElementType(j: Json): int { if j.Prim? then PRIMITIVE_TYPE else CONTAINER_TYPE }

  function ContainerType(j: Json): int { if j.Obj? then OBJECT_TYPE else ARRAY_TYPE }

  /** JsonObjectGet: the first child with the key. */
  function Get(members: seq<Member>, name: string): (r: Option<Json>)
    ensures r.Some? ==> exists k :: 0 <= k < |members| && members[k] == Member(name, r.value)
  {
    if members == [] then None
    else if members[0].name == name then Some(members[0].value)
    else Get(members[1..], name)
  }

  function Compare(a: Json, b: Json): int
    decreases a
  {
    if ElementType(a) != ElementType(b) then ElementType(a) - ElementType(b)
    else if a.Prim? then if a.text == b.text then 0 else 1
    else if ContainerType(a) != ContainerType(b) then ContainerType(a) - ContainerType(b)
    else if a.Arr? then
      if |a.items| != |b.items| then |a.items| - |b.items| else CompareItems(a.items, b.items)
    else
      if |a.members| != |b.members| then |a.members| - |b.members| else CompareMembers(a.members, b.members)
  }

  function CompareItems(s: seq<Json>, t: seq<Json>): int
    requires |s| == |t|
    decreases s
  {
    if s == [] then 0
    else
      var c := Compare(s[0], t[0]);
      if c != 0 then c else CompareItems(s[1..], t[1..])
  }

  /** The members of `s` are looked up in `t`; those of `t` are not looked up in `s`. */
  function CompareMembers(s: seq<Member>, t: seq<Member>): int
    decreases s
  {
    if s == [] then 0
    else
      match Get(t, s[0].name)
      case None => 1
      case Some(value) =>
        var c := Compare(s[0].value, value);
        if c != 0 then c else CompareMembers(s[1..], t)
  }

  /** What JsonCompare sees of an element: the texts of its primitives but not their kinds. */
  function Erased(j: Json): Json
    decreases j
  {
    match j
    case Prim(_, text) => Prim(StringKind, text)
    case Arr(items) => Arr(ErasedItems(items))
    case Obj(members) => Obj(ErasedMembers(members))
  }

  function ErasedItems(items: seq<Json>): (r: seq<Json>)
    ensures |r| == |items|
    ensures forall i :: 0 <= i < |items| ==> r[i] == Erased(items[i])
    decreases items
  {
    if items == [] then [] else [Erased(items[0])] + ErasedItems(items[1..])
  }

  function ErasedMembers(members: seq<Member>): (r: seq<Member>)
    ensures |r| == |members|
    ensures forall i :: 0 <= i < |members| ==> r[i] == Member(members[i].name, Erased(members[i].value))
    decreases members
  {
    if members == [] then []
    else [Member(members[0].name, Erased(members[0].value))] + ErasedMembers(members[1..])
  }

  lemma {:induction false} ErasedUnique(j: Json)
    requires Unique(j)
    ensures Unique(Erased(j))
    decreases j
  {
    match j
    case Prim(_, _) =>
    case Arr(items) =>
      forall i | 0 <= i < |items| ensures Unique(Erased(items[i])) {
        ErasedUnique(items[i]);
      }
    case Obj(members) =>
      forall i | 0 <= i < |members| ensures Unique(Erased(members[i].value)) {
        ErasedUnique(members[i].value);
      }
  }

  lemma {:induction false} GetUnique(members: seq<Member>, k: nat)
    requires UniqueNames(members) && k < |members|
    ensures Get(members, members[k].name) == Some(members[k].value)
    decreases |members|
  {
    if k > 0 {
      GetUnique(members[1..], k - 1);
    }
  }

  /** JsonCompare gives zero exactly when the elements differ in the order of members and the kinds
      of primitives at most. */
  lemma {:induction false} CompareIff(a: Json, b: Json)
    requires Unique(a) && Unique(b)
    ensures Compare(a, b) == 0 <==> SameUpToOrder(Erased(a), Erased(b))
    decreases a
  {
    match a
    case Prim(_, _) =>
    case Arr(items) =>
      if b.Arr? && |items| == |b.items| {
        CompareItemsIff(items, b.items);
        ArraysIff(items, b.items);
      } else {
        OtherShape(a, b);
      }
    case Obj(members) =>
      if b.Obj? && |members| == |b.members| {
        CompareMembersIff(members, b.members);
        ObjectsIff(members, b.members);
      } else {
        OtherShape(a, b);
      }
  }

  lemma OtherShape(a: Json, b: Json)
    requires !a.Prim? && (a.Arr? ==> !(b.Arr? && |a.items| == |b.items|)) && (a.Obj? ==> !(b.Obj? && |a.members| == |b.members|))
    ensures Compare(a, b) != 0 && !SameUpToOrder(Erased(a), Erased(b))
  {
  }

  lemma ArraysIff(s: seq<Json>, t: seq<Json>)
    requires |s| == |t|
    requires CompareItems(s, t) == 0 <==> forall i :: 0 <= i < |s| ==> SameUpToOrder(Erased(s[i]), Erased(t[i]))
    ensures Compare(Arr(s), Arr(t)) == 0 <==> SameUpToOrder(Erased(Arr(s)), Erased(Arr(t)))
  {
  }

  lemma ObjectsIff(s: seq<Member>, t: seq<Member>)
    requires |s| == |t| && (CompareMembers(s, t) == 0 <==> forall i :: 0 <= i < |s| ==> Looked(s[i], t))
    ensures Compare(Obj(s), Obj(t)) == 0 <==> SameUpToOrder(Erased(Obj(s)), Erased(Obj(t)))
  {
  }

  lemma {:induction false} CompareItemsIff(s: seq<Json>, t: seq<Json>)
    requires |s| == |t|
    requires forall i :: 0 <= i < |s| ==> Unique(s[i]) && Unique(t[i])
    ensures CompareItems(s, t) == 0 <==> forall i :: 0 <= i < |s| ==> SameUpToOrder(Erased(s[i]), Erased(t[i]))
    decreases s
  {
    if s != [] {
      CompareIff(s[0], t[0]);
      CompareItemsIff(s[1..], t[1..]);
      assert forall i :: 1 <= i < |s| ==> s[i] == s[1..][i - 1] && t[i] == t[1..][i - 1];
    }
  }

  ghost predicate Looked(m: Member, t: seq<Member>) {
    exists k :: 0 <= k < |t| && t[k].name == m.name && SameUpToOrder(Erased(m.value), Erased(t[k].value))
  }

  lemma {:induction false} CompareMembersIff(s: seq<Member>, t: seq<Member>)
    requires UniqueNames(t)
    requires forall i :: 0 <= i < |s| ==> Unique(s[i].value)
    requires forall i :: 0 <= i < |t| ==> Unique(t[i].value)
    ensures CompareMembers(s, t) == 0 <==> forall i :: 0 <= i < |s| ==> Looked(s[i], t)
    decreases s
  {
    if s != [] {
      CompareMembersIff(s[1..], t);
      assert forall i :: 1 <= i < |s| ==> s[i] == s[1..][i - 1];
      forall k | 0 <= k < |t| && t[k].name == s[0].name
        ensures Get(t, s[0].name) == Some(t[k].value)
        ensures Compare(s[0].value, t[k].value) == 0
           <==> SameUpToOrder(Erased(s[0].value), Erased(t[k].value))
      {
        GetUnique(t, k);
        CompareIff(s[0].value, t[k].value);
      }
    }
  }

  /** Although an object's members are looked up in one direction only, being equal for JsonCompare
      is having one canonical form, so it is an equivalence relation. */
  lemma CompareIsCanonical(a: Json, b: Json)
    requires Unique(a) && Unique(b)
    ensures Compare(a, b) == 0 <==> Canonical(Erased(a)) == Canonical(Erased(b))
  {
    CompareIff(a, b);
    ErasedUnique(a);
    ErasedUnique(b);
    CanonicalIff(Erased(a), Erased(b));
  }

  lemma CompareEquivalence(a: Json, b: Json, c: Json)
    requires Unique(a) && Unique(b) && Unique(c)
    ensures Compare(a, a) == 0
    ensures Compare(a, b) == 0 ==> Compare(b, a) == 0
    ensures Compare(a, b) == 0 && Compare(b, c) == 0 ==> Compare(a, c) == 0
  {
    CompareIsCanonical(a, a);
    CompareIsCanonical(a, b);
    CompareIsCanonical(b, a);
    CompareIsCanonical(b, c);
    CompareIsCanonical(a, c);
  }

  /** Why the statements above ask for unique names, which appending keeps: on values with a repeated
      name each key of the first object is found in the second, but not the other way round. */
  lemma CompareNeedsUniqueNames()
    ensures var one := Prim(IntegerKind, "1");
            var a, b := Obj([Member("k", one), Member("k", one)]), Obj([Member("k", one), Member("l", one)]);
            Compare(a, b) == 0 && Compare(b, a) != 0
  {
    var one := Prim(IntegerKind, "1");
    var k, l := Member("k", one), Member("l", one);
    var s, t := [k, k], [k, l];
    assert s[1..] == [k] && [k][1..] == [] && t[1..] == [l] && [l][1..] == [];
    assert CompareMembers([], t) == 0;
    assert CompareMembers([k], t) == 0;
    assert CompareMembers(s, t) == 0;
    assert Get([], "l") == None && Get([k], "l") == None && Get(s, "l") == None;
    assert CompareMembers([l], s) == 1;
  }
}
