/** Any run of operations on the lists of one memory does what the run means. */
module ListRun {
  import opened Dll
  import opened RefCount
  import opened ListNodes
  import opened ListHeap
  import opened ListMeaning

  // ----- the lists behind the names -----

  /** The lists behind the names hold these values, were made with these functions, and share their
      chains within their groups; and no two names are one list. */
  ghost predicate Tracks<V>(lists: map<Id, ListRec<V>>, view: map<Id, seq<V>>, names: seq<Option<Id>>, st: State<V>) {
    && |names| == |st.slots| && view.Keys == lists.Keys
    && AllNamed(lists, view, names, st.slots, st.next) && Covered(lists, names) && AllAlike(lists, names, st.slots)
  }

  ghost predicate AllNamed<V>(lists: map<Id, ListRec<V>>, view: map<Id, seq<V>>, names: seq<Option<Id>>,
                              slots: seq<Option<Slot<V>>>, next: nat)
    requires |names| == |slots|
  {
    forall k :: 0 <= k < |names| ==> Named(lists, view, names[k], slots[k], next)
  }

  ghost predicate Named<V>(lists: map<Id, ListRec<V>>, view: map<Id, seq<V>>, name: Option<Id>, x: Option<Slot<V>>, next: nat) {
    && (name.Some? <==> x.Some?)
    && (name.Some? ==>
          && name.value in lists && name.value in view && view[name.value] == x.value.value && x.value.group < next
          && lists[name.value].compare == x.value.compare && lists[name.value].copies == x.value.copies)
  }

  ghost predicate Covered<V>(lists: map<Id, ListRec<V>>, names: seq<Option<Id>>) {
    && (forall j, k :: 0 <= j < k < |names| && names[j].Some? ==> names[j] != names[k])
    && (forall l :: l in lists ==> Some(l) in names)
  }

  ghost predicate AllAlike<V>(lists: map<Id, ListRec<V>>, names: seq<Option<Id>>, slots: seq<Option<Slot<V>>>)
    requires |names| == |slots|
  {
    forall j, k :: 0 <= j < |names| && 0 <= k < |names| ==> Alike(lists, names[j], names[k], slots[j], slots[k])
  }

  /** Two lists stand at one chain if and only if they are in one group. */
  ghost predicate Alike<V>(lists: map<Id, ListRec<V>>, a: Option<Id>, b: Option<Id>, x: Option<Slot<V>>, y: Option<Slot<V>>) {
    a.Some? && b.Some? && x.Some? && y.Some? && a.value in lists && b.value in lists ==>
      (lists[a.value].ref == lists[b.value].ref <==> x.value.group == y.value.group)
  }

  /** No other list stands at the chain of `l`. */
  ghost predicate Alone<V>(lists: map<Id, ListRec<V>>, l: Id) {
    l in lists && forall m :: m in lists && m != l ==> lists[m].ref != lists[l].ref
  }

  lemma AloneIs<V>(h: Lists<V>, l: Id)
    requires h.Valid() && l in h.lists && UsersOf(h.refs.g.home, h.lists[l].ref) == {l}
    ensures Alone(h.lists, l)
  {
    hide World, UsersOf, Ok;
    forall m | m in h.lists && m != l ensures h.lists[m].ref != h.lists[l].ref {
      OtherRef(h.c, h.g, h.lists, h.refs.g, l, m);
    }
  }

  lemma SharedIs<V>(h: Lists<V>, names: seq<Option<Id>>, st: State<V>, k: nat)
    requires h.Valid() && Tracks(h.lists, h.View(), names, st) && Live(st, k)
    ensures names[k].Some? && names[k].value in h.lists && (h.Shared(names[k].value) <==> Shares(st, k))
  {
    hide World, Ok, Laid, Fits, UsersOf, Views;
    TracksAt(h.lists, h.View(), names, st, k);
    SharedHome(h, names[k].value);
    SharedSlots(h.lists, h.View(), names, st, k);
  }

  ghost predicate Beside<V>(lists: map<Id, ListRec<V>>, l: Id, m: Id)
    requires l in lists
  {
    m in lists && m != l && lists[m].ref == lists[l].ref
  }

  lemma SharedHome<V>(h: Lists<V>, l: Id)
    requires h.Valid() && l in h.lists
    ensures h.Shared(l) <==> exists m: Id :: Beside(h.lists, l, m)
  {
    hide World, Ok, Laid, Fits;
    HomeIs(h);
    var home := h.refs.g.home;
    if h.Shared(l) {
      OthersRemain(UsersOf(home, h.lists[l].ref), l);
      var m :| m in UsersOf(home, h.lists[l].ref) - {l};
      assert Beside(h.lists, l, m);
    }
    if m: Id :| Beside(h.lists, l, m) {
      BothUse(home, l, m, h.lists[l].ref);
    }
  }

  lemma SharedSlots<V>(lists: map<Id, ListRec<V>>, view: map<Id, seq<V>>, names: seq<Option<Id>>, st: State<V>, k: nat)
    requires Tracks(lists, view, names, st) && Live(st, k)
    ensures names[k].Some? && names[k].value in lists
    ensures (exists m: Id :: Beside(lists, names[k].value, m)) <==> Shares(st, k)
  {
    TracksAt(lists, view, names, st, k);
    if m: Id :| Beside(lists, names[k].value, m) {
      assert Some(m) in names;
      var j :| 0 <= j < |names| && names[j] == Some(m);
      TracksAt(lists, view, names, st, j);
      GroupsAre(lists, view, names, st, j, k);
      assert SharedBy(st, k, j);
    }
    if j: nat :| SharedBy(st, k, j) {
      TracksAt(lists, view, names, st, j);
      GroupsAre(lists, view, names, st, j, k);
      assert Beside(lists, names[k].value, names[j].value);
    }
  }

  lemma HomeIs<V>(h: Lists<V>)
    requires h.Valid()
    ensures h.refs.g.home.Keys == h.lists.Keys
    ensures forall m :: m in h.lists ==> h.refs.g.home[m] == h.lists[m].ref && h.lists[m].ref in h.g.chain
  {
    hide World, Ok, Laid, Fits;
    WorldKeys(h.c, h.g, h.lists, h.refs.g);
    forall m | m in h.lists ensures h.refs.g.home[m] == h.lists[m].ref && h.lists[m].ref in h.g.chain {
      WorldFits(h.c, h.g, h.lists, h.refs.g, m);
      FitsRef(h.lists[m], h.g.chain, h.refs.g.home, m);
    }
  }

  // ----- what each kind of change does to the tracking -----

  lemma TracksAt<V>(lists: map<Id, ListRec<V>>, view: map<Id, seq<V>>, names: seq<Option<Id>>, st: State<V>, k: nat)
    requires Tracks(lists, view, names, st)
    ensures k < |names| && names[k].Some? <==> Live(st, k)
    ensures Live(st, k) ==> Named(lists, view, names[k], st.slots[k], st.next) && names[k].value in lists
  {
    if k < |names| {
      assert Named(lists, view, names[k], st.slots[k], st.next);
    }
  }

  lemma GroupsAre<V>(lists: map<Id, ListRec<V>>, view: map<Id, seq<V>>, names: seq<Option<Id>>, st: State<V>, k: nat, j: nat)
    requires Tracks(lists, view, names, st) && Live(st, k) && Live(st, j)
    ensures names[k].Some? && names[j].Some? && names[k].value in lists && names[j].value in lists
    ensures lists[names[k].value].ref == lists[names[j].value].ref <==> st.slots[k].value.group == st.slots[j].value.group
  {
    TracksAt(lists, view, names, st, k);
    TracksAt(lists, view, names, st, j);
    assert Alike(lists, names[k], names[j], st.slots[k], st.slots[j]);
  }

  /** A list that is left alone stays as it was named. */
  lemma NamedStays<V>(lists: map<Id, ListRec<V>>, lists': map<Id, ListRec<V>>, view: map<Id, seq<V>>, view': map<Id, seq<V>>,
                      name: Option<Id>, x: Option<Slot<V>>, next: nat, next': nat)
    requires Named(lists, view, name, x, next) && next <= next'
    requires name.Some? && name.value in lists && name.value in view ==>
      && name.value in lists' && lists'[name.value] == lists[name.value]
      && name.value in view' && view'[name.value] == view[name.value]
    ensures Named(lists', view', name, x, next')
  {
  }

  lemma AlikeStays<V>(lists: map<Id, ListRec<V>>, lists': map<Id, ListRec<V>>, a: Option<Id>, b: Option<Id>,
                      x: Option<Slot<V>>, y: Option<Slot<V>>)
    requires Alike(lists, a, b, x, y)
    requires a.Some? ==> a.value in lists && (a.value in lists' ==> lists'[a.value].ref == lists[a.value].ref)
    requires b.Some? ==> b.value in lists && (b.value in lists' ==> lists'[b.value].ref == lists[b.value].ref)
    ensures Alike(lists', a, b, x, y)
  {
  }

  lemma NamesKnown<V>(lists: map<Id, ListRec<V>>, view: map<Id, seq<V>>, names: seq<Option<Id>>, st: State<V>)
    requires Tracks(lists, view, names, st)
    ensures forall k :: 0 <= k < |names| && names[k].Some? ==> names[k].value in lists && names[k].value in view
    ensures forall k :: 0 <= k < |names| && st.slots[k].Some? ==> st.slots[k].value.group < st.next
  {
    forall k | 0 <= k < |names|
      ensures names[k].Some? ==> names[k].value in lists && names[k].value in view
      ensures st.slots[k].Some? ==> st.slots[k].value.group < st.next
    {
      assert Named(lists, view, names[k], st.slots[k], st.next);
    }
  }

  lemma CoveredMore<V>(lists: map<Id, ListRec<V>>, lists': map<Id, ListRec<V>>, names: seq<Option<Id>>, l: Id)
    requires Covered(lists, names) && l !in lists && lists'.Keys == lists.Keys + {l}
    requires forall k :: 0 <= k < |names| && names[k].Some? ==> names[k].value in lists
    ensures Covered(lists', names + [Some(l)])
  {
    var names' := names + [Some(l)];
    assert names'[|names|] == Some(l);
    forall m | m in lists' ensures Some(m) in names' {
      if m != l {
        assert Some(m) in names;
      }
    }
  }

  lemma TracksNew<V>(lists: map<Id, ListRec<V>>, lists': map<Id, ListRec<V>>, view: map<Id, seq<V>>,
                     names: seq<Option<Id>>, st: State<V>, l: Id)
    requires Tracks(lists, view, names, st) && l !in lists && lists'.Keys == lists.Keys + {l}
    requires (forall m :: m in lists ==> lists'[m] == lists[m]) && Alone(lists', l)
    ensures Tracks(lists', view[l := []], names + [Some(l)],
                   State(st.slots + [Some(Slot(lists'[l].compare, lists'[l].copies, st.next, []))], st.next + 1, st.lost))
  {
    hide Named, Alike, Alone;
    NamesKnown(lists, view, names, st);
    CoveredMore(lists, lists', names, l);
    var x := Some(Slot(lists'[l].compare, lists'[l].copies, st.next, []));
    var view', names', slots' := view[l := []], names + [Some(l)], st.slots + [x];
    forall k | 0 <= k < |names'| ensures Named(lists', view', names'[k], slots'[k], st.next + 1) {
      if k < |names| {
        NamedStays(lists, lists', view, view', names[k], st.slots[k], st.next, st.next + 1);
      } else {
        NewNamed(lists', view', l, x, st.next);
      }
    }
    forall j, k | 0 <= j < |names'| && 0 <= k < |names'| ensures Alike(lists', names'[j], names'[k], slots'[j], slots'[k]) {
      if j < |names| && k < |names| {
        AlikeStays(lists, lists', names[j], names[k], st.slots[j], st.slots[k]);
      } else {
        NewAlike(lists', names'[j], names'[k], slots'[j], slots'[k], l, st.next);
      }
    }
  }

  lemma NewNamed<V>(lists': map<Id, ListRec<V>>, view': map<Id, seq<V>>, l: Id, x: Option<Slot<V>>, next: nat)
    requires l in lists' && l in view' && x.Some? && view'[l] == x.value.value
    requires x == Some(Slot(lists'[l].compare, lists'[l].copies, next, []))
    ensures Named(lists', view', Some(l), x, next + 1)
  {
  }

  /** A list alone at its chain, and alone in its group. */
  lemma NewAlike<V>(lists': map<Id, ListRec<V>>, a: Option<Id>, b: Option<Id>, x: Option<Slot<V>>, y: Option<Slot<V>>,
                    l: Id, group: nat)
    requires Alone(lists', l) && (a == Some(l) || b == Some(l))
    requires x.Some? && a.Some? ==> (x.value.group == group <==> a == Some(l))
    requires y.Some? && b.Some? ==> (y.value.group == group <==> b == Some(l))
    ensures Alike(lists', a, b, x, y)
  {
  }

  lemma TracksCopy<V>(lists: map<Id, ListRec<V>>, view: map<Id, seq<V>>, names: seq<Option<Id>>, st: State<V>, k: nat, d: Id)
    requires Tracks(lists, view, names, st) && Live(st, k) && d !in lists
    ensures names[k].Some? && names[k].value in lists && names[k].value in view
    ensures Tracks(lists[d := lists[names[k].value]], view[d := view[names[k].value]], names + [Some(d)],
                   st.(slots := st.slots + [st.slots[k]]))
  {
    hide Named, Alike;
    NamesKnown(lists, view, names, st);
    TracksAt(lists, view, names, st, k);
    var l := names[k].value;
    var lists', view', names', slots' := lists[d := lists[l]], view[d := view[l]], names + [Some(d)], st.slots + [st.slots[k]];
    CoveredMore(lists, lists', names, d);
    forall i | 0 <= i < |names'| ensures Named(lists', view', names'[i], slots'[i], st.next) {
      if i < |names| {
        NamedStays(lists, lists', view, view', names[i], st.slots[i], st.next, st.next);
      } else {
        CopyNamed(lists, view, l, d, st.slots[k], st.next);
      }
    }
    forall i, j | 0 <= i < |names'| && 0 <= j < |names'| ensures Alike(lists', names'[i], names'[j], slots'[i], slots'[j]) {
      var i0, j0 := if i < |names| then i else k, if j < |names| then j else k;
      CopyAlike(lists, lists', names[i0], names'[i], names[j0], names'[j], slots'[i], slots'[j]);
    }
  }

  lemma CopyNamed<V>(lists: map<Id, ListRec<V>>, view: map<Id, seq<V>>, l: Id, d: Id, x: Option<Slot<V>>, next: nat)
    requires l in lists && l in view && Named(lists, view, Some(l), x, next)
    ensures Named(lists[d := lists[l]], view[d := view[l]], Some(d), x, next)
  {
  }

  lemma CopyAlike<V>(lists: map<Id, ListRec<V>>, lists': map<Id, ListRec<V>>, a: Option<Id>, a': Option<Id>,
                     b: Option<Id>, b': Option<Id>, x: Option<Slot<V>>, y: Option<Slot<V>>)
    requires Alike(lists, a, b, x, y) && (a.Some? <==> a'.Some?) && (b.Some? <==> b'.Some?)
    requires a.Some? ==> a.value in lists && a'.value in lists' && lists'[a'.value] == lists[a.value]
    requires b.Some? ==> b.value in lists && b'.value in lists' && lists'[b'.value] == lists[b.value]
    ensures Alike(lists', a', b', x, y)
  {
  }

  lemma TracksWrite<V>(lists: map<Id, ListRec<V>>, lists': map<Id, ListRec<V>>, view: map<Id, seq<V>>,
                       names: seq<Option<Id>>, st: State<V>, k: nat, value: seq<V>)
    requires Tracks(lists, view, names, st) && Live(st, k) && names[k].Some?
    requires OnlyAt(lists, lists', names[k].value) && Alone(lists', names[k].value)
    ensures Tracks(lists', view[names[k].value := value], names, Write(st, k, value))
  {
    hide Shares, Named, Alike, Alone, Covered, OnlyAt;
    NamesKnown(lists, view, names, st);
    TracksAt(lists, view, names, st, k);
    var l, st' := names[k].value, Write(st, k, value);
    OnlyAtKeys(lists, lists', l);
    var view' := view[l := value];
    assert Covered(lists', names) by {
      SameCover(lists, lists', names);
    }
    forall i | 0 <= i < |names| ensures Named(lists', view', names[i], st'.slots[i], st'.next) {
      if i == k {
        WriteNamed(lists, lists', view, st, k, value, l);
      } else {
        OtherName(lists, names, k, i);
        NamedStays(lists, lists', view, view', names[i], st.slots[i], st.next, st'.next);
      }
    }
    forall i, j | 0 <= i < |names| && 0 <= j < |names| ensures Alike(lists', names[i], names[j], st'.slots[i], st'.slots[j]) {
      OtherName(lists, names, k, i);
      OtherName(lists, names, k, j);
      if i != k && j != k {
        AlikeStays(lists, lists', names[i], names[j], st.slots[i], st.slots[j]);
      } else {
        GroupApart(st, k, value, i);
        GroupApart(st, k, value, j);
        NewAlike(lists', names[i], names[j], st'.slots[i], st'.slots[j], l, st'.slots[k].value.group);
      }
    }
  }

  lemma OnlyAtKeys<V>(lists: map<Id, ListRec<V>>, lists': map<Id, ListRec<V>>, l: Id)
    requires OnlyAt(lists, lists', l)
    ensures lists'.Keys == lists.Keys && forall m :: m in lists && m != l ==> lists'[m] == lists[m]
  {
  }

  lemma SameCover<V>(lists: map<Id, ListRec<V>>, lists': map<Id, ListRec<V>>, names: seq<Option<Id>>)
    requires Covered(lists, names) && lists'.Keys == lists.Keys
    ensures Covered(lists', names)
  {
    forall m | m in lists' ensures Some(m) in names {
      assert m in lists;
    }
  }

  lemma OtherName<V>(lists: map<Id, ListRec<V>>, names: seq<Option<Id>>, k: nat, i: nat)
    requires Covered(lists, names) && k < |names| && i < |names| && names[k].Some?
    ensures names[i] == names[k] <==> i == k
  {
  }

  lemma WriteNamed<V>(lists: map<Id, ListRec<V>>, lists': map<Id, ListRec<V>>, view: map<Id, seq<V>>,
                      st: State<V>, k: nat, value: seq<V>, l: Id)
    requires Live(st, k) && Named(lists, view, Some(l), st.slots[k], st.next) && OnlyAt(lists, lists', l)
    ensures Named(lists', view[l := value], Some(l), Write(st, k, value).slots[k], st.next + 1)
  {
    hide Shares;
  }

  /** After a change the list is in no one else's group. */
  lemma GroupApart<V>(st: State<V>, k: nat, value: seq<V>, j: nat)
    requires Live(st, k) && j < |st.slots| && (st.slots[j].Some? ==> st.slots[j].value.group < st.next)
    ensures var slots := Write(st, k, value).slots;
      slots[j].Some? ==> (slots[j].value.group == slots[k].value.group <==> j == k)
  {
    if st.slots[j].Some? && j != k && st.slots[j].value.group == st.slots[k].value.group {
      assert SharedBy(st, k, j);
    }
  }

  lemma TracksGone<V>(lists: map<Id, ListRec<V>>, view: map<Id, seq<V>>, names: seq<Option<Id>>, st: State<V>, k: nat)
    requires Tracks(lists, view, names, st) && Live(st, k)
    ensures names[k].Some?
    ensures Tracks(lists - {names[k].value}, view - {names[k].value}, names[k := None], st.(slots := st.slots[k := None]))
  {
    hide Named, Alike, Covered;
    NamesKnown(lists, view, names, st);
    TracksAt(lists, view, names, st, k);
    var l := names[k].value;
    var lists', view', names', slots' := lists - {l}, view - {l}, names[k := None], st.slots[k := None];
    forall i | 0 <= i < |names| ensures Named(lists', view', names'[i], slots'[i], st.next) {
      if i == k {
        NoName(lists', view', st.next);
      } else {
        OtherName(lists, names, k, i);
        NamedStays(lists, lists', view, view', names[i], st.slots[i], st.next, st.next);
      }
    }
    CoveredLess(lists, names, k);
    forall i, j | 0 <= i < |names'| && 0 <= j < |names'| ensures Alike(lists', names'[i], names'[j], slots'[i], slots'[j]) {
      if i == k || j == k {
        NotAlike(lists', names'[i], names'[j], slots'[i], slots'[j]);
      } else {
        AlikeStays(lists, lists', names[i], names[j], st.slots[i], st.slots[j]);
      }
    }
  }

  lemma NoName<V>(lists: map<Id, ListRec<V>>, view: map<Id, seq<V>>, next: nat)
    ensures Named(lists, view, None, None, next)
  {
  }

  lemma NotAlike<V>(lists: map<Id, ListRec<V>>, a: Option<Id>, b: Option<Id>, x: Option<Slot<V>>, y: Option<Slot<V>>)
    requires a.None? || b.None?
    ensures Alike(lists, a, b, x, y)
  {
  }

  lemma CoveredLess<V>(lists: map<Id, ListRec<V>>, names: seq<Option<Id>>, k: nat)
    requires Covered(lists, names) && k < |names| && names[k].Some?
    ensures Covered(lists - {names[k].value}, names[k := None])
  {
    var names' := names[k := None];
    forall m | m in lists - {names[k].value} ensures Some(m) in names' {
      assert Some(m) in names;
      var j :| 0 <= j < |names| && names[j] == Some(m);
      assert names'[j] == Some(m);
    }
  }

  // ----- where a search ends -----

  /** The first hit of a search is the first value that compares equal. */
  lemma {:induction false} FirstHitIs<V>(f: (V, V) -> int, s: seq<V>, v: V, i: nat)
    requires i <= |s| && (forall j :: 0 <= j < i ==> f(s[j], v) != 0) && (i < |s| ==> f(s[i], v) == 0)
    ensures FirstEqual(f, s, v) == i
    decreases |s|
  {
    if s != [] && i > 0 {
      FirstHitIs(f, s[1..], v, i - 1);
    }
  }

  lemma HitValues<V>(f: (V, V) -> int, x: ListRec<V>, c: Nodes<V>, g: Layout, key: Id, i: nat)
    requires Laid(c, g) && x.ref in g.chain && x.compare == Some(f) && key in c.cells
    requires FirstHit(x, c, g.chain[x.ref], key, i)
    ensures FirstEqual(f, Texts(c, g)[x.ref], c.cells[key]) == i
  {
    hide Laid, Texts;
    var s, text := g.chain[x.ref], Texts(c, g)[x.ref];
    TextLength(c, g, x.ref);
    forall j | 0 <= j < |s| ensures Hit(x, c, s[j], key) <==> f(text[j], c.cells[key]) == 0 {
      TextAt(c, g, x.ref, j);
    }
    FirstHitIs(f, text, c.cells[key], i);
  }

  /** A payload that no list holds is not found by its address. */
  lemma OwnIsMissed<V>(x: ListRec<V>, c: Nodes<V>, g: Layout, key: Id, i: nat)
    requires Laid(c, g) && x.ref in g.chain && x.compare == None && key !in g.holder
    requires FirstHit(x, c, g.chain[x.ref], key, i)
    ensures i == |g.chain[x.ref]|
  {
    hide Laid, Chain;
    if i < |g.chain[x.ref]| {
      LaidAt(c, g, x.ref, i);
    }
  }

  /** The payload that the chain of `y` holds at place `i` is found by its address in that chain only,
      and there at that place. */
  lemma HeldIsFound<V>(x: ListRec<V>, y: ListRec<V>, c: Nodes<V>, g: Layout, i: nat, at: nat)
    requires Laid(c, g) && x.ref in g.chain && y.ref in g.chain && x.compare == None && i < |g.chain[y.ref]|
    requires g.chain[y.ref][i] in c.payload && FirstHit(x, c, g.chain[x.ref], c.payload[g.chain[y.ref][i]], at)
    ensures at == if x.ref == y.ref then i else |g.chain[x.ref]|
  {
    hide Laid, Chain;
    var s, t := g.chain[x.ref], g.chain[y.ref];
    LaidAt(c, g, y.ref, i);
    if at < |s| {
      LaidAt(c, g, x.ref, at);
      assert s[at] == t[i];
    }
    if x.ref == y.ref {
      LaidChain(c, g, x.ref);
      ChainIsDistinct(c.links, s);
      assert Hit(x, c, s[i], c.payload[t[i]]);
    }
  }

  // ----- the operations -----

  method Payload<V>(h: Lists<V>, v: V) returns (p: Id)
    requires h.Valid()
    modifies h
    ensures h.Valid() && h.View() == old(h.View()) && h.lists == old(h.lists)
    ensures p in h.c.cells && h.c.cells[p] == v && p !in h.g.holder
  {
    hide Laid, Texts, World, Ok, Fits, UsersOf;
    WorldKeys(h.c, h.g, h.lists, h.refs.g);
    ghost var c0 := h.c;
    p := h.NewCell(v);
    CellWorld(c0, h.c, h.g, h.lists, h.refs.g);
  }

  lemma CellWorld<V>(c: Nodes<V>, c': Nodes<V>, g: Layout, lists: map<Id, ListRec<V>>, rg: Roster)
    requires World(c, g, lists, rg) && Laid(c', g) && c'.brk >= c.brk && Texts(c', g) == Texts(c, g)
    ensures World(c', g, lists, rg) && Views(c', g, lists, rg) == Views(c, g, lists, rg)
  {
    hide Laid, Texts, Fits, UsersOf;
  }

  /** A walk to place `i` of a list, for the payload there. */
  method PayloadAt<V>(h: Lists<V>, l: Id, i: nat) returns (p: Id)
    requires h.Valid() && l in h.lists && i < |h.View()[l]|
    ensures h.lists[l].ref in h.g.chain && i < |h.g.chain[h.lists[l].ref]|
    ensures var n := h.g.chain[h.lists[l].ref][i]; n in h.c.payload && p == h.c.payload[n] && p in h.c.cells
    ensures h.c.cells[p] == h.View()[l][i]
  {
    hide Laid, Texts, World, Ok, Fits, UsersOf, Chain;
    ViewIs(h.c, h.g, h.lists, h.refs.g, l);
    WorldFits(h.c, h.g, h.lists, h.refs.g, l);
    FitsEnds(h.lists[l], h.g.chain, h.refs.g.home, l);
    ghost var r := h.lists[l].ref;
    ghost var s := h.g.chain[r];
    TextLength(h.c, h.g, r);
    LaidChain(h.c, h.g, r);
    var node := h.lists[l].list;
    for j := 0 to i
      invariant node == s[j]
    {
      NeighboursOf(h.c.links, s, j);
      node := h.c.links.next[node];
    }
    TextAt(h.c, h.g, r, i);
    p := h.c.payload[node];
  }

  /** ListRemove, with any payload that is allocated. */
  method RemoveKey<V>(h: Lists<V>, names: seq<Option<Id>>, k: nat, key: Id, ghost st: State<V>)
    returns (lost: bool, ghost i: nat)
    requires h.Valid() && Tracks(h.lists, h.View(), names, st) && !st.lost
    requires k < |names| && names[k].Some? && key in h.c.cells
    modifies h, h.refs
    ensures h.Valid() && Live(st, k) && Tracks(h.lists, h.View(), names, Removal(st, k, i))
    ensures lost == Removal(st, k, i).lost
    ensures names[k].value in old(h.lists) && old(h.lists)[names[k].value].ref in old(h.g.chain)
    ensures FirstHit(old(h.lists)[names[k].value], old(h.c), old(h.g.chain)[old(h.lists)[names[k].value].ref], key, i)
  {
    hide Laid, Texts, World, Ok, Fits, UsersOf, FirstHit, Tracks, Write, Shares, Views;
    TracksAt(h.lists, h.View(), names, st, k);
    var l := names[k].value;
    ViewIs(h.c, h.g, h.lists, h.refs.g, l);
    SharedIs(h, names, st, k);
    ghost var lists, view := h.lists, h.View();
    ghost var value := view[l];
    var out;
    out, i := h.Remove(l, key);
    if out != Missing {
      AloneIs(h, l);
      ghost var left := if out == Done then WithoutValue(value, i) else value;
      TracksWrite(lists, h.lists, view, names, st, k, left);
      assert out == Lost ==> view[l := value] == view;
      LostAside(h.lists, h.View(), names, Write(st, k, left));
      WriteKeepsLost(st, k, left);
    }
    lost := out == Lost;
  }

  lemma LostAside<V>(lists: map<Id, ListRec<V>>, view: map<Id, seq<V>>, names: seq<Option<Id>>, st: State<V>)
    requires Tracks(lists, view, names, st)
    ensures Tracks(lists, view, names, st.(lost := true))
  {
  }

  method StepNew<V>(h: Lists<V>, names: seq<Option<Id>>, op: Op<V>, ghost st: State<V>)
    returns (names': seq<Option<Id>>)
    requires h.Valid() && Tracks(h.lists, h.View(), names, st) && !st.lost && op.NewList?
    modifies h, h.refs
    ensures h.Valid() && Tracks(h.lists, h.View(), names', Apply(st, op))
  {
    hide Laid, Texts, World, Ok, Fits, UsersOf, Tracks, Views;
    ghost var lists, view := h.lists, h.View();
    var l := h.New(op.compare, op.copies, op.destroys);
    AloneIs(h, l);
    TracksNew(lists, h.lists, view, names, st, l);
    names' := names + [Some(l)];
  }

  method StepCopy<V>(h: Lists<V>, names: seq<Option<Id>>, op: Op<V>, ghost st: State<V>)
    returns (names': seq<Option<Id>>)
    requires h.Valid() && Tracks(h.lists, h.View(), names, st) && !st.lost && op.CopyOf?
    modifies h, h.refs
    ensures h.Valid() && Tracks(h.lists, h.View(), names', Apply(st, op))
  {
    hide Laid, Texts, World, Ok, Fits, UsersOf, Tracks, Views;
    names' := names;
    ghost var lists, view := h.lists, h.View();
    TracksAt(lists, view, names, st, op.k);
    if op.k < |names| && names[op.k].Some? {
      var d := h.Copy(names[op.k].value);
      if d.Some? {
        TracksCopy(lists, view, names, st, op.k, d.value);
        names' := names + [d];
      }
    }
  }

  /** ListAppend and ListPrepend, with a payload of the caller's own. */
  method StepAdd<V>(h: Lists<V>, names: seq<Option<Id>>, op: Op<V>, ghost st: State<V>)
    requires h.Valid() && Tracks(h.lists, h.View(), names, st) && !st.lost && (op.AppendTo? || op.PrependTo?)
    modifies h, h.refs
    ensures h.Valid() && Tracks(h.lists, h.View(), names, Apply(st, op))
  {
    hide Laid, Texts, World, Ok, Fits, UsersOf, Tracks, Write, Views;
    ghost var lists, view := h.lists, h.View();
    TracksAt(lists, view, names, st, op.k);
    if op.k < |names| && names[op.k].Some? {
      var l := names[op.k].value;
      var p := Payload(h, op.v);
      ghost var value;
      if op.AppendTo? {
        value := view[l] + [op.v];
        h.Append(l, p);
      } else {
        value := [op.v] + view[l];
        h.Prepend(l, p);
      }
      AloneIs(h, l);
      TracksWrite(lists, h.lists, view, names, st, op.k, value);
    }
  }

  method StepRemove<V>(h: Lists<V>, names: seq<Option<Id>>, op: Op<V>, ghost st: State<V>) returns (lost: bool)
    requires h.Valid() && Tracks(h.lists, h.View(), names, st) && !st.lost && op.RemoveFrom?
    modifies h, h.refs
    ensures h.Valid() && Tracks(h.lists, h.View(), names, Apply(st, op)) && lost == Apply(st, op).lost
  {
    hide Laid, Texts, World, Ok, Fits, UsersOf, Tracks, FirstHit, Removal, Views;
    TracksAt(h.lists, h.View(), names, st, op.k);
    lost := false;
    if op.k < |names| && names[op.k].Some? {
      var key := Payload(h, op.v);
      ghost var l, c, g, lists, view := names[op.k].value, h.c, h.g, h.lists, h.View();
      ViewIs(c, g, lists, h.refs.g, l);
      TextLength(c, g, lists[l].ref);
      ghost var i;
      lost, i := RemoveKey(h, names, op.k, key, st);
      if lists[l].compare.Some? {
        HitValues(lists[l].compare.value, lists[l], c, g, key, i);
      } else {
        OwnIsMissed(lists[l], c, g, key, i);
      }
    }
  }

  method StepRemoveHeld<V>(h: Lists<V>, names: seq<Option<Id>>, op: Op<V>, ghost st: State<V>) returns (lost: bool)
    requires h.Valid() && Tracks(h.lists, h.View(), names, st) && !st.lost && op.RemoveHeld?
    modifies h, h.refs
    ensures h.Valid() && Tracks(h.lists, h.View(), names, Apply(st, op)) && lost == Apply(st, op).lost
  {
    hide Laid, Texts, World, Ok, Fits, UsersOf, Tracks, FirstHit, Removal, Views;
    TracksAt(h.lists, h.View(), names, st, op.k);
    TracksAt(h.lists, h.View(), names, st, op.j);
    lost := false;
    if op.k < |names| && names[op.k].Some? && op.j < |names| && names[op.j].Some? {
      var inside := HasPlace(h, names[op.j].value, op.i);
      if inside {
        var key := PayloadAt(h, names[op.j].value, op.i);
        ghost var l, m, c, g, lists := names[op.k].value, names[op.j].value, h.c, h.g, h.lists;
        ViewIs(c, g, lists, h.refs.g, l);
        TextLength(c, g, lists[l].ref);
        GroupsAre(lists, h.View(), names, st, op.k, op.j);
        ghost var i;
        lost, i := RemoveKey(h, names, op.k, key, st);
        if lists[l].compare.Some? {
          HitValues(lists[l].compare.value, lists[l], c, g, key, i);
        } else {
          HeldIsFound(lists[l], lists[m], c, g, op.i, i);
        }
      }
    }
  }

  /** ListCount. */
  method HasPlace<V>(h: Lists<V>, l: Id, i: nat) returns (r: bool)
    requires h.Valid() && l in h.lists
    ensures r <==> i < |h.View()[l]|
  {
    hide Laid, Texts, World, Ok, Fits, UsersOf, Chain;
    ViewIs(h.c, h.g, h.lists, h.refs.g, l);
    WorldFits(h.c, h.g, h.lists, h.refs.g, l);
    FitsEnds(h.lists[l], h.g.chain, h.refs.g.home, l);
    TextLength(h.c, h.g, h.lists[l].ref);
    r := i < h.lists[l].nodeCount;
  }

  method StepDestroy<V>(h: Lists<V>, names: seq<Option<Id>>, op: Op<V>, ghost st: State<V>)
    returns (names': seq<Option<Id>>)
    requires h.Valid() && Tracks(h.lists, h.View(), names, st) && !st.lost && op.DestroyOf?
    modifies h, h.refs
    ensures h.Valid() && Tracks(h.lists, h.View(), names', Apply(st, op))
  {
    hide Laid, Texts, World, Ok, Fits, UsersOf, Tracks, Views;
    names' := names;
    TracksAt(h.lists, h.View(), names, st, op.k);
    if op.k < |names| && names[op.k].Some? {
      TracksGone(h.lists, h.View(), names, st, op.k);
      h.Destroy(names[op.k].value);
      names' := names[op.k := None];
    }
  }

  method Step<V>(h: Lists<V>, names: seq<Option<Id>>, op: Op<V>, ghost st: State<V>)
    returns (names': seq<Option<Id>>, lost: bool)
    requires h.Valid() && Tracks(h.lists, h.View(), names, st) && !st.lost
    modifies h, h.refs
    ensures h.Valid() && Tracks(h.lists, h.View(), names', Apply(st, op)) && lost == Apply(st, op).lost
  {
    hide Laid, Texts, World, Ok, Fits, UsersOf, Tracks, Views, Apply;
    OnlyRemovalsFail(st, op);
    names', lost := names, false;
    match op {
      case NewList(_, _, _) => names' := StepNew(h, names, op, st);
      case CopyOf(_) => names' := StepCopy(h, names, op, st);
      case AppendTo(_, _) => StepAdd(h, names, op, st);
      case PrependTo(_, _) => StepAdd(h, names, op, st);
      case RemoveFrom(_, _) => lost := StepRemove(h, names, op, st);
      case RemoveHeld(_, _, _) => lost := StepRemoveHeld(h, names, op, st);
      case DestroyOf(_) => names' := StepDestroy(h, names, op, st);
    }
  }

  lemma OnlyRemovalsFail<V>(st: State<V>, op: Op<V>)
    requires !st.lost
    ensures Apply(st, op).lost ==> op.RemoveHeld?
  {
    ForgetsGroups(st, op);
  }

  /** After any run of operations, on any number of lists made with any functions, each list holds what
      the meaning of the run gives it, whatever chains were shared on the way; and the run ends with a
      lost removal if and only if its meaning does. */
  method Run<V>(ops: seq<Op<V>>) returns (h: Lists<V>, names: seq<Option<Id>>, lost: bool)
    ensures h.Valid() && Tracks(h.lists, h.View(), names, ApplyAll(ops)) && lost == ApplyAll(ops).lost
  {
    hide Laid, Texts, World, Ok, Fits, UsersOf, Tracks, Views, Apply;
    h := new Lists();
    names, lost := [], false;
    NothingTracked(h);
    for i := 0 to |ops|
      invariant fresh(h) && fresh(h.refs) && h.Valid() && lost == ApplyAll(ops[..i]).lost
      invariant Tracks(h.lists, h.View(), names, ApplyAll(ops[..i]))
    {
      OneMore(ops, i);
      if !lost {
        names, lost := Step(h, names, ops[i], ApplyAll(ops[..i]));
      }
    }
    assert ops[..|ops|] == ops;
  }

  lemma NothingTracked<V>(h: Lists<V>)
    requires h.Valid() && h.lists == map[]
    ensures Tracks(h.lists, h.View(), [], ApplyAll([]))
  {
  }

  lemma OneMore<V>(ops: seq<Op<V>>, i: nat)
    requires i < |ops|
    ensures ApplyAll(ops[..i + 1]) == Apply(ApplyAll(ops[..i]), ops[i])
    ensures ApplyAll(ops[..i]).lost ==> ApplyAll(ops[..i + 1]) == ApplyAll(ops[..i])
  {
    assert ops[..i + 1][..i] == ops[..i];
  }

  /** The case in which ListRemove fails: a list without a comparison function that shares its chain. */
  method SharedRemoveIsLost<V>(v: V) returns (out: Outcome)
    ensures out == Lost
  {
    hide Laid, Texts, World, Ok, Fits, UsersOf;
    var h := new Lists<V>();
    var l := h.New(None, true, true);
    var p := Payload(h, v);
    h.Append(l, p);
    var k := h.Copy(l);
    ghost var s := h.g.chain[h.lists[l].ref];
    assert h.Carries(l, p);
    ghost var n :| n in s && n in h.c.payload && h.c.payload[n] == p;
    ghost var j :| 0 <= j < |s| && s[j] == n;
    assert Hit(h.lists[l], h.c, s[j], p);
    ghost var i;
    out, i := h.Remove(l, p);
  }

  /** The counter of a chain's count is the number of lists that stand at it, and lists with
      different counts share no node. */
  lemma CountsAreLists<V>(h: Lists<V>, l: Id, k: Id)
    requires h.Valid() && l in h.lists && k in h.lists
    ensures h.lists[l].ref in h.refs.m.refs && h.lists[l].ref in h.g.chain && h.lists[k].ref in h.g.chain
    ensures h.refs.m.refs[h.lists[l].ref].userCount == |set m | m in h.lists && h.lists[m].ref == h.lists[l].ref|
    ensures h.lists[l].ref != h.lists[k].ref ==> Apart(h.g.chain[h.lists[l].ref], h.g.chain[h.lists[k].ref])
  {
    hide Laid, Texts, World, Ok, Chain;
    WorldKeys(h.c, h.g, h.lists, h.refs.g);
    forall m | m in h.lists ensures h.refs.g.home[m] == h.lists[m].ref && h.lists[m].ref in h.g.chain {
      WorldFits(h.c, h.g, h.lists, h.refs.g, m);
    }
    var r := h.lists[l].ref;
    CountIsUsers(h.refs.m, h.refs.g, r);
    OkKeys(h.refs.m, h.refs.g);
    assert UsersOf(h.refs.g.home, r) == set m | m in h.lists && h.lists[m].ref == r;
    if r != h.lists[k].ref {
      LaidApart(h.c, h.g, h.lists[k].ref, r);
    }
  }

  lemma OkKeys(m: Memory, g: Roster)
    requires Ok(m, g)
    ensures m.refs.Keys == g.chain.Keys
  {
  }

  lemma LaidApart<V>(c: Nodes<V>, g: Layout, q: Id, r: Id)
    requires Laid(c, g) && q in g.chain && r in g.chain && q != r
    ensures Apart(g.chain[r], g.chain[q])
  {
    hide Chain;
    assert Linked(c, g, q) && Linked(c, g, r);
  }
}
