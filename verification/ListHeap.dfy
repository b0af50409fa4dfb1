/** The functions of list.c on lists that share chains. */
module ListHeap {
  import opened Dll
  import opened RefCount
  import opened ListNodes

  /** A list: its ends, its length, its count, and the functions it was made with. */
  datatype ListRec<!V> = ListRec(list: Id, first: Id, last: Id, nodeCount: int, ref: Id,
                                 compare: Option<(V, V) -> int>, copies: bool, destroys: bool)

  /** The list `l` stands at the chain of its count; without a copy function it shares it with no one. */
  ghost predicate Fits<V>(x: ListRec<V>, chain: map<Id, seq<Id>>, home: map<Id, Id>, l: Id) {
    && l in home && home[l] == x.ref && x.ref in chain
    && x.list == x.first == Head(chain[x.ref]) && x.last == Last(chain[x.ref]) && x.nodeCount == |chain[x.ref]|
    && (x.copies || UsersOf(home, x.ref) == {l})
  }

  ghost predicate World<V>(c: Nodes<V>, g: Layout, lists: map<Id, ListRec<V>>, rg: Roster) {
    && Laid(c, g) && g.chain.Keys == rg.chain.Keys && NULL !in g.chain
    && rg.home.Keys == lists.Keys
    && (forall l :: l in lists ==> 0 < l < c.brk && Fits(lists[l], g.chain, rg.home, l))
    && (forall r :: r in g.chain ==> UsersOf(rg.home, r) != {})
  }

  lemma WorldFits<V>(c: Nodes<V>, g: Layout, lists: map<Id, ListRec<V>>, rg: Roster, l: Id)
    requires World(c, g, lists, rg) && l in lists
    ensures 0 < l < c.brk && Fits(lists[l], g.chain, rg.home, l)
  {
    hide Laid, UsersOf;
  }

  /** Made with the same functions. */
  ghost predicate SameKind<V>(x: ListRec<V>, y: ListRec<V>) {
    x.compare == y.compare && x.copies == y.copies && x.destroys == y.destroys
  }

  /** Only the list `l` has changed, and it keeps the functions it was made with. */
  ghost predicate OnlyAt<V>(lists: map<Id, ListRec<V>>, lists': map<Id, ListRec<V>>, l: Id) {
    && l in lists && lists'.Keys == lists.Keys && SameKind(lists'[l], lists[l])
    && forall k :: k in lists && k != l ==> lists'[k] == lists[k]
  }

  lemma OnlyAtIs<V>(lists: map<Id, ListRec<V>>, l: Id, x: ListRec<V>)
    requires l in lists && SameKind(x, lists[l])
    ensures OnlyAt(lists, lists[l := x], l)
  {
  }

  /** What every list holds. */
  ghost function Views<V>(c: Nodes<V>, g: Layout, lists: map<Id, ListRec<V>>, rg: Roster): (m: map<Id, seq<V>>)
    requires World(c, g, lists, rg)
    ensures m.Keys == lists.Keys
  {
    map l | l in lists :: Texts(c, g)[lists[l].ref]
  }

  /** Changing the one list of a chain, and its chain with it, leaves every other list as it was. */
  lemma ChangedWorld<V>(c: Nodes<V>, g: Layout, lists: map<Id, ListRec<V>>, rg: Roster, l: Id,
                        c': Nodes<V>, g': Layout, x: ListRec<V>)
    requires World(c, g, lists, rg) && l in lists && UsersOf(rg.home, lists[l].ref) == {l}
    requires Laid(c', g') && c'.brk >= c.brk
    requires x.ref == lists[l].ref && x.ref in g.chain && g'.chain.Keys == g.chain.Keys
    requires forall q :: q in g.chain && q != x.ref ==> g'.chain[q] == g.chain[q]
    requires Fits(x, g'.chain, rg.home, l)
    ensures World(c', g', lists[l := x], rg)
    ensures Texts(c', g') == Texts(c, g)[x.ref := Texts(c', g')[x.ref]] ==>
      Views(c', g', lists[l := x], rg) == Views(c, g, lists, rg)[l := Texts(c', g')[x.ref]]
  {
    hide Laid, Texts, Fits, World, UsersOf;
    var lists' := lists[l := x];
    WorldKeys(c, g, lists, rg);
    WorldFits(c, g, lists, rg, l);
    forall k | k in lists' ensures 0 < k < c'.brk && Fits(lists'[k], g'.chain, rg.home, k) {
      if k != l {
        WorldFits(c, g, lists, rg, k);
        ChangedFits(c, g, lists, rg, l, g', k);
      }
    }
    WorldIs(c', g', lists', rg) by {
      WorldKeys(c, g, lists, rg);
      forall r | r in g.chain ensures UsersOf(rg.home, r) != {} {
        WorldUsers(c, g, lists, rg, r);
      }
    }
    if Texts(c', g') == Texts(c, g)[x.ref := Texts(c', g')[x.ref]] {
      ChangedViews(c, g, lists, rg, l, c', g', x);
    }
  }

  lemma ChangedViews<V>(c: Nodes<V>, g: Layout, lists: map<Id, ListRec<V>>, rg: Roster, l: Id,
                        c': Nodes<V>, g': Layout, x: ListRec<V>)
    requires World(c, g, lists, rg) && l in lists && UsersOf(rg.home, lists[l].ref) == {l}
    requires World(c', g', lists[l := x], rg) && x.ref == lists[l].ref && x.ref in g.chain && g'.chain.Keys == g.chain.Keys
    requires Texts(c', g') == Texts(c, g)[x.ref := Texts(c', g')[x.ref]]
    ensures Views(c', g', lists[l := x], rg) == Views(c, g, lists, rg)[l := Texts(c', g')[x.ref]]
  {
    hide Laid, Texts, Fits;
    forall k | k in lists && k != l ensures lists[k].ref in g.chain && lists[k].ref != x.ref {
      OtherRef(c, g, lists, rg, l, k);
    }
  }

  lemma OtherRef<V>(c: Nodes<V>, g: Layout, lists: map<Id, ListRec<V>>, rg: Roster, l: Id, k: Id)
    requires World(c, g, lists, rg) && l in lists && UsersOf(rg.home, lists[l].ref) == {l} && k in lists && k != l
    ensures lists[k].ref in g.chain && lists[k].ref != lists[l].ref
  {
    hide World;
    WorldFits(c, g, lists, rg, k);
    assert k in UsersOf(rg.home, lists[k].ref);
  }

  lemma ChangedFits<V>(c: Nodes<V>, g: Layout, lists: map<Id, ListRec<V>>, rg: Roster, l: Id, g': Layout, k: Id)
    requires World(c, g, lists, rg) && l in lists && UsersOf(rg.home, lists[l].ref) == {l} && k in lists && k != l
    requires g'.chain.Keys == g.chain.Keys
    requires forall q :: q in g.chain && q != lists[l].ref ==> g'.chain[q] == g.chain[q]
    ensures lists[k].ref in g.chain && lists[k].ref != lists[l].ref && Fits(lists[k], g'.chain, rg.home, k)
  {
    hide World;
    WorldFits(c, g, lists, rg, k);
    assert k in UsersOf(rg.home, lists[k].ref);
  }

  lemma MovedUsers(home: map<Id, Id>, l: Id, r: Id, q: Id)
    requires UsersOf(home, r) == {} || UsersOf(home, r) == {l}
    ensures UsersOf(home[l := r], q) == if q == r then {l} else UsersOf(home, q) - {l}
  {
    forall o ensures o in UsersOf(home, r) ==> o == l {
    }
  }

  /** The list `l` has left a chain with more users for a copy of it under the new count `r`. */
  ghost predicate Moved<V>(c: Nodes<V>, g: Layout, lists: map<Id, ListRec<V>>, rg: Roster, l: Id,
                           c': Nodes<V>, g': Layout, r: Id, rg': Roster) {
    && World(c, g, lists, rg) && l in lists && |UsersOf(rg.home, lists[l].ref)| > 1
    && Laid(c', g') && c'.brk >= c.brk
    && NULL in g'.chain && g'.chain == g.chain[NULL := g'.chain[NULL]]
    && |g'.chain[NULL]| == |g.chain[lists[l].ref]|
    && Texts(c', g') == Texts(c, g)[NULL := Texts(c, g)[lists[l].ref]]
    && r !in rg.chain && r != NULL && rg'.chain.Keys == rg.chain.Keys + {r} && rg'.home == rg.home[l := r]
  }

  ghost function MovedRec<V>(x: ListRec<V>, s: seq<Id>, r: Id): ListRec<V> {
    x.(list := Head(s), first := Head(s), last := Last(s), ref := r)
  }

  lemma NoUsers<V>(c: Nodes<V>, g: Layout, lists: map<Id, ListRec<V>>, rg: Roster, r: Id)
    requires World(c, g, lists, rg) && r !in rg.chain
    ensures UsersOf(rg.home, r) == {}
  {
    hide Laid;
    forall o ensures o !in UsersOf(rg.home, r) {
      if o in rg.home {
        assert Fits(lists[o], g.chain, rg.home, o);
      }
    }
  }

  lemma MovedWorld<V>(c: Nodes<V>, g: Layout, lists: map<Id, ListRec<V>>, rg: Roster, l: Id,
                      c': Nodes<V>, g': Layout, r: Id, rg': Roster)
    requires Moved(c, g, lists, rg, l, c', g', r, rg')
    ensures World(c', Rekeyed(g', NULL, r), lists[l := MovedRec(lists[l], g'.chain[NULL], r)], rg')
  {
    hide Laid, Texts, World, Fits, UsersOf;
    WorldKeys(c, g, lists, rg);
    RekeyedLaid(c', g', NULL, r);
    var g2, lists' := Rekeyed(g', NULL, r), lists[l := MovedRec(lists[l], g'.chain[NULL], r)];
    forall k | k in lists' ensures 0 < k < c'.brk && Fits(lists'[k], g2.chain, rg'.home, k) {
      WorldFits(c, g, lists, rg, k);
      MovedFits(c, g, lists, rg, l, c', g', r, rg', k);
    }
    forall q | q in g2.chain ensures UsersOf(rg'.home, q) != {} {
      MovedHasUsers(c, g, lists, rg, l, c', g', r, rg', q);
    }
    WorldIs(c', g2, lists', rg');
  }

  lemma MovedHasUsers<V>(c: Nodes<V>, g: Layout, lists: map<Id, ListRec<V>>, rg: Roster, l: Id,
                         c': Nodes<V>, g': Layout, r: Id, rg': Roster, q: Id)
    requires Moved(c, g, lists, rg, l, c', g', r, rg') && (q in g.chain || q == r)
    ensures UsersOf(rg'.home, q) != {}
  {
    hide Laid, Texts, World, Rekeyed;
    NoUsers(c, g, lists, rg, r);
    MovedUsers(rg.home, l, r, q);
    if q == lists[l].ref {
      OthersRemain(UsersOf(rg.home, q), l);
    } else if q != r {
      WorldFits(c, g, lists, rg, l);
      WorldUsers(c, g, lists, rg, q);
      assert l !in UsersOf(rg.home, q);
    }
  }

  lemma OthersRemain(s: set<Id>, x: Id)
    requires |s| > 1
    ensures s - {x} != {}
  {
    if s - {x} == {} {
      assert s <= {x};
      SubsetSize(s, {x});
    }
  }

  lemma {:induction false} SubsetSize(a: set<Id>, b: set<Id>)
    requires a <= b
    ensures |a| <= |b|
    decreases |a|
  {
    assert b == a + (b - a);
  }

  lemma MovedFits<V>(c: Nodes<V>, g: Layout, lists: map<Id, ListRec<V>>, rg: Roster, l: Id,
                     c': Nodes<V>, g': Layout, r: Id, rg': Roster, k: Id)
    requires Moved(c, g, lists, rg, l, c', g', r, rg') && k in lists
    ensures Fits(lists[l := MovedRec(lists[l], g'.chain[NULL], r)][k], Rekeyed(g', NULL, r).chain, rg'.home, k)
  {
    hide Laid, Texts, World;
    NoUsers(c, g, lists, rg, r);
    WorldFits(c, g, lists, rg, k);
    WorldFits(c, g, lists, rg, l);
    if k == l {
      MovedUsers(rg.home, l, r, r);
    } else {
      MovedUsers(rg.home, l, r, lists[k].ref);
      WorldKeys(c, g, lists, rg);
      if !lists[k].copies {
        StaysAlone(rg.home, l, k, lists[k].ref);
      }
    }
  }

  lemma WorldKeys<V>(c: Nodes<V>, g: Layout, lists: map<Id, ListRec<V>>, rg: Roster)
    requires World(c, g, lists, rg)
    ensures g.chain.Keys == rg.chain.Keys && NULL !in g.chain && rg.home.Keys == lists.Keys && Laid(c, g)
  {
    hide Laid, Fits;
  }

  lemma StaysAlone(home: map<Id, Id>, l: Id, k: Id, r: Id)
    requires UsersOf(home, r) == {k} && k != l
    ensures UsersOf(home, r) - {l} == {k}
  {
    hide UsersOf;
  }

  lemma MovedViews<V>(c: Nodes<V>, g: Layout, lists: map<Id, ListRec<V>>, rg: Roster, l: Id,
                      c': Nodes<V>, g': Layout, r: Id, rg': Roster)
    requires Moved(c, g, lists, rg, l, c', g', r, rg')
    ensures var g2, lists' := Rekeyed(g', NULL, r), lists[l := MovedRec(lists[l], g'.chain[NULL], r)];
      World(c', g2, lists', rg') && Views(c', g2, lists', rg') == Views(c, g, lists, rg)
  {
    hide Laid, Texts, World;
    MovedWorld(c, g, lists, rg, l, c', g', r, rg');
    WorldKeys(c, g, lists, rg);
    RekeyedTexts(c', g', NULL, r);
    var g2, lists' := Rekeyed(g', NULL, r), lists[l := MovedRec(lists[l], g'.chain[NULL], r)];
    WorldKeys(c', g2, lists', rg');
    forall k | k in lists
      ensures lists[k].ref in g.chain && lists'[k].ref in g2.chain
      ensures Texts(c', g2)[lists'[k].ref] == Texts(c, g)[lists[k].ref]
    {
      WorldFits(c, g, lists, rg, k);
    }
  }

  /** Every payload there was is there with its value, and held by a node only if it was before. */
  ghost predicate Keeps<V>(cells: map<Id, V>, holder: map<Id, Id>, cells': map<Id, V>, holder': map<Id, Id>) {
    forall p :: p in cells ==> p in cells' && cells'[p] == cells[p] && (p in holder' <==> p in holder)
  }

  lemma KeepsWith<V>(cells: map<Id, V>, holder: map<Id, Id>, p: Id, n: Id)
    ensures Keeps(cells, holder[p := NULL], cells, holder[p := n])
  {
  }

  lemma OnlyUser(users: set<Id>, l: Id)
    requires l in users && |users| <= 1
    ensures users == {l}
  {
    assert {l} + (users - {l}) == users;
  }

  // ----- a list comes or goes -----

  lemma NewViews<V>(c: Nodes<V>, g: Layout, lists: map<Id, ListRec<V>>, rg: Roster, r: Id, k: Id,
                    c': Nodes<V>, g': Layout, lists': map<Id, ListRec<V>>, rg': Roster)
    requires World(c, g, lists, rg) && r !in g.chain && k !in lists
    requires c' == c.(brk := c.brk + 1) && g' == g.(chain := g.chain[r := []])
    requires lists'.Keys == lists.Keys + {k} && lists'[k].ref == r
    requires forall l :: l in lists ==> lists'[l] == lists[l]
    requires World(c', g', lists', rg')
    ensures Views(c', g', lists', rg') == Views(c, g, lists, rg)[k := []]
  {
    hide Laid, Texts, World, Fits, UsersOf;
    WorldKeys(c, g, lists, rg);
    EmptyLaid(c, g, r);
    BumpLaid(c, g');
    forall x | x in lists ensures lists[x].ref in g.chain {
      WorldFits(c, g, lists, rg, x);
      FitsRef(lists[x], g.chain, rg.home, x);
    }
  }

  lemma NewIsWorld<V>(c: Nodes<V>, g: Layout, lists: map<Id, ListRec<V>>, rg: Roster, r: Id, x: ListRec<V>, rg': Roster)
    requires World(c, g, lists, rg) && r !in g.chain && r != NULL
    requires x.list == x.first == x.last == NULL && x.nodeCount == 0 && x.ref == r
    requires rg'.home == rg.home[c.brk := r] && rg'.chain.Keys == rg.chain.Keys + {r}
    ensures c.brk !in lists
    ensures World(c.(brk := c.brk + 1), g.(chain := g.chain[r := []]), lists[c.brk := x], rg')
  {
    hide Laid, Texts, World, Fits;
    WorldKeys(c, g, lists, rg);
    EmptyLaid(c, g, r);
    BumpLaid(c, g.(chain := g.chain[r := []]));
    NewFits(c, g, lists, rg, r, x, rg');
    WorldIs(c.(brk := c.brk + 1), g.(chain := g.chain[r := []]), lists[c.brk := x], rg');
  }

  lemma FitsRef<V>(x: ListRec<V>, chain: map<Id, seq<Id>>, home: map<Id, Id>, l: Id)
    requires Fits(x, chain, home, l)
    ensures x.ref in chain && l in home && home[l] == x.ref
  {
  }

  lemma WorldIs<V>(c: Nodes<V>, g: Layout, lists: map<Id, ListRec<V>>, rg: Roster)
    requires Laid(c, g) && g.chain.Keys == rg.chain.Keys && NULL !in g.chain && rg.home.Keys == lists.Keys
    requires forall l :: l in lists ==> 0 < l < c.brk && Fits(lists[l], g.chain, rg.home, l)
    requires forall r :: r in g.chain ==> UsersOf(rg.home, r) != {}
    ensures World(c, g, lists, rg)
  {
    hide Laid, Fits, UsersOf;
  }

  lemma WorldUsers<V>(c: Nodes<V>, g: Layout, lists: map<Id, ListRec<V>>, rg: Roster, r: Id)
    requires World(c, g, lists, rg) && r in g.chain
    ensures UsersOf(rg.home, r) != {}
  {
    hide Laid, Fits, UsersOf;
  }

  lemma BumpLaid<V>(c: Nodes<V>, g: Layout)
    requires Laid(c, g)
    ensures Laid(c.(brk := c.brk + 1), g) && Texts(c.(brk := c.brk + 1), g) == Texts(c, g)
  {
    hide Chain, Texts;
    var c' := c.(brk := c.brk + 1);
    forall p | p in g.holder ensures Holding(c', g, p) {
      assert Holding(c, g, p);
    }
    forall r | r in g.chain ensures Linked(c', g, r) {
      assert Linked(c, g, r);
    }
    forall n | n in g.owner ensures Held(c', g, n) {
      assert Held(c, g, n);
    }
    forall r | r in g.chain ensures Texts(c', g)[r] == Texts(c, g)[r] {
      assert Linked(c, g, r);
      forall n | n in g.chain[r] ensures Held(c, g, n) {
        assert n in g.owner;
      }
      SameText(c, g, r, c', g, r);
    }
  }

  lemma NewFits<V>(c: Nodes<V>, g: Layout, lists: map<Id, ListRec<V>>, rg: Roster, r: Id, x: ListRec<V>, rg': Roster)
    requires World(c, g, lists, rg) && r !in g.chain && r != NULL
    requires x.list == x.first == x.last == NULL && x.nodeCount == 0 && x.ref == r
    requires rg'.home == rg.home[c.brk := r] && rg'.chain.Keys == rg.chain.Keys + {r}
    ensures var g', lists' := g.(chain := g.chain[r := []]), lists[c.brk := x];
      && c.brk !in lists
      && (forall l :: l in lists' ==> 0 < l < c.brk + 1 && Fits(lists'[l], g'.chain, rg'.home, l))
      && (forall q :: q in g'.chain ==> UsersOf(rg'.home, q) != {})
  {
    hide World;
    var g', lists' := g.(chain := g.chain[r := []]), lists[c.brk := x];
    WorldKeys(c, g, lists, rg);
    NoUsers(c, g, lists, rg, r);
    if c.brk in lists {
      WorldFits(c, g, lists, rg, c.brk);
    }
    MovedUsers(rg.home, c.brk, r, r);
    forall l | l in lists' ensures 0 < l < c.brk + 1 && Fits(lists'[l], g'.chain, rg'.home, l) {
      if l != c.brk {
        WorldFits(c, g, lists, rg, l);
        MovedUsers(rg.home, c.brk, r, lists[l].ref);
        if !lists[l].copies {
          StaysAlone(rg.home, c.brk, l, lists[l].ref);
        }
      }
    }
    forall q | q in g'.chain ensures UsersOf(rg'.home, q) != {} {
      MovedUsers(rg.home, c.brk, r, q);
      if q != r {
        WorldUsers(c, g, lists, rg, q);
        assert c.brk !in rg.home;
        assert UsersOf(rg.home, q) - {c.brk} == UsersOf(rg.home, q);
      }
    }
  }

  /** A copy stands at the same chain. */
  lemma CopyWorld<V>(c: Nodes<V>, g: Layout, lists: map<Id, ListRec<V>>, rg: Roster, l: Id, rg': Roster)
    requires World(c, g, lists, rg) && l in lists && lists[l].copies
    requires rg'.home == rg.home[c.brk := lists[l].ref] && rg'.chain.Keys == rg.chain.Keys
    ensures c.brk !in lists && World(c.(brk := c.brk + 1), g, lists[c.brk := lists[l]], rg')
  {
    hide Laid, Texts, World, Fits, UsersOf;
    WorldKeys(c, g, lists, rg);
    BumpLaid(c, g);
    CopyFits(c, g, lists, rg, l, rg');
    WorldIs(c.(brk := c.brk + 1), g, lists[c.brk := lists[l]], rg');
  }

  lemma CopyViews<V>(c: Nodes<V>, g: Layout, lists: map<Id, ListRec<V>>, rg: Roster, l: Id, k: Id,
                     c': Nodes<V>, lists': map<Id, ListRec<V>>, rg': Roster)
    requires World(c, g, lists, rg) && l in lists && c' == c.(brk := c.brk + 1)
    requires k !in lists && lists' == lists[k := lists[l]] && World(c', g, lists', rg')
    ensures Views(c', g, lists', rg') == Views(c, g, lists, rg)[k := Views(c, g, lists, rg)[l]]
  {
    hide Laid, Texts, World, Fits, UsersOf;
    WorldKeys(c, g, lists, rg);
    BumpLaid(c, g);
    forall x | x in lists ensures lists[x].ref in g.chain {
      WorldFits(c, g, lists, rg, x);
      FitsRef(lists[x], g.chain, rg.home, x);
    }
  }

  lemma CopyFits<V>(c: Nodes<V>, g: Layout, lists: map<Id, ListRec<V>>, rg: Roster, l: Id, rg': Roster)
    requires World(c, g, lists, rg) && l in lists && lists[l].copies
    requires rg'.home == rg.home[c.brk := lists[l].ref] && rg'.chain.Keys == rg.chain.Keys
    ensures c.brk !in lists
    ensures var lists' := lists[c.brk := lists[l]];
      && (forall k :: k in lists' ==> 0 < k < c.brk + 1 && Fits(lists'[k], g.chain, rg'.home, k))
      && (forall q :: q in g.chain ==> UsersOf(rg'.home, q) != {})
  {
    hide World;
    var lists' := lists[c.brk := lists[l]];
    WorldKeys(c, g, lists, rg);
    WorldFits(c, g, lists, rg, l);
    if c.brk in lists {
      WorldFits(c, g, lists, rg, c.brk);
    }
    forall q ensures UsersOf(rg'.home, q) == UsersOf(rg.home, q) + if q == lists[l].ref then {c.brk} else {} {
      JoinedUsers(rg.home, c.brk, lists[l].ref, q);
    }
    forall k | k in lists' ensures 0 < k < c.brk + 1 && Fits(lists'[k], g.chain, rg'.home, k) {
      if k != c.brk {
        WorldFits(c, g, lists, rg, k);
        if lists[k].ref == lists[l].ref {
          assert l in UsersOf(rg.home, lists[k].ref);
        }
      }
    }
    forall q | q in g.chain ensures UsersOf(rg'.home, q) != {} {
      WorldUsers(c, g, lists, rg, q);
    }
  }

  lemma JoinedUsers(home: map<Id, Id>, k: Id, r: Id, q: Id)
    requires k !in home
    ensures UsersOf(home[k := r], q) == UsersOf(home, q) + if q == r then {k} else {}
  {
  }

  /** One of several users of a chain goes. */
  lemma LeaveWorld<V>(c: Nodes<V>, g: Layout, lists: map<Id, ListRec<V>>, rg: Roster, l: Id, rg': Roster)
    requires World(c, g, lists, rg) && l in lists && |UsersOf(rg.home, lists[l].ref)| > 1
    requires rg'.home == rg.home - {l} && rg'.chain.Keys == rg.chain.Keys
    ensures World(c, g, lists - {l}, rg') && Views(c, g, lists - {l}, rg') == Views(c, g, lists, rg) - {l}
  {
    hide Laid, Texts, World, Fits, UsersOf;
    WorldKeys(c, g, lists, rg);
    LeaveFits(c, g, lists, rg, l, rg');
    WorldIs(c, g, lists - {l}, rg');
  }

  lemma LeaveFits<V>(c: Nodes<V>, g: Layout, lists: map<Id, ListRec<V>>, rg: Roster, l: Id, rg': Roster)
    requires World(c, g, lists, rg) && l in lists && |UsersOf(rg.home, lists[l].ref)| > 1
    requires rg'.home == rg.home - {l} && rg'.chain.Keys == rg.chain.Keys
    ensures forall k :: k in lists - {l} ==> 0 < k < c.brk && Fits(lists[k], g.chain, rg'.home, k)
    ensures forall q :: q in g.chain ==> UsersOf(rg'.home, q) != {}
  {
    hide World;
    WorldFits(c, g, lists, rg, l);
    forall q ensures UsersOf(rg'.home, q) == UsersOf(rg.home, q) - {l} {
      LeftUsers(rg.home, l, q);
    }
    forall k | k in lists - {l} ensures 0 < k < c.brk && Fits(lists[k], g.chain, rg'.home, k) {
      WorldFits(c, g, lists, rg, k);
    }
    forall q | q in g.chain ensures UsersOf(rg'.home, q) != {} {
      WorldUsers(c, g, lists, rg, q);
      if q == lists[l].ref {
        OthersRemain(UsersOf(rg.home, q), l);
      } else {
        assert l !in UsersOf(rg.home, q);
      }
    }
  }

  lemma LeftUsers(home: map<Id, Id>, l: Id, q: Id)
    ensures UsersOf(home - {l}, q) == UsersOf(home, q) - {l}
  {
  }

  /** The last user of a chain goes, and the chain with it. */
  lemma EndWorld<V>(c: Nodes<V>, g: Layout, lists: map<Id, ListRec<V>>, rg: Roster, l: Id,
                    c': Nodes<V>, g': Layout, rg': Roster)
    requires World(c, g, lists, rg) && l in lists && UsersOf(rg.home, lists[l].ref) == {l}
    requires Laid(c', g') && c'.brk == c.brk && g'.chain == g.chain - {lists[l].ref}
    requires Texts(c', g') == Texts(c, g) - {lists[l].ref}
    requires rg'.home == rg.home - {l} && rg'.chain.Keys == rg.chain.Keys - {lists[l].ref}
    ensures World(c', g', lists - {l}, rg')
    ensures Views(c', g', lists - {l}, rg') == Views(c, g, lists, rg) - {l}
  {
    hide Laid, Texts, World, Fits, UsersOf;
    WorldKeys(c, g, lists, rg);
    EndFits(c, g, lists, rg, l, g', rg');
    WorldIs(c', g', lists - {l}, rg');
    var now, was := Views(c', g', lists - {l}, rg'), Views(c, g, lists, rg);
    forall k | k in lists - {l} ensures now[k] == was[k] {
      FitsRef(lists[k], g'.chain, rg'.home, k);
    }
  }

  lemma EndFits<V>(c: Nodes<V>, g: Layout, lists: map<Id, ListRec<V>>, rg: Roster, l: Id, g': Layout, rg': Roster)
    requires World(c, g, lists, rg) && l in lists && UsersOf(rg.home, lists[l].ref) == {l}
    requires g'.chain == g.chain - {lists[l].ref} && rg'.home == rg.home - {l}
    ensures forall k :: k in lists - {l} ==> 0 < k < c.brk && Fits(lists[k], g'.chain, rg'.home, k)
    ensures forall q :: q in g'.chain ==> UsersOf(rg'.home, q) != {}
  {
    hide World;
    WorldFits(c, g, lists, rg, l);
    forall q ensures UsersOf(rg'.home, q) == UsersOf(rg.home, q) - {l} {
      LeftUsers(rg.home, l, q);
    }
    forall k | k in lists - {l} ensures 0 < k < c.brk && Fits(lists[k], g'.chain, rg'.home, k) {
      WorldFits(c, g, lists, rg, k);
      assert k in UsersOf(rg.home, lists[k].ref);
    }
    forall q | q in g'.chain ensures UsersOf(rg'.home, q) != {} {
      WorldUsers(c, g, lists, rg, q);
      assert l !in UsersOf(rg.home, q);
    }
  }

  class Lists<V> {
    var c: Nodes<V>
    var lists: map<Id, ListRec<V>>
    const refs: RefCounts
    ghost var g: Layout

    ghost predicate Valid()
      reads this, refs
    {
      refs.Valid() && World(c, g, lists, refs.g)
    }

    constructor ()
      ensures Valid() && fresh(refs) && lists == map[]
    {
      c := Nodes(Links(map[], map[]), map[], map[], 1);
      lists := map[];
      g := Layout(map[], map[], map[]);
      refs := new RefCounts();
    }

    /** What every list holds. */
    ghost function View(): map<Id, seq<V>>
      reads this, refs
      requires Valid()
    {
      Views(c, g, lists, refs.g)
    }

    /** Other lists stand at the chain of `l`. */
    ghost predicate Shared(l: Id)
      reads this, refs
      requires l in lists
    {
      |UsersOf(refs.g.home, lists[l].ref)| > 1
    }

    // ----- nodes -----

    /** xmalloc of a payload. */
    method NewCell(v: V) returns (p: Id)
      requires Laid(c, g)
      modifies this`c
      ensures Laid(c, g) && Texts(c, g) == old(Texts(c, g))
      ensures p == old(c.brk) && p !in g.holder && p !in old(c.cells)
      ensures c == old(c).(cells := old(c).cells[p := v], brk := p + 1)
    {
      hide Laid, Texts;
      CellLaid(c, g, v);
      p := c.brk;
      c := c.(cells := c.cells[p := v], brk := p + 1);
    }

    /** A new node behind the chain of `r`. */
    method NodeLast(ghost r: Id, last: Id, p: Id) returns (n: Id)
      requires Laid(c, g) && r in g.chain && last == Last(g.chain[r]) && p in c.cells && p !in g.holder
      modifies this`c, this`g
      ensures Laid(c, g) && n == old(c.brk) && n > 0
      ensures g.chain == old(g.chain)[r := old(g.chain[r]) + [n]] && g.holder == old(g.holder)[p := n]
      ensures c.cells == old(c.cells) && c.payload == old(c.payload)[n := p] && c.brk == n + 1
      ensures Texts(c, g) == old(Texts(c, g))[r := old(Texts(c, g))[r] + [c.cells[p]]]
    {
      hide Laid, Texts, Chain;
      LaidChain(c, g, r);
      EndsAreThere(c.links, g.chain[r]);
      AddLast(c, g, r, p);
      NodeIsFresh(c, g);
      AddedLast(c, g, r, p, LinkLast(c.links, last, c.brk));
      n := c.brk;
      g := Grown(g, r, g.chain[r] + [n], n, p);
      c := Nodes(LinkLast(c.links, last, n), c.payload[n := p], c.cells, n + 1);
    }

    /** A new node before the chain of `r`. */
    method NodeFirst(ghost r: Id, first: Id, p: Id) returns (n: Id)
      requires Laid(c, g) && r in g.chain && first == Head(g.chain[r]) && p in c.cells && p !in g.holder
      modifies this`c, this`g
      ensures Laid(c, g) && n == old(c.brk) && n > 0
      ensures g.chain == old(g.chain)[r := [n] + old(g.chain[r])] && g.holder == old(g.holder)[p := n]
      ensures c.cells == old(c.cells) && c.payload == old(c.payload)[n := p] && c.brk == n + 1
      ensures Texts(c, g) == old(Texts(c, g))[r := [c.cells[p]] + old(Texts(c, g))[r]]
    {
      hide Laid, Texts, Chain;
      LaidChain(c, g, r);
      EndsAreThere(c.links, g.chain[r]);
      AddFirst(c, g, r, p);
      NodeIsFresh(c, g);
      AddedFirst(c, g, r, p, LinkFirst(c.links, first, c.brk));
      n := c.brk;
      g := Grown(g, r, [n] + g.chain[r], n, p);
      c := Nodes(LinkFirst(c.links, first, n), c.payload[n := p], c.cells, n + 1);
    }

    /** The round of the deep copy that copies the payload of the node `p`. */
    method CopyNode(ghost r: Id, ghost i: nat, p: Id, first: Id, last: Id) returns (next: Id, first': Id, last': Id)
      requires Laid(c, g) && r in g.chain && NULL in g.chain && r != NULL
      requires i < |g.chain[r]| && p == g.chain[r][i] && |Texts(c, g)[r]| == |g.chain[r]|
      requires first == Head(g.chain[NULL]) && last == Last(g.chain[NULL])
      modifies this`c, this`g
      ensures Laid(c, g) && next == Head(old(g.chain[r])[i + 1..])
      ensures g.chain == old(g.chain)[NULL := old(g.chain[NULL]) + [last']]
      ensures first' == Head(g.chain[NULL]) && last' == Last(g.chain[NULL])
      ensures Texts(c, g) == old(Texts(c, g))[NULL := old(Texts(c, g))[NULL] + [old(Texts(c, g))[r][i]]]
      ensures c.brk >= old(c.brk) && Keeps(old(c.cells), old(g.holder), c.cells, g.holder)
      ensures last' in c.payload && c.payload[last'] !in old(c.cells)
      ensures forall n :: n in old(c.payload) ==> n in c.payload && c.payload[n] == old(c.payload)[n]
    {
      hide Laid, Texts, Chain;
      TextAt(c, g, r, i);
      var q := NewCell(c.cells[c.payload[p]]);
      NodeIsFresh(c, g);
      LaidKeys(c, g);
      last' := NodeLast(NULL, last, q);
      first' := if first == NULL then last' else first;
      EndIsThere(c, g, NULL);
      ghost var s := g.chain[r];
      LaidChain(c, g, r);
      NeighboursOf(c.links, s, i);
      next := c.links.next[p];
      assert i + 1 < |s| ==> s[i + 1..][0] == s[i + 1];
      FirstIsThere(old(c), old(g), NULL);
    }

    /** The deep copy of a chain. `NULL` stands for the count that the copy has not got yet. */
    method CopyChain(ghost r: Id, list: Id) returns (first: Id, last: Id)
      requires Laid(c, g) && r in g.chain && NULL !in g.chain && list == Head(g.chain[r])
      modifies this`c, this`g
      ensures Laid(c, g) && NULL in g.chain && g.chain == old(g.chain)[NULL := g.chain[NULL]]
      ensures first == Head(g.chain[NULL]) && last == Last(g.chain[NULL]) && |g.chain[NULL]| == |g.chain[r]|
      ensures Texts(c, g) == old(Texts(c, g))[NULL := old(Texts(c, g))[r]]
      ensures c.brk >= old(c.brk) && Keeps(old(c.cells), old(g.holder), c.cells, g.holder)
      ensures forall n :: n in g.chain[NULL] ==> n in c.payload && c.payload[n] !in old(c.cells)
    {
      hide Laid, Texts, Chain;
      ghost var s, text := g.chain[r], Texts(c, g)[r];
      TextLength(c, g, r);
      EmptyLaid(c, g, NULL);
      g := g.(chain := g.chain[NULL := []]);
      first, last := NULL, NULL;
      var p := list;
      ghost var i := 0;
      while p != NULL
        invariant Laid(c, g) && i <= |s| && p == Head(s[i..])
        invariant NULL in g.chain && |g.chain[NULL]| == i && g.chain == old(g.chain)[NULL := g.chain[NULL]]
        invariant first == Head(g.chain[NULL]) && last == Last(g.chain[NULL])
        invariant Texts(c, g) == old(Texts(c, g))[NULL := text[..i]]
        invariant c.brk >= old(c.brk) && Keeps(old(c.cells), old(g.holder), c.cells, g.holder)
        invariant forall n :: n in g.chain[NULL] ==> n in c.payload && c.payload[n] !in old(c.cells)
        decreases |s| - i
      {
        assert s[i..][0] == s[i] && text[..i] + [text[i]] == text[..i + 1];
        p, first, last := CopyNode(r, i, p, first, last);
        i := i + 1;
      }
      WholeChain(c, g, r, i);
      assert text[..i] == text;
    }
  
    // ----- lists -----

    /** ListNew. */
    method New(compare: Option<(V, V) -> int>, copies: bool, destroys: bool) returns (l: Id)
      requires Valid()
      modifies this, refs
      ensures Valid() && l !in old(lists) && View() == old(View())[l := []]
      ensures lists.Keys == old(lists).Keys + {l} && c.cells == old(c.cells) && g.holder == old(g.holder)
      ensures UsersOf(refs.g.home, lists[l].ref) == {l}
      ensures lists[l].compare == compare && lists[l].copies == copies && lists[l].destroys == destroys
      ensures forall k :: k in old(lists) ==> lists[k] == old(lists)[k]
    {
      hide Laid, Texts, World, UsersOf, Ok;
      ghost var rg := refs.g;
      WorldKeys(c, g, lists, rg);
      l := c.brk;
      var r := refs.New();
      refs.Attach(r, l) by {
        NoListYet(c, g, lists, rg);
      }
      NoUsers(c, g, lists, rg, r);
      MovedUsers(rg.home, l, r, r);
      var x := ListRec(NULL, NULL, NULL, 0, r, compare, copies, destroys);
      NewIsWorld(c, g, lists, rg, r, x, refs.g);
      NewViews(c, g, lists, rg, r, l, c.(brk := c.brk + 1), g.(chain := g.chain[r := []]), lists[l := x], refs.g);
      c, lists, g := c.(brk := c.brk + 1), lists[l := x], g.(chain := g.chain[r := []]);
    }

    /** ListCopy: nothing without a copy function; otherwise the copy shares the chain. */
    method Copy(l: Id) returns (k: Option<Id>)
      requires Valid() && l in lists
      modifies this, refs
      ensures Valid() && (k.Some? <==> old(lists)[l].copies)
      ensures k.None? ==> lists == old(lists) && View() == old(View())
      ensures k.Some? ==> k.value !in old(lists) && View() == old(View())[k.value := old(View())[l]]
      ensures k.Some? ==> lists == old(lists)[k.value := old(lists)[l]] && Shared(l)
      ensures c.cells == old(c.cells) && c.payload == old(c.payload) && g == old(g)
    {
      hide Laid, Texts, World, UsersOf, Ok, Fits;
      if !lists[l].copies {
        return None;
      }
      ghost var rg := refs.g;
      WorldKeys(c, g, lists, rg);
      WorldFits(c, g, lists, rg, l);
      FitsRef(lists[l], g.chain, rg.home, l);
      NoListYet(c, g, lists, rg);
      var d := c.brk;
      refs.Attach(lists[l].ref, d);
      CopyWorld(c, g, lists, rg, l, refs.g);
      CopyViews(c, g, lists, rg, l, d, c.(brk := d + 1), lists[d := lists[l]], refs.g);
      BothUse(refs.g.home, l, d, lists[l].ref);
      c, lists := c.(brk := d + 1), lists[d := lists[l]];
      k := Some(d);
    }

    /** The deep copy, and the change of counts. */
    method Unshare(l: Id)
      requires Valid() && l in lists && Shared(l)
      modifies this, refs
      ensures Valid() && View() == old(View()) && OnlyAt(old(lists), lists, l)
      ensures UsersOf(refs.g.home, lists[l].ref) == {l}
      ensures Keeps(old(c.cells), old(g.holder), c.cells, g.holder) && Renewed(l, old(c.cells.Keys))
    {
      hide Laid, Texts, World, Ok, Fits, Chain, UsersOf, Keeps;
      ghost var rg, c0, g0, lists0 := refs.g, c, g, lists;
      WorldKeys(c, g, lists, rg);
      WorldFits(c, g, lists, rg, l);
      FitsRef(lists[l], g.chain, rg.home, l);
      var x := lists[l];
      FitsEnds(x, g.chain, rg.home, l);
      var first, last := CopyChain(x.ref, x.list);
      var r := refs.Replace(x.ref, l);
      MovedViews(c0, g0, lists0, rg, l, c, g, r, refs.g);
      x := x.(list := first, first := first, last := last, ref := r);
      OnlyAtIs(lists, l, x);
      lists := lists[l := x];
      g := Rekeyed(g, NULL, r);
      NoUsers(c0, g0, lists0, rg, r);
      MovedUsers(rg.home, l, r, r);
    }

    /** ListDetach: a list that shares its chain gets a copy of it for its own. */
    method Detach(l: Id)
      requires Valid() && l in lists
      modifies this, refs
      ensures Valid() && View() == old(View()) && OnlyAt(old(lists), lists, l)
      ensures UsersOf(refs.g.home, lists[l].ref) == {l}
      ensures Keeps(old(c.cells), old(g.holder), c.cells, g.holder)
      ensures !old(Shared(l)) ==> c == old(c) && g == old(g) && lists == old(lists)
      ensures old(Shared(l)) ==> Renewed(l, old(c.cells.Keys))
    {
      hide Laid, Texts, World, Ok, Fits, Chain;
      WorldKeys(c, g, lists, refs.g);
      WorldFits(c, g, lists, refs.g, l);
      FitsRef(lists[l], g.chain, refs.g.home, l);
      var shared := refs.IsShared(lists[l].ref);
      if shared {
        Unshare(l);
      } else {
        assert l in UsersOf(refs.g.home, lists[l].ref);
        OnlyUser(UsersOf(refs.g.home, lists[l].ref), l);
      }
    }

    /** None of the list's payloads is one of the given pointers. */
    ghost predicate Renewed(l: Id, old_: set<Id>)
      reads this
      requires l in lists
    {
      && lists[l].ref in g.chain
      && forall n :: n in g.chain[lists[l].ref] ==> n in c.payload && c.payload[n] !in old_
    }

    /** Some node of the list holds the payload `p`. */
    ghost predicate Carries(l: Id, p: Id)
      reads this
      requires l in lists
    {
      lists[l].ref in g.chain && exists n :: n in g.chain[lists[l].ref] && n in c.payload && c.payload[n] == p
    }

    /** A node behind the chain that the list has for its own. */
    method AppendOwn(l: Id, p: Id)
      requires Valid() && l in lists && p in c.cells && p !in g.holder
      requires UsersOf(refs.g.home, lists[l].ref) == {l}
      modifies this
      ensures Valid() && View() == old(View())[l := old(View())[l] + [old(c.cells)[p]]]
      ensures OnlyAt(old(lists), lists, l) && lists[l].ref == old(lists[l].ref)
      ensures Carries(l, p) && Keeps(old(c.cells), old(g.holder)[p := NULL], c.cells, g.holder)
    {
      hide Laid, Texts, World, Ok, Fits, Chain, UsersOf, OnlyAt, Keeps;
      var x := lists[l];
      ghost var c0, g0 := c, g;
      WorldKeys(c, g, lists, refs.g);
      WorldFits(c, g, lists, refs.g, l);
      FitsEnds(x, g.chain, refs.g.home, l);
      var n := NodeLast(x.ref, x.last, p);
      if x.last == NULL {
        x := x.(list := n, first := n);
      }
      x := x.(last := n, nodeCount := x.nodeCount + 1);
      AppendFits(c0, g0, lists[l], x, refs.g.home, l, n, g.chain);
      assert n in g.chain[x.ref] && c.payload[n] == p;
      KeepsWith(c.cells, g0.holder, p, n);
      ChangedWorld(c0, g0, lists, refs.g, l, c, g, x);
      OnlyAtIs(lists, l, x);
      lists := lists[l := x];
    }

    /** ListAppend. */
    method Append(l: Id, p: Id)
      requires Valid() && l in lists && p in c.cells && p !in g.holder
      modifies this, refs
      ensures Valid() && View() == old(View())[l := old(View())[l] + [old(c.cells)[p]]]
      ensures OnlyAt(old(lists), lists, l) && UsersOf(refs.g.home, lists[l].ref) == {l}
      ensures Carries(l, p) && Keeps(old(c.cells), old(g.holder)[p := NULL], c.cells, g.holder)
    {
      hide Laid, Texts, World, Ok, UsersOf;
      Detach(l);
      AppendOwn(l, p);
    }

    /** A node before the chain that the list has for its own. */
    method PrependOwn(l: Id, p: Id)
      requires Valid() && l in lists && p in c.cells && p !in g.holder
      requires UsersOf(refs.g.home, lists[l].ref) == {l}
      modifies this
      ensures Valid() && View() == old(View())[l := [old(c.cells)[p]] + old(View())[l]]
      ensures OnlyAt(old(lists), lists, l) && lists[l].ref == old(lists[l].ref)
    {
      hide Laid, Texts, World, Ok, Fits, Chain, UsersOf, OnlyAt, Keeps;
      var x := lists[l];
      ghost var c0, g0 := c, g;
      WorldKeys(c, g, lists, refs.g);
      WorldFits(c, g, lists, refs.g, l);
      FitsEnds(x, g.chain, refs.g.home, l);
      var n := NodeFirst(x.ref, x.list, p);
      if x.list == NULL {
        x := x.(last := n);
      }
      x := x.(list := n, first := n, nodeCount := x.nodeCount + 1);
      PrependFits(c0, g0, lists[l], x, refs.g.home, l, n, g.chain);
      ChangedWorld(c0, g0, lists, refs.g, l, c, g, x);
      OnlyAtIs(lists, l, x);
      lists := lists[l := x];
    }

    /** ListPrepend. */
    method Prepend(l: Id, p: Id)
      requires Valid() && l in lists && p in c.cells && p !in g.holder
      modifies this, refs
      ensures Valid() && View() == old(View())[l := [old(c.cells)[p]] + old(View())[l]]
      ensures OnlyAt(old(lists), lists, l) && UsersOf(refs.g.home, lists[l].ref) == {l}
    {
      hide Laid, Texts, World, Ok, UsersOf;
      Detach(l);
      PrependOwn(l, p);
    }
  
    /** The search of ListFindNode and ListRemove: the first node that matches, or none. */
    method FindNode(l: Id, key: Id) returns (node: Id, ghost i: nat)
      requires Valid() && l in lists && key in c.cells && lists[l].ref in g.chain
      ensures FirstHit(lists[l], c, g.chain[lists[l].ref], key, i) && node == Head(g.chain[lists[l].ref][i..])
      ensures node == NULL <==> i == |g.chain[lists[l].ref]|
    {
      hide Laid, World, Ok, Fits, Chain;
      WorldKeys(c, g, lists, refs.g);
      WorldFits(c, g, lists, refs.g, l);
      FitsEnds(lists[l], g.chain, refs.g.home, l);
      ghost var s := g.chain[lists[l].ref];
      LaidChain(c, g, lists[l].ref);
      node, i := lists[l].list, 0;
      while node != NULL
        invariant i <= |s| && node == Head(s[i..])
        invariant forall j :: 0 <= j < i ==> !Hit(lists[l], c, s[j], key)
        decreases |s| - i
      {
        assert s[i..][0] == s[i];
        if Matches(lists[l].compare, c.cells[c.payload[node]], c.cells[key], c.payload[node], key) {
          return;
        }
        NeighboursOf(c.links, s, i);
        assert i + 1 < |s| ==> s[i + 1..][0] == s[i + 1];
        node, i := c.links.next[node], i + 1;
      }
      WholeChain(c, g, lists[l].ref, i);
    }

    /** A node leaves the chain of `r`; its payload is released. */
    method DropNode(ghost r: Id, node: Id, ghost i: nat)
      requires Laid(c, g) && r in g.chain && i < |g.chain[r]| && node == g.chain[r][i]
      modifies this`c, this`g
      ensures Laid(c, g) && g.chain == old(g.chain)[r := Without(old(g.chain[r]), i)] && c.brk == old(c.brk)
      ensures i < |old(Texts(c, g))[r]|
      ensures Texts(c, g) == old(Texts(c, g))[r := WithoutValue(old(Texts(c, g))[r], i)]
      ensures node in old(c).payload && old(c).payload[node] in old(c).cells
      ensures c.cells == old(c).cells - {old(c).payload[node]}
    {
      hide Laid, Texts, Chain, Unlink;
      LaidChain(c, g, r);
      NeighboursOf(c.links, g.chain[r], i);
      UnlinkIsSafe(c.links, g.chain[r], i);
      DroppedAt(c, g, r, i, c.cells - {c.payload[node]});
      g := Shrunk(c, g, r, i);
      c := Nodes(Unlink(c.links, node), c.payload - {node}, c.cells - {c.payload[node]}, c.brk);
    }

    /** Taking a node out of a chain that the list has for its own. */
    method RemoveOwn(l: Id, node: Id, ghost i: nat)
      requires Valid() && l in lists && UsersOf(refs.g.home, lists[l].ref) == {l} && lists[l].ref in g.chain
      requires i < |g.chain[lists[l].ref]| && node == g.chain[lists[l].ref][i]
      modifies this
      ensures Valid() && i < |old(View())[l]| && View() == old(View())[l := WithoutValue(old(View())[l], i)]
      ensures OnlyAt(old(lists), lists, l) && lists[l].ref == old(lists[l].ref)
      ensures node in old(c).payload && c.cells == old(c).cells - {old(c).payload[node]}
      ensures old(c).payload[node] in old(c).cells
    {
      hide Laid, World, Texts, Ok, Fits, Chain, Without, WithoutValue, UsersOf, OnlyAt;
      ghost var r, c0, g0 := lists[l].ref, c, g;
      WorldKeys(c, g, lists, refs.g);
      WorldFits(c, g, lists, refs.g, l);
      LaidChain(c, g, r);
      NeighboursOf(c.links, g.chain[r], i);
      var next, prev, x := c.links.next[node], c.links.prev[node], lists[l];
      if next != NULL && prev != NULL {
      } else if next != NULL {
        x := x.(list := next, first := next);
      } else if prev != NULL {
        x := x.(last := prev);
      } else {
        x := x.(list := NULL, first := NULL, last := NULL);
      }
      x := x.(nodeCount := x.nodeCount - 1);
      assert x == Passed(lists[l], next, prev);
      hide Passed;
      DropNode(r, node, i);
      RemoveFits(c0, g0, lists[l], x, refs.g.home, l, i, g.chain);
      ChangedWorld(c0, g0, lists, refs.g, l, c, g, x);
      OnlyAtIs(lists, l, x);
      lists := lists[l := x];
    }

    /** The second half of ListRemove: detach and search again. */
    method FindAgain(l: Id, key: Id, ghost i: nat) returns (node: Id)
      requires Valid() && l in lists && key in c.cells && lists[l].ref in g.chain
      requires FirstHit(lists[l], c, g.chain[lists[l].ref], key, i) && i < |g.chain[lists[l].ref]|
      modifies this, refs
      ensures Valid() && View() == old(View()) && OnlyAt(old(lists), lists, l)
      ensures UsersOf(refs.g.home, lists[l].ref) == {l}
      ensures node == NULL <==> old(lists)[l].compare.None? && old(Shared(l))
      ensures node != NULL ==>
        lists[l].ref in g.chain && i < |g.chain[lists[l].ref]| && node == g.chain[lists[l].ref][i]
    {
      hide Laid, World, Texts, Ok, Fits, Chain, UsersOf, FirstHit;
      ghost var c0, g0, lists0, shared := c, g, lists, Shared(l);
      ViewIs(c, g, lists, refs.g, l);
      Detach(l);
      ViewIs(c, g, lists, refs.g, l);
      ghost var k;
      node, k := FindNode(l, key) by {
        assert key in c.cells;
      }
      SecondSearch(c0, g0, lists0[l], c, g, lists[l], key, i, k, shared);
      if k < |g.chain[lists[l].ref]| {
        assert g.chain[lists[l].ref][k..][0] == g.chain[lists[l].ref][k];
      }
    }

    /** ListRemove. The list is searched, detached and searched again. Without a comparison function
        the second search looks for a pointer that the deep copy has replaced, so it is lost exactly
        when the list shares its chain. */
    method Remove(l: Id, key: Id) returns (out: Outcome, ghost i: nat)
      requires Valid() && l in lists && key in c.cells && lists[l].ref in g.chain
      modifies this, refs
      ensures Valid() && FirstHit(old(lists)[l], old(c), old(g.chain[lists[l].ref]), key, i)
      ensures |old(View())[l]| == |old(g.chain[lists[l].ref])| && i <= |old(View())[l]|
      ensures out == Missing <==> i == |old(View())[l]|
      ensures out == Lost <==> i < |old(View())[l]| && old(lists)[l].compare.None? && old(Shared(l))
      ensures out == Done ==> View() == old(View())[l := WithoutValue(old(View())[l], i)]
      ensures out != Done ==> View() == old(View())
      ensures OnlyAt(old(lists), lists, l)
      ensures if out == Missing then lists == old(lists) else UsersOf(refs.g.home, lists[l].ref) == {l}
    {
      hide Laid, World, Texts, Ok, Fits, Chain, UsersOf, FirstHit;
      ViewIs(c, g, lists, refs.g, l);
      TextLength(c, g, lists[l].ref);
      HitLength(lists[l], c, g.chain[lists[l].ref], key);
      var node;
      node, i := FindNode(l, key);
      if node == NULL {
        return Missing, i;
      }
      node := FindAgain(l, key, i);
      if node == NULL {
        return Lost, i;
      }
      RemoveOwn(l, node, i);
      out := Done;
    }
  
    /** The loop of ListDestroy over the nodes of a chain. */
    method FreeChain(ghost r: Id, first: Id, destroys: bool)
      requires Laid(c, g) && r in g.chain && first == Head(g.chain[r])
      modifies this`c, this`g
      ensures Laid(c, g) && g.chain == old(g.chain) - {r} && c.brk == old(c.brk)
      ensures Texts(c, g) == old(Texts(c, g)) - {r}
      ensures c.cells == old(c.cells) - if destroys then Carried(old(c), Elements(old(g.chain[r]))) else {}
    {
      hide Laid, Texts, Freed, Carried, Elements;
      ghost var c0, g0, s, i := c, g, g.chain[r], 0;
      var node := first;
      NothingFreed(c, s, destroys);
      while node != NULL
        invariant i <= |s| && node == Head(s[i..]) && c == FreedTo(c0, s, i, destroys) && g == g0
        decreases |s| - i
      {
        FreeStep(c0, g0, r, i, destroys);
        assert s[i..][0] == s[i];
        var cells := if destroys then c.cells - {c.payload[node]} else c.cells;
        var p := c.links.next[node];
        c := Nodes(Links(c.links.next - {node}, c.links.prev - {node}), c.payload - {node}, cells, c.brk);
        node, i := p, i + 1;
      }
      WholeChain(c0, g, r, i);
      assert s[..i] == s;
      AllFreed(c0, g, r, destroys);
      g := Emptied(c0, g, r);
    }

    /** ListDestroy: the last list of a chain takes the chain with it. */
    method Destroy(l: Id)
      requires Valid() && l in lists
      modifies this, refs
      ensures Valid() && View() == old(View()) - {l} && lists == old(lists) - {l}
      ensures old(Shared(l)) ==> c == old(c)
    {
      hide Laid, Texts, World, Ok, Fits, Chain;
      ghost var rg, c0, g0, lists0 := refs.g, c, g, lists;
      WorldKeys(c, g, lists, rg);
      WorldFits(c, g, lists, rg, l);
      FitsRef(lists[l], g.chain, rg.home, l);
      FitsEnds(lists[l], g.chain, rg.home, l);
      var r := lists[l].ref;
      var shared := refs.IsShared(r);
      if shared {
        refs.Detach(r, l);
        LeaveWorld(c, g, lists, rg, l, refs.g);
        lists := lists - {l};
      } else {
        assert l in UsersOf(rg.home, r);
        OnlyUser(UsersOf(rg.home, r), l);
        FreeChain(r, lists[l].first, lists[l].destroys);
        refs.Destroy(r, l);
        EndWorld(c0, g0, lists0, rg, l, c, g, refs.g);
        lists := lists - {l};
      }
    }
  }

  lemma NothingFreed<V>(c: Nodes<V>, s: seq<Id>, destroys: bool)
    ensures FreedTo(c, s, 0, destroys) == c
  {
    assert Elements(s[..0]) == {} && Carried(c, {}) == {};
    assert c.links.next - {} == c.links.next && c.links.prev - {} == c.links.prev;
    assert c.payload - {} == c.payload && c.cells - {} == c.cells;
  }

  lemma AllFreed<V>(c: Nodes<V>, g: Layout, r: Id, destroys: bool)
    requires Laid(c, g) && r in g.chain
    ensures var s := g.chain[r]; var c', g' := FreedTo(c, s, |s|, destroys), Emptied(c, g, r);
      && Laid(c', g') && Texts(c', g') == Texts(c, g) - {r} && c'.brk == c.brk
      && c'.cells == c.cells - if destroys then Carried(c, Elements(s)) else {}
  {
    hide Laid, Texts;
    var s := g.chain[r];
    assert s[..|s|] == s;
    FreedTexts(c, g, r, if destroys then Carried(c, Elements(s)) else {});
  }

  lemma ViewIs<V>(c: Nodes<V>, g: Layout, lists: map<Id, ListRec<V>>, rg: Roster, l: Id)
    requires World(c, g, lists, rg) && l in lists
    ensures lists[l].ref in g.chain && Laid(c, g) && Views(c, g, lists, rg)[l] == Texts(c, g)[lists[l].ref]
  {
    hide Laid, Texts;
    WorldFits(c, g, lists, rg, l);
  }

  datatype Outcome = Done | Missing | Lost

  predicate Matches<V>(compare: Option<(V, V) -> int>, v: V, w: V, p: Id, key: Id) {
    match compare
    case Some(f) => f(v, w) == 0
    case None => p == key
  }

  /** The node `n` holds what the search for `key` is after. */
  ghost predicate Hit<V>(x: ListRec<V>, c: Nodes<V>, n: Id, key: Id) {
    && n in c.payload && c.payload[n] in c.cells && key in c.cells
    && Matches(x.compare, c.cells[c.payload[n]], c.cells[key], c.payload[n], key)
  }

  ghost predicate FirstHit<V>(x: ListRec<V>, c: Nodes<V>, s: seq<Id>, key: Id, i: nat) {
    && i <= |s| && (forall j :: 0 <= j < i ==> !Hit(x, c, s[j], key))
    && (i < |s| ==> Hit(x, c, s[i], key))
  }

  lemma HitLength<V>(x: ListRec<V>, c: Nodes<V>, s: seq<Id>, key: Id)
    ensures forall i: nat :: FirstHit(x, c, s, key, i) ==> i <= |s|
  {
  }

  /** What the second search finds: with a comparison the same place as the first, and without one
      nothing if the payloads are new. */
  lemma SecondSearch<V>(c: Nodes<V>, g: Layout, x: ListRec<V>, c': Nodes<V>, g': Layout, x': ListRec<V>,
                        key: Id, i: nat, k: nat, renewed: bool)
    requires Laid(c, g) && Laid(c', g') && x.ref in g.chain && x'.ref in g'.chain && x.compare == x'.compare
    requires key in c.cells && Keeps(c.cells, g.holder, c'.cells, g'.holder)
    requires Texts(c', g')[x'.ref] == Texts(c, g)[x.ref]
    requires if renewed then forall n :: n in g'.chain[x'.ref] ==> n in c'.payload && c'.payload[n] !in c.cells
             else c' == c && g' == g && x' == x
    requires FirstHit(x, c, g.chain[x.ref], key, i) && i < |g.chain[x.ref]|
    requires FirstHit(x', c', g'.chain[x'.ref], key, k)
    ensures |g'.chain[x'.ref]| == |g.chain[x.ref]|
    ensures k == if renewed && x.compare.None? then |g'.chain[x'.ref]| else i
  {
    hide Laid, Texts;
    var s, s' := g.chain[x.ref], g'.chain[x'.ref];
    TextLength(c, g, x.ref);
    TextLength(c', g', x'.ref);
    if x.compare.Some? {
      forall j | 0 <= j < |s| ensures Hit(x, c, s[j], key) <==> Hit(x', c', s'[j], key) {
        TextAt(c, g, x.ref, j);
        TextAt(c', g', x'.ref, j);
      }
    } else if renewed {
      forall j | 0 <= j < |s'| ensures !Hit(x', c', s'[j], key) {
        assert s'[j] in s';
      }
    }
  }

  /** The list's record when a node with these neighbours has left. */
  ghost function Passed<V>(x: ListRec<V>, next: Id, prev: Id): (r: ListRec<V>)
    ensures SameKind(r, x) && r.ref == x.ref
  {
    (if next != NULL && prev != NULL then x
     else if next != NULL then x.(list := next, first := next)
     else if prev != NULL then x.(last := prev)
     else x.(list := NULL, first := NULL, last := NULL)).(nodeCount := x.nodeCount - 1)
  }

  lemma RemoveFits<V>(c: Nodes<V>, g: Layout, x: ListRec<V>, x': ListRec<V>, home: map<Id, Id>, l: Id, i: nat,
                      chain: map<Id, seq<Id>>)
    requires Laid(c, g) && Fits(x, g.chain, home, l) && i < |g.chain[x.ref]|
    requires chain == g.chain[x.ref := Without(g.chain[x.ref], i)]
    requires g.chain[x.ref][i] in c.links.next && g.chain[x.ref][i] in c.links.prev
    requires x' == Passed(x, c.links.next[g.chain[x.ref][i]], c.links.prev[g.chain[x.ref][i]])
    ensures Fits(x', chain, home, l)
  {
    hide Laid, Chain;
    LaidChain(c, g, x.ref);
    NeighboursOf(c.links, g.chain[x.ref], i);
    if |g.chain[x.ref]| > 1 {
      EndsWithout(g.chain[x.ref], i);
    }
  }

  lemma FitsEnds<V>(x: ListRec<V>, chain: map<Id, seq<Id>>, home: map<Id, Id>, l: Id)
    requires Fits(x, chain, home, l)
    ensures x.ref in chain && x.list == x.first == Head(chain[x.ref]) && x.last == Last(chain[x.ref])
    ensures x.nodeCount == |chain[x.ref]|
  {
  }

  lemma AppendFits<V>(c: Nodes<V>, g: Layout, x: ListRec<V>, x': ListRec<V>, home: map<Id, Id>, l: Id, n: Id,
                      chain: map<Id, seq<Id>>)
    requires Laid(c, g) && Fits(x, g.chain, home, l) && chain == g.chain[x.ref := g.chain[x.ref] + [n]]
    requires x' == (if x.last == NULL then x.(list := n, first := n) else x).(last := n, nodeCount := x.nodeCount + 1)
    ensures Fits(x', chain, home, l)
  {
    hide Laid, Chain;
    LaidChain(c, g, x.ref);
    EndsAreThere(c.links, g.chain[x.ref]);
  }

  lemma PrependFits<V>(c: Nodes<V>, g: Layout, x: ListRec<V>, x': ListRec<V>, home: map<Id, Id>, l: Id, n: Id,
                       chain: map<Id, seq<Id>>)
    requires Laid(c, g) && Fits(x, g.chain, home, l) && chain == g.chain[x.ref := [n] + g.chain[x.ref]]
    requires x' == (if x.list == NULL then x.(last := n) else x).(list := n, first := n, nodeCount := x.nodeCount + 1)
    ensures Fits(x', chain, home, l)
  {
    hide Laid, Chain;
    LaidChain(c, g, x.ref);
    EndsAreThere(c.links, g.chain[x.ref]);
  }

  lemma NoListYet<V>(c: Nodes<V>, g: Layout, lists: map<Id, ListRec<V>>, rg: Roster)
    requires World(c, g, lists, rg)
    ensures c.brk !in lists && c.brk !in rg.home
  {
    hide Laid, Fits;
  }

  lemma BothUse(home: map<Id, Id>, l: Id, k: Id, r: Id)
    requires l in home && k in home && l != k && home[l] == r && home[k] == r
    ensures |UsersOf(home, r)| > 1
  {
    var s := UsersOf(home, r);
    assert {l, k} <= s;
    SubsetSize({l, k}, s);
  }

  lemma LaidKeys<V>(c: Nodes<V>, g: Layout)
    requires Laid(c, g)
    ensures c.brk !in c.payload
  {
    NodeIsFresh(c, g);
  }

  lemma EndIsThere<V>(c: Nodes<V>, g: Layout, r: Id)
    requires Laid(c, g) && r in g.chain && g.chain[r] != []
    ensures Head(g.chain[r]) != NULL && Last(g.chain[r]) != NULL
  {
    LaidChain(c, g, r);
    EndsAreThere(c.links, g.chain[r]);
  }

  lemma FirstIsThere<V>(c: Nodes<V>, g: Layout, r: Id)
    requires Laid(c, g) && r in g.chain
    ensures Head(g.chain[r]) == NULL <==> g.chain[r] == []
  {
    LaidChain(c, g, r);
    EndsAreThere(c.links, g.chain[r]);
  }

  /** The walk ends at the end of the chain. */
  lemma WholeChain<V>(c: Nodes<V>, g: Layout, r: Id, i: nat)
    requires Laid(c, g) && r in g.chain && i <= |g.chain[r]| && Head(g.chain[r][i..]) == NULL
    ensures i == |g.chain[r]|
  {
    if i < |g.chain[r]| {
      LaidAt(c, g, r, i);
    }
  }
}
