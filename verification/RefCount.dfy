/** refcount.c: counts that know their users. */
module RefCount {
  import opened Dll

  /** A count: the number of its users, and the first and the last of the nodes that name them. */
  datatype Ref = Ref(userCount: nat, users: Id, last: Id)

  /** The memory: the counts, the links of the user nodes and the user each names. */
  datatype Memory = Memory(refs: map<Id, Ref>, links: Links, user: map<Id, Id>, brk: Id)

  /** What the memory stands for: the user nodes of each count, in order; the node of each user; and
      the count that a user is attached to. */
  datatype Roster = Roster(chain: map<Id, seq<Id>>, seat: map<Id, Id>, home: map<Id, Id>)

  ghost predicate Counted(m: Memory, g: Roster, r: Id)
    requires r in g.chain
  {
    && r in m.refs && r < m.brk
    && Chain(m.links, g.chain[r])
    && m.refs[r] == Ref(|g.chain[r]|, Head(g.chain[r]), Last(g.chain[r]))
    && forall u :: u in g.chain[r] ==> u in m.user && m.user[u] in g.home && g.home[m.user[u]] == r
  }

  ghost predicate Seated(m: Memory, g: Roster, o: Id)
    requires o in g.home
  {
    && o in g.seat && g.home[o] in g.chain && g.seat[o] in g.chain[g.home[o]]
    && g.seat[o] in m.user && m.user[g.seat[o]] == o
  }

  ghost predicate Named(m: Memory, g: Roster, u: Id)
    requires u in m.user
  {
    0 < u < m.brk && m.user[u] in g.home && m.user[u] in g.seat && g.seat[m.user[u]] == u
  }

  ghost predicate Ok(m: Memory, g: Roster) {
    && m.brk > 0 && m.refs.Keys == g.chain.Keys
    && m.user.Keys == m.links.next.Keys == m.links.prev.Keys
    && (forall r :: r in g.chain ==> Counted(m, g, r))
    && (forall o :: o in g.home ==> Seated(m, g, o))
    && (forall u :: u in m.user ==> Named(m, g, u))
  }

  /** The users of a count. */
  ghost function UsersOf(home: map<Id, Id>, r: Id): set<Id> {
    set o | o in home && home[o] == r
  }

  ghost function Owners(m: Memory, s: seq<Id>): (r: seq<Id>)
    requires forall u :: u in s ==> u in m.user
    ensures |r| == |s| && forall i :: 0 <= i < |s| ==> r[i] == m.user[s[i]]
  {
    seq(|s|, i requires 0 <= i < |s| => (assert s[i] in s; m.user[s[i]]))
  }

  ghost function Elements(s: seq<Id>): set<Id> { set x | x in s }

  lemma {:induction false} DistinctCount(s: seq<Id>)
    requires Distinct(s)
    ensures |Elements(s)| == |s|
    decreases |s|
  {
    if s == [] {
      assert Elements(s) == {};
    } else {
      var rest := Elements(s[1..]);
      DistinctCount(s[1..]);
      assert s[0] !in rest;
      assert Elements(s) == rest + {s[0]} by {
        assert s == [s[0]] + s[1..];
      }
    }
  }

  /** The counter of a count is the number of users attached to it. */
  lemma CountIsUsers(m: Memory, g: Roster, r: Id)
    requires Ok(m, g) && r in g.chain
    ensures m.refs[r].userCount == |UsersOf(g.home, r)|
  {
    assert Counted(m, g, r);
    var s := g.chain[r];
    var owners := Owners(m, s);
    forall i, j | 0 <= i < j < |owners| ensures owners[i] != owners[j] {
      assert s[i] in s && s[j] in s;
      assert Named(m, g, s[i]) && Named(m, g, s[j]);
    }
    DistinctCount(owners);
    forall o ensures o in UsersOf(g.home, r) <==> o in owners {
      if o in UsersOf(g.home, r) {
        assert Seated(m, g, o);
        var i :| 0 <= i < |s| && s[i] == g.seat[o];
        assert owners[i] == o;
      }
      if o in owners {
        var i :| 0 <= i < |s| && owners[i] == o;
        assert s[i] in s;
      }
    }
    assert UsersOf(g.home, r) == Elements(owners);
  }

  lemma NextIsFresh(m: Memory, g: Roster)
    requires Ok(m, g)
    ensures m.brk !in g.chain && m.brk !in m.user && m.brk != NULL
  {
    forall r | r in g.chain ensures r < m.brk {
      assert Counted(m, g, r);
    }
    forall u | u in m.user ensures u < m.brk {
      assert Named(m, g, u);
    }
  }

  // ----- a new count -----

  lemma NewOk(m: Memory, g: Roster)
    requires Ok(m, g)
    ensures m.brk !in g.chain
    ensures Ok(m.(refs := m.refs[m.brk := Ref(0, NULL, NULL)], brk := m.brk + 1), g.(chain := g.chain[m.brk := []]))
  {
    hide Counted, Seated, Named;
    var m' := m.(refs := m.refs[m.brk := Ref(0, NULL, NULL)], brk := m.brk + 1);
    var g' := g.(chain := g.chain[m.brk := []]);
    NextIsFresh(m, g);
    forall r | r in g'.chain ensures Counted(m', g', r) {
      NewCounted(m, g, m', g', r);
    }
    forall o | o in g'.home ensures Seated(m', g', o) {
      NewSeated(m, g, m', g', o);
    }
    forall u | u in m'.user ensures Named(m', g', u) {
      NewNamed(m, g, m', g', u);
    }
  }

  lemma NewCounted(m: Memory, g: Roster, m': Memory, g': Roster, r: Id)
    requires r in g'.chain && g'.home == g.home && m'.links == m.links && m'.user == m.user && m'.brk == m.brk + 1
    requires g'.chain == g.chain[m.brk := []] && m'.refs == m.refs[m.brk := Ref(0, NULL, NULL)]
    requires r != m.brk ==> Counted(m, g, r)
    ensures Counted(m', g', r)
  {
    hide Chain;
    EmptyChain(m.links);
  }

  lemma NewSeated(m: Memory, g: Roster, m': Memory, g': Roster, o: Id)
    requires o in g.home && Seated(m, g, o) && g' == g.(chain := g'.chain) && m'.user == m.user
    requires m.brk !in g.chain && g'.chain == g.chain[m.brk := []]
    ensures Seated(m', g', o)
  {
  }

  lemma NewNamed(m: Memory, g: Roster, m': Memory, g': Roster, u: Id)
    requires u in m.user && Named(m, g, u) && g' == g.(chain := g'.chain) && m'.user == m.user && m'.brk >= m.brk
    ensures Named(m', g', u)
  {
  }

  // ----- attaching -----

  ghost function AttachedRoster(g: Roster, r: Id, owner: Id, node: Id): Roster
    requires r in g.chain
  {
    Roster(g.chain[r := g.chain[r] + [node]], g.seat[owner := node], g.home[owner := r])
  }

  lemma CountedApart(m: Memory, g: Roster, q: Id, r: Id)
    requires q in g.chain && r in g.chain && Counted(m, g, q) && Counted(m, g, r) && q != r
    ensures Apart(g.chain[r], g.chain[q])
  {
    hide Chain;
  }

  /** The memory after a node for `owner` was put behind the last one. */
  ghost predicate Attached(m: Memory, g: Roster, r: Id, owner: Id, m': Memory)
  {
    && Ok(m, g) && r in g.chain && owner !in g.home
    && (Last(g.chain[r]) != NULL ==> Last(g.chain[r]) in m.links.next)
    && m' == Memory(m.refs[r := Ref(|g.chain[r]| + 1, Head(g.chain[r] + [m.brk]), m.brk)],
                    LinkLast(m.links, Last(g.chain[r]), m.brk), m.user[m.brk := owner], m.brk + 1)
  }

  lemma AttachOk(m: Memory, g: Roster, r: Id, owner: Id, m': Memory)
    requires Attached(m, g, r, owner, m')
    ensures Ok(m', AttachedRoster(g, r, owner, m.brk))
  {
    hide Counted, Seated, Named;
    var g' := AttachedRoster(g, r, owner, m.brk);
    forall q | q in g'.chain ensures Counted(m', g', q) {
      AttachCounted(m, g, r, owner, m', q);
    }
    forall o | o in g'.home ensures Seated(m', g', o) {
      AttachSeated(m, g, r, owner, m', o);
    }
    forall u | u in m'.user ensures Named(m', g', u) {
      AttachNamed(m, g, r, owner, m', u);
    }
  }

  lemma AttachSeated(m: Memory, g: Roster, r: Id, owner: Id, m': Memory, o: Id)
    requires Attached(m, g, r, owner, m') && o in AttachedRoster(g, r, owner, m.brk).home
    ensures Seated(m', AttachedRoster(g, r, owner, m.brk), o)
  {
    hide Counted, LinkLast;
    NextIsFresh(m, g);
    if o != owner {
      assert Seated(m, g, o);
    }
  }

  lemma AttachNamed(m: Memory, g: Roster, r: Id, owner: Id, m': Memory, u: Id)
    requires Attached(m, g, r, owner, m') && u in m'.user
    ensures Named(m', AttachedRoster(g, r, owner, m.brk), u)
  {
    hide Counted, Seated, LinkLast;
    if u != m.brk {
      assert Named(m, g, u);
    }
  }

  lemma AttachCounted(m: Memory, g: Roster, r: Id, owner: Id, m': Memory, q: Id)
    requires Attached(m, g, r, owner, m') && q in g.chain
    ensures Counted(m', AttachedRoster(g, r, owner, m.brk), q)
  {
    hide Seated, Chain, LinkLast;
    assert Counted(m, g, r) && Counted(m, g, q);
    EndsAreThere(m.links, g.chain[r]);
    NextIsFresh(m, g);
    if q == r {
      LinkLastHolds(m.links, g.chain[r], m.brk);
    } else {
      CountedApart(m, g, q, r);
      LinkLastBeside(m.links, g.chain[r], g.chain[q], m.brk);
    }
    AttachKeepsUsers(m, g, r, owner, m', q);
  }

  lemma AttachKeepsUsers(m: Memory, g: Roster, r: Id, owner: Id, m': Memory, q: Id)
    requires Attached(m, g, r, owner, m') && q in g.chain
    ensures var g' := AttachedRoster(g, r, owner, m.brk);
      forall u :: u in g'.chain[q] ==> u in m'.user && m'.user[u] in g'.home && g'.home[m'.user[u]] == q
  {
    hide Seated, Chain, LinkLast;
    assert Counted(m, g, r) && Counted(m, g, q);
    NextIsFresh(m, g);
  }

  // ----- detaching -----

  ghost function DetachedRoster(g: Roster, r: Id, i: nat, owner: Id): Roster
    requires r in g.chain && i < |g.chain[r]|
  {
    Roster(g.chain[r := Without(g.chain[r], i)], g.seat - {owner}, g.home - {owner})
  }

  /** The memory after the node in place `i` was taken out. */
  ghost predicate Detached(m: Memory, g: Roster, r: Id, i: nat, owner: Id, m': Memory) {
    && Ok(m, g) && r in g.chain && i < |g.chain[r]|
    && g.chain[r][i] in m.user && owner == m.user[g.chain[r][i]] && CanUnlink(m.links, g.chain[r][i])
    && var s := Without(g.chain[r], i);
       m' == Memory(m.refs[r := Ref(|s|, Head(s), Last(s))], Unlink(m.links, g.chain[r][i]),
                    m.user - {g.chain[r][i]}, m.brk)
  }

  lemma DetachOk(m: Memory, g: Roster, r: Id, i: nat, owner: Id, m': Memory)
    requires Detached(m, g, r, i, owner, m')
    ensures Ok(m', DetachedRoster(g, r, i, owner))
  {
    hide Counted, Seated, Named;
    var g' := DetachedRoster(g, r, i, owner);
    forall q | q in g'.chain ensures Counted(m', g', q) {
      DetachCounted(m, g, r, i, owner, m', q);
    }
    forall o | o in g'.home ensures Seated(m', g', o) {
      DetachSeated(m, g, r, i, owner, m', o);
    }
    forall u | u in m'.user ensures Named(m', g', u) {
      DetachNamed(m, g, r, i, owner, m', u);
    }
  }

  lemma DetachSeated(m: Memory, g: Roster, r: Id, i: nat, owner: Id, m': Memory, o: Id)
    requires Detached(m, g, r, i, owner, m') && o in DetachedRoster(g, r, i, owner).home
    ensures Seated(m', DetachedRoster(g, r, i, owner), o)
  {
    hide Unlink, Without, Chain, Counted, Named, CanUnlink;
    assert Seated(m, g, o);
    if g.home[o] == r {
      CountedDistinct(m, g, r);
      WithoutHas(g.chain[r], i, g.seat[o]);
    }
  }

  lemma CountedDistinct(m: Memory, g: Roster, r: Id)
    requires r in g.chain && Counted(m, g, r)
    ensures Distinct(g.chain[r])
  {
  }

  lemma DetachNamed(m: Memory, g: Roster, r: Id, i: nat, owner: Id, m': Memory, u: Id)
    requires Detached(m, g, r, i, owner, m') && u in m'.user
    ensures Named(m', DetachedRoster(g, r, i, owner), u)
  {
    hide Unlink, Without, Counted, Seated;
    assert Named(m, g, u) && Named(m, g, g.chain[r][i]);
  }

  lemma DetachCounted(m: Memory, g: Roster, r: Id, i: nat, owner: Id, m': Memory, q: Id)
    requires Detached(m, g, r, i, owner, m') && q in g.chain
    ensures Counted(m', DetachedRoster(g, r, i, owner), q)
  {
    hide Unlink, Seated, Chain, Without;
    var n := g.chain[r][i];
    assert n in g.chain[r];
    assert Counted(m, g, r) && Counted(m, g, q) && Named(m, g, n);
    ChainIsDistinct(m.links, g.chain[r]);
    if q == r {
      UnlinkHolds(m.links, g.chain[r], i);
      forall u | u in Without(g.chain[r], i) ensures u in g.chain[r] && u != n && m.user[u] != owner {
        WithoutHas(g.chain[r], i, u);
        assert Named(m, g, u);
      }
    } else {
      CountedApart(m, g, q, r);
      UnlinkBeside(m.links, g.chain[r], g.chain[q], i);
      forall u | u in g.chain[q] ensures u != n && m.user[u] != owner {
        assert Named(m, g, u);
      }
    }
  }

  /** A count without users can go. */
  lemma DropOk(m: Memory, g: Roster, r: Id)
    requires Ok(m, g) && r in g.chain && g.chain[r] == []
    ensures Ok(m.(refs := m.refs - {r}), g.(chain := g.chain - {r}))
  {
    hide Chain;
    var m', g' := m.(refs := m.refs - {r}), g.(chain := g.chain - {r});
    forall q | q in g'.chain ensures Counted(m', g', q) {
      assert Counted(m, g, q);
    }
    forall o | o in g'.home ensures Seated(m', g', o) {
      assert Seated(m, g, o);
    }
    forall u | u in m'.user ensures Named(m', g', u) {
      assert Named(m, g, u);
    }
  }

  /** The counts, as their functions change them. */
  class RefCounts {
    var m: Memory
    ghost var g: Roster

    ghost predicate Valid()
      reads this
    {
      Ok(m, g)
    }

    constructor ()
      ensures Valid() && g == Roster(map[], map[], map[])
    {
      m := Memory(map[], Links(map[], map[]), map[], 1);
      g := Roster(map[], map[], map[]);
    }

    /** RefCountNew. */
    method New() returns (r: Id)
      requires Valid()
      modifies this
      ensures Valid() && r !in old(g).chain && r != NULL
      ensures g.chain.Keys == old(g).chain.Keys + {r} && g.home == old(g).home
    {
      hide Ok;
      NewOk(m, g);
      NextIsFresh(m, g);
      r := m.brk;
      m := m.(refs := m.refs[r := Ref(0, NULL, NULL)], brk := r + 1);
      g := g.(chain := g.chain[r := []]);
    }

    /** RefCountAttach. */
    method Attach(r: Id, owner: Id)
      requires Valid() && r in g.chain && owner !in g.home
      modifies this
      ensures Valid() && g.home == old(g).home[owner := r] && g.chain.Keys == old(g).chain.Keys
    {
      hide Chain, Seated, Named;
      assert Counted(m, g, r);
      EndsAreThere(m.links, g.chain[r]);
      ghost var was := m;
      var node, ref := m.brk, m.refs[r];
      m := m.(links := LinkLast(m.links, ref.last, node), user := m.user[node := owner], brk := node + 1);
      if ref.last == NULL {
        ref := ref.(users := node);
      }
      m := m.(refs := m.refs[r := ref.(userCount := ref.userCount + 1, last := node)]);
      AttachOk(was, g, r, owner, m);
      g := AttachedRoster(g, r, owner, node);
    }

    /** RefCountIsShared. */
    method IsShared(r: Id) returns (shared: bool)
      requires Valid() && r in g.chain
      ensures shared <==> |UsersOf(g.home, r)| > 1
    {
      CountIsUsers(m, g, r);
      shared := m.refs[r].userCount > 1;
    }

    /** The loop of RefCountDetach that looks for the user's node. */
    method FindUser(r: Id, owner: Id) returns (p: Id, ghost i: nat)
      requires Valid() && r in g.chain && owner in g.home && g.home[owner] == r
      ensures i < |g.chain[r]| && p == g.chain[r][i] && p in m.user && m.user[p] == owner
    {
      hide Named;
      ghost var s := g.chain[r];
      assert Counted(m, g, r) && Seated(m, g, owner);
      ghost var k :| 0 <= k < |s| && s[k] == g.seat[owner];
      i := 0;
      p := m.refs[r].users;
      while m.user[p] != owner
        invariant i <= k && p == s[i] && p in m.user
        decreases k - i
      {
        assert At(m.links, s, i) && i + 1 < |s| && s[i + 1] in s;
        p, i := m.links.next[p], i + 1;
      }
    }

    /** RefCountDetach: the last user cannot detach. */
    method Detach(r: Id, owner: Id)
      requires Valid() && r in g.chain && owner in g.home && g.home[owner] == r
      modifies this
      ensures Valid() && g.chain.Keys == old(g).chain.Keys
      ensures g.home == if |UsersOf(old(g).home, r)| > 1 then old(g).home - {owner} else old(g).home
    {
      hide Seated, Named;
      CountIsUsers(m, g, r);
      var ref := m.refs[r];
      if ref.userCount <= 1 {
        return;
      }
      var p, i := FindUser(r, owner);
      assert Counted(m, g, r);
      UnlinkIsSafe(m.links, g.chain[r], i);
      NeighboursOf(m.links, g.chain[r], i);
      ghost var was, s := m, g.chain[r];
      EndsWithout(s, i);
      if m.links.next[p] == NULL {
        ref := ref.(last := m.links.prev[p]);
      } else if m.links.prev[p] == NULL {
        ref := ref.(users := m.links.next[p]);
      }
      m := Memory(m.refs[r := ref.(userCount := ref.userCount - 1)], Unlink(m.links, p), m.user - {p}, m.brk);
      DetachOk(was, g, r, i, owner, m);
      g := DetachedRoster(g, r, i, owner);
    }

    /** What ListDetach does: leave a shared count for a new one. */
    method Replace(r: Id, owner: Id) returns (q: Id)
      requires Valid() && r in g.chain && owner in g.home && g.home[owner] == r && |UsersOf(g.home, r)| > 1
      modifies this
      ensures Valid() && q !in old(g).chain && q != NULL
      ensures g.chain.Keys == old(g).chain.Keys + {q} && g.home == old(g).home[owner := q]
    {
      hide Ok, UsersOf;
      Detach(r, owner);
      q := New();
      Attach(q, owner);
    }

    /** RefCountDestroy by the last user. */
    method Destroy(r: Id, ghost owner: Id)
      requires Valid() && r in g.chain && UsersOf(g.home, r) == {owner}
      modifies this
      ensures Valid() && g.home == old(g).home - {owner} && g.chain.Keys == old(g).chain.Keys - {r}
    {
      hide Named, Seated;
      CountIsUsers(m, g, r);
      assert Counted(m, g, r);
      var p := m.refs[r].users;
      ghost var was, s := m, g.chain[r];
      assert s[0] in s && m.user[s[0]] in UsersOf(g.home, r);
      UnlinkIsSafe(m.links, s, 0);
      NeighboursOf(m.links, s, 0);
      m := Memory(m.refs - {r}, Links(m.links.next - {p}, m.links.prev - {p}), m.user - {p}, m.brk);
      ghost var empty := Memory(was.refs[r := Ref(0, NULL, NULL)], Unlink(was.links, p), was.user - {p}, was.brk);
      DetachOk(was, g, r, 0, owner, empty);
      g := DetachedRoster(g, r, 0, owner);
      DropOk(empty, g, r);
      assert m.refs == empty.refs - {r};
      g := g.(chain := g.chain - {r});
    }
  }
}
