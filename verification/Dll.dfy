/** Doubly linked chains in memory that many of them share: the pointer writes that list.c and
    refcount.c make, and what they do to a chain and to the chains beside it. */
module Dll {
  type Id = nat

  const NULL: Id := 0

  /** The `next` and `previous` fields of all the nodes there are. */
  datatype Links = Links(next: map<Id, Id>, prev: map<Id, Id>)

  function Head(s: seq<Id>): Id { if s == [] then NULL else s[0] }

  function Last(s: seq<Id>): Id { if s == [] then NULL else s[|s| - 1] }

  ghost predicate Distinct(s: seq<Id>) {
    forall i, j :: 0 <= i < j < |s| ==> s[i] != s[j]
  }

  /** The node in place `i` of a chain is there and holds on to its neighbours. */
  ghost predicate At(k: Links, s: seq<Id>, i: nat)
    requires i < |s|
  {
    && s[i] != NULL && s[i] in k.next && s[i] in k.prev
    && k.next[s[i]] == (if i + 1 < |s| then s[i + 1] else NULL)
    && k.prev[s[i]] == (if i > 0 then s[i - 1] else NULL)
  }

  /** The nodes of `s` are linked in this order and in both directions. */
  ghost predicate Chain(k: Links, s: seq<Id>) {
    Distinct(s) && forall i :: 0 <= i < |s| ==> At(k, s, i)
  }

  ghost predicate Apart(s: seq<Id>, t: seq<Id>) {
    forall x :: x in s ==> x !in t
  }

  /** A node that is not linked yet. */
  predicate Fresh(k: Links, n: Id) { n != NULL && n !in k.next && n !in k.prev }

  /** A new node behind the last one. */
  function LinkLast(k: Links, last: Id, n: Id): Links
    requires last != NULL ==> last in k.next
  {
    if last == NULL then Links(k.next[n := NULL], k.prev[n := NULL])
    else Links(k.next[n := NULL][last := n], k.prev[n := last])
  }

  /** A new node before the first one. */
  function LinkFirst(k: Links, first: Id, n: Id): Links
    requires first != NULL ==> first in k.prev
  {
    if first == NULL then Links(k.next[n := NULL], k.prev[n := NULL])
    else Links(k.next[n := first], k.prev[n := NULL][first := n])
  }

  /** The node and its neighbours are there. */
  predicate CanUnlink(k: Links, n: Id) {
    && n in k.next && n in k.prev
    && (k.next[n] != NULL ==> k.next[n] in k.prev)
    && (k.prev[n] != NULL ==> k.prev[n] in k.next)
  }

  /** The neighbours of a node take hold of each other, and the node's memory is released. */
  function Unlink(k: Links, n: Id): Links
    requires CanUnlink(k, n)
  {
    var next := if k.prev[n] != NULL then k.next[k.prev[n] := k.next[n]] else k.next;
    var prev := if k.next[n] != NULL then k.prev[k.next[n] := k.prev[n]] else k.prev;
    Links(next - {n}, prev - {n})
  }

  function Without(s: seq<Id>, i: nat): seq<Id>
    requires i < |s|
  {
    s[..i] + s[i + 1..]
  }

  lemma LinkLastHolds(k: Links, s: seq<Id>, n: Id)
    requires Chain(k, s) && Fresh(k, n) && (s != [] ==> Last(s) in k.next)
    ensures Chain(LinkLast(k, Last(s), n), s + [n])
  {
    var k', t := LinkLast(k, Last(s), n), s + [n];
    forall i | 0 <= i < |t| ensures At(k', t, i) && (i < |s| ==> t[i] != n) {
      if i < |s| {
        assert At(k, s, i);
      }
    }
  }

  lemma LinkFirstHolds(k: Links, s: seq<Id>, n: Id)
    requires Chain(k, s) && Fresh(k, n) && (s != [] ==> Head(s) in k.prev)
    ensures Chain(LinkFirst(k, Head(s), n), [n] + s)
  {
    var k', t := LinkFirst(k, Head(s), n), [n] + s;
    forall i | 0 <= i < |t| ensures At(k', t, i) && (i > 0 ==> t[i] != n) {
      if i > 0 {
        assert At(k, s, i - 1);
      }
    }
  }

  lemma EndsAreThere(k: Links, s: seq<Id>)
    requires Chain(k, s)
    ensures s != [] ==> Head(s) in k.prev && Last(s) in k.next && Head(s) != NULL && Last(s) != NULL
  {
    if s != [] {
      assert At(k, s, 0) && At(k, s, |s| - 1);
    }
  }

  lemma UnlinkIsSafe(k: Links, s: seq<Id>, i: nat)
    requires Chain(k, s) && i < |s|
    ensures CanUnlink(k, s[i])
  {
    assert At(k, s, i);
    if i > 0 {
      assert At(k, s, i - 1);
    }
    if i + 1 < |s| {
      assert At(k, s, i + 1);
    }
  }

  lemma UnlinkAt(k: Links, s: seq<Id>, i: nat, j: nat)
    requires Chain(k, s) && i < |s| && j < |s| && j != i && CanUnlink(k, s[i])
    ensures var k' := Unlink(k, s[i]);
      && s[j] in k'.next && s[j] in k'.prev
      && k'.next[s[j]] == (if j + 1 == i then k.next[s[i]] else k.next[s[j]])
      && k'.prev[s[j]] == (if j == i + 1 then k.prev[s[i]] else k.prev[s[j]])
  {
    assert At(k, s, i);
    assert At(k, s, j);
  }

  lemma UnlinkHolds(k: Links, s: seq<Id>, i: nat)
    requires Chain(k, s) && i < |s| && CanUnlink(k, s[i])
    ensures Chain(Unlink(k, s[i]), Without(s, i))
  {
    var k', t := Unlink(k, s[i]), Without(s, i);
    assert At(k, s, i);
    forall j | 0 <= j < |t|
      ensures At(k', t, j)
    {
      var j' := if j < i then j else j + 1;
      assert t[j] == s[j'];
      assert At(k, s, j');
      UnlinkAt(k, s, i, j');
    }
  }

  lemma LinkLastBeside(k: Links, s: seq<Id>, t: seq<Id>, n: Id)
    requires Chain(k, t) && Apart(s, t) && Fresh(k, n) && (s != [] ==> Last(s) in k.next && Last(s) != NULL)
    ensures Chain(LinkLast(k, Last(s), n), t)
  {
    forall i | 0 <= i < |t| ensures At(LinkLast(k, Last(s), n), t, i) {
      assert At(k, t, i);
      assert s != [] ==> Last(s) in s;
    }
  }

  lemma LinkFirstBeside(k: Links, s: seq<Id>, t: seq<Id>, n: Id)
    requires Chain(k, t) && Apart(s, t) && Fresh(k, n) && (s != [] ==> Head(s) in k.prev && Head(s) != NULL)
    ensures Chain(LinkFirst(k, Head(s), n), t)
  {
    forall i | 0 <= i < |t| ensures At(LinkFirst(k, Head(s), n), t, i) {
      assert At(k, t, i);
      assert s != [] ==> Head(s) in s;
    }
  }

  lemma UnlinkBeside(k: Links, s: seq<Id>, t: seq<Id>, i: nat)
    requires Chain(k, s) && Chain(k, t) && Apart(s, t) && i < |s| && CanUnlink(k, s[i])
    ensures Chain(Unlink(k, s[i]), t)
  {
    assert At(k, s, i) && s[i] in s;
    assert i > 0 ==> s[i - 1] in s;
    assert i + 1 < |s| ==> s[i + 1] in s;
    forall j | 0 <= j < |t| ensures At(Unlink(k, s[i]), t, j) {
      assert At(k, t, j);
    }
  }

  lemma EmptyChain(k: Links)
    ensures Chain(k, [])
  {
  }

  lemma ChainIsDistinct(k: Links, s: seq<Id>)
    requires Chain(k, s)
    ensures Distinct(s)
  {
  }

  lemma NeighboursOf(k: Links, s: seq<Id>, i: nat)
    requires Chain(k, s) && i < |s|
    ensures s[i] in k.next && s[i] in k.prev
    ensures k.next[s[i]] == NULL <==> i == |s| - 1
    ensures k.prev[s[i]] == NULL <==> i == 0
    ensures i < |s| - 1 ==> k.next[s[i]] == s[i + 1]
    ensures i > 0 ==> k.prev[s[i]] == s[i - 1]
  {
    assert At(k, s, i);
    if i > 0 {
      assert At(k, s, i - 1);
    }
    if i + 1 < |s| {
      assert At(k, s, i + 1);
    }
  }

  lemma WithoutHas(s: seq<Id>, i: nat, x: Id)
    requires i < |s| && Distinct(s)
    ensures x in Without(s, i) <==> x in s && x != s[i]
  {
    var t := Without(s, i);
    if x in s && x != s[i] {
      var j :| 0 <= j < |s| && s[j] == x;
      assert t[if j < i then j else j - 1] == x;
    }
    if x in t {
      var j :| 0 <= j < |t| && t[j] == x;
      assert s[if j < i then j else j + 1] == x;
    }
  }

  lemma EndsWithout(s: seq<Id>, i: nat)
    requires i < |s| && |s| > 1
    ensures Head(Without(s, i)) == (if i == 0 then s[1] else s[0])
    ensures Last(Without(s, i)) == (if i == |s| - 1 then s[i - 1] else s[|s| - 1])
  {
  }
}
