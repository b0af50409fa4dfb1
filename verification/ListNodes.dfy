/** list.c: lists that share their chain of nodes until one of them changes. */
module ListNodes {
  import opened Dll
  import opened RefCount

  datatype Option<T> = None | Some(value: T)

  /** The memory of nodes and payloads. A payload is a pointer to a value; what is not in `cells` is
      not allocated. */
  datatype Nodes<V> = Nodes(links: Links, payload: map<Id, Id>, cells: map<Id, V>, brk: Id)

  /** What the memory stands for: the chain of each count, the count that owns each node, and the
      node that holds each payload. */
  datatype Layout = Layout(chain: map<Id, seq<Id>>, owner: map<Id, Id>, holder: map<Id, Id>)

  ghost predicate Linked<V>(c: Nodes<V>, g: Layout, r: Id)
    requires r in g.chain
  {
    Chain(c.links, g.chain[r]) && forall n :: n in g.chain[r] ==> n in g.owner && g.owner[n] == r
  }

  ghost predicate Held<V>(c: Nodes<V>, g: Layout, n: Id)
    requires n in g.owner
  {
    && 0 < n < c.brk && g.owner[n] in g.chain && n in g.chain[g.owner[n]]
    && n in c.payload && c.payload[n] in c.cells && c.payload[n] in g.holder && g.holder[c.payload[n]] == n
  }

  ghost predicate Laid<V>(c: Nodes<V>, g: Layout) {
    && c.brk > 0
    && g.owner.Keys == c.payload.Keys == c.links.next.Keys == c.links.prev.Keys
    && (forall r :: r in g.chain ==> Linked(c, g, r))
    && (forall n :: n in g.owner ==> Held(c, g, n))
    && (forall p :: p in c.cells ==> 0 < p < c.brk)
    && (forall p :: p in g.holder ==> Holding(c, g, p))
  }

  ghost predicate Holding<V>(c: Nodes<V>, g: Layout, p: Id)
    requires p in g.holder
  {
    g.holder[p] in g.owner && g.holder[p] in c.payload && c.payload[g.holder[p]] == p
  }

  /** The values along a chain. */
  ghost function Values<V>(c: Nodes<V>, s: seq<Id>): (r: seq<V>)
    requires forall i :: 0 <= i < |s| ==> s[i] in c.payload && c.payload[s[i]] in c.cells
    ensures |r| == |s| && forall i :: 0 <= i < |s| ==> r[i] == c.cells[c.payload[s[i]]]
  {
    seq(|s|, i requires 0 <= i < |s| => c.cells[c.payload[s[i]]])
  }

  lemma LaidAt<V>(c: Nodes<V>, g: Layout, r: Id, i: nat)
    requires Laid(c, g) && r in g.chain && i < |g.chain[r]|
    ensures g.chain[r][i] in g.owner && g.owner[g.chain[r][i]] == r && Held(c, g, g.chain[r][i])
  {
    hide Chain;
    assert g.chain[r][i] in g.chain[r];
    assert Linked(c, g, r);
  }

  lemma LaidChain<V>(c: Nodes<V>, g: Layout, r: Id)
    requires Laid(c, g) && r in g.chain
    ensures Chain(c.links, g.chain[r])
    ensures forall i :: 0 <= i < |g.chain[r]| ==>
      g.chain[r][i] in c.payload && c.payload[g.chain[r][i]] in c.cells
  {
    hide Chain;
    assert Linked(c, g, r);
    forall i | 0 <= i < |g.chain[r]| ensures g.chain[r][i] in c.payload && c.payload[g.chain[r][i]] in c.cells {
      LaidAt(c, g, r, i);
    }
  }

  lemma LinkedApart<V>(c: Nodes<V>, g: Layout, q: Id, r: Id)
    requires q in g.chain && r in g.chain && Linked(c, g, q) && Linked(c, g, r) && q != r
    ensures Apart(g.chain[r], g.chain[q])
  {
    hide Chain;
  }

  // ----- a new node in a chain -----

  ghost function Grown(g: Layout, r: Id, s: seq<Id>, n: Id, p: Id): Layout {
    Layout(g.chain[r := s], g.owner[n := r], g.holder[p := n])
  }

  /** A node for the payload `p` was linked before or behind the chain of `r`. */
  ghost predicate Added<V>(c: Nodes<V>, g: Layout, r: Id, p: Id, links: Links, s: seq<Id>) {
    && Laid(c, g) && r in g.chain && p in c.cells && p !in g.holder
    && Chain(links, s)
    && (forall x :: x in s <==> x in g.chain[r] || x == c.brk)
    && (forall q :: q in g.chain && q != r ==> Chain(links, g.chain[q]))
    && links.next.Keys == links.prev.Keys == c.payload.Keys + {c.brk}
  }

  lemma AddedLaid<V>(c: Nodes<V>, g: Layout, r: Id, p: Id, links: Links, s: seq<Id>)
    requires Added(c, g, r, p, links, s)
    ensures Laid(Nodes(links, c.payload[c.brk := p], c.cells, c.brk + 1), Grown(g, r, s, c.brk, p))
  {
    hide Chain, Linked, Held, Holding;
    var n := c.brk;
    var c', g' := Nodes(links, c.payload[n := p], c.cells, n + 1), Grown(g, r, s, n, p);
    forall q | q in g'.chain ensures Linked(c', g', q) {
      AddedLinked(c, g, r, p, links, s, q);
    }
    forall x | x in g'.owner ensures Held(c', g', x) {
      AddedHeld(c, g, r, p, links, s, x);
    }
    forall x | x in g'.holder ensures Holding(c', g', x) {
      AddedHolding(c, g, r, p, links, s, x);
    }
  }

  lemma AddedLinked<V>(c: Nodes<V>, g: Layout, r: Id, p: Id, links: Links, s: seq<Id>, q: Id)
    requires Added(c, g, r, p, links, s) && q in g.chain
    ensures Linked(Nodes(links, c.payload[c.brk := p], c.cells, c.brk + 1), Grown(g, r, s, c.brk, p), q)
  {
    hide Chain, Held, Holding;
    NodeIsFresh(c, g);
    assert Linked(c, g, q) && Linked(c, g, r);
  }

  lemma AddedHeld<V>(c: Nodes<V>, g: Layout, r: Id, p: Id, links: Links, s: seq<Id>, x: Id)
    requires Added(c, g, r, p, links, s) && (x in g.owner || x == c.brk)
    ensures Held(Nodes(links, c.payload[c.brk := p], c.cells, c.brk + 1), Grown(g, r, s, c.brk, p), x)
  {
    hide Chain, Linked;
    if x != c.brk {
      assert Held(c, g, x);
    }
  }

  lemma AddedHolding<V>(c: Nodes<V>, g: Layout, r: Id, p: Id, links: Links, s: seq<Id>, x: Id)
    requires Added(c, g, r, p, links, s) && (x in g.holder || x == p)
    ensures Holding(Nodes(links, c.payload[c.brk := p], c.cells, c.brk + 1), Grown(g, r, s, c.brk, p), x)
  {
    hide Chain, Linked, Held;
    NodeIsFresh(c, g);
    if x != p {
      assert Holding(c, g, x);
    }
  }

  lemma NodeIsFresh<V>(c: Nodes<V>, g: Layout)
    requires Laid(c, g)
    ensures Fresh(c.links, c.brk) && c.brk !in g.owner && c.brk !in c.cells
  {
    hide Linked, Holding;
    assert forall x :: x in g.owner ==> Held(c, g, x);
  }

  lemma AddLast<V>(c: Nodes<V>, g: Layout, r: Id, p: Id)
    requires Laid(c, g) && r in g.chain && p in c.cells && p !in g.holder
    requires Last(g.chain[r]) != NULL ==> Last(g.chain[r]) in c.links.next
    ensures Added(c, g, r, p, LinkLast(c.links, Last(g.chain[r]), c.brk), g.chain[r] + [c.brk])
  {
    hide Chain, Held;
    LaidChain(c, g, r);
    NodeIsFresh(c, g);
    EndsAreThere(c.links, g.chain[r]);
    LinkLastHolds(c.links, g.chain[r], c.brk);
    forall q | q in g.chain && q != r ensures Chain(LinkLast(c.links, Last(g.chain[r]), c.brk), g.chain[q]) {
      assert Linked(c, g, q) && Linked(c, g, r);
      LinkedApart(c, g, q, r);
      LinkLastBeside(c.links, g.chain[r], g.chain[q], c.brk);
    }
  }

  lemma AddFirst<V>(c: Nodes<V>, g: Layout, r: Id, p: Id)
    requires Laid(c, g) && r in g.chain && p in c.cells && p !in g.holder
    requires Head(g.chain[r]) != NULL ==> Head(g.chain[r]) in c.links.prev
    ensures Added(c, g, r, p, LinkFirst(c.links, Head(g.chain[r]), c.brk), [c.brk] + g.chain[r])
  {
    hide Chain, Held;
    LaidChain(c, g, r);
    NodeIsFresh(c, g);
    EndsAreThere(c.links, g.chain[r]);
    LinkFirstHolds(c.links, g.chain[r], c.brk);
    forall q | q in g.chain && q != r ensures Chain(LinkFirst(c.links, Head(g.chain[r]), c.brk), g.chain[q]) {
      assert Linked(c, g, q) && Linked(c, g, r);
      LinkedApart(c, g, q, r);
      LinkFirstBeside(c.links, g.chain[r], g.chain[q], c.brk);
    }
  }

  // ----- a node leaves its chain -----

  ghost function Shrunk<V>(c: Nodes<V>, g: Layout, r: Id, i: nat): Layout
    requires r in g.chain && i < |g.chain[r]| && g.chain[r][i] in c.payload
  {
    var n := g.chain[r][i];
    Layout(g.chain[r := Without(g.chain[r], i)], g.owner - {n}, g.holder - {c.payload[n]})
  }

  /** Taking a node out, with or without releasing its payload, leaves the rest in order. */
  lemma DropLaid<V>(c: Nodes<V>, g: Layout, r: Id, i: nat, cells: map<Id, V>)
    requires Laid(c, g) && r in g.chain && i < |g.chain[r]|
    requires g.chain[r][i] in c.payload && CanUnlink(c.links, g.chain[r][i])
    requires cells == c.cells || cells == c.cells - {c.payload[g.chain[r][i]]}
    ensures Laid(Nodes(Unlink(c.links, g.chain[r][i]), c.payload - {g.chain[r][i]}, cells, c.brk), Shrunk(c, g, r, i))
  {
    hide Chain, Without, Distinct, Linked, Held, Holding;
    var n := g.chain[r][i];
    var c', g' := Nodes(Unlink(c.links, n), c.payload - {n}, cells, c.brk), Shrunk(c, g, r, i);
    forall q | q in g'.chain ensures Linked(c', g', q) {
      DropLinked(c, g, r, i, c', q);
    }
    forall x | x in g'.owner ensures Held(c', g', x) {
      DropHeld(c, g, r, i, c', x);
    }
    forall p | p in g'.holder ensures Holding(c', g', p) {
      assert Holding(c, g, p) && Held(c, g, n);
      DropHolding(c, g, r, i, c', p);
    }
  }

  lemma DropHolding<V>(c: Nodes<V>, g: Layout, r: Id, i: nat, c': Nodes<V>, p: Id)
    requires Laid(c, g) && r in g.chain && i < |g.chain[r]| && g.chain[r][i] in c.payload
    requires p in Shrunk(c, g, r, i).holder && c'.payload == c.payload - {g.chain[r][i]}
    ensures Holding(c', Shrunk(c, g, r, i), p)
  {
    hide Chain, Without, Linked, Held;
    assert Holding(c, g, p);
  }

  lemma DropHeld<V>(c: Nodes<V>, g: Layout, r: Id, i: nat, c': Nodes<V>, x: Id)
    requires Laid(c, g) && r in g.chain && i < |g.chain[r]| && g.chain[r][i] in c.payload
    requires x in Shrunk(c, g, r, i).owner && c'.payload == c.payload - {g.chain[r][i]} && c'.brk == c.brk
    requires c'.cells == c.cells || c'.cells == c.cells - {c.payload[g.chain[r][i]]}
    ensures Held(c', Shrunk(c, g, r, i), x)
  {
    hide Chain, Without, Distinct, Linked, Holding;
    LaidAt(c, g, r, i);
    assert Held(c, g, x);
    if g.owner[x] == r {
      LaidChain(c, g, r);
      ChainIsDistinct(c.links, g.chain[r]);
      WithoutHas(g.chain[r], i, x);
    }
  }

  lemma DropLinked<V>(c: Nodes<V>, g: Layout, r: Id, i: nat, c': Nodes<V>, q: Id)
    requires Laid(c, g) && r in g.chain && i < |g.chain[r]| && q in g.chain
    requires g.chain[r][i] in c.payload && CanUnlink(c.links, g.chain[r][i])
    requires c'.links == Unlink(c.links, g.chain[r][i])
    ensures Linked(c', Shrunk(c, g, r, i), q)
  {
    hide Chain, Unlink, Without, Distinct, Held;
    assert Linked(c, g, r) && Linked(c, g, q);
    ChainIsDistinct(c.links, g.chain[r]);
    if q == r {
      UnlinkHolds(c.links, g.chain[r], i);
      forall x | x in Without(g.chain[r], i) ensures x in g.chain[r] && x != g.chain[r][i] {
        WithoutHas(g.chain[r], i, x);
      }
    } else {
      assert g.chain[r][i] in g.chain[r];
      LinkedApart(c, g, q, r);
      UnlinkBeside(c.links, g.chain[r], g.chain[q], i);
    }
  }

  // ----- the values of every chain -----

  /** What every chain holds. */
  ghost function Texts<V>(c: Nodes<V>, g: Layout): (m: map<Id, seq<V>>)
    requires Laid(c, g)
    ensures m.Keys == g.chain.Keys
  {
    map r | r in g.chain :: (LaidChain(c, g, r); Values(c, g.chain[r]))
  }

  lemma TextAt<V>(c: Nodes<V>, g: Layout, r: Id, i: nat)
    requires Laid(c, g) && r in g.chain && i < |g.chain[r]|
    ensures g.chain[r][i] in c.payload && c.payload[g.chain[r][i]] in c.cells
    ensures |Texts(c, g)[r]| == |g.chain[r]| && Texts(c, g)[r][i] == c.cells[c.payload[g.chain[r][i]]]
  {
    hide Laid, Chain, Values;
    LaidChain(c, g, r);
  }

  lemma TextLength<V>(c: Nodes<V>, g: Layout, r: Id)
    requires Laid(c, g) && r in g.chain
    ensures |Texts(c, g)[r]| == |g.chain[r]|
  {
    hide Laid, Chain;
    LaidChain(c, g, r);
  }

  /** Chains with equal nodes, equal payloads and equal cells hold equal values. */
  lemma SameText<V>(c: Nodes<V>, g: Layout, q: Id, c': Nodes<V>, g': Layout, r: Id)
    requires Laid(c, g) && Laid(c', g') && q in g.chain && r in g'.chain
    requires g.chain[q] == g'.chain[r]
    requires forall n :: n in g.chain[q] ==> n in c.payload && n in c'.payload && c.payload[n] == c'.payload[n]
    requires forall n :: n in g.chain[q] && c.payload[n] in c.cells ==>
      c.payload[n] in c'.cells && c.cells[c.payload[n]] == c'.cells[c.payload[n]]
    ensures Texts(c, g)[q] == Texts(c', g')[r]
  {
    hide Laid, Texts;
    TextLength(c, g, q);
    TextLength(c', g', r);
    forall i | 0 <= i < |g.chain[q]| ensures Texts(c, g)[q][i] == Texts(c', g')[r][i] {
      assert g.chain[q][i] in g.chain[q];
      TextAt(c, g, q, i);
      TextAt(c', g', r, i);
    }
  }

  /** The memory after the node `c.brk` for the payload `p` was linked. */
  ghost function WithNode<V>(c: Nodes<V>, links: Links, p: Id): Nodes<V> {
    Nodes(links, c.payload[c.brk := p], c.cells, c.brk + 1)
  }

  lemma AddedBeside<V>(c: Nodes<V>, g: Layout, r: Id, p: Id, links: Links, s: seq<Id>, q: Id)
    requires Added(c, g, r, p, links, s) && q in g.chain && q != r
    requires Laid(WithNode(c, links, p), Grown(g, r, s, c.brk, p))
    ensures Texts(WithNode(c, links, p), Grown(g, r, s, c.brk, p))[q] == Texts(c, g)[q]
  {
    hide Chain, Texts, Held, Holding;
    var c', g' := WithNode(c, links, p), Grown(g, r, s, c.brk, p);
    assert Linked(c, g, q);
    NodeIsFresh(c, g);
    SameText(c, g, q, c', g', q);
  }

  lemma AddedLast<V>(c: Nodes<V>, g: Layout, r: Id, p: Id, links: Links)
    requires r in g.chain && Added(c, g, r, p, links, g.chain[r] + [c.brk])
    ensures var c', g' := WithNode(c, links, p), Grown(g, r, g.chain[r] + [c.brk], c.brk, p);
      Laid(c', g') && Texts(c', g') == Texts(c, g)[r := Texts(c, g)[r] + [c.cells[p]]]
  {
    hide Laid, Texts, Linked;
    var s := g.chain[r] + [c.brk];
    var c', g' := WithNode(c, links, p), Grown(g, r, s, c.brk, p);
    AddedLaid(c, g, r, p, links, s);
    forall q | q in g.chain && q != r ensures Texts(c', g')[q] == Texts(c, g)[q] {
      AddedBeside(c, g, r, p, links, s, q);
    }
    TextLength(c, g, r);
    TextLength(c', g', r);
    NodeIsFresh(c, g);
    var want := Texts(c, g)[r] + [c.cells[p]];
    forall i | 0 <= i < |s| ensures Texts(c', g')[r][i] == want[i] {
      TextAt(c', g', r, i);
      if i < |g.chain[r]| {
        TextAt(c, g, r, i);
        NodeIsOld(c, g, r, i);
      }
    }
    assert Texts(c', g')[r] == want;
  }

  lemma AddedFirst<V>(c: Nodes<V>, g: Layout, r: Id, p: Id, links: Links)
    requires r in g.chain && Added(c, g, r, p, links, [c.brk] + g.chain[r])
    ensures var c', g' := WithNode(c, links, p), Grown(g, r, [c.brk] + g.chain[r], c.brk, p);
      Laid(c', g') && Texts(c', g') == Texts(c, g)[r := [c.cells[p]] + Texts(c, g)[r]]
  {
    hide Laid, Texts, Linked;
    var s := [c.brk] + g.chain[r];
    var c', g' := WithNode(c, links, p), Grown(g, r, s, c.brk, p);
    AddedLaid(c, g, r, p, links, s);
    forall q | q in g.chain && q != r ensures Texts(c', g')[q] == Texts(c, g)[q] {
      AddedBeside(c, g, r, p, links, s, q);
    }
    TextLength(c, g, r);
    TextLength(c', g', r);
    NodeIsFresh(c, g);
    var want := [c.cells[p]] + Texts(c, g)[r];
    forall i | 0 <= i < |s| ensures Texts(c', g')[r][i] == want[i] {
      TextAt(c', g', r, i);
      if i > 0 {
        TextAt(c, g, r, i - 1);
        NodeIsOld(c, g, r, i - 1);
        assert s[i] == g.chain[r][i - 1];
      }
    }
    assert Texts(c', g')[r] == want;
  }

  lemma NodeIsOld<V>(c: Nodes<V>, g: Layout, r: Id, i: nat)
    requires Laid(c, g) && r in g.chain && i < |g.chain[r]|
    ensures g.chain[r][i] < c.brk
  {
    LaidAt(c, g, r, i);
  }

  ghost function WithoutNode<V>(c: Nodes<V>, n: Id, cells: map<Id, V>): Nodes<V>
    requires CanUnlink(c.links, n)
  {
    Nodes(Unlink(c.links, n), c.payload - {n}, cells, c.brk)
  }

  ghost function WithoutValue<V>(s: seq<V>, i: nat): seq<V>
    requires i < |s|
  {
    s[..i] + s[i + 1..]
  }

  lemma DroppedAt<V>(c: Nodes<V>, g: Layout, r: Id, i: nat, cells: map<Id, V>)
    requires Laid(c, g) && r in g.chain && i < |g.chain[r]|
    requires g.chain[r][i] in c.payload && CanUnlink(c.links, g.chain[r][i])
    requires cells == c.cells || cells == c.cells - {c.payload[g.chain[r][i]]}
    ensures var c', g' := WithoutNode(c, g.chain[r][i], cells), Shrunk(c, g, r, i);
      && Laid(c', g') && |Texts(c, g)[r]| == |g.chain[r]|
      && Texts(c', g') == Texts(c, g)[r := WithoutValue(Texts(c, g)[r], i)]
  {
    hide Laid, Texts, Linked, Unlink;
    var c', g' := WithoutNode(c, g.chain[r][i], cells), Shrunk(c, g, r, i);
    DropLaid(c, g, r, i, cells);
    forall q | q in g.chain && q != r ensures Texts(c', g')[q] == Texts(c, g)[q] {
      DroppedBeside(c, g, r, i, c', q);
    }
    TextLength(c, g, r);
    TextLength(c', g', r);
    var want := WithoutValue(Texts(c, g)[r], i);
    forall j | 0 <= j < |want| ensures Texts(c', g')[r][j] == want[j] {
      TextAt(c', g', r, j);
      TextAt(c, g, r, if j < i then j else j + 1);
    }
    assert Texts(c', g')[r] == want;
  }

  lemma DroppedBeside<V>(c: Nodes<V>, g: Layout, r: Id, i: nat, c': Nodes<V>, q: Id)
    requires Laid(c, g) && r in g.chain && i < |g.chain[r]| && q in g.chain && q != r
    requires g.chain[r][i] in c.payload && Laid(c', Shrunk(c, g, r, i))
    requires c'.payload == c.payload - {g.chain[r][i]}
    requires c'.cells == c.cells || c'.cells == c.cells - {c.payload[g.chain[r][i]]}
    ensures Texts(c', Shrunk(c, g, r, i))[q] == Texts(c, g)[q]
  {
    hide Chain, Texts, Holding, Without;
    LaidAt(c, g, r, i);
    assert Linked(c, g, q);
    forall n | n in g.chain[q] ensures n != g.chain[r][i] && Held(c, g, n) {
      assert n in g.owner;
    }
    SameText(c, g, q, c', Shrunk(c, g, r, i), q);
  }

  /** A new payload that no node holds yet. */
  lemma CellLaid<V>(c: Nodes<V>, g: Layout, v: V)
    requires Laid(c, g)
    ensures var c' := c.(cells := c.cells[c.brk := v], brk := c.brk + 1);
      Laid(c', g) && Texts(c', g) == Texts(c, g) && c.brk !in g.holder && c.brk !in c.cells
  {
    hide Chain, Texts;
    var c' := c.(cells := c.cells[c.brk := v], brk := c.brk + 1);
    forall p | p in g.holder ensures p in c.cells && Holding(c', g, p) {
      assert Holding(c, g, p) && Held(c, g, g.holder[p]);
    }
    forall r | r in g.chain ensures Linked(c', g, r) {
      assert Linked(c, g, r);
    }
    forall n | n in g.owner ensures Held(c', g, n) {
      assert Held(c, g, n);
    }
    forall r | r in g.chain ensures Texts(c', g)[r] == Texts(c, g)[r] {
      assert Linked(c, g, r);
      forall n | n in g.chain[r] ensures Held(c, g, n) {
        assert n in g.owner;
      }
      SameText(c, g, r, c', g, r);
    }
  }

  lemma SameChain<V>(c: Nodes<V>, g: Layout, q: Id, g': Layout, r: Id)
    requires Laid(c, g) && Laid(c, g') && q in g.chain && r in g'.chain && g.chain[q] == g'.chain[r]
    ensures Texts(c, g)[q] == Texts(c, g')[r]
  {
    hide Chain, Texts, Holding;
    assert Linked(c, g, q);
    forall n | n in g.chain[q] ensures Held(c, g, n) {
      assert n in g.owner;
    }
    SameText(c, g, q, c, g', r);
  }

  // ----- a chain gets another count -----

  ghost function Rekeyed(g: Layout, q: Id, r: Id): Layout
    requires q in g.chain
  {
    Layout((g.chain - {q})[r := g.chain[q]], map n | n in g.owner :: if g.owner[n] == q then r else g.owner[n], g.holder)
  }

  lemma RekeyedLaid<V>(c: Nodes<V>, g: Layout, q: Id, r: Id)
    requires Laid(c, g) && q in g.chain && r !in g.chain
    ensures Laid(c, Rekeyed(g, q, r))
  {
    hide Chain, Linked, Held, Holding;
    var g' := Rekeyed(g, q, r);
    forall x | x in g'.chain ensures Linked(c, g', x) {
      RekeyedLinked(c, g, q, r, x);
    }
    forall n | n in g'.owner ensures Held(c, g', n) {
      RekeyedHeld(c, g, q, r, n);
    }
    forall p | p in g'.holder ensures Holding(c, g', p) {
      RekeyedHolding(c, g, q, r, p);
    }
  }

  lemma RekeyedLinked<V>(c: Nodes<V>, g: Layout, q: Id, r: Id, x: Id)
    requires Laid(c, g) && q in g.chain && r !in g.chain && x in Rekeyed(g, q, r).chain
    ensures Linked(c, Rekeyed(g, q, r), x)
  {
    hide Chain, Held, Holding;
    assert Linked(c, g, if x == r then q else x);
  }

  lemma RekeyedHeld<V>(c: Nodes<V>, g: Layout, q: Id, r: Id, n: Id)
    requires Laid(c, g) && q in g.chain && r !in g.chain && n in g.owner
    ensures Held(c, Rekeyed(g, q, r), n)
  {
    hide Chain, Linked, Holding;
    assert Held(c, g, n);
  }

  lemma RekeyedHolding<V>(c: Nodes<V>, g: Layout, q: Id, r: Id, p: Id)
    requires Laid(c, g) && q in g.chain && p in g.holder
    ensures Holding(c, Rekeyed(g, q, r), p)
  {
    hide Chain, Linked, Held;
    assert Holding(c, g, p);
  }

  lemma RekeyedTexts<V>(c: Nodes<V>, g: Layout, q: Id, r: Id)
    requires Laid(c, g) && q in g.chain && r !in g.chain
    ensures Laid(c, Rekeyed(g, q, r)) && Texts(c, Rekeyed(g, q, r)) == (Texts(c, g) - {q})[r := Texts(c, g)[q]]
  {
    hide Chain, Texts, Holding;
    RekeyedLaid(c, g, q, r);
    var g' := Rekeyed(g, q, r);
    forall x | x in g'.chain ensures Texts(c, g')[x] == Texts(c, g)[if x == r then q else x] {
      SameChain(c, g, if x == r then q else x, g', x);
    }
  }

  lemma EmptyLaid<V>(c: Nodes<V>, g: Layout, r: Id)
    requires Laid(c, g) && r !in g.chain
    ensures var g' := g.(chain := g.chain[r := []]); Laid(c, g') && Texts(c, g') == Texts(c, g)[r := []]
  {
    hide Laid, Texts;
    var g' := g.(chain := g.chain[r := []]);
    EmptyIsLaid(c, g, r);
    forall x | x in g.chain ensures Texts(c, g')[x] == Texts(c, g)[x] {
      SameChain(c, g, x, g', x);
    }
    TextLength(c, g', r);
    assert Texts(c, g')[r] == [];
  }

  lemma EmptyIsLaid<V>(c: Nodes<V>, g: Layout, r: Id)
    requires Laid(c, g) && r !in g.chain
    ensures Laid(c, g.(chain := g.chain[r := []]))
  {
    hide Chain;
    var g' := g.(chain := g.chain[r := []]);
    EmptyChain(c.links);
    forall x | x in g'.chain ensures Linked(c, g', x) {
      if x != r { assert Linked(c, g, x); }
    }
    forall n | n in g'.owner ensures Held(c, g', n) {
      assert Held(c, g, n);
    }
    forall p | p in g'.holder ensures Holding(c, g', p) {
      assert Holding(c, g, p);
    }
  }

  // ----- a whole chain is released -----

  /** The payloads of nodes. */
  ghost function Carried<V>(c: Nodes<V>, ns: set<Id>): set<Id> {
    set n | n in ns && n in c.payload :: c.payload[n]
  }

  ghost function Freed<V>(c: Nodes<V>, ns: set<Id>, ps: set<Id>): Nodes<V> {
    Nodes(Links(c.links.next - ns, c.links.prev - ns), c.payload - ns, c.cells - ps, c.brk)
  }

  ghost function Emptied<V>(c: Nodes<V>, g: Layout, r: Id): Layout
    requires r in g.chain
  {
    Layout(g.chain - {r}, g.owner - Elements(g.chain[r]), g.holder - Carried(c, Elements(g.chain[r])))
  }

  lemma FreedLinked<V>(c: Nodes<V>, g: Layout, r: Id, ps: set<Id>, q: Id)
    requires Laid(c, g) && r in g.chain && q in g.chain && q != r
    ensures Linked(Freed(c, Elements(g.chain[r]), ps), Emptied(c, g, r), q)
  {
    hide Held, Holding;
    assert Linked(c, g, q) && Linked(c, g, r);
    var k, s := Freed(c, Elements(g.chain[r]), ps).links, g.chain[q];
    forall i | 0 <= i < |s| ensures At(k, s, i) && s[i] !in Elements(g.chain[r]) {
      assert s[i] in s && At(c.links, s, i);
    }
  }

  lemma FreedHeld<V>(c: Nodes<V>, g: Layout, r: Id, ps: set<Id>, n: Id)
    requires Laid(c, g) && r in g.chain && n in g.owner && n !in Elements(g.chain[r])
    requires ps <= Carried(c, Elements(g.chain[r]))
    ensures Held(Freed(c, Elements(g.chain[r]), ps), Emptied(c, g, r), n)
  {
    hide Chain, Linked, Holding;
    assert Held(c, g, n);
    forall m | m in Elements(g.chain[r]) && m in c.payload ensures c.payload[m] != c.payload[n] {
      assert Held(c, g, m);
    }
  }

  lemma FreedHolding<V>(c: Nodes<V>, g: Layout, r: Id, ps: set<Id>, p: Id)
    requires Laid(c, g) && r in g.chain && p in Emptied(c, g, r).holder
    ensures Holding(Freed(c, Elements(g.chain[r]), ps), Emptied(c, g, r), p)
  {
    hide Chain, Linked, Held;
    assert Holding(c, g, p);
  }

  lemma FreedLaid<V>(c: Nodes<V>, g: Layout, r: Id, ps: set<Id>)
    requires Laid(c, g) && r in g.chain && ps <= Carried(c, Elements(g.chain[r]))
    ensures Laid(Freed(c, Elements(g.chain[r]), ps), Emptied(c, g, r))
  {
    hide Chain, Linked, Held, Holding;
    var c', g' := Freed(c, Elements(g.chain[r]), ps), Emptied(c, g, r);
    forall q | q in g'.chain ensures Linked(c', g', q) {
      FreedLinked(c, g, r, ps, q);
    }
    forall n | n in g'.owner ensures Held(c', g', n) {
      FreedHeld(c, g, r, ps, n);
    }
    forall p | p in g'.holder ensures Holding(c', g', p) {
      FreedHolding(c, g, r, ps, p);
    }
  }

  lemma FreedTexts<V>(c: Nodes<V>, g: Layout, r: Id, ps: set<Id>)
    requires Laid(c, g) && r in g.chain && ps <= Carried(c, Elements(g.chain[r]))
    ensures var c', g' := Freed(c, Elements(g.chain[r]), ps), Emptied(c, g, r);
      Laid(c', g') && Texts(c', g') == Texts(c, g) - {r}
  {
    hide Laid, Texts;
    FreedLaid(c, g, r, ps);
    var c', g' := Freed(c, Elements(g.chain[r]), ps), Emptied(c, g, r);
    forall q | q in g'.chain ensures Texts(c', g')[q] == Texts(c, g)[q] {
      FreedText(c, g, r, ps, q);
    }
  }

  lemma FreedText<V>(c: Nodes<V>, g: Layout, r: Id, ps: set<Id>, q: Id)
    requires Laid(c, g) && r in g.chain && ps <= Carried(c, Elements(g.chain[r])) && q in g.chain && q != r
    requires Laid(Freed(c, Elements(g.chain[r]), ps), Emptied(c, g, r))
    ensures Texts(Freed(c, Elements(g.chain[r]), ps), Emptied(c, g, r))[q] == Texts(c, g)[q]
  {
    hide Chain, Texts, Holding;
    var c', g' := Freed(c, Elements(g.chain[r]), ps), Emptied(c, g, r);
    assert Linked(c, g, q) && Linked(c', g', q);
    forall n | n in g.chain[q] ensures Held(c, g, n) && Held(c', g', n) {
      assert n in g.owner && n in g'.owner;
    }
    SameText(c, g, q, c', g', q);
  }

  /** The memory when the first `i` nodes of a chain have been released. */
  ghost function FreedTo<V>(c: Nodes<V>, s: seq<Id>, i: nat, destroys: bool): Nodes<V>
    requires i <= |s|
  {
    Freed(c, Elements(s[..i]), if destroys then Carried(c, Elements(s[..i])) else {})
  }

  lemma FreeStep<V>(c: Nodes<V>, g: Layout, r: Id, i: nat, destroys: bool)
    requires Laid(c, g) && r in g.chain && i < |g.chain[r]|
    ensures var s := g.chain[r]; var n, c' := s[i], FreedTo(c, s, i, destroys);
      && n in c'.links.next && n in c'.links.prev && n in c'.payload && c'.links.next[n] == Head(s[i + 1..])
      && c'.payload[n] in c'.cells
      && FreedTo(c, s, i + 1, destroys)
         == Nodes(Links(c'.links.next - {n}, c'.links.prev - {n}), c'.payload - {n},
                  if destroys then c'.cells - {c'.payload[n]} else c'.cells, c'.brk)
  {
    var s := g.chain[r];
    var n, was := s[i], Elements(s[..i]);
    assert Linked(c, g, r) && At(c.links, s, i);
    LaidAt(c, g, r, i);
    assert n !in was;
    assert Elements(s[..i + 1]) == was + {n} by {
      assert s[..i + 1] == s[..i] + [n];
    }
    assert i + 1 < |s| ==> s[i + 1..][0] == s[i + 1];
    CarriedApart(c, g, r, i);
    assert Carried(c, was + {n}) == Carried(c, was) + {c.payload[n]};
    FreedMore(c, was, n, if destroys then Carried(c, was) else {}, if destroys then {c.payload[n]} else {});
  }

  lemma CarriedApart<V>(c: Nodes<V>, g: Layout, r: Id, i: nat)
    requires Laid(c, g) && r in g.chain && i < |g.chain[r]| && g.chain[r][i] in c.payload
    ensures c.payload[g.chain[r][i]] !in Carried(c, Elements(g.chain[r][..i]))
  {
    hide Holding;
    LaidAt(c, g, r, i);
    assert Linked(c, g, r);
    forall j | 0 <= j < i ensures g.chain[r][j] in g.owner && Held(c, g, g.chain[r][j]) {
      LaidAt(c, g, r, j);
    }
  }

  lemma FreedMore<V>(c: Nodes<V>, ns: set<Id>, n: Id, ps: set<Id>, more: set<Id>)
    ensures var c' := Freed(c, ns, ps);
      Freed(c, ns + {n}, ps + more)
      == Nodes(Links(c'.links.next - {n}, c'.links.prev - {n}), c'.payload - {n}, c'.cells - more, c'.brk)
  {
    var c' := Freed(c, ns, ps);
    assert c.links.next - (ns + {n}) == c'.links.next - {n};
    assert c.links.prev - (ns + {n}) == c'.links.prev - {n};
    assert c.payload - (ns + {n}) == c'.payload - {n};
    assert c.cells - (ps + more) == c'.cells - more;
  }
}
