/** The three edits that change which nodes a tree holds: linking a new leaf, splicing out a node
    with at most one child, and putting one node in the place of another. */
module RbEdit {
  import opened RbShape
  import opened RbColor
  import opened RbRemoveFix

  ghost predicate AllNodes(s: Shape, S: set<Ref>) {
    s.Sized() && NIL !in S && ROOT in S && forall n {:trigger NodeOk(s, S, n)} :: n in S ==> NodeOk(s, S, n)
  }

  /** `order` lists the nodes of `S` by position, the header last. */
  ghost predicate OrderOk(s: Shape, S: set<Ref>, order: seq<Ref>) {
    && s.Sized() && s.cap == |order| && ROOT in S
    && (forall i :: 0 <= i < |order| ==> order[i] in S && order[i] < |s.mid| && s.mid[order[i]] == i)
    && (forall n :: n in S ==> n < |s.mid| && 0 <= s.mid[n] < |order| && order[s.mid[n]] == n)
    && s.mid[ROOT] == |order| - 1
    && s.nearEnd[ROOT] == (if s.up then -1 else s.cap) && s.farEnd[ROOT] == (if s.up then s.cap else -1)
  }

  /** The node just beyond the far end of a subtree has that subtree on its near side. */
  lemma EndOwner(s: Shape, S: set<Ref>, order: seq<Ref>, n: Ref)
    requires AllNodes(s, S) && OrderOk(s, S, order) && NodeOk(s, S, n)
    requires 0 <= s.farEnd[n] < s.cap
    ensures s.near[order[s.farEnd[n]]] != NIL
    decreases s.cap + 1 - (if s.up then s.farEnd[n] - s.nearEnd[n] else s.nearEnd[n] - s.farEnd[n])
  {
    var p := s.parent[n];
    assert NodeOk(s, S, p);
    if n != s.near[p] {
      EndOwner(s, S, order, p);
    }
  }

  lemma OrderAt(s: Shape, S: set<Ref>, order: seq<Ref>, n: Ref)
    requires OrderOk(s, S, order) && n in S
    ensures n < |s.mid| && 0 <= s.mid[n] < |order| && order[s.mid[n]] == n && |order| >= 1
    ensures n == ROOT <==> s.mid[n] == |order| - 1
  {
  }

  /** The header has no right child. */
  lemma HeaderFar(s: Shape, S: set<Ref>, order: seq<Ref>)
    requires AllNodes(s, S) && OrderOk(s, S, order)
    ensures if s.up then s.far[ROOT] == NIL else s.near[ROOT] == NIL
  {
    assert NodeOk(s, S, ROOT);
    if s.far[ROOT] != NIL { assert NodeOk(s, S, s.far[ROOT]); }
    if s.near[ROOT] != NIL { assert NodeOk(s, S, s.near[ROOT]); }
  }

  lemma EmptyOrder(s: Shape, S: set<Ref>, order: seq<Ref>)
    requires AllNodes(s, S) && OrderOk(s, S, order) && s.up
    ensures s.near[ROOT] == NIL <==> S == {ROOT}
    ensures s.near[ROOT] == NIL <==> |order| == 1
  {
    assert NodeOk(s, S, ROOT);
    if s.near[ROOT] == NIL {
      forall n | n in S ensures n == ROOT {
        assert order[s.mid[n]] == n && s.mid[n] == s.mid[ROOT];
      }
      assert S == {ROOT};
    } else {
      assert NodeOk(s, S, s.near[ROOT]);
      assert s.near[ROOT] != ROOT;
    }
  }

  lemma OrderDistinct(s: Shape, S: set<Ref>, order: seq<Ref>, z: Ref)
    requires OrderOk(s, S, order)
    ensures |order| >= 1 && order[|order| - 1] == ROOT && ROOT in S
    ensures forall i :: 0 <= i < |order| ==> order[i] in S
    ensures forall i, j :: 0 <= i < j < |order| ==> order[i] != order[j]
    ensures z !in S ==> forall i :: 0 <= i < |order| ==> order[i] != z
  {
  }

  lemma MirrorOrder(s: Shape, S: set<Ref>, order: seq<Ref>)
    requires OrderOk(s, S, order)
    ensures OrderOk(s.Mirror(), S, order)
  {
  }

  lemma RotateOrder(s: Shape, S: set<Ref>, order: seq<Ref>, x: Ref)
    requires Around(s, S, x) && OrderOk(s, S, order)
    ensures OrderOk(Rotate(s, x), S, order)
  {
    RotateApart(s, S, x);
  }

  /** A rotation about `p` keeps the order; the header changes child only if that child is `p`. */
  lemma TurnOrder(s: Shape, S: set<Ref>, order: seq<Ref>, p: Ref)
    requires Around(s, S, p) && OrderOk(s, S, order)
    ensures var r := Rotate(s, p);
            && OrderOk(r, S, order) && OrderOk(r.Mirror(), S, order)
            && (r.near[ROOT] == s.near[ROOT] || s.near[ROOT] == p) && (r.far[ROOT] == s.far[ROOT] || s.far[ROOT] == p)
  {
    RotateOrder(s, S, order, p);
    MirrorOrder(Rotate(s, p), S, order);
    RotateApart(s, S, p);
    RotateLinks(s, S, p);
  }

  // ----- linking a new leaf -----

  function Move(v: int, k: int, incl: bool, d: int): int {
    if v > k || (v == k && incl) then v + d else v
  }

  /** Every position beyond `k` moved by `d`. */
  function Moved(xs: seq<int>, k: int, incl: bool, d: int): (r: seq<int>)
    ensures |r| == |xs| && forall i :: 0 <= i < |xs| ==> r[i] == Move(xs[i], k, incl, d)
  {
    seq(|xs|, i requires 0 <= i < |xs| => Move(xs[i], k, incl, d))
  }

  /** A fresh node as the near child of `y`. */
  function Graft(s: Shape, y: Ref): (r: Shape)
    requires s.Sized() && y < |s.near|
    ensures r.Sized() && |r.near| == |s.near| + 1
  {
    var z, k := |s.near|, s.mid[y];
    Shape(s.up, s.cap + 1, s.parent + [y], (s.near + [NIL])[y := z], s.far + [NIL],
          Moved(s.nearEnd, k, s.up, 1) + [Move(s.nearEnd[y], k, s.up, 1)],
          Moved(s.farEnd, k, s.up, 1) + [Move(k, k, s.up, 1)],
          Moved(s.mid, k, s.up, 1) + [if s.up then k else k + 1])
  }

  lemma GraftNode(s: Shape, S: set<Ref>, y: Ref, n: Ref)
    requires s.Sized() && NodeOk(s, S, y) && NodeOk(s, S, n) && s.near[y] == NIL
    requires s.farEnd[n] != s.mid[y] && (s.mid[n] == s.mid[y] ==> n == y)
    ensures NodeOk(Graft(s, y), S + {|s.near|}, n)
  {
  }

  lemma GraftNew(s: Shape, S: set<Ref>, y: Ref)
    requires s.Sized() && NodeOk(s, S, y) && s.near[y] == NIL
    ensures NodeOk(Graft(s, y), S + {|s.near|}, |s.near|)
  {
  }

  function Inserted(order: seq<Ref>, q: int, z: Ref): seq<Ref>
    requires 0 <= q <= |order|
  {
    order[..q] + [z] + order[q..]
  }

  lemma GraftListed(s: Shape, S: set<Ref>, order: seq<Ref>, y: Ref, i: int)
    requires OrderOk(s, S, order) && y in S && |s.near| !in S && 0 <= i <= |order|
    ensures var q := if s.up then s.mid[y] else s.mid[y] + 1;
            0 <= q <= |order| &&
            var n := Inserted(order, q, |s.near|)[i];
            n in S + {|s.near|} && n <= |s.near| && Graft(s, y).mid[n] == i
  {
    var q := if s.up then s.mid[y] else s.mid[y] + 1;
    if i < q {
      assert Inserted(order, q, |s.near|)[i] == order[i];
    } else if i > q {
      assert Inserted(order, q, |s.near|)[i] == order[i - 1];
    }
  }

  lemma GraftPlaced(s: Shape, S: set<Ref>, order: seq<Ref>, y: Ref, n: Ref)
    requires OrderOk(s, S, order) && y in S && n in S + {|s.near|} && |s.near| !in S
    ensures var q, r := if s.up then s.mid[y] else s.mid[y] + 1, Graft(s, y);
            0 <= q <= |order| && n < |r.mid| && 0 <= r.mid[n] <= |order| && Inserted(order, q, |s.near|)[r.mid[n]] == n
  {
    var q := if s.up then s.mid[y] else s.mid[y] + 1;
    if n != |s.near| {
      var i := if s.mid[n] < q then s.mid[n] else s.mid[n] + 1;
      assert Inserted(order, q, |s.near|)[i] == order[s.mid[n]];
    }
  }

  lemma GraftOrder(s: Shape, S: set<Ref>, order: seq<Ref>, y: Ref)
    requires AllNodes(s, S) && OrderOk(s, S, order) && y in S && (y == ROOT ==> s.up)
    requires forall n :: n in S ==> n < |s.near|
    ensures var q := if s.up then s.mid[y] else s.mid[y] + 1;
            0 <= q < |order| && OrderOk(Graft(s, y), S + {|s.near|}, Inserted(order, q, |s.near|))
  {
    hide NodeOk;
    var q := if s.up then s.mid[y] else s.mid[y] + 1;
    var z, r := |s.near|, Graft(s, y);
    OrderAt(s, S, order, y);
    forall i | 0 <= i < |Inserted(order, q, z)|
      ensures var n := Inserted(order, q, z)[i]; n in S + {z} && n < |r.mid| && r.mid[n] == i
    {
      GraftListed(s, S, order, y, i);
    }
    forall n | n in S + {z}
      ensures n < |r.mid| && 0 <= r.mid[n] < |Inserted(order, q, z)| && Inserted(order, q, z)[r.mid[n]] == n
    {
      GraftPlaced(s, S, order, y, n);
    }
  }

  lemma GraftColour(s: Shape, S: set<Ref>, c: Paint, y: Ref, n: Ref)
    requires Good(s, S, c, SOUND, n) && n != ROOT && NodeOk(s, S, y) && s.near[y] == NIL && NIL !in S
    ensures var r, c', f' := Graft(s, y), Paint(c.red + [true], c.bh + [0]), Flaw(NIL, NIL, |s.near|, NIL);
            && Painted(r, c') && r.near[n] < |r.near| && r.far[n] < |r.near| && r.parent[n] < |r.near|
            && BhOk(r, c', f', n) && RedOk(r, c', f', n)
  {
  }

  /** A good tree stays good but for the colour of the new leaf. */
  lemma GraftGood(s: Shape, S: set<Ref>, c: Paint, order: seq<Ref>, y: Ref)
    requires AllGood(s, S, c, SOUND) && OrderOk(s, S, order) && y in S && y < |s.near| && s.near[y] == NIL
    ensures AllGood(Graft(s, y), S + {|s.near|}, Paint(c.red + [true], c.bh + [0]), Flaw(NIL, NIL, |s.near|, NIL))
  {
    var z := |s.near|;
    var r, c', f' := Graft(s, y), Paint(c.red + [true], c.bh + [0]), Flaw(NIL, NIL, z, NIL);
    GoodNodes(s, S, c, SOUND);
    forall n | n in S + {z} ensures Good(r, S + {z}, c', f', n) {
      if n == z {
        GraftNew(s, S, y);
      } else {
        assert Good(s, S, c, SOUND, n);
        if s.farEnd[n] == s.mid[y] { EndOwner(s, S, order, n); }
        GraftNode(s, S, y, n);
        if n != ROOT { GraftColour(s, S, c, y, n); }
      }
    }
  }

  lemma GoodNodes(s: Shape, S: set<Ref>, c: Paint, f: Flaw)
    requires AllGood(s, S, c, f)
    ensures AllNodes(s, S)
    ensures forall n :: n in S ==> n < |s.near|
  {
    forall n | n in S ensures NodeOk(s, S, n) {
      assert Good(s, S, c, f, n);
    }
  }

  // ----- splicing out a node without a near child -----

  function Splice(s: Shape, y: Ref): (r: Shape)
    requires s.Sized() && y < |s.near| && s.far[y] < |s.near| && s.parent[y] < |s.near|
    ensures r.Sized() && |r.near| == |s.near|
  {
    var x, p, k := s.far[y], s.parent[y], s.mid[y];
    Shape(s.up, s.cap - 1, s.parent[x := p],
          if y == s.near[p] then s.near[p := x] else s.near,
          if y == s.near[p] then s.far else s.far[p := x],
          Moved(s.nearEnd, k, s.up, -1), Moved(s.farEnd, k, s.up, -1), Moved(s.mid, k, s.up, -1))
  }

  ghost predicate CanSplice(s: Shape, S: set<Ref>, y: Ref) {
    && s.Sized() && NIL !in S && NodeOk(s, S, y) && y != ROOT && s.near[y] == NIL
    && NodeOk(s, S, s.parent[y]) && (s.far[y] != NIL ==> NodeOk(s, S, s.far[y]))
  }

  /** The other nodes keep clear of the position of `y`. */
  ghost predicate Clear(s: Shape, S: set<Ref>, y: Ref, n: Ref)
    requires s.Sized() && y < |s.near|
  {
    NodeOk(s, S, n) && n != y && s.farEnd[n] != s.mid[y] && s.mid[n] != s.mid[y]
  }

  lemma SpliceApart(s: Shape, S: set<Ref>, y: Ref)
    requires CanSplice(s, S, y)
    ensures var x, p := s.far[y], s.parent[y]; x != y && p != y && x != p && s.near[p] != s.far[p]
  {
  }

  lemma SpliceNear(s: Shape, S: set<Ref>, y: Ref, n: Ref)
    requires CanSplice(s, S, y) && Clear(s, S, y, n)
    ensures KidOk(Splice(s, y), S - {y}, n)
  {
    SpliceApart(s, S, y);
  }

  lemma SpliceFar(s: Shape, S: set<Ref>, y: Ref, n: Ref)
    requires CanSplice(s, S, y) && Clear(s, S, y, n)
    ensures KidOk(Splice(s, y).Mirror(), S - {y}, n)
  {
    SpliceApart(s, S, y);
  }

  lemma SpliceParent(s: Shape, S: set<Ref>, y: Ref, n: Ref)
    requires CanSplice(s, S, y) && Clear(s, S, y, n)
    ensures ParentOk(Splice(s, y), S - {y}, n)
  {
    SpliceApart(s, S, y);
  }

  lemma SpliceNode(s: Shape, S: set<Ref>, y: Ref, n: Ref)
    requires CanSplice(s, S, y) && Clear(s, S, y, n)
    ensures NodeOk(Splice(s, y), S - {y}, n)
  {
    SpliceNear(s, S, y, n);
    SpliceFar(s, S, y, n);
    SpliceParent(s, S, y, n);
  }

  function Without(order: seq<Ref>, k: int): seq<Ref>
    requires 0 <= k < |order|
  {
    order[..k] + order[k + 1..]
  }

  lemma SplicePlaced(s: Shape, S: set<Ref>, order: seq<Ref>, y: Ref, n: Ref)
    requires CanSplice(s, S, y) && OrderOk(s, S, order) && n in S && n != y
    ensures var r, order' := Splice(s, y), Without(order, s.mid[y]);
            n < |r.mid| && 0 <= r.mid[n] < |order'| && order'[r.mid[n]] == n
  {
    var k := s.mid[y];
    assert s.mid[n] != k;
    assert Without(order, k)[if s.mid[n] < k then s.mid[n] else s.mid[n] - 1] == order[s.mid[n]];
  }

  lemma SpliceListed(s: Shape, S: set<Ref>, order: seq<Ref>, y: Ref, i: int)
    requires CanSplice(s, S, y) && OrderOk(s, S, order) && 0 <= i < |order| - 1
    ensures var r, n := Splice(s, y), Without(order, s.mid[y])[i];
            n in S - {y} && n < |r.mid| && r.mid[n] == i
  {
    var k := s.mid[y];
    assert Without(order, k)[i] == order[if i < k then i else i + 1];
  }

  lemma SpliceOrder(s: Shape, S: set<Ref>, order: seq<Ref>, y: Ref)
    requires CanSplice(s, S, y) && OrderOk(s, S, order)
    ensures 0 <= s.mid[y] < |order| && OrderOk(Splice(s, y), S - {y}, Without(order, s.mid[y]))
  {
    forall i | 0 <= i < |order| - 1
      ensures var r, n := Splice(s, y), Without(order, s.mid[y])[i]; n in S - {y} && n < |r.mid| && r.mid[n] == i
    {
      SpliceListed(s, S, order, y, i);
    }
    forall n | n in S - {y}
      ensures var r, order' := Splice(s, y), Without(order, s.mid[y]);
        n < |r.mid| && 0 <= r.mid[n] < |order'| && order'[r.mid[n]] == n
    {
      SplicePlaced(s, S, order, y, n);
    }
    assert s.mid[ROOT] > s.mid[y];
  }

  lemma SpliceBh(s: Shape, S: set<Ref>, c: Paint, y: Ref, n: Ref)
    requires CanSplice(s, S, y) && Good(s, S, c, SOUND, y) && Good(s, S, c, SOUND, n) && n != ROOT && n != y
    requires s.far[y] != NIL ==> Good(s, S, c, SOUND, s.far[y])
    ensures var r, x := Splice(s, y), s.far[y];
            var f := if c.red[y] then SOUND else Short(r, x);
            Painted(r, c) && r.near[n] < |r.near| && r.far[n] < |r.near| && BhOk(r, c, f, n)
  {
    SpliceApart(s, S, y);
  }

  lemma SpliceRed(s: Shape, S: set<Ref>, c: Paint, y: Ref, n: Ref)
    requires CanSplice(s, S, y) && Good(s, S, c, SOUND, y) && Good(s, S, c, SOUND, n) && n != ROOT && n != y
    requires s.far[y] != NIL ==> Good(s, S, c, SOUND, s.far[y])
    ensures var r, x := Splice(s, y), s.far[y];
            var f := if c.red[y] then SOUND else Short(r, x);
            Painted(r, c) && r.parent[n] < |r.near| && RedOk(r, c, f, n)
  {
    SpliceApart(s, S, y);
  }

  /** Splicing out a red node keeps a good tree good; splicing out a black one leaves its child
      one black node short. */
  lemma SpliceGood(s: Shape, S: set<Ref>, c: Paint, order: seq<Ref>, y: Ref)
    requires AllGood(s, S, c, SOUND) && OrderOk(s, S, order) && y in S && y != ROOT && y < |s.near| && s.near[y] == NIL
    ensures CanSplice(s, S, y)
    ensures AllGood(Splice(s, y), S - {y}, c, if c.red[y] then SOUND else Short(Splice(s, y), s.far[y]))
  {
    GoodNodes(s, S, c, SOUND);
    assert Good(s, S, c, SOUND, y);
    assert s.far[y] != NIL ==> Good(s, S, c, SOUND, s.far[y]);
    assert Good(s, S, c, SOUND, s.parent[y]);
    var f := if c.red[y] then SOUND else Short(Splice(s, y), s.far[y]);
    forall n | n in S - {y} ensures Good(Splice(s, y), S - {y}, c, f, n) {
      SpliceGoodAt(s, S, c, order, y, n);
    }
  }

  lemma SpliceGoodAt(s: Shape, S: set<Ref>, c: Paint, order: seq<Ref>, y: Ref, n: Ref)
    requires AllGood(s, S, c, SOUND) && OrderOk(s, S, order) && CanSplice(s, S, y) && y < |s.near| == |c.red|
    requires Good(s, S, c, SOUND, y) && (s.far[y] != NIL ==> Good(s, S, c, SOUND, s.far[y])) && n in S && n != y
    ensures Good(Splice(s, y), S - {y}, c, if c.red[y] then SOUND else Short(Splice(s, y), s.far[y]), n)
  {
    GoodNodes(s, S, c, SOUND);
    assert Good(s, S, c, SOUND, n);
    if s.farEnd[n] == s.mid[y] { EndOwner(s, S, order, n); }
    SpliceNode(s, S, y, n);
    if n != ROOT {
      SpliceBh(s, S, c, y, n);
      SpliceRed(s, S, c, y, n);
    }
  }

  // ----- putting y in the place of z -----

  function Replace(s: Shape, z: Ref, y: Ref): (r: Shape)
    requires s.Sized() && y < |s.near| && z < |s.near|
    requires s.near[z] < |s.near| && s.far[z] < |s.near| && s.parent[z] < |s.near|
    ensures r.Sized() && |r.near| == |s.near|
  {
    var p := s.parent[z];
    var near, far := s.near[y := s.near[z]], s.far[y := s.far[z]];
    Shape(s.up, s.cap, s.parent[y := p][s.near[z] := y][s.far[z] := y],
          if z == s.near[p] then near[p := y] else near,
          if z == s.near[p] then far else far[p := y],
          s.nearEnd[y := s.nearEnd[z]], s.farEnd[y := s.farEnd[z]], s.mid[y := s.mid[z]])
  }

  ghost predicate CanReplace(s: Shape, S: set<Ref>, z: Ref, y: Ref) {
    && s.Sized() && NIL !in S && NodeOk(s, S, z) && z != ROOT && NodeOk(s, S, s.parent[z])
    && y !in S && y < |s.near| && y != NIL && y != ROOT
  }

  lemma ReplaceApart(s: Shape, S: set<Ref>, z: Ref, y: Ref)
    requires CanReplace(s, S, z, y)
    ensures var p := s.parent[z];
            && p != z && s.near[z] != z && s.far[z] != z && s.near[z] != p && s.far[z] != p && s.near[p] != s.far[p]
            && (s.near[z] == s.far[z] ==> s.near[z] == NIL)
  {
  }

  lemma ReplaceNear(s: Shape, S: set<Ref>, z: Ref, y: Ref, n: Ref)
    requires CanReplace(s, S, z, y) && NodeOk(s, S, n)
    ensures KidOk(Replace(s, z, y), S - {z} + {y}, if n == z then y else n)
  {
    ReplaceApart(s, S, z, y);
  }

  lemma ReplaceFar(s: Shape, S: set<Ref>, z: Ref, y: Ref, n: Ref)
    requires CanReplace(s, S, z, y) && NodeOk(s, S, n)
    ensures KidOk(Replace(s, z, y).Mirror(), S - {z} + {y}, if n == z then y else n)
  {
    ReplaceApart(s, S, z, y);
  }

  lemma ReplaceParent(s: Shape, S: set<Ref>, z: Ref, y: Ref, n: Ref)
    requires CanReplace(s, S, z, y) && NodeOk(s, S, n)
    ensures ParentOk(Replace(s, z, y), S - {z} + {y}, if n == z then y else n)
  {
    ReplaceApart(s, S, z, y);
  }

  lemma ReplaceNode(s: Shape, S: set<Ref>, z: Ref, y: Ref, n: Ref)
    requires CanReplace(s, S, z, y) && NodeOk(s, S, n)
    ensures NodeOk(Replace(s, z, y), S - {z} + {y}, if n == z then y else n)
  {
    ReplaceNear(s, S, z, y, n);
    ReplaceFar(s, S, z, y, n);
    ReplaceParent(s, S, z, y, n);
  }

  lemma ReplaceOrder(s: Shape, S: set<Ref>, order: seq<Ref>, z: Ref, y: Ref)
    requires CanReplace(s, S, z, y) && OrderOk(s, S, order)
    ensures 0 <= s.mid[z] < |order| && OrderOk(Replace(s, z, y), S - {z} + {y}, order[s.mid[z] := y])
  {
  }

  lemma ReplaceBounds(s: Shape, S: set<Ref>, z: Ref, y: Ref)
    requires CanReplace(s, S, z, y)
    ensures z < |s.near| && s.near[z] < |s.near| && s.far[z] < |s.near| && s.parent[z] < |s.near| && z in S && s.parent[z] in S
  {
  }

  lemma ReplaceBh(s: Shape, S: set<Ref>, c: Paint, z: Ref, y: Ref, n: Ref)
    requires CanReplace(s, S, z, y) && Good(s, S, c, SOUND, z) && Good(s, S, c, SOUND, n) && n != ROOT
    requires Good(s, S, c, SOUND, s.parent[z])
    ensures var r, c', m := Replace(s, z, y), Paint(c.red[y := c.red[z]], c.bh[y := c.bh[z]]), if n == z then y else n;
            Painted(r, c') && r.near[m] < |r.near| && r.far[m] < |r.near| && BhOk(r, c', SOUND, m)
  {
    hide RedOk, SpanOk, BhOk;
    if n == z {
      ReplaceBhNew(s, S, c, z, y);
    } else {
      ReplaceBhOld(s, S, c, z, y, n);
    }
  }

  lemma ReplaceBhNew(s: Shape, S: set<Ref>, c: Paint, z: Ref, y: Ref)
    requires CanReplace(s, S, z, y) && Good(s, S, c, SOUND, z)
    ensures var r, c' := Replace(s, z, y), Paint(c.red[y := c.red[z]], c.bh[y := c.bh[z]]);
            Painted(r, c') && r.near[y] < |r.near| && r.far[y] < |r.near| && BhOk(r, c', SOUND, y)
  {
    hide RedOk, SpanOk;
    ReplaceApart(s, S, z, y);
  }

  lemma ReplaceBhOld(s: Shape, S: set<Ref>, c: Paint, z: Ref, y: Ref, n: Ref)
    requires CanReplace(s, S, z, y) && Good(s, S, c, SOUND, z) && Good(s, S, c, SOUND, n) && n != ROOT && n != z
    requires Good(s, S, c, SOUND, s.parent[z])
    ensures var r, c' := Replace(s, z, y), Paint(c.red[y := c.red[z]], c.bh[y := c.bh[z]]);
            Painted(r, c') && r.near[n] < |r.near| && r.far[n] < |r.near| && BhOk(r, c', SOUND, n)
  {
    hide RedOk, SpanOk;
    ReplaceApart(s, S, z, y);
  }

  lemma ReplaceRed(s: Shape, S: set<Ref>, c: Paint, z: Ref, y: Ref, n: Ref)
    requires CanReplace(s, S, z, y) && Good(s, S, c, SOUND, z) && Good(s, S, c, SOUND, n) && n != ROOT
    requires Good(s, S, c, SOUND, s.parent[z])
    ensures var r, c', m := Replace(s, z, y), Paint(c.red[y := c.red[z]], c.bh[y := c.bh[z]]), if n == z then y else n;
            Painted(r, c') && r.parent[m] < |r.near| && RedOk(r, c', SOUND, m)
  {
    ReplaceApart(s, S, z, y);
  }

  lemma ReplaceGood(s: Shape, S: set<Ref>, c: Paint, z: Ref, y: Ref)
    requires AllGood(s, S, c, SOUND) && CanReplace(s, S, z, y)
    ensures AllGood(Replace(s, z, y), S - {z} + {y}, Paint(c.red[y := c.red[z]], c.bh[y := c.bh[z]]), SOUND)
  {
    hide NodeOk, BhOk, RedOk;
    ReplaceBounds(s, S, z, y);
    var r, c', S' := Replace(s, z, y), Paint(c.red[y := c.red[z]], c.bh[y := c.bh[z]]), S - {z} + {y};
    assert Good(s, S, c, SOUND, z) && Good(s, S, c, SOUND, s.parent[z]);
    forall m | m in S' ensures Good(r, S', c', SOUND, m) {
      var n := if m == y then z else m;
      assert Good(s, S, c, SOUND, n);
      ReplaceNode(s, S, z, y, n);
      if n != ROOT {
        ReplaceBh(s, S, c, z, y, n);
        ReplaceRed(s, S, c, z, y, n);
      }
    }
  }

  lemma OwingHeader(s: Shape, S: set<Ref>, c: Paint, order: seq<Ref>, x: Ref, p: Ref)
    requires Owing(s, S, c, x, p) && OrderOk(s, S, order)
    ensures p in S && p != ROOT && (if s.up then s.far[ROOT] == NIL else s.near[ROOT] == NIL)
  {
    GoodNodes(s, S, c, Owed(p));
    HeaderFar(s, S, order);
  }

  lemma PendingDone(s: Shape, S: set<Ref>, c: Paint, order: seq<Ref>, x: Ref)
    requires Pending(s, S, c, x) && OrderOk(s, S, order) && s.up && (c.red[x] || x == s.near[ROOT])
    ensures |c.red| == |c.bh| == |s.near| && x < |c.red|
    ensures AllGood(s, S, if c.red[x] then Outer(c, x) else c, SOUND)
  {
    GoodNodes(s, S, c, Short(s, x));
    EmptyOrder(s, S, order);
    PendingEnd(s, S, c, x);
  }

  /** Splicing `y` out as a whole: the tree is good, or `x` is short. */
  lemma SpliceStep(s: Shape, S: set<Ref>, c: Paint, order: seq<Ref>, y: Ref) returns (x: Ref)
    requires AllGood(s, S, c, SOUND) && OrderOk(s, S, order) && y in S && y != ROOT && y < |s.near|
    requires s.near[y] == NIL && (s.far[y] == NIL ==> s.up)
    ensures s.Sized() && x == s.far[y] && x < |s.near| && s.parent[y] < |s.near| && |c.red| == |s.near|
    ensures s.near[s.parent[y]] != s.far[s.parent[y]] && (y == s.near[s.parent[y]] || y == s.far[s.parent[y]])
    ensures s.parent[y] == ROOT ==> if s.up then y == s.near[ROOT] else y == s.far[ROOT]
    ensures x != s.parent[y] && y != s.parent[y] && x != y
    ensures 0 <= s.mid[y] < |order|
    ensures var r, S' := Splice(s, y), S - {y};
            && OrderOk(r, S', Without(order, s.mid[y])) && OrderOk(r.Mirror(), S', Without(order, s.mid[y]))
            && (c.red[y] ==> AllGood(r, S', c, SOUND) && AllGood(r.Mirror(), S', c, SOUND))
            && (!c.red[y] ==> Pending(if s.up then r else r.Mirror(), S', c, x))
  {
    SpliceGood(s, S, c, order, y);
    SpliceApart(s, S, y);
    SpliceOrder(s, S, order, y);
    GoodNodes(s, S, c, SOUND);
    HeaderFar(s, S, order);
    x := s.far[y];
    var r, S' := Splice(s, y), S - {y};
    MirrorOrder(r, S', Without(order, s.mid[y]));
    assert Good(s, S, c, SOUND, s.parent[y]);
    if c.red[y] {
      MirrorAll(r, S', c, SOUND);
    } else if !s.up {
      assert x in S';
      MirrorShort(r, S', c, x);
      SplicePending(s, S, c, y, x);
    } else {
      SplicePending(s, S, c, y, x);
    }
  }

  lemma SplicePending(s: Shape, S: set<Ref>, c: Paint, y: Ref, x: Ref)
    requires CanSplice(s, S, y) && x == s.far[y] && (x == NIL ==> s.up) && Painted(s, c) && !c.red[y]
    requires s.parent[y] == ROOT ==> if s.up then y == s.near[ROOT] else y == s.far[ROOT]
    requires AllGood(Splice(s, y), S - {y}, c, Short(Splice(s, y), x))
    requires !s.up ==> AllGood(Splice(s, y).Mirror(), S - {y}, c, Short(Splice(s, y).Mirror(), x))
    ensures Pending(if s.up then Splice(s, y) else Splice(s, y).Mirror(), S - {y}, c, x)
  {
    SpliceApart(s, S, y);
  }

  lemma ReplaceStep(s: Shape, S: set<Ref>, c: Paint, order: seq<Ref>, z: Ref, y: Ref)
    requires AllGood(s, S, c, SOUND) && OrderOk(s, S, order) && z in S && z != ROOT
    requires y !in S && y < |s.near| && y != NIL && y != ROOT
    ensures s.Sized() && z < |s.near| && |c.red| == |c.bh| == |s.near| && y < |c.red|
    ensures s.near[z] < |s.near| && s.far[z] < |s.near| && s.parent[z] < |s.near|
    ensures s.parent[z] != y && s.near[z] != y && s.far[z] != y && s.parent[z] != z && y != z
    ensures s.near[z] != z && s.far[z] != z && s.near[z] != s.parent[z] && s.far[z] != s.parent[z]
    ensures 0 <= s.mid[z] < |order|
    ensures var r, S', c' := Replace(s, z, y), S - {z} + {y}, Paint(c.red[y := c.red[z]], c.bh[y := c.bh[z]]);
            AllGood(r, S', c', SOUND) && OrderOk(r, S', order[s.mid[z] := y])
  {
    assert Good(s, S, c, SOUND, z) && Good(s, S, c, SOUND, s.parent[z]);
    ReplaceApart(s, S, z, y);
    ReplaceGood(s, S, c, z, y);
    ReplaceOrder(s, S, order, z, y);
  }
}
