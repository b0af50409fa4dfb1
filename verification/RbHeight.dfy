/** A red-black tree is never much deeper than a balanced one. */
module RbHeight {
  import opened RbShape
  import opened RbColor
  import opened RbPutFix
  import opened RbEdit

  function Pow2(n: nat): nat {
    if n == 0 then 1 else 2 * Pow2(n - 1)
  }

  function Log2(n: nat): nat {
    if n < 2 then 0 else 1 + Log2(n / 2)
  }

  lemma {:induction false} LogBounds(h: nat, n: nat)
    requires Pow2(h) <= n
    ensures h <= Log2(n)
  {
    if h > 0 {
      LogBounds(h - 1, n / 2);
    }
  }

  /** A subtree of black height `b` covers at least 2^b - 1 positions. */
  lemma {:induction false} Crowded(s: Shape, S: set<Ref>, c: Paint, n: Ref)
    requires AllGood(s, S, c, SOUND) && n in S && n != ROOT && Good(s, S, c, SOUND, n)
    ensures 0 <= c.bh[n] && Pow2(c.bh[n]) <= Span(s, n)
    decreases Span(s, n)
  {
    var l, r := s.near[n], s.far[n];
    if l != NIL {
      assert Good(s, S, c, SOUND, l);
      Crowded(s, S, c, l);
    }
    if r != NIL {
      assert Good(s, S, c, SOUND, r);
      Crowded(s, S, c, r);
    }
  }

  /** `k`, a node or a leaf, covers the positions strictly between `a` and `b` and hangs below at
      most `d` nodes of a tree of black height `top`. */
  ghost predicate Reached(s: Shape, S: set<Ref>, c: Paint, k: Ref, a: int, b: int, d: int, top: int)
    requires Painted(s, c)
  {
    && (k == NIL ==> b == a + 1)
    && (k != NIL ==> k in S && k != ROOT && Good(s, S, c, SOUND, k) && s.nearEnd[k] == a && s.farEnd[k] == b)
    && k < |c.bh| && 0 <= c.bh[k]
    && d <= 2 * (top - c.bh[k]) - if c.red[k] then 1 else 0
  }

  /** A search starts at the real root. */
  lemma ReachTop(s: Shape, S: set<Ref>, c: Paint, order: seq<Ref>) returns (top: int)
    requires AllGood(s, S, c, SOUND) && OrderOk(s, S, order) && s.up
    ensures s.Sized() && Painted(s, c) && |order| >= 1 && ROOT in S
    ensures Reached(s, S, c, s.near[ROOT], -1, |order| - 1, 0, top)
    ensures 0 <= top <= Log2(|order|) && (s.near[ROOT] == NIL ==> |order| == 1)
  {
    assert Good(s, S, c, SOUND, ROOT);
    var r := s.near[ROOT];
    top := 0;
    if r != NIL {
      assert Good(s, S, c, SOUND, r);
      Crowded(s, S, c, r);
      top := c.bh[r];
      LogBounds(top, |order|);
    }
  }

  // ----- walks down from the real root -----

  predicate Down(s: Shape, n: Ref, k: Ref) {
    n != NIL && n < |s.near| && n < |s.far| && (k == s.near[n] || k == s.far[n])
  }

  /** A walk along the links, to a node or to a leaf. */
  predicate Walk(s: Shape, path: seq<Ref>) {
    && path != [] && ROOT < |s.near| && path[0] == s.near[ROOT]
    && forall i :: 0 <= i < |path| - 1 ==> Down(s, path[i], path[i + 1])
  }

  /** How many nodes the walk visits; a leaf at its end is not one. */
  function Visited(path: seq<Ref>): nat
    requires path != []
  {
    if path[|path| - 1] == NIL then |path| - 1 else |path|
  }

  /** Every walk, to whatever node or gap, visits at most twice the logarithm of the number of nodes. */
  lemma WalkIsShort(s: Shape, S: set<Ref>, c: Paint, order: seq<Ref>, path: seq<Ref>)
    requires AllGood(s, S, c, SOUND) && OrderOk(s, S, order) && s.up && Walk(s, path)
    ensures Visited(path) <= 2 * Log2(|order|)
  {
    var top := ReachTop(s, S, c, order);
    var a, b := WalkReached(s, S, c, order, path, top);
    if path[|path| - 1] != NIL {
      ReachKids(s, S, c, path[|path| - 1], a, b, |path| - 1, top);
    }
  }

  lemma {:induction false} WalkReached(s: Shape, S: set<Ref>, c: Paint, order: seq<Ref>, path: seq<Ref>, top: int)
    returns (a: int, b: int)
    requires AllGood(s, S, c, SOUND) && OrderOk(s, S, order) && s.up && Walk(s, path) && Painted(s, c) && |order| >= 1
    requires Reached(s, S, c, s.near[ROOT], -1, |order| - 1, 0, top)
    ensures Reached(s, S, c, path[|path| - 1], a, b, |path| - 1, top)
    decreases |path|
  {
    hide AllGood, OrderOk, Reached;
    a, b := -1, |order| - 1;
    if |path| > 1 {
      var before := path[..|path| - 1];
      var n, k := before[|before| - 1], path[|path| - 1];
      forall i | 0 <= i < |before| - 1 ensures Down(s, before[i], before[i + 1]) {
        assert Down(s, path[i], path[i + 1]);
      }
      a, b := WalkReached(s, S, c, order, before, top);
      assert Down(s, path[|path| - 2], k);
      ReachKids(s, S, c, n, a, b, |before| - 1, top);
      if k == s.near[n] {
        b := s.mid[n];
      } else {
        a := s.mid[n];
      }
    }
  }

  /** Every node is the end of a walk. */
  lemma {:induction false} WalkTo(s: Shape, S: set<Ref>, c: Paint, n: Ref) returns (path: seq<Ref>)
    requires AllGood(s, S, c, SOUND) && s.up && n in S && n != ROOT && n < |s.near|
    requires s.far[ROOT] == NIL
    ensures Walk(s, path) && path[|path| - 1] == n
    decreases s.cap + 1 - Span(s, n)
  {
    assert Good(s, S, c, SOUND, n) && Good(s, S, c, SOUND, ROOT);
    var p := s.parent[n];
    assert Good(s, S, c, SOUND, p);
    if p == ROOT {
      path := [n];
    } else {
      var above := WalkTo(s, S, c, p);
      path := above + [n];
      forall i | 0 <= i < |path| - 1 ensures Down(s, path[i], path[i + 1]) {
        if i < |above| - 1 {
          assert Down(s, above[i], above[i + 1]);
        }
      }
    }
  }

  /** One step down, to either side. */
  lemma ReachKids(s: Shape, S: set<Ref>, c: Paint, n: Ref, a: int, b: int, d: int, top: int)
    requires AllGood(s, S, c, SOUND) && s.up && n != NIL && Painted(s, c) && Reached(s, S, c, n, a, b, d, top)
    ensures n < |s.near| && n in S && n != ROOT && a < s.mid[n] < b && d + 1 <= 2 * top
    ensures (s.near[n] == NIL ==> s.mid[n] == a + 1) && (s.far[n] == NIL ==> b == s.mid[n] + 1)
    ensures Reached(s, S, c, s.near[n], a, s.mid[n], d + 1, top) && Reached(s, S, c, s.far[n], s.mid[n], b, d + 1, top)
  {
    assert s.near[n] != NIL ==> Good(s, S, c, SOUND, s.near[n]);
    assert s.far[n] != NIL ==> Good(s, S, c, SOUND, s.far[n]);
  }
}
