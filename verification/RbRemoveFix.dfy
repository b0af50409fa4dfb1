/** The steps of the deletion repair loop.  Each lemma takes the short side as the near side. */
module RbRemoveFix {
  import opened RbShape
  import opened RbColor

  /** The flaw while `x` is one black node short: none needs recording when `x` is the real root. */
  function Short(s: Shape, x: Ref): Flaw
    requires s.Sized() && x < |s.near| && s.parent[x] < |s.near|
  {
    var p := s.parent[x];
    if p == ROOT then Flaw(NIL, NIL, x, x)
    else if x == s.near[p] then Flaw(p, NIL, x, x)
    else Flaw(NIL, p, x, x)
  }

  function Owed(p: Ref): Flaw { Flaw(p, NIL, NIL, NIL) }

  /** With `x` black the colour exceptions are idle. */
  lemma Calm(s: Shape, S: set<Ref>, c: Paint, x: Ref, p: Ref)
    requires AllGood(s, S, c, Flaw(p, NIL, x, x)) && x != ROOT && x < |c.red| && !c.red[x]
    ensures AllGood(s, S, c, Owed(p))
  {
    forall n | n in S ensures Good(s, S, c, Owed(p), n) {
      assert Good(s, S, c, Flaw(p, NIL, x, x), n);
    }
  }

  /** The sibling of a short node is a real node. */
  lemma Sibling(s: Shape, S: set<Ref>, c: Paint, p: Ref)
    requires AllGood(s, S, c, Owed(p)) && p in S && p != ROOT
    ensures Good(s, S, c, Owed(p), p)
    ensures var w := s.far[p];
            && w != NIL && w != p && w in S && w != ROOT && Good(s, S, c, Owed(p), w) && s.parent[w] == p
            && s.near[w] < |s.near| && s.far[w] < |s.near| && w != s.near[p]
  {
    assert Good(s, S, c, Owed(p), p);
    assert Good(s, S, c, Owed(p), s.far[p]);
  }

  function Demoted(c: Paint, p: Ref, w: Ref): Paint
    requires p < |c.red| == |c.bh| && w < |c.red|
  {
    Paint(c.red[w := false][p := true], c.bh[w := c.bh[w] + 1][p := c.bh[p] - 1])
  }

  lemma DemotedColours(s: Shape, S: set<Ref>, c: Paint, p: Ref, w: Ref)
    requires CanTurn(s, p) && Distinct(s, p) && w == s.far[p] && p != ROOT && p != NIL && w != ROOT && w != NIL
    requires Good(s, S, c, Owed(p), p) && Good(s, S, c, Owed(p), w) && s.parent[w] == p
    requires c.red[w] && !c.red[s.near[p]] && !c.red[s.near[w]]
    ensures Painted(s, Demoted(c, p, w)) && SameElsewhere(c, Demoted(c, p, w), p, w)
    ensures Levels(s, c, Demoted(c, p, w), Owed(p), p) && Colours(s, c, Demoted(c, p, w), Owed(p), p)
  {
  }

  /** A red sibling: rotate it above the parent. */
  lemma RemoveDemote(s: Shape, S: set<Ref>, c: Paint, p: Ref, w: Ref)
    requires AllGood(s, S, c, Owed(p)) && p in S && p != ROOT && Good(s, S, c, Owed(p), p)
    requires w == s.far[p] && c.red[w] && !c.red[s.near[p]]
    ensures Around(s, S, p) && AllGood(Rotate(s, p), S, Demoted(c, p, w), Owed(p))
  {
    Sibling(s, S, c, p);
    TurnReady(s, S, c, Owed(p), p);
    RotateApart(s, S, p);
    BlackKid(s, S, c, Owed(p), w, s.near[w]);
    DemotedColours(s, S, c, p, w);
    forall n | n in S ensures NodeOk(s, S, n) && Good(s, S, c, Owed(p), n) {
      assert Good(s, S, c, Owed(p), n);
    }
    RotateGood(s, S, c, Demoted(c, p, w), Owed(p), Owed(p), p);
  }

  function Lightened(c: Paint, p: Ref, w: Ref): Paint
    requires p < |c.red| == |c.bh| && w < |c.red|
  {
    Paint(c.red[w := true], c.bh[w := c.bh[w] - 1][p := c.bh[p] - 1])
  }

  lemma LightenBh(s: Shape, S: set<Ref>, c: Paint, p: Ref, w: Ref, n: Ref)
    requires Good(s, S, c, Owed(p), p) && Good(s, S, c, Owed(p), w) && Good(s, S, c, Owed(p), n) && NIL !in S
    requires p != ROOT && w != NIL && w != p && w == s.far[p] && w != s.near[p] && n != ROOT
    requires !c.red[w] && !c.red[s.near[w]] && !c.red[s.far[w]] && s.near[s.parent[p]] != s.far[s.parent[p]]
    ensures Painted(s, Lightened(c, p, w)) && BhOk(s, Lightened(c, p, w), Short(s, p), n)
  {
  }

  lemma LightenNode(s: Shape, S: set<Ref>, c: Paint, p: Ref, w: Ref, n: Ref)
    requires Good(s, S, c, Owed(p), p) && Good(s, S, c, Owed(p), w) && Good(s, S, c, Owed(p), n)
    requires p != ROOT && w != ROOT && w != NIL && w != p && w == s.far[p] && w != s.near[p] && s.parent[w] == p
    requires !c.red[w] && !c.red[s.near[w]] && !c.red[s.far[w]]
    requires Good(s, S, c, Owed(p), s.parent[p]) && NIL !in S
    ensures Good(s, S, Lightened(c, p, w), Short(s, p), n)
  {
    if n != ROOT {
      LightenBh(s, S, c, p, w, n);
    }
  }

  /** A black sibling with black children: take one black node off that side too and move up. */
  lemma RemoveLighten(s: Shape, S: set<Ref>, c: Paint, p: Ref, w: Ref)
    requires AllGood(s, S, c, Owed(p)) && p in S && p != ROOT && Good(s, S, c, Owed(p), p)
    requires w == s.far[p] && w != NIL && Good(s, S, c, Owed(p), w) && !c.red[w] && !c.red[s.near[w]] && !c.red[s.far[w]]
    ensures AllGood(s, S, Lightened(c, p, w), Short(s, p))
  {
    Sibling(s, S, c, p);
    assert Good(s, S, c, Owed(p), s.parent[p]);
    forall n | n in S ensures Good(s, S, Lightened(c, p, w), Short(s, p), n) {
      assert Good(s, S, c, Owed(p), n);
      LightenNode(s, S, c, p, w, n);
    }
  }

  function Leaned(c: Paint, w: Ref, l: Ref): Paint
    requires l < |c.red| == |c.bh| && w < |c.red|
  {
    Paint(c.red[l := false][w := true], c.bh[l := c.bh[l] + 1][w := c.bh[w] - 1])
  }

  lemma LeanedColours(s: Shape, S: set<Ref>, c: Paint, f: Flaw, w: Ref, l: Ref)
    requires CanTurn(s, w) && Distinct(s, w) && l == s.far[w] && l != ROOT && l != NIL && w != ROOT && w != NIL
    requires Good(s, S, c, f, w) && Good(s, S, c, f, l) && f.dNear != w && f.dFar != w && f.dNear != l && f.dFar != l
    requires !c.red[w] && c.red[l] && !c.red[s.near[w]] && !c.red[s.near[l]]
    ensures Painted(s, Leaned(c, w, l)) && SameElsewhere(c, Leaned(c, w, l), w, l)
    ensures Levels(s, c, Leaned(c, w, l), f, w) && Colours(s, c, Leaned(c, w, l), f, w)
  {
  }

  /** A black sibling `w` whose inner child `l` is red and outer child black: rotate `l` above `w`.
      Here the short side is the far side, so that `l` is the far child of `w`. */
  lemma RemoveLean(s: Shape, S: set<Ref>, c: Paint, p: Ref, w: Ref, l: Ref)
    requires AllGood(s, S, c, Owed(p).Mirror()) && w in S && w != ROOT && Good(s, S, c, Owed(p).Mirror(), w)
    requires s.parent[w] == p && l == s.far[w] && l != NIL && l != p && w != p
    requires !c.red[w] && c.red[l] && !c.red[s.near[w]]
    ensures Around(s, S, w) && AllGood(Rotate(s, w), S, Leaned(c, w, l), Owed(p).Mirror())
  {
    var f := Owed(p).Mirror();
    TurnReady(s, S, c, f, w);
    RotateApart(s, S, w);
    BlackKid(s, S, c, f, l, s.near[l]);
    LeanedColours(s, S, c, f, w, l);
    forall n | n in S ensures NodeOk(s, S, n) && Good(s, S, c, f, n) {
      assert Good(s, S, c, f, n);
    }
    RotateGood(s, S, c, Leaned(c, w, l), f, f, w);
  }

  function Outer(c: Paint, r: Ref): Paint
    requires r < |c.red| == |c.bh|
  {
    Paint(c.red[r := false], c.bh[r := c.bh[r] + 1])
  }

  function Repaid(c: Paint, p: Ref, w: Ref, r: Ref): Paint
    requires p < |c.red| == |c.bh| && w < |c.red| && r < |c.red|
  {
    Paint(c.red[w := c.red[p]][p := false][r := false],
          c.bh[w := c.bh[p]][p := c.bh[w]][r := c.bh[r] + 1])
  }

  lemma OuterNode(s: Shape, S: set<Ref>, c: Paint, p: Ref, w: Ref, r: Ref, n: Ref)
    requires Good(s, S, c, Owed(p), w) && Good(s, S, c, Owed(p), r) && Good(s, S, c, Owed(p), n)
    requires r == s.far[w] && r != NIL && r != ROOT && c.red[r] && n != p && n != w && s.parent[r] == w && w != NIL
    ensures Good(s, S, Outer(c, r), Owed(p), n)
  {
  }

  lemma RepaidColours(s: Shape, S: set<Ref>, c: Paint, p: Ref, w: Ref, r: Ref)
    requires CanTurn(s, p) && Distinct(s, p) && w == s.far[p] && p != ROOT && p != NIL && w != ROOT && w != NIL
    requires Good(s, S, c, Owed(p), p) && Good(s, S, c, Owed(p), w) && !c.red[w]
    requires r == s.far[w] && r != NIL && r != ROOT && c.red[r] && r != p && r != w && r != s.near[p] && r != s.near[w]
    requires Good(s, S, c, Owed(p), r) && s.parent[p] != r
    ensures Painted(s, Outer(c, r)) && Painted(s, Repaid(c, p, w, r)) && SameElsewhere(Outer(c, r), Repaid(c, p, w, r), p, w)
    ensures Levels(s, Outer(c, r), Repaid(c, p, w, r), SOUND, p) && Colours(s, Outer(c, r), Repaid(c, p, w, r), SOUND, p)
  {
  }

  /** A black sibling with a red outer child: one rotation pays the debt. */
  lemma RemoveRepay(s: Shape, S: set<Ref>, c: Paint, p: Ref, w: Ref, r: Ref)
    requires AllGood(s, S, c, Owed(p)) && p in S && p != ROOT && Good(s, S, c, Owed(p), p)
    requires w == s.far[p] && w != NIL && Good(s, S, c, Owed(p), w) && !c.red[w]
    requires r == s.far[w] && c.red[r]
    ensures Around(s, S, p) && AllGood(Rotate(s, p), S, Repaid(c, p, w, r), SOUND)
  {
    Sibling(s, S, c, p);
    TurnReady(s, S, c, Owed(p), p);
    RotateApart(s, S, p);
    assert Good(s, S, c, Owed(p), r);
    assert r != s.near[p] && r != s.near[w] && s.parent[p] != r;
    RepaidColours(s, S, c, p, w, r);
    forall n | n in S ensures NodeOk(s, S, n) && (n != p && n != w ==> Good(s, S, Outer(c, r), Owed(p), n)) {
      assert Good(s, S, c, Owed(p), n);
      if n != p && n != w {
        OuterNode(s, S, c, p, w, r, n);
      }
    }
    RotateGood(s, S, Outer(c, r), Repaid(c, p, w, r), Owed(p), SOUND, p);
  }

  lemma BlackenNode(s: Shape, S: set<Ref>, c: Paint, x: Ref, n: Ref)
    requires x < |c.red| && x != NIL && x != ROOT && c.red[x] && Painted(s, c) && s.parent[x] < |s.near|
    requires Good(s, S, c, Short(s, x), x) && Good(s, S, c, Short(s, x), n)
    requires Good(s, S, c, Short(s, x), s.parent[x]) && s.near[s.parent[x]] != s.far[s.parent[x]]
    ensures Good(s, S, Outer(c, x), SOUND, n)
  {
  }

  /** The end of the repair: painting a red `x` black pays what it owes. */
  lemma RemoveBlacken(s: Shape, S: set<Ref>, c: Paint, x: Ref)
    requires x in S && x != ROOT && s.Sized() && x < |s.near| && s.parent[x] < |s.near|
    requires AllGood(s, S, c, Short(s, x)) && c.red[x]
    ensures AllGood(s, S, Outer(c, x), SOUND)
  {
    assert Good(s, S, c, Short(s, x), x);
    assert Good(s, S, c, Short(s, x), s.parent[x]);
    forall n | n in S ensures Good(s, S, Outer(c, x), SOUND, n) {
      assert Good(s, S, c, Short(s, x), n);
      BlackenNode(s, S, c, x, n);
    }
  }

  // ----- one turn of the repair loop -----

  /** `x`, a black node or leaf, is the near child of `p` and one black node short. */
  ghost predicate Owing(s: Shape, S: set<Ref>, c: Paint, x: Ref, p: Ref) {
    && AllGood(s, S, c, Owed(p)) && p in S && p != ROOT && Good(s, S, c, Owed(p), p)
    && x == s.near[p] && x < |s.near| && s.parent[x] == p && !c.red[x]
  }

  lemma DemoteStep(s: Shape, S: set<Ref>, c: Paint, x: Ref, p: Ref) returns (w: Ref)
    requires Owing(s, S, c, x, p)
    ensures s.Sized() && |c.red| == |c.bh| == |s.near| && p < |s.near| && w == s.far[p] && w < |s.near| && w != p
    ensures c.red[w] ==>
              && Around(s, S, p) && Owing(Rotate(s, p), S, Demoted(c, p, w), x, p)
              && !Demoted(c, p, w).red[Rotate(s, p).far[p]] && Demoted(c, p, w).red[p]
  {
    Sibling(s, S, c, p);
    w := s.far[p];
    if c.red[w] {
      RemoveDemote(s, S, c, p, w);
      RotateApart(s, S, p);
      RotateLinks(s, S, p);
      RotateKids(s, S, p, p);
      BlackKid(s, S, c, Owed(p), w, s.near[w]);
      assert Good(Rotate(s, p), S, Demoted(c, p, w), Owed(p), p);
    }
  }

  /** The sibling of a short node and its two children. */
  lemma Nephews(s: Shape, S: set<Ref>, c: Paint, x: Ref, p: Ref) returns (w: Ref)
    requires Owing(s, S, c, x, p)
    ensures s.Sized() && |c.red| == |c.bh| == |s.near| && p < |s.near| && w == s.far[p] && w < |s.near|
    ensures w != p && w != NIL && w != ROOT && w in S && s.near[w] < |s.near| && s.far[w] < |s.near|
    ensures s.near[w] != w && s.far[w] != w && s.near[w] != p && s.far[w] != p && (s.near[w] == s.far[w] ==> s.near[w] == NIL)
    ensures Good(s, S, c, Owed(p), w)
  {
    Sibling(s, S, c, p);
    w := s.far[p];
    assert s.near[w] != NIL ==> Good(s, S, c, Owed(p), s.near[w]);
    assert s.far[w] != NIL ==> Good(s, S, c, Owed(p), s.far[w]);
  }

  lemma MirrorShort(s: Shape, S: set<Ref>, c: Paint, x: Ref)
    requires s.Sized() && x in S && x != ROOT && x < |s.near| && s.parent[x] < |s.near| && AllGood(s, S, c, Short(s, x))
    ensures AllGood(s.Mirror(), S, c, Short(s.Mirror(), x))
  {
    MirrorAll(s, S, c, Short(s, x));
    assert Good(s, S, c, Short(s, x), x) && Good(s, S, c, Short(s, x), s.parent[x]);
  }

  lemma LightenStep(s: Shape, S: set<Ref>, c: Paint, x: Ref, p: Ref, w: Ref)
    requires Owing(s, S, c, x, p) && w == s.far[p] && w < |c.red| && !c.red[w]
    requires s.near[w] < |c.red| && s.far[w] < |c.red| && !c.red[s.near[w]] && !c.red[s.far[w]]
    ensures s.Sized() && |c.red| == |c.bh| && p < |s.near| && s.parent[p] < |s.near|
    ensures AllGood(s, S, Lightened(c, p, w), Short(s, p))
    ensures AllGood(s.Mirror(), S, Lightened(c, p, w), Short(s.Mirror(), p))
  {
    Sibling(s, S, c, p);
    RemoveLighten(s, S, c, p, w);
    MirrorShort(s, S, Lightened(c, p, w), p);
  }

  lemma LeanStep(s: Shape, S: set<Ref>, c: Paint, x: Ref, p: Ref, w: Ref, l: Ref)
    requires Owing(s, S, c, x, p) && w == s.far[p] && w < |c.red| && !c.red[w]
    requires l == s.near[w] && l < |c.red| && c.red[l] && s.far[w] < |c.red| && !c.red[s.far[w]]
    ensures Around(s.Mirror(), S, w)
    ensures var r := Rotate(s.Mirror(), w).Mirror();
            && Owing(r, S, Leaned(c, w, l), x, p) && r.far[p] == l && r.far[l] == w && r.near[ROOT] == s.near[ROOT]
            && r.far[ROOT] == s.far[ROOT]
  {
    var m := s.Mirror();
    var w0 := Nephews(s, S, c, x, p);
    MirrorAll(s, S, c, Owed(p));
    assert Good(m, S, c, Owed(p).Mirror(), w);
    RemoveLean(m, S, c, p, w, l);
    RotateApart(m, S, w);
    RotateLinks(m, S, w);
    assert Good(s, S, c, Owed(p), ROOT);
    MirrorAll(Rotate(m, w), S, Leaned(c, w, l), Owed(p).Mirror());
    assert Good(Rotate(m, w).Mirror(), S, Leaned(c, w, l), Owed(p), p);
  }

  lemma RepayStep(s: Shape, S: set<Ref>, c: Paint, x: Ref, p: Ref, w: Ref, o: Ref)
    requires Owing(s, S, c, x, p) && w == s.far[p] && w < |c.red| && !c.red[w]
    requires o == s.far[w] && o < |c.red| && c.red[o]
    ensures Around(s, S, p) && p != w && p != o && w != o && |c.red| == |c.bh| == |s.near| && p < |c.red|
    ensures AllGood(Rotate(s, p), S, Repaid(c, p, w, o), SOUND) && AllGood(Rotate(s, p).Mirror(), S, Repaid(c, p, w, o), SOUND)
    ensures !Repaid(c, p, w, o).red[p]
    ensures s.near[ROOT] < |c.red| && !Repaid(c, p, w, o).red[s.near[ROOT]]
    ensures s.far[ROOT] < |c.red| && !Repaid(c, p, w, o).red[s.far[ROOT]]
  {
    var w0 := Nephews(s, S, c, x, p);
    RemoveRepay(s, S, c, p, w, o);
    MirrorAll(Rotate(s, p), S, Repaid(c, p, w, o), SOUND);
    assert Good(s, S, c, Owed(p), ROOT);
    assert s.near[ROOT] != NIL ==> Good(s, S, c, Owed(p), s.near[ROOT]);
    assert s.far[ROOT] != NIL ==> Good(s, S, c, Owed(p), s.far[ROOT]);
  }

  lemma OwingLinks(s: Shape, S: set<Ref>, c: Paint, x: Ref, p: Ref)
    requires Owing(s, S, c, x, p)
    ensures s.Sized() && |c.red| == |c.bh| == |s.near| && x < |s.near| && s.parent[x] == p && p < |s.near|
    ensures x == s.near[p] && s.far[p] < |s.near| && !c.red[x] && s.near[p] != s.far[p] && s.far[p] != p && x != p
  {
    Sibling(s, S, c, p);
    assert s.near[p] != NIL ==> Good(s, S, c, Owed(p), s.near[p]);
  }

  /** `x` is a node or the leaf where a node was spliced out, and is one black node short. */
  ghost predicate Pending(s: Shape, S: set<Ref>, c: Paint, x: Ref) {
    && Painted(s, c) && x < |s.near| && s.parent[x] < |s.near| && AllGood(s, S, c, Short(s, x))
    && (x in S || x == NIL) && x != ROOT && s.parent[x] in S
    && var p := s.parent[x];
    if p == ROOT then x == s.near[ROOT] else x == s.near[p] || x == s.far[p]
  }

  lemma PendingOwes(s: Shape, S: set<Ref>, c: Paint, x: Ref) returns (p: Ref)
    requires Pending(s, S, c, x) && !c.red[x] && x != s.near[ROOT]
    ensures s.Sized() && |c.red| == |c.bh| == |s.near| && x < |s.near| && p == s.parent[x] && p < |s.near|
    ensures x == s.near[p] ==> Owing(s, S, c, x, p)
    ensures x != s.near[p] ==> Owing(s.Mirror(), S, c, x, p)
  {
    p := s.parent[x];
    assert Good(s, S, c, Short(s, x), p);
    if x == s.near[p] {
      Calm(s, S, c, x, p);
      assert Good(s, S, c, Owed(p), p);
    } else {
      MirrorAll(s, S, c, Short(s, x));
      Calm(s.Mirror(), S, c, x, p);
      assert Good(s.Mirror(), S, c, Owed(p), p);
    }
  }

  lemma PendingUp(s: Shape, S: set<Ref>, c: Paint, p: Ref)
    requires Painted(s, c) && p in S && p != ROOT && p < |s.near| && s.parent[p] < |s.near| && s.far[ROOT] == NIL
    requires AllGood(s, S, c, Short(s, p))
    ensures Pending(s, S, c, p)
  {
    assert Good(s, S, c, Short(s, p), p);
    assert Good(s, S, c, Short(s, p), s.parent[p]);
  }

  /** How far the repair still has to climb; 0 once the loop condition fails. */
  function Climb(s: Shape, c: Paint, x: Ref, root: Ref): int
    requires s.Sized() && x < |s.near| && x < |c.red|
  {
    if x == root || c.red[x] then 0
    else s.cap + 2 - (if x == NIL then 0 else Span(s, x))
  }

  lemma PendingSpan(s: Shape, S: set<Ref>, c: Paint, x: Ref, root: Ref)
    requires Pending(s, S, c, x)
    ensures s.Sized() && |c.red| == |c.bh| == |s.near| && x < |s.near| && s.parent[x] < |s.near|
    ensures 0 <= Climb(s, c, x, root)
    ensures x != NIL ==> 0 < Span(s, x) <= s.cap + 1
  {
    assert Good(s, S, c, Short(s, x), s.parent[x]);
    if x != NIL { assert Good(s, S, c, Short(s, x), x); }
  }

  lemma OwingSpan(s: Shape, S: set<Ref>, c: Paint, x: Ref, p: Ref)
    requires Owing(s, S, c, x, p)
    ensures s.Sized() && x < |s.near| && p < |s.near| && p != NIL
    ensures Span(s, p) > if x == NIL then 0 else Span(s, x)
  {
    if x != NIL { assert Good(s, S, c, Owed(p), x); }
  }

  /** The last line of the repair, whichever way the loop ended while `x` was short. */
  lemma PendingEnd(s: Shape, S: set<Ref>, c: Paint, x: Ref)
    requires Pending(s, S, c, x) && (c.red[x] || x == s.near[ROOT]) && (s.near[ROOT] == NIL ==> S == {ROOT})
    ensures |c.red| == |c.bh| == |s.near| && x < |c.red|
    ensures AllGood(s, S, if c.red[x] then Outer(c, x) else c, SOUND)
  {
    if c.red[x] {
      RemoveBlacken(s, S, c, x);
    } else {
      var p := s.parent[x];
      assert Good(s, S, c, Short(s, x), p) && Good(s, S, c, Short(s, x), ROOT);
      if x != NIL { assert Good(s, S, c, Short(s, x), x); }
      assert p == ROOT;
      forall n | n in S ensures Good(s, S, c, SOUND, n) {
        assert Good(s, S, c, Short(s, x), n);
      }
    }
  }
}
