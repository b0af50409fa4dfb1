/** The steps of the insertion repair loop. */
module RbPutFix {
  import opened RbShape
  import opened RbColor
  import opened RbEdit

  function PutFlaw(z: Ref): Flaw { Flaw(NIL, NIL, z, NIL) }

  /** Loop invariant of the repair: only the red node `z` may break a rule. */
  ghost predicate PutInv(s: Shape, S: set<Ref>, c: Paint, z: Ref) {
    AllGood(s, S, c, PutFlaw(z)) && z in S && z != ROOT && Good(s, S, c, PutFlaw(z), z) && c.red[z]
  }

  ghost predicate PutContext(s: Shape, S: set<Ref>, c: Paint, z: Ref) {
    && Good(s, S, c, PutFlaw(z), z)
    && var p := s.parent[z];
    && Good(s, S, c, PutFlaw(z), p) && p != ROOT && p != z && c.red[p]
    && var g := s.parent[p];
    && Good(s, S, c, PutFlaw(z), g) && g != ROOT && g != p && g != z && !c.red[g]
    && (p == s.near[g] || p == s.far[g])
    && (z == s.near[p] || z == s.far[p])
  }

  lemma PutLook(s: Shape, S: set<Ref>, c: Paint, z: Ref)
    requires PutInv(s, S, c, z) && c.red[s.parent[z]]
    ensures PutContext(s, S, c, z)
  {
    assert Good(s, S, c, PutFlaw(z), z);
    var p := s.parent[z];
    assert Good(s, S, c, PutFlaw(z), p);
    assert p != z;
    var g := s.parent[p];
    assert Good(s, S, c, PutFlaw(z), g);
  }

  lemma PutBounds(s: Shape, S: set<Ref>, c: Paint, z: Ref)
    requires PutInv(s, S, c, z)
    ensures s.Sized() && |c.red| == |c.bh| == |s.near| && z < |s.near| && s.parent[z] < |s.near|
    ensures Span(s, z) <= s.cap + 1
    ensures c.red[s.parent[z]] ==>
              var p := s.parent[z]; var g := s.parent[p]; g < |s.near| && (p == s.near[g] || p == s.far[g])
  {
    if c.red[s.parent[z]] { PutLook(s, S, c, z); }
  }

  function Recoloured(c: Paint, p: Ref, y: Ref, g: Ref): Paint
    requires p < |c.red| == |c.bh| && y < |c.red| && g < |c.red|
  {
    Paint(c.red[p := false][y := false][g := true], c.bh[p := c.bh[p] + 1][y := c.bh[y] + 1])
  }

  lemma RecolourNode(s: Shape, S: set<Ref>, c: Paint, z: Ref, y: Ref, n: Ref)
    requires PutContext(s, S, c, z)
    requires var g := s.parent[s.parent[z]]; y == s.far[g] && s.parent[z] == s.near[g]
    requires y < |c.red| && y != NIL && c.red[y] && Good(s, S, c, PutFlaw(z), y) && Good(s, S, c, PutFlaw(z), n)
    ensures var p := s.parent[z]; var g := s.parent[p]; Good(s, S, Recoloured(c, p, y, g), PutFlaw(g), n)
  {
  }

  /** Case 1: a red uncle. */
  lemma PutRecolour(s: Shape, S: set<Ref>, c: Paint, z: Ref, y: Ref)
    requires PutInv(s, S, c, z) && PutContext(s, S, c, z)
    requires var g := s.parent[s.parent[z]]; y == s.far[g] && s.parent[z] == s.near[g]
    requires y < |c.red| && c.red[y]
    ensures var p := s.parent[z]; var g := s.parent[p]; PutInv(s, S, Recoloured(c, p, y, g), g)
  {
    var p := s.parent[z];
    var g := s.parent[p];
    assert Good(s, S, c, PutFlaw(z), y);
    forall n | n in S ensures Good(s, S, Recoloured(c, p, y, g), PutFlaw(g), n) {
      assert Good(s, S, c, PutFlaw(z), n);
      RecolourNode(s, S, c, z, y, n);
    }
  }

  /** Case 2: `z` is the inner grandchild; rotating its parent makes it the outer one. */
  lemma PutTurn(s: Shape, S: set<Ref>, c: Paint, z: Ref, p: Ref)
    requires PutInv(s, S, c, z) && p == s.parent[z] && Good(s, S, c, PutFlaw(z), p) && c.red[p] && z == s.far[p]
    ensures Around(s, S, p) && PutInv(Rotate(s, p), S, c, p)
  {
    TurnReady(s, S, c, PutFlaw(z), p);
    RotateApart(s, S, p);
    assert Colours(s, c, c, PutFlaw(p), p) by {
      BlackKid(s, S, c, PutFlaw(z), p, s.near[p]);
      BlackKid(s, S, c, PutFlaw(z), z, s.near[z]);
      BlackKid(s, S, c, PutFlaw(z), z, s.far[z]);
    }
    forall n | n in S ensures NodeOk(s, S, n) && Good(s, S, c, PutFlaw(z), n) {
      assert Good(s, S, c, PutFlaw(z), n);
    }
    RotateGood(s, S, c, c, PutFlaw(z), PutFlaw(p), p);
    assert Good(Rotate(s, p), S, c, PutFlaw(p), p);
  }

  function Settled(c: Paint, p: Ref, g: Ref): Paint
    requires p < |c.red| == |c.bh| && g < |c.red|
  {
    Paint(c.red[p := false][g := true], c.bh[p := c.bh[p] + 1][g := c.bh[g] - 1])
  }

  lemma SettledColours(s: Shape, S: set<Ref>, c: Paint, z: Ref, p: Ref, g: Ref)
    requires CanTurn(s, g) && Distinct(s, g) && p == s.far[g] && p != ROOT && p != NIL && g != ROOT && g != NIL
    requires Good(s, S, c, PutFlaw(z), p) && c.red[p] && z == s.far[p] && !c.red[s.near[p]]
    requires Good(s, S, c, PutFlaw(z), g) && !c.red[g] && !c.red[s.near[g]]
    ensures Painted(s, Settled(c, p, g)) && SameElsewhere(c, Settled(c, p, g), g, p)
    ensures Levels(s, c, Settled(c, p, g), PutFlaw(z), g) && Colours(s, c, Settled(c, p, g), PutFlaw(z), g)
  {
  }

  /** Case 3: `z` is the outer grandchild and its uncle is black. */
  lemma PutSettle(s: Shape, S: set<Ref>, c: Paint, z: Ref, p: Ref, g: Ref)
    requires PutInv(s, S, c, z) && p == s.parent[z] && Good(s, S, c, PutFlaw(z), p) && c.red[p] && z == s.far[p]
    requires g == s.parent[p] && g != ROOT && Good(s, S, c, PutFlaw(z), g) && !c.red[g]
    requires p == s.far[g] && !c.red[s.near[g]]
    ensures Around(s, S, g) && PutInv(Rotate(s, g), S, Settled(c, p, g), z)
  {
    var c' := Settled(c, p, g);
    TurnReady(s, S, c, PutFlaw(z), g);
    RotateApart(s, S, g);
    BlackKid(s, S, c, PutFlaw(z), p, s.near[p]);
    SettledColours(s, S, c, z, p, g);
    forall n | n in S ensures NodeOk(s, S, n) && Good(s, S, c, PutFlaw(z), n) {
      assert Good(s, S, c, PutFlaw(z), n);
    }
    RotateGood(s, S, c, c', PutFlaw(z), PutFlaw(z), g);
    assert Good(Rotate(s, g), S, c', PutFlaw(z), z);
    assert z != p && z != g;
  }

  lemma MirrorPutInv(s: Shape, S: set<Ref>, c: Paint, z: Ref)
    requires PutInv(s, S, c, z)
    ensures PutInv(s.Mirror(), S, c, z)
  {
    MirrorAll(s, S, c, PutFlaw(z));
    assert Good(s.Mirror(), S, c, PutFlaw(z), z);
  }

  /** `z` is the outer grandchild on the far side and its uncle is black. */
  ghost predicate Outermost(s: Shape, S: set<Ref>, c: Paint, z: Ref) {
    && PutInv(s, S, c, z)
    && var p := s.parent[z];
    && Good(s, S, c, PutFlaw(z), p) && c.red[p] && z == s.far[p]
    && var g := s.parent[p];
    && Good(s, S, c, PutFlaw(z), g) && g != ROOT && !c.red[g] && p == s.far[g] && !c.red[s.near[g]]
  }

  /** After the rotation of case 2 the old parent of `z` is the outer grandchild. */
  lemma PutTurned(s: Shape, S: set<Ref>, c: Paint, z: Ref)
    requires PutInv(s, S, c, z) && PutContext(s, S, c, z)
    requires var p := s.parent[z]; var g := s.parent[p];
      z == s.far[p] && p == s.near[g] && !c.red[s.far[g]]
    ensures Around(s, S, s.parent[z]) && Outermost(Rotate(s, s.parent[z]).Mirror(), S, c, s.parent[z])
  {
    var p := s.parent[z];
    var g := s.parent[p];
    PutTurn(s, S, c, z, p);
    RotateLinks(s, S, p);
    var r := Rotate(s, p);
    MirrorPutInv(r, S, c, p);
    assert Good(r.Mirror(), S, c, PutFlaw(p), z);
    assert Good(r.Mirror(), S, c, PutFlaw(p), g);
  }

  /** Case 3 as a whole, in both mirror images. */
  lemma PutSettled(s: Shape, S: set<Ref>, c: Paint, order: seq<Ref>, z: Ref) returns (p: Ref, g: Ref)
    requires Outermost(s, S, c, z) && OrderOk(s, S, order)
    ensures z < |s.near| && p < |c.red| == |c.bh| && g < |c.red| && |s.near| == |s.parent| == |c.red| && p != g
    ensures p == s.parent[z] && g == s.parent[p]
    ensures Around(s, S, g)
    ensures var r, c' := Rotate(s, g), Settled(c, p, g);
            && OrderOk(r, S, order) && OrderOk(r.Mirror(), S, order)
            && PutInv(r, S, c', z) && PutInv(r.Mirror(), S, c', z)
            && r.parent[z] == p && !c'.red[p]
  {
    p, g := s.parent[z], s.parent[s.parent[z]];
    PutSettle(s, S, c, z, p, g);
    RotateOrder(s, S, order, g);
    RotateLinks(s, S, g);
    MirrorOrder(Rotate(s, g), S, order);
    MirrorPutInv(Rotate(s, g), S, Settled(c, p, g), z);
  }

  lemma PutUnturned(s: Shape, S: set<Ref>, c: Paint, z: Ref)
    requires PutInv(s, S, c, z) && PutContext(s, S, c, z)
    requires var p := s.parent[z]; var g := s.parent[p]; z == s.near[p] && p == s.near[g] && !c.red[s.far[g]]
    ensures Outermost(s.Mirror(), S, c, z)
  {
    MirrorPutInv(s, S, c, z);
    assert Good(s.Mirror(), S, c, PutFlaw(z), s.parent[z]);
    assert Good(s.Mirror(), S, c, PutFlaw(z), s.parent[s.parent[z]]);
  }

  /** One turn of the repair loop when the parent of `z` is a near child. */
  lemma PutStep(s: Shape, S: set<Ref>, c: Paint, order: seq<Ref>, z: Ref) returns (p: Ref, g: Ref, y: Ref)
    requires PutInv(s, S, c, z) && OrderOk(s, S, order) && c.red[s.parent[z]]
    requires s.parent[s.parent[z]] < |s.near| && s.parent[z] == s.near[s.parent[s.parent[z]]]
    ensures s.Sized() && |c.red| == |c.bh| == |s.near|
    ensures z < |s.near| && p < |s.near| && g < |s.near| && y < |s.near|
    ensures p == s.parent[z] && g == s.parent[p] && y == s.far[g] && p == s.near[g] && p != y && p != g && y != g
    ensures s.parent[g] < |s.near|
    ensures c.red[y] ==>
              var c' := Recoloured(c, p, y, g);
              PutInv(s, S, c', g) && PutInv(s.Mirror(), S, c', g) && Span(s, z) < Span(s, g) <= s.cap + 1
    ensures !c.red[y] && z == s.far[p] ==>
              && Around(s, S, p)
              && Outermost(Rotate(s, p).Mirror(), S, c, p) && OrderOk(Rotate(s, p).Mirror(), S, order)
    ensures !c.red[y] && z != s.far[p] ==> Outermost(s.Mirror(), S, c, z) && OrderOk(s.Mirror(), S, order)
  {
    PutLook(s, S, c, z);
    p := s.parent[z];
    g := s.parent[p];
    y := s.far[g];
    if c.red[y] {
      PutRecolour(s, S, c, z, y);
      MirrorPutInv(s, S, Recoloured(c, p, y, g), g);
    } else if z == s.far[p] {
      PutTurned(s, S, c, z);
      RotateOrder(s, S, order, p);
      MirrorOrder(Rotate(s, p), S, order);
    } else {
      PutUnturned(s, S, c, z);
      MirrorOrder(s, S, order);
    }
  }

  function RootBlack(c: Paint, r: Ref): Paint
    requires r < |c.red| == |c.bh|
  {
    Paint(c.red[r := false], c.bh[r := c.bh[r] + if c.red[r] then 1 else 0])
  }

  lemma FinishNode(s: Shape, S: set<Ref>, c: Paint, z: Ref, r: Ref, n: Ref)
    requires Good(s, S, c, PutFlaw(z), z) && Good(s, S, c, PutFlaw(z), n) && Good(s, S, c, PutFlaw(z), r)
    requires z != ROOT && !c.red[s.parent[z]] && r == s.near[ROOT] && r != ROOT && r != NIL && s.parent[r] == ROOT && NIL !in S
    requires s.parent[z] == ROOT ==> z == r
    ensures Good(s, S, RootBlack(c, r), SOUND, n)
  {
  }

  /** The end of the repair: the real root is painted black. */
  lemma PutFinish(s: Shape, S: set<Ref>, c: Paint, order: seq<Ref>, z: Ref) returns (r: Ref)
    requires PutInv(s, S, c, z) && OrderOk(s, S, order) && !c.red[s.parent[z]] && s.up
    ensures s.Sized() && |c.red| == |c.bh| == |s.near| && r == s.near[ROOT] && r < |s.near| && r != NIL
    ensures AllGood(s, S, RootBlack(c, r), SOUND)
  {
    r := s.near[ROOT];
    assert Good(s, S, c, PutFlaw(z), ROOT);
    assert s.far[ROOT] != NIL ==> NodeOk(s, S, s.far[ROOT]) by {
      assert s.far[ROOT] != NIL ==> Good(s, S, c, PutFlaw(z), s.far[ROOT]);
    }
    assert s.far[ROOT] == NIL;
    assert order[s.mid[z]] == z && s.mid[z] < s.mid[ROOT];
    assert r != NIL by { assert |order| >= 2; }
    assert Good(s, S, c, PutFlaw(z), r);
    forall n | n in S ensures Good(s, S, RootBlack(c, r), SOUND, n) {
      assert Good(s, S, c, PutFlaw(z), n);
      FinishNode(s, S, c, z, r, n);
    }
  }

  /** Linking a red leaf sets up the repair. */
  lemma PutLinked(s: Shape, S: set<Ref>, c: Paint, order: seq<Ref>, y: Ref) returns (q: int)
    requires AllGood(s, S, c, SOUND) && OrderOk(s, S, order) && y in S && y < |s.near| && s.near[y] == NIL
    requires y == ROOT ==> s.up
    ensures s.Sized() && |c.red| == |c.bh| == |s.near| && |s.near| !in S && y < |s.near|
    ensures q == (if s.up then s.mid[y] else s.mid[y] + 1) && 0 <= q < |order|
    ensures var z, r, c' := |s.near|, Graft(s, y), Paint(c.red + [true], c.bh + [0]);
            && PutInv(r, S + {z}, c', z) && PutInv(r.Mirror(), S + {z}, c', z)
            && OrderOk(r, S + {z}, Inserted(order, q, z)) && OrderOk(r.Mirror(), S + {z}, Inserted(order, q, z))
  {
    q := if s.up then s.mid[y] else s.mid[y] + 1;
    GoodNodes(s, S, c, SOUND);
    GraftGood(s, S, c, order, y);
    GraftOrder(s, S, order, y);
    var z, r, c' := |s.near|, Graft(s, y), Paint(c.red + [true], c.bh + [0]);
    assert Good(r, S + {z}, c', PutFlaw(z), z);
    MirrorPutInv(r, S + {z}, c', z);
    MirrorOrder(r, S + {z}, Inserted(order, q, z));
  }
}
