/** Colours and black heights, and the steps of the two repair loops. */
module RbColor {
  import opened RbShape

  /** `red` is the colour field; `bh` is proof state: the number of black nodes on every path from
      a node down to a leaf. */
  datatype Paint = Paint(red: seq<bool>, bh: seq<int>)

  /** Where the invariant may fail while a repair is under way: the near side of `dNear` or the far
      side of `dFar` is one black node short, `e` may be red under a red parent, and the children
      of `k` may be red under a red `k`.  `NIL` stands for nowhere. */
  datatype Flaw = Flaw(dNear: Ref, dFar: Ref, e: Ref, k: Ref)
  {
    function Mirror(): Flaw { Flaw(dFar, dNear, e, k) }
  }
  const SOUND := Flaw(NIL, NIL, NIL, NIL)

  predicate Painted(s: Shape, c: Paint) {
    s.Sized() && |c.red| == |c.bh| == |s.near| && !c.red[NIL] && c.bh[NIL] == 0 && !c.red[ROOT]
  }

  function Height(s: Shape, c: Paint, d: Ref, n: Ref): int
    requires Painted(s, c) && n < |s.near| && s.near[n] < |s.near|
  {
    c.bh[s.near[n]] + if n == d then 1 else 0
  }

  predicate BhOk(s: Shape, c: Paint, f: Flaw, n: Ref)
    requires Painted(s, c) && n < |s.near| && s.near[n] < |s.near| && s.far[n] < |s.near|
  {
    && 0 <= c.bh[s.near[n]]
    && 0 <= c.bh[s.far[n]]
    && Height(s, c, f.dNear, n) == Height(s.Mirror(), c, f.dFar, n)
    && c.bh[n] == Height(s, c, f.dNear, n) + if c.red[n] then 0 else 1
  }

  /** No red node below a red node, and the real root is black. */
  predicate RedOk(s: Shape, c: Paint, f: Flaw, n: Ref)
    requires Painted(s, c) && n < |s.near| && s.parent[n] < |s.near|
  {
    c.red[n] && (c.red[s.parent[n]] || s.parent[n] == ROOT) ==> n == f.e || s.parent[n] == f.k
  }

  ghost predicate Good(s: Shape, S: set<Ref>, c: Paint, f: Flaw, n: Ref) {
    && Painted(s, c)
    && NodeOk(s, S, n)
    && (n != ROOT ==> BhOk(s, c, f, n) && RedOk(s, c, f, n))
  }

  ghost predicate AllGood(s: Shape, S: set<Ref>, c: Paint, f: Flaw) {
    && Painted(s, c) && NIL !in S && ROOT in S
    && forall n {:trigger Good(s, S, c, f, n)} :: n in S ==> Good(s, S, c, f, n)
  }

  lemma MirrorGood(s: Shape, S: set<Ref>, c: Paint, f: Flaw, n: Ref)
    requires Good(s, S, c, f, n)
    ensures Good(s.Mirror(), S, c, f.Mirror(), n)
  {
    MirrorNode(s, S, n);
    assert s.Mirror().Mirror() == s;
  }

  lemma MirrorAll(s: Shape, S: set<Ref>, c: Paint, f: Flaw)
    requires AllGood(s, S, c, f)
    ensures AllGood(s.Mirror(), S, c, f.Mirror())
  {
    forall n | n in S ensures Good(s.Mirror(), S, c, f.Mirror(), n) {
      assert Good(s, S, c, f, n);
      MirrorGood(s, S, c, f, n);
    }
  }

  predicate CanTurn(s: Shape, x: Ref) {
    s.Sized() && x < |s.near| && s.near[x] < |s.near| && s.far[x] < |s.near| && s.parent[x] < |s.near|
    && s.near[s.far[x]] < |s.near| && s.far[s.far[x]] < |s.near|
  }

  /** The heights a rotation about `x` must give to `x` and its far child. */
  predicate Levels(s: Shape, c: Paint, c': Paint, f': Flaw, x: Ref)
    requires CanTurn(s, x) && Painted(s, c) && Painted(s, c')
  {
    var y := s.far[x];
    var a, b, d := c.bh[s.near[x]], c.bh[s.near[y]], c.bh[s.far[y]];
    && 0 <= a && 0 <= b && 0 <= d
    && c'.bh[y] == c.bh[x]
    && a + (if x == f'.dNear then 1 else 0) == b + (if x == f'.dFar then 1 else 0)
    && c'.bh[x] == a + (if x == f'.dNear then 1 else 0) + (if c'.red[x] then 0 else 1)
    && c'.bh[x] == d && y != f'.dNear && y != f'.dFar
    && c'.bh[y] == d + (if c'.red[y] then 0 else 1)
  }

  /** The colours a rotation about `x` must give to `x` and its far child. */
  predicate Colours(s: Shape, c: Paint, c': Paint, f': Flaw, x: Ref)
    requires CanTurn(s, x) && Painted(s, c) && Painted(s, c')
  {
    var y := s.far[x];
    && (c'.red[x] ==> !c.red[s.near[x]] && !c.red[s.near[y]] && (c'.red[y] ==> x == f'.e))
    && (c'.red[y] ==> !c.red[s.far[y]] && !c.red[s.parent[x]] && s.parent[x] != ROOT)
  }

  predicate SameElsewhere(c: Paint, c': Paint, x: Ref, y: Ref) {
    && |c'.red| == |c.red| && |c'.bh| == |c.bh|
    && (forall i :: 0 <= i < |c.red| && i != x && i != y ==> c'.red[i] == c.red[i])
    && (forall i :: 0 <= i < |c.bh| && i != x && i != y ==> c'.bh[i] == c.bh[i])
  }

  ghost predicate SameFlaw(f: Flaw, f': Flaw, n: Ref) {
    ((n == f.dNear) <==> (n == f'.dNear)) && ((n == f.dFar) <==> (n == f'.dFar)) && (n == f.e ==> n == f'.e)
  }

  lemma RotateBh(s: Shape, c: Paint, c': Paint, f: Flaw, f': Flaw, x: Ref, n: Ref, r: Shape)
    requires CanTurn(s, x) && Painted(s, c) && Painted(s, c') && Painted(r, c')
    requires Levels(s, c, c', f', x) && SameElsewhere(c, c', x, s.far[x])
    requires Distinct(s, x)
    requires n < |s.near| && Turned(s, r, x, n)
    requires n != x && n != s.far[x] ==> BhOk(s, c, f, n) && SameFlaw(f, f', n)
    ensures BhOk(r, c', f', n)
  {
  }

  lemma RotateRed(s: Shape, S: set<Ref>, c: Paint, c': Paint, f: Flaw, f': Flaw, x: Ref, n: Ref)
    requires Around(s, S, x) && CanTurn(s, x) && Painted(s, c) && Painted(s, c') && NodeOk(s, S, n) && n != ROOT
    requires Colours(s, c, c', f', x) && SameElsewhere(c, c', x, s.far[x]) && f.k == f'.k == NIL
    requires n != x && n != s.far[x] ==> RedOk(s, c, f, n) && SameFlaw(f, f', n)
    ensures Painted(Rotate(s, x), c') && Rotate(s, x).parent[n] < |s.near|
    ensures RedOk(Rotate(s, x), c', f', n)
  {
    RotateApart(s, S, x);
  }

  /** A rotation about `x` that recolours `x` and its far child as asked leaves a good tree. */
  lemma RotateGood(s: Shape, S: set<Ref>, c: Paint, c': Paint, f: Flaw, f': Flaw, x: Ref)
    requires Around(s, S, x) && CanTurn(s, x) && Painted(s, c) && Painted(s, c') && ROOT in S
    requires Levels(s, c, c', f', x) && Colours(s, c, c', f', x) && SameElsewhere(c, c', x, s.far[x]) && f.k == f'.k == NIL
    requires forall n :: n in S ==> NodeOk(s, S, n)
    requires forall n :: n in S && n != x && n != s.far[x] ==> Good(s, S, c, f, n) && SameFlaw(f, f', n)
    ensures AllGood(Rotate(s, x), S, c', f')
  {
    RotateApart(s, S, x);
    forall n | n in S ensures Good(Rotate(s, x), S, c', f', n) {
      RotateNode(s, S, x, n);
      if n != ROOT {
        RotateKids(s, S, x, n);
        RotateBh(s, c, c', f, f', x, n, Rotate(s, x));
        RotateRed(s, S, c, c', f, f', x, n);
      }
    }
  }

  /** In a good tree the surroundings of a node with a far child are fit for a rotation. */
  lemma TurnReady(s: Shape, S: set<Ref>, c: Paint, f: Flaw, x: Ref)
    requires AllGood(s, S, c, f) && x in S && x != ROOT && x < |s.near| && s.far[x] != NIL
    ensures Around(s, S, x) && CanTurn(s, x) && CanRotate(s, x)
    ensures Good(s, S, c, f, x) && Good(s, S, c, f, s.far[x]) && Good(s, S, c, f, s.parent[x])
  {
    assert Good(s, S, c, f, x);
    var y := s.far[x];
    assert Good(s, S, c, f, y);
    assert Good(s, S, c, f, s.parent[x]);
    assert s.near[y] != NIL ==> Good(s, S, c, f, s.near[y]);
  }

  /** A child of `x` other than the excepted node is black when `x` is red. */
  lemma BlackKid(s: Shape, S: set<Ref>, c: Paint, f: Flaw, x: Ref, k: Ref)
    requires AllGood(s, S, c, f) && Good(s, S, c, f, x) && c.red[x] && f.k == NIL
    requires (k == s.near[x] || k == s.far[x]) && (k != f.e || k == NIL)
    ensures k < |c.red| && !c.red[k]
  {
    if k != NIL {
      assert Good(s, S, c, f, k);
    }
  }
}
