/** The links of a red-black tree and what makes them a tree.

    Nodes live in an arena and are named by references.  `NIL` is the shared leaf sentinel, `ROOT`
    the header node whose left child is the real root.  A `Shape` holds the three link fields and,
    for the proof only, the open interval of in-order positions that each subtree covers: the
    subtree of `n` covers the positions strictly between its two ends, and `n` itself sits at
    `mid[n]`.  With these intervals being a tree is a local property of each node.

    A shape names its sides `near` and `far`, so that a fact proved once serves both mirror
    images: left is near in `s`, right is near in `s.Mirror()`. */
module RbShape {
  type Ref = nat
  const NIL: Ref := 0
  const ROOT: Ref := 1

  datatype Shape = Shape(up: bool, cap: int, parent: seq<Ref>, near: seq<Ref>, far: seq<Ref>,
                         nearEnd: seq<int>, farEnd: seq<int>, mid: seq<int>)
  {
    predicate Sized() {
      2 <= |parent| == |near| == |far| == |nearEnd| == |farEnd| == |mid|
    }

    function Mirror(): Shape {
      Shape(!up, cap, parent, far, near, farEnd, nearEnd, mid)
    }
  }

  predicate Adjacent(a: int, b: int) {
    a - b == 1 || b - a == 1
  }

  /** The near child of `n` covers exactly the positions between the near end of `n` and `n`. */
  ghost predicate KidOk(s: Shape, S: set<Ref>, n: Ref)
    requires s.Sized() && n < |s.near|
  {
    var c := s.near[n];
    if c == NIL then Adjacent(s.nearEnd[n], s.mid[n])
    else c < |s.near| && c in S && s.parent[c] == n && s.nearEnd[c] == s.nearEnd[n] && s.farEnd[c] == s.mid[n]
  }

  ghost predicate ParentOk(s: Shape, S: set<Ref>, n: Ref)
    requires s.Sized() && n < |s.near|
  {
    var p := s.parent[n];
    if n == ROOT then p == NIL
    else p in S && p < |s.near| && (n == s.near[p] || n == s.far[p])
  }

  ghost predicate SpanOk(s: Shape, n: Ref)
    requires s.Sized() && n < |s.near|
  {
    if s.up then -1 <= s.nearEnd[n] < s.mid[n] < s.farEnd[n] <= s.cap
    else -1 <= s.farEnd[n] < s.mid[n] < s.nearEnd[n] <= s.cap
  }

  ghost predicate NodeOk(s: Shape, S: set<Ref>, n: Ref)
    requires s.Sized()
  {
    && n in S && n != NIL && n < |s.near|
    && SpanOk(s, n)
    && KidOk(s, S, n)
    && KidOk(s.Mirror(), S, n)
    && ParentOk(s, S, n)
  }

  /** The number of positions a subtree covers, plus one. */
  function Span(s: Shape, n: Ref): int
    requires s.Sized() && n < |s.near|
  {
    if s.up then s.farEnd[n] - s.nearEnd[n] else s.nearEnd[n] - s.farEnd[n]
  }

  predicate CanRotate(s: Shape, x: Ref) {
    s.Sized() && x < |s.near| && s.far[x] < |s.near| && s.parent[x] < |s.near| && s.near[s.far[x]] < |s.near|
  }

  /** Rotation about `x`: its far child `y` moves up and `x` becomes the near child of `y`. */
  function Rotate(s: Shape, x: Ref): (r: Shape)
    requires CanRotate(s, x)
    ensures r.Sized()
  {
    var y := s.far[x];
    var b := s.near[y];
    var p := s.parent[x];
    var far := s.far[x := b];
    var parent := if b != NIL then s.parent[b := x] else s.parent;
    var parent := parent[y := p];
    var near := if x == s.near[p] then s.near[p := y] else s.near;
    var far := if x == s.near[p] then far else far[p := y];
    Shape(s.up, s.cap, parent[x := y], near[y := x], far,
          s.nearEnd[y := s.nearEnd[x]], s.farEnd[x := s.mid[y]], s.mid)
  }

  /** The nodes a rotation about `x` touches are in order. */
  ghost predicate Around(s: Shape, S: set<Ref>, x: Ref)
  {
    && CanRotate(s, x) && s.far[x] != NIL && x != ROOT
    && NodeOk(s, S, x) && NodeOk(s, S, s.far[x]) && NodeOk(s, S, s.parent[x])
    && (s.near[s.far[x]] != NIL ==> NodeOk(s, S, s.near[s.far[x]]))
    && NIL !in S
  }

  /** None of the references a rotation about `x` looks at coincide. */
  predicate Distinct(s: Shape, x: Ref)
    requires s.Sized() && x < |s.near| && s.far[x] < |s.near|
  {
    var y := s.far[x];
    && x != y && s.near[x] != x && s.near[x] != y
    && s.near[y] != x && s.near[y] != y && s.far[y] != x && s.far[y] != y
  }

  lemma RotateApart(s: Shape, S: set<Ref>, x: Ref)
    requires Around(s, S, x)
    ensures Distinct(s, x)
    ensures var y, b, p := s.far[x], s.near[s.far[x]], s.parent[x];
            p != x && p != y && p != b && s.near[p] != s.far[p] && y != ROOT && b != ROOT
  {
  }

  /** The children of `n` in `r`, the result of a rotation about `x`. */
  predicate Turned(s: Shape, r: Shape, x: Ref, n: Ref)
    requires s.Sized() && r.Sized() && |s.near| == |r.near| && x < |s.near| && n < |s.near| && s.far[x] < |s.near|
  {
    var y := s.far[x];
    && r.near[n] == (if n == y then x else if s.near[n] == x then y else s.near[n])
    && r.far[n] == (if n == x then s.near[y] else if s.far[n] == x then y else s.far[n])
    && (n != x ==> s.near[n] != y && s.far[n] != y)
    && s.near[n] < |s.near| && s.far[n] < |s.near|
  }

  lemma RotateKids(s: Shape, S: set<Ref>, x: Ref, n: Ref)
    requires Around(s, S, x) && NodeOk(s, S, n)
    ensures Turned(s, Rotate(s, x), x, n)
  {
    RotateApart(s, S, x);
  }

  /** The links next to a rotation about `x`. */
  lemma RotateLinks(s: Shape, S: set<Ref>, x: Ref)
    requires Around(s, S, x)
    ensures var r, y, p := Rotate(s, x), s.far[x], s.parent[x];
            && r.parent[x] == y && r.parent[y] == p && r.near[y] == x
            && (s.near[p] == x ==> r.near[p] == y && r.far[p] == s.far[p])
            && (s.far[p] == x ==> r.far[p] == y && r.near[p] == s.near[p])
            && (forall n :: 0 <= n < |s.near| && n != x && n != y && (n != s.near[y] || n == NIL) ==> r.parent[n] == s.parent[n])
            && (forall n :: 0 <= n < |s.near| && n != y && s.near[n] != x ==> r.near[n] == s.near[n])
            && (forall n :: 0 <= n < |s.near| && n != x && s.far[n] != x ==> r.far[n] == s.far[n])
  {
    RotateApart(s, S, x);
  }

  lemma RotateNear(s: Shape, S: set<Ref>, x: Ref, n: Ref)
    requires Around(s, S, x) && NodeOk(s, S, n)
    ensures KidOk(Rotate(s, x), S, n)
  {
    RotateApart(s, S, x);
  }

  lemma RotateFar(s: Shape, S: set<Ref>, x: Ref, n: Ref)
    requires Around(s, S, x) && NodeOk(s, S, n)
    ensures KidOk(Rotate(s, x).Mirror(), S, n)
  {
    RotateApart(s, S, x);
  }

  lemma RotateParent(s: Shape, S: set<Ref>, x: Ref, n: Ref)
    requires Around(s, S, x) && NodeOk(s, S, n)
    ensures ParentOk(Rotate(s, x), S, n)
  {
    RotateApart(s, S, x);
  }

  lemma RotateNode(s: Shape, S: set<Ref>, x: Ref, n: Ref)
    requires Around(s, S, x) && NodeOk(s, S, n)
    ensures NodeOk(Rotate(s, x), S, n)
  {
    RotateNear(s, S, x, n);
    RotateFar(s, S, x, n);
    RotateParent(s, S, x, n);
    RotateApart(s, S, x);
  }

  lemma MirrorNode(s: Shape, S: set<Ref>, n: Ref)
    requires s.Sized()
    ensures NodeOk(s.Mirror(), S, n) <==> NodeOk(s, S, n)
  {
    assert s.Mirror().Mirror() == s;
  }
}
