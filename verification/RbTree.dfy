/** rb-tree.c as it runs.  The fields of all nodes stand in sequences indexed by references; what is
    ghost is the in-order listing of the nodes and each subtree's place in it. */
module RbTree {
  import opened RbShape
  import opened RbColor
  import opened RbPutFix
  import opened RbRemoveFix
  import opened RbEdit
  import opened RbHeight
  import opened RbSpec

  /** The bindings of the nodes in `order`, whose last element is the header. */
  ghost function Listing<K, V>(order: seq<Ref>, key: map<Ref, K>, value: map<Ref, V>): (es: seq<(K, V)>)
    requires |order| >= 1 && forall i :: 0 <= i < |order| - 1 ==> order[i] in key && order[i] in value
    ensures |es| == |order| - 1 && forall i :: 0 <= i < |es| ==> es[i] == (key[order[i]], value[order[i]])
  {
    seq(|order| - 1, i requires 0 <= i < |order| - 1 => (key[order[i]], value[order[i]]))
  }

  lemma ListInsert<K, V>(order: seq<Ref>, key: map<Ref, K>, value: map<Ref, V>, q: int, z: Ref, k: K, v: V)
    requires |order| >= 1 && forall i :: 0 <= i < |order| - 1 ==> order[i] in key && order[i] in value && order[i] != z
    requires 0 <= q < |order|
    ensures var order', key', value' := Inserted(order, q, z), key[z := k], value[z := v];
            && (forall i :: 0 <= i < |order'| - 1 ==> order'[i] in key' && order'[i] in value')
            && var es := Listing(order, key, value);
            Listing(order', key', value') == es[..q] + [(k, v)] + es[q..]
  {
    var order', key', value' := Inserted(order, q, z), key[z := k], value[z := v];
    forall i | 0 <= i < |order'| - 1
      ensures order'[i] == if i < q then order[i] else if i == q then z else order[i - 1]
    {
    }
  }

  lemma ListUpdate<K, V>(order: seq<Ref>, key: map<Ref, K>, value: map<Ref, V>, q: int, k: K, v: V)
    requires |order| >= 1 && forall i :: 0 <= i < |order| - 1 ==> order[i] in key && order[i] in value
    requires 0 <= q < |order| - 1 && forall i, j :: 0 <= i < j < |order| ==> order[i] != order[j]
    ensures var key', value' := key[order[q] := k], value[order[q] := v];
            && (forall i :: 0 <= i < |order| - 1 ==> order[i] in key' && order[i] in value')
            && Listing(order, key', value') == Listing(order, key, value)[q := (k, v)]
  {
  }

  lemma ListDelete<K, V>(order: seq<Ref>, key: map<Ref, K>, value: map<Ref, V>, q: int)
    requires |order| >= 1 && forall i :: 0 <= i < |order| - 1 ==> order[i] in key && order[i] in value
    requires 0 <= q < |order| - 1 && forall i, j :: 0 <= i < j < |order| ==> order[i] != order[j]
    ensures var order', key', value' := Without(order, q), key - {order[q]}, value - {order[q]};
            && (forall i :: 0 <= i < |order'| - 1 ==> order'[i] in key' && order'[i] in value')
            && var es := Listing(order, key, value);
            Listing(order', key', value') == es[..q] + es[q + 1..]
  {
    var order' := Without(order, q);
    forall i | 0 <= i < |order'| ensures order'[i] == if i < q then order[i] else order[i + 1] {
    }
  }

  /** The links of a tree with no entries. */
  lemma EmptyTree()
    ensures var s := Shape(true, 1, [NIL, NIL], [NIL, NIL], [NIL, NIL], [0, -1], [0, 1], [0, 0]);
            AllGood(s, {ROOT}, Paint([false, false], [0, 0]), SOUND) && OrderOk(s, {ROOT}, [ROOT])
  {
    var s := Shape(true, 1, [NIL, NIL], [NIL, NIL], [NIL, NIL], [0, -1], [0, 1], [0, 0]);
    assert Good(s, {ROOT}, Paint([false, false], [0, 0]), SOUND, ROOT);
  }

  class Tree<K(!new), V> {
    const keyCompare: (K, K) -> int
    const valueCompare: (V, V) -> int

    var parent: seq<Ref>
    var left: seq<Ref>
    var right: seq<Ref>
    var red: seq<bool>
    var key: map<Ref, K>
    var value: map<Ref, V>
    var size: nat

    ghost var lo: seq<int>
    ghost var hi: seq<int>
    ghost var pos: seq<int>
    ghost var bh: seq<int>
    ghost var live: set<Ref>
    ghost var order: seq<Ref>

    ghost function View(): Shape
      reads this
    {
      Shape(true, |order|, parent, left, right, lo, hi, pos)
    }

    ghost function Colour(): Paint
      reads this
    {
      Paint(red, bh)
    }

    ghost predicate Keyed()
      reads this
    {
      |order| >= 1 && forall i :: 0 <= i < |order| - 1 ==> order[i] in key && order[i] in value
    }

    /** The bindings the tree holds, in key order. */
    ghost function Entries(): (es: seq<(K, V)>)
      reads this
      requires Keyed()
    {
      Listing(order, key, value)
    }

    ghost predicate Balanced()
      reads this
    {
      AllGood(View(), live, Colour(), SOUND) && OrderOk(View(), live, order)
    }

    ghost predicate Valid()
      reads this
    {
      && Balanced() && Keyed() && key.Keys == value.Keys == live - {ROOT}
      && size == |order| - 1
      && TotalOrder(keyCompare) && Sorted(keyCompare, Entries())
    }

    constructor (keyCompare: (K, K) -> int, valueCompare: (V, V) -> int)
      requires TotalOrder(keyCompare)
      ensures Valid() && Entries() == []
      ensures this.keyCompare == keyCompare && this.valueCompare == valueCompare
    {
      this.keyCompare, this.valueCompare := keyCompare, valueCompare;
      parent, left, right := [NIL, NIL], [NIL, NIL], [NIL, NIL];
      red := [false, false];
      key, value, size := map[], map[], 0;
      lo, hi, pos, bh := [0, -1], [0, 1], [0, 0], [0, 0];
      live, order := {ROOT}, [ROOT];
      new;
      EmptyTree();
    }

    method RotateLeft(x: Ref)
      requires Around(View(), live, x)
      modifies this`parent, this`left, this`right, this`lo, this`hi
      ensures View() == Rotate(old(View()), x)
    {
      RotateApart(View(), live, x);
      var y := right[x];
      right := right[x := left[y]];
      if left[y] != NIL {
        parent := parent[left[y] := x];
      }
      parent := parent[y := parent[x]];
      if x == left[parent[x]] {
        left := left[parent[x] := y];
      } else {
        right := right[parent[x] := y];
      }
      left := left[y := x];
      parent := parent[x := y];
      lo, hi := lo[y := lo[x]], hi[x := pos[y]];
    }

    method RotateRight(y: Ref)
      requires Around(View().Mirror(), live, y)
      modifies this`parent, this`left, this`right, this`lo, this`hi
      ensures View().Mirror() == Rotate(old(View()).Mirror(), y)
    {
      RotateApart(View().Mirror(), live, y);
      var x := left[y];
      left := left[y := right[x]];
      if right[x] != NIL {
        parent := parent[right[x] := y];
      }
      parent := parent[x := parent[y]];
      if y == left[parent[y]] {
        left := left[parent[y] := x];
      } else {
        right := right[parent[y] := x];
      }
      right := right[x := y];
      parent := parent[y := x];
      hi, lo := hi[x := hi[y]], lo[y := pos[x]];
    }

    ghost predicate Putting(z: Ref)
      reads this
    {
      PutInv(View(), live, Colour(), z) && OrderOk(View(), live, order)
    }

    /** `z` and its parent are inside the arena. */
    ghost predicate Within(z: Ref)
      reads this
    {
      && View().Sized() && |red| == |bh| == |parent| && z < |parent| && parent[z] < |parent|
      && Span(View(), z) <= |order| + 1
    }

    method SettleRight(z: Ref)
      requires Outermost(View().Mirror(), live, Colour(), z) && OrderOk(View().Mirror(), live, order)
      modifies this`parent, this`left, this`right, this`lo, this`hi, this`red, this`bh
      ensures Putting(z) && Within(z) && !red[parent[z]]
    {
      hide Outermost, OrderOk, Around, PutInv, Rotate;
      ghost var p, g := PutSettled(View().Mirror(), live, Colour(), order, z);
      red := red[parent[z] := false];
      red := red[parent[parent[z]] := true];
      bh := bh[p := bh[p] + 1][g := bh[g] - 1];
      RotateRight(parent[parent[z]]);
      PutBounds(View(), live, Colour(), z);
    }

    method SettleLeft(z: Ref)
      requires Outermost(View(), live, Colour(), z) && OrderOk(View(), live, order)
      modifies this`parent, this`left, this`right, this`lo, this`hi, this`red, this`bh
      ensures Putting(z) && Within(z) && !red[parent[z]]
    {
      hide Outermost, OrderOk, Around, PutInv, Rotate;
      ghost var p, g := PutSettled(View(), live, Colour(), order, z);
      red := red[parent[z] := false];
      red := red[parent[parent[z]] := true];
      bh := bh[p := bh[p] + 1][g := bh[g] - 1];
      RotateLeft(parent[parent[z]]);
      PutBounds(View(), live, Colour(), z);
    }

    method PutFixLeft(z0: Ref) returns (z: Ref)
      requires Putting(z0) && Within(z0) && red[parent[z0]]
      requires parent[parent[z0]] < |left| && parent[z0] == left[parent[parent[z0]]]
      modifies this`parent, this`left, this`right, this`lo, this`hi, this`red, this`bh
      ensures Putting(z) && Within(z)
      ensures !red[parent[z]] || old(Span(View(), z0)) < Span(View(), z)
    {
      hide OrderOk, Around, Rotate, PutInv, Outermost;
      z := z0;
      ghost var p, g, y0 := PutStep(View(), live, Colour(), order, z);
      var y := right[parent[parent[z]]];
      if red[y] {
        red := red[parent[z] := false];
        red := red[y := false];
        red := red[parent[parent[z]] := true];
        bh := bh[p := bh[p] + 1][y := bh[y] + 1];
        z := parent[parent[z]];
        PutBounds(View(), live, Colour(), z);
      } else {
        if z == right[parent[z]] {
          z := parent[z];
          RotateLeft(z);
        }
        SettleRight(z);
      }
    }

    method PutFixRight(z0: Ref) returns (z: Ref)
      requires Putting(z0) && Within(z0) && red[parent[z0]]
      requires parent[parent[z0]] < |right| && parent[z0] == right[parent[parent[z0]]]
      modifies this`parent, this`left, this`right, this`lo, this`hi, this`red, this`bh
      ensures Putting(z) && Within(z)
      ensures !red[parent[z]] || old(Span(View(), z0)) < Span(View(), z)
    {
      hide OrderOk, Around, Rotate, PutInv, Outermost;
      z := z0;
      MirrorPutInv(View(), live, Colour(), z);
      MirrorOrder(View(), live, order);
      ghost var p, g, y0 := PutStep(View().Mirror(), live, Colour(), order, z);
      var y := left[parent[parent[z]]];
      if red[y] {
        red := red[parent[z] := false];
        red := red[y := false];
        red := red[parent[parent[z]] := true];
        bh := bh[p := bh[p] + 1][y := bh[y] + 1];
        z := parent[parent[z]];
        PutBounds(View(), live, Colour(), z);
      } else {
        if z == left[parent[z]] {
          z := parent[z];
          RotateRight(z);
        }
        SettleLeft(z);
      }
    }

    /** PutFix_. */
    method PutFix(z0: Ref)
      requires Putting(z0)
      modifies this`parent, this`left, this`right, this`lo, this`hi, this`red, this`bh
      ensures Balanced()
    {
      hide OrderOk, PutInv, AllGood;
      var z := z0;
      PutBounds(View(), live, Colour(), z);
      while red[parent[z]]
        invariant Putting(z) && Within(z)
        decreases if red[parent[z]] then |order| + 2 - Span(View(), z) else 0
      {
        PutBounds(View(), live, Colour(), z);
        if parent[z] == left[parent[parent[z]]] {
          z := PutFixLeft(z);
        } else {
          z := PutFixRight(z);
        }
      }
      ghost var r := PutFinish(View(), live, Colour(), order, z);
      bh := bh[r := bh[r] + if red[r] then 1 else 0];
      red := red[left[ROOT] := false];
    }

    /** The walk follows the comparisons with `k`, and meets no equal key before its end. */
    ghost predicate Guided(k: K, path: seq<Ref>)
      reads this
    {
      forall i :: 0 <= i < |path| - 1 ==> Guides(k, path[i], path[i + 1])
    }

    ghost predicate Guides(k: K, n: Ref, next: Ref)
      reads this
    {
      && n in key && n < |left| && n < |right| && keyCompare(k, key[n]) != 0
      && next == if keyCompare(k, key[n]) < 0 then left[n] else right[n]
    }

    /** Get_: the node of an equal key, or the place between two neighbours where there is none. */
    method GetNode(k: K) returns (curr: Ref, ghost at: int, ghost path: seq<Ref>)
      requires Valid()
      ensures 0 <= at <= |Entries()| && Below(keyCompare, Entries()[..at], k)
      ensures curr == NIL ==> Above(keyCompare, Entries()[at..], k)
      ensures curr != NIL ==> at < |Entries()| && curr == order[at] && keyCompare(k, key[curr]) == 0
      ensures Walk(View(), path) && Guided(k, path) && path[|path| - 1] == curr
      ensures Visited(path) <= 2 * Log2(size + 1)
    {
      hide AllGood, OrderOk, Reached, Sorted, TotalOrder, Below, Above;
      Unbounded(keyCompare, Entries(), k);
      ghost var top := ReachTop(View(), live, Colour(), order);
      curr := left[ROOT];
      ghost var a, b := -1, |order| - 1;
      path := [curr];
      while curr != NIL
        invariant Walk(View(), path) && Guided(k, path) && path[|path| - 1] == curr
        invariant Reached(View(), live, Colour(), curr, a, b, |path| - 1, top) && -1 <= a < b <= |order| - 1
        invariant Below(keyCompare, Entries()[..a + 1], k) && Above(keyCompare, Entries()[b..], k)
        invariant |path| - 1 <= 2 * top
        invariant curr == NIL ==> b == a + 1
        decreases b - a
      {
        ReachKids(View(), live, Colour(), curr, a, b, |path| - 1, top);
        at := pos[curr];
        OrderAt(View(), live, order, curr);
        var cmp := keyCompare(k, key[curr]);
        if cmp == 0 {
          BelowUpTo(keyCompare, Entries(), k, at);
          return;
        } else if cmp < 0 {
          AboveFrom(keyCompare, Entries(), k, at);
          curr, b := left[curr], at;
        } else {
          BelowUpTo(keyCompare, Entries(), k, at);
          curr, a := right[curr], at;
        }
        path := path + [curr];
      }
      at := b;
    }

    /** `x` is the child of `y` towards which `k` belongs, covering the gap between `a` and `b`. */
    ghost predicate Heading(k: K, y: Ref, x: Ref, a: int, b: int)
      reads this
    {
      && y in live && y < |left| == |right| == |pos| && (y != ROOT ==> y in key)
      && (|| (x == left[y] && b == pos[y] && (y != ROOT ==> keyCompare(k, key[y]) < 0))
          || (x == right[y] && a == pos[y] && y != ROOT && keyCompare(k, key[y]) > 0))
    }

    method NodeNew(p: Ref) returns (z: Ref)
      modifies this`parent, this`left, this`right, this`red
      ensures z == |old(parent)| && parent == old(parent) + [p] && red == old(red) + [true]
      ensures left == old(left) + [NIL] && right == old(right) + [NIL]
    {
      z := |parent|;
      parent, left, right, red := parent + [p], left + [NIL], right + [NIL], red + [true];
    }

    method LinkLeft(y: Ref) returns (z: Ref)
      requires Balanced() && y in live && y < |left| == |pos| && left[y] == NIL
      modifies this`parent, this`left, this`right, this`red, this`lo, this`hi, this`pos, this`bh, this`live, this`order
      ensures Putting(z) && z !in old(live) && live == old(live) + {z}
      ensures 0 <= old(pos[y]) < |old(order)| && order == Inserted(old(order), old(pos[y]), z)
    {
      hide AllGood, OrderOk, PutInv, Moved;
      ghost var q := PutLinked(View(), live, Colour(), order, y);
      ghost var r := Graft(View(), y);
      z := NodeNew(y);
      left := left[y := z];
      lo, hi, pos := r.nearEnd, r.farEnd, r.mid;
      bh, live, order := bh + [0], live + {z}, Inserted(order, q, z);
    }

    method LinkRight(y: Ref) returns (z: Ref)
      requires Balanced() && y in live && y < |right| == |pos| && right[y] == NIL && y != ROOT
      modifies this`parent, this`left, this`right, this`red, this`lo, this`hi, this`pos, this`bh, this`live, this`order
      ensures Putting(z) && z !in old(live) && live == old(live) + {z}
      ensures 0 <= old(pos[y] + 1) < |old(order)| && order == Inserted(old(order), old(pos[y] + 1), z)
    {
      hide AllGood, OrderOk, PutInv, Moved;
      MirrorAll(View(), live, Colour(), SOUND);
      MirrorOrder(View(), live, order);
      ghost var q := PutLinked(View().Mirror(), live, Colour(), order, y);
      ghost var r := Graft(View().Mirror(), y);
      z := NodeNew(y);
      right := right[y := z];
      hi, lo, pos := r.nearEnd, r.farEnd, r.mid;
      bh, live, order := bh + [0], live + {z}, Inserted(order, q, z);
    }

    method Rebind(x: Ref, k: K, v: V, ghost at: int)
      requires Valid() && 0 <= at < size && x == order[at] && keyCompare(k, key[x]) == 0
      modifies this`key, this`value
      ensures Valid() && Entries() == Upsert(keyCompare, old(Entries()), k, v)
      ensures Find(keyCompare, old(Entries()), k) != None
    {
      hide AllGood, OrderOk, Listing, TotalOrder, Sorted, Below, Above;
      ghost var es := Entries();
      OrderDistinct(View(), live, order, NIL);
      BelowUpTo(keyCompare, es, k, at);
      UpsertOld(keyCompare, es, k, v, at);
      Present(keyCompare, es, k, at);
      SortedUpdate(keyCompare, es, k, v, at);
      ListUpdate(order, key, value, at, k, v);
      key := key[x := k];
      value := value[x := v];
    }

    /** Everything `Valid` asks except the key order. */
    ghost predicate Stored()
      reads this
    {
      Balanced() && Keyed() && key.Keys == value.Keys == live - {ROOT} && size == |order| - 1
    }

    /** A fresh red node for `k` linked below `y`. */
    method LinkNew(y: Ref, k: K, v: V, ghost a: int, ghost b: int) returns (z: Ref)
      requires Balanced() && Heading(k, y, NIL, a, b) && b == a + 1
      modifies this`parent, this`left, this`right, this`red, this`lo, this`hi, this`pos, this`bh, this`live, this`order
      modifies this`key, this`value
      ensures Putting(z) && z !in old(live) && live == old(live) + {z}
      ensures 0 <= b < |old(order)| && order == Inserted(old(order), b, z)
      ensures key == old(key)[z := k] && value == old(value)[z := v]
    {
      hide AllGood, OrderOk, PutInv, Inserted;
      if y == ROOT || keyCompare(k, key[y]) < 0 {
        z := LinkLeft(y);
      } else {
        z := LinkRight(y);
      }
      key, value := key[z := k], value[z := v];
    }

    method AddNew(y: Ref, k: K, v: V, ghost a: int, ghost b: int)
      requires Stored() && Heading(k, y, NIL, a, b) && b == a + 1
      modifies this
      ensures Stored() && 0 <= b <= old(size) && Entries() == old(Entries()[..b] + [(k, v)] + Entries()[b..])
    {
      hide AllGood, OrderOk, Listing, PutInv, Heading;
      OrderDistinct(View(), live, order, NIL);
      var z := LinkNew(y, k, v, a, b);
      ListInsert(old(order), old(key), old(value), b, z, k, v);
      PutFix(z);
      size := size + 1;
    }

    /** RBTreePut. */
    method Put(k: K, v: V) returns (replaced: bool)
      requires Valid()
      modifies this
      ensures Valid() && Entries() == Upsert(keyCompare, old(Entries()), k, v)
      ensures replaced <==> Find(keyCompare, old(Entries()), k) != None
    {
      hide AllGood, OrderOk, Reached, Sorted, TotalOrder, Below, Above, Find, Upsert;
      Unbounded(keyCompare, Entries(), k);
      ghost var top := ReachTop(View(), live, Colour(), order);
      ghost var a, b, d := -1, |order| - 1, 0;
      var y, x := ROOT, left[ROOT];
      OrderAt(View(), live, order, ROOT);
      while x != NIL
        invariant unchanged(this) && Reached(View(), live, Colour(), x, a, b, d, top) && -1 <= a < b <= |order| - 1
        invariant Heading(k, y, x, a, b)
        invariant Below(keyCompare, Entries()[..a + 1], k) && Above(keyCompare, Entries()[b..], k)
        invariant x == NIL ==> b == a + 1
        decreases b - a
      {
        y := x;
        ReachKids(View(), live, Colour(), x, a, b, d, top);
        OrderAt(View(), live, order, x);
        ghost var at := pos[x];
        d := d + 1;
        var cmp := keyCompare(k, key[x]);
        if cmp == 0 {
          Rebind(x, k, v, at);
          return true;
        }
        if cmp < 0 {
          AboveFrom(keyCompare, Entries(), k, at);
          x, b := left[x], at;
        } else {
          BelowUpTo(keyCompare, Entries(), k, at);
          x, a := right[x], at;
        }
      }
      UpsertNew(keyCompare, Entries(), k, v, b);
      Between(keyCompare, Entries(), k, b);
      SortedInsert(keyCompare, Entries(), k, v, b);
      AddNew(y, k, v, a, b);
      return false;
    }

    ghost predicate OwingLeft(x: Ref, p: Ref)
      reads this
    {
      Owing(View(), live, Colour(), x, p) && OrderOk(View(), live, order)
    }

    ghost predicate OwingRight(x: Ref, p: Ref)
      reads this
    {
      Owing(View().Mirror(), live, Colour(), x, p) && OrderOk(View(), live, order)
    }

    /** The root the repair remembered is still the root, or it is the red parent `p`. */
    ghost predicate Remembered(root: Ref, p: Ref)
      reads this
    {
      |left| > ROOT && p < |red| && (left[ROOT] == root || (p == root && red[p]))
    }

    /** The repair ended in a rotation: nothing is owed and the remembered root is black. */
    ghost predicate Settled(root: Ref)
      reads this
    {
      Balanced() && root < |red| && !red[root]
    }

    method DemoteLeft(x: Ref, ghost p: Ref, ghost root: Ref) returns (w: Ref)
      requires OwingLeft(x, p) && |left| > ROOT && left[ROOT] == root
      modifies this`parent, this`left, this`right, this`lo, this`hi, this`red, this`bh
      ensures OwingLeft(x, p) && Remembered(root, p) && w < |red| && !red[w] && p < |right| && w == right[p]
      ensures red[p] || (lo == old(lo) && hi == old(hi) && red == old(red))
    {
      hide Owing, OrderOk, Around, Rotate;
      ghost var w0 := DemoteStep(View(), live, Colour(), x, p);
      OwingLinks(View(), live, Colour(), x, p);
      w := right[parent[x]];
      if red[w] {
        TurnOrder(View(), live, order, p);
        red := red[w := false];
        red := red[parent[x] := true];
        bh := bh[w := bh[w] + 1][p := bh[p] - 1];
        assert Colour() == Demoted(old(Colour()), p, w);
        hide Demoted;
        RotateLeft(parent[x]);
        OwingLinks(View(), live, Colour(), x, p);
        w := right[parent[x]];
      }
    }

    method LeanLeft(x: Ref, w: Ref, ghost p: Ref, ghost root: Ref) returns (w': Ref)
      requires OwingLeft(x, p) && Remembered(root, p) && p < |right| && w == right[p] && w < |red| && !red[w]
      requires w < |left| == |right| && left[w] < |red| && right[w] < |red| && red[left[w]] && !red[right[w]]
      modifies this`parent, this`left, this`right, this`lo, this`hi, this`red, this`bh
      ensures OwingLeft(x, p) && Remembered(root, p) && p < |right| && w' == right[p] && w' < |right| == |red| && !red[w']
      ensures right[w'] < |red| && red[right[w']]
    {
      hide Owing, OrderOk, Around, Rotate, Good;
      ghost var w0 := Nephews(View(), live, Colour(), x, p);
      ghost var l := left[w];
      LeanStep(View(), live, Colour(), x, p, w, l);
      MirrorOrder(View(), live, order);
      TurnOrder(View().Mirror(), live, order, w);
      red := red[left[w] := false];
      red := red[w := true];
      bh := bh[l := bh[l] + 1][w := bh[w] - 1];
      RotateRight(w);
      OwingLinks(View(), live, Colour(), x, p);
      w' := right[parent[x]];
    }

    method RepayLeft(x: Ref, w: Ref, ghost p: Ref, ghost root: Ref)
      requires OwingLeft(x, p) && Remembered(root, p) && p < |right| && w == right[p] && w < |right| == |red| && !red[w]
      requires right[w] < |red| && red[right[w]]
      modifies this`parent, this`left, this`right, this`lo, this`hi, this`red, this`bh
      ensures Settled(root)
    {
      hide Owing, OrderOk, Around, Rotate, AllGood, Good;
      OwingLinks(View(), live, Colour(), x, p);
      ghost var o := right[w];
      RepayStep(View(), live, Colour(), x, p, w, o);
      TurnOrder(View(), live, order, p);
      bh := bh[w := bh[p]][p := bh[w]][o := bh[o] + 1];
      red := red[w := red[parent[x]]];
      red := red[parent[x] := false];
      red := red[right[w] := false];
      assert Colour() == Repaid(old(Colour()), p, w, o);
      hide Repaid;
      RotateLeft(parent[x]);
    }

    /** Loop invariant of the deletion repair: `x` is one black node short, or the repair is over. */
    ghost predicate Removing(x: Ref, root: Ref)
      reads this
    {
      && View().Sized() && |red| == |bh| == |parent| && x < |parent| && OrderOk(View(), live, order)
      && (|| (Pending(View(), live, Colour(), x) && (left[ROOT] == root || (x == root && red[x])))
          || (x == root && Settled(root)))
    }

    method LightenLeft(x: Ref, w: Ref, ghost p: Ref, ghost root: Ref) returns (x': Ref)
      requires OwingLeft(x, p) && Remembered(root, p) && p < |right| && w == right[p] && w < |red| && !red[w]
      requires w < |left| == |right| && left[w] < |red| && right[w] < |red| && !red[left[w]] && !red[right[w]]
      modifies this`red, this`bh
      ensures x' == p && Removing(x', root) && red[p] == old(red[p])
    {
      hide Owing, OrderOk, AllGood, Pending, Short;
      OwingLinks(View(), live, Colour(), x, p);
      LightenStep(View(), live, Colour(), x, p, w);
      OwingHeader(View(), live, Colour(), order, x, p);
      red := red[w := true];
      bh := bh[w := bh[w] - 1][p := bh[p] - 1];
      PendingUp(View(), live, Colour(), p);
      x' := parent[x];
    }

    method RemoveFixLeft(x0: Ref, root: Ref, ghost p: Ref) returns (x: Ref)
      requires OwingLeft(x0, p) && |left| > ROOT && left[ROOT] == root && View().Sized() && |red| == |parent| && x0 < |parent|
      modifies this`parent, this`left, this`right, this`lo, this`hi, this`red, this`bh
      ensures Removing(x, root)
      ensures x == root || (x == p && p < |red| && (red[p] || (lo == old(lo) && hi == old(hi))))
    {
      hide Owing, OrderOk, AllGood, Pending, Good;
      x := x0;
      var w := DemoteLeft(x, p, root);
      ghost var w0 := Nephews(View(), live, Colour(), x, p);
      if !red[left[w]] && !red[right[w]] {
        x := LightenLeft(x, w, p, root);
      } else {
        if !red[right[w]] {
          w := LeanLeft(x, w, p, root);
        }
        RepayLeft(x, w, p, root);
        SettledBounds();
        x := root;
      }
    }

    lemma SettledBounds()
      requires Balanced()
      ensures View().Sized() && |red| == |bh| == |parent| && |order| >= 1 && ROOT in live && NIL !in live
      ensures left[ROOT] < |red| && !red[left[ROOT]] && !red[ROOT] && !red[NIL]
    {
      assert Good(View(), live, Colour(), SOUND, ROOT);
      if left[ROOT] != NIL { assert Good(View(), live, Colour(), SOUND, left[ROOT]); }
    }

    method DemoteRight(x: Ref, ghost p: Ref, ghost root: Ref) returns (w: Ref)
      requires OwingRight(x, p) && |left| > ROOT && left[ROOT] == root
      modifies this`parent, this`right, this`left, this`lo, this`hi, this`red, this`bh
      ensures OwingRight(x, p) && Remembered(root, p) && w < |red| && !red[w] && p < |left| && w == left[p]
      ensures red[p] || (lo == old(lo) && hi == old(hi) && red == old(red))
    {
      hide Owing, OrderOk, Around, Rotate;
      ghost var w0 := DemoteStep(View().Mirror(), live, Colour(), x, p);
      OwingLinks(View().Mirror(), live, Colour(), x, p);
      w := left[parent[x]];
      if red[w] {
        MirrorOrder(View(), live, order);
        TurnOrder(View().Mirror(), live, order, p);
        red := red[w := false];
        red := red[parent[x] := true];
        bh := bh[w := bh[w] + 1][p := bh[p] - 1];
        assert Colour() == Demoted(old(Colour()), p, w);
        hide Demoted;
        RotateRight(parent[x]);
        OwingLinks(View().Mirror(), live, Colour(), x, p);
        w := left[parent[x]];
      }
    }

    method LeanRight(x: Ref, w: Ref, ghost p: Ref, ghost root: Ref) returns (w': Ref)
      requires OwingRight(x, p) && Remembered(root, p) && p < |left| && w == left[p] && w < |red| && !red[w]
      requires w < |right| == |left| && right[w] < |red| && left[w] < |red| && red[right[w]] && !red[left[w]]
      modifies this`parent, this`right, this`left, this`lo, this`hi, this`red, this`bh
      ensures OwingRight(x, p) && Remembered(root, p) && p < |left| && w' == left[p] && w' < |left| == |red| && !red[w']
      ensures left[w'] < |red| && red[left[w']]
    {
      hide Owing, OrderOk, Around, Rotate, Good;
      ghost var w0 := Nephews(View().Mirror(), live, Colour(), x, p);
      ghost var l := right[w];
      LeanStep(View().Mirror(), live, Colour(), x, p, w, l);
      MirrorOrder(View(), live, order);
      TurnOrder(View(), live, order, w);
      red := red[right[w] := false];
      red := red[w := true];
      bh := bh[l := bh[l] + 1][w := bh[w] - 1];
      RotateLeft(w);
      OwingLinks(View().Mirror(), live, Colour(), x, p);
      w' := left[parent[x]];
    }

    method RepayRight(x: Ref, w: Ref, ghost p: Ref, ghost root: Ref)
      requires OwingRight(x, p) && Remembered(root, p) && p < |left| && w == left[p] && w < |left| == |red| && !red[w]
      requires left[w] < |red| && red[left[w]]
      modifies this`parent, this`right, this`left, this`lo, this`hi, this`red, this`bh
      ensures Settled(root)
    {
      hide Owing, OrderOk, Around, Rotate, AllGood, Good;
      OwingLinks(View().Mirror(), live, Colour(), x, p);
      ghost var o := left[w];
      RepayStep(View().Mirror(), live, Colour(), x, p, w, o);
      MirrorOrder(View(), live, order);
      TurnOrder(View().Mirror(), live, order, p);
      bh := bh[w := bh[p]][p := bh[w]][o := bh[o] + 1];
      red := red[w := red[parent[x]]];
      red := red[parent[x] := false];
      red := red[left[w] := false];
      assert Colour() == Repaid(old(Colour()), p, w, o);
      hide Repaid;
      RotateRight(parent[x]);
    }

    method LightenRight(x: Ref, w: Ref, ghost p: Ref, ghost root: Ref) returns (x': Ref)
      requires OwingRight(x, p) && Remembered(root, p) && p < |left| && w == left[p] && w < |red| && !red[w]
      requires w < |right| == |left| && right[w] < |red| && left[w] < |red| && !red[right[w]] && !red[left[w]]
      modifies this`red, this`bh
      ensures x' == p && Removing(x', root) && red[p] == old(red[p])
    {
      hide Owing, OrderOk, AllGood, Pending, Short;
      OwingLinks(View().Mirror(), live, Colour(), x, p);
      LightenStep(View().Mirror(), live, Colour(), x, p, w);
      MirrorOrder(View(), live, order);
      OwingHeader(View().Mirror(), live, Colour(), order, x, p);
      red := red[w := true];
      bh := bh[w := bh[w] - 1][p := bh[p] - 1];
      PendingUp(View(), live, Colour(), p);
      x' := parent[x];
    }

    method RemoveFixRight(x0: Ref, root: Ref, ghost p: Ref) returns (x: Ref)
      requires OwingRight(x0, p) && |left| > ROOT && left[ROOT] == root && View().Sized() && |red| == |parent| && x0 < |parent|
      modifies this`parent, this`right, this`left, this`lo, this`hi, this`red, this`bh
      ensures Removing(x, root)
      ensures x == root || (x == p && p < |red| && (red[p] || (lo == old(lo) && hi == old(hi))))
    {
      hide Owing, OrderOk, AllGood, Pending, Good;
      x := x0;
      var w := DemoteRight(x, p, root);
      ghost var w0 := Nephews(View().Mirror(), live, Colour(), x, p);
      if !red[right[w]] && !red[left[w]] {
        x := LightenRight(x, w, p, root);
      } else {
        if !red[left[w]] {
          w := LeanRight(x, w, p, root);
        }
        RepayRight(x, w, p, root);
        SettledBounds();
        x := root;
      }
    }

    /** RemoveFix_: `root` is read once, before any rotation. */
    method RemoveFix(x0: Ref)
      requires Pending(View(), live, Colour(), x0) && OrderOk(View(), live, order)
      modifies this`parent, this`right, this`left, this`lo, this`hi, this`red, this`bh
      ensures Balanced() && |left| == |old(left)|
    {
      hide OrderOk, AllGood, Pending, Owing;
      PendingSpan(View(), live, Colour(), x0, NIL);
      var root := left[ROOT];
      var x := x0;
      while x != root && !red[x]
        invariant Removing(x, root)
        decreases Climb(View(), Colour(), x, root)
      {
        PendingSpan(View(), live, Colour(), x, root);
        ghost var p := PendingOwes(View(), live, Colour(), x);
        if x == left[parent[x]] {
          OwingSpan(View(), live, Colour(), x, p);
          x := RemoveFixLeft(x, root, p);
        } else {
          OwingSpan(View().Mirror(), live, Colour(), x, p);
          x := RemoveFixRight(x, root, p);
        }
      }
      if Pending(View(), live, Colour(), x) && (left[ROOT] == root || (x == root && red[x])) {
        PendingDone(View(), live, Colour(), order, x);
      }
      assert !red[x] ==> red[x := false] == red && bh[x := bh[x] + 0] == bh;
      bh := bh[x := bh[x] + if red[x] then 1 else 0];
      red := red[x := false];
    }

    lemma Local(n: Ref)
      requires Balanced() && n in live
      ensures View().Sized() && NodeOk(View(), live, n) && |red| == |bh| == |parent|
      ensures n != ROOT ==> parent[n] in live
      ensures order[pos[n]] == n && (n == ROOT <==> pos[n] == |order| - 1) && right[ROOT] == NIL
    {
      assert Good(View(), live, Colour(), SOUND, n);
      GoodNodes(View(), live, Colour(), SOUND);
      OrderAt(View(), live, order, n);
      HeaderFar(View(), live, order);
    }

    /** The leftmost node below `n`, which is the first in key order. */
    method Leftmost(n: Ref) returns (curr: Ref)
      requires Balanced() && n in live
      ensures curr in live && curr < |pos| && n < |lo| == |pos| && pos[curr] == lo[n] + 1 && pos[curr] <= pos[n]
      ensures curr < |left| && left[curr] == NIL
    {
      hide AllGood, OrderOk;
      Local(n);
      curr := n;
      while left[curr] != NIL
        invariant curr in live && NodeOk(View(), live, curr) && lo[curr] == lo[n] && pos[curr] <= pos[n]
        decreases Span(View(), curr)
      {
        Local(left[curr]);
        curr := left[curr];
      }
    }

    /** Next_. */
    method Next(node0: Ref) returns (next: Ref)
      requires Balanced() && node0 in live && node0 != ROOT
      ensures node0 < |pos| && 0 <= pos[node0] < |order| - 1
      ensures next == var n := order[pos[node0] + 1]; if n == ROOT then NIL else n
      ensures node0 < |right| == |left| && (right[node0] != NIL ==> next in live && next != ROOT && next < |left| && left[next] == NIL)
    {
      hide AllGood, OrderOk;
      Local(node0);
      if right[node0] != NIL {
        Local(right[node0]);
        next := Leftmost(right[node0]);
        Local(next);
      } else {
        var node, curr := node0, parent[node0];
        Local(curr);
        while node == right[curr]
          invariant node in live && node != ROOT && NodeOk(View(), live, node) && curr == parent[node]
          invariant curr in live && NodeOk(View(), live, curr) && hi[node] == pos[node0] + 1
          decreases |order| + 2 - Span(View(), node)
        {
          node, curr := curr, parent[curr];
          Local(curr);
        }
        Local(curr);
        next := if curr != ROOT then curr else NIL;
      }
    }

    ghost predicate Spliced(y: Ref, x: Ref)
      reads this
    {
      && OrderOk(View(), live, order) && y < |red|
      && if red[y] then AllGood(View(), live, Colour(), SOUND) else Pending(View(), live, Colour(), x)
    }

    method Unlink(y: Ref, x: Ref)
      requires |parent| == |left| == |right| && ROOT < |left| && y < |parent| && x < |parent| && parent[y] < |parent|
      requires x != y && x != parent[y] && y != parent[y] && (parent[y] == ROOT ==> y == left[ROOT])
      modifies this`parent, this`left, this`right
      ensures parent == old(parent)[x := old(parent[y])]
      ensures left == old(if y == left[parent[y]] then left[parent[y] := x] else left)
      ensures right == old(if y == left[parent[y]] then right else right[parent[y] := x])
    {
      parent := parent[x := parent[y]];
      if ROOT == parent[x] {
        left := left[ROOT := x];
      } else {
        if y == left[parent[y]] {
          left := left[parent[y] := x];
        } else {
          right := right[parent[y] := x];
        }
      }
    }

    method SpliceLeft(y: Ref, x: Ref)
      requires Balanced() && y in live && y != ROOT && y < |left| == |right| == |pos| && left[y] == NIL && x == right[y]
      modifies this`parent, this`left, this`right, this`lo, this`hi, this`pos, this`live, this`order
      ensures Spliced(y, x) && live == old(live) - {y} && |left| == |old(left)|
      ensures 0 <= old(pos[y]) < |old(order)| && order == Without(old(order), old(pos[y]))
    {
      hide AllGood, OrderOk, Pending, Moved, Without, Short;
      ghost var x0 := SpliceStep(View(), live, Colour(), order, y);
      ghost var r := Splice(View(), y);
      Unlink(y, x);
      live, order := live - {y}, Without(order, pos[y]);
      lo, hi, pos := r.nearEnd, r.farEnd, r.mid;
    }

    method SpliceRight(y: Ref, x: Ref)
      requires Balanced() && y in live && y != ROOT && y < |left| == |right| == |pos| && right[y] == NIL && x == left[y] && x != NIL
      modifies this`parent, this`left, this`right, this`lo, this`hi, this`pos, this`live, this`order
      ensures Spliced(y, x) && live == old(live) - {y} && |left| == |old(left)|
      ensures 0 <= old(pos[y]) < |old(order)| && order == Without(old(order), old(pos[y]))
    {
      hide AllGood, OrderOk, Pending, Moved, Without, Short;
      MirrorAll(View(), live, Colour(), SOUND);
      MirrorOrder(View(), live, order);
      ghost var x0 := SpliceStep(View().Mirror(), live, Colour(), order, y);
      ghost var r := Splice(View().Mirror(), y).Mirror();
      Unlink(y, x);
      live, order := live - {y}, Without(order, pos[y]);
      lo, hi, pos := r.nearEnd, r.farEnd, r.mid;
    }

    method SpliceOut(y: Ref) returns (x: Ref)
      requires Balanced() && y in live && y != ROOT && y < |left| == |right| == |pos| && (left[y] == NIL || right[y] == NIL)
      modifies this`parent, this`left, this`right, this`lo, this`hi, this`pos, this`live, this`order
      ensures Spliced(y, x) && live == old(live) - {y} && |left| == |old(left)|
      ensures 0 <= old(pos[y]) < |old(order)| && order == Without(old(order), old(pos[y]))
    {
      hide AllGood, OrderOk, Pending, Without;
      x := if left[y] == NIL then right[y] else left[y];
      if left[y] == NIL {
        SpliceLeft(y, x);
      } else {
        SpliceRight(y, x);
      }
    }

    method LinkInPlace(z: Ref, y: Ref)
      requires |parent| == |left| == |right| == |red| && y < |parent| && z < |parent| && y != z
      requires left[z] < |parent| && right[z] < |parent| && parent[z] < |parent| && left[z] != z && right[z] != z
      requires parent[z] != y && parent[z] != z
      modifies this`parent, this`left, this`right, this`red
      ensures parent == old(parent[y := parent[z]][left[z] := y][right[z] := y]) && red == old(red[y := red[z]])
      ensures var l := old(left[y := left[z]]); left == if z == old(left[parent[z]]) then l[old(parent[z]) := y] else l
      ensures var r := old(right[y := right[z]]); right == if z == old(left[parent[z]]) then r else r[old(parent[z]) := y]
    {
      left := left[y := left[z]];
      right := right[y := right[z]];
      parent := parent[y := parent[z]];
      red := red[y := red[z]];
      parent := parent[left[z] := y];
      parent := parent[right[z] := y];
      if z == left[parent[z]] {
        left := left[parent[z] := y];
      } else {
        right := right[parent[z] := y];
      }
    }

    method PutInPlace(z: Ref, y: Ref)
      requires Balanced() && z in live && z != ROOT && y !in live && y < |left| && y != NIL && y != ROOT
      modifies this`parent, this`left, this`right, this`lo, this`hi, this`pos, this`live, this`order, this`red, this`bh
      ensures Balanced() && live == old(live) - {z} + {y} && z < |old(pos)|
      ensures 0 <= old(pos[z]) < |old(order)| && order == old(order)[old(pos[z]) := y]
    {
      hide AllGood, OrderOk;
      ReplaceStep(View(), live, Colour(), order, z, y);
      ghost var r := Replace(View(), z, y);
      LinkInPlace(z, y);
      bh := bh[y := bh[z]];
      live, order := live - {z} + {y}, order[pos[z] := y];
      lo, hi, pos := r.nearEnd, r.farEnd, r.mid;
    }

    /** Node `y`, which has at most one child, spliced out and the tree repaired. */
    method SpliceAndFix(y: Ref)
      requires Balanced() && y in live && y != ROOT && y < |left| == |right| == |pos| && (left[y] == NIL || right[y] == NIL)
      modifies this`parent, this`left, this`right, this`lo, this`hi, this`pos, this`live, this`order, this`red, this`bh
      ensures Balanced() && live == old(live) - {y} && y < |left|
      ensures 0 <= old(pos[y]) < |old(order)| && order == Without(old(order), old(pos[y]))
    {
      hide AllGood, OrderOk, Pending, Without;
      var x := SpliceOut(y);
      if !red[y] {
        RemoveFix(x);
      }
    }

    /** Node `z`, found at position `at`, taken out of the tree. */
    method TakeOut(z: Ref, ghost at: int)
      requires Balanced() && 0 <= at < |order| - 1 && order[at] == z
      modifies this`parent, this`left, this`right, this`lo, this`hi, this`pos, this`live, this`order, this`red, this`bh
      ensures Balanced() && live == old(live) - {z} && order == Without(old(order), at)
    {
      hide AllGood, OrderOk, Pending;
      OrderDistinct(View(), live, order, NIL);
      Local(z);
      if left[z] == NIL || right[z] == NIL {
        SpliceAndFix(z);
      } else {
        var y := Next(z);
        Local(y);
        SpliceAndFix(y);
        OrderDistinct(View(), live, order, y);
        assert order[at] == z;
        Local(z);
        PutInPlace(z, y);
        assert order == Without(old(order), at);
      }
    }

    /** RBTreeRemove. */
    method Remove(k: K) returns (removed: bool)
      requires Valid()
      modifies this
      ensures Valid() && Entries() == Delete(keyCompare, old(Entries()), k)
      ensures removed <==> Find(keyCompare, old(Entries()), k) != None
    {
      hide AllGood, OrderOk, Listing, Sorted, TotalOrder, Below, Above, Find, Delete;
      var z, at, path := GetNode(k);
      ghost var es := Entries();
      if z == NIL {
        Between(keyCompare, es, k, at);
        return false;
      }
      Present(keyCompare, es, k, at);
      SortedDelete(keyCompare, es, at);
      OrderDistinct(View(), live, order, NIL);
      ListDelete(order, key, value, at);
      TakeOut(z, at);
      key, value := key - {z}, value - {z};
      size := size - 1;
      return true;
    }

    method Get(k: K) returns (v: Option<V>)
      requires Valid()
      ensures v == Find(keyCompare, Entries(), k)
    {
      hide Balanced, Find, Below, Above, Sorted, TotalOrder;
      var node, at, path := GetNode(k);
      if node == NIL {
        Between(keyCompare, Entries(), k, at);
        v := None;
      } else {
        Present(keyCompare, Entries(), k, at);
        v := Some(value[node]);
      }
    }

    method Reset()
      modifies this`parent, this`left, this`right, this`red, this`lo, this`hi, this`pos, this`bh, this`live, this`order
      ensures Balanced() && order == [ROOT] && live == {ROOT}
    {
      hide AllGood, OrderOk;
      EmptyTree();
      parent, left, right := [NIL, NIL], [NIL, NIL], [NIL, NIL];
      red := [false, false];
      lo, hi, pos, bh := [0, -1], [0, 1], [0, 0], [0, 0];
      live, order := {ROOT}, [ROOT];
    }

    method Clear()
      requires Valid()
      modifies this
      ensures Valid() && Entries() == []
    {
      hide Balanced;
      key, value, size := map[], map[], 0;
      Reset();
    }

    lemma Facts()
      requires Valid()
      ensures Keyed() && size == |Entries()| && TotalOrder(keyCompare) && Sorted(keyCompare, Entries())
    {
    }

    /** The run-time checker of the source: none of its assertions can fail on a balanced tree, and
        it counts the same number of black nodes on every path. */
    method VerifyNode(node: Ref, blackCount: int, path: int) returns (path': int)
      requires Balanced() && (node == NIL || (node in live && node != ROOT)) && node < |bh|
      requires path == -1 || path == blackCount + bh[node] + 1
      ensures path' == blackCount + bh[node] + 1
      decreases if node == NIL then 0 else Span(View(), node)
    {
      SettledBounds();
      var count := blackCount;
      if node != NIL { Kids(node); }
      if red[node] {
        assert !red[left[node]];
        assert !red[right[node]];
      } else {
        count := count + 1;
      }
      if node == NIL {
        assert !red[node];
        if path == -1 {
          path' := count;
        } else {
          assert count == path;
          path' := path;
        }
      } else {
        path' := VerifyNode(left[node], count, path);
        path' := VerifyNode(right[node], count, path');
      }
    }

    lemma Kids(n: Ref)
      requires Balanced() && n in live && n != ROOT
      ensures View().Sized() && |red| == |bh| == |parent| && n < |parent| && bh[NIL] == 0
      ensures left[n] < |parent| && right[n] < |parent| && (red[n] ==> !red[left[n]] && !red[right[n]])
      ensures bh[left[n]] == bh[right[n]] && bh[n] == bh[left[n]] + (if red[n] then 0 else 1)
      ensures left[n] != NIL ==> left[n] in live && left[n] != ROOT && 0 < Span(View(), left[n]) < Span(View(), n)
      ensures right[n] != NIL ==> right[n] in live && right[n] != ROOT && 0 < Span(View(), right[n]) < Span(View(), n)
      ensures 0 < Span(View(), n)
    {
      assert Good(View(), live, Colour(), SOUND, n);
      if left[n] != NIL { assert Good(View(), live, Colour(), SOUND, left[n]); }
      if right[n] != NIL { assert Good(View(), live, Colour(), SOUND, right[n]); }
    }

    method VerifyTree() returns (path: int)
      requires Balanced()
      ensures left[ROOT] < |bh| && path == bh[left[ROOT]] + 1
    {
      SettledBounds();
      Local(ROOT);
      assert !red[ROOT];
      assert !red[NIL];
      path := VerifyNode(left[ROOT], 0, -1);
    }
  }
}
