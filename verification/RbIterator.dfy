/** Iteration, comparison of two trees, and whole histories. */
module RbIterator {
  import opened RbShape
  import opened RbColor
  import opened RbEdit
  import opened RbSpec
  import opened RbTree

  class Iterator<K(!new), V> {
    const tree: Tree<K, V>
    var curr: Ref
    ghost const entries: seq<(K, V)>  // what there is to hand out
    ghost var done: nat               // how many have been handed out

    ghost predicate Valid()
      reads this, tree
    {
      && tree.Valid() && entries == tree.Entries() && done <= |entries|
      && (tree.size > 0 ==> curr == if done < tree.size then tree.order[done] else NIL)
    }

    constructor (tree: Tree<K, V>)
      requires tree.Valid()
      ensures this.tree == tree && Valid() && done == 0 && entries == tree.Entries()
    {
      hide AllGood, Sorted, TotalOrder;
      tree.SettledBounds();
      var first := tree.Leftmost(ROOT);
      tree.Local(first);
      this.tree := tree;
      curr, done := first, 0;
      entries := tree.Entries();
    }

    /** Hands out every entry once, in key order, and then stops. */
    method Next() returns (entry: Option<(K, V)>)
      requires Valid()
      modifies this
      ensures Valid()
      ensures if old(done) < |entries| then entry == Some(entries[old(done)]) && done == old(done) + 1
              else entry == None && done == old(done)
    {
      hide AllGood, Sorted, TotalOrder;
      tree.SettledBounds();
      if tree.size == 0 || curr == NIL {
        entry := None;
      } else {
        entry := Some((tree.key[curr], tree.value[curr]));
        tree.Local(curr);
        curr := tree.Next(curr);
        done := done + 1;
      }
    }
  }

  /** Two different trees are equal exactly when they have the same comparators and are the same map. A
      tree is equal to itself at once, which is right exactly when its values compare equal to themselves.
      `comparators` says whether the addresses of the comparators agree, in which case they are the same
      functions. */
  method Equal<K(!new), V(!new)>(a: Tree?<K, V>, b: Tree?<K, V>, comparators: bool) returns (equal: bool)
    requires a != null ==> a.Valid()
    requires b != null ==> b.Valid()
    requires a != null && b != null && comparators ==> a.keyCompare == b.keyCompare && a.valueCompare == b.valueCompare
    ensures a == null || b == null || a == b ==> (equal <==> a == b)
    ensures a != null && b != null && a != b ==>
      (equal <==> comparators && SameMap(a.keyCompare, a.valueCompare, a.Entries(), b.Entries()))
    ensures a != null && a == b ==>
      (SameMap(a.keyCompare, a.valueCompare, a.Entries(), b.Entries()) <==> Reflexive(a.valueCompare, a.Entries()))
  {
    hide Tree.Valid, Iterator.Valid, Find, SameMap, TotalOrder, Sorted, SameEntry;
    if a == b {
      if a != null {
        a.Facts();
        SameItself(a.keyCompare, a.valueCompare, a.Entries());
      }
      return true;
    }
    if a == null || b == null {
      return false;
    }
    if !comparators {
      return false;
    }
    a.Facts();
    b.Facts();
    ghost var ea, eb := a.Entries(), b.Entries();
    SameMapPointwise(a.keyCompare, a.valueCompare, ea, eb);
    if a.size != b.size {
      return false;
    }
    equal := CompareAll(a, b, ea, eb);
  }

  method CompareAll<K(!new), V(!new)>(a: Tree<K, V>, b: Tree<K, V>, ghost ea: seq<(K, V)>, ghost eb: seq<(K, V)>) returns (equal: bool)
    requires a.Valid() && b.Valid() && a.keyCompare == b.keyCompare && a.valueCompare == b.valueCompare
    requires ea == a.Entries() && eb == b.Entries() && |ea| == |eb|
    ensures equal <==> Pointwise(a.keyCompare, a.valueCompare, ea, eb)
  {
    hide Tree.Valid, Iterator.Valid, Listing;
    var itA := new Iterator(a);
    var itB := new Iterator(b);
    var x := itA.Next();
    var y := None;
    if x.Some? { y := itB.Next(); }
    ghost var i := 0;
    while x.Some? && y.Some?
      invariant fresh(itA) && fresh(itB) && itA != itB && itA.Valid() && itB.Valid() && itA.entries == ea && itB.entries == eb
      invariant 0 <= i <= |ea| && itA.done == itB.done == (if i < |ea| then i + 1 else i)
      invariant x == if i < |ea| then Some(ea[i]) else None
      invariant i < |ea| ==> y == Some(eb[i])
      invariant forall j :: 0 <= j < i ==> SameEntry(a.keyCompare, a.valueCompare, ea[j], eb[j])
      decreases |ea| - i
    {
      if a.keyCompare(x.value.0, y.value.0) != 0 || b.valueCompare(x.value.1, y.value.1) != 0 {
        assert !SameEntry(a.keyCompare, a.valueCompare, ea[i], eb[i]);
        return false;
      }
      i := i + 1;
      x := itA.Next();
      if x.Some? { y := itB.Next(); }
    }
    return true;
  }

  /** Every value bound compares equal to itself. */
  predicate Reflexive<K, V>(vcmp: (V, V) -> int, es: seq<(K, V)>) {
    forall i :: 0 <= i < |es| ==> vcmp(es[i].1, es[i].1) == 0
  }

  lemma SameItself<K(!new), V(!new)>(cmp: (K, K) -> int, vcmp: (V, V) -> int, es: seq<(K, V)>)
    requires TotalOrder(cmp) && Sorted(cmp, es)
    ensures SameMap(cmp, vcmp, es, es) <==> Reflexive(vcmp, es)
  {
    hide SameMap;
    SameMapPointwise(cmp, vcmp, es, es);
    assert forall i :: 0 <= i < |es| ==> (SameEntry(cmp, vcmp, es[i], es[i]) <==> vcmp(es[i].1, es[i].1) == 0) by {
      forall k ensures cmp(k, k) == 0 {
      }
    }
  }

  /** Any history of operations on a new tree. */
  method Run<K(!new), V>(keyCompare: (K, K) -> int, valueCompare: (V, V) -> int, ops: seq<Op<K, V>>) returns (tree: Tree<K, V>)
    requires TotalOrder(keyCompare)
    ensures tree.Valid() && tree.keyCompare == keyCompare && tree.Entries() == Replay(keyCompare, ops)
  {
    hide AllGood, OrderOk, Sorted, Listing, Upsert, Delete, Find;
    tree := new Tree(keyCompare, valueCompare);
    for i := 0 to |ops|
      invariant fresh(tree) && tree.Valid() && tree.keyCompare == keyCompare
      invariant tree.Entries() == Replay(keyCompare, ops[..i])
    {
      assert ops[..i + 1][..i] == ops[..i];
      match ops[i]
      case PutOp(k, v) => var replaced := tree.Put(k, v);
      case RemoveOp(k) => var removed := tree.Remove(k);
      case ClearOp => tree.Clear();
    }
    assert ops[..|ops|] == ops;
  }
}
