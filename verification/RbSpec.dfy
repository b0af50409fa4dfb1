/** The abstract value of a tree: a list of bindings in strictly increasing key order. */
module RbSpec {
  datatype Option<T> = None | Some(value: T)

  /** A three-way comparison that orders keys totally; keys that compare as 0 count as one key. */
  ghost predicate TotalOrder<K(!new)>(cmp: (K, K) -> int) {
    && (forall a, b :: cmp(a, b) < 0 <==> cmp(b, a) > 0)
    && (forall a, b, c :: cmp(a, b) <= 0 && cmp(b, c) <= 0 ==> cmp(a, c) <= 0)
  }

  lemma Chain<K(!new)>(cmp: (K, K) -> int, a: K, b: K, c: K)
    requires TotalOrder(cmp) && cmp(a, b) <= 0 && cmp(b, c) <= 0
    ensures cmp(a, c) <= 0 && (cmp(a, c) == 0 ==> cmp(a, b) == 0 && cmp(b, c) == 0)
  {
    if cmp(a, c) == 0 {
      assert cmp(c, a) <= 0;
      assert cmp(c, b) <= 0 && cmp(b, a) <= 0;
    }
  }

  ghost predicate Sorted<K(!new), V>(cmp: (K, K) -> int, es: seq<(K, V)>) {
    forall i, j :: 0 <= i < j < |es| ==> cmp(es[i].0, es[j].0) < 0
  }

  /** The value bound to `k`. */
  function Find<K, V>(cmp: (K, K) -> int, es: seq<(K, V)>, k: K): Option<V> {
    if es == [] then None
    else if cmp(k, es[0].0) == 0 then Some(es[0].1)
    else Find(cmp, es[1..], k)
  }

  /** The bindings after binding `k` to `v`. */
  function Upsert<K, V>(cmp: (K, K) -> int, es: seq<(K, V)>, k: K, v: V): seq<(K, V)> {
    if es == [] then [(k, v)]
    else if cmp(k, es[0].0) == 0 then [(k, v)] + es[1..]
    else if cmp(k, es[0].0) < 0 then [(k, v)] + es
    else [es[0]] + Upsert(cmp, es[1..], k, v)
  }

  /** The bindings after dropping `k`. */
  function Delete<K, V>(cmp: (K, K) -> int, es: seq<(K, V)>, k: K): seq<(K, V)> {
    if es == [] then []
    else if cmp(k, es[0].0) == 0 then es[1..]
    else [es[0]] + Delete(cmp, es[1..], k)
  }

  ghost predicate Below<K, V>(cmp: (K, K) -> int, es: seq<(K, V)>, k: K) {
    forall i :: 0 <= i < |es| ==> cmp(k, es[i].0) > 0
  }

  ghost predicate Above<K, V>(cmp: (K, K) -> int, es: seq<(K, V)>, k: K) {
    forall i :: 0 <= i < |es| ==> cmp(k, es[i].0) < 0
  }

  lemma Unbounded<K, V>(cmp: (K, K) -> int, es: seq<(K, V)>, k: K)
    ensures Below(cmp, es[..0], k) && Above(cmp, es[|es|..], k)
  {
  }

  lemma AboveFrom<K(!new), V>(cmp: (K, K) -> int, es: seq<(K, V)>, k: K, q: nat)
    requires TotalOrder(cmp) && Sorted(cmp, es) && q < |es| && cmp(k, es[q].0) < 0
    ensures Above(cmp, es[q..], k)
  {
    forall i | 0 <= i < |es[q..]| ensures cmp(k, es[q..][i].0) < 0 {
      if i > 0 { Chain(cmp, k, es[q].0, es[q + i].0); }
    }
  }

  lemma BelowUpTo<K(!new), V>(cmp: (K, K) -> int, es: seq<(K, V)>, k: K, q: nat)
    requires TotalOrder(cmp) && Sorted(cmp, es) && q < |es| && cmp(k, es[q].0) >= 0
    ensures Below(cmp, es[..q], k)
    ensures cmp(k, es[q].0) > 0 ==> Below(cmp, es[..q + 1], k)
  {
    forall i | 0 <= i < q ensures cmp(k, es[i].0) > 0 {
      Chain(cmp, es[i].0, es[q].0, k);
    }
  }

  lemma {:induction false} Absent<K, V>(cmp: (K, K) -> int, es: seq<(K, V)>, k: K)
    requires forall i :: 0 <= i < |es| ==> cmp(k, es[i].0) != 0
    ensures Find(cmp, es, k) == None && Delete(cmp, es, k) == es
  {
    if es != [] {
      Absent(cmp, es[1..], k);
      assert [es[0]] + es[1..] == es;
    }
  }

  lemma {:induction false} Present<K, V>(cmp: (K, K) -> int, es: seq<(K, V)>, k: K, q: nat)
    requires q < |es| && Below(cmp, es[..q], k) && cmp(k, es[q].0) == 0
    ensures Find(cmp, es, k) == Some(es[q].1)
    ensures Delete(cmp, es, k) == es[..q] + es[q + 1..]
    decreases |es|
  {
    if q > 0 {
      assert es[..q][0] == es[0];
      assert es[1..][..q - 1] == es[..q][1..];
      Present(cmp, es[1..], k, q - 1);
      assert [es[0]] + (es[1..][..q - 1] + es[1..][q..]) == es[..q] + es[q + 1..];
    } else {
      assert es[1..] == es[..q] + es[q + 1..];
    }
  }

  lemma {:induction false} UpsertNew<K, V>(cmp: (K, K) -> int, es: seq<(K, V)>, k: K, v: V, q: nat)
    requires q <= |es| && Below(cmp, es[..q], k) && Above(cmp, es[q..], k)
    ensures Upsert(cmp, es, k, v) == es[..q] + [(k, v)] + es[q..]
    decreases |es|
  {
    if q == 0 {
      assert es != [] ==> es[0] == es[q..][0];
      assert [(k, v)] + es == es[..q] + [(k, v)] + es[q..];
    } else {
      assert es[..q][0] == es[0];
      assert es[1..][..q - 1] == es[..q][1..] && es[1..][q - 1..] == es[q..];
      UpsertNew(cmp, es[1..], k, v, q - 1);
      assert [es[0]] + (es[1..][..q - 1] + [(k, v)] + es[1..][q - 1..]) == es[..q] + [(k, v)] + es[q..];
    }
  }

  lemma {:induction false} UpsertOld<K, V>(cmp: (K, K) -> int, es: seq<(K, V)>, k: K, v: V, q: nat)
    requires q < |es| && Below(cmp, es[..q], k) && cmp(k, es[q].0) == 0
    ensures Upsert(cmp, es, k, v) == es[q := (k, v)]
    decreases |es|
  {
    if q > 0 {
      assert es[..q][0] == es[0];
      assert es[1..][..q - 1] == es[..q][1..];
      UpsertOld(cmp, es[1..], k, v, q - 1);
      assert [es[0]] + es[1..][q - 1 := (k, v)] == es[q := (k, v)];
    } else {
      assert [(k, v)] + es[1..] == es[q := (k, v)];
    }
  }

  /** A key between two neighbours is not bound. */
  lemma Between<K, V>(cmp: (K, K) -> int, es: seq<(K, V)>, k: K, q: nat)
    requires q <= |es| && Below(cmp, es[..q], k) && Above(cmp, es[q..], k)
    ensures Find(cmp, es, k) == None && Delete(cmp, es, k) == es
  {
    forall i | 0 <= i < |es| ensures cmp(k, es[i].0) != 0 {
      assert es[i] == if i < q then es[..q][i] else es[q..][i - q];
    }
    Absent(cmp, es, k);
  }

  lemma SortedInsert<K(!new), V>(cmp: (K, K) -> int, es: seq<(K, V)>, k: K, v: V, q: nat)
    requires TotalOrder(cmp) && Sorted(cmp, es) && q <= |es| && Below(cmp, es[..q], k) && Above(cmp, es[q..], k)
    ensures Sorted(cmp, es[..q] + [(k, v)] + es[q..])
  {
    var es' := es[..q] + [(k, v)] + es[q..];
    forall i, j | 0 <= i < j < |es'| ensures cmp(es'[i].0, es'[j].0) < 0 {
      if i < q { assert es'[i] == es[..q][i] == es[i]; }
      if j > q { assert es'[j] == es[q..][j - q - 1] == es[j - 1]; }
      if i > q { assert es'[i] == es[q..][i - q - 1] == es[i - 1]; }
      if j < q { assert es'[j] == es[j]; }
      if i < q < j { assert cmp(es[i].0, es[j - 1].0) < 0; }
    }
  }

  lemma SortedUpdate<K(!new), V>(cmp: (K, K) -> int, es: seq<(K, V)>, k: K, v: V, q: nat)
    requires TotalOrder(cmp) && Sorted(cmp, es) && q < |es| && cmp(k, es[q].0) == 0
    ensures Sorted(cmp, es[q := (k, v)])
  {
    var es' := es[q := (k, v)];
    forall i, j | 0 <= i < j < |es'| ensures cmp(es'[i].0, es'[j].0) < 0 {
      if i == q { Chain(cmp, k, es[q].0, es[j].0); }
      if j == q { Chain(cmp, es[i].0, es[q].0, k); }
    }
  }

  lemma SortedDelete<K(!new), V>(cmp: (K, K) -> int, es: seq<(K, V)>, q: nat)
    requires Sorted(cmp, es) && q < |es|
    ensures Sorted(cmp, es[..q] + es[q + 1..])
  {
    var es' := es[..q] + es[q + 1..];
    forall i, j | 0 <= i < j < |es'| ensures cmp(es'[i].0, es'[j].0) < 0 {
      assert es'[i] == es[if i < q then i else i + 1] && es'[j] == es[if j < q then j else j + 1];
    }
  }

  // ----- the list of bindings behaves as a map -----

  lemma {:induction false} FindUpsert<K(!new), V>(cmp: (K, K) -> int, es: seq<(K, V)>, k: K, v: V, q: K)
    requires TotalOrder(cmp)
    ensures Find(cmp, Upsert(cmp, es, k, v), q) == if cmp(q, k) == 0 then Some(v) else Find(cmp, es, q)
    decreases |es|
  {
    if es == [] {
    } else {
      var e := es[0].0;
      if cmp(k, e) == 0 {
        if cmp(q, k) == 0 {} else if cmp(q, e) == 0 { Chain(cmp, q, e, k); }
        assert ([(k, v)] + es[1..])[1..] == es[1..];
      } else if cmp(k, e) < 0 {
        assert ([(k, v)] + es)[1..] == es;
      } else {
        FindUpsert(cmp, es[1..], k, v, q);
        if cmp(q, k) == 0 && cmp(q, e) == 0 { Chain(cmp, k, q, e); }
        assert ([es[0]] + Upsert(cmp, es[1..], k, v))[1..] == Upsert(cmp, es[1..], k, v);
      }
    }
  }

  lemma {:induction false} FindNone<K(!new), V>(cmp: (K, K) -> int, es: seq<(K, V)>, q: K)
    ensures Find(cmp, es, q) == None <==> forall i :: 0 <= i < |es| ==> cmp(q, es[i].0) != 0
    decreases |es|
  {
    if es != [] {
      FindNone(cmp, es[1..], q);
      assert forall i :: 0 < i < |es| ==> es[i] == es[1..][i - 1];
      if Find(cmp, es, q) == None {
        forall i | 0 <= i < |es| ensures cmp(q, es[i].0) != 0 {
          if i > 0 { assert es[i] == es[1..][i - 1]; }
        }
      }
    }
  }

  lemma {:induction false} FindDelete<K(!new), V>(cmp: (K, K) -> int, es: seq<(K, V)>, k: K, q: K)
    requires TotalOrder(cmp) && Sorted(cmp, es)
    ensures Find(cmp, Delete(cmp, es, k), q) == if cmp(q, k) == 0 then None else Find(cmp, es, q)
    decreases |es|
  {
    if es != [] {
      var e := es[0].0;
      assert Sorted(cmp, es[1..]);
      if cmp(k, e) == 0 {
        if cmp(q, k) == 0 {
          forall i | 0 <= i < |es[1..]| ensures cmp(q, es[1..][i].0) != 0 {
            assert cmp(e, es[i + 1].0) < 0;
            Chain(cmp, k, e, es[i + 1].0);
            Chain(cmp, q, k, es[i + 1].0);
          }
          FindNone(cmp, es[1..], q);
        } else if cmp(q, e) == 0 {
          Chain(cmp, q, e, k);
        }
      } else {
        FindDelete(cmp, es[1..], k, q);
        if cmp(q, k) == 0 && cmp(q, e) == 0 { Chain(cmp, k, q, e); }
        assert ([es[0]] + Delete(cmp, es[1..], k))[1..] == Delete(cmp, es[1..], k);
      }
    }
  }

  // ----- equality of two lists of bindings -----

  /** Both bound to equal values, or both unbound. */
  predicate Alike<V>(vcmp: (V, V) -> int, a: Option<V>, b: Option<V>) {
    (a.None? && b.None?) || (a.Some? && b.Some? && vcmp(a.value, b.value) == 0)
  }

  /** Every key is bound alike in both. */
  ghost predicate SameMap<K(!new), V>(cmp: (K, K) -> int, vcmp: (V, V) -> int, a: seq<(K, V)>, b: seq<(K, V)>) {
    forall q :: Alike(vcmp, Find(cmp, a, q), Find(cmp, b, q))
  }

  predicate SameEntry<K, V>(cmp: (K, K) -> int, vcmp: (V, V) -> int, a: (K, V), b: (K, V)) {
    cmp(a.0, b.0) == 0 && vcmp(a.1, b.1) == 0
  }

  predicate Pointwise<K, V>(cmp: (K, K) -> int, vcmp: (V, V) -> int, a: seq<(K, V)>, b: seq<(K, V)>) {
    |a| == |b| && forall i :: 0 <= i < |a| ==> SameEntry(cmp, vcmp, a[i], b[i])
  }

  lemma {:induction false} PointwiseFind<K(!new), V>(cmp: (K, K) -> int, vcmp: (V, V) -> int, a: seq<(K, V)>, b: seq<(K, V)>, q: K)
    requires TotalOrder(cmp) && Pointwise(cmp, vcmp, a, b)
    ensures Alike(vcmp, Find(cmp, a, q), Find(cmp, b, q))
  {
    if a != [] {
      var x, y := a[0].0, b[0].0;
      assert SameEntry(cmp, vcmp, a[0], b[0]);
      if cmp(q, x) == 0 { Chain(cmp, q, x, y); Chain(cmp, y, x, q); }
      if cmp(q, y) == 0 { Chain(cmp, q, y, x); Chain(cmp, x, y, q); }
      assert forall i :: 0 <= i < |a| - 1 ==> a[1..][i] == a[i + 1] && b[1..][i] == b[i + 1];
      PointwiseFind(cmp, vcmp, a[1..], b[1..], q);
    }
  }

  /** A key no larger than the first one and different from it is not bound. */
  lemma SmallAbsent<K(!new), V>(cmp: (K, K) -> int, es: seq<(K, V)>, q: K)
    requires TotalOrder(cmp) && Sorted(cmp, es) && (es != [] ==> cmp(q, es[0].0) < 0)
    ensures Find(cmp, es, q) == None
  {
    if es != [] {
      AboveFrom(cmp, es, q, 0);
      assert es[0..] == es;
      Between(cmp, es, q, 0);
    }
  }

  lemma HeadsAgree<K(!new), V>(cmp: (K, K) -> int, vcmp: (V, V) -> int, a: seq<(K, V)>, b: seq<(K, V)>)
    requires TotalOrder(cmp) && Sorted(cmp, a) && Sorted(cmp, b) && SameMap(cmp, vcmp, a, b) && a != []
    ensures b != [] && SameEntry(cmp, vcmp, a[0], b[0])
  {
    var x := a[0].0;
    assert cmp(x, x) == 0;
    assert Alike(vcmp, Find(cmp, a, x), Find(cmp, b, x));
    var y := b[0].0;
    assert cmp(y, y) == 0;
    assert Alike(vcmp, Find(cmp, a, y), Find(cmp, b, y));
    if cmp(x, y) < 0 { SmallAbsent(cmp, b, x); }
    if cmp(y, x) < 0 { SmallAbsent(cmp, a, y); }
  }

  lemma TailsSame<K(!new), V>(cmp: (K, K) -> int, vcmp: (V, V) -> int, a: seq<(K, V)>, b: seq<(K, V)>, q: K)
    requires TotalOrder(cmp) && Sorted(cmp, a) && Sorted(cmp, b) && SameMap(cmp, vcmp, a, b)
    requires a != [] && b != [] && cmp(a[0].0, b[0].0) == 0
    ensures Alike(vcmp, Find(cmp, a[1..], q), Find(cmp, b[1..], q))
  {
    var x, y := a[0].0, b[0].0;
    assert Alike(vcmp, Find(cmp, a, q), Find(cmp, b, q));
    if cmp(q, x) == 0 {
      Chain(cmp, q, x, y);
      if |a| > 1 { Chain(cmp, q, x, a[1].0); }
      if |b| > 1 { Chain(cmp, q, y, b[1].0); }
      SmallAbsent(cmp, a[1..], q);
      SmallAbsent(cmp, b[1..], q);
    } else if cmp(q, y) == 0 {
      Chain(cmp, q, y, x);
      Chain(cmp, x, y, q);
    }
  }

  /** Two sorted lists agree entry by entry exactly when they are the same map. */
  lemma {:induction false} SameMapPointwise<K(!new), V>(cmp: (K, K) -> int, vcmp: (V, V) -> int, a: seq<(K, V)>, b: seq<(K, V)>)
    requires TotalOrder(cmp) && Sorted(cmp, a) && Sorted(cmp, b)
    ensures SameMap(cmp, vcmp, a, b) <==> Pointwise(cmp, vcmp, a, b)
    decreases |a|
  {
    if Pointwise(cmp, vcmp, a, b) {
      forall q ensures Alike(vcmp, Find(cmp, a, q), Find(cmp, b, q)) {
        PointwiseFind(cmp, vcmp, a, b, q);
      }
    }
    if SameMap(cmp, vcmp, a, b) {
      if a == [] {
        if b != [] {
          assert cmp(b[0].0, b[0].0) == 0;
          var alike := Alike(vcmp, Find(cmp, a, b[0].0), Find(cmp, b, b[0].0));
        }
      } else {
        HeadsAgree(cmp, vcmp, a, b);
        forall q ensures Alike(vcmp, Find(cmp, a[1..], q), Find(cmp, b[1..], q)) {
          TailsSame(cmp, vcmp, a, b, q);
        }
        SameMapPointwise(cmp, vcmp, a[1..], b[1..]);
        forall i | 0 <= i < |a| ensures SameEntry(cmp, vcmp, a[i], b[i]) {
          if i > 0 { assert a[i] == a[1..][i - 1] && b[i] == b[1..][i - 1]; }
        }
      }
    }
  }

  // ----- histories -----

  datatype Op<K, V> = PutOp(key: K, value: V) | RemoveOp(key: K) | ClearOp

  function Apply<K, V>(cmp: (K, K) -> int, es: seq<(K, V)>, op: Op<K, V>): seq<(K, V)> {
    match op
    case PutOp(k, v) => Upsert(cmp, es, k, v)
    case RemoveOp(k) => Delete(cmp, es, k)
    case ClearOp => []
  }

  function Replay<K, V>(cmp: (K, K) -> int, ops: seq<Op<K, V>>): seq<(K, V)> {
    if ops == [] then [] else Apply(cmp, Replay(cmp, ops[..|ops| - 1]), ops[|ops| - 1])
  }

  /** What the last operation that concerns `q` left there. */
  function LastWrite<K, V>(cmp: (K, K) -> int, ops: seq<Op<K, V>>, q: K): Option<V> {
    if ops == [] then None
    else match ops[|ops| - 1]
      case PutOp(k, v) => if cmp(q, k) == 0 then Some(v) else LastWrite(cmp, ops[..|ops| - 1], q)
      case RemoveOp(k) => if cmp(q, k) == 0 then None else LastWrite(cmp, ops[..|ops| - 1], q)
      case ClearOp => None
  }

  lemma {:induction false} SortedReplay<K(!new), V>(cmp: (K, K) -> int, ops: seq<Op<K, V>>)
    requires TotalOrder(cmp)
    ensures Sorted(cmp, Replay(cmp, ops))
  {
    if ops != [] {
      var before := ops[..|ops| - 1];
      SortedReplay(cmp, before);
      SortedApply(cmp, Replay(cmp, before), ops[|ops| - 1]);
    }
  }

  lemma SortedApply<K(!new), V>(cmp: (K, K) -> int, es: seq<(K, V)>, op: Op<K, V>)
    requires TotalOrder(cmp) && Sorted(cmp, es)
    ensures Sorted(cmp, Apply(cmp, es, op))
  {
    if !op.ClearOp? {
      var q, found := Locate(cmp, es, op.key);
      match op
      case PutOp(k, v) =>
        if found { UpsertOld(cmp, es, k, v, q); SortedUpdate(cmp, es, k, v, q); }
        else { UpsertNew(cmp, es, k, v, q); SortedInsert(cmp, es, k, v, q); }
      case RemoveOp(k) =>
        if found { Present(cmp, es, k, q); SortedDelete(cmp, es, q); }
        else { Between(cmp, es, k, q); }
    }
  }

  lemma Locate<K(!new), V>(cmp: (K, K) -> int, es: seq<(K, V)>, k: K) returns (q: nat, found: bool)
    requires TotalOrder(cmp) && Sorted(cmp, es)
    ensures q <= |es| && Below(cmp, es[..q], k)
    ensures found ==> q < |es| && cmp(k, es[q].0) == 0
    ensures !found ==> Above(cmp, es[q..], k)
  {
    q, found := 0, false;
    while q < |es| && cmp(k, es[q].0) > 0
      invariant q <= |es| && Below(cmp, es[..q], k)
    {
      q := q + 1;
    }
    if q < |es| {
      found := cmp(k, es[q].0) == 0;
      if !found { AboveFrom(cmp, es, k, q); }
    }
  }

  /** The bindings after any history are what the last write to each key left. */
  lemma {:induction false} ReplayIsLastWrite<K(!new), V>(cmp: (K, K) -> int, ops: seq<Op<K, V>>, q: K)
    requires TotalOrder(cmp)
    ensures Find(cmp, Replay(cmp, ops), q) == LastWrite(cmp, ops, q)
  {
    if ops != [] {
      var before := ops[..|ops| - 1];
      ReplayIsLastWrite(cmp, before, q);
      SortedReplay(cmp, before);
      match ops[|ops| - 1]
      case PutOp(k, v) => FindUpsert(cmp, Replay(cmp, before), k, v, q);
      case RemoveOp(k) => FindDelete(cmp, Replay(cmp, before), k, q);
      case ClearOp =>
    }
  }
}
