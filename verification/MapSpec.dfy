/** The abstract value of a map: a bag of bindings in which no key occurs twice.  Keys are
    compared by the map's own equality, so two different key objects may count as one key. */
module MapSpec {
  datatype Option<T> = None | Some(value: T)

  datatype KeyValue<K, V> = KeyValue(key: K, value: V)

  ghost predicate Equivalence<K(!new)>(equal: (K, K) -> bool) {
    && (forall a :: equal(a, a))
    && (forall a, b :: equal(a, b) ==> equal(b, a))
    && (forall a, b, c :: equal(a, b) && equal(b, c) ==> equal(a, c))
  }

  /** The hash function sends equal keys to the same number. */
  ghost predicate Agrees<K(!new)>(hash: K -> nat, equal: (K, K) -> bool) {
    forall a, b :: equal(a, b) ==> hash(a) == hash(b)
  }

  ghost predicate Distinct<K, V>(equal: (K, K) -> bool, bag: multiset<KeyValue<K, V>>) {
    && (forall e :: e in bag ==> bag[e] == 1)
    && (forall e, f :: e in bag && f in bag && equal(e.key, f.key) ==> e == f)
  }

  ghost predicate Has<K, V>(equal: (K, K) -> bool, bag: multiset<KeyValue<K, V>>, k: K) {
    exists e :: e in bag && equal(e.key, k)
  }

  ghost function Entry<K, V>(equal: (K, K) -> bool, bag: multiset<KeyValue<K, V>>, k: K): (e: KeyValue<K, V>)
    requires Has(equal, bag, k)
    ensures e in bag && equal(e.key, k)
  {
    var e :| e in bag && equal(e.key, k);
    e
  }

  ghost function Lookup<K, V>(equal: (K, K) -> bool, bag: multiset<KeyValue<K, V>>, k: K): Option<V> {
    if Has(equal, bag, k) then Some(Entry(equal, bag, k).value) else None
  }

  /** The bag without the binding of `k`, if there is one. */
  ghost function Delete<K, V>(equal: (K, K) -> bool, bag: multiset<KeyValue<K, V>>, k: K): multiset<KeyValue<K, V>> {
    if Has(equal, bag, k) then bag - multiset{Entry(equal, bag, k)} else bag
  }

  ghost function Upsert<K, V>(equal: (K, K) -> bool, bag: multiset<KeyValue<K, V>>, k: K, v: V): multiset<KeyValue<K, V>> {
    Delete(equal, bag, k) + multiset{KeyValue(k, v)}
  }

  /** What an operation on `k` drops from the bag. */
  ghost function Dropped<K, V>(equal: (K, K) -> bool, bag: multiset<KeyValue<K, V>>, k: K): multiset<KeyValue<K, V>> {
    if Has(equal, bag, k) then multiset{Entry(equal, bag, k)} else multiset{}
  }

  /** The entry found by any search is the one and only. */
  lemma EntryIs<K(!new), V>(equal: (K, K) -> bool, bag: multiset<KeyValue<K, V>>, k: K, e: KeyValue<K, V>)
    requires Equivalence(equal) && Distinct(equal, bag) && e in bag && equal(e.key, k)
    ensures Has(equal, bag, k) && Entry(equal, bag, k) == e
  {
    var f := Entry(equal, bag, k);
    assert equal(f.key, k) && equal(k, e.key);
  }

  lemma DistinctDelete<K(!new), V>(equal: (K, K) -> bool, bag: multiset<KeyValue<K, V>>, k: K)
    requires Equivalence(equal) && Distinct(equal, bag)
    ensures Distinct(equal, Delete(equal, bag, k)) && !Has(equal, Delete(equal, bag, k), k)
    ensures Delete(equal, bag, k) + Dropped(equal, bag, k) == bag
    ensures |Delete(equal, bag, k)| == |bag| - if Has(equal, bag, k) then 1 else 0
  {
    if Has(equal, bag, k) {
      var e := Entry(equal, bag, k);
      var rest := Delete(equal, bag, k);
      assert forall f :: f in rest ==> f in bag && rest[f] == 1 && f != e;
      if Has(equal, rest, k) {
        var f := Entry(equal, rest, k);
        EntryIs(equal, bag, k, f);
      }
    }
  }

  /** Adding a binding of a new key. */
  lemma DistinctAdd<K(!new), V>(equal: (K, K) -> bool, bag: multiset<KeyValue<K, V>>, e: KeyValue<K, V>)
    requires Equivalence(equal) && Distinct(equal, bag) && !Has(equal, bag, e.key)
    ensures Distinct(equal, bag + multiset{e})
  {
    var bag' := bag + multiset{e};
    assert equal(e.key, e.key);
    assert e !in bag;
    forall f | f in bag' ensures bag'[f] == 1 {
      assert f == e || f in bag;
    }
    forall f, g | f in bag' && g in bag' && equal(f.key, g.key) ensures f == g {
      assert f == e || f in bag;
      assert g == e || g in bag;
      assert equal(g.key, f.key);
    }
  }

  lemma DistinctUpsert<K(!new), V>(equal: (K, K) -> bool, bag: multiset<KeyValue<K, V>>, k: K, v: V)
    requires Equivalence(equal) && Distinct(equal, bag)
    ensures Distinct(equal, Upsert(equal, bag, k, v))
    ensures Upsert(equal, bag, k, v) + Dropped(equal, bag, k) == bag + multiset{KeyValue(k, v)}
    ensures |Upsert(equal, bag, k, v)| == |bag| + if Has(equal, bag, k) then 0 else 1
  {
    DistinctDelete(equal, bag, k);
    DistinctAdd(equal, Delete(equal, bag, k), KeyValue(k, v));
  }

  /** The operations on the entry `e` that a search found. */
  lemma Found<K(!new), V>(equal: (K, K) -> bool, bag: multiset<KeyValue<K, V>>, k: K, v: V, e: KeyValue<K, V>)
    requires Equivalence(equal) && Distinct(equal, bag) && e in bag && equal(e.key, k)
    ensures Has(equal, bag, k) && Entry(equal, bag, k) == e && Dropped(equal, bag, k) == multiset{e}
    ensures Delete(equal, bag, k) == bag - multiset{e} && Distinct(equal, Delete(equal, bag, k))
    ensures Upsert(equal, bag, k, v) == bag - multiset{e} + multiset{KeyValue(k, v)}
    ensures Distinct(equal, Upsert(equal, bag, k, v))
    ensures |Upsert(equal, bag, k, v)| == |bag| && |Delete(equal, bag, k)| == |bag| - 1
  {
    EntryIs(equal, bag, k, e);
    DistinctDelete(equal, bag, k);
    DistinctUpsert(equal, bag, k, v);
  }

  /** The operations on a key that a search did not find. */
  lemma NotFound<K(!new), V>(equal: (K, K) -> bool, bag: multiset<KeyValue<K, V>>, k: K, v: V)
    requires Equivalence(equal) && Distinct(equal, bag) && !Has(equal, bag, k)
    ensures Dropped(equal, bag, k) == multiset{} && Delete(equal, bag, k) == bag
    ensures Upsert(equal, bag, k, v) == bag + multiset{KeyValue(k, v)} && Distinct(equal, Upsert(equal, bag, k, v))
  {
    DistinctUpsert(equal, bag, k, v);
  }

  lemma SeqReplace<T>(s: seq<T>, i: nat, x: T)
    requires i < |s|
    ensures s[i] in s && multiset(s[i := x]) == multiset(s) - multiset{s[i]} + multiset{x}
    ensures multiset(s[..i] + s[i + 1..]) == multiset(s) - multiset{s[i]}
  {
    assert s == s[..i] + [s[i]] + s[i + 1..];
    assert s[i := x] == s[..i] + [x] + s[i + 1..];
  }

  // ----- the bag behaves as a map -----

  lemma LookupElsewhere<K(!new), V>(equal: (K, K) -> bool, bag: multiset<KeyValue<K, V>>, k: K, q: K)
    requires Equivalence(equal) && Distinct(equal, bag) && !equal(q, k)
    ensures Has(equal, Delete(equal, bag, k), q) <==> Has(equal, bag, q)
    ensures Lookup(equal, Delete(equal, bag, k), q) == Lookup(equal, bag, q)
  {
    DistinctDelete(equal, bag, k);
    var rest := Delete(equal, bag, k);
    if Has(equal, bag, q) {
      var e := Entry(equal, bag, q);
      assert equal(q, e.key);
      assert !equal(e.key, k);
      assert e in rest;
      EntryIs(equal, rest, q, e);
    } else {
      assert forall e :: e in rest ==> e in bag;
    }
  }

  lemma LookupUpsert<K(!new), V>(equal: (K, K) -> bool, bag: multiset<KeyValue<K, V>>, k: K, v: V, q: K)
    requires Equivalence(equal) && Distinct(equal, bag)
    ensures Lookup(equal, Upsert(equal, bag, k, v), q) == if equal(q, k) then Some(v) else Lookup(equal, bag, q)
  {
    DistinctUpsert(equal, bag, k, v);
    var rest, bag' := Delete(equal, bag, k), Upsert(equal, bag, k, v);
    if equal(q, k) {
      assert equal(k, q);
      EntryIs(equal, bag', q, KeyValue(k, v));
    } else {
      assert !equal(k, q);
      LookupElsewhere(equal, bag, k, q);
      assert forall e :: e in bag' ==> e in rest || e == KeyValue(k, v);
      if Has(equal, rest, q) {
        DistinctDelete(equal, bag, k);
        EntryIs(equal, bag', q, Entry(equal, rest, q));
      }
    }
  }

  lemma LookupDelete<K(!new), V>(equal: (K, K) -> bool, bag: multiset<KeyValue<K, V>>, k: K, q: K)
    requires Equivalence(equal) && Distinct(equal, bag)
    ensures Lookup(equal, Delete(equal, bag, k), q) == if equal(q, k) then None else Lookup(equal, bag, q)
  {
    DistinctDelete(equal, bag, k);
    if equal(q, k) {
      forall e | e in Delete(equal, bag, k) ensures !equal(e.key, q) {
        assert !equal(e.key, k);
      }
    } else {
      LookupElsewhere(equal, bag, k, q);
    }
  }

  // ----- key sets -----

  ghost predicate KeysIn<K, V>(equal: (K, K) -> bool, a: multiset<KeyValue<K, V>>, b: multiset<KeyValue<K, V>>) {
    forall e :: e in a ==> Has(equal, b, e.key)
  }

  /** Dropping one key on both sides keeps an inclusion of key sets. */
  lemma InclusionStep<K(!new), V>(equal: (K, K) -> bool, a: multiset<KeyValue<K, V>>, b: multiset<KeyValue<K, V>>, k: K)
    requires Equivalence(equal) && Distinct(equal, a) && Distinct(equal, b) && KeysIn(equal, a, b)
    ensures KeysIn(equal, Delete(equal, a, k), Delete(equal, b, k))
  {
    DistinctDelete(equal, a, k);
    forall g | g in Delete(equal, a, k) ensures Has(equal, Delete(equal, b, k), g.key) {
      assert g in a;
      assert !equal(g.key, k);
      LookupElsewhere(equal, b, k, g.key);
    }
  }

  /** An inclusion of key sets after dropping a key that both have was one before. */
  lemma InclusionBack<K(!new), V>(equal: (K, K) -> bool, a: multiset<KeyValue<K, V>>, b: multiset<KeyValue<K, V>>, k: K)
    requires Equivalence(equal) && Distinct(equal, a) && Distinct(equal, b) && Has(equal, a, k) && Has(equal, b, k)
    requires KeysIn(equal, Delete(equal, a, k), Delete(equal, b, k))
    ensures KeysIn(equal, a, b)
  {
    forall g | g in a ensures Has(equal, b, g.key) {
      if g == Entry(equal, a, k) {
        assert equal(Entry(equal, b, k).key, g.key);
      } else {
        assert g in Delete(equal, a, k);
        assert Entry(equal, Delete(equal, b, k), g.key) in b;
      }
    }
  }

  /** One inclusion between key sets bounds the counts, and with equal counts gives the other. */
  lemma {:induction false} Inclusion<K(!new), V>(equal: (K, K) -> bool, a: multiset<KeyValue<K, V>>, b: multiset<KeyValue<K, V>>)
    requires Equivalence(equal) && Distinct(equal, a) && Distinct(equal, b) && KeysIn(equal, a, b)
    ensures |a| <= |b|
    ensures |a| == |b| ==> KeysIn(equal, b, a)
    decreases |a|
  {
    if a != multiset{} {
      var e :| e in a;
      var k := e.key;
      assert Has(equal, a, k) && Has(equal, b, k);
      DistinctDelete(equal, a, k);
      DistinctDelete(equal, b, k);
      InclusionStep(equal, a, b, k);
      Inclusion(equal, Delete(equal, a, k), Delete(equal, b, k));
      if |a| == |b| {
        InclusionBack(equal, b, a, k);
      }
    }
  }

  // ----- histories -----

  datatype Op<K, V> = InsertOp(key: K, value: V) | RemoveOp(key: K) | ClearOp

  ghost function Apply<K, V>(equal: (K, K) -> bool, bag: multiset<KeyValue<K, V>>, op: Op<K, V>): multiset<KeyValue<K, V>> {
    match op
    case InsertOp(k, v) => Upsert(equal, bag, k, v)
    case RemoveOp(k) => Delete(equal, bag, k)
    case ClearOp => multiset{}
  }

  ghost function Replay<K, V>(equal: (K, K) -> bool, ops: seq<Op<K, V>>): multiset<KeyValue<K, V>> {
    if ops == [] then multiset{} else Apply(equal, Replay(equal, ops[..|ops| - 1]), ops[|ops| - 1])
  }

  function LastWrite<K, V>(equal: (K, K) -> bool, ops: seq<Op<K, V>>, q: K): Option<V> {
    if ops == [] then None
    else match ops[|ops| - 1]
      case InsertOp(k, v) => if equal(q, k) then Some(v) else LastWrite(equal, ops[..|ops| - 1], q)
      case RemoveOp(k) => if equal(q, k) then None else LastWrite(equal, ops[..|ops| - 1], q)
      case ClearOp => None
  }

  /** The bindings handed over by a history. */
  ghost function Handed<K, V>(ops: seq<Op<K, V>>): multiset<KeyValue<K, V>> {
    if ops == [] then multiset{}
    else match ops[|ops| - 1]
      case InsertOp(k, v) => Handed(ops[..|ops| - 1]) + multiset{KeyValue(k, v)}
      case _ => Handed(ops[..|ops| - 1])
  }

  lemma {:induction false} DistinctReplay<K(!new), V>(equal: (K, K) -> bool, ops: seq<Op<K, V>>)
    requires Equivalence(equal)
    ensures Distinct(equal, Replay(equal, ops))
  {
    if ops != [] {
      var before := ops[..|ops| - 1];
      DistinctReplay(equal, before);
      match ops[|ops| - 1]
      case InsertOp(k, v) => DistinctUpsert(equal, Replay(equal, before), k, v);
      case RemoveOp(k) => DistinctDelete(equal, Replay(equal, before), k);
      case ClearOp =>
    }
  }

  /** After any history a key is bound to what the last write to it left. */
  lemma {:induction false} ReplayIsLastWrite<K(!new), V>(equal: (K, K) -> bool, ops: seq<Op<K, V>>, q: K)
    requires Equivalence(equal)
    ensures Lookup(equal, Replay(equal, ops), q) == LastWrite(equal, ops, q)
  {
    if ops != [] {
      var before := ops[..|ops| - 1];
      ReplayIsLastWrite(equal, before, q);
      DistinctReplay(equal, before);
      match ops[|ops| - 1]
      case InsertOp(k, v) => LookupUpsert(equal, Replay(equal, before), k, v, q);
      case RemoveOp(k) => LookupDelete(equal, Replay(equal, before), k, q);
      case ClearOp =>
    }
  }
}
