/** The map: an array while it is small, a hash table from then on. */
module Maps {
  import opened MapSpec
  import opened ArrayMaps
  import opened HashMaps

  const DEFAULT_HASHMAP_INIT_SIZE: nat := 128

  class Map<K(0,!new), V(0)> {
    const equal: (K, K) -> bool
    var hash: Option<K -> nat>  // the flag "still an array" as well
    var arraymap: ArrayMap?<K, V>
    var hashmap: HashMap?<K, V>
    ghost var before: multiset<KeyValue<K, V>>  // destroyed while the map was an array
    ghost var repr: set<object>

    ghost predicate Valid()
      reads this, repr
    {
      && this in repr
      && if hash.Some?
         then && arraymap != null && arraymap in repr && arraymap.values in repr
              && arraymap.Valid() && arraymap.equal == equal && Agrees(hash.value, equal) && before == multiset{}
         else && hashmap != null && hashmap in repr && hashmap.buckets in repr
              && hashmap.Valid() && hashmap.equal == equal
    }

    ghost function Bindings(): multiset<KeyValue<K, V>>
      reads this, repr
      requires Valid()
    {
      if hash.Some? then arraymap.Bindings() else hashmap.Bindings()
    }

    /** The bindings whose key and value went to the destroy functions. */
    ghost function Destroyed(): multiset<KeyValue<K, V>>
      reads this, repr
      requires Valid()
    {
      before + if hash.Some? then arraymap.destroyed else hashmap.destroyed
    }

    lemma KeysDistinct()
      requires Valid()
      ensures Distinct(equal, Bindings()) && Equivalence(equal)
    {
    }

    constructor (hash: K -> nat, equal: (K, K) -> bool)
      requires Equivalence(equal) && Agrees(hash, equal)
      ensures Valid() && fresh(repr) && this.equal == equal
      ensures Bindings() == multiset{} && Destroyed() == multiset{}
    {
      var a := new ArrayMap<K, V>(equal);
      this.equal, this.hash, arraymap, hashmap := equal, Some(hash), a, null;
      before, repr := multiset{}, {this, a, a.values};
    }

    method Size() returns (n: nat)
      requires Valid()
      ensures n == |Bindings()|
    {
      if hash.Some? {
        n := arraymap.size;
      } else {
        n := hashmap.load;
      }
    }

    method ConvertToHashMap()
      requires Valid() && hash.Some?
      modifies this
      ensures Valid() && hash.None? && fresh(repr - old(repr))
      ensures Bindings() == old(Bindings()) && Destroyed() == old(Destroyed())
    {
      hide HashMap.Valid, ArrayMap.Valid, Equivalence, Agrees;
      arraymap.Facts();
      var h := new HashMap<K, V>(hash.value, equal, DEFAULT_HASHMAP_INIT_SIZE);
      FillFrom(h, arraymap);
      before := arraymap.destroyed;
      hashmap, hash := h, None;
      repr := repr + {h, h.buckets};
    }

    static method FillFrom(h: HashMap<K, V>, a: ArrayMap<K, V>)
      requires h.Valid() && a.Valid() && h.Bindings() == multiset{} && h.equal == a.equal && h.destroyed == multiset{}
      requires {h as object, h.buckets} !! {a as object, a.values}
      modifies h, h.buckets
      ensures h.Valid() && (h.buckets == old(h.buckets) || fresh(h.buckets))
      ensures h.Bindings() == a.Bindings() && h.destroyed == multiset{}
    {
      hide HashMap.Valid, ArrayMap.Valid, Distinct, Has, Upsert, Dropped, Delete, Equivalence;
      a.Facts();
      ghost var av := a.values[..a.size];
      for i := 0 to a.size
        invariant h.Valid() && (h.buckets == old(h.buckets) || fresh(h.buckets))
        invariant i <= a.size <= a.values.Length && a.values[..a.size] == av
        invariant h.Bindings() == multiset(av[..i]) && h.destroyed == multiset{}
      {
        NewToPrefix(a.equal, av, i);
        assert a.values[i] == a.values[..a.size][i];
        var replaced := h.Insert(a.values[i].key, a.values[i].value);
        assert av[..i + 1] == av[..i] + [av[i]];
      }
      assert av[..a.size] == av;
    }

    method Insert(k: K, v: V) returns (replaced: bool)
      requires Valid()
      modifies repr
      ensures Valid() && fresh(repr - old(repr))
      ensures replaced <==> Has(equal, old(Bindings()), k)
      ensures Bindings() == Upsert(equal, old(Bindings()), k, v)
      ensures Destroyed() == old(Destroyed()) + Dropped(equal, old(Bindings()), k)
    {
      hide HashMap.Valid, ArrayMap.Valid, HashMap.Bindings, ArrayMap.Bindings, Equivalence, Agrees, Upsert, Has, Dropped;
      hide InsertSize;
      if hash.Some? {
        var ret := arraymap.Insert(k, v);
        if ret != 0 {
          return ret == 1;
        }
        ConvertToHashMap();
      }
      replaced := HashInsert(k, v);
    }

    method HashInsert(k: K, v: V) returns (replaced: bool)
      requires Valid() && hash.None?
      modifies repr
      ensures Valid() && fresh(repr - old(repr))
      ensures replaced <==> Has(equal, old(Bindings()), k)
      ensures Bindings() == Upsert(equal, old(Bindings()), k, v)
      ensures Destroyed() == old(Destroyed()) + Dropped(equal, old(Bindings()), k)
    {
      hide HashMap.Valid, ArrayMap.Valid, Equivalence, Agrees, Upsert, Has, Dropped;
      replaced := hashmap.Insert(k, v);
      repr := repr + {hashmap.buckets};
    }

    method Remove(k: K) returns (removed: bool)
      requires Valid()
      modifies repr
      ensures Valid() && fresh(repr - old(repr))
      ensures removed <==> Has(equal, old(Bindings()), k)
      ensures Bindings() == Delete(equal, old(Bindings()), k)
      ensures Destroyed() == old(Destroyed()) + Dropped(equal, old(Bindings()), k)
    {
      hide HashMap.Valid, ArrayMap.Valid, Equivalence, Agrees, Delete, Has, Dropped;
      if hash.Some? {
        removed := arraymap.Remove(k);
      } else {
        removed := hashmap.Remove(k);
        repr := repr + {hashmap.buckets};
      }
    }

    method Get(k: K) returns (v: Option<V>)
      requires Valid()
      ensures v == Lookup(equal, Bindings(), k)
    {
      hide HashMap.Valid, ArrayMap.Valid, Equivalence, Agrees, Has;
      var entry;
      if hash.Some? {
        entry := arraymap.Get(k);
      } else {
        entry := hashmap.Get(k);
      }
      v := if entry.Some? then Some(entry.value.value) else None;
    }

    method Clear()
      requires Valid()
      modifies repr
      ensures Valid() && fresh(repr - old(repr))
      ensures Bindings() == multiset{} && Destroyed() == old(Destroyed()) + old(Bindings())
    {
      hide HashMap.Valid, ArrayMap.Valid, Equivalence, Agrees;
      if hash.Some? {
        arraymap.Clear();
      } else {
        hashmap.Clear();
      }
    }
  }

  /** An iterator over either representation. */
  class MapIterator<K(0,!new), V(0)> {
    const map_: Map<K, V>
    const arrayIter: ArrayMapIterator?<K, V>
    const hashIter: HashMapIterator?<K, V>

    ghost predicate Valid()
      reads this, map_, map_.repr, arrayIter, hashIter
    {
      && map_.Valid()
      && if map_.hash.Some? then arrayIter != null && arrayIter.map_ == map_.arraymap && arrayIter.Valid()
         else hashIter != null && hashIter.map_ == map_.hashmap && hashIter.Valid()
    }

    /** The bindings handed out so far. */
    ghost function Seen(): multiset<KeyValue<K, V>>
      reads this, map_, map_.repr, arrayIter, hashIter
      requires Valid()
    {
      if map_.hash.Some? then arrayIter.Seen() else hashIter.seen
    }

    constructor (map_: Map<K, V>)
      requires map_.Valid()
      ensures this.map_ == map_ && Valid() && Seen() == multiset{}
      ensures arrayIter != null ==> fresh(arrayIter)
      ensures hashIter != null ==> fresh(hashIter)
    {
      hide HashMap.Valid, ArrayMap.Valid;
      this.map_ := map_;
      if map_.hash.Some? {
        arrayIter := new ArrayMapIterator(map_.arraymap);
        hashIter := null;
      } else {
        arrayIter := null;
        hashIter := new HashMapIterator(map_.hashmap);
      }
    }

    lemma SeenWithin()
      requires Valid()
      ensures Seen() <= map_.Bindings()
    {
      if map_.hash.Some? {
        var all, n := map_.arraymap.values[..map_.arraymap.size], arrayIter.pos;
        assert map_.arraymap.values[..n] == all[..n] && all == all[..n] + all[n..];
      }
    }

    method Next() returns (entry: Option<KeyValue<K, V>>)
      requires Valid() && arrayIter !in map_.repr && hashIter !in map_.repr
      modifies arrayIter, hashIter
      ensures Valid()
      ensures entry.Some? ==> Seen() == old(Seen()) + multiset{entry.value}
      ensures entry.None? ==> Seen() == old(Seen()) == map_.Bindings()
    {
      hide HashMap.Valid, ArrayMap.Valid;
      if map_.hash.Some? {
        entry := arrayIter.Next();
      } else {
        entry := hashIter.Next();
      }
    }
  }

  /** True exactly when every key of one map is a key of the other and the other way round. */
  method ContainsSameKeys<K(0,!new), V(0)>(map1: Map<K, V>, map2: Map<K, V>) returns (same: bool)
    requires map1.Valid() && map2.Valid() && map1.equal == map2.equal
    ensures same <==> forall k :: Has(map1.equal, map1.Bindings(), k) <==> Has(map1.equal, map2.Bindings(), k)
  {
    hide Map.Valid, MapIterator.Valid, Has, Distinct, Equivalence, KeysIn;
    ghost var b1, b2, equal := map1.Bindings(), map2.Bindings(), map1.equal;
    map1.KeysDistinct();
    map2.KeysDistinct();
    var i := new MapIterator(map1);
    same := CountKeys(i, map1, map2);
    SameKeys(equal, b1, b2);
  }

  /** One step of an iteration over `map1`, leaving both maps as they were. */
  method Advance<K(0,!new), V(0)>(i: MapIterator<K, V>, map1: Map<K, V>, map2: Map<K, V>) returns (item: Option<KeyValue<K, V>>)
    requires map1.Valid() && map2.Valid() && i.Valid() && i.map_ == map1
    requires i.arrayIter !in map1.repr + map2.repr && i.hashIter !in map1.repr + map2.repr
    modifies i.arrayIter, i.hashIter
    ensures map1.Valid() && map2.Valid() && i.Valid()
    ensures map1.Bindings() == old(map1.Bindings()) && map2.Bindings() == old(map2.Bindings())
    ensures item.Some? ==> i.Seen() == old(i.Seen()) + multiset{item.value} <= map1.Bindings()
    ensures item.None? ==> old(i.Seen()) == map1.Bindings()
  {
    hide Map.Valid, MapIterator.Valid, MapIterator.Seen, Map.Bindings;
    item := i.Next();
    i.SeenWithin();
  }

  /** One entry of `map1` looked up in `map2`, and the step to the next. */
  method LookUpNext<K(0,!new), V(0)>(i: MapIterator<K, V>, map1: Map<K, V>, map2: Map<K, V>, entry: KeyValue<K, V>,
                                     ghost seen: multiset<KeyValue<K, V>>)
    returns (found: bool, item: Option<KeyValue<K, V>>)
    requires map1.Valid() && map2.Valid() && i.Valid() && i.map_ == map1
    requires i.arrayIter !in map1.repr + map2.repr && i.hashIter !in map1.repr + map2.repr
    requires i.Seen() == seen + multiset{entry} <= map1.Bindings() && KeysIn(map2.equal, seen, map2.Bindings())
    modifies i.arrayIter, i.hashIter
    ensures map1.Valid() && map2.Valid() && i.Valid()
    ensures map1.Bindings() == old(map1.Bindings()) && map2.Bindings() == old(map2.Bindings())
    ensures |seen + multiset{entry}| == |seen| + 1 <= |map1.Bindings()|
    ensures found <==> KeysIn(map2.equal, seen + multiset{entry}, map2.Bindings())
    ensures !found ==> !KeysIn(map2.equal, map1.Bindings(), map2.Bindings())
    ensures found ==> if item.Some? then i.Seen() == seen + multiset{entry} + multiset{item.value} <= map1.Bindings()
                      else seen + multiset{entry} == map1.Bindings()
  {
    hide Map.Valid, MapIterator.Valid, MapIterator.Seen, Map.Bindings, Equivalence, KeysIn, Has, Lookup;
    CountStep(map2.equal, seen, map1.Bindings(), map2.Bindings(), entry);
    var value := map2.Get(entry.key);
    if value.None? {
      return false, None;
    }
    found := true;
    item := Advance(i, map1, map2);
  }

  method CountKeys<K(0,!new), V(0)>(i: MapIterator<K, V>, map1: Map<K, V>, map2: Map<K, V>) returns (same: bool)
    requires map1.Valid() && map2.Valid() && i.Valid() && i.map_ == map1 && i.Seen() == multiset{}
    requires i.arrayIter !in map1.repr + map2.repr && i.hashIter !in map1.repr + map2.repr
    modifies i.arrayIter, i.hashIter
    ensures same <==> KeysIn(map2.equal, map1.Bindings(), map2.Bindings()) && |map1.Bindings()| == |map2.Bindings()|
  {
    hide Map.Valid, MapIterator.Valid, MapIterator.Seen, Map.Bindings, Equivalence, KeysIn, Has, Lookup;
    ghost var b1, b2 := map1.Bindings(), map2.Bindings();
    ghost var seen: multiset<KeyValue<K, V>> := multiset{};
    NoKeysIn(map2.equal, b2);
    var item := Advance(i, map1, map2);
    var count := 0;
    while item.Some?
      invariant map1.Valid() && map2.Valid() && i.Valid() && map1.Bindings() == b1 && map2.Bindings() == b2
      invariant count == |seen| <= |b1| && KeysIn(map2.equal, seen, b2)
      invariant if item.Some? then i.Seen() == seen + multiset{item.value} <= b1 else seen == b1
      decreases |b1| - |seen|
    {
      count := count + 1;
      var found;
      ghost var next := seen + multiset{item.value};
      found, item := LookUpNext(i, map1, map2, item.value, seen);
      if !found {
        return false;
      }
      seen := next;
    }
    var n := map2.Size();
    same := count == n;
  }

  lemma NoKeysIn<K(!new), V>(equal: (K, K) -> bool, b: multiset<KeyValue<K, V>>)
    ensures KeysIn(equal, multiset{}, b)
  {
  }

  /** One more binding `e` of `all` counted. */
  lemma CountStep<K(!new), V>(equal: (K, K) -> bool, seen: multiset<KeyValue<K, V>>, all: multiset<KeyValue<K, V>>,
                              b: multiset<KeyValue<K, V>>, e: KeyValue<K, V>)
    requires KeysIn(equal, seen, b) && seen + multiset{e} <= all
    ensures |seen + multiset{e}| == |seen| + 1 <= |all|
    ensures KeysIn(equal, seen + multiset{e}, b) <==> Lookup(equal, b, e.key).Some?
    ensures Lookup(equal, b, e.key).None? ==> !KeysIn(equal, all, b)
  {
    assert e in seen + multiset{e};
    assert all == seen + multiset{e} + (all - (seen + multiset{e}));
  }

  lemma SameKeys<K(!new), V>(equal: (K, K) -> bool, a: multiset<KeyValue<K, V>>, b: multiset<KeyValue<K, V>>)
    requires Equivalence(equal) && Distinct(equal, a) && Distinct(equal, b)
    ensures KeysIn(equal, a, b) && |a| == |b| <==> forall k :: Has(equal, a, k) <==> Has(equal, b, k)
  {
    hide Has, KeysIn, Distinct, Equivalence;
    if forall k :: Has(equal, a, k) <==> Has(equal, b, k) {
      OwnKeys(equal, a, b);
      OwnKeys(equal, b, a);
      Inclusion(equal, a, b);
      Inclusion(equal, b, a);
    }
    if KeysIn(equal, a, b) && |a| == |b| {
      Inclusion(equal, a, b);
      forall k ensures Has(equal, a, k) <==> Has(equal, b, k) {
        if Has(equal, a, k) {
          Carry(equal, a, b, k);
        } else if Has(equal, b, k) {
          Carry(equal, b, a, k);
        }
      }
    }
  }

  lemma OwnKeys<K(!new), V>(equal: (K, K) -> bool, a: multiset<KeyValue<K, V>>, b: multiset<KeyValue<K, V>>)
    requires Equivalence(equal) && forall k :: Has(equal, a, k) <==> Has(equal, b, k)
    ensures KeysIn(equal, a, b)
  {
    forall e | e in a ensures Has(equal, b, e.key) {
      assert equal(e.key, e.key);
      assert Has(equal, a, e.key);
    }
  }

  lemma Carry<K(!new), V>(equal: (K, K) -> bool, a: multiset<KeyValue<K, V>>, b: multiset<KeyValue<K, V>>, k: K)
    requires Equivalence(equal) && KeysIn(equal, a, b) && Has(equal, a, k)
    ensures Has(equal, b, k)
  {
    var e := Entry(equal, a, k);
    var f := Entry(equal, b, e.key);
    assert equal(f.key, e.key) && equal(e.key, k);
  }

  method Do<K(0,!new), V(0)>(m: Map<K, V>, op: Op<K, V>)
    requires m.Valid()
    modifies m.repr
    ensures m.Valid() && fresh(m.repr - old(m.repr)) && m.Bindings() == Apply(m.equal, old(m.Bindings()), op)
    ensures m.Bindings() + m.Destroyed() == old(m.Bindings() + m.Destroyed()) + Handed([op])
  {
    hide Map.Valid, Map.Bindings, Map.Destroyed, Upsert, Delete, Dropped, Equivalence, Distinct;
    m.KeysDistinct();
    assert [op][..0] == [];
    ghost var b, d := m.Bindings(), m.Destroyed();
    match op
    case InsertOp(k, v) =>
      DistinctUpsert(m.equal, m.Bindings(), k, v);
      var replaced := m.Insert(k, v);
      assert m.Bindings() + m.Destroyed() == (Upsert(m.equal, b, k, v) + Dropped(m.equal, b, k)) + d;
    case RemoveOp(k) =>
      DistinctDelete(m.equal, m.Bindings(), k);
      var removed := m.Remove(k);
      assert m.Bindings() + m.Destroyed() == (Delete(m.equal, b, k) + Dropped(m.equal, b, k)) + d;
    case ClearOp =>
      m.Clear();
  }

  /** Any history of operations on a new map: it holds what one mathematical map would, and every
      binding handed over is either stored or destroyed, once. */
  method Run<K(0,!new), V(0)>(hash: K -> nat, equal: (K, K) -> bool, ops: seq<Op<K, V>>) returns (m: Map<K, V>)
    requires Equivalence(equal) && Agrees(hash, equal)
    ensures m.Valid() && m.equal == equal && m.Bindings() == Replay(equal, ops)
    ensures m.Bindings() + m.Destroyed() == Handed(ops)
  {
    hide Map.Valid, Apply, Equivalence, Agrees;
    m := new Map(hash, equal);
    for i := 0 to |ops|
      invariant m.Valid() && m.equal == equal && fresh(m.repr)
      invariant m.Bindings() == Replay(equal, ops[..i]) && m.Bindings() + m.Destroyed() == Handed(ops[..i])
    {
      assert ops[..i + 1][..i] == ops[..i] && [ops[i]][..0] == [];
      Do(m, ops[i]);
    }
    assert ops[..|ops|] == ops;
  }

  /** In a list of distinct bindings the one at `i` is new to the ones before it. */
  lemma NewToPrefix<K(!new), V>(equal: (K, K) -> bool, s: seq<KeyValue<K, V>>, i: nat)
    requires Equivalence(equal) && i < |s| && Distinct(equal, multiset(s))
    ensures var bag, e := multiset(s[..i]), s[i];
            && Dropped(equal, bag, e.key) == multiset{}
            && Upsert(equal, bag, e.key, e.value) == bag + multiset{e}
  {
    var bag, e := multiset(s[..i]), s[i];
    assert s == s[..i] + [e] + s[i + 1..];
    assert multiset(s) == bag + multiset{e} + multiset(s[i + 1..]);
    assert e in multiset(s) && multiset(s)[e] == 1;
    assert e !in bag;
    assert forall f :: f in bag ==> f in multiset(s) && f != e;
    assert !Has(equal, bag, e.key);
    assert KeyValue(e.key, e.value) == e;
  }
}
