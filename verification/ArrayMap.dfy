/** The small map: up to fourteen bindings in an array, searched from the front. */
module ArrayMaps {
  import opened MapSpec

  const TINY_LIMIT: nat := 14

  class ArrayMap<K(0,!new), V(0)> {
    const equal: (K, K) -> bool
    const values: array<KeyValue<K, V>>
    var size: nat
    ghost var destroyed: multiset<KeyValue<K, V>>  // bindings passed to the destroy functions

    ghost predicate Shaped()
      reads this
    {
      values.Length == TINY_LIMIT && size <= TINY_LIMIT && Equivalence(equal)
    }

    ghost function Bindings(): multiset<KeyValue<K, V>>
      reads this, values
      requires Shaped()
    {
      multiset(values[..size])
    }

    ghost predicate Valid()
      reads this, values
    {
      Shaped() && Distinct(equal, Bindings())
    }

    constructor (equal: (K, K) -> bool)
      requires Equivalence(equal)
      ensures Valid() && Bindings() == multiset{} && destroyed == multiset{} && this.equal == equal && fresh(values)
    {
      this.equal := equal;
      values := new KeyValue<K, V>[TINY_LIMIT];
      size, destroyed := 0, multiset{};
    }

    lemma Facts()
      requires Valid()
      ensures Shaped() && Distinct(equal, Bindings()) && Equivalence(equal)
    {
    }

    lemma Missing(k: K)
      requires Valid() && forall j :: 0 <= j < size ==> !equal(values[j].key, k)
      ensures !Has(equal, Bindings(), k)
    {
      forall e | e in Bindings() ensures !equal(e.key, k) {
        assert e in values[..size];
      }
    }

    /** The index of the binding of `k`, or `size`. */
    method Find(k: K) returns (i: nat)
      requires Valid()
      ensures i <= size
      ensures i < size ==> equal(values[i].key, k) && values[i] in Bindings()
      ensures i == size ==> !Has(equal, Bindings(), k)
    {
      i := 0;
      while i < size
        invariant i <= size && forall j :: 0 <= j < i ==> !equal(values[j].key, k)
      {
        if equal(values[i].key, k) {
          assert values[..size][i] == values[i];
          return;
        }
        i := i + 1;
      }
      Missing(k);
    }

    method Overwrite(i: nat, k: K, v: V)
      requires Shaped() && i < size
      modifies values, this`destroyed
      ensures values[..size] == old(values[..size])[i := KeyValue(k, v)]
      ensures destroyed == old(destroyed) + multiset{old(values[i])}
    {
      destroyed := destroyed + multiset{values[i]};
      values[i] := KeyValue(k, v);
    }

    method Append(k: K, v: V)
      requires Shaped() && size < TINY_LIMIT
      modifies values, this`size
      ensures size == old(size) + 1 && Shaped() && values[..size] == old(values[..size]) + [KeyValue(k, v)]
    {
      values[size] := KeyValue(k, v);
      size := size + 1;
    }

    /** Drops the binding at `i` and moves the later ones down by one. */
    method Shift(i: nat)
      requires Shaped() && i < size
      modifies values, this`size, this`destroyed
      ensures size == old(size) - 1 && Shaped()
      ensures values[..size] == old(values[..size])[..i] + old(values[..size])[i + 1..]
      ensures destroyed == old(destroyed) + multiset{old(values[i])}
    {
      hide Equivalence;
      destroyed := destroyed + multiset{values[i]};
      forall j | i <= j < size - 1 {
        values[j] := values[j + 1];
      }
      size := size - 1;
    }

    /** 0: full, nothing done; 1: the binding of an equal key was replaced; 2: a binding was added. */
    method Insert(k: K, v: V) returns (ret: int)
      requires Valid()
      modifies this, values
      ensures Valid() && ret in {0, 1, 2} && (ret == 0 <==> old(size) == TINY_LIMIT)
      ensures ret == 0 ==> Bindings() == old(Bindings()) && destroyed == old(destroyed)
      ensures ret != 0 ==> (ret == 1 <==> Has(equal, old(Bindings()), k))
      ensures ret != 0 ==> Bindings() == Upsert(equal, old(Bindings()), k, v)
      ensures ret != 0 ==> destroyed == old(destroyed) + Dropped(equal, old(Bindings()), k)
    {
      hide Distinct, Has, Upsert, Dropped, Equivalence;
      if size == TINY_LIMIT {
        return 0;
      }
      var i := Find(k);
      if i < size {
        Found(equal, Bindings(), k, v, values[i]);
        SeqReplace(values[..size], i, KeyValue(k, v));
        Overwrite(i, k, v);
        return 1;
      }
      NotFound(equal, Bindings(), k, v);
      Append(k, v);
      return 2;
    }

    method Remove(k: K) returns (removed: bool)
      requires Valid()
      modifies this, values
      ensures Valid() && (removed <==> Has(equal, old(Bindings()), k))
      ensures Bindings() == Delete(equal, old(Bindings()), k)
      ensures destroyed == old(destroyed) + Dropped(equal, old(Bindings()), k)
    {
      hide Distinct, Has, Delete, Dropped, Equivalence;
      var i := Find(k);
      if i == size {
        NotFound(equal, Bindings(), k, values[0].value);
        return false;
      }
      Found(equal, Bindings(), k, values[0].value, values[i]);
      SeqReplace(values[..size], i, values[i]);
      Shift(i);
      return true;
    }

    method Get(k: K) returns (entry: Option<KeyValue<K, V>>)
      requires Valid()
      ensures entry == if Has(equal, Bindings(), k) then Some(Entry(equal, Bindings(), k)) else None
    {
      var i := Find(k);
      if i < size { EntryIs(equal, Bindings(), k, values[i]); }
      entry := if i < size then Some(values[i]) else None;
    }

    method Clear()
      requires Valid()
      modifies this
      ensures Valid() && Bindings() == multiset{} && destroyed == old(destroyed) + old(Bindings())
    {
      var i := 0;
      while i < size
        invariant i <= size == old(size) && destroyed == old(destroyed) + multiset(values[..i])
      {
        assert values[..i + 1] == values[..i] + [values[i]];
        destroyed := destroyed + multiset{values[i]};
        i := i + 1;
      }
      size := 0;
    }
  }

  class ArrayMapIterator<K(0,!new), V(0)> {
    const map_: ArrayMap<K, V>
    var pos: nat

    ghost predicate Valid()
      reads this, map_, map_.values
    {
      map_.Valid() && pos <= map_.size
    }

    /** The bindings handed out so far. */
    ghost function Seen(): multiset<KeyValue<K, V>>
      reads this, map_, map_.values
      requires Valid()
    {
      multiset(map_.values[..pos])
    }

    constructor (map_: ArrayMap<K, V>)
      requires map_.Valid()
      ensures this.map_ == map_ && Valid() && Seen() == multiset{}
    {
      this.map_, pos := map_, 0;
    }

    method Next() returns (entry: Option<KeyValue<K, V>>)
      requires Valid()
      modifies this
      ensures Valid() && pos >= old(pos)
      ensures entry.Some? ==> Seen() == old(Seen()) + multiset{entry.value} && pos > old(pos)
      ensures entry.None? ==> Seen() == old(Seen()) == map_.Bindings()
    {
      if pos >= map_.size {
        entry := None;
      } else {
        entry := Some(map_.values[pos]);
        assert map_.values[..pos + 1] == map_.values[..pos] + [map_.values[pos]];
        pos := pos + 1;
      }
    }
  }
}
