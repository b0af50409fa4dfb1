/** The hash table: chains of bindings in a power-of-two number of buckets. */
module HashMaps {
  import opened Bits
  import opened MapSpec

  const MAX_HASHMAP_BUCKETS: nat := 0x4000_0000
  const MIN_HASHMAP_BUCKETS: nat := 32

  /** All the bindings of a list of chains. */
  ghost function Flat<K, V>(chains: seq<seq<KeyValue<K, V>>>): multiset<KeyValue<K, V>> {
    if chains == [] then multiset{} else multiset(chains[0]) + Flat(chains[1..])
  }

  lemma {:induction false} FlatUpdate<K, V>(chains: seq<seq<KeyValue<K, V>>>, i: nat, chain: seq<KeyValue<K, V>>)
    requires i < |chains|
    ensures Flat(chains[i := chain]) + multiset(chains[i]) == Flat(chains) + multiset(chain)
  {
    if i > 0 {
      FlatUpdate(chains[1..], i - 1, chain);
      assert chains[i := chain][1..] == chains[1..][i - 1 := chain];
      var first, rest, rest' := multiset(chains[0]), Flat(chains[1..]), Flat(chains[1..][i - 1 := chain]);
      assert first + rest' + multiset(chains[i]) == first + (rest' + multiset(chains[i]));
      assert first + (rest + multiset(chain)) == first + rest + multiset(chain);
    } else {
      assert chains[i := chain][1..] == chains[1..];
    }
  }

  lemma {:induction false} FlatIn<K, V>(chains: seq<seq<KeyValue<K, V>>>, e: KeyValue<K, V>)
    ensures e in Flat(chains) <==> exists i :: 0 <= i < |chains| && e in chains[i]
  {
    if chains != [] {
      FlatIn(chains[1..], e);
      assert forall i :: 0 < i < |chains| ==> chains[i] == chains[1..][i - 1];
      if e in chains[0] {
      } else if e in Flat(chains[1..]) {
        var i :| 0 <= i < |chains[1..]| && e in chains[1..][i];
        assert e in chains[i + 1];
      }
    }
  }

  lemma {:induction false} FlatEmpty<K, V>(chains: seq<seq<KeyValue<K, V>>>)
    requires forall i :: 0 <= i < |chains| ==> chains[i] == []
    ensures Flat(chains) == multiset{}
  {
    if chains != [] { FlatEmpty(chains[1..]); }
  }

  /** Every binding is in the bucket its hash names. */
  ghost predicate Placed<K, V>(chains: seq<seq<KeyValue<K, V>>>, hash: K -> nat) {
    forall i, j :: 0 <= i < |chains| && 0 <= j < |chains[i]| ==> hash(chains[i][j].key) % |chains| == i
  }

  lemma PlacedEmpty<K, V>(chains: seq<seq<KeyValue<K, V>>>, hash: K -> nat)
    requires forall i :: 0 <= i < |chains| ==> chains[i] == []
    ensures Placed(chains, hash)
  {
  }

  /** A chain extended at its front. */
  lemma Pushed<K, V>(chains: seq<seq<KeyValue<K, V>>>, hash: K -> nat, b: nat, item: KeyValue<K, V>)
    requires b < |chains| && Placed(chains, hash) && hash(item.key) % |chains| == b
    ensures Placed(chains[b := [item] + chains[b]], hash)
    ensures Flat(chains[b := [item] + chains[b]]) == Flat(chains) + multiset{item}
  {
    hide Flat;
    FlatUpdate(chains, b, [item] + chains[b]);
    assert multiset([item] + chains[b]) == multiset{item} + multiset(chains[b]);
    Cancel(Flat(chains[b := [item] + chains[b]]), Flat(chains) + multiset{item}, multiset(chains[b]));
  }

  lemma Cancel<T>(a: multiset<T>, b: multiset<T>, c: multiset<T>)
    requires a + c == b + c
    ensures a == b
  {
    forall x ensures a[x] == b[x] {
      assert (a + c)[x] == (b + c)[x];
    }
  }

  /** A chain that keeps to its bucket. */
  lemma Rechained<K, V>(chains: seq<seq<KeyValue<K, V>>>, hash: K -> nat, b: nat, chain: seq<KeyValue<K, V>>)
    requires b < |chains| && Placed(chains, hash)
    requires forall j :: 0 <= j < |chain| ==> hash(chain[j].key) % |chains| == b
    ensures Placed(chains[b := chain], hash)
    ensures Flat(chains[b := chain]) == Flat(chains) - multiset(chains[b]) + multiset(chain)
  {
    hide Flat;
    FlatUpdate(chains, b, chain);
    FlatSplit(chains, b);
    Cancel(Flat(chains[b := chain]), Flat(chains) - multiset(chains[b]) + multiset(chain), multiset(chains[b]));
  }

  lemma {:induction false} FlatSplit<K, V>(chains: seq<seq<KeyValue<K, V>>>, i: nat)
    requires i < |chains|
    ensures Flat(chains[i..]) == multiset(chains[i]) + Flat(chains[i + 1..])
    ensures multiset(chains[i]) <= Flat(chains)
    decreases i
  {
    assert chains[i..][1..] == chains[i + 1..];
    if i > 0 {
      FlatSplit(chains[1..], i - 1);
    } else {
      assert chains[0..] == chains;
    }
  }

  /** Replacing, in its chain, the binding a search for `k` found. */
  lemma ReplacedIn<K(!new), V>(chains: seq<seq<KeyValue<K, V>>>, hash: K -> nat, equal: (K, K) -> bool, b: nat, i: nat, k: K, v: V)
    requires b < |chains| && Placed(chains, hash) && hash(k) % |chains| == b && i < |chains[b]|
    requires Equivalence(equal) && Distinct(equal, Flat(chains)) && equal(chains[b][i].key, k)
    ensures var chains', bag := chains[b := chains[b][i := KeyValue(k, v)]], Flat(chains);
            && Placed(chains', hash) && Flat(chains') == Upsert(equal, bag, k, v) && Distinct(equal, Flat(chains'))
            && |Flat(chains')| == |bag| && Has(equal, bag, k) && Dropped(equal, bag, k) == multiset{chains[b][i]}
  {
    hide Flat, Distinct, Equivalence, Has, Upsert, Dropped, Delete;
    var chain, e := chains[b], chains[b][i];
    FlatSplit(chains, b);
    Found(equal, Flat(chains), k, v, e);
    SeqReplace(chain, i, KeyValue(k, v));
    Rechained(chains, hash, b, chain[i := KeyValue(k, v)]);
    Exchange(Flat(chains), multiset(chain), e, multiset{KeyValue(k, v)});
  }

  /** Unlinking, from its chain, the binding a search for `k` found. */
  lemma DroppedFrom<K(!new), V>(chains: seq<seq<KeyValue<K, V>>>, hash: K -> nat, equal: (K, K) -> bool, b: nat, i: nat, k: K)
    requires b < |chains| && Placed(chains, hash) && i < |chains[b]|
    requires Equivalence(equal) && Distinct(equal, Flat(chains)) && equal(chains[b][i].key, k)
    ensures var chains', bag := chains[b := chains[b][..i] + chains[b][i + 1..]], Flat(chains);
            && Placed(chains', hash) && Flat(chains') == Delete(equal, bag, k) && Distinct(equal, Flat(chains'))
            && |Flat(chains')| == |bag| - 1 && Has(equal, bag, k) && Dropped(equal, bag, k) == multiset{chains[b][i]}
  {
    hide Flat, Distinct, Equivalence, Has, Upsert, Dropped, Delete;
    var chain, e := chains[b], chains[b][i];
    FlatSplit(chains, b);
    Found(equal, Flat(chains), k, e.value, e);
    SeqReplace(chain, i, e);
    Rechained(chains, hash, b, chain[..i] + chain[i + 1..]);
    Exchange(Flat(chains), multiset(chain), e, multiset{});
  }

  lemma Exchange<T>(all: multiset<T>, part: multiset<T>, x: T, y: multiset<T>)
    requires part <= all && x in part
    ensures all - part + (part - multiset{x} + y) == all - multiset{x} + y
    ensures all - part + (part - multiset{x}) == all - multiset{x}
  {
  }

  function MaxThreshold(size: nat): nat { size * 3 / 4 }
  function MinThreshold(size: nat): nat { size * 7 / 20 }

  /** A search of one chain decides for the whole table. */
  lemma ChainDecides<K(!new), V>(chains: seq<seq<KeyValue<K, V>>>, hash: K -> nat, equal: (K, K) -> bool, k: K)
    requires |chains| > 0 && Placed(chains, hash) && Agrees(hash, equal)
    ensures var b := hash(k) % |chains|;
            (forall j :: 0 <= j < |chains[b]| ==> !equal(chains[b][j].key, k)) ==> !Has(equal, Flat(chains), k)
  {
    var b := hash(k) % |chains|;
    if forall j :: 0 <= j < |chains[b]| ==> !equal(chains[b][j].key, k) {
      forall e | e in Flat(chains) ensures !equal(e.key, k) {
        FlatIn(chains, e);
        var i :| 0 <= i < |chains| && e in chains[i];
        var j :| 0 <= j < |chains[i]| && chains[i][j] == e;
        assert hash(e.key) % |chains| == i;
      }
    }
  }

  /** After a resize with load `base`, both thresholds are a fortieth of the size away. */
  predicate Roomy(base: nat, size: nat, initSize: nat) {
    40 * (MaxThreshold(size) + 1 - base) >= size && (size > initSize ==> 40 * (base + 1 - MinThreshold(size)) >= size)
  }

  lemma GrowthIsRoomy(size: nat, initSize: nat)
    requires IsPow2(size) && 32 <= size
    ensures Roomy(MaxThreshold(size) + 1, 2 * size, initSize)
    ensures MaxThreshold(size) + 1 <= MaxThreshold(2 * size)
  {
    Pow2Half(size);
    Pow2Half(size / 2);
  }

  lemma ShrinkIsRoomy(size: nat, initSize: nat, load: nat, min: nat)
    requires IsPow2(size) && 64 <= size && min == MinThreshold(size) && load < min
    ensures load + 1 == min ==> Roomy(load, size / 2, initSize) && (size / 2 > initSize ==> MinThreshold(size / 2) <= load)
    ensures load <= MaxThreshold(size / 2)
  {
    Pow2Half(size);
    Pow2Half(size / 2);
  }

  /** Between two powers of two there is room for doubling. */
  lemma PowersBelow(a: nat, b: nat)
    requires IsPow2(a) && IsPow2(b) && a < b
    ensures 2 * a <= b && a <= b / 2
  {
    var i :| 0 <= i <= a && Exp2(i) == a;
    var j :| 0 <= j <= b && Exp2(j) == b;
    if j <= i { ExpGrows(j, i); } else { ExpGrows(i + 1, j); }
  }

  lemma PowersApart(a: nat)
    requires IsPow2(a) && a < MAX_HASHMAP_BUCKETS
    ensures 2 * a <= MAX_HASHMAP_BUCKETS
  {
    BigPower();
    PowersBelow(a, MAX_HASHMAP_BUCKETS);
  }

  /** The initial size that is asked for, within the bounds. */
  function Clamped(asked: nat): nat {
    if asked < MIN_HASHMAP_BUCKETS then MIN_HASHMAP_BUCKETS
    else if asked > MAX_HASHMAP_BUCKETS then MAX_HASHMAP_BUCKETS else asked
  }

  /** The size after an insertion that changed the number of bindings from `before` to `after`. */
  function InsertSize(size: nat, before: nat, after: nat): nat {
    if after > before && after > MaxThreshold(size) && size < MAX_HASHMAP_BUCKETS then 2 * size else size
  }

  function RemoveSize(initSize: nat, size: nat, before: nat, after: nat): nat {
    if after < before && after < MinThreshold(size) && size > initSize then size / 2 else size
  }

  class HashMap<K(0,!new), V(0)> {
    const hash: K -> nat
    const equal: (K, K) -> bool
    const initSize: nat
    var buckets: array<seq<KeyValue<K, V>>>
    var size: nat
    var load: nat
    var maxThreshold: nat
    var minThreshold: nat
    ghost var destroyed: multiset<KeyValue<K, V>>  // bindings passed to the destroy functions

    /** The table: chains, size and thresholds. */
    ghost predicate Table()
      reads this, buckets
    {
      && Equivalence(equal) && Agrees(hash, equal)
      && buckets.Length == size && IsPow2(size) && 32 <= initSize <= size <= MAX_HASHMAP_BUCKETS && IsPow2(initSize)
      && Placed(buckets[..], hash) && Distinct(equal, Flat(buckets[..]))
      && maxThreshold == MaxThreshold(size) && minThreshold == MinThreshold(size)
    }

    ghost function Bindings(): multiset<KeyValue<K, V>>
      reads this, buckets
    {
      Flat(buckets[..])
    }

    ghost predicate Valid()
      reads this, buckets
    {
      && Table() && load == |Bindings()|
      && (load <= maxThreshold || size == MAX_HASHMAP_BUCKETS)
    }

    method BucketOf(k: K) returns (bucket: nat)
      requires IsPow2(size)
      ensures size > 0 && bucket == hash(k) % size && bucket < size
    {
      bucket := And(hash(k), size - 1);
      ghost var e :| 0 <= e <= size && Exp2(e) == size;
      MaskIsModulus(hash(k), e);
    }

    /** Links a binding at the front of a chain. */
    method PushFront(bucket: nat, item: KeyValue<K, V>)
      requires bucket < buckets.Length && Placed(buckets[..], hash) && hash(item.key) % buckets.Length == bucket
      modifies buckets
      ensures Placed(buckets[..], hash) && Bindings() == old(Bindings()) + multiset{item}
    {
      hide Placed, Flat;
      Pushed(buckets[..], hash, bucket, item);
      buckets[bucket] := [item] + buckets[bucket];
      assert buckets[..] == old(buckets[..])[bucket := [item] + old(buckets[bucket])];
    }

    constructor (hash: K -> nat, equal: (K, K) -> bool, asked: nat)
      requires Equivalence(equal) && Agrees(hash, equal)
      ensures Valid() && Bindings() == multiset{} && destroyed == multiset{} && fresh(buckets)
      ensures this.hash == hash && this.equal == equal && initSize == size
      ensures IsPow2(size) && Clamped(asked) <= size && forall p :: IsPow2(p) && Clamped(asked) <= p ==> size <= p
    {
      var n := if asked < MIN_HASHMAP_BUCKETS then MIN_HASHMAP_BUCKETS else asked;
      n := if n > MAX_HASHMAP_BUCKETS then MAX_HASHMAP_BUCKETS else n;
      if And(n, n - 1) != 0 {
        n := UpperPowerOfTwo(n);
      } else {
        NoCommonDigit(n);
      }
      BigPower();
      this.hash, this.equal, this.initSize := hash, equal, n;
      buckets := new seq<KeyValue<K, V>>[n](_ => []);
      size, load, maxThreshold, minThreshold := n, 0, MaxThreshold(n), MinThreshold(n);
      destroyed := multiset{};
      new;
      FlatEmpty(buckets[..]);
    }

    /** Moves every binding to its bucket in a table of another size. */
    method Resize(newSize: nat)
      requires Table() && IsPow2(newSize) && initSize <= newSize <= MAX_HASHMAP_BUCKETS
      modifies this`buckets, this`size, this`maxThreshold, this`minThreshold, buckets
      ensures Table() && fresh(buckets) && size == newSize && Bindings() == old(Bindings())
    {
      hide Placed, Flat, Distinct, Equivalence, Agrees, IsPow2;
      var oldBuckets := buckets;
      size := newSize;
      maxThreshold, minThreshold := MaxThreshold(size), MinThreshold(size);
      buckets := new seq<KeyValue<K, V>>[size](_ => []);
      FlatEmpty(buckets[..]);
      PlacedEmpty(buckets[..], hash);
      MoveAll(oldBuckets);
      assert Bindings() == old(Bindings());
    }

    method MoveAll(oldBuckets: array<seq<KeyValue<K, V>>>)
      requires buckets.Length == size && IsPow2(size) && Placed(buckets[..], hash) && oldBuckets != buckets
      modifies buckets, oldBuckets
      ensures Placed(buckets[..], hash) && Bindings() == old(Bindings()) + old(Flat(oldBuckets[..]))
    {
      hide Placed, Flat, IsPow2;
      ghost var was := oldBuckets[..];
      assert was[0..] == was;
      for i := 0 to oldBuckets.Length
        invariant Placed(buckets[..], hash) && oldBuckets[i..] == was[i..]
        invariant Bindings() + Flat(was[i..]) == old(Bindings()) + Flat(was)
      {
        FlatSplit(was, i);
        var item := oldBuckets[i];
        assert item == oldBuckets[i..][0] == was[i];
        oldBuckets[i] := [];
        Rehash(item);
      }
      FlatEmpty(was[oldBuckets.Length..]);
    }

    /** Moves one chain, from its front, to the new buckets. */
    method Rehash(chain: seq<KeyValue<K, V>>)
      requires buckets.Length == size && IsPow2(size) && Placed(buckets[..], hash)
      modifies buckets
      ensures Placed(buckets[..], hash) && Bindings() == old(Bindings()) + multiset(chain)
    {
      hide Placed, Flat;
      var item := chain;
      while item != []
        invariant Placed(buckets[..], hash) && Bindings() + multiset(item) == old(Bindings()) + multiset(chain)
        decreases |item|
      {
        var bucket := BucketOf(item[0].key);
        assert item == [item[0]] + item[1..];
        PushFront(bucket, item[0]);
        item := item[1..];
      }
    }

    /** The position of the binding of `k` in its chain, or the length of the chain. */
    method Find(bucket: nat, k: K) returns (i: nat)
      requires Table() && bucket == hash(k) % size
      ensures bucket < buckets.Length && i <= |buckets[bucket]|
      ensures i < |buckets[bucket]| ==> equal(buckets[bucket][i].key, k) && buckets[bucket][i] in Bindings()
      ensures i == |buckets[bucket]| ==> !Has(equal, Bindings(), k)
    {
      hide Placed, Flat, Distinct, Has;
      var chain := buckets[bucket];
      i := 0;
      while i < |chain|
        invariant i <= |chain| && forall j :: 0 <= j < i ==> !equal(chain[j].key, k)
      {
        if equal(chain[i].key, k) {
          assert buckets[..][bucket] == chain && chain[i] in chain;
          FlatIn(buckets[..], chain[i]);
          return;
        }
        i := i + 1;
      }
      ChainDecides(buckets[..], hash, equal, k);
    }

    method Grow()
      requires Table() && load == |Bindings()| && load == maxThreshold + 1 && size < MAX_HASHMAP_BUCKETS
      modifies this, buckets
      ensures Valid() && fresh(buckets) && size == 2 * old(size)
      ensures Bindings() == old(Bindings()) && destroyed == old(destroyed)
    {
      hide Placed, Flat, Distinct, Equivalence, Agrees, IsPow2;
      GrowthIsRoomy(size, initSize);
      Pow2Double(size);
      PowersApart(size);
      Resize(size * 2);
    }

    method Shrink()
      requires Table() && load == |Bindings()| && load < minThreshold && size > initSize
      modifies this, buckets
      ensures Valid() && fresh(buckets) && 2 * size == old(size)
      ensures Bindings() == old(Bindings()) && destroyed == old(destroyed)
    {
      hide Placed, Flat, Distinct, Equivalence, Agrees, IsPow2;
      PowersBelow(initSize, size);
      ShrinkIsRoomy(size, initSize, load, minThreshold);
      Pow2Half(size);
      Resize(size / 2);
    }

    method Insert(k: K, v: V) returns (replaced: bool)
      requires Valid()
      modifies this, buckets
      ensures Valid() && (buckets == old(buckets) || fresh(buckets))
      ensures replaced <==> Has(equal, old(Bindings()), k)
      ensures Bindings() == Upsert(equal, old(Bindings()), k, v)
      ensures destroyed == old(destroyed) + Dropped(equal, old(Bindings()), k)
      ensures size == InsertSize(old(size), |old(Bindings())|, |Bindings()|)
    {
      hide Placed, Flat, Distinct, Has, Upsert, Dropped, Delete, Equivalence, Agrees, IsPow2;
      var bucket := BucketOf(k);
      var i := Find(bucket, k);
      var chain := buckets[bucket];
      if i < |chain| {
        Replace(bucket, i, k, v);
        return true;
      }
      NotFound(equal, Bindings(), k, v);
      PushFront(bucket, KeyValue(k, v));
      load := load + 1;
      if load > maxThreshold && size < MAX_HASHMAP_BUCKETS {
        Grow();
      }
      return false;
    }

    method Replace(bucket: nat, i: nat, k: K, v: V)
      requires Table() && bucket < buckets.Length && i < |buckets[bucket]| && equal(buckets[bucket][i].key, k)
      requires bucket == hash(k) % size
      modifies this`destroyed, buckets
      ensures Table() && |Bindings()| == |old(Bindings())| && Has(equal, old(Bindings()), k)
      ensures Bindings() == Upsert(equal, old(Bindings()), k, v)
      ensures destroyed == old(destroyed) + Dropped(equal, old(Bindings()), k)
    {
      hide Placed, Flat, Distinct, Has, Upsert, Dropped, Delete, Equivalence, Agrees, IsPow2, MaxThreshold, MinThreshold;
      ReplacedIn(buckets[..], hash, equal, bucket, i, k, v);
      destroyed := destroyed + multiset{buckets[bucket][i]};
      buckets[bucket] := buckets[bucket][i := KeyValue(k, v)];
      assert buckets[..] == old(buckets[..])[bucket := old(buckets[bucket])[i := KeyValue(k, v)]];
    }

    method Drop(bucket: nat, i: nat, k: K)
      requires Table() && bucket < buckets.Length && i < |buckets[bucket]| && equal(buckets[bucket][i].key, k)
      modifies this`destroyed, buckets
      ensures Table() && |Bindings()| == |old(Bindings())| - 1 && Has(equal, old(Bindings()), k)
      ensures Bindings() == Delete(equal, old(Bindings()), k)
      ensures destroyed == old(destroyed) + Dropped(equal, old(Bindings()), k)
    {
      hide Placed, Flat, Distinct, Has, Upsert, Dropped, Delete, Equivalence, Agrees, IsPow2, MaxThreshold, MinThreshold;
      DroppedFrom(buckets[..], hash, equal, bucket, i, k);
      destroyed := destroyed + multiset{buckets[bucket][i]};
      var chain := buckets[bucket];
      buckets[bucket] := chain[..i] + chain[i + 1..];
      assert buckets[..] == old(buckets[..])[bucket := chain[..i] + chain[i + 1..]];
    }

    method Remove(k: K) returns (removed: bool)
      requires Valid()
      modifies this, buckets
      ensures Valid() && (buckets == old(buckets) || fresh(buckets))
      ensures removed <==> Has(equal, old(Bindings()), k)
      ensures Bindings() == Delete(equal, old(Bindings()), k)
      ensures destroyed == old(destroyed) + Dropped(equal, old(Bindings()), k)
      ensures size == RemoveSize(initSize, old(size), |old(Bindings())|, |Bindings()|)
    {
      hide Placed, Flat, Distinct, Has, Dropped, Delete, Equivalence, Agrees, IsPow2;
      var bucket := BucketOf(k);
      var i := Find(bucket, k);
      if i == |buckets[bucket]| {
        NoEntry(k);
        return false;
      }
      Drop(bucket, i, k);
      load := load - 1;
      if load < minThreshold && size > initSize {
        Shrink();
      }
      return true;
    }

    lemma NoEntry(k: K)
      requires !Has(equal, Bindings(), k)
      ensures Delete(equal, Bindings(), k) == Bindings() && Dropped(equal, Bindings(), k) == multiset{}
    {
    }

    method Get(k: K) returns (entry: Option<KeyValue<K, V>>)
      requires Valid()
      ensures entry == if Has(equal, Bindings(), k) then Some(Entry(equal, Bindings(), k)) else None
    {
      hide Placed, Flat, Agrees, IsPow2;
      var bucket := BucketOf(k);
      var i := Find(bucket, k);
      if i < |buckets[bucket]| {
        EntryIs(equal, Bindings(), k, buckets[bucket][i]);
        entry := Some(buckets[bucket][i]);
      } else {
        entry := None;
      }
    }

    method Clear()
      requires Valid()
      modifies this, buckets
      ensures Valid() && Bindings() == multiset{} && destroyed == old(destroyed) + old(Bindings()) && buckets == old(buckets)
      ensures size == old(size)
    {
      hide Placed, Flat, Equivalence, Agrees, IsPow2, Roomy, MaxThreshold, MinThreshold, Distinct;
      ClearChains();
      FlatEmpty(buckets[..]);
      PlacedEmpty(buckets[..], hash);
      NoneDistinct();
    }

    lemma NoneDistinct()
      ensures Distinct<K, V>(equal, multiset{})
    {
    }

    method ClearChains()
      requires buckets.Length == size && load == |Bindings()|
      modifies this`load, this`destroyed, buckets
      ensures load == 0 && destroyed == old(destroyed) + old(Bindings()) && forall j :: 0 <= j < size ==> buckets[j] == []
    {
      hide Flat;
      ghost var was := buckets[..];
      assert was[0..] == was;
      for i := 0 to size
        invariant i <= buckets.Length == size == |was|
        invariant forall j :: 0 <= j < size ==> buckets[j] == if j < i then [] else was[j]
        invariant destroyed + Flat(was[i..]) == old(destroyed) + Flat(was)
        invariant load == |Flat(was[i..])|
      {
        FlatSplit(was, i);
        destroyed := destroyed + multiset(buckets[i]);
        load := load - |buckets[i]|;
        buckets[i] := [];
      }
      FlatEmpty(was[size..]);
    }
  }

  class HashMapIterator<K(0,!new), V(0)> {
    const map_: HashMap<K, V>
    var cur: seq<KeyValue<K, V>>  // what is left of the current chain
    var bucket: nat
    ghost var seen: multiset<KeyValue<K, V>>

    ghost predicate Valid()
      reads this, map_, map_.buckets
    {
      && map_.Valid()
      && seen + multiset(cur) + Flat(map_.buckets[After(bucket, map_.buckets.Length)..]) == map_.Bindings()
    }

    static function After(bucket: nat, size: nat): nat {
      if bucket + 1 < size then bucket + 1 else size
    }

    constructor (map_: HashMap<K, V>)
      requires map_.Valid()
      ensures this.map_ == map_ && Valid() && seen == multiset{}
    {
      this.map_, cur, bucket, seen := map_, map_.buckets[0], 0, multiset{};
      new;
      FlatSplit(map_.buckets[..], 0);
      assert map_.buckets[..][0..] == map_.buckets[..];
      assert map_.buckets[..][1..] == map_.buckets[1..];
    }

    /** Moves on to the next chain. */
    method NextChain()
      requires Valid() && cur == [] && bucket + 1 < map_.buckets.Length
      modifies this
      ensures Valid() && seen == old(seen) && bucket == old(bucket) + 1
    {
      hide HashMap.Valid, Flat;
      ghost var all := map_.buckets[..];
      FlatSplit(all, bucket + 1);
      assert all[bucket + 1..] == map_.buckets[bucket + 1..];
      bucket := bucket + 1;
      assert all[bucket + 1..] == map_.buckets[bucket + 1..];
      cur := map_.buckets[bucket];
    }

    method Next() returns (entry: Option<KeyValue<K, V>>)
      requires Valid()
      modifies this
      ensures Valid()
      ensures entry.Some? ==> seen == old(seen) + multiset{entry.value}
      ensures entry.None? ==> seen == old(seen) == map_.Bindings()
    {
      hide HashMap.Valid, Flat;
      while cur == []
        invariant Valid() && seen == old(seen)
        decreases if cur == [] then map_.buckets.Length - bucket else -1
      {
        if bucket + 1 >= map_.buckets.Length {
          FlatEmpty(map_.buckets[map_.buckets.Length..]);
          bucket := bucket + 1;
          return None;
        }
        NextChain();
      }
      entry := Some(cur[0]);
      assert cur == [cur[0]] + cur[1..];
      seen := seen + multiset{cur[0]};
      cur := cur[1..];
    }
  }
}
