/** Whole histories of a hash table: what it holds, how its size moves, and how far apart the resizes are. */
module HashRun {
  import opened Bits
  import opened MapSpec
  import opened HashMaps

  // ----- the size is a function of the history -----

  function SizeStep<K, V>(initSize: nat, size: nat, op: Op<K, V>, before: nat, after: nat): nat {
    match op
    case InsertOp(_, _) => InsertSize(size, before, after)
    case RemoveOp(_) => RemoveSize(initSize, size, before, after)
    case ClearOp => size
  }

  ghost function SizeAfter<K, V>(equal: (K, K) -> bool, initSize: nat, ops: seq<Op<K, V>>): nat {
    if ops == [] then initSize
    else
      var before := ops[..|ops| - 1];
      SizeStep(initSize, SizeAfter(equal, initSize, before), ops[|ops| - 1], |Replay(equal, before)|, |Replay(equal, ops)|)
  }

  /** The sizes before the first operation and after each. */
  ghost function Sizes<K, V>(equal: (K, K) -> bool, initSize: nat, ops: seq<Op<K, V>>): (sizes: seq<nat>)
    ensures |sizes| == |ops| + 1
  {
    if ops == [] then [initSize]
    else Sizes(equal, initSize, ops[..|ops| - 1]) + [SizeAfter(equal, initSize, ops)]
  }

  lemma {:induction false} SizesAt<K, V>(equal: (K, K) -> bool, initSize: nat, ops: seq<Op<K, V>>, k: nat)
    requires k <= |ops|
    ensures Sizes(equal, initSize, ops)[k] == SizeAfter(equal, initSize, ops[..k])
    decreases |ops|
  {
    if k == |ops| {
      assert ops[..k] == ops;
    } else {
      SizesAt(equal, initSize, ops[..|ops| - 1], k);
      assert ops[..|ops| - 1][..k] == ops[..k];
    }
  }

  /** A size that a table can start with. */
  predicate Initial(initSize: nat) { IsPow2(initSize) && MIN_HASHMAP_BUCKETS <= initSize <= MAX_HASHMAP_BUCKETS }

  // ----- a history of sizes: `sizes[k]` before operation k, `sizes[k + 1]` after it -----

  predicate Resized(sizes: seq<nat>, k: nat) { k + 1 < |sizes| && sizes[k] != sizes[k + 1] }

  predicate AfterResize(sizes: seq<nat>, i: nat) { i == 0 || Resized(sizes, i - 1) }

  predicate Grown(sizes: seq<nat>, k: nat) { k + 1 < |sizes| && sizes[k] < sizes[k + 1] }

  /** No operation from `i` on and before `j` resizes the table. */
  predicate Steady(sizes: seq<nat>, i: nat, j: nat) { forall k :: i <= k < j ==> !Resized(sizes, k) }

  predicate NoClear<K, V>(ops: seq<Op<K, V>>, i: nat, j: nat) { forall k :: i <= k < j <= |ops| ==> !ops[k].ClearOp? }

  /** Before operation `n` the table is not what a Clear left too large: from the start, or from some
      growth on, nothing has been cleared. */
  ghost predicate Settled<K, V>(ops: seq<Op<K, V>>, sizes: seq<nat>, n: nat) {
    exists g: nat :: SettledFrom(ops, sizes, g, n)
  }

  predicate SettledFrom<K, V>(ops: seq<Op<K, V>>, sizes: seq<nat>, g: nat, n: nat) {
    g <= n && NoClear(ops, g, n) && (g == 0 || Grown(sizes, g - 1))
  }

  /** Operation `j` comes at least a fortieth of the size after operation `i - 1`. */
  predicate Apart(sizes: seq<nat>, i: nat, j: nat) { j < |sizes| && 40 * (j + 1 - i) >= sizes[j] }

  /** Between two resizes in a row, and before the first one, there are operations for a fortieth of
      the size that the table has in between. */
  ghost predicate Spaced<K, V>(ops: seq<Op<K, V>>, sizes: seq<nat>) {
    forall i: nat, j: nat :: (AfterResize(sizes, i) && i <= j && Resized(sizes, j) && Steady(sizes, i, j)
                              && Settled(ops, sizes, j)) ==> Apart(sizes, i, j)
  }

  /** The size stays a power of two between the bounds, and doubles or halves if it changes. */
  ghost predicate Bounded(sizes: seq<nat>, initSize: nat) {
    && (forall k :: 0 <= k < |sizes| ==> IsPow2(sizes[k]) && initSize <= sizes[k] <= MAX_HASHMAP_BUCKETS)
    && (forall k: nat :: Resized(sizes, k) ==> sizes[k + 1] == 2 * sizes[k] || 2 * sizes[k + 1] == sizes[k])
  }

  // ----- counting the operations since the last resize -----

  /** The counter: the load at the last resize, the operations since, and whether a Clear has intervened.
      Both thresholds were a fortieth of the size away, and each operation moves the load by one at most. */
  datatype Meter = Meter(base: nat, since: nat, cleared: bool)

  predicate Metered(initSize: nat, size: nat, load: nat, m: Meter) {
    && IsPow2(size) && initSize <= size <= MAX_HASHMAP_BUCKETS && (load <= MaxThreshold(size) || size == MAX_HASHMAP_BUCKETS)
    && (!m.cleared ==> load <= m.base + m.since && m.base <= load + m.since && Roomy(m.base, size, initSize))
    && (!m.cleared && size > initSize ==> MinThreshold(size) <= load)
  }

  predicate Moves<K, V>(op: Op<K, V>, load: nat, load': nat) {
    match op
    case InsertOp(_, _) => load' == load || load' == load + 1
    case RemoveOp(_) => load' == load || load' + 1 == load
    case ClearOp => load' == 0
  }

  function MeterStep<K, V>(m: Meter, op: Op<K, V>, size: nat, load': nat, size': nat): Meter {
    if op.ClearOp? then Meter(m.base, m.since + 1, true)
    else if size' > size then Meter(load', 0, false)
    else if size' < size then Meter(load', 0, m.cleared)
    else m.(since := m.since + 1)
  }

  lemma MeteredMore<K, V>(initSize: nat, size: nat, load: nat, m: Meter, op: Op<K, V>, load': nat)
    requires Initial(initSize) && Metered(initSize, size, load, m) && Moves(op, load, load')
    ensures var size' := SizeStep(initSize, size, op, load, load');
      && Metered(initSize, size', load', MeterStep(m, op, size, load', size'))
      && (size' == size || size' == 2 * size || 2 * size' == size)
      && (size' != size && !m.cleared ==> 40 * (m.since + 1) >= size)
  {
    hide IsPow2;
    var size' := SizeStep(initSize, size, op, load, load');
    SizeIsLarge(initSize, size);
    if size' > size {
      GrowthIsRoomy(size, initSize);
      Pow2Double(size);
      PowersApart(size);
    } else if size' < size {
      PowersBelow(initSize, size);
      Pow2Half(size);
      ShrinkIsRoomy(size, initSize, load', MinThreshold(size));
    }
  }

  lemma SizeIsLarge(initSize: nat, size: nat)
    requires Initial(initSize) && initSize <= size
    ensures 32 <= size && IsPow2(initSize)
  {
  }

  lemma Moved<K(!new), V>(equal: (K, K) -> bool, ops: seq<Op<K, V>>, n: nat)
    requires Equivalence(equal) && n < |ops|
    ensures Moves(ops[n], |Replay(equal, ops[..n])|, |Replay(equal, ops[..n + 1])|)
  {
    hide Distinct, Upsert, Delete, Dropped;
    assert ops[..n + 1][..n] == ops[..n];
    DistinctReplay(equal, ops[..n]);
    match ops[n]
    case InsertOp(k, v) => DistinctUpsert(equal, Replay(equal, ops[..n]), k, v);
    case RemoveOp(k) => DistinctDelete(equal, Replay(equal, ops[..n]), k);
    case ClearOp =>
  }

  /** What the counter says about the history so far. */
  ghost predicate Counted<K, V>(ops: seq<Op<K, V>>, sizes: seq<nat>, n: nat, since: nat, cleared: bool) {
    && |sizes| == n + 1
    && (Settled(ops, sizes, n) ==> !cleared)
    && (forall i: nat :: i <= n && Steady(sizes, i, n) && AfterResize(sizes, i) ==> since <= n - i)
  }

  /** One more operation. */
  lemma CountedMore<K, V>(ops: seq<Op<K, V>>, sizes: seq<nat>, since: nat, cleared: bool,
                          size: nat, since': nat, cleared': bool)
    requires |sizes| >= 1 && |sizes| <= |ops| && Counted(ops, sizes, |sizes| - 1, since, cleared)
    requires var n := |sizes| - 1;
      && (if size == sizes[n] then since' <= since + 1 else since' == 0)
      && (ops[n].ClearOp? || size > sizes[n] || (cleared' ==> cleared))
      && (size > sizes[n] ==> !cleared')
    ensures Counted(ops, sizes + [size], |sizes|, since', cleared')
  {
    var n, more := |sizes| - 1, sizes + [size];
    if Settled(ops, more, n + 1) {
      var g: nat :| SettledFrom(ops, more, g, n + 1);
      if g <= n {
        assert SettledFrom(ops, sizes, g, n);
        assert !ops[n].ClearOp?;
      }
    }
    forall i: nat | i <= n + 1 && Steady(more, i, n + 1) && AfterResize(more, i) ensures since' <= n + 1 - i {
      if i <= n {
        assert !Resized(more, n);
        assert Steady(sizes, i, n) by {
          forall k | i <= k < n ensures !Resized(sizes, k) {
            assert !Resized(more, k);
          }
        }
        assert AfterResize(sizes, i);
      }
    }
  }

  /** The one new resize keeps its distance if the counter says so. */
  lemma SpacedMore<K, V>(ops: seq<Op<K, V>>, sizes: seq<nat>, since: nat, cleared: bool, size: nat)
    requires |sizes| >= 1 && Spaced(ops, sizes) && Counted(ops, sizes, |sizes| - 1, since, cleared)
    requires size != sizes[|sizes| - 1] && !cleared ==> 40 * (since + 1) >= sizes[|sizes| - 1]
    ensures Spaced(ops, sizes + [size])
  {
    var n, more := |sizes| - 1, sizes + [size];
    forall i: nat, j: nat | i <= j && Resized(more, j) && Steady(more, i, j) && Settled(ops, more, j)
      && AfterResize(more, i)
      ensures Apart(more, i, j)
    {
      var g: nat :| SettledFrom(ops, more, g, j);
      assert SettledFrom(ops, sizes, g, j);
      assert Steady(sizes, i, j) by {
        forall k | i <= k < j ensures !Resized(sizes, k) {
          assert !Resized(more, k);
        }
      }
      assert AfterResize(sizes, i);
      if j < n {
        assert Resized(sizes, j);
        assert Apart(sizes, i, j);
      }
    }
  }

  lemma BoundedMore(sizes: seq<nat>, initSize: nat, size: nat)
    requires |sizes| >= 1 && Bounded(sizes, initSize) && IsPow2(size) && initSize <= size <= MAX_HASHMAP_BUCKETS
    requires var was := sizes[|sizes| - 1]; size == was || size == 2 * was || 2 * size == was
    ensures Bounded(sizes + [size], initSize)
  {
    var more := sizes + [size];
    forall k: nat | Resized(more, k) ensures more[k + 1] == 2 * more[k] || 2 * more[k + 1] == more[k] {
      if k < |sizes| - 1 {
        assert Resized(sizes, k);
      }
    }
  }

  lemma Started<K, V>(ops: seq<Op<K, V>>, initSize: nat)
    requires Initial(initSize)
    ensures Counted(ops, [initSize], 0, 0, false) && Spaced(ops, [initSize]) && Bounded([initSize], initSize)
    ensures Metered(initSize, initSize, 0, Meter(0, 0, false))
  {
  }

  lemma SizesMore<K, V>(equal: (K, K) -> bool, initSize: nat, ops: seq<Op<K, V>>, n: nat)
    requires n < |ops|
    ensures var size := SizeAfter(equal, initSize, ops[..n]);
      && Sizes(equal, initSize, ops[..n])[n] == size
      && SizeAfter(equal, initSize, ops[..n + 1])
         == SizeStep(initSize, size, ops[n], |Replay(equal, ops[..n])|, |Replay(equal, ops[..n + 1])|)
      && Sizes(equal, initSize, ops[..n + 1])
         == Sizes(equal, initSize, ops[..n]) + [SizeAfter(equal, initSize, ops[..n + 1])]
  {
    assert ops[..n + 1][..n] == ops[..n] && ops[..n][..n] == ops[..n];
    SizesAt(equal, initSize, ops[..n], n);
  }

  lemma {:induction false} Upto<K(!new), V>(equal: (K, K) -> bool, initSize: nat, ops: seq<Op<K, V>>, n: nat)
    returns (m: Meter)
    requires Equivalence(equal) && Initial(initSize) && n <= |ops|
    ensures var sizes := Sizes(equal, initSize, ops[..n]);
      && Bounded(sizes, initSize) && Spaced(ops, sizes) && Counted(ops, sizes, n, m.since, m.cleared)
      && Metered(initSize, SizeAfter(equal, initSize, ops[..n]), |Replay(equal, ops[..n])|, m)
    decreases n
  {
    hide Bounded, Spaced, Counted, Metered, Sizes, SizeStep, Equivalence, Initial, MeterStep, Moves;
    if n == 0 {
      m := Meter(0, 0, false);
      Started(ops, initSize);
      NoSizes<K, V>(equal, initSize);
    } else {
      m := Upto(equal, initSize, ops, n - 1);
      SizesMore(equal, initSize, ops, n - 1);
      Moved(equal, ops, n - 1);
      var load, load' := |Replay(equal, ops[..n - 1])|, |Replay(equal, ops[..n])|;
      m := UptoStep(initSize, ops, Sizes(equal, initSize, ops[..n - 1]), load, m, load');
    }
  }

  lemma NoSizes<K, V>(equal: (K, K) -> bool, initSize: nat)
    ensures Sizes<K, V>(equal, initSize, []) == [initSize] && SizeAfter<K, V>(equal, initSize, []) == initSize
    ensures Replay<K, V>(equal, []) == multiset{}
  {
  }

  lemma UptoStep<K, V>(initSize: nat, ops: seq<Op<K, V>>, sizes: seq<nat>, load: nat, m: Meter, load': nat)
    returns (m': Meter)
    requires Initial(initSize) && 1 <= |sizes| <= |ops|
    requires Bounded(sizes, initSize) && Spaced(ops, sizes) && Counted(ops, sizes, |sizes| - 1, m.since, m.cleared)
    requires Metered(initSize, sizes[|sizes| - 1], load, m) && Moves(ops[|sizes| - 1], load, load')
    ensures var size' := SizeStep(initSize, sizes[|sizes| - 1], ops[|sizes| - 1], load, load'); var more := sizes + [size'];
      && Bounded(more, initSize) && Spaced(ops, more) && Counted(ops, more, |sizes|, m'.since, m'.cleared)
      && Metered(initSize, size', load', m')
  {
    hide Bounded, Spaced, Counted, Metered, SizeStep, Initial, Moves;
    var op, size := ops[|sizes| - 1], sizes[|sizes| - 1];
    var size' := SizeStep(initSize, size, op, load, load');
    m' := MeterStep(m, op, size, load', size');
    MeteredMore(initSize, size, load, m, op, load');
    ClearKeepsSize(initSize, size, op, load, load');
    CountedMore(ops, sizes, m.since, m.cleared, size', m'.since, m'.cleared);
    SpacedMore(ops, sizes, m.since, m.cleared, size');
    MeteredBounds(initSize, size', load', m');
    BoundedMore(sizes, initSize, size');
  }

  lemma ClearKeepsSize<K, V>(initSize: nat, size: nat, op: Op<K, V>, load: nat, load': nat)
    ensures op.ClearOp? ==> SizeStep(initSize, size, op, load, load') == size
  {
  }

  lemma MeteredBounds(initSize: nat, size: nat, load: nat, m: Meter)
    requires Metered(initSize, size, load, m)
    ensures IsPow2(size) && initSize <= size <= MAX_HASHMAP_BUCKETS
  {
  }

  // ----- the theorems -----

  /** Over every history the size is a power of two between the bounds that only doubles or halves, and
      two resizes in a row are a fortieth of the size apart, unless a Clear has intervened. */
  lemma Spacing<K(!new), V>(equal: (K, K) -> bool, initSize: nat, ops: seq<Op<K, V>>)
    requires Equivalence(equal) && Initial(initSize)
    ensures Bounded(Sizes(equal, initSize, ops), initSize) && Spaced(ops, Sizes(equal, initSize, ops))
  {
    assert ops[..|ops|] == ops;
    var _ := Upto(equal, initSize, ops, |ops|);
  }

  /** Operation `k` resizes the table. */
  ghost predicate ResizesAt<K, V>(equal: (K, K) -> bool, initSize: nat, ops: seq<Op<K, V>>, k: nat) {
    k < |ops| && SizeAfter(equal, initSize, ops[..k]) != SizeAfter(equal, initSize, ops[..k + 1])
  }

  lemma ResizedIs<K, V>(equal: (K, K) -> bool, initSize: nat, ops: seq<Op<K, V>>, k: nat)
    ensures Resized(Sizes(equal, initSize, ops), k) <==> ResizesAt(equal, initSize, ops, k)
  {
    if k < |ops| {
      SizesAt(equal, initSize, ops, k);
      SizesAt(equal, initSize, ops, k + 1);
    }
  }

  /** Without a Clear, two resizes in a row at `i` and `j` are at least a fortieth of the size in between
      apart. */
  lemma Distance<K(!new), V>(equal: (K, K) -> bool, initSize: nat, ops: seq<Op<K, V>>, i: nat, j: nat)
    requires Equivalence(equal) && Initial(initSize) && NoClear(ops, 0, j)
    requires i < j && ResizesAt(equal, initSize, ops, i) && ResizesAt(equal, initSize, ops, j)
    requires forall k :: i < k < j ==> !ResizesAt(equal, initSize, ops, k)
    ensures 40 * (j - i) >= SizeAfter(equal, initSize, ops[..j])
  {
    hide Equivalence, Initial, Spaced, Bounded, ResizesAt, Resized, Apart;
    var sizes := Sizes(equal, initSize, ops);
    Spacing(equal, initSize, ops);
    forall k: nat ensures Resized(sizes, k) <==> ResizesAt(equal, initSize, ops, k) {
      ResizedIs(equal, initSize, ops, k);
    }
    assert SettledFrom(ops, sizes, 0, j);
    LastApart(ops, sizes, i + 1, j);
    AtOperation(equal, initSize, ops, i, j);
  }

  lemma AtOperation<K, V>(equal: (K, K) -> bool, initSize: nat, ops: seq<Op<K, V>>, i: nat, j: nat)
    requires ResizesAt(equal, initSize, ops, j) && Apart(Sizes(equal, initSize, ops), i + 1, j)
    ensures 40 * (j - i) >= SizeAfter(equal, initSize, ops[..j])
  {
    SizesAt(equal, initSize, ops, j);
  }

  /** How many buckets the first `n` operations of a history walk through to resize the table. */
  ghost function Work<K, V>(equal: (K, K) -> bool, initSize: nat, ops: seq<Op<K, V>>, n: nat): nat
    requires n <= |ops|
  {
    if n == 0 then 0
    else Work(equal, initSize, ops, n - 1)
         + if ResizesAt(equal, initSize, ops, n - 1) then SizeAfter(equal, initSize, ops[..n - 1]) else 0
  }

  /** So the resizes cost a constant for each operation. */
  lemma WorkIsLinear<K(!new), V>(equal: (K, K) -> bool, initSize: nat, ops: seq<Op<K, V>>)
    requires Equivalence(equal) && Initial(initSize) && NoClear(ops, 0, |ops|)
    ensures Work(equal, initSize, ops, |ops|) <= 40 * |ops|
  {
    Spacing(equal, initSize, ops);
    var _ := WorkSince(equal, initSize, ops, |ops|);
  }

  /** Up to the last resize, just before operation `i`. */
  lemma {:induction false} WorkSince<K, V>(equal: (K, K) -> bool, initSize: nat, ops: seq<Op<K, V>>, n: nat) returns (i: nat)
    requires Spaced(ops, Sizes(equal, initSize, ops)) && n <= |ops| && NoClear(ops, 0, |ops|)
    ensures i <= n && Steady(Sizes(equal, initSize, ops), i, n) && AfterResize(Sizes(equal, initSize, ops), i)
    ensures Work(equal, initSize, ops, n) <= 40 * i
    decreases n
  {
    hide Spaced, Sizes, ResizesAt, Resized;
    i := 0;
    if n > 0 {
      var sizes := Sizes(equal, initSize, ops);
      i := WorkSince(equal, initSize, ops, n - 1);
      ResizedIs(equal, initSize, ops, n - 1);
      if Resized(sizes, n - 1) {
        SizesAt(equal, initSize, ops, n - 1);
        assert SettledFrom(ops, sizes, 0, n - 1);
        LastApart(ops, sizes, i, n - 1);
        i := n;
      }
    }
  }

  lemma LastApart<K, V>(ops: seq<Op<K, V>>, sizes: seq<nat>, i: nat, j: nat)
    requires Spaced(ops, sizes) && i <= j && Resized(sizes, j) && Steady(sizes, i, j) && Settled(ops, sizes, j)
    requires AfterResize(sizes, i)
    ensures Apart(sizes, i, j)
  {
  }

  // ----- the table -----

  /** Every operation does to the bindings and to the size what the history says. */
  method Do<K(0,!new), V(0)>(m: HashMap<K, V>, op: Op<K, V>)
    requires m.Valid()
    modifies m, m.buckets
    ensures m.Valid() && (m.buckets == old(m.buckets) || fresh(m.buckets))
    ensures m.Bindings() == Apply(m.equal, old(m.Bindings()), op)
    ensures m.Bindings() + m.destroyed == old(m.Bindings() + m.destroyed) + Handed([op])
    ensures m.size == SizeStep(m.initSize, old(m.size), op, |old(m.Bindings())|, |m.Bindings()|)
  {
    hide HashMap.Table, HashMap.Bindings, Distinct, Upsert, Delete, Dropped, Flat, HashMap.Valid, InsertSize, RemoveSize;
    HandedOne(op);
    TableFacts(m);
    ghost var b, d := m.Bindings(), m.destroyed;
    match op {
      case InsertOp(k, v) =>
        DistinctUpsert(m.equal, m.Bindings(), k, v);
        var _ := m.Insert(k, v);
        assert m.Bindings() + m.destroyed == (Upsert(m.equal, b, k, v) + Dropped(m.equal, b, k)) + d;
      case RemoveOp(k) =>
        DistinctDelete(m.equal, m.Bindings(), k);
        var _ := m.Remove(k);
        assert m.Bindings() + m.destroyed == (Delete(m.equal, b, k) + Dropped(m.equal, b, k)) + d;
      case ClearOp =>
        m.Clear();
    }
  }

  lemma TableFacts<K(0,!new), V(0)>(m: HashMap<K, V>)
    requires m.Valid()
    ensures Distinct(m.equal, m.Bindings()) && Equivalence(m.equal)
    ensures Initial(m.initSize) && IsPow2(m.size)
  {
  }

  lemma HandedOne<K, V>(op: Op<K, V>)
    ensures Handed([op]) == if op.InsertOp? then multiset{KeyValue(op.key, op.value)} else multiset{}
  {
    assert [op][..0] == [];
  }

  lemma OneMore<K, V>(equal: (K, K) -> bool, initSize: nat, ops: seq<Op<K, V>>, n: nat)
    requires n < |ops|
    ensures Replay(equal, ops[..n + 1]) == Apply(equal, Replay(equal, ops[..n]), ops[n])
    ensures Handed(ops[..n + 1]) == Handed(ops[..n]) + Handed([ops[n]])
    ensures SizeAfter(equal, initSize, ops[..n + 1])
         == SizeStep(initSize, SizeAfter(equal, initSize, ops[..n]), ops[n],
                     |Replay(equal, ops[..n])|, |Replay(equal, ops[..n + 1])|)
  {
    assert ops[..n + 1][..n] == ops[..n];
    HandedOne(ops[n]);
  }

  lemma NoneYet<K, V>(equal: (K, K) -> bool, initSize: nat)
    ensures Replay<K, V>(equal, []) == multiset{} && Handed<K, V>([]) == multiset{}
    ensures SizeAfter<K, V>(equal, initSize, []) == initSize
  {
  }

  /** After any history, and at every moment of it, the table holds what the history says and has the
      size that the history says; and what it holds and what it destroyed together are what it was given. */
  method Run<K(0,!new), V(0)>(hash: K -> nat, equal: (K, K) -> bool, asked: nat, ops: seq<Op<K, V>>)
    returns (m: HashMap<K, V>, sizes: seq<nat>)
    requires Equivalence(equal) && Agrees(hash, equal)
    ensures m.Valid() && m.equal == equal && m.Bindings() == Replay(equal, ops)
    ensures m.Bindings() + m.destroyed == Handed(ops)
    ensures Initial(m.initSize) && Clamped(asked) <= m.initSize
    ensures forall p :: IsPow2(p) && Clamped(asked) <= p ==> m.initSize <= p
    ensures m.size == SizeAfter(equal, m.initSize, ops)
    ensures |sizes| == |ops| + 1 && forall k :: 0 <= k <= |ops| ==> sizes[k] == SizeAfter(equal, m.initSize, ops[..k])
  {
    hide HashMap.Table, HashMap.Bindings, HashMap.Valid, Distinct, Upsert, Delete, Dropped, Flat, Replay, Handed, Apply;
    hide SizeAfter, SizeStep, IsPow2;
    m := new HashMap(hash, equal, asked);
    NoneYet<K, V>(equal, m.initSize);
    TableFacts(m);
    sizes := [m.size];
    for n := 0 to |ops|
      invariant fresh(m) && fresh(m.buckets) && m.Valid() && m.equal == equal && m.Bindings() == Replay(equal, ops[..n])
      invariant m.Bindings() + m.destroyed == Handed(ops[..n]) && m.size == SizeAfter(equal, m.initSize, ops[..n])
      invariant |sizes| == n + 1 && forall k :: 0 <= k <= n ==> sizes[k] == SizeAfter(equal, m.initSize, ops[..k])
    {
      OneMore(equal, m.initSize, ops, n);
      Do(m, ops[n]);
      sizes := sizes + [m.size];
    }
    assert ops[..|ops|] == ops;
  }
}
