/** SeqSort: quicksort in place around the middle element, with two cursors that meet. */
module SeqSort {
  /** What the comparator has to be: the sign of a total preorder. */
  ghost predicate Comparator<T(!new)>(cmp: (T, T) -> int) {
    && (forall a, b :: cmp(a, b) <= 0 <==> cmp(b, a) >= 0)
    && (forall a, b, c :: cmp(a, b) <= 0 && cmp(b, c) <= 0 ==> cmp(a, c) <= 0)
  }

  ghost predicate Sorted<T>(s: seq<T>, cmp: (T, T) -> int) {
    forall i, j :: 0 <= i < j < |s| ==> cmp(s[i], s[j]) <= 0
  }

  ghost predicate AllBelow<T>(s: seq<T>, pivot: T, cmp: (T, T) -> int) {
    forall i :: 0 <= i < |s| ==> cmp(s[i], pivot) <= 0
  }

  ghost predicate AllAbove<T>(s: seq<T>, pivot: T, cmp: (T, T) -> int) {
    forall i :: 0 <= i < |s| ==> cmp(s[i], pivot) >= 0
  }

  ghost predicate Permutation<T>(s: seq<T>, t: seq<T>) {
    multiset(s) == multiset(t)
  }

  lemma BelowPermuted<T>(s: seq<T>, t: seq<T>, more: seq<T>, pivot: T, cmp: (T, T) -> int)
    requires Permutation(s, t) && AllBelow(s + more, pivot, cmp)
    ensures AllBelow(t + more, pivot, cmp)
  {
    forall i | 0 <= i < |t + more| ensures cmp((t + more)[i], pivot) <= 0 {
      if i < |t| {
        assert t[i] in multiset(s);
        var k :| 0 <= k < |s| && s[k] == t[i];
        assert (s + more)[k] == t[i];
      } else {
        assert (t + more)[i] == more[i - |t|] == (s + more)[|s| + i - |t|];
      }
    }
  }

  lemma AbovePermuted<T>(more: seq<T>, s: seq<T>, t: seq<T>, pivot: T, cmp: (T, T) -> int)
    requires Permutation(s, t) && AllAbove(more + s, pivot, cmp)
    ensures AllAbove(more + t, pivot, cmp)
  {
    forall i | 0 <= i < |more + t| ensures cmp((more + t)[i], pivot) >= 0 {
      if i >= |more| {
        assert t[i - |more|] in multiset(s);
        var k :| 0 <= k < |s| && s[k] == t[i - |more|];
        assert (more + s)[|more| + k] == s[k];
      } else {
        assert (more + t)[i] == (more + s)[i];
      }
    }
  }

  /** Sorted parts with the pivot between them make a sorted whole. */
  lemma SortedJoin<T(!new)>(a: seq<T>, b: seq<T>, c: seq<T>, pivot: T, cmp: (T, T) -> int)
    requires Comparator(cmp)
    requires Sorted(a, cmp) && Sorted(c, cmp)
    requires AllBelow(a + b, pivot, cmp) && AllAbove(b + c, pivot, cmp)
    ensures Sorted(a + b + c, cmp)
  {
    var s := a + b + c;
    forall i, j | 0 <= i < j < |s| ensures cmp(s[i], s[j]) <= 0 {
      if j < |a| {
        assert s[i] == a[i] && s[j] == a[j];
      } else if i >= |a| + |b| {
        assert s[i] == c[i - |a| - |b|] && s[j] == c[j - |a| - |b|];
      } else {
        assert s[i] == (a + b)[i] && s[j] == (b + c)[j - |a|];
      }
    }
  }

  lemma PermutationJoin<T>(a: seq<T>, a': seq<T>, b: seq<T>, c: seq<T>, c': seq<T>)
    requires Permutation(a, a') && Permutation(c, c')
    ensures Permutation(a + b + c, a' + b + c')
  {
  }

  function Exchanged<T>(s: seq<T>, i: nat, j: nat): (r: seq<T>)
    requires i < |s| && j < |s|
    ensures |r| == |s|
  {
    s[i := s[j]][j := s[i]]
  }

  lemma ExchangedPart<T>(s: seq<T>, i: nat, j: nat, lo: nat, hi: nat)
    requires lo <= i < hi <= |s| && lo <= j < hi
    ensures Permutation(s[lo..hi], Exchanged(s, i, j)[lo..hi])
    ensures Exchanged(s, i, j)[..lo] == s[..lo] && Exchanged(s, i, j)[hi..] == s[hi..]
  {
    var part := s[lo..hi];
    assert Exchanged(s, i, j)[lo..hi] == Exchanged(part, i - lo, j - lo);
  }

  /** The left cursor stops at the first element that is not below the pivot. */
  method ScanUp<T>(a: array<T>, l: nat, ghost top: nat, pivot: T, cmp: (T, T) -> int) returns (k: nat)
    requires l <= top < a.Length && cmp(a[top], pivot) >= 0
    ensures l <= k <= top && cmp(a[k], pivot) >= 0
    ensures forall i :: l <= i < k ==> cmp(a[i], pivot) <= 0
  {
    k := l;
    while cmp(a[k], pivot) < 0
      invariant l <= k <= top
      invariant forall i :: l <= i < k ==> cmp(a[i], pivot) <= 0
      decreases top - k
    {
      k := k + 1;
    }
  }

  /** The right cursor stops at the last element that is not above the pivot. */
  method ScanDown<T>(a: array<T>, r: nat, ghost bottom: nat, pivot: T, cmp: (T, T) -> int) returns (k: nat)
    requires bottom <= r < a.Length && cmp(a[bottom], pivot) <= 0
    ensures bottom <= k <= r && cmp(a[k], pivot) <= 0
    ensures forall i :: k < i <= r ==> cmp(a[i], pivot) >= 0
  {
    k := r;
    while cmp(a[k], pivot) > 0
      invariant bottom <= k <= r
      invariant forall i :: k < i <= r ==> cmp(a[i], pivot) >= 0
      decreases k
    {
      k := k - 1;
    }
  }

  method Swap<T>(a: array<T>, l: nat, r: nat)
    requires l < a.Length && r < a.Length
    modifies a
    ensures a[..] == Exchanged(old(a[..]), l, r)
  {
    a[l], a[r] := a[r], a[l];
  }

  /** Where the cursors stand: what they have passed is on its own side of the pivot. */
  ghost predicate Passed<T>(s: seq<T>, lo: nat, hi: nat, l: nat, r: int, pivot: T, cmp: (T, T) -> int) {
    && lo <= l <= hi <= |s| && lo - 1 <= r < hi
    && (forall k :: lo <= k < l ==> cmp(s[k], pivot) <= 0)
    && (forall k :: r < k < hi ==> cmp(s[k], pivot) >= 0)
  }

  /** Before the first exchange the pivot itself stops both cursors; after it, what was exchanged. */
  ghost predicate Fenced<T>(s: seq<T>, lo: nat, hi: nat, l: nat, r: int, mid: nat, pivot: T) {
    || (l == lo && r == hi - 1 && lo <= mid < hi <= |s| && s[mid] == pivot)
    || (lo < l && r < hi - 1)
  }

  lemma ExchangePasses<T>(s: seq<T>, lo: nat, hi: nat, l: nat, r: nat, pivot: T, cmp: (T, T) -> int)
    requires lo <= l <= r < hi <= |s| && Passed(s, lo, hi, l, r, pivot, cmp)
    requires cmp(s[l], pivot) >= 0 && cmp(s[r], pivot) <= 0
    ensures Passed(Exchanged(s, l, r), lo, hi, l + 1, r - 1, pivot, cmp)
  {
  }

  ghost predicate SameOutside<T>(s: seq<T>, t: seq<T>, lo: nat, hi: nat) {
    && lo <= hi <= |s| == |t| && s[..lo] == t[..lo] && s[hi..] == t[hi..]
    && Permutation(s[lo..hi], t[lo..hi])
  }

  lemma ExchangeInside<T>(was: seq<T>, s: seq<T>, l: nat, r: nat, lo: nat, hi: nat)
    requires SameOutside(was, s, lo, hi) && lo <= l < hi && lo <= r < hi
    ensures SameOutside(was, Exchanged(s, l, r), lo, hi)
  {
    hide Exchanged;
    ExchangedPart(s, l, r, lo, hi);
  }

  lemma SelfEqual<T(!new)>(x: T, cmp: (T, T) -> int)
    requires Comparator(cmp)
    ensures cmp(x, x) == 0
  {
  }

  /** Both cursors move until each stands on something that belongs to the other side. */
  method Advance<T(!new)>(a: array<T>, ghost lo: nat, ghost hi: nat, l: nat, r: nat, ghost mid: nat, pivot: T,
                          cmp: (T, T) -> int)
    returns (l': nat, r': nat)
    requires Comparator(cmp) && l <= r
    requires Passed(a[..], lo, hi, l, r, pivot, cmp) && Fenced(a[..], lo, hi, l, r, mid, pivot)
    ensures Passed(a[..], lo, hi, l', r', pivot, cmp) && l' < hi && lo <= r' && l <= l' && r' <= r
    ensures cmp(a[l'], pivot) >= 0 && cmp(a[r'], pivot) <= 0
    ensures l == lo && r == hi - 1 ==> l' <= r'
  {
    SelfEqual(pivot, cmp);
    hide Comparator;
    ghost var first := l == lo && r == hi - 1;
    l' := ScanUp(a, l, if first then mid else r + 1, pivot, cmp);
    r' := ScanDown(a, r, if first then mid else l - 1, pivot, cmp);
  }

  /** The two cursors exchange what is on the wrong side of the pivot until they have met. */
  method Partition<T(!new)>(a: array<T>, lo: nat, n: nat, cmp: (T, T) -> int) returns (l: nat, r: int, pivot: T)
    requires 2 <= n && lo + n <= a.Length && Comparator(cmp)
    modifies a
    ensures lo < l <= lo + n && lo - 1 <= r < lo + n - 1 && r < l && Passed(a[..], lo, lo + n, l, r, pivot, cmp)
    ensures SameOutside(old(a[..]), a[..], lo, lo + n)
  {
    hide Comparator, Exchanged;
    ghost var hi := lo + n;
    var mid := lo + n / 2;
    pivot := a[mid];
    l, r := lo, lo + n - 1;
    while l <= r
      invariant Passed(a[..], lo, hi, l, r, pivot, cmp) && Fenced(a[..], lo, hi, l, r, mid, pivot)
      invariant SameOutside(old(a[..]), a[..], lo, hi)
      decreases r - l
    {
      ghost var s := a[..];
      l, r := Advance(a, lo, hi, l, r, mid, pivot, cmp);
      if l <= r {
        Swap(a, l, r);
        ExchangePasses(s, lo, hi, l, r, pivot, cmp);
        ExchangeInside(old(a[..]), s, l, r, lo, hi);
        l, r := l + 1, r - 1;
      }
    }
  }

  method QuickSortRecursive<T(!new)>(a: array<T>, lo: nat, n: nat, cmp: (T, T) -> int)
    requires lo + n <= a.Length && Comparator(cmp)
    modifies a
    ensures Sorted(a[..][lo..lo + n], cmp) && SameOutside(old(a[..]), a[..], lo, lo + n)
    decreases n
  {
    hide Comparator, Passed, SameOutside, Sorted;
    if n < 2 {
      AlreadySorted(a[..], lo, n, cmp);
      return;
    }
    ghost var was := a[..];
    var l, r, pivot := Partition(a, lo, n, cmp);
    ghost var s0 := a[..];
    QuickSortRecursive(a, lo, r + 1 - lo, cmp);
    ghost var s1 := a[..];
    QuickSortRecursive(a, l, lo + n - l, cmp);
    SortedParts(s0, s1, a[..], lo, r + 1, l, lo + n, pivot, cmp);
    SameOutsideTwice(was, s0, a[..], lo, lo + n);
  }

  lemma AlreadySorted<T>(s: seq<T>, lo: nat, n: nat, cmp: (T, T) -> int)
    requires n < 2 && lo + n <= |s|
    ensures Sorted(s[lo..lo + n], cmp) && SameOutside(s, s, lo, lo + n)
  {
  }

  lemma SameOutsideTwice<T>(s: seq<T>, t: seq<T>, u: seq<T>, lo: nat, hi: nat)
    requires SameOutside(s, t, lo, hi) && SameOutside(t, u, lo, hi)
    ensures SameOutside(s, u, lo, hi)
  {
  }

  /** What the two recursive calls leave, on the contents before, between and after them. */
  lemma SortedParts<T(!new)>(s0: seq<T>, s1: seq<T>, s2: seq<T>, lo: nat, m: nat, l: nat, hi: nat,
                             pivot: T, cmp: (T, T) -> int)
    requires Comparator(cmp) && |s0| == |s1| == |s2| && lo <= m <= l <= hi <= |s0|
    requires Passed(s0, lo, hi, l, m - 1, pivot, cmp)
    requires Sorted(s1[lo..m], cmp) && SameOutside(s0, s1, lo, m)
    requires Sorted(s2[l..hi], cmp) && SameOutside(s1, s2, l, hi)
    ensures Sorted(s2[lo..hi], cmp) && SameOutside(s0, s2, lo, hi)
  {
    hide Sorted, Comparator, Permutation, AllBelow, AllAbove;
    var a, b, c := s0[lo..m], s0[m..l], s0[l..hi];
    var a', c' := s2[lo..m], s2[l..hi];
    Middle(s0, s1, s2, lo, m, l, hi);
    assert s0[lo..hi] == a + b + c && s2[lo..hi] == a' + b + c';
    PermutationJoin(a, a', b, c, c');
    BelowParts(s0, lo, m, l, hi, pivot, cmp);
    BelowPermuted(a, a', b, pivot, cmp);
    AbovePermuted(b, c, c', pivot, cmp);
    SortedJoin(a', b, c', pivot, cmp);
  }

  lemma BelowParts<T>(s: seq<T>, lo: nat, m: nat, l: nat, hi: nat, pivot: T, cmp: (T, T) -> int)
    requires lo <= m <= l <= hi <= |s| && Passed(s, lo, hi, l, m - 1, pivot, cmp)
    ensures AllBelow(s[lo..m] + s[m..l], pivot, cmp) && AllAbove(s[m..l] + s[l..hi], pivot, cmp)
  {
    assert s[lo..m] + s[m..l] == s[lo..l] && s[m..l] + s[l..hi] == s[m..hi];
  }

  /** What each call leaves alone. */
  lemma Middle<T>(s0: seq<T>, s1: seq<T>, s2: seq<T>, lo: nat, m: nat, l: nat, hi: nat)
    requires |s0| == |s1| == |s2| && lo <= m <= l <= hi <= |s0|
    requires s1[..lo] == s0[..lo] && s1[m..] == s0[m..]
    requires s2[..l] == s1[..l] && s2[hi..] == s1[hi..]
    ensures s2[lo..m] == s1[lo..m] && s2[m..l] == s0[m..l] && s1[l..hi] == s0[l..hi]
    ensures s2[..lo] == s0[..lo] && s2[hi..] == s0[hi..]
  {
    forall i | 0 <= i < lo ensures s2[i] == s0[i] {
      assert s2[i] == s2[..l][i] == s1[..l][i] && s1[i] == s1[..lo][i] == s0[..lo][i];
    }
    forall i | lo <= i < l ensures s2[i] == s1[i] {
      assert s2[i] == s2[..l][i] == s1[..l][i];
    }
    forall i | m <= i < |s0| ensures s1[i] == s0[i] {
      assert s1[i] == s1[m..][i - m] == s0[m..][i - m];
    }
    forall i | hi <= i < |s0| ensures s2[i] == s1[i] {
      assert s2[i] == s2[hi..][i - hi] == s1[hi..][i - hi];
    }
  }

  method Sort<T(!new)>(a: array<T>, cmp: (T, T) -> int)
    requires Comparator(cmp)
    modifies a
    ensures Sorted(a[..], cmp) && Permutation(old(a[..]), a[..])
  {
    assert a[..] == a[0..a.Length];
    QuickSortRecursive(a, 0, a.Length, cmp);
    assert a[..] == a[0..a.Length];
  }
}
