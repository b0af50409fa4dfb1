/** What a run of list operations means: every list behaves as a value of its own, except where a
    removal by address meets a chain that is shared. */
module ListMeaning {
  import opened ListNodes

  // ----- what a run means -----

  /** The lists are named by the order in which they came. The payload that a removal is given is one
      of the caller's own that no list holds, or the one that list `j` holds at place `i`. */
  datatype Op<!V> =
    | NewList(compare: Option<(V, V) -> int>, copies: bool, destroys: bool)
    | CopyOf(k: nat)
    | AppendTo(k: nat, v: V)
    | PrependTo(k: nat, v: V)
    | RemoveFrom(k: nat, v: V)
    | RemoveHeld(k: nat, j: nat, i: nat)
    | DestroyOf(k: nat)

  /** What a list holds; lists of one group share their chain. */
  datatype Slot<!V> = Slot(compare: Option<(V, V) -> int>, copies: bool, group: nat, value: seq<V>)

  /** A destroyed list is gone. After a lost removal, which fails an assertion, nothing happens any more. */
  datatype State<!V> = State(slots: seq<Option<Slot<V>>>, next: nat, lost: bool)

  predicate Live<V>(st: State<V>, k: nat) { k < |st.slots| && st.slots[k].Some? }

  /** Another list stands at the same chain. */
  predicate SharedBy<V>(st: State<V>, k: nat, j: nat)
    requires Live(st, k)
  {
    j != k && Live(st, j) && st.slots[j].value.group == st.slots[k].value.group
  }

  ghost predicate Shares<V>(st: State<V>, k: nat)
    requires Live(st, k)
  {
    exists j: nat :: SharedBy(st, k, j)
  }

  /** The first place whose value compares equal, or the length. */
  function FirstEqual<V>(f: (V, V) -> int, s: seq<V>, v: V): (i: nat)
    ensures i <= |s|
  {
    if s == [] then 0 else if f(s[0], v) == 0 then 0 else 1 + FirstEqual(f, s[1..], v)
  }

  /** The list leaves its group if that has other members, and holds something else. */
  ghost function Write<V>(st: State<V>, k: nat, value: seq<V>): State<V>
    requires Live(st, k)
  {
    var x := st.slots[k].value;
    var y := x.(group := if Shares(st, k) then st.next else x.group, value := value);
    State(st.slots[k := Some(y)], st.next + 1, st.lost)
  }

  /** The removal of the payload that a search found at place `i`, if it found one. */
  ghost function Removal<V>(st: State<V>, k: nat, i: nat): State<V>
    requires Live(st, k)
  {
    var x := st.slots[k].value;
    if i >= |x.value| then st
    else if x.compare.None? && Shares(st, k) then Write(st, k, x.value).(lost := true)
    else Write(st, k, WithoutValue(x.value, i))
  }

  /** Where a payload of the caller's own is found: by its value, and never by its address. */
  function PlaceOf<V>(x: Slot<V>, v: V): nat {
    match x.compare case Some(f) => FirstEqual(f, x.value, v) case None => |x.value|
  }

  /** Where a payload that a list `y` holds is found: by its address, in the chain of that list only. */
  function HeldPlace<V>(x: Slot<V>, y: Slot<V>, i: nat): nat
    requires i < |y.value|
  {
    if x.compare.None? && x.group == y.group then i else PlaceOf(x, y.value[i])
  }

  ghost function Apply<V>(st: State<V>, op: Op<V>): State<V> {
    if st.lost then st
    else
      match op
      case NewList(compare, copies, _) => State(st.slots + [Some(Slot(compare, copies, st.next, []))], st.next + 1, false)
      case CopyOf(k) =>
        if Live(st, k) && st.slots[k].value.copies then st.(slots := st.slots + [st.slots[k]]) else st
      case AppendTo(k, v) => if Live(st, k) then Write(st, k, st.slots[k].value.value + [v]) else st
      case PrependTo(k, v) => if Live(st, k) then Write(st, k, [v] + st.slots[k].value.value) else st
      case RemoveFrom(k, v) => if Live(st, k) then Removal(st, k, PlaceOf(st.slots[k].value, v)) else st
      case RemoveHeld(k, j, i) =>
        if Live(st, k) && Live(st, j) && i < |st.slots[j].value.value|
        then Removal(st, k, HeldPlace(st.slots[k].value, st.slots[j].value, i)) else st
      case DestroyOf(k) => if Live(st, k) then st.(slots := st.slots[k := None]) else st
  }

  ghost function ApplyAll<V>(ops: seq<Op<V>>): State<V> {
    if ops == [] then State([], 0, false) else Apply(ApplyAll(ops[..|ops| - 1]), ops[|ops| - 1])
  }

  // ----- value semantics: no groups -----

  datatype Plain<!V> = Plain(compare: Option<(V, V) -> int>, copies: bool, value: seq<V>)

  type Plains<!V> = seq<Option<Plain<V>>>

  predicate LivePlain<V>(ps: Plains<V>, k: nat) { k < |ps| && ps[k].Some? }

  function Without<V>(s: seq<V>, i: nat): seq<V> { if i < |s| then s[..i] + s[i + 1..] else s }

  /** Where a payload that list `j` holds is found in list `k` if every list has its own: by its
      address, in list `j` only. */
  function PlainPlace<V>(ps: Plains<V>, k: nat, j: nat, i: nat): nat
    requires LivePlain(ps, k) && LivePlain(ps, j) && i < |ps[j].value.value|
  {
    match ps[k].value.compare
    case Some(f) => FirstEqual(f, ps[k].value.value, ps[j].value.value[i])
    case None => if j == k then i else |ps[k].value.value|
  }

  function PlainWrite<V>(ps: Plains<V>, k: nat, value: seq<V>): Plains<V>
    requires LivePlain(ps, k)
  {
    ps[k := Some(ps[k].value.(value := value))]
  }

  function PlainApply<V>(ps: Plains<V>, op: Op<V>): Plains<V> {
    match op
    case NewList(compare, copies, _) => ps + [Some(Plain(compare, copies, []))]
    case CopyOf(k) => if LivePlain(ps, k) && ps[k].value.copies then ps + [ps[k]] else ps
    case AppendTo(k, v) => if LivePlain(ps, k) then PlainWrite(ps, k, ps[k].value.value + [v]) else ps
    case PrependTo(k, v) => if LivePlain(ps, k) then PlainWrite(ps, k, [v] + ps[k].value.value) else ps
    case RemoveFrom(k, v) =>
      if LivePlain(ps, k) && ps[k].value.compare.Some?
      then PlainWrite(ps, k, Without(ps[k].value.value, FirstEqual(ps[k].value.compare.value, ps[k].value.value, v))) else ps
    case RemoveHeld(k, j, i) =>
      if LivePlain(ps, k) && LivePlain(ps, j) && i < |ps[j].value.value|
      then PlainWrite(ps, k, Without(ps[k].value.value, PlainPlace(ps, k, j, i))) else ps
    case DestroyOf(k) => if LivePlain(ps, k) then ps[k := None] else ps
  }

  function PlainAll<V>(ops: seq<Op<V>>): Plains<V> {
    if ops == [] then [] else PlainApply(PlainAll(ops[..|ops| - 1]), ops[|ops| - 1])
  }

  function PlainOf<V>(x: Option<Slot<V>>): Option<Plain<V>> {
    match x case Some(y) => Some(Plain(y.compare, y.copies, y.value)) case None => None
  }

  function Contents<V>(st: State<V>): (ps: Plains<V>)
    ensures |ps| == |st.slots| && forall k :: 0 <= k < |ps| ==> ps[k] == PlainOf(st.slots[k])
  {
    seq(|st.slots|, k requires 0 <= k < |st.slots| => PlainOf(st.slots[k]))
  }

  lemma WriteForgets<V>(st: State<V>, k: nat, value: seq<V>)
    requires Live(st, k)
    ensures LivePlain(Contents(st), k) && Contents(Write(st, k, value)) == PlainWrite(Contents(st), k, value)
  {
  }

  lemma SameForgets<V>(st: State<V>, k: nat)
    requires Live(st, k)
    ensures LivePlain(Contents(st), k) && Contents(st) == PlainWrite(Contents(st), k, st.slots[k].value.value)
  {
  }

  lemma RemovalForgets<V>(st: State<V>, k: nat, i: nat)
    requires Live(st, k)
    ensures Removal(st, k, i).lost <==> st.lost || LostAt(st, k, i)
    ensures LivePlain(Contents(st), k)
    ensures !LostAt(st, k, i) ==>
      Contents(Removal(st, k, i)) == PlainWrite(Contents(st), k, Without(st.slots[k].value.value, i))
  {
    hide Write;
    var s := st.slots[k].value.value;
    SameForgets(st, k);
    WriteForgets(st, k, s);
    WriteForgets(st, k, Without(s, i));
    WriteKeepsLost(st, k, Without(s, i));
  }

  lemma WriteKeepsLost<V>(st: State<V>, k: nat, value: seq<V>)
    requires Live(st, k)
    ensures Write(st, k, value).lost == st.lost
  {
  }

  /** A payload is found, by its address, in a chain that is shared. */
  ghost predicate LostAt<V>(st: State<V>, k: nat, i: nat)
    requires Live(st, k)
  {
    i < |st.slots[k].value.value| && st.slots[k].value.compare.None? && Shares(st, k)
  }

  /** The removals that fail: of a payload of the list's own chain, by address, while it is shared. */
  ghost predicate Fails<V>(st: State<V>, op: Op<V>) {
    && op.RemoveHeld? && Live(st, op.k) && Live(st, op.j) && op.i < |st.slots[op.j].value.value|
    && var x, y := st.slots[op.k].value, st.slots[op.j].value;
       x.compare.None? && x.group == y.group && op.i < |x.value| && Shares(st, op.k)
  }

  /** An operation that does not fail does to the contents what value semantics says; it is lost if
      and only if it fails. */
  lemma ForgetsGroups<V>(st: State<V>, op: Op<V>)
    requires !st.lost
    ensures Apply(st, op).lost <==> Fails(st, op)
    ensures !Fails(st, op) ==> Contents(Apply(st, op)) == PlainApply(Contents(st), op)
  {
    hide Write, Removal, Shares;
    var ps := Contents(st);
    match op
    case NewList(_, _, _) =>
    case CopyOf(_) =>
    case AppendTo(k, v) =>
      if Live(st, k) {
        WriteForgets(st, k, st.slots[k].value.value + [v]);
        WriteKeepsLost(st, k, st.slots[k].value.value + [v]);
      }
    case PrependTo(k, v) =>
      if Live(st, k) {
        WriteForgets(st, k, [v] + st.slots[k].value.value);
        WriteKeepsLost(st, k, [v] + st.slots[k].value.value);
      }
    case RemoveFrom(k, v) =>
      if Live(st, k) {
        RemovalForgets(st, k, PlaceOf(st.slots[k].value, v));
        SameForgets(st, k);
      }
    case RemoveHeld(k, j, i) =>
      if Live(st, k) && Live(st, j) && i < |st.slots[j].value.value| {
        RemovalForgets(st, k, HeldPlace(st.slots[k].value, st.slots[j].value, i));
        if st.slots[k].value.group == st.slots[j].value.group && j != k {
          assert SharedBy(st, k, j);
          OtherShares(st, k, j);
        }
        SameForgets(st, k);
      }
    case DestroyOf(_) =>
  }

  lemma OtherShares<V>(st: State<V>, k: nat, j: nat)
    requires Live(st, k) && SharedBy(st, k, j)
    ensures Shares(st, k)
  {
  }

  /** A run in which no removal fails leaves exactly what value semantics says. */
  lemma {:induction false} RunForgetsGroups<V>(ops: seq<Op<V>>)
    ensures !ApplyAll(ops).lost ==> Contents(ApplyAll(ops)) == PlainAll(ops)
    ensures ApplyAll(ops).lost <==> FailsWithin(ops, |ops|)
  {
    hide Fails, PlainApply, Apply, FailsWithin;
    if ops == [] {
      NothingRun<V>();
    } else {
      var m := |ops| - 1;
      RunForgetsGroups(ops[..m]);
      if ApplyAll(ops[..m]).lost {
        LostStays(ApplyAll(ops[..m]), ops[m]);
      } else {
        ForgetsGroups(ApplyAll(ops[..m]), ops[m]);
      }
      FailsEarlier(ops, m);
      assert ApplyAll(ops) == Apply(ApplyAll(ops[..m]), ops[m]);
    }
  }

  lemma NothingRun<V>()
    ensures !ApplyAll<V>([]).lost && Contents(ApplyAll<V>([])) == PlainAll<V>([]) && !FailsWithin<V>([], 0)
  {
  }

  lemma LostStays<V>(st: State<V>, op: Op<V>)
    requires st.lost
    ensures Apply(st, op) == st
  {
  }

  ghost predicate FailsWithin<V>(ops: seq<Op<V>>, m: nat)
    requires m <= |ops|
  {
    exists n :: 0 <= n < m && Fails(ApplyAll(ops[..n]), ops[n])
  }

  lemma FailsEarlier<V>(ops: seq<Op<V>>, m: nat)
    requires |ops| == m + 1
    ensures FailsWithin(ops, m + 1) <==> FailsWithin(ops[..m], m) || Fails(ApplyAll(ops[..m]), ops[m])
  {
    hide Fails, ApplyAll;
    var before := ops[..m];
    forall n | 0 <= n < m ensures before[..n] == ops[..n] && before[n] == ops[n] {
    }
    if FailsWithin(before, m) {
      var n :| 0 <= n < m && Fails(ApplyAll(before[..n]), before[n]);
      assert Fails(ApplyAll(ops[..n]), ops[n]);
    }
    if FailsWithin(ops, m + 1) {
      var n :| 0 <= n < m + 1 && Fails(ApplyAll(ops[..n]), ops[n]);
      if n < m {
        assert Fails(ApplyAll(before[..n]), before[n]);
      }
    }
  }

  /** With comparison functions no removal fails. */
  lemma {:induction false} ComparedNeverLost<V>(ops: seq<Op<V>>)
    requires forall n :: 0 <= n < |ops| && ops[n].NewList? ==> ops[n].compare.Some?
    ensures !ApplyAll(ops).lost
    ensures forall k: nat :: Live(ApplyAll(ops), k) ==> ApplyAll(ops).slots[k].value.compare.Some?
  {
    if ops != [] {
      var m := |ops| - 1;
      ComparedNeverLost(ops[..m]);
      ForgetsGroups(ApplyAll(ops[..m]), ops[m]);
    }
  }
}
