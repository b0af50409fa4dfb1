/** How often a caller's function runs: what happens between two moments at which the lock is free. */
module ChdirCalls {
  import opened ChdirProtocol

  /** From moment i to moment j the lock goes from free to free through the hands of one thread. */
  ghost predicate Session(trace: seq<State>, i: nat, j: nat, t: Tid) {
    && i + 1 < j < |trace| && trace[i].lock == None && trace[j].lock == None
    && forall k :: i < k < j ==> trace[k].lock == Some(t)
  }

  /** The working directory has not changed since moment i. */
  ghost predicate Still(trace: seq<State>, i: nat, k: nat) {
    i <= k < |trace| && forall m :: i <= m <= k ==> trace[m].cwd == trace[i].cwd
  }

  /** The function has run once since moment i, for the caller and where it wanted. */
  ghost predicate Done(s0: State, s: State, t: Tid, dir: Option<Dir>) {
    && s.refused == s0.refused
    && s.calls == s0.calls + [Call(t, dir, if dir.Some? then dir.value else s0.cwd, |s0.stranded|)]
  }

  ghost predicate Untouched(s0: State, s: State) {
    s.refused == s0.refused && s.calls == s0.calls && s.stranded == s0.stranded
  }

  /** What has happened by moment k of a session that began after moment i. */
  ghost predicate Midway(trace: seq<State>, i: nat, k: nat, t: Tid, dir: Option<Dir>) {
    && i < k < |trace|
    && var s0, s := trace[i], trace[k];
    && s.lock == Some(t) && t in s.pc
    && match s.pc[t]
       case Opening(d) => d == dir && dir.Some? && Untouched(s0, s) && Still(trace, i, k)
       case Entering(d, _) => d == dir && dir.Some? && Untouched(s0, s) && Still(trace, i, k)
       case Calling(d, back) =>
         && d == dir && (dir.None? <==> back.None?) && Untouched(s0, s)
         && s.cwd == if dir.Some? then dir.value else s0.cwd
       case Leaving(d, _) => d == dir && dir.Some? && Done(s0, s, t, dir)
       case Closing(_) => dir.Some? && Ended(trace, i, k, t, dir)
       case Unlocking => Ended(trace, i, k, t, dir)
       case _ => false
  }

  ghost predicate Ended(trace: seq<State>, i: nat, k: nat, t: Tid, dir: Option<Dir>) {
    && i < k < |trace|
    && (Done(trace[i], trace[k], t, dir) || GivenUp(trace, i, k, dir))
  }

  ghost predicate GivenUp(trace: seq<State>, i: nat, k: nat, dir: Option<Dir>) {
    && i < k < |trace| && dir.Some? && Still(trace, i, k)
    && trace[k].refused == trace[i].refused + 1 && trace[k].calls == trace[i].calls
  }

  // ----- one step of a session -----

  /** Only taking the lock changes it from free to held. */
  lemma Taken(s: State, s': State, u: Tid, t: Tid)
    requires Inv(s) && Step(s, s', u) && s.lock == None && s'.lock == Some(t)
    ensures Lock(s, s', t)
  {
    hide HolderOk, Rightly;
  }

  /** While a thread has the lock the others can only queue up. */
  lemma OthersQueue(s: State, s': State, t: Tid, u: Tid)
    requires Inv(s) && s.lock == Some(t) && u != t && Step(s, s', u)
    ensures s'.lock == s.lock && s'.calls == s.calls && s'.refused == s.refused
    ensures s'.cwd == s.cwd && s'.stranded == s.stranded
    ensures t in s.pc ==> t in s'.pc && s'.pc[t] == s.pc[t]
  {
    hide HolderOk, Rightly, Inside;
    NotOutside(s, s', u);
    assert !Inside(s, s', u);
  }

  lemma StaysStill(trace: seq<State>, i: nat, k: nat)
    requires Still(trace, i, k) && k + 1 < |trace| && trace[k + 1].cwd == trace[k].cwd
    ensures Still(trace, i, k + 1)
  {
  }

  lemma ByOther(trace: seq<State>, i: nat, k: nat, t: Tid, dir: Option<Dir>, u: Tid)
    requires Midway(trace, i, k, t, dir) && k + 1 < |trace|
    requires Inv(trace[k]) && u != t && Step(trace[k], trace[k + 1], u)
    ensures Midway(trace, i, k + 1, t, dir)
  {
    hide Inv, Step, Still;
    OthersQueue(trace[k], trace[k + 1], t, u);
    if Still(trace, i, k) {
      StaysStill(trace, i, k);
    }
  }

  lemma BySelf(trace: seq<State>, i: nat, k: nat, t: Tid, dir: Option<Dir>)
    requires Midway(trace, i, k, t, dir) && k + 1 < |trace|
    requires Inside(trace[k], trace[k + 1], t) && trace[k + 1].lock == Some(t)
    ensures Midway(trace, i, k + 1, t, dir)
  {
    hide Still;
    if Still(trace, i, k) && trace[k + 1].cwd == trace[k].cwd {
      StaysStill(trace, i, k);
    }
  }

  lemma OwnStep(s: State, s': State, t: Tid)
    requires Inv(s) && s.lock == Some(t) && Step(s, s', t)
    ensures Inside(s, s', t)
  {
    hide Rightly, Inside;
  }

  lemma {:induction false} Under(trace: seq<State>, i: nat, j: nat, k: nat, t: Tid) returns (dir: Option<Dir>)
    requires Behaviour(trace) && Session(trace, i, j, t) && i < k < j
    ensures t in trace[i].pc && trace[i].pc[t] == Locking(dir)
    ensures Midway(trace, i, k, t, dir)
    decreases k
  {
    hide Inv, Step, Inside, Midway, Init;
    AllReachable(trace, k - 1);
    assert Next(trace[k - 1], trace[k]);
    var u :| Step(trace[k - 1], trace[k], u);
    if k == i + 1 {
      Taken(trace[i], trace[k], u, t);
      dir := trace[i].pc[t].dir;
      Begun(trace, i, t);
    } else {
      dir := Under(trace, i, j, k - 1, t);
      assert trace[k - 1].lock == Some(t) && trace[k].lock == Some(t);
      if u == t {
        OwnStep(trace[k - 1], trace[k], t);
        BySelf(trace, i, k - 1, t, dir);
      } else {
        ByOther(trace, i, k - 1, t, dir, u);
      }
    }
  }

  lemma Begun(trace: seq<State>, i: nat, t: Tid)
    requires i + 1 < |trace| && Lock(trace[i], trace[i + 1], t)
    ensures Midway(trace, i, i + 1, t, trace[i].pc[t].dir)
  {
  }

  /** Only its holder lets go of the lock, and changes nothing else. */
  lemma Released(s: State, s': State, u: Tid, t: Tid)
    requires Inv(s) && Step(s, s', u) && s.lock == Some(t) && s'.lock == None
    ensures t in s.pc && s.pc[t] == Unlocking
    ensures s'.calls == s.calls && s'.refused == s.refused && s'.cwd == s.cwd
  {
    hide Rightly, HolderOk;
    if u != t {
      OthersQueue(s, s', t, u);
    }
  }

  /** Each time the lock is taken and let go of, one function is called or one request is refused, and not
      both. The function called is that of the thread with the lock, in the directory it asked for when it
      queued up; a request without a directory is never refused, and runs in the working directory as it was
      when the lock was free. A request is refused only if the process stayed where it was all the time:
      where the working directory changed at all, it became the one asked for, and the function was called. */
  lemma OneCall(trace: seq<State>, i: nat, j: nat, t: Tid) returns (dir: Option<Dir>)
    requires Behaviour(trace) && Session(trace, i, j, t)
    ensures t in trace[i].pc && trace[i].pc[t] == Locking(dir)
    ensures (|trace[j].calls| - |trace[i].calls|) + (trace[j].refused - trace[i].refused) == 1
    ensures trace[i].refused <= trace[j].refused
    ensures trace[j].refused == trace[i].refused ==>
      trace[j].calls == trace[i].calls + [Call(t, dir, if dir.Some? then dir.value else trace[i].cwd, |trace[i].stranded|)]
    ensures trace[j].refused != trace[i].refused ==> trace[j].calls == trace[i].calls && dir.Some?
    ensures (exists k :: i <= k <= j && trace[k].cwd != trace[i].cwd) ==> trace[j].refused == trace[i].refused
  {
    hide Inv, Step, Behaviour, Midway, Still;
    dir := Under(trace, i, j, j - 1, t);
    Last(trace, i, j, t);
    Unlocked(trace, i, j, t, dir);
    MoveIsSeen(trace, i, j);
    Either(trace, i, j, t, dir);
  }

  lemma Either(trace: seq<State>, i: nat, j: nat, t: Tid, dir: Option<Dir>)
    requires Ended(trace, i, j, t, dir)
    ensures (|trace[j].calls| - |trace[i].calls|) + (trace[j].refused - trace[i].refused) == 1
    ensures trace[i].refused <= trace[j].refused
    ensures trace[j].refused == trace[i].refused ==> Done(trace[i], trace[j], t, dir)
    ensures trace[j].refused != trace[i].refused ==> GivenUp(trace, i, j, dir)
  {
    hide Still;
  }

  lemma MoveIsSeen(trace: seq<State>, i: nat, j: nat)
    requires i <= j < |trace|
    ensures (exists k :: i <= k <= j && trace[k].cwd != trace[i].cwd) ==> !Still(trace, i, j)
  {
  }

  lemma Last(trace: seq<State>, i: nat, j: nat, t: Tid)
    requires Behaviour(trace) && Session(trace, i, j, t)
    ensures var s, s' := trace[j - 1], trace[j];
      && t in s.pc && s.pc[t] == Unlocking
      && s'.calls == s.calls && s'.refused == s.refused && s'.cwd == s.cwd
  {
    hide Inv, Step;
    AllReachable(trace, j - 1);
    assert trace[j - 1].lock == Some(t);
    assert Next(trace[j - 1], trace[j]);
    var u :| Step(trace[j - 1], trace[j], u);
    Released(trace[j - 1], trace[j], u, t);
  }

  lemma Unlocked(trace: seq<State>, i: nat, j: nat, t: Tid, dir: Option<Dir>)
    requires i + 1 < j < |trace| && Midway(trace, i, j - 1, t, dir) && trace[j - 1].pc[t] == Unlocking
    requires var s, s' := trace[j - 1], trace[j]; s'.calls == s.calls && s'.refused == s.refused && s'.cwd == s.cwd
    ensures Ended(trace, i, j, t, dir)
  {
    hide Still;
    if Still(trace, i, j - 1) {
      StaysStill(trace, i, j - 1);
    }
  }

  // ----- every request can be served -----

  lemma Extend(trace: seq<State>, s: State)
    requires Behaviour(trace) && Next(trace[|trace| - 1], s)
    ensures Behaviour(trace + [s])
  {
    hide Next, Init;
    var more := trace + [s];
    forall i | 0 <= i < |more| - 1 ensures Next(more[i], more[i + 1]) {
      if i < |trace| - 1 {
        assert Next(trace[i], trace[i + 1]);
      }
    }
  }

  function LastOf(trace: seq<State>): State
    requires trace != []
  {
    trace[|trace| - 1]
  }

  /** Whatever has happened so far, once the lock is free the first thread in the queue can be served
      without a failure: its function is called and the process is back where it was. */
  lemma CanBeServed(trace: seq<State>, t: Tid) returns (more: seq<State>)
    requires Behaviour(trace) && LastOf(trace).lock == None
    requires t in LastOf(trace).pc && LastOf(trace).pc[t].Locking?
    ensures trace < more && Behaviour(more) && Session(more, |trace| - 1, |more| - 1, t)
    ensures |LastOf(more).calls| == |LastOf(trace).calls| + 1
    ensures LastOf(more).cwd == LastOf(trace).cwd && LastOf(more).stranded == LastOf(trace).stranded
  {
    assert trace != [];
    hide Next, Behaviour, Session;
    var n := |trace| - 1;
    var s := LastOf(trace);
    NothingOpen(trace);
    var dir := s.pc[t].dir;
    var s1 := s.(lock := Some(t), pc := s.pc[t := if dir.None? then Calling(None, None) else Opening(dir)]);
    Locks(s, s1, t);
    Extend(trace, s1);
    var begun := trace + [s1];
    SessionBegins(trace, s1, t);
    if dir.None? {
      more := Finished(begun, n, t, None);
    } else {
      var s2 := s1.(fds := s1.fds[0 := s1.cwd], opens := s1.opens + 1, pc := s1.pc[t := Entering(dir, 0)]);
      Opens(s1, s2, t, 0);
      Extend(begun, s2);
      SessionGoesOn(begun, n, s2, t);
      var s3 := s2.(cwd := dir.value, pc := s2.pc[t := Calling(dir, Some(0))]);
      Enters(s2, s3, t);
      Extend(begun + [s2], s3);
      SessionGoesOn(begun + [s2], n, s3, t);
      more := Finished(begun + [s2] + [s3], n, t, Some(s.cwd));
    }
  }

  lemma NothingOpen(trace: seq<State>)
    requires Behaviour(trace) && LastOf(trace).lock == None
    ensures LastOf(trace).fds == map[]
  {
    AllReachable(trace, |trace| - 1);
  }

  /** One thread has had the lock since after moment i. */
  ghost predicate Holding(trace: seq<State>, i: nat, t: Tid) {
    && i + 1 < |trace| && trace[i].lock == None
    && forall k :: i < k < |trace| ==> trace[k].lock == Some(t)
  }

  lemma SessionBegins(trace: seq<State>, s: State, t: Tid)
    requires trace != [] && LastOf(trace).lock == None && s.lock == Some(t)
    ensures Holding(trace + [s], |trace| - 1, t)
  {
  }

  lemma SessionGoesOn(trace: seq<State>, i: nat, s: State, t: Tid)
    requires Holding(trace, i, t) && s.lock == Some(t)
    ensures Holding(trace + [s], i, t)
  {
  }

  lemma SessionEnds(trace: seq<State>, i: nat, s: State, t: Tid)
    requires Holding(trace, i, t) && s.lock == None
    ensures Session(trace + [s], i, |trace|, t)
  {
  }

  /** From the call of the function to the release of the lock. */
  lemma Finished(trace: seq<State>, i: nat, t: Tid, home: Option<Dir>) returns (more: seq<State>)
    requires Behaviour(trace) && Holding(trace, i, t)
    requires t in LastOf(trace).pc && LastOf(trace).pc[t].Calling?
    requires var s := LastOf(trace);
      if home.None? then s.pc[t].back.None? else s.pc[t].back == Some(0) && 0 in s.fds && s.fds[0] == home.value
    ensures trace < more && Behaviour(more) && Session(more, i, |more| - 1, t)
    ensures |LastOf(more).calls| == |LastOf(trace).calls| + 1
    ensures LastOf(more).cwd == (if home.Some? then home.value else LastOf(trace).cwd)
    ensures LastOf(more).stranded == LastOf(trace).stranded
  {
    assert trace != [];
    hide Next, Behaviour, Session, Holding;
    var s := LastOf(trace);
    var dir := s.pc[t].dir;
    var s1 := s.(calls := s.calls + [Call(t, dir, s.cwd, |s.stranded|)],
                 pc := s.pc[t := if home.None? then Unlocking else Leaving(dir, 0)]);
    Runs(s, s1, t);
    Extend(trace, s1);
    SessionGoesOn(trace, i, s1, t);
    var called, s2 := trace + [s1], s1;
    if home.Some? {
      var s3 := s1.(cwd := home.value, pc := s1.pc[t := Closing(0)]);
      Leaves(s1, s3, t);
      Extend(called, s3);
      SessionGoesOn(called, i, s3, t);
      s2 := s3.(fds := s3.fds - {0}, closes := s3.closes + 1, pc := s3.pc[t := Unlocking]);
      Closes(s3, s2, t);
      Extend(called + [s3], s2);
      SessionGoesOn(called + [s3], i, s2, t);
      called := called + [s3] + [s2];
    }
    var s4 := s2.(lock := None, pc := s2.pc[t := Idle]);
    Unlocks(s2, s4, t);
    Extend(called, s4);
    SessionEnds(called, i, s4, t);
    more := called + [s4];
  }

  lemma Leaves(s: State, s': State, t: Tid)
    requires Leave(s, s', t)
    ensures Next(s, s')
  {
    assert Inside(s, s', t);
    assert Step(s, s', t);
  }
}
