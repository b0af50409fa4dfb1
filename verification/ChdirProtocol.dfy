/** generic_at.c: any number of threads run functions in directories of their choice, although the
    working directory belongs to the whole process. A state machine over the threads' steps. */
module ChdirProtocol {
  type Tid = nat
  type Dir = nat
  type Fd = nat

  datatype Option<T> = None | Some(value: T)

  /** Where a call stands. `dir` is what the caller asked for; none stands for AT_FDCWD. */
  datatype Pc =
    | Idle
    | Locking(dir: Option<Dir>)          // pthread_mutex_lock
    | Opening(dir: Option<Dir>)          // open(".")
    | Entering(dir: Option<Dir>, fd: Fd) // fchdir(dirfd)
    | Calling(dir: Option<Dir>, back: Option<Fd>)  // func(data)
    | Leaving(dir: Option<Dir>, fd: Fd)  // fchdir(cwd)
    | Closing(fd: Fd)                    // close(cwd)
    | Unlocking                          // pthread_mutex_unlock

  /** A call of `func`: who, what was asked for, the working directory it ran in, and how many
      returns had failed before it. */
  datatype Call = Call(who: Tid, asked: Option<Dir>, ran: Dir, after: nat)

  /** `stranded` records the directories in which a return to where the thread came from failed, and
      `refused` counts the calls given up because the way to their directory failed. */
  datatype State = State(home: Dir, cwd: Dir, lock: Option<Tid>, pc: map<Tid, Pc>, fds: map<Fd, Dir>,
                         opens: nat, closes: nat, refused: nat, stranded: seq<Dir>, calls: seq<Call>)

  /** Where the process stands between calls: where the last failed return left it, or at home. */
  function BaseOf(home: Dir, stranded: seq<Dir>): Dir {
    if stranded == [] then home else stranded[|stranded| - 1]
  }

  function Base(s: State): Dir { BaseOf(s.home, s.stranded) }

  predicate Init(s: State) {
    && s.cwd == s.home && s.lock == None && (forall t :: t in s.pc ==> s.pc[t] == Idle)
    && s.fds == map[] && s.opens == s.closes == s.refused == 0 && s.stranded == [] && s.calls == []
  }

  // ----- the steps of one thread -----

  predicate Start(s: State, s': State, t: Tid, dir: Option<Dir>) {
    t in s.pc && s.pc[t] == Idle && s' == s.(pc := s.pc[t := Locking(dir)])
  }

  /** AT_FDCWD goes straight to the function. */
  predicate Lock(s: State, s': State, t: Tid) {
    && t in s.pc && s.pc[t].Locking? && s.lock == None
    && var dir := s.pc[t].dir;
       s' == s.(lock := Some(t), pc := s.pc[t := if dir.None? then Calling(None, None) else Opening(dir)])
  }

  predicate Open(s: State, s': State, t: Tid, fd: Fd) {
    && t in s.pc && s.pc[t].Opening? && fd !in s.fds
    && s' == s.(fds := s.fds[fd := s.cwd], opens := s.opens + 1, pc := s.pc[t := Entering(s.pc[t].dir, fd)])
  }

  predicate OpenFails(s: State, s': State, t: Tid) {
    t in s.pc && s.pc[t].Opening? && s' == s.(refused := s.refused + 1, pc := s.pc[t := Unlocking])
  }

  predicate Enter(s: State, s': State, t: Tid) {
    && t in s.pc && s.pc[t].Entering? && s.pc[t].dir.Some?
    && s' == s.(cwd := s.pc[t].dir.value, pc := s.pc[t := Calling(s.pc[t].dir, Some(s.pc[t].fd))])
  }

  predicate EnterFails(s: State, s': State, t: Tid) {
    && t in s.pc && s.pc[t].Entering?
    && s' == s.(refused := s.refused + 1, pc := s.pc[t := Closing(s.pc[t].fd)])
  }

  predicate Run(s: State, s': State, t: Tid) {
    && t in s.pc && s.pc[t].Calling?
    && var pc := s.pc[t];
       s' == s.(calls := s.calls + [Call(t, pc.dir, s.cwd, |s.stranded|)],
                pc := s.pc[t := if pc.back.None? then Unlocking else Leaving(pc.dir, pc.back.value)])
  }

  predicate Leave(s: State, s': State, t: Tid) {
    && t in s.pc && s.pc[t].Leaving? && s.pc[t].fd in s.fds
    && s' == s.(cwd := s.fds[s.pc[t].fd], pc := s.pc[t := Closing(s.pc[t].fd)])
  }

  predicate LeaveFails(s: State, s': State, t: Tid) {
    && t in s.pc && s.pc[t].Leaving?
    && s' == s.(stranded := s.stranded + [s.cwd], pc := s.pc[t := Closing(s.pc[t].fd)])
  }

  predicate Close(s: State, s': State, t: Tid) {
    && t in s.pc && s.pc[t].Closing? && s.pc[t].fd in s.fds
    && s' == s.(fds := s.fds - {s.pc[t].fd}, closes := s.closes + 1, pc := s.pc[t := Unlocking])
  }

  predicate Unlock(s: State, s': State, t: Tid) {
    t in s.pc && s.pc[t].Unlocking? && s' == s.(lock := None, pc := s.pc[t := Idle])
  }

  /** The steps a thread takes while it holds the lock. */
  ghost predicate Inside(s: State, s': State, t: Tid) {
    || (exists fd :: Open(s, s', t, fd)) || OpenFails(s, s', t) || Enter(s, s', t) || EnterFails(s, s', t)
    || Run(s, s', t) || Leave(s, s', t) || LeaveFails(s, s', t) || Close(s, s', t) || Unlock(s, s', t)
  }

  ghost predicate Step(s: State, s': State, t: Tid) {
    (exists dir :: Start(s, s', t, dir)) || Lock(s, s', t) || Inside(s, s', t)
  }

  ghost predicate Next(s: State, s': State) { exists t :: Step(s, s', t) }

  // ----- what every step keeps -----

  predicate Outside(pc: Pc) { pc.Idle? || pc.Locking? }

  /** The descriptor a call has open. */
  function Held(pc: Pc): Option<Fd> {
    match pc
    case Entering(_, fd) => Some(fd)
    case Calling(_, fd) => fd
    case Leaving(_, fd) => Some(fd)
    case Closing(fd) => Some(fd)
    case _ => None
  }

  /** What holds of the thread that has the lock: the descriptor it opens is the only one there is
      and leads back to the base; and the working directory is what the caller asked for between the
      two changes, and the base otherwise. */
  ghost predicate HolderOk(s: State, pc: Pc) {
    && !Outside(pc)
    && s.fds.Keys == (match Held(pc) case Some(fd) => {fd} case None => {})
    && (Held(pc).Some? && !pc.Closing? ==> s.fds[Held(pc).value] == Base(s))
    && (pc.Opening? || pc.Entering? || pc.Leaving? ==> pc.dir.Some?)
    && (pc.Calling? ==> (pc.dir.Some? <==> pc.back.Some?))
    && s.cwd == (if (pc.Calling? || pc.Leaving?) && pc.dir.Some? then pc.dir.value else Base(s))
  }

  /** A call ran where its caller wanted it; one for the working directory, in the base of its time. */
  ghost predicate Rightly(s: State, c: Call) {
    && c.after <= |s.stranded|
    && c.ran == match c.asked case Some(d) => d case None => BaseOf(s.home, s.stranded[..c.after])
  }

  ghost predicate Inv(s: State) {
    && (forall t :: t in s.pc && !Outside(s.pc[t]) ==> s.lock == Some(t))
    && (match s.lock
        case Some(t) => t in s.pc && HolderOk(s, s.pc[t])
        case None => s.fds == map[] && s.cwd == Base(s))
    && s.opens == s.closes + |s.fds|
    && (forall i :: 0 <= i < |s.calls| ==> Rightly(s, s.calls[i]))
  }

  lemma InitOk(s: State)
    requires Init(s)
    ensures Inv(s)
  {
  }

  /** A step inside changes only what belongs to the holder. */
  lemma InsideOk(s: State, s': State, t: Tid)
    requires Inv(s) && Inside(s, s', t)
    ensures Inv(s')
  {
    hide Rightly;
    assert t in s.pc && !Outside(s.pc[t]) && s.lock == Some(t);
    if fd: Fd :| Open(s, s', t, fd) {
      OpenOk(s, s', t, fd);
    } else if Close(s, s', t) {
      CloseOk(s, s', t);
    } else if Run(s, s', t) {
      RunOk(s, s', t);
    } else {
      SameCalls(s, s');
    }
  }

  lemma SameCalls(s: State, s': State)
    requires forall i :: 0 <= i < |s.calls| ==> Rightly(s, s.calls[i])
    requires s'.calls == s.calls && s'.home == s.home && s.stranded <= s'.stranded
    ensures forall i :: 0 <= i < |s'.calls| ==> Rightly(s', s'.calls[i])
  {
    forall i | 0 <= i < |s'.calls| ensures Rightly(s', s'.calls[i]) {
      var c := s.calls[i];
      assert Rightly(s, c);
      assert s'.stranded[..c.after] == s.stranded[..c.after];
    }
  }

  lemma OpenOk(s: State, s': State, t: Tid, fd: Fd)
    requires Inv(s) && Open(s, s', t, fd) && s.lock == Some(t)
    ensures Inv(s')
  {
    SameCalls(s, s');
    assert s.fds.Keys == {} && s.fds == map[];
    assert s'.fds == map[fd := s.cwd];
  }

  lemma CloseOk(s: State, s': State, t: Tid)
    requires Inv(s) && Close(s, s', t) && s.lock == Some(t)
    ensures Inv(s')
  {
    SameCalls(s, s');
    assert s'.fds.Keys == {} && |s.fds.Keys| == 1 && |s'.fds.Keys| == 0;
  }

  lemma RunOk(s: State, s': State, t: Tid)
    requires Inv(s) && Run(s, s', t) && s.lock == Some(t)
    ensures Inv(s')
  {
    forall i | 0 <= i < |s'.calls| ensures Rightly(s', s'.calls[i]) {
      if i < |s.calls| {
        assert Rightly(s, s.calls[i]);
      } else {
        assert s.stranded[..|s.stranded|] == s.stranded;
      }
    }
  }

  lemma StepOk(s: State, s': State, t: Tid)
    requires Inv(s) && Step(s, s', t)
    ensures Inv(s')
  {
    if Inside(s, s', t) {
      InsideOk(s, s', t);
    }
  }

  /** The base changes with a failed return only, and then to the directory that caller had asked for. */
  lemma Stranding(s: State, s': State, t: Tid)
    requires Inv(s) && Step(s, s', t)
    ensures LeaveFails(s, s', t) ==> t in s.pc && s.pc[t].Leaving? && s.pc[t].dir.Some? && Base(s') == s.pc[t].dir.value
    ensures !LeaveFails(s, s', t) ==> s'.stranded == s.stranded && Base(s') == Base(s)
  {
    hide Rightly;
    if LeaveFails(s, s', t) {
      assert !Outside(s.pc[t]) && s.lock == Some(t);
    }
  }

  /** A behaviour: a start and then steps of any threads in any order. */
  ghost predicate Behaviour(trace: seq<State>) {
    && trace != [] && Init(trace[0])
    && forall i :: 0 <= i < |trace| - 1 ==> Next(trace[i], trace[i + 1])
  }

  lemma {:induction false} AllReachable(trace: seq<State>, i: nat)
    requires Behaviour(trace) && i < |trace|
    ensures Inv(trace[i]) && trace[i].home == trace[0].home
    decreases i
  {
    hide Inv, Init;
    if i == 0 {
      InitOk(trace[0]);
    } else {
      AllReachable(trace, i - 1);
      assert Next(trace[i - 1], trace[i]);
      var t :| Step(trace[i - 1], trace[i], t);
      StepOk(trace[i - 1], trace[i], t);
    }
  }

  /** In every interleaving: a function asked to run in a directory runs there, and one asked to run in
      the working directory runs where the last return that had failed by then left the process, or at
      home; whenever the lock is free the working directory is that base and no descriptor is open, so
      the process is at home if and only if no return has failed or the last that did was at home; and
      no two threads are inside at once. */
  lemma Safety(trace: seq<State>, i: nat)
    requires Behaviour(trace) && i < |trace|
    ensures var s := trace[i];
      && (forall k :: 0 <= k < |s.calls| && s.calls[k].asked.Some? ==> s.calls[k].ran == s.calls[k].asked.value)
      && (forall k :: 0 <= k < |s.calls| ==> s.calls[k].after <= |s.stranded|)
      && (forall k :: 0 <= k < |s.calls| && s.calls[k].asked.None? ==>
            s.calls[k].ran == BaseOf(trace[0].home, s.stranded[..s.calls[k].after]))
      && (s.lock.None? ==> s.fds == map[] && s.opens == s.closes)
      && (s.lock.None? ==> s.cwd == BaseOf(trace[0].home, s.stranded))
      && (s.lock.None? ==>
            (s.cwd == trace[0].home <==> s.stranded == [] || s.stranded[|s.stranded| - 1] == trace[0].home))
      && (forall t, u :: t in s.pc && u in s.pc && !Outside(s.pc[t]) && !Outside(s.pc[u]) ==> t == u)
  {
    AllReachable(trace, i);
    var s := trace[i];
    forall k | 0 <= k < |s.calls| ensures Rightly(s, s.calls[k]) {
    }
  }

  /** Without the condition it fails: one return that does not succeed leaves the process elsewhere. */
  lemma LostExample(home: Dir, other: Dir) returns (trace: seq<State>)
    requires home != other
    ensures Behaviour(trace) && trace[|trace| - 1].lock.None? && trace[|trace| - 1].cwd != trace[0].home
  {
    hide Next;
    var s0 := State(home, home, None, map[0 := Idle], map[], 0, 0, 0, [], []);
    var s1 := s0.(pc := map[0 := Locking(Some(other))]);
    var s2 := s1.(lock := Some(0), pc := map[0 := Opening(Some(other))]);
    var s3 := s2.(fds := map[7 := home], opens := 1, pc := map[0 := Entering(Some(other), 7)]);
    var s4 := s3.(cwd := other, pc := map[0 := Calling(Some(other), Some(7))]);
    var s5 := s4.(calls := [Call(0, Some(other), other, 0)], pc := map[0 := Leaving(Some(other), 7)]);
    var s6 := s5.(stranded := [other], pc := map[0 := Closing(7)]);
    var s7 := s6.(fds := map[], closes := 1, pc := map[0 := Unlocking]);
    var s8 := s7.(lock := None, pc := map[0 := Idle]);
    trace := [s0, s1, s2, s3, s4, s5, s6, s7, s8];
    Starts(s0, s1, 0, Some(other));
    Locks(s1, s2, 0);
    Opens(s2, s3, 0, 7);
    Enters(s3, s4, 0);
    Runs(s4, s5, 0);
    Strands(s5, s6, 0);
    Closes(s6, s7, 0);
    Unlocks(s7, s8, 0);
  }

  lemma Starts(s: State, s': State, t: Tid, dir: Option<Dir>)
    requires Start(s, s', t, dir)
    ensures Next(s, s')
  {
    assert Step(s, s', t);
  }

  lemma Locks(s: State, s': State, t: Tid)
    requires Lock(s, s', t)
    ensures Next(s, s')
  {
    assert Step(s, s', t);
  }

  lemma Opens(s: State, s': State, t: Tid, fd: Fd)
    requires Open(s, s', t, fd)
    ensures Next(s, s')
  {
    assert Inside(s, s', t);
    assert Step(s, s', t);
  }

  lemma Enters(s: State, s': State, t: Tid)
    requires Enter(s, s', t)
    ensures Next(s, s')
  {
    assert Inside(s, s', t);
    assert Step(s, s', t);
  }

  lemma Runs(s: State, s': State, t: Tid)
    requires Run(s, s', t)
    ensures Next(s, s')
  {
    assert Inside(s, s', t);
    assert Step(s, s', t);
  }

  lemma Strands(s: State, s': State, t: Tid)
    requires LeaveFails(s, s', t)
    ensures Next(s, s')
  {
    assert Inside(s, s', t);
    assert Step(s, s', t);
  }

  lemma Closes(s: State, s': State, t: Tid)
    requires Close(s, s', t)
    ensures Next(s, s')
  {
    assert Inside(s, s', t);
    assert Step(s, s', t);
  }

  lemma Unlocks(s: State, s': State, t: Tid)
    requires Unlock(s, s', t)
    ensures Next(s, s')
  {
    assert Inside(s, s', t);
    assert Step(s, s', t);
  }

  // ----- progress -----

  /** How many more steps a call takes at most before it lets go of the lock. */
  function Rank(pc: Pc): nat {
    match pc
    case Idle => 0
    case Locking(_) => 7
    case Opening(_) => 6
    case Entering(_, _) => 5
    case Calling(_, _) => 4
    case Leaving(_, _) => 3
    case Closing(_) => 2
    case Unlocking => 1
  }

  /** What the thread with the lock can do next. */
  function NextOf(s: State, t: Tid): State
    requires t in s.pc
  {
    match s.pc[t]
    case Opening(_) => s.(refused := s.refused + 1, pc := s.pc[t := Unlocking])
    case Entering(_, fd) => s.(refused := s.refused + 1, pc := s.pc[t := Closing(fd)])
    case Calling(dir, fd) =>
      s.(calls := s.calls + [Call(t, dir, s.cwd, |s.stranded|)],
         pc := s.pc[t := if fd.None? then Unlocking else Leaving(dir, fd.value)])
    case Leaving(_, fd) => s.(stranded := s.stranded + [s.cwd], pc := s.pc[t := Closing(fd)])
    case Closing(fd) => s.(fds := s.fds - {fd}, closes := s.closes + 1, pc := s.pc[t := Unlocking])
    case _ => s.(lock := None, pc := s.pc[t := Idle])
  }

  lemma CanGoOn(s: State, t: Tid)
    requires Inv(s) && s.lock == Some(t)
    ensures Inside(s, NextOf(s, t), t)
  {
    hide Rightly;
    var s' := NextOf(s, t);
    match s.pc[t] {
      case Opening(_) => assert OpenFails(s, s', t);
      case Entering(_, _) => assert EnterFails(s, s', t);
      case Calling(_, _) => assert Run(s, s', t);
      case Leaving(_, _) => assert LeaveFails(s, s', t);
      case Closing(fd) => assert Close(s, s', t);
      case Unlocking => assert Unlock(s, s', t);
      case _ =>
    }
  }

  lemma Descends(s: State, s': State, t: Tid)
    requires Inside(s, s', t)
    ensures t in s.pc && t in s'.pc && Rank(s'.pc[t]) < Rank(s.pc[t])
  {
  }

  lemma OthersKeepOut(s: State, s': State, t: Tid, u: Tid)
    requires Inv(s) && s.lock == Some(t) && u != t && Step(s, s', u)
    ensures s'.lock == s.lock && t in s'.pc && s'.pc[t] == s.pc[t]
  {
    hide Rightly, HolderOk, Inside;
    NotOutside(s, s', u);
  }

  lemma NotOutside(s: State, s': State, t: Tid)
    ensures Inside(s, s', t) ==> t in s.pc && !Outside(s.pc[t])
  {
  }

  /** The thread with the lock can always go on, whatever the others do, and every step it takes
      brings it nearer to the release, which is at most six steps away. */
  lemma HolderProgress(s: State, t: Tid)
    requires Inv(s) && s.lock == Some(t)
    ensures t in s.pc && 1 <= Rank(s.pc[t]) <= 6
    ensures exists s' :: Inside(s, s', t)
    ensures forall s' :: Inside(s, s', t) ==> t in s'.pc && Rank(s'.pc[t]) < Rank(s.pc[t])
    ensures forall s', u :: u != t && Step(s, s', u) ==> s'.lock == s.lock && t in s'.pc && s'.pc[t] == s.pc[t]
  {
    hide Rightly, Inside, Step;
    CanGoOn(s, t);
    forall s' | Inside(s, s', t) ensures t in s'.pc && Rank(s'.pc[t]) < Rank(s.pc[t]) {
      Descends(s, s', t);
    }
    forall s', u | u != t && Step(s, s', u) ensures s'.lock == s.lock && t in s'.pc && s'.pc[t] == s.pc[t] {
      OthersKeepOut(s, s', t, u);
    }
  }
}
