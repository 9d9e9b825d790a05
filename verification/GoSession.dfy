/** The Go session: a mutex and a wait group keep Close apart from the calls that use the C session. */
module GoSession {
  import opened Base

  /** Where a thread is in Run, PartialRun.Run or NewPartialRun (the first four), or in Close. */
  datatype Phase =
    | Idle
    | Entering      // has the mutex, before the test for a closed session
    | Counted       // has the mutex, and is in the wait group
    | InFlight      // has dropped the mutex, before or in the C call
    | Waiting       // Close: has the mutex, in wg.Wait
    | Closing       // Close: has the mutex, in TF_CloseSession
    | Deleting      // Close: has the mutex, in TF_DeleteSession
    | Leaving       // has the mutex, and returns

  /** `open` is whether the handle is non-nil; `deleted` counts the C sessions deleted. */
  datatype State = State(open: bool, wg: int, mutex: Option<nat>, deleted: nat, threads: map<nat, Phase>)

  datatype Action =
    | EnterCall(t: nat)
    | FindClosed(t: nat)
    | Add(t: nat)
    | Unlock(t: nat)
    | Done(t: nat)
    | EnterClose(t: nat)
    | WaitOver(t: nat)
    | CloseFails(t: nat)
    | CloseSucceeds(t: nat)
    | Delete(t: nat)
    | Leave(t: nat)

  function PhaseOf(st: State, t: nat): Phase {
    if t in st.threads then st.threads[t] else Idle
  }

  function To(st: State, t: nat, p: Phase): State {
    st.(threads := st.threads[t := p])
  }

  predicate Enabled(st: State, a: Action) {
    match a
    case EnterCall(t) => PhaseOf(st, t).Idle? && st.mutex.None?
    case FindClosed(t) => PhaseOf(st, t).Entering? && !st.open
    case Add(t) => PhaseOf(st, t).Entering? && st.open
    case Unlock(t) => PhaseOf(st, t).Counted?
    case Done(t) => PhaseOf(st, t).InFlight?
    case EnterClose(t) => PhaseOf(st, t).Idle? && st.mutex.None?
    case WaitOver(t) => PhaseOf(st, t).Waiting? && st.wg == 0
    case CloseFails(t) => PhaseOf(st, t).Closing?
    case CloseSucceeds(t) => PhaseOf(st, t).Closing?
    case Delete(t) => PhaseOf(st, t).Deleting?
    case Leave(t) => PhaseOf(st, t).Leaving?
  }

  function Apply(st: State, a: Action): State {
    match a
    case EnterCall(t) => To(st, t, Entering).(mutex := Some(t))
    case FindClosed(t) => To(st, t, Leaving)
    case Add(t) => To(st, t, Counted).(wg := st.wg + 1)
    case Unlock(t) => To(st, t, InFlight).(mutex := None)
    case Done(t) => To(st, t, Idle).(wg := st.wg - 1)
    case EnterClose(t) => To(st, t, Waiting).(mutex := Some(t))
    case WaitOver(t) => To(st, t, if st.open then Closing else Leaving)
    case CloseFails(t) => To(st, t, Leaving)
    case CloseSucceeds(t) => To(st, t, Deleting)
    case Delete(t) => To(st, t, Leaving).(open := false, deleted := st.deleted + 1)
    case Leave(t) => To(st, t, Idle).(mutex := None)
  }

  const START := State(true, 0, None, 0, map[])

  ghost predicate IsTrace(trace: seq<State>, acts: seq<Action>) {
    && |trace| == |acts| + 1
    && trace[0] == START
    && (forall k :: 0 <= k < |acts| ==> Enabled(trace[k], acts[k]) && trace[k + 1] == Apply(trace[k], acts[k]))
  }

  // ----- What every step keeps -----

  predicate InGroup(p: Phase) {
    p.Counted? || p.InFlight?
  }

  predicate HasMutex(p: Phase) {
    !p.Idle? && !p.InFlight?
  }

  predicate Ending(p: Phase) {
    p.Closing? || p.Deleting?
  }

  function Group(st: State): set<nat> {
    set t | t in st.threads && InGroup(st.threads[t])
  }

  ghost predicate ThreadOk(st: State, t: nat) {
    var p := PhaseOf(st, t);
    && (HasMutex(p) <==> st.mutex == Some(t))
    && (InGroup(p) ==> st.open)
    && (Ending(p) ==> st.open && Group(st) == {})
  }

  ghost predicate Inv(st: State) {
    && st.wg == |Group(st)|
    && st.deleted == (if st.open then 0 else 1)
    && (forall t: nat :: ThreadOk(st, t))
  }

  /** The group gains the thread that adds itself and loses the thread that is done. */
  lemma GroupAfter(st: State, a: Action)
    requires Inv(st) && Enabled(st, a)
    ensures Group(Apply(st, a)) == if a.Add? then Group(st) + {a.t} else if a.Done? then Group(st) - {a.t} else Group(st)
    ensures a.Add? ==> a.t !in Group(st)
    ensures a.Done? ==> a.t in Group(st)
  {
  }

  lemma OthersKeep(st: State, a: Action, t: nat)
    requires Inv(st) && Enabled(st, a) && t != a.t
    ensures ThreadOk(Apply(st, a), t)
  {
    GroupAfter(st, a);
    assert ThreadOk(st, t) && ThreadOk(st, a.t);
    assert InGroup(PhaseOf(st, t)) ==> t in Group(st);
  }

  lemma StepKeeps(st: State, a: Action)
    requires Inv(st) && Enabled(st, a)
    ensures Inv(Apply(st, a))
  {
    var st' := Apply(st, a);
    GroupAfter(st, a);
    assert ThreadOk(st, a.t);
    forall t: nat ensures ThreadOk(st', t) {
      if t == a.t {
        assert st.wg == 0 <==> Group(st) == {};
      } else {
        OthersKeep(st, a, t);
      }
    }
  }

  lemma {:induction false} AlwaysInv(trace: seq<State>, acts: seq<Action>, k: nat)
    requires IsTrace(trace, acts) && k < |trace|
    ensures Inv(trace[k])
  {
    if k > 0 {
      AlwaysInv(trace, acts, k - 1);
      StepKeeps(trace[k - 1], acts[k - 1]);
    }
  }

  // ----- Over whole runs -----

  /**
   * A call in flight has an open handle, whatever Close does meanwhile; the C session is not being closed or
   * deleted, and has not been.
   */
  lemma CallsAreSafe(trace: seq<State>, acts: seq<Action>, k: nat, t: nat)
    requires IsTrace(trace, acts) && k < |trace| && PhaseOf(trace[k], t).InFlight?
    ensures trace[k].open && trace[k].deleted == 0
    ensures forall u: nat :: !Ending(PhaseOf(trace[k], u))
  {
    AlwaysInv(trace, acts, k);
    assert ThreadOk(trace[k], t);
    assert t in Group(trace[k]);
    forall u: nat ensures !Ending(PhaseOf(trace[k], u)) {
      assert ThreadOk(trace[k], u);
    }
  }

  /** However often Close is called and fails, the C session is deleted at most once, and never used after. */
  lemma DeletedAtMostOnce(trace: seq<State>, acts: seq<Action>, k: nat)
    requires IsTrace(trace, acts) && k < |trace|
    ensures trace[k].deleted == if trace[k].open then 0 else 1
    ensures k < |acts| && (acts[k].CloseFails? || acts[k].CloseSucceeds? || acts[k].Delete?) ==> trace[k].deleted == 0
  {
    AlwaysInv(trace, acts, k);
    if k < |acts| {
      assert ThreadOk(trace[k], acts[k].t);
    }
  }

  /** A session once closed stays closed. */
  lemma {:induction false} StaysClosed(trace: seq<State>, acts: seq<Action>, j: nat, k: nat)
    requires IsTrace(trace, acts) && j <= k < |trace| && !trace[j].open
    ensures !trace[k].open
    decreases k
  {
    if j < k {
      StaysClosed(trace, acts, j, k - 1);
      assert trace[k] == Apply(trace[k - 1], acts[k - 1]);
    }
  }

  /** While Close waits, calls leave the group and none joins it. */
  lemma NoneJoinsWhileWaiting(trace: seq<State>, acts: seq<Action>, k: nat, t: nat)
    requires IsTrace(trace, acts) && k < |acts| && PhaseOf(trace[k], t).Waiting?
    ensures Group(trace[k + 1]) <= Group(trace[k])
    ensures acts[k].t != t ==> acts[k].Done? && trace[k + 1].wg == trace[k].wg - 1
  {
    AlwaysInv(trace, acts, k);
    GroupAfter(trace[k], acts[k]);
    assert ThreadOk(trace[k], t) && ThreadOk(trace[k], acts[k].t);
  }

  /** So Close has no more to wait for than the calls in flight when it got the mutex. */
  lemma {:induction false} WaitIsBounded(trace: seq<State>, acts: seq<Action>, j: nat, k: nat, t: nat)
    requires IsTrace(trace, acts) && j <= k < |trace|
    requires forall i :: j <= i <= k ==> PhaseOf(trace[i], t).Waiting?
    ensures k - j <= trace[j].wg && trace[k].wg == trace[j].wg - (k - j)
    decreases k
  {
    AlwaysInv(trace, acts, k);
    if j < k {
      WaitIsBounded(trace, acts, j, k - 1, t);
      NoneJoinsWhileWaiting(trace, acts, k - 1, t);
      assert trace[k] == Apply(trace[k - 1], acts[k - 1]);
    }
  }

  ghost predicate CanStep(st: State, t: nat) {
    exists a: Action :: a.t == t && !PhaseOf(st, t).Idle? && Enabled(st, a)
  }

  /** While any call or Close is under way, one of them can go on: calls in flight end without the mutex. */
  lemma NoDeadlock(trace: seq<State>, acts: seq<Action>, k: nat)
    requires IsTrace(trace, acts) && k < |trace|
    requires exists t: nat :: !PhaseOf(trace[k], t).Idle?
    ensures exists t: nat :: CanStep(trace[k], t)
  {
    AlwaysInv(trace, acts, k);
    var st := trace[k];
    var t: nat :| !PhaseOf(st, t).Idle?;
    var u: nat := t;
    if PhaseOf(st, t).Waiting? && st.wg != 0 {
      u :| u in Group(st);
      assert ThreadOk(st, t) && ThreadOk(st, u);
    }
    var a := match PhaseOf(st, u)
      case Entering => if st.open then Add(u) else FindClosed(u)
      case Counted => Unlock(u)
      case InFlight => Done(u)
      case Waiting => WaitOver(u)
      case Closing => CloseSucceeds(u)
      case Deleting => Delete(u)
      case Leaving => Leave(u);
    assert a.t == u && Enabled(st, a);
    assert CanStep(st, u);
  }
}
