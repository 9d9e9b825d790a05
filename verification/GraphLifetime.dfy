/** A graph is freed by whoever finds that its deletion was asked for and that its last session is gone. */
module GraphLifetime {
  /**
   * The counter and the flag are read and written under the graph's lock; the free comes after the lock is
   * dropped. `freeing` has the threads in between, and `freed` counts the frees.
   */
  datatype State = State(numSessions: int, deleteRequested: bool, live: set<nat>, freeing: set<nat>, freed: nat)

  datatype Action =
    | NewSession(t: nat, s: nat)
    | DeleteSession(t: nat, s: nat)
    | DeleteGraph(t: nat)
    | Free(t: nat)

  /** A thread makes one call at a time; sessions are deleted once and after they were made; so is the graph. */
  predicate Callable(st: State, a: Action) {
    match a
    case NewSession(t, s) => t !in st.freeing && s !in st.live
    case DeleteSession(t, s) => t !in st.freeing && s in st.live
    case DeleteGraph(t) => t !in st.freeing && !st.deleteRequested
    case Free(t) => t in st.freeing
  }

  function Apply(st: State, a: Action): State {
    match a
    case NewSession(t, s) => st.(numSessions := st.numSessions + 1, live := st.live + {s})
    case DeleteSession(t, s) =>
      var st1 := st.(numSessions := st.numSessions - 1, live := st.live - {s});
      if st1.deleteRequested && st1.numSessions == 0 then st1.(freeing := st1.freeing + {t}) else st1
    case DeleteGraph(t) =>
      var st1 := st.(deleteRequested := true);
      if st1.numSessions == 0 then st1.(freeing := st1.freeing + {t}) else st1
    case Free(t) => st.(freeing := st.freeing - {t}, freed := st.freed + 1)
  }

  const START := State(0, false, {}, {}, 0)

  /** No one else may use the graph any more. */
  predicate Released(st: State) {
    st.deleteRequested && st.live == {}
  }

  predicate Inv(st: State) {
    && st.numSessions == |st.live|
    && st.freed + |st.freeing| == if Released(st) then 1 else 0
  }

  /** A run in which no session is made of a graph that has been released. */
  ghost predicate IsTrace(trace: seq<State>, acts: seq<Action>) {
    && |trace| == |acts| + 1
    && trace[0] == START
    && (forall k :: 0 <= k < |acts| ==> Callable(trace[k], acts[k]) && trace[k + 1] == Apply(trace[k], acts[k]))
    && (forall k :: 0 <= k < |acts| ==> acts[k].NewSession? ==> !Released(trace[k]))
  }

  /** Of the calls a client can make, only a new session of a released graph breaks the count of frees. */
  lemma StepKeepsIff(st: State, a: Action)
    requires Inv(st) && Callable(st, a)
    ensures Inv(Apply(st, a)) <==> !(a.NewSession? && Released(st))
  {
    if a.DeleteSession? {
      assert |st.live - {a.s}| == |st.live| - 1;
      assert |st.live - {a.s}| == 0 <==> st.live - {a.s} == {};
    } else {
      assert |st.live| == 0 <==> st.live == {};
    }
    assert |st.freeing| == 0 <==> st.freeing == {};
  }

  /** With such a session, the graph is gone or going while the session refers to it. */
  lemma LateSessionDangles(st: State, t: nat, s: nat)
    requires Inv(st) && Callable(st, NewSession(t, s)) && Released(st)
    ensures var st' := Apply(st, NewSession(t, s)); s in st'.live && (st'.freed == 1 || st'.freeing != {})
  {
    assert |st.freeing| == 0 <==> st.freeing == {};
  }

  lemma {:induction false} AlwaysInv(trace: seq<State>, acts: seq<Action>, k: nat)
    requires IsTrace(trace, acts) && k < |trace|
    ensures Inv(trace[k])
  {
    if k > 0 {
      AlwaysInv(trace, acts, k - 1);
      StepKeepsIff(trace[k - 1], acts[k - 1]);
    }
  }

  /** The counter is the number of live sessions, and while there is one the graph is neither freed nor about to be. */
  lemma NeverFreedInUse(trace: seq<State>, acts: seq<Action>, k: nat)
    requires IsTrace(trace, acts) && k < |trace|
    ensures trace[k].numSessions == |trace[k].live|
    ensures trace[k].live != {} ==> trace[k].freed == 0 && trace[k].freeing == {}
    ensures trace[k].freed <= 1
  {
    AlwaysInv(trace, acts, k);
  }

  /** Every call that takes the lock finds the graph still there. */
  lemma CallsFindGraph(trace: seq<State>, acts: seq<Action>, k: nat)
    requires IsTrace(trace, acts) && k < |acts|
    ensures trace[k].freed == 0
  {
    AlwaysInv(trace, acts, k);
    if acts[k].Free? {
      assert acts[k].t in trace[k].freeing;
      assert |trace[k].freeing - {acts[k].t}| == |trace[k].freeing| - 1;
    }
  }

  /** When no thread is between the lock and the free, the graph has been freed once if it was released, else not. */
  lemma FreedOnceReleased(trace: seq<State>, acts: seq<Action>, k: nat)
    requires IsTrace(trace, acts) && k < |trace| && trace[k].freeing == {}
    ensures trace[k].freed == if Released(trace[k]) then 1 else 0
  {
    AlwaysInv(trace, acts, k);
  }
}
