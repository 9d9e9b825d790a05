/** Sessions lag behind their graph and are brought up to date before each run, by any number of threads. */
module SessionDelivery {
  import opened Base
  import opened GraphModel

  /** The definitions of the ops with ids in [lo, hi), in the order of ids. */
  function OpDefs(nodes: Slots, lo: nat, hi: nat): (defs: seq<Node>)
    requires lo <= hi <= |nodes|
    decreases hi - lo
  {
    if lo == hi then []
    else OpDefs(nodes, lo, hi - 1) + (if IsOp(nodes, hi - 1) then [nodes[hi - 1].value] else [])
  }

  /** One definition for each op of the range. */
  lemma {:induction false} OpDefsAreOps(nodes: Slots, lo: nat, hi: nat)
    requires lo <= hi <= |nodes|
    ensures |OpDefs(nodes, lo, hi)| == |OpIds(nodes, lo, hi)|
    ensures forall i :: 0 <= i < |OpIds(nodes, lo, hi)| ==>
              && IsOp(nodes, OpIds(nodes, lo, hi)[i])
              && OpDefs(nodes, lo, hi)[i] == nodes[OpIds(nodes, lo, hi)[i]].value
    decreases hi - lo
  {
    if lo < hi {
      OpDefsAreOps(nodes, lo, hi - 1);
    }
  }

  /** An op below the mark is delivered, and once. */
  lemma EachOpOnce(nodes: Slots, hi: nat, id: nat) returns (i: nat)
    requires hi <= |nodes| && id < hi && IsOp(nodes, id)
    ensures i < |OpIds(nodes, 0, hi)| == |OpDefs(nodes, 0, hi)|
    ensures OpIds(nodes, 0, hi)[i] == id && OpDefs(nodes, 0, hi)[i] == nodes[id].value
    ensures forall j :: 0 <= j < |OpIds(nodes, 0, hi)| && OpIds(nodes, 0, hi)[j] == id ==> j == i
  {
    OpIdsExact(nodes, 0, hi);
    OpDefsAreOps(nodes, 0, hi);
    assert id in OpIds(nodes, 0, hi);
    i :| i < |OpIds(nodes, 0, hi)| && OpIds(nodes, 0, hi)[i] == id;
  }

  lemma {:induction false} OpDefsConcat(nodes: Slots, lo: nat, mid: nat, hi: nat)
    requires lo <= mid <= hi <= |nodes|
    ensures OpDefs(nodes, lo, hi) == OpDefs(nodes, lo, mid) + OpDefs(nodes, mid, hi)
    decreases hi - mid
  {
    if mid < hi {
      OpDefsConcat(nodes, lo, mid, hi - 1);
    }
  }

  lemma {:induction false} OpDefsGrow(nodes: Slots, more: Slots, lo: nat, hi: nat)
    requires lo <= hi <= |nodes| && nodes <= more
    ensures OpDefs(more, lo, hi) == OpDefs(nodes, lo, hi)
    decreases hi - lo
  {
    if lo < hi {
      OpDefsGrow(nodes, more, lo, hi - 1);
    }
  }

  // ----- One thread -----

  class Session {
    var received: seq<Node>
    var last: nat

    /** ExtendSessionGraphHelper without interference; `accepted` is whether Session::Extend succeeds. */
    method Extend(nodes: Slots, accepted: bool) returns (ok: bool)
      requires last <= |nodes| && received == OpDefs(nodes, 0, last)
      modifies this
      ensures old(last) <= last <= |nodes| && received == OpDefs(nodes, 0, last)
      ensures ok <==> last == |nodes|
      ensures !ok ==> !accepted && last == old(last)
      ensures accepted ==> ok
    {
      var count := |nodes|;
      ok := true;
      if last < count {
        var def := [];
        for id := last to count
          invariant def == OpDefs(nodes, last, id)
        {
          if nodes[id].Some? && id > 1 {
            def := def + [nodes[id].value];
          }
        }
        ok := accepted;
        if ok {
          OpDefsConcat(nodes, 0, last, count);
          received := received + def;
          last := count;
        }
      }
    }
  }

  // ----- Any number of threads -----

  /** Where a thread is in a call; `seen` is the number of node ids when the call began. */
  datatype Phase =
    | Idle
    | Waiting(s: nat, seen: nat)                                         // for the session's lock
    | Locked(s: nat, seen: nat)                                          // has it, and waits for the graph's
    | Collecting(s: nat, seen: nat, next: nat, limit: nat, def: seq<Node>)  // has both
    | Sending(s: nat, seen: nat, limit: nat, def: seq<Node>)             // has dropped the graph's
    | Sent(s: nat, seen: nat, limit: nat)                                // Extend has succeeded
    | Ready(s: nat, seen: nat)                                           // has dropped both, and runs

  datatype SessionState = SessionState(received: seq<Node>, last: nat, owner: Option<nat>)

  datatype State = State(nodes: Slots, graphLock: Option<nat>, sessions: map<nat, SessionState>, threads: map<nat, Phase>)

  predicate HasSessionLock(p: Phase) {
    p.Locked? || p.Collecting? || p.Sending? || p.Sent?
  }

  predicate InSession(p: Phase) {
    !p.Idle?
  }

  datatype Action =
    | Grow(slot: Option<Node>)
    | NewSession(s: nat)
    | Call(t: nat, s: nat)
    | Acquire(t: nat)
    | UpToDate(t: nat)
    | StartCollecting(t: nat)
    | Collect(t: nat)
    | Send(t: nat)
    | ExtendOk(t: nat)
    | ExtendFails(t: nat)
    | Commit(t: nat)
    | Finish(t: nat)

  function PhaseOf(st: State, t: nat): Phase {
    if t in st.threads then st.threads[t] else Idle
  }

  function To(st: State, t: nat, p: Phase): State {
    st.(threads := st.threads[t := p])
  }

  predicate Enabled(st: State, a: Action) {
    match a
    case Grow(slot) => st.graphLock.None?
    case NewSession(s) => s !in st.sessions
    case Call(t, s) => PhaseOf(st, t).Idle? && s in st.sessions
    case Acquire(t) => var p := PhaseOf(st, t); p.Waiting? && p.s in st.sessions && st.sessions[p.s].owner.None?
    case UpToDate(t) =>
      var p := PhaseOf(st, t);
      p.Locked? && st.graphLock.None? && p.s in st.sessions && |st.nodes| <= st.sessions[p.s].last
    case StartCollecting(t) =>
      var p := PhaseOf(st, t);
      p.Locked? && st.graphLock.None? && p.s in st.sessions && st.sessions[p.s].last < |st.nodes|
    case Collect(t) => var p := PhaseOf(st, t); p.Collecting? && p.next < p.limit && p.next < |st.nodes|
    case Send(t) => var p := PhaseOf(st, t); p.Collecting? && p.next == p.limit
    case ExtendOk(t) => var p := PhaseOf(st, t); p.Sending? && p.s in st.sessions
    case ExtendFails(t) => var p := PhaseOf(st, t); p.Sending? && p.s in st.sessions
    case Commit(t) => var p := PhaseOf(st, t); p.Sent? && p.s in st.sessions
    case Finish(t) => PhaseOf(st, t).Ready?
  }

  function Apply(st: State, a: Action): State
    requires Enabled(st, a)
  {
    match a
    case Grow(slot) => st.(nodes := st.nodes + [slot])
    case NewSession(s) => st.(sessions := st.sessions[s := SessionState([], 0, None)])
    case Call(t, s) => To(st, t, Waiting(s, |st.nodes|))
    case Acquire(t) =>
      var p := PhaseOf(st, t);
      To(st, t, Locked(p.s, p.seen)).(sessions := st.sessions[p.s := st.sessions[p.s].(owner := Some(t))])
    case UpToDate(t) =>
      var p := PhaseOf(st, t);
      To(st, t, Ready(p.s, p.seen)).(sessions := st.sessions[p.s := st.sessions[p.s].(owner := None)])
    case StartCollecting(t) =>
      var p := PhaseOf(st, t);
      To(st, t, Collecting(p.s, p.seen, st.sessions[p.s].last, |st.nodes|, [])).(graphLock := Some(t))
    case Collect(t) =>
      var p := PhaseOf(st, t);
      To(st, t, p.(next := p.next + 1,
                   def := p.def + (if st.nodes[p.next].Some? && p.next > 1 then [st.nodes[p.next].value] else [])))
    case Send(t) =>
      var p := PhaseOf(st, t);
      To(st, t, Sending(p.s, p.seen, p.limit, p.def)).(graphLock := None)
    case ExtendOk(t) =>
      var p := PhaseOf(st, t);
      To(st, t, Sent(p.s, p.seen, p.limit))
        .(sessions := st.sessions[p.s := st.sessions[p.s].(received := st.sessions[p.s].received + p.def)])
    case ExtendFails(t) =>
      var p := PhaseOf(st, t);
      To(st, t, Idle).(sessions := st.sessions[p.s := st.sessions[p.s].(owner := None)])
    case Commit(t) =>
      var p := PhaseOf(st, t);
      To(st, t, Ready(p.s, p.seen))
        .(sessions := st.sessions[p.s := st.sessions[p.s].(last := p.limit, owner := None)])
    case Finish(t) => To(st, t, Idle)
  }

  function Start(nodes: Slots): State {
    State(nodes, None, map[], map[])
  }

  ghost predicate IsTrace(trace: seq<State>, acts: seq<Action>) {
    && |trace| == |acts| + 1
    && trace[0] == Start(trace[0].nodes)
    && (forall k :: 0 <= k < |acts| ==> Enabled(trace[k], acts[k]) && trace[k + 1] == Apply(trace[k], acts[k]))
  }

  // ----- What every step keeps -----

  /** How many node ids the session knows of: its counter, or what a thread is about to write to it. */
  function Delivered(st: State, s: nat): nat
    requires s in st.sessions
  {
    var owner := st.sessions[s].owner;
    if owner.Some? && PhaseOf(st, owner.value).Sent? then PhaseOf(st, owner.value).limit else st.sessions[s].last
  }

  ghost predicate SessionOk(st: State, s: nat)
    requires s in st.sessions
  {
    var ss := st.sessions[s];
    && ss.last <= Delivered(st, s) <= |st.nodes|
    && ss.received == OpDefs(st.nodes, 0, Delivered(st, s))
    && (ss.owner.Some? ==> HasSessionLock(PhaseOf(st, ss.owner.value)) && PhaseOf(st, ss.owner.value).s == s)
  }

  ghost predicate ThreadOk(st: State, t: nat) {
    var p := PhaseOf(st, t);
    && (InSession(p) ==> p.s in st.sessions && p.seen <= |st.nodes|)
    && (HasSessionLock(p) ==> st.sessions[p.s].owner == Some(t))
    && (st.graphLock == Some(t) <==> p.Collecting?)
    && (p.Collecting? ==>
          && st.sessions[p.s].last <= p.next <= p.limit <= |st.nodes|
          && p.seen <= p.limit
          && p.def == OpDefs(st.nodes, st.sessions[p.s].last, p.next))
    && (p.Sending? ==>
          && st.sessions[p.s].last <= p.limit <= |st.nodes|
          && p.seen <= p.limit
          && p.def == OpDefs(st.nodes, st.sessions[p.s].last, p.limit))
    && (p.Sent? ==> st.sessions[p.s].last <= p.limit && p.seen <= p.limit)
    && (p.Ready? ==> p.seen <= st.sessions[p.s].last)
  }

  ghost predicate Inv(st: State) {
    && (forall s :: s in st.sessions ==> SessionOk(st, s))
    && (forall t: nat :: ThreadOk(st, t))
  }

  lemma GrowKeeps(st: State, slot: Option<Node>)
    requires Inv(st) && Enabled(st, Grow(slot))
    ensures Inv(Apply(st, Grow(slot)))
  {
    var st' := Apply(st, Grow(slot));
    forall s | s in st'.sessions ensures SessionOk(st', s) {
      assert SessionOk(st, s);
      OpDefsGrow(st.nodes, st'.nodes, 0, Delivered(st, s));
    }
    forall t: nat ensures ThreadOk(st', t) {
      assert ThreadOk(st, t);
      var p := PhaseOf(st, t);
      if p.Sending? {
        OpDefsGrow(st.nodes, st'.nodes, st.sessions[p.s].last, p.limit);
      }
    }
  }

  /** What separates the two states is the phase of thread t, and session s, which no other thread has locked. */
  ghost predicate Differ(st: State, st': State, t: nat, s: nat) {
    && st'.nodes == st.nodes
    && s in st.sessions && s in st'.sessions && t in st'.threads
    && st'.sessions == st.sessions[s := st'.sessions[s]] && st.sessions[s].last <= st'.sessions[s].last
    && st'.threads == st.threads[t := st'.threads[t]]
    && (st'.graphLock == st.graphLock || (st.graphLock in {None, Some(t)} && st'.graphLock in {None, Some(t)}))
    && (st.sessions[s].owner in {None, Some(t)} || st'.sessions == st.sessions)
    && (!InSession(PhaseOf(st, t)) || PhaseOf(st, t).s == s)
  }

  lemma OtherSessionKeeps(st: State, st': State, t: nat, s: nat, r: nat)
    requires Inv(st) && Differ(st, st', t, s) && r in st.sessions && r != s
    ensures SessionOk(st', r)
  {
    assert SessionOk(st, r);
  }

  lemma OtherThreadKeeps(st: State, st': State, t: nat, s: nat, u: nat)
    requires Inv(st) && Differ(st, st', t, s) && u != t
    ensures ThreadOk(st', u)
  {
    assert ThreadOk(st, u);
  }

  /** A step of thread t can spoil only the phase of t and the session t is in. */
  lemma ThreadStepKeeps(st: State, st': State, t: nat, s: nat)
    requires Inv(st) && Differ(st, st', t, s)
    requires SessionOk(st', s) && ThreadOk(st', t)
    ensures Inv(st')
  {
    forall r | r in st'.sessions && r != s ensures SessionOk(st', r) {
      OtherSessionKeeps(st, st', t, s, r);
    }
    forall u: nat | u != t ensures ThreadOk(st', u) {
      OtherThreadKeeps(st, st', t, s, u);
    }
  }

  lemma SessionLockKeeps(st: State, a: Action)
    requires Inv(st) && Enabled(st, a) && (a.Acquire? || a.UpToDate? || a.ExtendFails? || a.Finish?)
    ensures Inv(Apply(st, a))
  {
    var p, st' := PhaseOf(st, a.t), Apply(st, a);
    assert ThreadOk(st, a.t) && SessionOk(st, p.s);
    ThreadStepKeeps(st, st', a.t, p.s);
  }

  lemma CollectionKeeps(st: State, a: Action)
    requires Inv(st) && Enabled(st, a) && (a.StartCollecting? || a.Collect? || a.Send?)
    ensures Inv(Apply(st, a))
  {
    var p, st' := PhaseOf(st, a.t), Apply(st, a);
    assert ThreadOk(st, a.t) && SessionOk(st, p.s);
    ThreadStepKeeps(st, st', a.t, p.s);
  }

  lemma DeliveryKeeps(st: State, a: Action)
    requires Inv(st) && Enabled(st, a) && (a.ExtendOk? || a.Commit?)
    ensures Inv(Apply(st, a))
  {
    var p, st' := PhaseOf(st, a.t), Apply(st, a);
    assert ThreadOk(st, a.t) && SessionOk(st, p.s);
    if a.ExtendOk? {
      OpDefsConcat(st.nodes, 0, st.sessions[p.s].last, p.limit);
    }
    ThreadStepKeeps(st, st', a.t, p.s);
  }

  lemma ArrivalKeeps(st: State, a: Action)
    requires Inv(st) && Enabled(st, a) && (a.NewSession? || a.Call?)
    ensures Inv(Apply(st, a))
  {
    var st' := Apply(st, a);
    forall r | r in st'.sessions ensures SessionOk(st', r) {
      assert r in st.sessions ==> SessionOk(st, r);
    }
    forall u: nat ensures ThreadOk(st', u) {
      assert ThreadOk(st, u);
    }
  }

  lemma StepKeeps(st: State, a: Action)
    requires Inv(st) && Enabled(st, a)
    ensures Inv(Apply(st, a))
  {
    match a
    case Grow(slot) => GrowKeeps(st, slot);
    case NewSession(_) => ArrivalKeeps(st, a);
    case Call(_, _) => ArrivalKeeps(st, a);
    case StartCollecting(_) => CollectionKeeps(st, a);
    case Collect(_) => CollectionKeeps(st, a);
    case Send(_) => CollectionKeeps(st, a);
    case ExtendOk(_) => DeliveryKeeps(st, a);
    case Commit(_) => DeliveryKeeps(st, a);
    case _ => SessionLockKeeps(st, a);
  }

  // ----- Over whole runs -----

  lemma {:induction false} AlwaysInv(trace: seq<State>, acts: seq<Action>, k: nat)
    requires IsTrace(trace, acts) && k < |trace|
    ensures Inv(trace[k])
  {
    if k > 0 {
      AlwaysInv(trace, acts, k - 1);
      StepKeeps(trace[k - 1], acts[k - 1]);
    }
  }

  /** What a session has is every op below its mark, each once and in the order of ids. */
  lemma ExactlyOnce(trace: seq<State>, acts: seq<Action>, k: nat, s: nat)
    requires IsTrace(trace, acts) && k < |trace| && s in trace[k].sessions
    ensures trace[k].sessions[s].last <= Delivered(trace[k], s) <= |trace[k].nodes|
    ensures trace[k].sessions[s].owner.None? ==> Delivered(trace[k], s) == trace[k].sessions[s].last
    ensures trace[k].sessions[s].received == OpDefs(trace[k].nodes, 0, Delivered(trace[k], s))
  {
    AlwaysInv(trace, acts, k);
    assert SessionOk(trace[k], s);
  }

  /** A run starts with every op that was in the graph when it was called. */
  lemma RunSeesEarlierOps(trace: seq<State>, acts: seq<Action>, j: nat, k: nat, t: nat)
    requires IsTrace(trace, acts) && j < k < |trace|
    requires acts[j].Call? && acts[j].t == t
    requires forall i :: j < i <= k ==> !PhaseOf(trace[i], t).Idle?
    requires PhaseOf(trace[k], t).Ready?
    ensures acts[j].s in trace[k].sessions
    ensures |trace[j].nodes| <= trace[k].sessions[acts[j].s].last
  {
    CallRemembered(trace, acts, j, k, t);
    AlwaysInv(trace, acts, k);
    assert ThreadOk(trace[k], t);
  }

  lemma {:induction false} CallRemembered(trace: seq<State>, acts: seq<Action>, j: nat, k: nat, t: nat)
    requires IsTrace(trace, acts) && j < k < |trace|
    requires acts[j].Call? && acts[j].t == t
    requires forall i :: j < i <= k ==> !PhaseOf(trace[i], t).Idle?
    ensures PhaseOf(trace[k], t).s == acts[j].s && PhaseOf(trace[k], t).seen == |trace[j].nodes|
    decreases k
  {
    assert trace[k] == Apply(trace[k - 1], acts[k - 1]);
    if k > j + 1 {
      CallRemembered(trace, acts, j, k - 1, t);
    }
  }

  lemma StepForgetsNothing(st: State, a: Action, s: nat)
    requires Inv(st) && Enabled(st, a) && s in st.sessions
    ensures s in Apply(st, a).sessions
    ensures st.sessions[s].last <= Apply(st, a).sessions[s].last
    ensures st.sessions[s].received <= Apply(st, a).sessions[s].received
    ensures st.nodes <= Apply(st, a).nodes
  {
    assert a.Commit? ==> ThreadOk(st, a.t);
  }

  /** The counter of a session never goes back, and what was delivered stays delivered. */
  lemma {:induction false} NeverForgets(trace: seq<State>, acts: seq<Action>, j: nat, k: nat, s: nat)
    requires IsTrace(trace, acts) && j <= k < |trace| && s in trace[j].sessions
    ensures s in trace[k].sessions
    ensures trace[j].sessions[s].last <= trace[k].sessions[s].last
    ensures trace[j].sessions[s].received <= trace[k].sessions[s].received
    ensures trace[j].nodes <= trace[k].nodes
    decreases k
  {
    if j < k {
      NeverForgets(trace, acts, j, k - 1, s);
      AlwaysInv(trace, acts, k - 1);
      StepForgetsNothing(trace[k - 1], acts[k - 1], s);
    }
  }

  /** An Extend that fails changes nothing of the session but its lock. */
  lemma FailureKeepsSession(st: State, t: nat)
    requires Inv(st) && Enabled(st, ExtendFails(t))
    ensures var s, st' := PhaseOf(st, t).s, Apply(st, ExtendFails(t));
            && st'.sessions == st.sessions[s := st.sessions[s].(owner := None)]
            && Delivered(st', s) == st.sessions[s].last
            && st'.sessions[s].received == OpDefs(st'.nodes, 0, st.sessions[s].last)
  {
    assert ThreadOk(st, t) && SessionOk(st, PhaseOf(st, t).s);
  }

  ghost predicate CanStep(st: State, t: nat) {
    exists a :: ActsFor(a, t) && Enabled(st, a)
  }

  predicate ActsFor(a: Action, t: nat) {
    !a.Grow? && !a.NewSession? && !a.Call? && a.t == t
  }

  /** While a call is under way, some call can go on: the two locks are always taken in the same order. */
  lemma NoDeadlock(trace: seq<State>, acts: seq<Action>, k: nat, t: nat)
    requires IsTrace(trace, acts) && k < |trace| && !PhaseOf(trace[k], t).Idle?
    ensures exists u: nat :: CanStep(trace[k], u)
  {
    var st := trace[k];
    AlwaysInv(trace, acts, k);
    assert ThreadOk(st, t) && SessionOk(st, PhaseOf(st, t).s);
    var u := if PhaseOf(st, t).Waiting? && st.sessions[PhaseOf(st, t).s].owner.Some?
             then st.sessions[PhaseOf(st, t).s].owner.value else t;
    var v := if PhaseOf(st, u).Locked? && st.graphLock.Some? then st.graphLock.value else u;
    assert ThreadOk(st, u);
    assert ThreadOk(st, v);
    var p := PhaseOf(st, v);
    var a := match p
      case Waiting(_, _) => Acquire(v)
      case Locked(s, _) => if st.sessions[s].last < |st.nodes| then StartCollecting(v) else UpToDate(v)
      case Collecting(_, _, next, limit, _) => if next < limit then Collect(v) else Send(v)
      case Sending(_, _, _, _) => ExtendOk(v)
      case Sent(_, _, _) => Commit(v)
      case Ready(_, _) => Finish(v);
    assert ActsFor(a, v) && Enabled(st, a);
    assert CanStep(st, v);
  }
}
