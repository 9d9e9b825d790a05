/** The main results on lowered while loops. */
module WhileTheorem {
  import opened Base
  import opened GraphModel
  import opened Dataflow
  import opened GraphImport
  import opened WhileGraph
  import opened WhileMeaning
  import opened WhileStops
  import opened WhileCorrect
  import opened DataflowRuns

  // ----- After the loop has stopped -----

  lemma EnterQuiet(m: Machine, l: Loop, t: nat, i: nat)
    requires Assembled(m, l) && i < l.N()
    ensures m.fires(l.EnterId(i), Iter(t)).NotFired?
  {
    assert Wired(m, l, i, l.CondOutput(), l.BodyOutput(i));
    FireBlocked(m, l.EnterId(i), Iter(t), 0);
  }

  lemma CopyQuiet(m: Machine, sub: Sub, order: seq<nat>, start: nat, dsts: seq<Output>, tag: Tag, j: nat)
    requires HoldsCopy(m, Copied(sub, Placement(order, start), dsts))
    requires Distinct(order) && j < |order| && IsOp(sub.nodes, order[j])
    requires m.fires(dsts[0].node, tag).NotFired?
    ensures m.fires(start + j, tag).NotFired?
  {
    IndexOfDistinct(order, j);
    CopyBlocked(m, Copied(sub, Placement(order, start), dsts), tag, 0, order[j]);
  }

  ghost predicate NoMerge(m: Machine, l: Loop, t: nat) {
    forall i :: 0 <= i < l.N() ==> m.fires(l.MergeId(i), Iter(t)).NotFired?
  }

  lemma SwitchesQuiet(m: Machine, l: Loop, t: nat)
    requires Assembled(m, l) && NoMerge(m, l, t)
    ensures NoSwitch(m, l, t)
  {
    forall i | 0 <= i < l.N()
      ensures m.fires(l.SwitchId(i), Iter(t)).NotFired? && m.fires(l.ExitId(i), Iter(t)).NotFired?
    {
      SwitchBlocked(m, l, i, l.CondOutput(), l.BodyOutput(i), t);
    }
  }

  lemma CondQuiet(m: Machine, l: Loop, t: nat, j: nat)
    requires ValidLoop(l) && HoldsCopy(m, CondCopy(l)) && j < |l.condOrder|
    requires m.fires(l.MergeId(0), Iter(t)).NotFired?
    ensures m.fires(l.CondStart() + j, Iter(t)).NotFired?
  {
    assert ReadsEarlier(l.cond.nodes, l.condOrder, j);
    CopyQuiet(m, l.cond, l.condOrder, l.CondStart(), l.Merges(), Iter(t), j);
  }

  lemma BodyQuiet(m: Machine, l: Loop, t: nat, j: nat)
    requires ValidLoop(l) && HoldsCopy(m, BodyCopy(l)) && j < |l.bodyOrder|
    requires m.fires(l.SwitchId(0), Iter(t)).NotFired?
    ensures m.fires(l.BodyStart() + j, Iter(t)).NotFired?
  {
    assert ReadsEarlier(l.body.nodes, l.bodyOrder, j);
    CopyQuiet(m, l.body, l.bodyOrder, l.BodyStart(), l.SwitchTrues(), Iter(t), j);
  }

  ghost predicate NoCopy(m: Machine, start: nat, count: nat, t: nat) {
    forall j :: start <= j < start + count ==> m.fires(j, Iter(t)).NotFired?
  }

  ghost predicate NoEnds(m: Machine, l: Loop, t: nat) {
    forall i :: 0 <= i < l.N() ==> m.fires(l.EnterId(i), Iter(t)).NotFired? && m.fires(l.NextId(i), Iter(t)).NotFired?
  }

  lemma CopiesQuiet(m: Machine, l: Loop, t: nat)
    requires ValidLoop(l) && Assembled(m, l)
    requires m.fires(l.MergeId(0), Iter(t)).NotFired? && m.fires(l.SwitchId(0), Iter(t)).NotFired?
    ensures NoCopy(m, l.CondStart(), |l.condOrder|, t) && NoCopy(m, l.BodyStart(), |l.bodyOrder|, t)
  {
    forall j | l.CondStart() <= j < l.CondStart() + |l.condOrder|
      ensures m.fires(j, Iter(t)).NotFired?
    {
      CondQuiet(m, l, t, j - l.CondStart());
    }
    forall j | l.BodyStart() <= j < l.BodyStart() + |l.bodyOrder|
      ensures m.fires(j, Iter(t)).NotFired?
    {
      BodyQuiet(m, l, t, j - l.BodyStart());
    }
  }

  lemma EndsQuiet(m: Machine, l: Loop, t: nat)
    requires Assembled(m, l) && OutputsAreOps(l) && NoSwitch(m, l, t)
    ensures NoEnds(m, l, t)
  {
    forall i | 0 <= i < l.N()
      ensures m.fires(l.EnterId(i), Iter(t)).NotFired? && m.fires(l.NextId(i), Iter(t)).NotFired?
    {
      EnterQuiet(m, l, t, i);
      NextAbsent(m, l, t, i);
    }
  }

  lemma NodeQuiet(m: Machine, l: Loop, t: nat, id: nat)
    requires Consistent(m) && m.base == l.base && |m.nodes| == l.End()
    requires NoMerge(m, l, t) && NoSwitch(m, l, t) && NoEnds(m, l, t)
    requires NoCopy(m, l.CondStart(), |l.condOrder|, t) && NoCopy(m, l.BodyStart(), |l.bodyOrder|, t)
    ensures m.fires(id, Iter(t)).NotFired?
  {
    if id < l.base || l.End() <= id {
      assert Lawful(m, id, Iter(t));
    } else if id < l.MergeId(0) {
      assert id == l.EnterId(id - l.base);
    } else if id < l.CondStart() {
      assert id == l.MergeId(id - l.MergeId(0));
    } else if l.SwitchId(0) <= id < l.BodyStart() {
      assert id == l.SwitchId(id - l.SwitchId(0));
    } else if l.NextId(0) <= id < l.ExitId(0) {
      assert id == l.NextId(id - l.NextId(0));
    } else if l.ExitId(0) <= id {
      assert id == l.ExitId(id - l.ExitId(0));
    }
  }

  /** An iteration that no loop variable reaches executes nothing. */
  lemma IterationQuiet(m: Machine, l: Loop, t: nat, id: nat)
    requires ValidLoop(l) && Assembled(m, l) && OutputsAreOps(l)
    requires m.base == l.base && |m.nodes| == l.End()
    requires NoMerge(m, l, t)
    ensures m.fires(id, Iter(t)).NotFired?
  {
    SwitchesQuiet(m, l, t);
    EndsQuiet(m, l, t);
    CopiesQuiet(m, l, t);
    NodeQuiet(m, l, t, id);
  }

  lemma MergesQuiet(m: Machine, l: Loop, t: nat)
    requires Assembled(m, l) && OutputsAreOps(l) && NoSwitch(m, l, t)
    ensures NoMerge(m, l, t + 1)
  {
    forall i | 0 <= i < l.N()
      ensures m.fires(l.MergeId(i), Iter(t + 1)).NotFired?
    {
      NextAbsent(m, l, t, i);
    }
  }

  ghost predicate NoSwitchAfter(m: Machine, l: Loop, last: nat) {
    forall t: nat {:trigger NoSwitch(m, l, t)} :: last < t ==> NoSwitch(m, l, t)
  }

  lemma NoSwitchAfterStop(m: Machine, l: Loop, steps: nat)
    requires Assembled(m, l) && Suffices(l, steps) && OutputsAreOps(l) && CondGuarded(l)
    requires StopsAfter(l, m.kernels, Starts(m, l), steps)
    ensures NoSwitchAfter(m, l, steps)
  {
    forall t: nat | steps < t
      ensures NoSwitch(m, l, t)
    {
      NothingSwitches(m, l, steps, t);
    }
  }

  /** Where nothing switches, nothing fires in the iterations that follow. */
  lemma QuietWithoutSwitches(m: Machine, l: Loop, last: nat)
    requires ValidLoop(l) && Assembled(m, l) && OutputsAreOps(l)
    requires m.base == l.base && |m.nodes| == l.End() && NoSwitchAfter(m, l, last)
    ensures QuietAfter(m, last + 1)
  {
    forall id: nat, t: nat | last + 1 < t
      ensures m.fires(id, Iter(t)).NotFired?
    {
      assert NoSwitch(m, l, t - 1);
      MergesQuiet(m, l, t - 1);
      IterationQuiet(m, l, t, id);
    }
  }

  lemma QuietIfGuarded(m: Machine, l: Loop, steps: nat)
    requires ValidLoop(l) && Assembled(m, l) && Suffices(l, steps) && OutputsAreOps(l) && CondGuarded(l)
    requires m.base == l.base && |m.nodes| == l.End()
    requires StopsAfter(l, m.kernels, Starts(m, l), steps)
    ensures QuietAfter(m, steps + 1)
  {
    NoSwitchAfterStop(m, l, steps);
    QuietWithoutSwitches(m, l, steps);
  }

  // ----- A condition that needs no computed variable -----

  lemma SwitchesThenExits(m: Machine, l: Loop, t: nat, v: nat, x: Tensor, p: Tensor)
    requires Assembled(m, l) && v < l.N()
    requires m.fires(l.MergeId(v), Iter(t)) == LiveFiring([x])
    requires TokenAt(m, l.CondOutput(), Iter(t)) == Live(p) && !m.kernels.truth(p)
    ensures m.fires(l.ExitId(v), Iter(t)).LiveFiring?
  {
    SwitchFires(m, l, v, l.CondOutput(), l.BodyOutput(v), t, x, p);
    ExitFires(m, l, v, l.CondOutput(), l.BodyOutput(v), t, x, p);
  }

  /** If the condition needs no variable that the body computes, the variables it needs reach the iteration
      after the one in which the loop stops. */
  lemma UnguardedGoesOn(m: Machine, l: Loop, t: nat, x: seq<Tensor>)
    requires Assembled(m, l) && Feeds(l.cond, l.cond.outputs[0]) && !CondGuarded(l) && |x| == l.N()
    requires Holds(m, l, t, x)
    ensures forall j :: 0 <= j < l.N() && CondNeeds(l, j) ==>
              m.fires(l.MergeId(j), Iter(t + 1)) == LiveFiring([BodyValues(l, m.kernels, x)[j]])
  {
    IterationSwitches(m, l, t, x);
    forall j | 0 <= j < l.N() && CondNeeds(l, j)
      ensures m.fires(l.MergeId(j), Iter(t + 1)) == LiveFiring([BodyValues(l, m.kernels, x)[j]])
    {
      NextLive(m, l, t, x, Val(l.cond, m.kernels, x, l.cond.outputs[0]), j);
    }
  }

  /** Some variable then exits twice: in the iteration in which the loop stops, and in the one after. */
  lemma UnguardedExitsTwice(m: Machine, l: Loop, x: seq<Tensor>) returns (v: nat)
    requires Assembled(m, l) && Feeds(l.cond, l.cond.outputs[0]) && !CondGuarded(l) && |x| == l.N()
    requires Holds(m, l, 0, x)
    requires forall p :: !m.kernels.truth(p)
    ensures v < l.N()
    ensures m.fires(l.ExitId(v), Iter(0)).LiveFiring? && m.fires(l.ExitId(v), Iter(1)).LiveFiring?
  {
    var out := l.cond.outputs[0];
    v := if IsVariable(l.cond, out) then IndexOf(l.cond.inputs, out.node) else 0;
    assert CondNeeds(l, v);
    PredicateLive(m, l, 0, x);
    SwitchesThenExits(m, l, 0, v, x[v], Val(l.cond, m.kernels, x, out));
    UnguardedGoesOn(m, l, 0, x);
    var y := BodyValues(l, m.kernels, x);
    PredicateLive(m, l, 1, y);
    SwitchesThenExits(m, l, 1, v, y[v], Val(l.cond, m.kernels, y, out));
  }

  // ----- The theorem -----

  /** For all kernels and initial values: if the source loop stops after `steps` iterations, every loop
      variable leaves the graph exactly once, with its value after `steps` iterations, and the graph falls
      silent. */
  ghost predicate Computes(nodes: Slots, l: Loop)
    requires ValidLoop(l)
  {
    forall m: Machine, steps: nat ::
      m.nodes == nodes && RunsLoop(m, l) && StopsAfter(l, m.kernels, Starts(m, l), steps) ==>
      ExitsOnce(m, l, steps, After(l, m.kernels, Starts(m, l), steps)) && QuietAfter(m, steps + 1)
  }

  /** The loops that lowering gets right. The condition can execute and needs a variable that ends with the loop,
      and the body can execute, unless the loop can only stop before running it. */
  ghost predicate Lowerable(l: Loop)
    requires Shaped(l)
  {
    && Feeds(l.cond, l.cond.outputs[0])
    && CondGuarded(l)
    && (Executable(l) || Frozen(l))
  }

  /** Tensors can stand for terms, where it matters: for loops whose body alone cannot execute. */
  ghost predicate Telling(l: Loop, code: Term -> Tensor)
    requires Shaped(l)
  {
    Feeds(l.cond, l.cond.outputs[0]) && !Executable(l) ==> Faithful(code)
  }

  lemma LowerableComputes(m: Machine, l: Loop, steps: nat)
    requires RunsLoop(m, l) && Lowerable(l)
    requires StopsAfter(l, m.kernels, Starts(m, l), steps)
    ensures ExitsOnce(m, l, steps, After(l, m.kernels, Starts(m, l), steps)) && QuietAfter(m, steps + 1)
  {
    Assemble(m, l);
    if Frozen(l) && 0 < steps {
      FrozenGoesOn(l, m.kernels, m.outside, steps);
    }
    ExitsOnceIfGuarded(m, l, steps);
    QuietIfGuarded(m, l, steps);
  }

  lemma UnguardedFails(m: Machine, l: Loop)
    requires RunsLoop(m, l) && Feeds(l.cond, l.cond.outputs[0]) && !CondGuarded(l)
    requires forall p :: !m.kernels.truth(p)
    ensures StopsAfter(l, m.kernels, Starts(m, l), 0)
    ensures !ExitsOnce(m, l, 0, After(l, m.kernels, Starts(m, l), 0))
  {
    Assemble(m, l);
    FirstHolds(m, l);
    var v := UnguardedExitsTwice(m, l, Starts(m, l));
  }

  /** A condition that nothing feeds lets nothing out, however soon the source loop stops. */
  lemma UnfedConditionFails(m: Machine, l: Loop, steps: nat, x: seq<Tensor>)
    requires RunsLoop(m, l) && !Feeds(l.cond, l.cond.outputs[0]) && |x| == l.N()
    ensures forall i, t: nat :: 0 <= i < l.N() ==> m.fires(l.ExitId(i), Iter(t)).NotFired?
    ensures !ExitsOnce(m, l, steps, x)
  {
    Assemble(m, l);
    forall i, t: nat | 0 <= i < l.N()
      ensures m.fires(l.ExitId(i), Iter(t)).NotFired?
    {
      NeverExits(m, l, t, i);
    }
    assert m.fires(l.ExitId(0), Iter(steps)).NotFired?;
  }

  /** A body output that nothing feeds keeps its variable in, once the source loop runs its body. */
  lemma UnfedBodyFails(m: Machine, l: Loop, steps: nat, x: seq<Tensor>, i: nat)
    requires RunsLoop(m, l) && i < l.N() && !Feeds(l.body, l.body.outputs[i]) && 0 < steps && |x| == l.N()
    ensures m.fires(l.ExitId(i), Iter(steps)).NotFired?
    ensures !ExitsOnce(m, l, steps, x)
  {
    Assemble(m, l);
    NextUnfed(m, l, steps - 1, i);
  }

  /** The execution of the graph with the given kernels and values from outside. */
  ghost function Running(nodes: Slots, base: nat, outside: Output -> Tensor, k: Kernels): Machine {
    Executed(Machine(nodes, base, outside, k, (_, _) => NotFired))
  }

  lemma RunningRuns(nodes: Slots, l: Loop, outside: Output -> Tensor, k: Kernels)
    requires ValidLoop(l) && UniqueNames(nodes) && IsLowered(nodes, l)
    ensures var m := Running(nodes, l.base, outside, k);
            RunsLoop(m, l) && m.nodes == nodes && m.kernels == k && m.outside == outside
  {
    ExecutedConsistent(Machine(nodes, l.base, outside, k, (_, _) => NotFired));
  }

  /** Kernels for which every loop stops at once. */
  ghost function Idle(any: Tensor): Kernels {
    Kernels((_, _, _) => any, _ => false)
  }

  /** A loop that is not lowerable is not computed: with kernels that stop it at once, or after its body has run. */
  lemma OthersFail(nodes: Slots, l: Loop, code: Term -> Tensor)
    requires ValidLoop(l) && UniqueNames(nodes) && IsLowered(nodes, l) && !Lowerable(l) && Telling(l, code)
    ensures !Computes(nodes, l)
  {
    var any := code(App("", [], 0));
    RunningRuns(nodes, l, _ => any, Idle(any));
    var m := Running(nodes, l.base, _ => any, Idle(any));
    assert StopsAfter(l, m.kernels, Starts(m, l), 0);
    if !Feeds(l.cond, l.cond.outputs[0]) {
      UnfedConditionFails(m, l, 0, After(l, m.kernels, Starts(m, l), 0));
    } else if !CondGuarded(l) {
      UnguardedFails(m, l);
    } else {
      CanStopLaterIff(l, code);
      UnfedBodyNotComputed(nodes, l);
    }
  }

  lemma UnfedBodyNotComputed(nodes: Slots, l: Loop)
    requires ValidLoop(l) && UniqueNames(nodes) && IsLowered(nodes, l)
    requires Feeds(l.cond, l.cond.outputs[0]) && !Executable(l) && CanStopLater(l)
    ensures !Computes(nodes, l)
  {
    var outside: Output -> Tensor, k: Kernels, steps: nat :|
      0 < steps && StopsAfter(l, k, StartValues(outside, l), steps);
    var i :| 0 <= i < l.N() && !Feeds(l.body, l.body.outputs[i]);
    RunningRuns(nodes, l, outside, k);
    var m := Running(nodes, l.base, outside, k);
    UnfedBodyFails(m, l, steps, After(l, m.kernels, Starts(m, l), steps), i);
    assert StopsAfter(l, m.kernels, Starts(m, l), steps);
  }

  /** Lowering preserves the meaning of a valid loop if and only if the loop is lowerable. */
  lemma LoweringCorrectIff(nodes: Slots, l: Loop, code: Term -> Tensor)
    requires ValidLoop(l) && UniqueNames(nodes) && IsLowered(nodes, l) && Telling(l, code)
    ensures Computes(nodes, l) <==> Lowerable(l)
  {
    if Lowerable(l) {
      forall m: Machine, steps: nat |
        m.nodes == nodes && RunsLoop(m, l) && StopsAfter(l, m.kernels, Starts(m, l), steps)
        ensures ExitsOnce(m, l, steps, After(l, m.kernels, Starts(m, l), steps)) && QuietAfter(m, steps + 1)
      {
        LowerableComputes(m, l, steps);
      }
    } else {
      OthersFail(nodes, l, code);
    }
  }

  // ----- Runs -----

  lemma MergeOneLive(m: Machine, l: Loop, i: nat, pred: Output, next: Output, tag: Tag)
    requires Wired(m, l, i, pred, next)
    ensures OneLive(m, l.MergeId(i), tag)
  {}

  lemma CopyNoMerge(m: Machine, sub: Sub, order: seq<nat>, start: nat, dsts: seq<Output>, j: nat)
    requires HoldsCopy(m, Copied(sub, Placement(order, start), dsts))
    requires Distinct(order) && j < |order| && IsOp(sub.nodes, order[j])
    ensures IsLive(m.nodes, start + j) && !m.nodes[start + j].value.op.Merge?
  {
    IndexOfDistinct(order, j);
    assert HoldsNode(m, Copied(sub, Placement(order, start), dsts), order[j]);
  }

  lemma CondNoMerge(m: Machine, l: Loop, j: nat)
    requires ValidLoop(l) && HoldsCopy(m, CondCopy(l)) && j < |l.condOrder|
    ensures IsLive(m.nodes, l.CondStart() + j) && !m.nodes[l.CondStart() + j].value.op.Merge?
  {
    assert ReadsEarlier(l.cond.nodes, l.condOrder, j);
    CopyNoMerge(m, l.cond, l.condOrder, l.CondStart(), l.Merges(), j);
  }

  lemma BodyNoMerge(m: Machine, l: Loop, j: nat)
    requires ValidLoop(l) && HoldsCopy(m, BodyCopy(l)) && j < |l.bodyOrder|
    ensures IsLive(m.nodes, l.BodyStart() + j) && !m.nodes[l.BodyStart() + j].value.op.Merge?
  {
    assert ReadsEarlier(l.body.nodes, l.bodyOrder, j);
    CopyNoMerge(m, l.body, l.bodyOrder, l.BodyStart(), l.SwitchTrues(), j);
  }

  lemma VariableOps(m: Machine, l: Loop, i: nat)
    requires Assembled(m, l) && i < l.N()
    ensures forall id :: id in {l.EnterId(i), l.SwitchId(i), l.NextId(i), l.ExitId(i)} ==>
              IsLive(m.nodes, id) && !m.nodes[id].value.op.Merge?
  {
    assert Wired(m, l, i, l.CondOutput(), l.BodyOutput(i));
  }

  /** The only Merge nodes of the loop are those of its variables. */
  lemma OnlyMerges(m: Machine, l: Loop, id: nat)
    requires ValidLoop(l) && Assembled(m, l)
    requires l.base <= id < l.End() && IsLive(m.nodes, id) && m.nodes[id].value.op.Merge?
    ensures l.MergeId(0) <= id < l.CondStart()
  {
    if id < l.MergeId(0) {
      VariableOps(m, l, id - l.base);
    } else if l.CondStart() <= id < l.SwitchId(0) {
      CondNoMerge(m, l, id - l.CondStart());
    } else if l.SwitchId(0) <= id < l.BodyStart() {
      VariableOps(m, l, id - l.SwitchId(0));
    } else if l.BodyStart() <= id < l.NextId(0) {
      BodyNoMerge(m, l, id - l.BodyStart());
    } else if l.NextId(0) <= id < l.ExitId(0) {
      VariableOps(m, l, id - l.NextId(0));
    } else if l.ExitId(0) <= id {
      VariableOps(m, l, id - l.ExitId(0));
    }
  }

  lemma LoopRaceFree(m: Machine, l: Loop)
    requires ValidLoop(l) && Assembled(m, l) && m.base == l.base && |m.nodes| == l.End()
    ensures RaceFree(m)
  {
    forall id: nat, tag | m.base <= id && IsLive(m.nodes, id) && m.nodes[id].value.op.Merge?
      ensures OneLive(m, id, tag)
    {
      OnlyMerges(m, l, id);
      var i := id - l.MergeId(0);
      assert id == l.MergeId(i);
      MergeOneLive(m, l, i, l.CondOutput(), l.BodyOutput(i), tag);
    }
  }

  /** Any live exit so far carries the value of its variable after `steps` iterations. */
  ghost predicate ExitsRight(s: Progress, l: Loop, steps: nat, x: seq<Tensor>)
    requires |x| == l.N()
  {
    forall i, t: nat :: 0 <= i < l.N() && (l.ExitId(i), Iter(t)) in s && s[(l.ExitId(i), Iter(t))].LiveFiring? ==>
      t == steps && s[(l.ExitId(i), Iter(t))] == LiveFiring([x[i]])
  }

  ghost predicate AllExited(s: Progress, l: Loop, steps: nat, x: seq<Tensor>)
    requires |x| == l.N()
  {
    forall i :: 0 <= i < l.N() ==>
      (l.ExitId(i), Iter(steps)) in s && s[(l.ExitId(i), Iter(steps))] == LiveFiring([x[i]])
  }

  lemma ProgressExits(m: Machine, l: Loop, steps: nat, x: seq<Tensor>, s: Progress)
    requires Consistent(m) && Agrees(m, s)
    requires |x| == l.N() && ExitsOnce(m, l, steps, x)
    ensures ExitsRight(s, l, steps, x)
    ensures Finished(m, s) ==> AllExited(s, l, steps, x)
  {
    if Finished(m, s) {
      forall i | 0 <= i < l.N()
        ensures (l.ExitId(i), Iter(steps)) in s && s[(l.ExitId(i), Iter(steps))] == LiveFiring([x[i]])
      {
        FinishedComplete(m, s, l.ExitId(i), Iter(steps));
      }
    }
  }

  lemma RunRaceFree(m: Machine, l: Loop, run: seq<Progress>)
    requires RunsLoop(m, l) && IsRun(m, run)
    ensures Agrees(m, run[|run| - 1])
  {
    Assemble(m, l);
    LoopRaceFree(m, l);
    RunAgrees(m, run);
  }

  /** Every run of a lowerable loop ends, whatever the order of its steps. While it goes on, a live exit can only
      carry the final value of its variable; when it has finished, every variable has exited. */
  lemma RunsComputeLoop(m: Machine, l: Loop, steps: nat, run: seq<Progress>)
    requires RunsLoop(m, l) && Lowerable(l)
    requires StopsAfter(l, m.kernels, Starts(m, l), steps)
    requires IsRun(m, run)
    ensures |run| - 1 <= |m.nodes| * (steps + 3)
    ensures ExitsRight(run[|run| - 1], l, steps, After(l, m.kernels, Starts(m, l), steps))
    ensures Finished(m, run[|run| - 1]) ==>
              AllExited(run[|run| - 1], l, steps, After(l, m.kernels, Starts(m, l), steps))
  {
    RunRaceFree(m, l, run);
    LowerableComputes(m, l, steps);
    RunLength(m, run);
    BoundedKeys(m, run[|run| - 1], steps + 1);
    ProgressExits(m, l, steps, After(l, m.kernels, Starts(m, l), steps), run[|run| - 1]);
  }

  lemma BoundedKeys(m: Machine, s: Progress, last: nat)
    requires Consistent(m) && Agrees(m, s) && QuietAfter(m, last)
    ensures |s| <= |m.nodes| * (last + 2)
  {
    forall k | k in s.Keys
      ensures k.0 < |m.nodes| && Rank(k.1) < last + 2
    {
      assert (k.0, k.1) in s && Lawful(m, k.0, k.1);
    }
    CountKeys(s.Keys, |m.nodes|, last + 2);
  }
}
