/** A lowered loop computes the source loop exactly when its condition needs a variable that its body
    computes from loop variables. */
module WhileCorrect {
  import opened Base
  import opened GraphModel
  import opened Dataflow
  import opened GraphImport
  import opened WhileGraph
  import opened WhileMeaning

  /** The machine runs a graph that holds the lowered loop, from the node before its first. */
  ghost predicate RunsLoop(m: Machine, l: Loop) {
    && Consistent(m)
    && ValidLoop(l)
    && UniqueNames(m.nodes)
    && IsLowered(m.nodes, l)
    && m.base == l.base
  }

  function CondCopy(l: Loop): Copied {
    Copied(l.cond, l.CondPlace(), l.Merges())
  }

  function BodyCopy(l: Loop): Copied {
    Copied(l.body, l.BodyPlace(), l.SwitchTrues())
  }

  ghost function Starts(m: Machine, l: Loop): (x: seq<Tensor>)
    ensures |x| == l.N()
  {
    StartValues(m.outside, l)
  }

  // ----- The copies -----

  /** Node `start + j` is the copy of the j-th node of `order`. */
  ghost predicate HasCopy(m: Machine, sub: Sub, order: seq<nat>, start: nat, dsts: seq<Output>, prefix: string, j: nat)
    requires 0 < |dsts| == |sub.inputs|
    requires j < |order|
  {
    && IsOp(sub.nodes, order[j])
    && var n := sub.nodes[order[j]].value;
    && (n.op.Placeholder? || n.op.Compute?)
    && InputsPrecede(sub.nodes, n, order[j])
    && Copyable(n, Placement(order, start))
    && ReadsEarlier(sub.nodes, order, j)
    && m.base <= start && start + j < |m.nodes|
    && m.nodes[start + j] == Some(CopyOf(sub, Placement(order, start), dsts, prefix, n))
  }

  /** Import has put the copies of the nodes of `sub`, in `order`, from node `start` on. */
  ghost predicate HasCopies(m: Machine, sub: Sub, order: seq<nat>, start: nat, dsts: seq<Output>, prefix: string) {
    && 0 < |dsts| == |sub.inputs|
    && Distinct(order)
    && (forall j :: 0 <= j < |order| ==> HasCopy(m, sub, order, start, dsts, prefix, j))
    && (forall j :: 0 <= j < |dsts| ==> SameFrame(m, dsts[j].node) && dsts[j].node < start)
  }

  lemma CopyHolds(m: Machine, sub: Sub, order: seq<nat>, start: nat, dsts: seq<Output>, prefix: string)
    requires Consistent(m)
    requires HasCopies(m, sub, order, start, dsts, prefix)
    requires Distinct(sub.inputs) && (forall id :: id in order <==> IsOp(sub.nodes, id))
    ensures HoldsCopy(m, Copied(sub, Placement(order, start), dsts))
  {
    var g := Copied(sub, Placement(order, start), dsts);
    forall id | IsOp(sub.nodes, id)
      ensures HoldsNode(m, g, id)
    {
      NodeHolds(m, sub, order, start, dsts, prefix, IndexOf(order, id));
    }
  }

  lemma EarlierCopy(m: Machine, sub: Sub, order: seq<nat>, start: nat, dsts: seq<Output>, prefix: string, j: nat, src: nat)
    requires HasCopies(m, sub, order, start, dsts, prefix)
    requires j < |order| && src in order[..j]
    ensures IsOp(sub.nodes, src)
    ensures start + IndexOf(order, src) < start + j
    ensures SameFrame(m, start + IndexOf(order, src))
  {
    var p := IndexOf(order[..j], src);
    IndexOfDistinct(order, p);
    assert HasCopy(m, sub, order, start, dsts, prefix, p);
  }

  lemma InputOfCopy(m: Machine, sub: Sub, order: seq<nat>, start: nat, dsts: seq<Output>, prefix: string, j: nat, i: nat)
    requires HasCopies(m, sub, order, start, dsts, prefix)
    requires j < |order| && HasCopy(m, sub, order, start, dsts, prefix, j)
    requires i < |sub.nodes[order[j]].value.inputs|
    ensures IsOp(sub.nodes, sub.nodes[order[j]].value.inputs[i].src.node)
    ensures m.nodes[start + j].value.inputs[i].src.node < start + j
    ensures SameFrame(m, m.nodes[start + j].value.inputs[i].src.node)
  {
    EarlierCopy(m, sub, order, start, dsts, prefix, j, sub.nodes[order[j]].value.inputs[i].src.node);
  }

  lemma ControlOfCopy(m: Machine, sub: Sub, order: seq<nat>, start: nat, dsts: seq<Output>, prefix: string, j: nat, i: nat)
    requires HasCopies(m, sub, order, start, dsts, prefix)
    requires j < |order| && HasCopy(m, sub, order, start, dsts, prefix, j)
    requires i < |sub.nodes[order[j]].value.controls|
    ensures IsOp(sub.nodes, sub.nodes[order[j]].value.controls[i])
    ensures m.nodes[start + j].value.controls[i] < start + j
    ensures SameFrame(m, m.nodes[start + j].value.controls[i])
  {
    EarlierCopy(m, sub, order, start, dsts, prefix, j, sub.nodes[order[j]].value.controls[i]);
  }

  lemma NodeHolds(m: Machine, sub: Sub, order: seq<nat>, start: nat, dsts: seq<Output>, prefix: string, j: nat)
    requires HasCopies(m, sub, order, start, dsts, prefix)
    requires j < |order|
    ensures IsOp(sub.nodes, order[j])
    ensures HoldsNode(m, Copied(sub, Placement(order, start), dsts), order[j])
  {
    assert HasCopy(m, sub, order, start, dsts, prefix, j);
    IndexOfDistinct(order, j);
    var n, c := sub.nodes[order[j]].value, m.nodes[start + j].value;
    forall i | 0 <= i < |n.inputs|
      ensures IsOp(sub.nodes, n.inputs[i].src.node)
      ensures c.inputs[i].src.node < start + j && SameFrame(m, c.inputs[i].src.node)
    {
      InputOfCopy(m, sub, order, start, dsts, prefix, j, i);
    }
    forall i | 0 <= i < |n.controls|
      ensures IsOp(sub.nodes, n.controls[i])
      ensures c.controls[i] < start + j && SameFrame(m, c.controls[i])
    {
      ControlOfCopy(m, sub, order, start, dsts, prefix, j, i);
    }
  }

  lemma ImportHasCopy(m: Machine, sub: Sub, order: seq<nat>, start: nat, dsts: seq<Output>, prefix: string, j: nat)
    requires 0 < |dsts| == |sub.inputs| && j < |order| && m.base <= start
    requires HoldsImport(m.nodes, sub, order, start, dsts, prefix, j)
    requires WellFormed(sub.nodes) && Plain(sub.nodes) && TopologicalOrder(sub.nodes, order)
    ensures HasCopy(m, sub, order, start, dsts, prefix, j)
  {
    assert ReadsEarlier(sub.nodes, order, j);
    ImportIsCopy(sub, order, start, dsts, prefix, j);
    assert ReadsBackward(sub.nodes, order[j]);
  }

  lemma SubHolds(m: Machine, sub: Sub, order: seq<nat>, start: nat, dsts: seq<Output>, prefix: string)
    requires Consistent(m) && 0 < |dsts| == |sub.inputs| && Distinct(sub.inputs)
    requires WellFormed(sub.nodes) && Plain(sub.nodes) && TopologicalOrder(sub.nodes, order)
    requires m.base <= start && forall j :: 0 <= j < |order| ==> HoldsImport(m.nodes, sub, order, start, dsts, prefix, j)
    requires forall j :: 0 <= j < |dsts| ==> SameFrame(m, dsts[j].node) && dsts[j].node < start
    ensures HoldsCopy(m, Copied(sub, Placement(order, start), dsts))
  {
    forall j | 0 <= j < |order|
      ensures HasCopy(m, sub, order, start, dsts, prefix, j)
    {
      ImportHasCopy(m, sub, order, start, dsts, prefix, j);
    }
    CopyHolds(m, sub, order, start, dsts, prefix);
  }

  lemma CondHolds(m: Machine, l: Loop)
    requires RunsLoop(m, l)
    ensures HoldsCopy(m, CondCopy(l))
  {
    forall j | 0 <= j < |l.condOrder|
      ensures HoldsImport(m.nodes, l.cond, l.condOrder, l.CondStart(), l.Merges(), l.name + "/cond/", j)
    {
      assert HoldsCond(m.nodes, l, j);
    }
    forall i | 0 <= i < l.N()
      ensures SameFrame(m, l.Merges()[i].node)
    {
      assert HoldsVariable(m.nodes, l, i);
    }
    SubHolds(m, l.cond, l.condOrder, l.CondStart(), l.Merges(), l.name + "/cond/");
  }

  lemma BodyHolds(m: Machine, l: Loop)
    requires RunsLoop(m, l)
    ensures HoldsCopy(m, BodyCopy(l))
  {
    forall j | 0 <= j < |l.bodyOrder|
      ensures HoldsImport(m.nodes, l.body, l.bodyOrder, l.BodyStart(), l.SwitchTrues(), l.name + "/body/", j)
    {
      assert HoldsBody(m.nodes, l, j);
    }
    forall i | 0 <= i < l.N()
      ensures SameFrame(m, l.SwitchTrues()[i].node)
    {
      assert HoldsVariable(m.nodes, l, i);
    }
    SubHolds(m, l.body, l.bodyOrder, l.BodyStart(), l.SwitchTrues(), l.name + "/body/");
  }

  // ----- The control flow nodes of one loop variable -----

  /** Every back edge resolves to the NextIteration node of its variable, and to no other node. */
  lemma BackEdgeResolves(m: Machine, l: Loop, i: nat)
    requires RunsLoop(m, l) && i < l.N()
    ensures m.nodes[l.MergeId(i)] == Some(MergeNode(l, i))
    ensures MergeNode(l, i).inputs[1].Pending?
    ensures forall id :: IsNamed(m.nodes, id, MergeNode(l, i).inputs[1].name) <==> id == l.NextId(i)
    ensures Resolve(m.nodes, MergeNode(l, i).inputs[1].name) == Some(l.NextId(i))
  {
    assert HoldsVariable(m.nodes, l, i);
    assert IsNamed(m.nodes, l.NextId(i), NextNode(l, i).name);
  }

  /** The five nodes of loop variable `i`, where Switch reads the predicate `pred` and NextIteration the new
      value `next`. */
  ghost predicate Wired(m: Machine, l: Loop, i: nat, pred: Output, next: Output) {
    && Consistent(m)
    && i < l.N()
    && m.base == l.base && |m.nodes| == l.End()
    && HasNode(m, l.EnterId(i), Enter(l.name), [l.starts[i]]) && l.starts[i].node < l.base
    && HasMerge(m, l.MergeId(i), Output(l.EnterId(i), 0), l.NextId(i))
    && HasNode(m, l.SwitchId(i), Switch, [Output(l.MergeId(i), 0), pred])
    && HasNode(m, l.NextId(i), NextIteration, [next])
    && HasNode(m, l.ExitId(i), Exit, [Output(l.SwitchId(i), 0)])
    && SameFrame(m, pred.node) && pred.node < l.SwitchId(i)
    && SameFrame(m, next.node) && next.node < l.NextId(i)
  }

  ghost predicate HasNode(m: Machine, id: nat, op: Op, srcs: seq<Output>) {
    && IsLive(m.nodes, id)
    && var n := m.nodes[id].value;
    && n.op == op && n.controls == [] && |n.inputs| == |srcs|
    && (forall k :: 0 <= k < |srcs| ==> n.inputs[k] == Edge(srcs[k]))
  }

  ghost predicate HasMerge(m: Machine, id: nat, first: Output, back: nat) {
    && IsLive(m.nodes, id)
    && var n := m.nodes[id].value;
    && n.op == Merge && n.controls == [] && |n.inputs| == 2 && n.inputs[0] == Edge(first)
    && n.inputs[1].Pending? && n.inputs[1].index == 0 && Resolve(m.nodes, n.inputs[1].name) == Some(back)
  }

  lemma Wires(m: Machine, l: Loop, i: nat)
    requires RunsLoop(m, l) && i < l.N()
    requires HoldsCopy(m, CondCopy(l)) && HoldsCopy(m, BodyCopy(l))
    ensures Wired(m, l, i, l.CondOutput(), l.BodyOutput(i))
  {
    BackEdgeResolves(m, l, i);
    OutputPlaced(m, l.cond, l.condOrder, l.CondStart(), l.Merges(), l.cond.outputs[0]);
    OutputPlaced(m, l.body, l.bodyOrder, l.BodyStart(), l.SwitchTrues(), l.body.outputs[i]);
    NodesOfVariable(m, l, i);
  }

  lemma NodesOfVariable(m: Machine, l: Loop, i: nat)
    requires RunsLoop(m, l) && i < l.N()
    ensures HasNode(m, l.EnterId(i), Enter(l.name), [l.starts[i]]) && l.starts[i].node < l.base
    ensures HasNode(m, l.SwitchId(i), Switch, [Output(l.MergeId(i), 0), l.CondOutput()])
    ensures HasNode(m, l.NextId(i), NextIteration, [l.BodyOutput(i)])
    ensures HasNode(m, l.ExitId(i), Exit, [Output(l.SwitchId(i), 0)])
  {
    assert HoldsVariable(m.nodes, l, i);
    HeldNodes(m, l, i);
  }

  lemma HeldNodes(m: Machine, l: Loop, i: nat)
    requires Shaped(l) && i < l.N() && |m.nodes| == l.End() && HoldsVariable(m.nodes, l, i)
    ensures HasNode(m, l.EnterId(i), Enter(l.name), [l.starts[i]])
    ensures HasNode(m, l.SwitchId(i), Switch, [Output(l.MergeId(i), 0), l.CondOutput()])
    ensures HasNode(m, l.NextId(i), NextIteration, [l.BodyOutput(i)])
    ensures HasNode(m, l.ExitId(i), Exit, [Output(l.SwitchId(i), 0)])
  {
  }

  lemma OutputPlaced(m: Machine, sub: Sub, order: seq<nat>, start: nat, dsts: seq<Output>, out: Output)
    requires HoldsCopy(m, Copied(sub, Placement(order, start), dsts))
    requires IsOp(sub.nodes, out.node)
    requires forall j :: 0 <= j < |dsts| ==> dsts[j].node < start
    ensures out.node in Placement(order, start)
    ensures SameFrame(m, MapOutput(sub, Placement(order, start), dsts, out).node)
    ensures MapOutput(sub, Placement(order, start), dsts, out).node < start + |order|
  {
    assert HoldsNode(m, Copied(sub, Placement(order, start), dsts), out.node);
  }

  lemma EnterFires(m: Machine, l: Loop, i: nat, pred: Output, next: Output)
    requires Wired(m, l, i, pred, next)
    ensures m.fires(l.EnterId(i), Root) == LiveFiring([m.outside(l.starts[i])])
  {
    FireStrict(m, l.EnterId(i), Root, [m.outside(l.starts[i])]);
  }

  lemma MergeFirst(m: Machine, l: Loop, i: nat, pred: Output, next: Output)
    requires Wired(m, l, i, pred, next)
    ensures m.fires(l.MergeId(i), Iter(0)) == LiveFiring([m.outside(l.starts[i])])
  {
    EnterFires(m, l, i, pred, next);
    assert Lawful(m, l.MergeId(i), Iter(0));
    var data := DataTokens(m, m.nodes[l.MergeId(i)].value, l.MergeId(i), Iter(0));
    assert data[0] == Live(m.outside(l.starts[i]));
    assert data[1].Absent?;
  }

  /** After iteration 0, Merge passes on what NextIteration sent from the iteration before. */
  lemma MergeLater(m: Machine, l: Loop, i: nat, pred: Output, next: Output, t: nat)
    requires Wired(m, l, i, pred, next)
    ensures var f := m.fires(l.NextId(i), Iter(t));
            m.fires(l.MergeId(i), Iter(t + 1)) == if f.LiveFiring? then f else NotFired
  {
    assert Lawful(m, l.MergeId(i), Iter(t + 1));
    LaterTokens(m, l, i, pred, next, t);
    var n := m.nodes[l.MergeId(i)].value;
    MergeOfBackEdge(DataTokens(m, n, l.MergeId(i), Iter(t + 1)), ControlFirings(m, n, l.MergeId(i), Iter(t + 1)), Iter(t + 1));
  }

  lemma LaterTokens(m: Machine, l: Loop, i: nat, pred: Output, next: Output, t: nat)
    requires Wired(m, l, i, pred, next)
    ensures var f, n := m.fires(l.NextId(i), Iter(t)), m.nodes[l.MergeId(i)].value;
            && (f.LiveFiring? ==> |f.args| == 1)
            && InToken(m, n.inputs[0], l.MergeId(i), Iter(t + 1)).Absent?
            && InToken(m, n.inputs[1], l.MergeId(i), Iter(t + 1)) == if f.LiveFiring? then Live(f.args[0]) else Absent
  {
    assert Lawful(m, l.NextId(i), Iter(t));
  }

  lemma MergeOfBackEdge(data: seq<Token>, ctrl: seq<Firing>, tag: Tag)
    requires |data| == 2 && data[0].Absent? && !data[1].Dead? && ctrl == []
    ensures Fire(Merge, data, ctrl, tag) == if data[1].Live? then LiveFiring([data[1].value]) else NotFired
  {
  }

  lemma SwitchFires(m: Machine, l: Loop, i: nat, pred: Output, next: Output, t: nat, x: Tensor, p: Tensor)
    requires Wired(m, l, i, pred, next)
    requires m.fires(l.MergeId(i), Iter(t)) == LiveFiring([x])
    requires TokenAt(m, pred, Iter(t)) == Live(p)
    ensures m.fires(l.SwitchId(i), Iter(t)) == LiveFiring([x, p])
  {
    SameFrameToken(m, Output(l.MergeId(i), 0), l.SwitchId(i), Iter(t));
    SameFrameToken(m, pred, l.SwitchId(i), Iter(t));
    FireStrict(m, l.SwitchId(i), Iter(t), [x, p]);
  }

  /** Exit passes on the value of its variable in the iteration in which the predicate is false. */
  lemma ExitFires(m: Machine, l: Loop, i: nat, pred: Output, next: Output, t: nat, x: Tensor, p: Tensor)
    requires Wired(m, l, i, pred, next)
    requires m.fires(l.SwitchId(i), Iter(t)) == LiveFiring([x, p])
    ensures if m.kernels.truth(p) then !m.fires(l.ExitId(i), Iter(t)).LiveFiring?
            else m.fires(l.ExitId(i), Iter(t)) == LiveFiring([x])
  {
    SameFrameToken(m, Output(l.SwitchId(i), 0), l.ExitId(i), Iter(t));
    if m.kernels.truth(p) {
      FireNotLive(m, l.ExitId(i), Iter(t), 0);
    } else {
      FireStrict(m, l.ExitId(i), Iter(t), [x]);
    }
  }

  lemma NextFires(m: Machine, l: Loop, i: nat, pred: Output, next: Output, t: nat)
    requires Wired(m, l, i, pred, next)
    ensures var token := TokenAt(m, next, Iter(t));
            && (token.Live? ==> m.fires(l.NextId(i), Iter(t)) == LiveFiring([token.value]))
            && (!token.Live? ==> !m.fires(l.NextId(i), Iter(t)).LiveFiring?)
            && (token.Absent? ==> m.fires(l.NextId(i), Iter(t)).NotFired?)
  {
    SameFrameToken(m, next, l.NextId(i), Iter(t));
    var token := TokenAt(m, next, Iter(t));
    if token.Live? {
      FireStrict(m, l.NextId(i), Iter(t), [token.value]);
    } else {
      FireNotLive(m, l.NextId(i), Iter(t), 0);
      if token.Absent? {
        FireBlocked(m, l.NextId(i), Iter(t), 0);
      }
    }
  }

  /** A switch that lacks its variable or its predicate does not execute, and neither does its exit. */
  lemma SwitchBlocked(m: Machine, l: Loop, i: nat, pred: Output, next: Output, t: nat)
    requires Wired(m, l, i, pred, next)
    requires m.fires(l.MergeId(i), Iter(t)).NotFired? || TokenAt(m, pred, Iter(t)).Absent?
    ensures m.fires(l.SwitchId(i), Iter(t)).NotFired?
    ensures m.fires(l.ExitId(i), Iter(t)).NotFired?
  {
    SameFrameToken(m, Output(l.MergeId(i), 0), l.SwitchId(i), Iter(t));
    SameFrameToken(m, pred, l.SwitchId(i), Iter(t));
    FireBlocked(m, l.SwitchId(i), Iter(t), if m.fires(l.MergeId(i), Iter(t)).NotFired? then 0 else 1);
    SameFrameToken(m, Output(l.SwitchId(i), 0), l.ExitId(i), Iter(t));
    FireBlocked(m, l.ExitId(i), Iter(t), 0);
  }

  // ----- One iteration -----

  /** The parts of a lowered loop. */
  ghost predicate Assembled(m: Machine, l: Loop) {
    && Shaped(l)
    && HoldsCopy(m, CondCopy(l))
    && HoldsCopy(m, BodyCopy(l))
    && (forall i :: 0 <= i < l.N() ==> Wired(m, l, i, l.CondOutput(), l.BodyOutput(i)))
  }

  lemma Assemble(m: Machine, l: Loop)
    requires RunsLoop(m, l)
    ensures Assembled(m, l)
  {
    CondHolds(m, l);
    BodyHolds(m, l);
    forall i | 0 <= i < l.N()
      ensures Wired(m, l, i, l.CondOutput(), l.BodyOutput(i))
    {
      Wires(m, l, i);
    }
  }

  /** In iteration `t`, the loop variables have the values `x`. */
  ghost predicate Holds(m: Machine, l: Loop, t: nat, x: seq<Tensor>)
    requires |x| == l.N()
  {
    forall i :: 0 <= i < l.N() ==> m.fires(l.MergeId(i), Iter(t)) == LiveFiring([x[i]])
  }

  /** In iteration `t`, the loop variables have the values `x` and reach their switches with predicate `p`. */
  ghost predicate Switched(m: Machine, l: Loop, t: nat, x: seq<Tensor>, p: Tensor)
    requires |x| == l.N()
  {
    forall i :: 0 <= i < l.N() ==> m.fires(l.SwitchId(i), Iter(t)) == LiveFiring([x[i], p])
  }

  /** The variables without which the predicate is not computed: those it depends on, and the pivot, variable
      0, unless the predicate is itself a loop variable. */
  ghost predicate CondNeeds(l: Loop, j: nat)
    requires Shaped(l)
  {
    || Needs(l.cond, l.cond.outputs[0], j)
    || (j == 0 && !IsVariable(l.cond, l.cond.outputs[0]))
  }

  /** The body computes variable `i` from loop variables. */
  ghost predicate Computed(l: Loop, i: nat)
    requires Shaped(l) && i < l.N()
  {
    exists j :: 0 <= j < l.N() && Needs(l.body, l.body.outputs[i], j)
  }

  lemma MergeToken(m: Machine, l: Loop, j: nat, pred: Output, next: Output, t: nat, x: Tensor)
    requires Wired(m, l, j, pred, next) && m.fires(l.MergeId(j), Iter(t)) == LiveFiring([x])
    ensures TokenAt(m, l.Merges()[j], Iter(t)) == Live(x)
  {
  }

  lemma PredicateLive(m: Machine, l: Loop, t: nat, x: seq<Tensor>)
    requires Assembled(m, l) && Feeds(l.cond, l.cond.outputs[0]) && |x| == l.N()
    requires forall j :: 0 <= j < l.N() && CondNeeds(l, j) ==> m.fires(l.MergeId(j), Iter(t)) == LiveFiring([x[j]])
    ensures TokenAt(m, l.CondOutput(), Iter(t)) == Live(Val(l.cond, m.kernels, x, l.cond.outputs[0]))
  {
    forall j | 0 <= j < l.N() && CondNeeds(l, j)
      ensures TokenAt(m, l.Merges()[j], Iter(t)) == Live(x[j])
    {
      MergeToken(m, l, j, l.CondOutput(), l.BodyOutput(j), t, x[j]);
    }
    OutputLive(m, CondCopy(l), Iter(t), x, l.cond.outputs[0]);
  }

  lemma PredicateAbsent(m: Machine, l: Loop, t: nat, j: nat)
    requires Assembled(m, l) && IsOp(l.cond.nodes, l.cond.outputs[0].node)
    requires j < l.N() && CondNeeds(l, j) && m.fires(l.MergeId(j), Iter(t)).NotFired?
    ensures TokenAt(m, l.CondOutput(), Iter(t)).Absent?
  {
    OutputAbsent(m, CondCopy(l), Iter(t), j, l.cond.outputs[0]);
  }

  lemma IterationSwitches(m: Machine, l: Loop, t: nat, x: seq<Tensor>)
    requires Assembled(m, l) && Feeds(l.cond, l.cond.outputs[0]) && |x| == l.N()
    requires Holds(m, l, t, x)
    ensures Switched(m, l, t, x, Val(l.cond, m.kernels, x, l.cond.outputs[0]))
  {
    PredicateLive(m, l, t, x);
    forall i | 0 <= i < l.N()
      ensures m.fires(l.SwitchId(i), Iter(t)) == LiveFiring([x[i], Val(l.cond, m.kernels, x, l.cond.outputs[0])])
    {
      SwitchFires(m, l, i, l.CondOutput(), l.BodyOutput(i), t, x[i], Val(l.cond, m.kernels, x, l.cond.outputs[0]));
    }
  }

  lemma TrueTokens(m: Machine, l: Loop, t: nat, x: seq<Tensor>, p: Tensor)
    requires Assembled(m, l) && |x| == l.N()
    requires Switched(m, l, t, x, p)
    ensures forall j :: 0 <= j < l.N() ==>
              TokenAt(m, l.SwitchTrues()[j], Iter(t)) == if m.kernels.truth(p) then Live(x[j]) else Dead
  {
    forall j | 0 <= j < l.N()
      ensures TokenAt(m, l.SwitchTrues()[j], Iter(t)) == if m.kernels.truth(p) then Live(x[j]) else Dead
    {
      assert Wired(m, l, j, l.CondOutput(), l.BodyOutput(j));
    }
  }

  lemma Advance(m: Machine, l: Loop, i: nat, pred: Output, next: Output, t: nat)
    requires Wired(m, l, i, pred, next)
    ensures var token := TokenAt(m, next, Iter(t));
            m.fires(l.MergeId(i), Iter(t + 1)) == if token.Live? then LiveFiring([token.value]) else NotFired
  {
    NextFires(m, l, i, pred, next, t);
    MergeLater(m, l, i, pred, next, t);
  }

  /** The new value of a variable reaches the next iteration if the predicate is true, and also if it is
      false but the value needs no loop variable. */
  lemma NextLive(m: Machine, l: Loop, t: nat, x: seq<Tensor>, p: Tensor, i: nat)
    requires Assembled(m, l) && |x| == l.N() && i < l.N() && Feeds(l.body, l.body.outputs[i])
    requires Switched(m, l, t, x, p)
    requires m.kernels.truth(p) || !Computed(l, i)
    ensures m.fires(l.MergeId(i), Iter(t + 1)) == LiveFiring([Val(l.body, m.kernels, x, l.body.outputs[i])])
  {
    TrueTokens(m, l, t, x, p);
    assert m.fires(l.SwitchId(0), Iter(t)).LiveFiring?;
    OutputLive(m, BodyCopy(l), Iter(t), x, l.body.outputs[i]);
    Advance(m, l, i, l.CondOutput(), l.BodyOutput(i), t);
  }

  /** Once the predicate is false, a variable computed from loop variables has no next value. */
  lemma NextStops(m: Machine, l: Loop, t: nat, x: seq<Tensor>, p: Tensor, i: nat, j: nat)
    requires Assembled(m, l) && |x| == l.N() && i < l.N() && j < l.N()
    requires IsOp(l.body.nodes, l.body.outputs[i].node)
    requires Switched(m, l, t, x, p) && !m.kernels.truth(p)
    requires Needs(l.body, l.body.outputs[i], j)
    ensures m.fires(l.MergeId(i), Iter(t + 1)).NotFired?
  {
    TrueTokens(m, l, t, x, p);
    OutputNotLive(m, BodyCopy(l), Iter(t), j, l.body.outputs[i]);
    Advance(m, l, i, l.CondOutput(), l.BodyOutput(i), t);
  }

  /** A variable whose new value nothing feeds never gets beyond iteration 0. */
  lemma NextUnfed(m: Machine, l: Loop, t: nat, i: nat)
    requires Assembled(m, l) && i < l.N()
    requires IsOp(l.body.nodes, l.body.outputs[i].node) && !Feeds(l.body, l.body.outputs[i])
    ensures m.fires(l.MergeId(i), Iter(t + 1)).NotFired?
    ensures m.fires(l.ExitId(i), Iter(t + 1)).NotFired?
  {
    OutputUnfed(m, BodyCopy(l), Iter(t), l.body.outputs[i]);
    Advance(m, l, i, l.CondOutput(), l.BodyOutput(i), t);
    SwitchBlocked(m, l, i, l.CondOutput(), l.BodyOutput(i), t + 1);
  }

  /** A loop whose condition nothing feeds never exits. */
  lemma NeverExits(m: Machine, l: Loop, t: nat, i: nat)
    requires Assembled(m, l) && i < l.N()
    requires IsOp(l.cond.nodes, l.cond.outputs[0].node) && !Feeds(l.cond, l.cond.outputs[0])
    ensures m.fires(l.ExitId(i), Iter(t)).NotFired?
  {
    OutputUnfed(m, CondCopy(l), Iter(t), l.cond.outputs[0]);
    SwitchBlocked(m, l, i, l.CondOutput(), l.BodyOutput(i), t);
  }

  /** An iteration whose predicate is missing ends the loop. */
  ghost predicate NoSwitch(m: Machine, l: Loop, t: nat) {
    forall i :: 0 <= i < l.N() ==> m.fires(l.SwitchId(i), Iter(t)).NotFired? && m.fires(l.ExitId(i), Iter(t)).NotFired?
  }

  lemma NextAbsent(m: Machine, l: Loop, t: nat, i: nat)
    requires Assembled(m, l) && i < l.N()
    requires IsOp(l.body.nodes, l.body.outputs[i].node)
    requires NoSwitch(m, l, t)
    ensures m.fires(l.NextId(i), Iter(t)).NotFired?
    ensures m.fires(l.MergeId(i), Iter(t + 1)).NotFired?
  {
    var out := l.body.outputs[i];
    var j := if IsVariable(l.body, out) then IndexOf(l.body.inputs, out.node) else 0;
    assert m.fires(l.SwitchId(j), Iter(t)).NotFired?;
    OutputAbsent(m, BodyCopy(l), Iter(t), j, out);
    NextFires(m, l, i, l.CondOutput(), l.BodyOutput(i), t);
    MergeLater(m, l, i, l.CondOutput(), l.BodyOutput(i), t);
  }

  // ----- The whole loop -----

  lemma FirstHolds(m: Machine, l: Loop)
    requires Assembled(m, l)
    ensures Holds(m, l, 0, Starts(m, l))
  {
    forall i | 0 <= i < l.N()
      ensures m.fires(l.MergeId(i), Iter(0)) == LiveFiring([Starts(m, l)[i]])
    {
      MergeFirst(m, l, i, l.CondOutput(), l.BodyOutput(i));
    }
  }

  lemma NextHolds(m: Machine, l: Loop, t: nat, x: seq<Tensor>)
    requires Assembled(m, l) && Executable(l) && |x| == l.N()
    requires Holds(m, l, t, x) && CondValue(l, m.kernels, x)
    ensures Holds(m, l, t + 1, BodyValues(l, m.kernels, x))
  {
    IterationSwitches(m, l, t, x);
    forall i | 0 <= i < l.N()
      ensures m.fires(l.MergeId(i), Iter(t + 1)) == LiveFiring([BodyValues(l, m.kernels, x)[i]])
    {
      NextLive(m, l, t, x, Val(l.cond, m.kernels, x, l.cond.outputs[0]), i);
    }
  }

  /** Iteration `t` holds the values of the loop variables after `t` applications of the body. */
  ghost predicate Reaches(m: Machine, l: Loop, t: nat)
    requires Shaped(l)
  {
    Holds(m, l, t, After(l, m.kernels, Starts(m, l), t))
  }

  lemma ReachesNext(m: Machine, l: Loop, t: nat)
    requires Assembled(m, l) && Executable(l)
    requires Reaches(m, l, t) && GoesOn(l, m.kernels, Starts(m, l), t)
    ensures Reaches(m, l, t + 1)
  {
    NextHolds(m, l, t, After(l, m.kernels, Starts(m, l), t));
  }

  lemma ReachesFirst(m: Machine, l: Loop)
    requires Assembled(m, l)
    ensures Reaches(m, l, 0)
  {
    FirstHolds(m, l);
  }

  /** The iterations that the loop needs can execute: all of them, or the loop stops before its body matters. */
  ghost predicate Suffices(l: Loop, steps: nat)
    requires Shaped(l)
  {
    Feeds(l.cond, l.cond.outputs[0]) && (Executable(l) || steps == 0)
  }

  /** The first `steps + 1` iterations hold the successive values of the loop variables. */
  lemma IterationsHold(m: Machine, l: Loop, steps: nat, t: nat)
    requires Assembled(m, l) && Suffices(l, steps)
    requires StopsAfter(l, m.kernels, Starts(m, l), steps) && t <= steps
    ensures Reaches(m, l, t)
  {
    ReachesFirst(m, l);
    var i := 0;
    while i < t
      invariant i <= t && Reaches(m, l, i)
    {
      assert GoesOn(l, m.kernels, Starts(m, l), i);
      ReachesNext(m, l, i);
      i := i + 1;
    }
  }

  /** Exits fire live exactly once: in iteration `steps`, with the values of the loop variables. */
  ghost predicate ExitsOnce(m: Machine, l: Loop, steps: nat, x: seq<Tensor>)
    requires |x| == l.N()
  {
    forall i, t: nat :: 0 <= i < l.N() ==>
      if t == steps then m.fires(l.ExitId(i), Iter(t)) == LiveFiring([x[i]])
      else !m.fires(l.ExitId(i), Iter(t)).LiveFiring?
  }

  /** No node executes after iteration `last`. */
  ghost predicate QuietAfter(m: Machine, last: nat) {
    forall id: nat, t: nat :: last < t ==> m.fires(id, Iter(t)).NotFired?
  }

  /** Up to the iteration in which the loop stops, only that iteration's exits are live. */
  lemma ExitsUpTo(m: Machine, l: Loop, steps: nat, t: nat, i: nat)
    requires Assembled(m, l) && Suffices(l, steps) && i < l.N()
    requires StopsAfter(l, m.kernels, Starts(m, l), steps) && t <= steps
    ensures if t == steps
            then m.fires(l.ExitId(i), Iter(t)) == LiveFiring([After(l, m.kernels, Starts(m, l), steps)[i]])
            else !m.fires(l.ExitId(i), Iter(t)).LiveFiring?
  {
    var y := After(l, m.kernels, Starts(m, l), t);
    IterationsHold(m, l, steps, t);
    IterationSwitches(m, l, t, y);
    ExitFires(m, l, i, l.CondOutput(), l.BodyOutput(i), t, y[i], Val(l.cond, m.kernels, y, l.cond.outputs[0]));
    assert t < steps ==> GoesOn(l, m.kernels, Starts(m, l), t);
  }

  /** Once the predicate is false the body gives variable `i` no value: it computes it from loop variables, or
      cannot compute it at all. */
  ghost predicate Ends(l: Loop, i: nat)
    requires Shaped(l) && i < l.N()
  {
    Computed(l, i) || !Feeds(l.body, l.body.outputs[i])
  }

  /** The condition needs some variable that ends with the loop. */
  ghost predicate CondGuarded(l: Loop)
    requires Shaped(l)
  {
    exists i :: 0 <= i < l.N() && CondNeeds(l, i) && Ends(l, i)
  }

  ghost predicate OutputsAreOps(l: Loop)
    requires Shaped(l)
  {
    && IsOp(l.cond.nodes, l.cond.outputs[0].node)
    && (forall i :: 0 <= i < l.N() ==> IsOp(l.body.nodes, l.body.outputs[i].node))
  }

  /** Nothing switches after the iteration in which a guarded loop stops. */
  lemma NothingSwitches(m: Machine, l: Loop, steps: nat, t: nat)
    requires Assembled(m, l) && Suffices(l, steps) && OutputsAreOps(l) && CondGuarded(l)
    requires StopsAfter(l, m.kernels, Starts(m, l), steps) && steps < t
    ensures NoSwitch(m, l, t)
  {
    var v :| 0 <= v < l.N() && CondNeeds(l, v) && Ends(l, v);
    MergeEnds(m, l, steps, v);
    WithoutCondition(m, l, steps + 1, v);
    StaysQuiet(m, l, steps + 1, t, v);
  }

  lemma {:induction false} StaysQuiet(m: Machine, l: Loop, first: nat, t: nat, v: nat)
    requires Assembled(m, l) && OutputsAreOps(l) && v < l.N() && CondNeeds(l, v)
    requires NoSwitch(m, l, first) && first <= t
    ensures NoSwitch(m, l, t)
    decreases t
  {
    if first < t {
      StaysQuiet(m, l, first, t - 1, v);
      NextAbsent(m, l, t - 1, v);
      WithoutCondition(m, l, t, v);
    }
  }

  lemma WithoutCondition(m: Machine, l: Loop, t: nat, v: nat)
    requires Assembled(m, l) && OutputsAreOps(l) && v < l.N() && CondNeeds(l, v)
    requires m.fires(l.MergeId(v), Iter(t)).NotFired?
    ensures NoSwitch(m, l, t)
  {
    PredicateAbsent(m, l, t, v);
    forall i | 0 <= i < l.N()
      ensures m.fires(l.SwitchId(i), Iter(t)).NotFired? && m.fires(l.ExitId(i), Iter(t)).NotFired?
    {
      SwitchBlocked(m, l, i, l.CondOutput(), l.BodyOutput(i), t);
    }
  }

  /** A variable that ends with the loop does not go into another iteration. */
  lemma MergeEnds(m: Machine, l: Loop, steps: nat, v: nat)
    requires Assembled(m, l) && Suffices(l, steps) && OutputsAreOps(l)
    requires StopsAfter(l, m.kernels, Starts(m, l), steps) && v < l.N() && Ends(l, v)
    ensures m.fires(l.MergeId(v), Iter(steps + 1)).NotFired?
  {
    if !Feeds(l.body, l.body.outputs[v]) {
      NextUnfed(m, l, steps, v);
    } else {
      NoNextIteration(m, l, steps, v);
    }
  }

  /** A variable that the body computes does not go into another iteration. */
  lemma NoNextIteration(m: Machine, l: Loop, steps: nat, v: nat)
    requires Assembled(m, l) && Suffices(l, steps) && OutputsAreOps(l)
    requires StopsAfter(l, m.kernels, Starts(m, l), steps) && v < l.N() && Computed(l, v)
    ensures m.fires(l.MergeId(v), Iter(steps + 1)).NotFired?
  {
    var y := After(l, m.kernels, Starts(m, l), steps);
    IterationsHold(m, l, steps, steps);
    IterationSwitches(m, l, steps, y);
    var j :| 0 <= j < l.N() && Needs(l.body, l.body.outputs[v], j);
    NextStops(m, l, steps, y, Val(l.cond, m.kernels, y, l.cond.outputs[0]), v, j);
  }

  lemma ExitsOnceIfGuarded(m: Machine, l: Loop, steps: nat)
    requires Assembled(m, l) && Suffices(l, steps) && OutputsAreOps(l) && CondGuarded(l)
    requires StopsAfter(l, m.kernels, Starts(m, l), steps)
    ensures ExitsOnce(m, l, steps, After(l, m.kernels, Starts(m, l), steps))
  {
    forall i, t: nat | 0 <= i < l.N()
      ensures if t == steps
              then m.fires(l.ExitId(i), Iter(t)) == LiveFiring([After(l, m.kernels, Starts(m, l), steps)[i]])
              else !m.fires(l.ExitId(i), Iter(t)).LiveFiring?
    {
      if t <= steps {
        ExitsUpTo(m, l, steps, t, i);
      } else {
        NothingSwitches(m, l, steps, t);
      }
    }
  }
}
