/** What a lowered loop computes. */
module WhileMeaning {
  import opened Base
  import opened GraphModel
  import opened Dataflow
  import opened GraphImport
  import opened WhileGraph

  // ----- The source loop -----

  /** What stands for a value in graphs that are not valid; a valid loop never asks for it. */
  ghost function NoValue(k: Kernels): Tensor {
    k.apply("", [], 0)
  }

  /** The value of an output when the loop variables have the values `x`, by the data edges alone. A placeholder
      that is no loop variable has some value too. */
  ghost function Val(sub: Sub, k: Kernels, x: seq<Tensor>, out: Output): Tensor
    requires |x| == |sub.inputs|
    decreases out.node, 1
  {
    if IsVariable(sub, out) then x[IndexOf(sub.inputs, out.node)]
    else if !IsOp(sub.nodes, out.node) then NoValue(k)
    else
      var op := sub.nodes[out.node].value.op;
      k.apply(if op.Compute? then op.kind else "Placeholder", Args(sub, k, x, out.node), out.index)
  }

  ghost function Args(sub: Sub, k: Kernels, x: seq<Tensor>, id: nat): seq<Tensor>
    requires |x| == |sub.inputs|
    requires IsOp(sub.nodes, id)
    decreases id, 0
  {
    var n := sub.nodes[id].value;
    seq(|n.inputs|, i requires 0 <= i < |n.inputs| =>
      if n.inputs[i].Edge? && n.inputs[i].src.node < id then Val(sub, k, x, n.inputs[i].src) else NoValue(k))
  }

  ghost function CondValue(l: Loop, k: Kernels, x: seq<Tensor>): bool
    requires Shaped(l) && |x| == l.N()
  {
    k.truth(Val(l.cond, k, x, l.cond.outputs[0]))
  }

  ghost function BodyValues(l: Loop, k: Kernels, x: seq<Tensor>): (y: seq<Tensor>)
    requires Shaped(l) && |x| == l.N()
    ensures |y| == l.N()
  {
    seq(l.N(), i requires 0 <= i < l.N() => Val(l.body, k, x, l.body.outputs[i]))
  }

  /** The loop variables after `t` applications of the body. */
  ghost function After(l: Loop, k: Kernels, x: seq<Tensor>, t: nat): (y: seq<Tensor>)
    requires Shaped(l) && |x| == l.N()
    ensures |y| == l.N()
  {
    if t == 0 then x else BodyValues(l, k, After(l, k, x, t - 1))
  }

  /** The condition holds after `t` iterations. */
  ghost predicate GoesOn(l: Loop, k: Kernels, x: seq<Tensor>, t: nat)
    requires Shaped(l) && |x| == l.N()
  {
    CondValue(l, k, After(l, k, x, t))
  }

  /** `while cond(x) { x := body(x) }` stops after `steps` iterations. */
  ghost predicate StopsAfter(l: Loop, k: Kernels, x: seq<Tensor>, steps: nat)
    requires Shaped(l) && |x| == l.N()
  {
    && (forall t :: 0 <= t < steps ==> GoesOn(l, k, x, t))
    && !GoesOn(l, k, x, steps)
  }

  /** The values with which the loop variables enter the loop. */
  ghost function StartValues(outside: Output -> Tensor, l: Loop): (x: seq<Tensor>)
    ensures |x| == l.N()
  {
    seq(l.N(), i requires 0 <= i < l.N() => outside(l.starts[i]))
  }

  // ----- What can execute -----

  /** The copy of the node can execute once the loop variables have values. A control edge from a loop variable's
      placeholder is not remapped by import, so it waits for a placeholder that nothing feeds. */
  ghost predicate Runs(sub: Sub, id: nat)
    decreases id, 0
  {
    && IsOp(sub.nodes, id)
    && var n := sub.nodes[id].value;
    && n.op.Compute?
    && (forall i :: 0 <= i < |n.inputs| ==>
          n.inputs[i].Edge? && n.inputs[i].src.node < id && Feeds(sub, n.inputs[i].src))
    && (forall i :: 0 <= i < |n.controls| ==> n.controls[i] < id && Runs(sub, n.controls[i]))
  }

  ghost predicate Feeds(sub: Sub, out: Output)
    decreases out.node, 1
  {
    IsVariable(sub, out) || Runs(sub, out.node)
  }

  /** The copies of the outputs of both graphs can execute. */
  ghost predicate Executable(l: Loop)
    requires Shaped(l)
  {
    && Feeds(l.cond, l.cond.outputs[0])
    && (forall i :: 0 <= i < l.N() ==> Feeds(l.body, l.body.outputs[i]))
  }

  // ----- Dependence on loop variables -----

  /** The output depends on loop variable `j`, through data or control edges. */
  ghost predicate Needs(sub: Sub, out: Output, j: nat)
    decreases out.node, 1
  {
    if IsVariable(sub, out) then j < |sub.inputs| && sub.inputs[j] == out.node
    else NodeNeeds(sub, out.node, j)
  }

  ghost predicate NodeNeeds(sub: Sub, id: nat, j: nat)
    decreases id, 0
  {
    && IsOp(sub.nodes, id)
    && var n := sub.nodes[id].value;
    || (exists i :: 0 <= i < |n.inputs| &&
          n.inputs[i].Edge? && n.inputs[i].src.node < id && Needs(sub, n.inputs[i].src, j))
    || (exists i :: 0 <= i < |n.controls| && n.controls[i] < id && NodeNeeds(sub, n.controls[i], j))
  }

  // ----- Copied graphs -----

  /** A copied graph: where its nodes are, and what its loop variables are read from. */
  datatype Copied = Copied(sub: Sub, place: map<nat, nat>, dsts: seq<Output>)

  ghost predicate HoldsCopy(m: Machine, g: Copied) {
    && Consistent(m)
    && 0 < |g.dsts| == |g.sub.inputs|
    && Distinct(g.sub.inputs)
    && (forall j :: 0 <= j < |g.dsts| ==> SameFrame(m, g.dsts[j].node))
    && (forall id {:trigger HoldsNode(m, g, id)} :: IsOp(g.sub.nodes, id) ==> HoldsNode(m, g, id))
  }

  ghost predicate HoldsNode(m: Machine, g: Copied, id: nat)
    requires 0 < |g.dsts| == |g.sub.inputs|
    requires IsOp(g.sub.nodes, id)
  {
    && id in g.place
    && var at, n := g.place[id], g.sub.nodes[id].value;
    && (n.op.Placeholder? || n.op.Compute?)
    && Copyable(n, g.place)
    && SameFrame(m, at)
    && HoldsInputs(m, g, n, m.nodes[at].value, id, at)
  }

  ghost predicate HoldsInputs(m: Machine, g: Copied, n: Node, c: Node, id: nat, at: nat)
    requires 0 < |g.dsts| == |g.sub.inputs|
    requires Copyable(n, g.place)
  {
    && c.op == n.op
    && |c.inputs| == |n.inputs|
    && (forall i :: 0 <= i < |n.inputs| ==>
          && n.inputs[i].src.node < id && IsOp(g.sub.nodes, n.inputs[i].src.node)
          && c.inputs[i] == Edge(MapOutput(g.sub, g.place, g.dsts, n.inputs[i].src))
          && c.inputs[i].src.node < at && SameFrame(m, c.inputs[i].src.node))
    && |c.controls| == |n.controls| + (if Inherits(g.sub, n) then 0 else 1)
    && (forall i :: 0 <= i < |n.controls| ==>
          && n.controls[i] < id && IsOp(g.sub.nodes, n.controls[i])
          && c.controls[i] == g.place[n.controls[i]]
          && c.controls[i] < at && SameFrame(m, c.controls[i]))
    && (!Inherits(g.sub, n) ==> c.controls[|n.controls|] == g.dsts[0].node && g.dsts[0].node < at)
  }

  /** A node of the loop whose tokens arrive at the tag at which it executed. */
  ghost predicate SameFrame(m: Machine, id: nat) {
    && m.base <= id && IsLive(m.nodes, id)
    && var op := m.nodes[id].value.op;
    && !op.Enter? && !op.NextIteration? && !op.Exit?
  }

  /** The token on an output of a node executed at `tag`. */
  ghost function TokenAt(m: Machine, out: Output, tag: Tag): Token {
    if !IsLive(m.nodes, out.node) then Absent else
    OutToken(m.kernels, m.nodes[out.node].value.op, m.fires(out.node, tag), out.index)
  }

  lemma SameFrameToken(m: Machine, out: Output, reader: nat, tag: Tag)
    requires SameFrame(m, out.node) && out.node < reader
    ensures InToken(m, Edge(out), reader, tag) == TokenAt(m, out, tag)
    ensures InControl(m, out.node, reader, tag) == m.fires(out.node, tag)
  {}

  /** Where the loop variables a node needs are live, its copy computes what the node computes. */
  lemma {:induction false} CopyLive(m: Machine, g: Copied, tag: Tag, y: seq<Tensor>, id: nat)
    requires HoldsCopy(m, g) && |y| == |g.sub.inputs| && tag.Iter?
    requires Runs(g.sub, id)
    requires m.fires(g.dsts[0].node, tag).LiveFiring?
    requires forall j :: 0 <= j < |g.dsts| && NodeNeeds(g.sub, id, j) ==> TokenAt(m, g.dsts[j], tag) == Live(y[j])
    ensures id in g.place
    ensures m.fires(g.place[id], tag) == LiveFiring(Args(g.sub, m.kernels, y, id))
    decreases id, 1
  {
    assert HoldsNode(m, g, id);
    var at, n := g.place[id], g.sub.nodes[id].value;
    var c := m.nodes[at].value;
    forall i | 0 <= i < |n.inputs|
      ensures InToken(m, c.inputs[i], at, tag) == Live(Args(g.sub, m.kernels, y, id)[i])
    {
      CopyLiveInput(m, g, tag, y, id, i);
    }
    forall i | 0 <= i < |c.controls|
      ensures InControl(m, c.controls[i], at, tag).LiveFiring?
    {
      CopyLiveControl(m, g, tag, y, id, i);
    }
    FireStrict(m, at, tag, Args(g.sub, m.kernels, y, id));
  }

  lemma {:induction false} CopyLiveInput(m: Machine, g: Copied, tag: Tag, y: seq<Tensor>, id: nat, i: nat)
    requires HoldsCopy(m, g) && |y| == |g.sub.inputs| && tag.Iter?
    requires Runs(g.sub, id) && i < |g.sub.nodes[id].value.inputs|
    requires m.fires(g.dsts[0].node, tag).LiveFiring?
    requires forall j :: 0 <= j < |g.dsts| && NodeNeeds(g.sub, id, j) ==> TokenAt(m, g.dsts[j], tag) == Live(y[j])
    ensures HoldsNode(m, g, id)
    ensures InToken(m, m.nodes[g.place[id]].value.inputs[i], g.place[id], tag) ==
            Live(Val(g.sub, m.kernels, y, g.sub.nodes[id].value.inputs[i].src))
    decreases id, 0
  {
    assert HoldsNode(m, g, id);
    var at, src := g.place[id], g.sub.nodes[id].value.inputs[i].src;
    SameFrameToken(m, m.nodes[at].value.inputs[i].src, at, tag);
    if IsVariable(g.sub, src) {
      assert Needs(g.sub, src, IndexOf(g.sub.inputs, src.node));
    } else {
      assert forall j :: NodeNeeds(g.sub, src.node, j) ==> Needs(g.sub, src, j);
      assert HoldsNode(m, g, src.node);
      CopyLive(m, g, tag, y, src.node);
    }
  }

  lemma {:induction false} CopyLiveControl(m: Machine, g: Copied, tag: Tag, y: seq<Tensor>, id: nat, i: nat)
    requires HoldsCopy(m, g) && |y| == |g.sub.inputs| && tag.Iter?
    requires Runs(g.sub, id) && HoldsNode(m, g, id) && i < |m.nodes[g.place[id]].value.controls|
    requires m.fires(g.dsts[0].node, tag).LiveFiring?
    requires forall j :: 0 <= j < |g.dsts| && NodeNeeds(g.sub, id, j) ==> TokenAt(m, g.dsts[j], tag) == Live(y[j])
    ensures InControl(m, m.nodes[g.place[id]].value.controls[i], g.place[id], tag).LiveFiring?
    decreases id, 0
  {
    assert HoldsNode(m, g, id);
    var at, n := g.place[id], g.sub.nodes[id].value;
    SameFrameToken(m, Output(m.nodes[at].value.controls[i], 0), at, tag);
    if i < |n.controls| {
      CopyLive(m, g, tag, y, n.controls[i]);
    }
  }

  /** A node whose inputs are all live consumes their values. */
  lemma FireStrict(m: Machine, id: nat, tag: Tag, args: seq<Tensor>)
    requires Consistent(m)
    requires m.base <= id && IsLive(m.nodes, id)
    requires var n := m.nodes[id].value;
             && !n.op.Sentinel? && !n.op.Placeholder? && !n.op.Merge? && 0 < |n.inputs| + |n.controls|
             && |args| == |n.inputs|
             && (forall i :: 0 <= i < |args| ==> InToken(m, n.inputs[i], id, tag) == Live(args[i]))
             && (forall i :: 0 <= i < |n.controls| ==> InControl(m, n.controls[i], id, tag).LiveFiring?)
    ensures m.fires(id, tag) == LiveFiring(args)
  {
    assert Lawful(m, id, tag);
    var n := m.nodes[id].value;
    var data, ctrl := DataTokens(m, n, id, tag), ControlFirings(m, n, id, tag);
    assert AllArrived(data, ctrl) && !SomeDead(data, ctrl);
    assert Values(data) == args;
  }

  /** A node that lacks an input does not execute. */
  lemma FireBlocked(m: Machine, id: nat, tag: Tag, i: nat)
    requires Consistent(m)
    requires m.base <= id && IsLive(m.nodes, id) && !m.nodes[id].value.op.Merge?
    requires var n := m.nodes[id].value;
             || (i < |n.inputs| && InToken(m, n.inputs[i], id, tag).Absent?)
             || (i < |n.controls| && InControl(m, n.controls[i], id, tag).NotFired?)
    ensures m.fires(id, tag).NotFired?
  {
    assert Lawful(m, id, tag);
    var n := m.nodes[id].value;
    var data, ctrl := DataTokens(m, n, id, tag), ControlFirings(m, n, id, tag);
    assert !AllArrived(data, ctrl);
  }

  /** A node with an input that is not live does not execute live. */
  lemma FireNotLive(m: Machine, id: nat, tag: Tag, i: nat)
    requires Consistent(m)
    requires m.base <= id && IsLive(m.nodes, id) && !m.nodes[id].value.op.Merge?
    requires var n := m.nodes[id].value;
             || (i < |n.inputs| && !InToken(m, n.inputs[i], id, tag).Live?)
             || (i < |n.controls| && !InControl(m, n.controls[i], id, tag).LiveFiring?)
    ensures !m.fires(id, tag).LiveFiring?
  {
    assert Lawful(m, id, tag);
    var n := m.nodes[id].value;
    var data, ctrl := DataTokens(m, n, id, tag), ControlFirings(m, n, id, tag);
    assert !AllArrived(data, ctrl) || SomeDead(data, ctrl);
  }

  /** Every copy waits for the pivot, the source of loop variable 0, and for the variables it needs. */
  lemma {:induction false} CopyBlocked(m: Machine, g: Copied, tag: Tag, j: nat, id: nat)
    requires HoldsCopy(m, g)
    requires j < |g.dsts| && m.fires(g.dsts[j].node, tag).NotFired?
    requires IsOp(g.sub.nodes, id) && (j == 0 || NodeNeeds(g.sub, id, j))
    ensures id in g.place
    ensures m.fires(g.place[id], tag).NotFired?
    decreases id
  {
    assert HoldsNode(m, g, id);
    var at, n := g.place[id], g.sub.nodes[id].value;
    var c := m.nodes[at].value;
    if !Inherits(g.sub, n) && j == 0 {
      SameFrameToken(m, g.dsts[0], at, tag);
      FireBlocked(m, at, tag, |n.controls|);
    } else if i :| 0 <= i < |n.inputs| && (Needs(g.sub, n.inputs[i].src, j) || (j == 0 && !IsVariable(g.sub, n.inputs[i].src))) {
      var src := n.inputs[i].src;
      SameFrameToken(m, c.inputs[i].src, at, tag);
      if IsVariable(g.sub, src) {
        IndexOfDistinct(g.sub.inputs, j);
      } else {
        CopyBlocked(m, g, tag, j, src.node);
      }
      FireBlocked(m, at, tag, i);
    } else {
      var i :| 0 <= i < |n.controls| && (j == 0 || NodeNeeds(g.sub, n.controls[i], j));
      SameFrameToken(m, Output(c.controls[i], 0), at, tag);
      CopyBlocked(m, g, tag, j, n.controls[i]);
      FireBlocked(m, at, tag, i);
    }
  }

  /** The copy of a node that cannot run never executes. */
  lemma {:induction false} CopyUnfed(m: Machine, g: Copied, tag: Tag, id: nat)
    requires HoldsCopy(m, g)
    requires IsOp(g.sub.nodes, id) && !Runs(g.sub, id)
    ensures id in g.place
    ensures m.fires(g.place[id], tag).NotFired?
    decreases id
  {
    assert HoldsNode(m, g, id);
    var at, n := g.place[id], g.sub.nodes[id].value;
    var c := m.nodes[at].value;
    if n.op.Placeholder? {
      assert Lawful(m, at, tag);
    } else if i :| 0 <= i < |n.inputs| && !Feeds(g.sub, n.inputs[i].src) {
      SameFrameToken(m, c.inputs[i].src, at, tag);
      CopyUnfed(m, g, tag, n.inputs[i].src.node);
      FireBlocked(m, at, tag, i);
    } else {
      var i :| 0 <= i < |n.controls| && !Runs(g.sub, n.controls[i]);
      SameFrameToken(m, Output(c.controls[i], 0), at, tag);
      CopyUnfed(m, g, tag, n.controls[i]);
      FireBlocked(m, at, tag, i);
    }
  }

  /** Where a loop variable is not live, nothing that needs it is live. */
  lemma {:induction false} CopyNotLive(m: Machine, g: Copied, tag: Tag, j: nat, id: nat)
    requires HoldsCopy(m, g)
    requires j < |g.dsts| && !TokenAt(m, g.dsts[j], tag).Live?
    requires NodeNeeds(g.sub, id, j)
    ensures id in g.place
    ensures !m.fires(g.place[id], tag).LiveFiring?
    decreases id, 1
  {
    assert HoldsNode(m, g, id);
    var at, n := g.place[id], g.sub.nodes[id].value;
    if i :| 0 <= i < |n.inputs| && Needs(g.sub, n.inputs[i].src, j) {
      CopyNotLiveInput(m, g, tag, j, id, i);
      FireNotLive(m, at, tag, i);
    } else {
      var i :| 0 <= i < |n.controls| && NodeNeeds(g.sub, n.controls[i], j);
      CopyNotLive(m, g, tag, j, n.controls[i]);
      SameFrameToken(m, Output(m.nodes[at].value.controls[i], 0), at, tag);
      FireNotLive(m, at, tag, i);
    }
  }

  lemma {:induction false} CopyNotLiveInput(m: Machine, g: Copied, tag: Tag, j: nat, id: nat, i: nat)
    requires HoldsCopy(m, g)
    requires j < |g.dsts| && !TokenAt(m, g.dsts[j], tag).Live?
    requires IsOp(g.sub.nodes, id) && i < |g.sub.nodes[id].value.inputs|
    requires HoldsNode(m, g, id) && Needs(g.sub, g.sub.nodes[id].value.inputs[i].src, j)
    ensures !InToken(m, m.nodes[g.place[id]].value.inputs[i], g.place[id], tag).Live?
    decreases id, 0
  {
    assert HoldsNode(m, g, id);
    var at, src := g.place[id], g.sub.nodes[id].value.inputs[i].src;
    SameFrameToken(m, m.nodes[at].value.inputs[i].src, at, tag);
    if IsVariable(g.sub, src) {
      IndexOfDistinct(g.sub.inputs, j);
    } else {
      CopyNotLive(m, g, tag, j, src.node);
    }
  }

  /** The token of a mapped output where the loop variables it needs are live. */
  lemma OutputLive(m: Machine, g: Copied, tag: Tag, y: seq<Tensor>, out: Output)
    requires HoldsCopy(m, g) && |y| == |g.sub.inputs| && tag.Iter?
    requires Feeds(g.sub, out) && out.node in g.place
    requires !IsVariable(g.sub, out) ==> m.fires(g.dsts[0].node, tag).LiveFiring?
    requires forall j :: 0 <= j < |g.dsts| && Needs(g.sub, out, j) ==> TokenAt(m, g.dsts[j], tag) == Live(y[j])
    ensures TokenAt(m, MapOutput(g.sub, g.place, g.dsts, out), tag) == Live(Val(g.sub, m.kernels, y, out))
  {
    if IsVariable(g.sub, out) {
      assert Needs(g.sub, out, IndexOf(g.sub.inputs, out.node));
    } else {
      CopyLive(m, g, tag, y, out.node);
      assert HoldsNode(m, g, out.node);
    }
  }

  /** The token of a mapped output where the pivot or a loop variable it needs is missing. */
  lemma OutputAbsent(m: Machine, g: Copied, tag: Tag, j: nat, out: Output)
    requires HoldsCopy(m, g)
    requires IsOp(g.sub.nodes, out.node) && out.node in g.place
    requires j < |g.dsts| && m.fires(g.dsts[j].node, tag).NotFired?
    requires Needs(g.sub, out, j) || (j == 0 && !IsVariable(g.sub, out))
    ensures TokenAt(m, MapOutput(g.sub, g.place, g.dsts, out), tag).Absent?
  {
    if IsVariable(g.sub, out) {
      IndexOfDistinct(g.sub.inputs, j);
    } else {
      CopyBlocked(m, g, tag, j, out.node);
      assert HoldsNode(m, g, out.node);
    }
  }

  /** The token of a mapped output that nothing feeds. */
  lemma OutputUnfed(m: Machine, g: Copied, tag: Tag, out: Output)
    requires HoldsCopy(m, g)
    requires IsOp(g.sub.nodes, out.node) && out.node in g.place && !Feeds(g.sub, out)
    ensures TokenAt(m, MapOutput(g.sub, g.place, g.dsts, out), tag).Absent?
  {
    CopyUnfed(m, g, tag, out.node);
    assert HoldsNode(m, g, out.node);
  }

  /** The token of a mapped output where a loop variable it needs is not live. */
  lemma OutputNotLive(m: Machine, g: Copied, tag: Tag, j: nat, out: Output)
    requires HoldsCopy(m, g)
    requires IsOp(g.sub.nodes, out.node) && out.node in g.place
    requires j < |g.dsts| && !TokenAt(m, g.dsts[j], tag).Live?
    requires Needs(g.sub, out, j)
    ensures !TokenAt(m, MapOutput(g.sub, g.place, g.dsts, out), tag).Live?
  {
    if IsVariable(g.sub, out) {
      IndexOfDistinct(g.sub.inputs, j);
    } else {
      CopyNotLive(m, g, tag, j, out.node);
      assert HoldsNode(m, g, out.node);
    }
  }
}
