/** The graph TF_FinishWhile leaves in the parent graph. */
module WhileGraph {
  import opened Base
  import opened GraphModel
  import opened GraphImport

  /** A cond or body graph: the placeholders that stand for the loop variables, and the outputs. */
  datatype Sub = Sub(nodes: Slots, inputs: seq<nat>, outputs: seq<Output>)

  /** A lowered loop: `base` is the id of its first node; the orders are those in which import copied the
      nodes of the two graphs. */
  datatype Loop = Loop(name: string, base: nat, starts: seq<Output>,
                       cond: Sub, condOrder: seq<nat>, body: Sub, bodyOrder: seq<nat>)
  {
    function N(): nat { |starts| }
    function EnterId(i: nat): nat { base + i }
    function MergeId(i: nat): nat { base + N() + i }
    function CondStart(): nat { base + 2 * N() }
    function SwitchId(i: nat): nat { CondStart() + |condOrder| + i }
    function BodyStart(): nat { CondStart() + |condOrder| + N() }
    function NextId(i: nat): nat { BodyStart() + |bodyOrder| + i }
    function ExitId(i: nat): nat { BodyStart() + |bodyOrder| + N() + i }
    function End(): nat { BodyStart() + |bodyOrder| + 2 * N() }

    function Merges(): (outs: seq<Output>)
      ensures |outs| == N()
    {
      seq(N(), (i: nat) => Output(MergeId(i), 0))
    }

    function SwitchTrues(): (outs: seq<Output>)
      ensures |outs| == N()
    {
      seq(N(), (i: nat) => Output(SwitchId(i), 1))
    }

    function CondPlace(): map<nat, nat> { Placement(condOrder, CondStart()) }
    function BodyPlace(): map<nat, nat> { Placement(bodyOrder, BodyStart()) }

    function CondOutput(): Output
      requires Shaped(this)
    {
      MapOutput(cond, CondPlace(), Merges(), cond.outputs[0])
    }

    function BodyOutput(i: nat): Output
      requires Shaped(this) && i < N()
    {
      MapOutput(body, BodyPlace(), SwitchTrues(), body.outputs[i])
    }
  }

  predicate IsVariable(sub: Sub, out: Output) {
    out.index == 0 && out.node in sub.inputs
  }

  /** A graph without back edges or control flow ops: it can be evaluated by its data edges alone. */
  ghost predicate Plain(nodes: Slots) {
    forall id :: SENTINELS <= id < |nodes| && nodes[id].Some? ==>
      var n := nodes[id].value;
      && (n.op.Placeholder? || n.op.Compute?)
      && (forall i :: 0 <= i < |n.inputs| ==> n.inputs[i].Edge? && SENTINELS <= n.inputs[i].src.node)
      && (forall i :: 0 <= i < |n.controls| ==> SENTINELS <= n.controls[i])
  }

  /** What the builder asks of a cond or body graph. */
  ghost predicate BuildableSub(sub: Sub, variables: nat, outputs: nat) {
    && WellFormed(sub.nodes) && UniqueNames(sub.nodes)
    && |sub.inputs| == variables
    && Distinct(sub.inputs)
    && (forall i :: 0 <= i < variables ==>
          IsOp(sub.nodes, sub.inputs[i]) && sub.nodes[sub.inputs[i]].value.op.Placeholder?)
    && |sub.outputs| == outputs
    && (forall i :: 0 <= i < outputs ==> IsOp(sub.nodes, sub.outputs[i].node))
  }

  /** `order` lists the ops of a graph, each after the nodes it reads. */
  ghost predicate TopologicalOrder(nodes: Slots, order: seq<nat>) {
    && Distinct(order)
    && (forall id :: id in order <==> IsOp(nodes, id))
    && (forall j :: 0 <= j < |order| ==> ReadsEarlier(nodes, order, j))
  }

  ghost predicate ReadsEarlier(nodes: Slots, order: seq<nat>, j: nat)
    requires j < |order|
  {
    && IsOp(nodes, order[j])
    && var n := nodes[order[j]].value;
    && (forall i :: 0 <= i < |n.inputs| ==> n.inputs[i].Edge? && n.inputs[i].src.node in order[..j])
    && (forall i :: 0 <= i < |n.controls| ==> n.controls[i] in order[..j])
  }

  /** The two graphs fit the number of loop variables. */
  predicate Shaped(l: Loop) {
    && 0 < l.N() == |l.cond.inputs| == |l.body.inputs| == |l.body.outputs|
    && |l.cond.outputs| == 1 && l.cond.outputs[0].node in l.condOrder
    && (forall i :: 0 <= i < l.N() ==> l.body.outputs[i].node in l.bodyOrder)
  }

  /** The loops that can be lowered: import finds an order for both graphs. */
  ghost predicate Buildable(l: Loop) {
    && Shaped(l)
    && BuildableSub(l.cond, l.N(), 1) && ImportOrder(l.cond.nodes, l.condOrder) && Complete(l.cond.nodes, l.condOrder)
    && BuildableSub(l.body, l.N(), l.N()) && ImportOrder(l.body.nodes, l.bodyOrder) && Complete(l.body.nodes, l.bodyOrder)
    && (forall i :: 0 <= i < l.N() ==> l.starts[i].node < l.base)
  }

  /** Those of them that have no loops or branches inside. */
  ghost predicate ValidLoop(l: Loop) {
    && Buildable(l)
    && Plain(l.cond.nodes) && TopologicalOrder(l.cond.nodes, l.condOrder)
    && Plain(l.body.nodes) && TopologicalOrder(l.body.nodes, l.bodyOrder)
  }

  /** What an output of a copied graph becomes: a loop variable is replaced by `dsts`, anything else by the
      copy. */
  function MapOutput(sub: Sub, place: map<nat, nat>, dsts: seq<Output>, out: Output): Output
    requires |dsts| == |sub.inputs|
    requires out.node in place
  {
    if IsVariable(sub, out) then dsts[IndexOf(sub.inputs, out.node)]
    else Output(place[out.node], out.index)
  }

  /** A node that reads another copied node inherits that node's control dependency on the pivot. */
  predicate Inherits(sub: Sub, n: Node) {
    || 0 < |n.controls|
    || exists i :: 0 <= i < |n.inputs| && n.inputs[i].Edge? && !IsVariable(sub, n.inputs[i].src)
  }

  predicate Copyable(n: Node, place: map<nat, nat>) {
    && (forall i :: 0 <= i < |n.inputs| ==> n.inputs[i].Edge? && n.inputs[i].src.node in place)
    && (forall i :: 0 <= i < |n.controls| ==> n.controls[i] in place)
  }

  /** The copy of a node: its name is prefixed, its inputs are remapped, and it gets a control dependency
      on the pivot, the first of `dsts`, unless it inherits one. */
  function CopyOf(sub: Sub, place: map<nat, nat>, dsts: seq<Output>, prefix: string, n: Node): Node
    requires 0 < |dsts| == |sub.inputs|
    requires Copyable(n, place)
  {
    Node(prefix + n.name,
         n.op,
         seq(|n.inputs|, i requires 0 <= i < |n.inputs| => Edge(MapOutput(sub, place, dsts, n.inputs[i].src))),
         seq(|n.controls|, i requires 0 <= i < |n.controls| => place[n.controls[i]])
         + (if Inherits(sub, n) then [] else [dsts[0].node]))
  }

  // ----- Copies as import makes them -----

  /** The options with which CopyGraph imports: the loop variables are mapped, and the pivot is the dependency. */
  function CopyOptions(sub: Sub, dsts: seq<Output>, prefix: string): ImportOptions
    requires 0 < |dsts| == |sub.inputs|
  {
    var variables := set id | id in sub.inputs :: Output(id, 0);
    ImportOptions(prefix, map out | out in variables :: dsts[IndexOf(sub.inputs, out.node)], map[], [dsts[0].node])
  }

  lemma MappedAreVariables(sub: Sub, dsts: seq<Output>, prefix: string, out: Output)
    requires 0 < |dsts| == |sub.inputs|
    ensures out in CopyOptions(sub, dsts, prefix).inputMap <==> IsVariable(sub, out)
    ensures IsVariable(sub, out) ==> CopyOptions(sub, dsts, prefix).inputMap[out] == dsts[IndexOf(sub.inputs, out.node)]
  {
    assert IsVariable(sub, out) ==> out == Output(out.node, 0);
  }

  lemma {:induction false} PlainControls(o: ImportOptions, place: map<nat, nat>, cs: seq<nat>)
    requires o.controlMap == map[] && forall i :: 0 <= i < |cs| ==> cs[i] in place
    ensures ImportControls(o, place, cs) == seq(|cs|, i requires 0 <= i < |cs| => place[cs[i]])
  {
    if cs != [] {
      PlainControls(o, place, cs[..|cs| - 1]);
    }
  }

  lemma TopologicalIsImport(nodes: Slots, order: seq<nat>)
    requires TopologicalOrder(nodes, order)
    ensures ImportOrder(nodes, order) && Complete(nodes, order)
  {
    forall j: nat | j < |order|
      ensures Ready(nodes, order, j)
    {
      assert ReadsEarlier(nodes, order, j);
    }
  }

  /** The input, taken from the copies in `some`, is the one that CopyOf takes from those in `all`. */
  ghost predicate CopiedInput(sub: Sub, o: ImportOptions, some: map<nat, nat>, all: map<nat, nat>, dsts: seq<Output>,
                              input: Input)
    requires |dsts| == |sub.inputs|
  {
    && input.Edge? && Source(sub.nodes, input) == Some(input.src)
    && input.src.node in some && input.src.node in all
    && (input.src in o.inputMap <==> IsVariable(sub, input.src))
    && ImportInput(sub.nodes, o, some, input) == Edge(MapOutput(sub, all, dsts, input.src))
  }

  ghost predicate CopiedControl(some: map<nat, nat>, all: map<nat, nat>, c: nat) {
    c in some && c in all && some[c] == all[c]
  }

  lemma InputIsCopied(sub: Sub, order: seq<nat>, start: nat, dsts: seq<Output>, prefix: string, j: nat, input: Input)
    requires 0 < |dsts| == |sub.inputs| && j < |order| && Distinct(order)
    requires input.Edge? && IsOp(sub.nodes, input.src.node) && input.src.node in order[..j]
    ensures CopiedInput(sub, CopyOptions(sub, dsts, prefix), Placement(order[..j], start), Placement(order, start), dsts, input)
  {
    MappedAreVariables(sub, dsts, prefix, input.src);
    PlacementPrefix(order, start, j, input.src.node);
  }

  lemma DepsAreCopied(sub: Sub, o: ImportOptions, some: map<nat, nat>, all: map<nat, nat>, dsts: seq<Output>, n: Node)
    requires |dsts| == |sub.inputs| && Readable(sub.nodes, some, n) && o.controlMap == map[]
    requires forall i :: 0 <= i < |n.inputs| ==> CopiedInput(sub, o, some, all, dsts, n.inputs[i])
    ensures InheritsDeps(sub.nodes, o, some, n) <==> Inherits(sub, n)
  {
    assert 0 < |n.controls| ==> n.controls[0] !in o.controlMap;
  }

  lemma CopiedIsCopy(sub: Sub, o: ImportOptions, some: map<nat, nat>, all: map<nat, nat>, dsts: seq<Output>, n: Node)
    requires 0 < |dsts| == |sub.inputs| && Readable(sub.nodes, some, n)
    requires o.controlMap == map[] && o.deps == [dsts[0].node]
    requires forall i :: 0 <= i < |n.inputs| ==> CopiedInput(sub, o, some, all, dsts, n.inputs[i])
    requires forall i :: 0 <= i < |n.controls| ==> CopiedControl(some, all, n.controls[i])
    ensures Copyable(n, all) && Imported(sub.nodes, o, some, n) == CopyOf(sub, all, dsts, o.prefix, n)
  {
    DepsAreCopied(sub, o, some, all, dsts, n);
    PlainControls(o, some, n.controls);
    assert AddDeps([], o.deps) == o.deps;
  }

  /** In a plain graph a copy is the node with its name prefixed and its inputs remapped. */
  lemma ImportIsCopy(sub: Sub, order: seq<nat>, start: nat, dsts: seq<Output>, prefix: string, j: nat)
    requires 0 < |dsts| == |sub.inputs| && j < |order| && TopologicalOrder(sub.nodes, order)
    ensures Ready(sub.nodes, order, j) && Copyable(sub.nodes[order[j]].value, Placement(order, start))
    ensures ImportedAt(sub.nodes, CopyOptions(sub, dsts, prefix), order, start, j) ==
            CopyOf(sub, Placement(order, start), dsts, prefix, sub.nodes[order[j]].value)
  {
    TopologicalIsImport(sub.nodes, order);
    assert Ready(sub.nodes, order, j) && ReadsEarlier(sub.nodes, order, j);
    ReadyAt(sub.nodes, order, start, j);
    var n := sub.nodes[order[j]].value;
    var some, all := Placement(order[..j], start), Placement(order, start);
    forall i | 0 <= i < |n.inputs|
      ensures CopiedInput(sub, CopyOptions(sub, dsts, prefix), some, all, dsts, n.inputs[i])
    {
      InputIsCopied(sub, order, start, dsts, prefix, j, n.inputs[i]);
    }
    forall i | 0 <= i < |n.controls|
      ensures CopiedControl(some, all, n.controls[i])
    {
      PlacementPrefix(order, start, j, n.controls[i]);
    }
    CopiedIsCopy(sub, CopyOptions(sub, dsts, prefix), some, all, dsts, n);
  }

  // The seven groups of nodes, in the order in which they are created.

  function EnterNode(l: Loop, i: nat): Node
    requires i < l.N()
  {
    Node(l.name + "/enter" + Decimal(i), Enter(l.name), [Edge(l.starts[i])], [])
  }

  function MergeNode(l: Loop, i: nat): Node {
    Node(l.name + "/merge" + Decimal(i), Merge,
         [Edge(Output(l.EnterId(i), 0)), Pending(l.name + "/next" + Decimal(i), 0)], [])
  }

  function SwitchNode(l: Loop, i: nat): Node
    requires Shaped(l)
  {
    Node(l.name + "/switch" + Decimal(i), Switch, [Edge(Output(l.MergeId(i), 0)), Edge(l.CondOutput())], [])
  }

  function NextNode(l: Loop, i: nat): Node
    requires Shaped(l) && i < l.N()
  {
    Node(l.name + "/next" + Decimal(i), NextIteration, [Edge(l.BodyOutput(i))], [])
  }

  function ExitNode(l: Loop, i: nat): Node {
    Node(l.name + "/exit" + Decimal(i), Exit, [Edge(Output(l.SwitchId(i), 0))], [])
  }

  /** The five nodes of loop variable `i`. */
  predicate HoldsVariable(nodes: Slots, l: Loop, i: nat)
    requires Shaped(l) && |nodes| == l.End() && i < l.N()
  {
    && nodes[l.EnterId(i)] == Some(EnterNode(l, i))
    && nodes[l.MergeId(i)] == Some(MergeNode(l, i))
    && nodes[l.SwitchId(i)] == Some(SwitchNode(l, i))
    && nodes[l.NextId(i)] == Some(NextNode(l, i))
    && nodes[l.ExitId(i)] == Some(ExitNode(l, i))
  }

  /** Node `start + j` is what import makes of the j-th node. */
  ghost predicate HoldsImport(nodes: Slots, sub: Sub, order: seq<nat>, start: nat, dsts: seq<Output>, prefix: string, j: nat)
    requires 0 < |dsts| == |sub.inputs| && j < |order|
  {
    && Ready(sub.nodes, order, j) && start + j < |nodes|
    && nodes[start + j] == Some(ImportedAt(sub.nodes, CopyOptions(sub, dsts, prefix), order, start, j))
  }

  ghost predicate HoldsCond(nodes: Slots, l: Loop, j: nat)
    requires Buildable(l) && |nodes| == l.End() && j < |l.condOrder|
  {
    HoldsImport(nodes, l.cond, l.condOrder, l.CondStart(), l.Merges(), l.name + "/cond/", j)
  }

  ghost predicate HoldsBody(nodes: Slots, l: Loop, j: nat)
    requires Buildable(l) && |nodes| == l.End() && j < |l.bodyOrder|
  {
    HoldsImport(nodes, l.body, l.bodyOrder, l.BodyStart(), l.SwitchTrues(), l.name + "/body/", j)
  }

  /** The nodes from `l.base` on are the lowered loop. */
  ghost predicate IsLowered(nodes: Slots, l: Loop)
    requires Buildable(l)
  {
    && SENTINELS <= l.base
    && |nodes| == l.End()
    && (forall i :: 0 <= i < l.N() ==> HoldsVariable(nodes, l, i))
    && (forall j :: 0 <= j < |l.condOrder| ==> HoldsCond(nodes, l, j))
    && (forall j :: 0 <= j < |l.bodyOrder| ==> HoldsBody(nodes, l, j))
  }

  /** Import always finds an order: that of the ids is one. */
  lemma IdsAreTopological(nodes: Slots)
    requires WellFormed(nodes) && Plain(nodes)
    ensures TopologicalOrder(nodes, OpIds(nodes, 0, |nodes|))
  {
    var ids := OpIds(nodes, 0, |nodes|);
    OpIdsExact(nodes, 0, |nodes|);
    forall j | 0 <= j < |ids|
      ensures ReadsEarlier(nodes, ids, j)
    {
      assert ids[j] in ids && ReadsBackward(nodes, ids[j]);
      forall id | id in ids && id < ids[j]
        ensures id in ids[..j]
      {
        var i :| 0 <= i < |ids| && ids[i] == id;
        assert ids[..j][i] == id;
      }
    }
  }
}
