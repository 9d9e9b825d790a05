/** The graph of a TF_Graph as a value: nodes indexed by id, with removed nodes as empty slots. */
module GraphModel {
  import opened Base

  /** TF_Output: output slot `index` of node `node`. */
  datatype Output = Output(node: nat, index: nat)

  /** A data input: an existing output, or the name of a node that does not exist yet (a back edge). */
  datatype Input = Edge(src: Output) | Pending(name: string, index: nat)

  datatype Op =
    | Sentinel
    | Placeholder
    | Enter(frame: string)
    | Merge
    | Switch
    | NextIteration
    | Exit
    | Compute(kind: string)

  datatype Node = Node(name: string, op: Op, inputs: seq<Input>, controls: seq<nat>)

  /** Slot `id` holds the node with that id, or None once the node has been removed. */
  type Slots = seq<Option<Node>>

  const SENTINELS: nat := 2

  predicate IsLive(nodes: Slots, id: nat) {
    id < |nodes| && nodes[id].Some?
  }

  /** A live node that is neither the source nor the sink. */
  predicate IsOp(nodes: Slots, id: nat) {
    SENTINELS <= id && IsLive(nodes, id)
  }

  /** The inputs of a node about to get id `id` refer to live nodes with smaller ids. */
  predicate InputsPrecede(nodes: Slots, n: Node, id: nat) {
    && (forall i :: 0 <= i < |n.inputs| ==>
          n.inputs[i].Edge? ==> n.inputs[i].src.node < id && IsLive(nodes, n.inputs[i].src.node))
    && (forall i :: 0 <= i < |n.controls| ==> n.controls[i] < id && IsLive(nodes, n.controls[i]))
  }

  predicate ReadsBackward(nodes: Slots, id: nat)
    requires id < |nodes|
  {
    nodes[id].Some? ==> InputsPrecede(nodes, nodes[id].value, id)
  }

  predicate UniqueNames(nodes: Slots) {
    forall a, b :: SENTINELS <= a < b < |nodes| && nodes[a].Some? && nodes[b].Some? ==>
      nodes[a].value.name != nodes[b].value.name
  }

  ghost predicate WellFormed(nodes: Slots) {
    && SENTINELS <= |nodes|
    && nodes[0].Some? && nodes[1].Some?
    && (forall id :: 0 <= id < |nodes| ==> ReadsBackward(nodes, id))
  }

  ghost predicate IsNamed(nodes: Slots, id: nat, name: string) {
    IsOp(nodes, id) && nodes[id].value.name == name
  }

  /** The ids of the ops in [lo, hi), in increasing order. */
  function OpIds(nodes: Slots, lo: nat, hi: nat): seq<nat>
    requires lo <= hi <= |nodes|
    decreases hi - lo
  {
    if lo == hi then []
    else OpIds(nodes, lo, hi - 1) + (if IsOp(nodes, hi - 1) then [hi - 1] else [])
  }

  /** Every op in the range is listed, each once and in the order of ids. */
  lemma {:induction false} OpIdsExact(nodes: Slots, lo: nat, hi: nat)
    requires lo <= hi <= |nodes|
    ensures forall id: nat :: id in OpIds(nodes, lo, hi) <==> lo <= id < hi && IsOp(nodes, id)
    ensures forall i, j :: 0 <= i < j < |OpIds(nodes, lo, hi)| ==> OpIds(nodes, lo, hi)[i] < OpIds(nodes, lo, hi)[j]
    decreases hi - lo
  {
    if lo < hi {
      OpIdsExact(nodes, lo, hi - 1);
      var before := OpIds(nodes, lo, hi - 1);
      assert forall i :: 0 <= i < |before| ==> before[i] in before;
    }
  }

  /** Node `a` reads node `b`, through a data edge or a control edge; back edges do not count. */
  predicate ReadsNode(nodes: Slots, a: nat, b: nat) {
    && IsLive(nodes, a)
    && var n := nodes[a].value;
    || (exists i :: 0 <= i < |n.inputs| && n.inputs[i].Edge? && n.inputs[i].src.node == b)
    || b in n.controls
  }

  /** Without its back edges, a well-formed graph has no cycle. */
  lemma {:induction false} ForwardEdgesAcyclic(nodes: Slots, path: seq<nat>)
    requires WellFormed(nodes) && 2 <= |path|
    requires forall k :: 0 <= k < |path| - 1 ==> ReadsNode(nodes, path[k], path[k + 1])
    ensures path[|path| - 1] < path[0]
  {
    assert ReadsNode(nodes, path[0], path[1]) && ReadsBackward(nodes, path[0]);
    if |path| > 2 {
      ForwardEdgesAcyclic(nodes, path[1..]);
    }
  }
}
