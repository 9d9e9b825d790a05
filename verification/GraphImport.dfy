/** What import makes of the nodes of a graph definition. */
module GraphImport {
  import opened Base
  import opened GraphModel

  /** The options of an import: the prefix with its slash, or none; what data and control inputs are replaced by;
      and the nodes on which the imported ones are to depend. */
  datatype ImportOptions = ImportOptions(prefix: string, inputMap: map<Output, Output>, controlMap: map<nat, nat>,
                                         deps: seq<nat>)

  /** Where import puts the copies when it takes the nodes in `order`. */
  function Placement(order: seq<nat>, start: nat): (place: map<nat, nat>)
    ensures forall id :: id in place <==> id in order
  {
    map id | id in order :: start + IndexOf(order, id)
  }

  lemma PlacementPrefix(order: seq<nat>, start: nat, j: nat, id: nat)
    requires Distinct(order) && j <= |order| && id in order[..j]
    ensures id in order && Placement(order[..j], start)[id] == Placement(order, start)[id]
    ensures start <= Placement(order, start)[id] < start + j
  {
    var i := IndexOf(order[..j], id);
    IndexOfDistinct(order, i);
  }

  /** The last op below `k` with the given name. */
  function FindOp(defs: Slots, name: string, k: nat): (r: Option<nat>)
    requires k <= |defs|
    ensures r.Some? ==> IsNamed(defs, r.value, name)
    ensures r.None? ==> forall id: nat :: id < k ==> !IsNamed(defs, id, name)
  {
    if k == 0 then None
    else if IsOp(defs, k - 1) && defs[k - 1].value.name == name then Some(k - 1)
    else FindOp(defs, name, k - 1)
  }

  /** The output that a data input reads. In a graph definition a back edge is a name like any other. */
  function Source(defs: Slots, input: Input): (r: Option<Output>)
    ensures r.Some? ==> IsOp(defs, r.value.node)
  {
    match input
    case Edge(src) => if IsOp(defs, src.node) then Some(src) else None
    case Pending(name, index) =>
      var id := FindOp(defs, name, |defs|);
      if id.None? then None else Some(Output(id.value, index))
  }

  /** Every input of the node is in the graph definition. */
  predicate Known(defs: Slots, n: Node) {
    && (forall i :: 0 <= i < |n.inputs| ==> Source(defs, n.inputs[i]).Some?)
    && (forall i :: 0 <= i < |n.controls| ==> IsOp(defs, n.controls[i]))
  }

  predicate AllKnown(defs: Slots) {
    forall id :: 0 <= id < |defs| && IsOp(defs, id) ==> Known(defs, defs[id].value)
  }

  /** The nodes with copies so far are those of `place`. A Merge may read a node that has none yet. */
  predicate Readable(defs: Slots, place: map<nat, nat>, n: Node) {
    && Known(defs, n)
    && (forall i :: 0 <= i < |n.inputs| ==> n.op.Merge? || Source(defs, n.inputs[i]).value.node in place)
    && (forall i :: 0 <= i < |n.controls| ==> n.controls[i] in place)
  }

  /** A data input of a copy: what it is mapped to, the copy of what it reads, or the name of a copy to come. */
  function ImportInput(defs: Slots, o: ImportOptions, place: map<nat, nat>, input: Input): Input
    requires Source(defs, input).Some?
  {
    var src := Source(defs, input).value;
    if src in o.inputMap then Edge(o.inputMap[src])
    else if src.node in place then Edge(Output(place[src.node], src.index))
    else Pending(o.prefix + defs[src.node].value.name, src.index)
  }

  /** The control inputs of a copy. Of those mapped to the same node one is kept. */
  function ImportControls(o: ImportOptions, place: map<nat, nat>, cs: seq<nat>): (r: seq<nat>)
    requires forall i :: 0 <= i < |cs| ==> cs[i] in place
    ensures forall i :: 0 <= i < |r| ==> r[i] in o.controlMap.Values || r[i] in place.Values
  {
    if cs == [] then []
    else
      var rest, c := ImportControls(o, place, cs[..|cs| - 1]), cs[|cs| - 1];
      if c !in o.controlMap then rest + [place[c]]
      else if o.controlMap[c] in rest then rest
      else rest + [o.controlMap[c]]
  }

  function AddDeps(cs: seq<nat>, deps: seq<nat>): (r: seq<nat>)
    ensures forall i :: 0 <= i < |r| ==> r[i] in cs || r[i] in deps
  {
    if deps == [] then cs
    else
      var rest, d := AddDeps(cs, deps[..|deps| - 1]), deps[|deps| - 1];
      if d in rest then rest else rest + [d]
  }

  /** A node that reads the copy of another node inherits its dependencies. */
  predicate InheritsDeps(defs: Slots, o: ImportOptions, place: map<nat, nat>, n: Node)
    requires Known(defs, n)
  {
    || (exists i :: 0 <= i < |n.inputs| && var src := Source(defs, n.inputs[i]).value; src !in o.inputMap && src.node in place)
    || (exists i :: 0 <= i < |n.controls| && n.controls[i] !in o.controlMap)
  }

  /** The copy of a node. */
  function Imported(defs: Slots, o: ImportOptions, place: map<nat, nat>, n: Node): Node
    requires Readable(defs, place, n)
  {
    var cs := ImportControls(o, place, n.controls);
    Node(o.prefix + n.name,
         n.op,
         seq(|n.inputs|, i requires 0 <= i < |n.inputs| => ImportInput(defs, o, place, n.inputs[i])),
         if InheritsDeps(defs, o, place, n) then cs else AddDeps(cs, o.deps))
  }

  // ----- The order of import -----

  ghost predicate Ready(defs: Slots, order: seq<nat>, j: nat)
    requires j < |order|
  {
    IsOp(defs, order[j]) && Readable(defs, Placement(order[..j], 0), defs[order[j]].value)
  }

  /** Import takes a node when those it reads have been taken, except that a Merge does not wait for its back edge.
      It may be stuck before it has taken all. */
  ghost predicate ImportOrder(defs: Slots, order: seq<nat>) {
    && Distinct(order)
    && (forall j: nat {:trigger Ready(defs, order, j)} :: j < |order| ==> Ready(defs, order, j))
  }

  predicate Complete(defs: Slots, order: seq<nat>) {
    forall id :: 0 <= id < |defs| && IsOp(defs, id) ==> id in order
  }

  lemma ReadyAt(defs: Slots, order: seq<nat>, start: nat, j: nat)
    requires j < |order| && Ready(defs, order, j)
    ensures Readable(defs, Placement(order[..j], start), defs[order[j]].value)
  {
  }

  ghost function ImportedAt(defs: Slots, o: ImportOptions, order: seq<nat>, start: nat, j: nat): Node
    requires j < |order| && Ready(defs, order, j)
  {
    ReadyAt(defs, order, start, j);
    Imported(defs, o, Placement(order[..j], start), defs[order[j]].value)
  }

  ghost function ImportedNodes(defs: Slots, o: ImportOptions, order: seq<nat>, start: nat): (cs: seq<Node>)
    requires ImportOrder(defs, order)
    ensures |cs| == |order|
  {
    seq(|order|, j requires 0 <= j < |order| => assert Ready(defs, order, j); ImportedAt(defs, o, order, start, j))
  }

  /** What a requested output of the graph definition becomes. */
  function ImportOutput(o: ImportOptions, place: map<nat, nat>, out: Output): Output
    requires out in o.inputMap || out.node in place
  {
    if out in o.inputMap then o.inputMap[out] else Output(place[out.node], out.index)
  }

  /** The nodes that the options refer to are in the graph. */
  predicate TargetsLive(nodes: Slots, o: ImportOptions) {
    && (forall out :: out in o.inputMap ==> IsLive(nodes, o.inputMap[out].node))
    && (forall c :: c in o.controlMap ==> IsLive(nodes, o.controlMap[c]))
    && (forall i :: 0 <= i < |o.deps| ==> IsLive(nodes, o.deps[i]))
  }

  /** The copies made so far, and what the options refer to, are in the graph. */
  ghost predicate AllLive(nodes: Slots, o: ImportOptions, place: map<nat, nat>) {
    TargetsLive(nodes, o) && forall id :: id in place ==> IsLive(nodes, place[id])
  }

  lemma ControlsLive(nodes: Slots, o: ImportOptions, place: map<nat, nat>, cs: seq<nat>)
    requires AllLive(nodes, o, place) && forall i :: 0 <= i < |cs| ==> cs[i] in place
    ensures forall c :: c in ImportControls(o, place, cs) || c in AddDeps(ImportControls(o, place, cs), o.deps) ==>
              IsLive(nodes, c)
  {
    forall c | c in o.controlMap.Values || c in place.Values || c in o.deps
      ensures IsLive(nodes, c)
    {
      if c in o.controlMap.Values {
        var k :| k in o.controlMap && o.controlMap[k] == c;
      } else if c in place.Values {
        var k :| k in place && place[k] == c;
      }
    }
  }

  lemma CopyPrecedes(defs: Slots, o: ImportOptions, place: map<nat, nat>, nodes: Slots, n: Node)
    requires Readable(defs, place, n) && AllLive(nodes, o, place)
    ensures InputsPrecede(nodes, Imported(defs, o, place, n), |nodes|)
  {
    ControlsLive(nodes, o, place, n.controls);
    var c := Imported(defs, o, place, n);
    assert forall i :: 0 <= i < |c.controls| ==> c.controls[i] in c.controls;
  }

  /** A copy reads nodes that are in the graph before it. */
  lemma ImportedPrecedes(defs: Slots, o: ImportOptions, order: seq<nat>, before: Slots, after: Slots, j: nat)
    requires Distinct(order) && j < |order| && Ready(defs, order, j) && TargetsLive(before, o)
    requires before <= after && |after| == |before| + j
    requires forall i :: |before| <= i < |after| ==> after[i].Some?
    ensures InputsPrecede(after, ImportedAt(defs, o, order, |before|, j), |after|)
  {
    var place := Placement(order[..j], |before|);
    ReadyAt(defs, order, |before|, j);
    forall id | id in place
      ensures IsLive(after, place[id])
    {
      PlacementPrefix(order, |before|, j, id);
    }
    CopyPrecedes(defs, o, place, after, defs[order[j]].value);
  }
}
