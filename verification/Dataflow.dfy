/** Tagged-token execution of a graph that holds one loop.

    Every node execution carries a tag: the root frame, or an iteration of the loop's frame. A node
    reads the tokens that arrive on its inputs at its own tag. A token is absent (nothing arrived),
    dead (it sits on an untaken branch) or live. */
module Dataflow {
  import opened Base
  import opened GraphModel

  /** Tensors are opaque. */
  type Tensor(!new)

  /** What the kernels compute: the value of output `slot` of an op of kind `kind`, and how Switch reads
      its predicate. */
  datatype Kernels = Kernels(apply: (string, seq<Tensor>, nat) -> Tensor, truth: Tensor -> bool)

  datatype Tag = Root | Iter(t: nat)

  datatype Token = Absent | Dead | Live(value: Tensor)

  /** One execution of a node: the values it consumed if it was live. */
  datatype Firing = NotFired | DeadFiring | LiveFiring(args: seq<Tensor>)

  /** A graph with the tensors its nodes below `base` produce in the root frame, and the executions of the
      nodes from `base` on. */
  datatype Machine = Machine(nodes: Slots, base: nat, outside: Output -> Tensor, kernels: Kernels,
                             fires: (nat, Tag) -> Firing)

  /** Where the token of an input at some tag comes from. */
  datatype Feed = Nothing | Outside(src: Output) | From(node: nat, tag: Tag, slot: nat)

  function Rank(tag: Tag): nat {
    match tag
    case Root => 0
    case Iter(t) => t + 1
  }

  /** The tag at which a source with op `op` executed when its token arrives at `tag`. Enter moves a token
      from the root frame to iteration 0, NextIteration from one iteration to the next; Exit leaves the
      frame. */
  function SourceTag(op: Op, tag: Tag): Option<Tag> {
    match op
    case Enter(_) => if tag == Iter(0) then Some(Root) else None
    case NextIteration => if tag.Iter? && tag.t > 0 then Some(Iter(tag.t - 1)) else None
    case Exit => None
    case _ => Some(tag)
  }

  ghost function Resolve(nodes: Slots, name: string): Option<nat> {
    if exists id :: IsNamed(nodes, id, name) then
      var id :| IsNamed(nodes, id, name);
      Some(id)
    else
      None
  }

  ghost function FeedOf(m: Machine, src: nat, slot: nat, reader: nat, tag: Tag): (f: Feed)
    ensures f.From? ==> f.node == src && f.slot == slot && IsLive(m.nodes, src)
    ensures f.From? ==> Rank(f.tag) < Rank(tag) || (f.tag == tag && f.node < reader)
  {
    if src < m.base then
      if tag.Root? then Outside(Output(src, slot)) else Nothing
    else if !IsLive(m.nodes, src) then
      Nothing
    else
      var from := SourceTag(m.nodes[src].value.op, tag);
      if from.None? || (from.value == tag && reader <= src) then Nothing else From(src, from.value, slot)
  }

  ghost function InputFeed(m: Machine, input: Input, reader: nat, tag: Tag): (f: Feed)
    ensures f.From? ==> IsLive(m.nodes, f.node)
    ensures f.From? ==> Rank(f.tag) < Rank(tag) || (f.tag == tag && f.node < reader)
  {
    match input
    case Edge(src) => FeedOf(m, src.node, src.index, reader, tag)
    case Pending(name, index) =>
      var id := Resolve(m.nodes, name);
      if id.None? then Nothing else FeedOf(m, id.value, index, reader, tag)
  }

  /** The token on output `slot` of an executed node. Merge's second output, the index of the input it
      took, is not represented. */
  function OutToken(k: Kernels, op: Op, f: Firing, slot: nat): Token {
    match f
    case NotFired => Absent
    case DeadFiring => Dead
    case LiveFiring(args) =>
      match op
      case Compute(kind) => Live(k.apply(kind, args, slot))
      case Switch =>
        if |args| != 2 then Absent
        else if slot == (if k.truth(args[1]) then 1 else 0) then Live(args[0])
        else Dead
      case _ => if |args| == 1 && slot == 0 then Live(args[0]) else Absent
  }

  /** NextIteration swallows dead tokens. */
  function Carried(op: Op, t: Token): Token {
    if op.NextIteration? && t.Dead? then Absent else t
  }

  /** A control edge carries whether its source executed live, whatever its outputs carry. */
  function CarriedControl(op: Op, f: Firing): Firing {
    if op.NextIteration? && f.DeadFiring? then NotFired else f
  }

  ghost predicate AllArrived(data: seq<Token>, ctrl: seq<Firing>) {
    && (forall i :: 0 <= i < |data| ==> !data[i].Absent?)
    && (forall i :: 0 <= i < |ctrl| ==> !ctrl[i].NotFired?)
  }

  ghost predicate SomeDead(data: seq<Token>, ctrl: seq<Firing>) {
    || (exists i :: 0 <= i < |data| && data[i].Dead?)
    || (exists i :: 0 <= i < |ctrl| && ctrl[i].DeadFiring?)
  }

  ghost function Values(data: seq<Token>): (vs: seq<Tensor>)
    requires forall i :: 0 <= i < |data| ==> data[i].Live?
    ensures |vs| == |data|
    ensures forall i :: 0 <= i < |data| ==> vs[i] == data[i].value
  {
    seq(|data|, i requires 0 <= i < |data| => data[i].value)
  }

  /** What a node does with the tokens that have arrived at `tag`. A node without inputs executes in the
      root frame. Merge takes a live input as soon as there is one; every other op waits for all its inputs
      and is dead when one of them is. */
  ghost function Fire(op: Op, data: seq<Token>, ctrl: seq<Firing>, tag: Tag): Firing {
    if op.Sentinel? || op.Placeholder? then
      NotFired
    else if |data| + |ctrl| == 0 then
      if tag.Root? then LiveFiring([]) else NotFired
    else if op.Merge? then
      if exists i :: 0 <= i < |ctrl| && ctrl[i].NotFired? then NotFired
      else if exists i :: 0 <= i < |data| && data[i].Live? then
        var i :| 0 <= i < |data| && data[i].Live?;
        LiveFiring([data[i].value])
      else if forall i :: 0 <= i < |data| ==> data[i].Dead? then DeadFiring
      else NotFired
    else if !AllArrived(data, ctrl) then NotFired
    else if SomeDead(data, ctrl) then DeadFiring
    else LiveFiring(Values(data))
  }

  /** The token that arrives on a data input of `reader` at `tag`. */
  ghost function InToken(m: Machine, input: Input, reader: nat, tag: Tag): Token {
    match InputFeed(m, input, reader, tag)
    case Nothing => Absent
    case Outside(src) => Live(m.outside(src))
    case From(src, srcTag, slot) =>
      var op := m.nodes[src].value.op;
      Carried(op, OutToken(m.kernels, op, m.fires(src, srcTag), slot))
  }

  ghost function InControl(m: Machine, src: nat, reader: nat, tag: Tag): Firing {
    match FeedOf(m, src, 0, reader, tag)
    case Nothing => NotFired
    case Outside(_) => LiveFiring([])
    case From(_, srcTag, _) => CarriedControl(m.nodes[src].value.op, m.fires(src, srcTag))
  }

  ghost function DataTokens(m: Machine, n: Node, id: nat, tag: Tag): (ts: seq<Token>)
    ensures |ts| == |n.inputs|
    ensures forall i :: 0 <= i < |n.inputs| ==> ts[i] == InToken(m, n.inputs[i], id, tag)
  {
    seq(|n.inputs|, i requires 0 <= i < |n.inputs| => InToken(m, n.inputs[i], id, tag))
  }

  ghost function ControlFirings(m: Machine, n: Node, id: nat, tag: Tag): (fs: seq<Firing>)
    ensures |fs| == |n.controls|
    ensures forall i :: 0 <= i < |n.controls| ==> fs[i] == InControl(m, n.controls[i], id, tag)
  {
    seq(|n.controls|, i requires 0 <= i < |n.controls| => InControl(m, n.controls[i], id, tag))
  }

  /** What node `id` does at `tag`, given the executions of the other nodes. */
  ghost function Outcome(m: Machine, id: nat, tag: Tag): Firing {
    if id < m.base || !IsLive(m.nodes, id) then
      NotFired
    else
      var n := m.nodes[id].value;
      Fire(n.op, DataTokens(m, n, id, tag), ControlFirings(m, n, id, tag), tag)
  }

  ghost predicate Lawful(m: Machine, id: nat, tag: Tag) {
    m.fires(id, tag) == Outcome(m, id, tag)
  }

  /** Every node has executed where it can, and nowhere else. */
  ghost predicate Consistent(m: Machine) {
    forall id, tag :: Lawful(m, id, tag)
  }

  // ----- Executions exist, and are unique -----

  /** Execution (i, at) comes before (id, tag): in an earlier iteration, or at a smaller node of the same. */
  predicate Before(i: nat, at: Tag, id: nat, tag: Tag) {
    Rank(at) < Rank(tag) || (at == tag && i < id)
  }

  ghost predicate SameGraph(a: Machine, b: Machine) {
    a.nodes == b.nodes && a.base == b.base && a.outside == b.outside && a.kernels == b.kernels
  }

  /** What a node does depends only on the executions before it. */
  lemma OutcomeDependsOnEarlier(a: Machine, b: Machine, id: nat, tag: Tag)
    requires SameGraph(a, b)
    requires forall i, at :: Before(i, at, id, tag) ==> a.fires(i, at) == b.fires(i, at)
    ensures Outcome(a, id, tag) == Outcome(b, id, tag)
  {
    if a.base <= id && IsLive(a.nodes, id) {
      var n := a.nodes[id].value;
      assert DataTokens(a, n, id, tag) == DataTokens(b, n, id, tag);
      assert ControlFirings(a, n, id, tag) == ControlFirings(b, n, id, tag);
    }
  }

  ghost function Exec(m: Machine, id: nat, tag: Tag): Firing
    decreases Rank(tag), id
  {
    Outcome(m.(fires := (i: nat, at) => if Before(i, at, id, tag) then Exec(m, i, at) else NotFired), id, tag)
  }

  /** The machine with every node executed. */
  ghost function Executed(m: Machine): (e: Machine)
    ensures SameGraph(m, e)
  {
    m.(fires := (id: nat, tag) => Exec(m, id, tag))
  }

  lemma ExecutedConsistent(m: Machine)
    ensures Consistent(Executed(m))
  {
    forall id, tag
      ensures Lawful(Executed(m), id, tag)
    {
      var partial := m.(fires := (i: nat, at) => if Before(i, at, id, tag) then Exec(m, i, at) else NotFired);
      OutcomeDependsOnEarlier(partial, Executed(m), id, tag);
    }
  }

  lemma {:induction false} ConsistentUnique(a: Machine, b: Machine, id: nat, tag: Tag)
    requires SameGraph(a, b) && Consistent(a) && Consistent(b)
    ensures a.fires(id, tag) == b.fires(id, tag)
    decreases Rank(tag), id
  {
    forall i, at | Before(i, at, id, tag)
      ensures a.fires(i, at) == b.fires(i, at)
    {
      ConsistentUnique(a, b, i, at);
    }
    OutcomeDependsOnEarlier(a, b, id, tag);
    assert Lawful(a, id, tag) && Lawful(b, id, tag);
  }
}
