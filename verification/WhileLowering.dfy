/** TF_FinishWhile: builds the lowered loop in the parent graph. */
module WhileLowering {
  import opened Base
  import opened GraphModel
  import opened GraphImport
  import opened WhileGraph
  import opened GraphBuilder

  /** TF_WhileParams. The fields the caller has to set are options. */
  datatype WhileParams = WhileParams(
    name: Option<string>, starts: seq<Output>,
    condNodes: Slots, condInputs: seq<nat>, condOutput: Option<Output>,
    bodyNodes: Slots, bodyInputs: seq<nat>, bodyOutputs: seq<Option<Output>>)

  predicate IsSet(p: WhileParams) {
    p.condOutput.Some? && (forall i :: 0 <= i < |p.bodyOutputs| ==> p.bodyOutputs[i].Some?) && p.name.Some?
  }

  function CondSub(p: WhileParams): Sub
    requires IsSet(p)
  {
    Sub(p.condNodes, p.condInputs, [p.condOutput.value])
  }

  function BodySub(p: WhileParams): Sub
    requires IsSet(p)
  {
    Sub(p.bodyNodes, p.bodyInputs, seq(|p.bodyOutputs|, i requires 0 <= i < |p.bodyOutputs| => p.bodyOutputs[i].value))
  }

  /** The loop that lowering leaves in a graph with nodes up to `base`. */
  function LoopOf(p: WhileParams, base: nat, condOrder: seq<nat>, bodyOrder: seq<nat>): Loop
    requires IsSet(p)
  {
    Loop(p.name.value, base, p.starts, CondSub(p), condOrder, BodySub(p), bodyOrder)
  }

  // ----- Names -----

  function Undecimal(s: string): int {
    if s == [] then 0 else 10 * Undecimal(s[..|s| - 1]) + (s[|s| - 1] as int - '0' as int)
  }

  lemma {:induction false} UndecimalDecimal(i: nat)
    ensures Undecimal(Decimal(i)) == i
  {
    if i >= 10 {
      UndecimalDecimal(i / 10);
      assert Decimal(i)[..|Decimal(i)| - 1] == Decimal(i / 10);
    } else {
      assert Undecimal([]) == 0;
    }
  }

  /** The two tags differ within their common length. */
  ghost predicate TagsDiffer(a: string, b: string) {
    exists k :: 0 <= k < |a| && k < |b| && a[k] != b[k]
  }

  lemma DifferentTags(name: string, a: string, b: string, s: string)
    requires TagsDiffer(a, b) && StartsWith(s, name + a)
    ensures !StartsWith(s, name + b)
  {
    var k :| 0 <= k < |a| && k < |b| && a[k] != b[k];
    assert (name + a)[|name| + k] != (name + b)[|name| + k];
    assert s[|name| + k] == (name + a)[|name| + k];
  }

  /** Nodes named after one tag. */
  ghost predicate Tagged(ops: seq<Node>, name: string, tag: string) {
    forall i :: 0 <= i < |ops| ==> StartsWith(ops[i].name, name + tag)
  }

  lemma OtherTagUnused(nodes: Slots, ops: seq<Node>, name: string, tag: string, other: string)
    requires Tagged(ops, name, tag) && TagsDiffer(tag, other)
    requires NoneStartsWith(nodes, name + other)
    ensures NoneStartsWith(nodes + Somes(ops), name + other)
  {
    forall i | 0 <= i < |ops|
      ensures !StartsWith(ops[i].name, name + other)
    {
      DifferentTags(name, tag, other, ops[i].name);
    }
  }

  lemma UnusedTagIsNew(nodes: Slots, nameMap: map<string, nat>, ops: seq<Node>, name: string, tag: string)
    requires IndexAgrees(nodes, nameMap) && NoneStartsWith(nodes, name + tag) && Tagged(ops, name, tag)
    ensures forall j :: 0 <= j < |ops| ==> ops[j].name !in nameMap
  {}

  /** Nodes named after a tag and their position. */
  ghost predicate Numbered(ops: seq<Node>, name: string, tag: string) {
    forall i :: 0 <= i < |ops| ==> ops[i].name == name + tag + Decimal(i)
  }

  lemma NumberedTagged(ops: seq<Node>, name: string, tag: string)
    requires Numbered(ops, name, tag)
    ensures Tagged(ops, name, tag) && DistinctNames(ops)
  {
    forall i, j | 0 <= i < j < |ops|
      ensures ops[i].name != ops[j].name
    {
      UndecimalDecimal(i);
      UndecimalDecimal(j);
      if ops[i].name == ops[j].name {
        PrefixInjective(name + tag, Decimal(i), Decimal(j));
      }
    }
  }

  // ----- The groups of nodes -----

  const TAGS: seq<string> := ["/enter", "/merge", "/cond/", "/switch", "/body/", "/next", "/exit"]

  function Enters(l: Loop): (ops: seq<Node>)
    ensures |ops| == l.N()
  {
    seq(l.N(), i requires 0 <= i < l.N() => EnterNode(l, i))
  }

  function MergeOps(l: Loop): (ops: seq<Node>)
    ensures |ops| == l.N()
  {
    seq(l.N(), i requires 0 <= i < l.N() => MergeNode(l, i))
  }

  function SwitchOps(l: Loop, pred: Output): (ops: seq<Node>)
    ensures |ops| == l.N()
  {
    seq(l.N(), i requires 0 <= i < l.N() =>
      Node(l.name + "/switch" + Decimal(i), Switch, [Edge(Output(l.MergeId(i), 0)), Edge(pred)], []))
  }

  function NextOps(l: Loop, values: seq<Output>): (ops: seq<Node>)
    requires |values| == l.N()
    ensures |ops| == l.N()
  {
    seq(l.N(), i requires 0 <= i < l.N() =>
      Node(l.name + "/next" + Decimal(i), NextIteration, [Edge(values[i])], []))
  }

  function ExitOps(l: Loop): (ops: seq<Node>)
    ensures |ops| == l.N()
  {
    seq(l.N(), i requires 0 <= i < l.N() => ExitNode(l, i))
  }

  function BodyOutputs(l: Loop): (outs: seq<Output>)
    requires Shaped(l)
    ensures |outs| == l.N()
  {
    seq(l.N(), i requires 0 <= i < l.N() => l.BodyOutput(i))
  }

  ghost function CondOps(l: Loop): (ops: seq<Node>)
    requires Buildable(l)
    ensures |ops| == |l.condOrder|
  {
    ImportedNodes(l.cond.nodes, CopyOptions(l.cond, l.Merges(), l.name + TAGS[2]), l.condOrder, l.CondStart())
  }

  ghost function BodyOps(l: Loop): (ops: seq<Node>)
    requires Buildable(l)
    ensures |ops| == |l.bodyOrder|
  {
    ImportedNodes(l.body.nodes, CopyOptions(l.body, l.SwitchTrues(), l.name + TAGS[4]), l.bodyOrder, l.BodyStart())
  }

  /** The nodes of the lowered loop, group by group in the order in which they are created. */
  ghost function Groups(l: Loop): (gs: seq<seq<Node>>)
    requires Buildable(l)
    ensures |gs| == |TAGS| && Sized(gs, l)
  {
    [Enters(l), MergeOps(l), CondOps(l), SwitchOps(l, l.CondOutput()), BodyOps(l), NextOps(l, BodyOutputs(l)), ExitOps(l)]
  }

  ghost function Lowered(l: Loop): seq<Node>
    requires Buildable(l)
  {
    All(Groups(l))
  }

  /** The id of the first node of the k-th group. */
  function GroupStart(l: Loop, k: nat): nat
    requires k <= |TAGS|
  {
    if k == 0 then l.base
    else if k == 1 then l.MergeId(0)
    else if k == 2 then l.CondStart()
    else if k == 3 then l.SwitchId(0)
    else if k == 4 then l.BodyStart()
    else if k == 5 then l.NextId(0)
    else if k == 6 then l.ExitId(0)
    else l.End()
  }

  ghost predicate Sized(gs: seq<seq<Node>>, l: Loop) {
    |gs| == |TAGS| && forall k :: 0 <= k < |TAGS| ==> |gs[k]| == GroupStart(l, k + 1) - GroupStart(l, k)
  }

  // ----- Groups in general -----

  /** The nodes of the first k groups. */
  ghost function Flat(gs: seq<seq<Node>>, k: nat): seq<Node>
    requires k <= |gs|
  {
    if k == 0 then [] else Flat(gs, k - 1) + gs[k - 1]
  }

  ghost function All(gs: seq<seq<Node>>): seq<Node> {
    Flat(gs, |gs|)
  }

  lemma {:induction false} FlatPrefix(gs: seq<seq<Node>>, k: nat, m: nat)
    requires k <= m <= |gs|
    ensures Flat(gs, k) <= Flat(gs, m)
    decreases m
  {
    if k < m {
      FlatPrefix(gs, k, m - 1);
    }
  }

  lemma FlatAt(gs: seq<seq<Node>>, k: nat, i: nat)
    requires k < |gs| && i < |gs[k]|
    ensures |Flat(gs, k)| + i < |All(gs)| && All(gs)[|Flat(gs, k)| + i] == gs[k][i]
  {
    FlatPrefix(gs, k + 1, |gs|);
    assert Flat(gs, k + 1)[|Flat(gs, k)| + i] == gs[k][i];
  }

  /** Every node is in a group. */
  lemma {:induction false} FlatGroup(gs: seq<seq<Node>>, m: nat, at: nat) returns (k: nat, j: nat)
    requires m <= |gs| && at < |Flat(gs, m)|
    ensures k < m && j < |gs[k]| && |Flat(gs, k)| + j == at && Flat(gs, m)[at] == gs[k][j]
  {
    if at < |Flat(gs, m - 1)| {
      k, j := FlatGroup(gs, m - 1, at);
    } else {
      k, j := m - 1, at - |Flat(gs, m - 1)|;
    }
  }

  lemma {:induction false} FlatStart(gs: seq<seq<Node>>, l: Loop, k: nat)
    requires Sized(gs, l) && k <= |TAGS|
    ensures l.base + |Flat(gs, k)| == GroupStart(l, k)
  {
    if k > 0 {
      FlatStart(gs, l, k - 1);
      assert |gs[k - 1]| == GroupStart(l, k) - GroupStart(l, k - 1);
    }
  }

  /** The first k groups have been created. */
  ghost predicate Built(nodes: Slots, before: Slots, gs: seq<seq<Node>>, k: nat) {
    k <= |gs| && nodes == before + Somes(Flat(gs, k))
  }

  lemma BuiltNext(nodes: Slots, before: Slots, gs: seq<seq<Node>>, k: nat)
    requires k < |gs| && Built(nodes, before, gs, k)
    ensures Built(nodes + Somes(gs[k]), before, gs, k + 1)
  {
    assert Somes(Flat(gs, k + 1)) == Somes(Flat(gs, k)) + Somes(gs[k]);
  }

  /** What is left when a group fails is what is left of the whole. */
  lemma StoppedWithin(nodes: Slots, built: Slots, before: Slots, gs: seq<seq<Node>>, k: nat)
    requires k < |gs| && Built(built, before, gs, k) && Stopped(nodes, built, gs[k])
    ensures Stopped(nodes, before, All(gs))
  {
    var j: nat, m: nat :| StoppedAfter(nodes, built, gs[k], j, m);
    FlatPrefix(gs, k + 1, |gs|);
    StoppedInside(nodes, before, Flat(gs, k), gs[k], All(gs), j, m);
  }

  lemma StoppedInside(nodes: Slots, before: Slots, first: seq<Node>, ops: seq<Node>, all: seq<Node>, j: nat, m: nat)
    requires first + ops <= all && StoppedAfter(nodes, before + Somes(first), ops, j, m)
    ensures StoppedAfter(nodes, before, all, |first| + j, m)
  {
    var done := |first| + j;
    assert all[..done] == (first + ops)[..done] == first + ops[..j];
    assert Somes(all[..done]) == Somes(first) + Somes(ops[..j]);
  }

  // ----- The lowered loop -----

  lemma NodeAt(before: Slots, gs: seq<seq<Node>>, l: Loop, k: nat, i: nat)
    requires Sized(gs, l) && |before| == l.base && k < |TAGS| && i < |gs[k]|
    ensures var nodes := before + Somes(All(gs));
            GroupStart(l, k) + i < |nodes| == l.End() && nodes[GroupStart(l, k) + i] == Some(gs[k][i])
  {
    FlatAt(gs, k, i);
    FlatStart(gs, l, k);
    FlatStart(gs, l, |gs|);
  }

  /** The nodes of all groups make up the lowered loop. */
  lemma LoweredIsLowered(before: Slots, l: Loop)
    requires Buildable(l) && SENTINELS <= |before| == l.base
    ensures IsLowered(before + Somes(Lowered(l)), l)
  {
    var nodes := before + Somes(Lowered(l));
    FlatStart(Groups(l), l, |Groups(l)|);
    forall i | 0 <= i < l.N()
      ensures HoldsVariable(nodes, l, i)
    {
      VariableHeld(before, l, i);
    }
    CopiesHeld(before, l);
  }

  /** The k-th group is a copied graph, and its nodes are in their places. */
  lemma CopyHeld(before: Slots, gs: seq<seq<Node>>, l: Loop, k: nat, sub: Sub, order: seq<nat>, dsts: seq<Output>, j: nat)
    requires Sized(gs, l) && |before| == l.base && k < |TAGS|
    requires 0 < |dsts| == |sub.inputs| && ImportOrder(sub.nodes, order) && j < |order|
    requires gs[k] == ImportedNodes(sub.nodes, CopyOptions(sub, dsts, l.name + TAGS[k]), order, GroupStart(l, k))
    ensures |before + Somes(All(gs))| == l.End()
    ensures HoldsImport(before + Somes(All(gs)), sub, order, GroupStart(l, k), dsts, l.name + TAGS[k], j)
  {
    NodeAt(before, gs, l, k, j);
    assert Ready(sub.nodes, order, j);
  }

  lemma CopiesHeld(before: Slots, l: Loop)
    requires Buildable(l) && |before| == l.base
    ensures |before + Somes(Lowered(l))| == l.End()
    ensures forall j :: 0 <= j < |l.condOrder| ==> HoldsCond(before + Somes(Lowered(l)), l, j)
    ensures forall j :: 0 <= j < |l.bodyOrder| ==> HoldsBody(before + Somes(Lowered(l)), l, j)
  {
    var gs := Groups(l);
    FlatStart(gs, l, |gs|);
    forall j | 0 <= j < |l.condOrder|
      ensures HoldsImport(before + Somes(All(gs)), l.cond, l.condOrder, l.CondStart(), l.Merges(), l.name + "/cond/", j)
    {
      CopyHeld(before, gs, l, 2, l.cond, l.condOrder, l.Merges(), j);
    }
    forall j | 0 <= j < |l.bodyOrder|
      ensures HoldsImport(before + Somes(All(gs)), l.body, l.bodyOrder, l.BodyStart(), l.SwitchTrues(), l.name + "/body/", j)
    {
      CopyHeld(before, gs, l, 4, l.body, l.bodyOrder, l.SwitchTrues(), j);
    }
  }

  lemma VariableHeld(before: Slots, l: Loop, i: nat)
    requires Buildable(l) && i < l.N() && |before| == l.base
    ensures |before + Somes(Lowered(l))| == l.End() && HoldsVariable(before + Somes(Lowered(l)), l, i)
  {
    EntryHeld(before, Groups(l), l, i);
    SwitchHeld(before, Groups(l), l, i);
    NextHeld(before, Groups(l), l, i);
  }

  lemma EntryHeld(before: Slots, gs: seq<seq<Node>>, l: Loop, i: nat)
    requires Sized(gs, l) && gs[0] == Enters(l) && gs[1] == MergeOps(l) && i < l.N() && |before| == l.base
    ensures var nodes := before + Somes(All(gs));
            && |nodes| == l.End()
            && nodes[l.EnterId(i)] == Some(EnterNode(l, i)) && nodes[l.MergeId(i)] == Some(MergeNode(l, i))
  {
    NodeAt(before, gs, l, 0, i);
    NodeAt(before, gs, l, 1, i);
  }

  lemma SwitchHeld(before: Slots, gs: seq<seq<Node>>, l: Loop, i: nat)
    requires Sized(gs, l) && Shaped(l) && gs[3] == SwitchOps(l, l.CondOutput()) && gs[6] == ExitOps(l)
    requires i < l.N() && |before| == l.base
    ensures var nodes := before + Somes(All(gs));
            && |nodes| == l.End()
            && nodes[l.SwitchId(i)] == Some(SwitchNode(l, i)) && nodes[l.ExitId(i)] == Some(ExitNode(l, i))
  {
    NodeAt(before, gs, l, 3, i);
    NodeAt(before, gs, l, 6, i);
  }

  lemma NextHeld(before: Slots, gs: seq<seq<Node>>, l: Loop, i: nat)
    requires Sized(gs, l) && Shaped(l) && gs[5] == NextOps(l, BodyOutputs(l)) && i < l.N() && |before| == l.base
    ensures var nodes := before + Somes(All(gs)); |nodes| == l.End() && nodes[l.NextId(i)] == Some(NextNode(l, i))
  {
    NodeAt(before, gs, l, 5, i);
  }

  // ----- Names that are still unused -----

  /** No node name starts with the loop's name and one of the tags from the k-th on. */
  ghost predicate Unused(nodes: Slots, name: string, k: nat) {
    forall j :: k <= j < |TAGS| ==> NoneStartsWith(nodes, name + TAGS[j])
  }

  lemma TagsAllDiffer(i: nat, j: nat)
    requires i < j < |TAGS|
    ensures TagsDiffer(TAGS[i], TAGS[j]) && TagsDiffer(TAGS[j], TAGS[i])
  {
    assert TAGS[i][1] != TAGS[j][1] || TAGS[i][2] != TAGS[j][2];
  }

  lemma StageUnused(nodes: Slots, ops: seq<Node>, name: string, k: nat)
    requires k < |TAGS| && Tagged(ops, name, TAGS[k]) && Unused(nodes, name, k)
    ensures Unused(nodes + Somes(ops), name, k + 1)
  {
    forall j | k + 1 <= j < |TAGS|
      ensures NoneStartsWith(nodes + Somes(ops), name + TAGS[j])
    {
      TagsAllDiffer(k, j);
      OtherTagUnused(nodes, ops, name, TAGS[k], TAGS[j]);
    }
  }

  lemma AllUnused(nodes: Slots, name: string)
    requires NoneStartsWith(nodes, name + "/")
    ensures Unused(nodes, name, 0)
  {
    forall j, id | 0 <= j < |TAGS| && 0 <= id < |nodes| && nodes[id].Some?
      ensures !StartsWith(nodes[id].value.name, name + TAGS[j])
    {
      assert TAGS[j][..1] == "/";
      assert name + "/" <= name + TAGS[j];
    }
  }

  /** The k-th group is named after the k-th tag. */
  lemma GroupTagged(l: Loop, k: nat)
    requires Buildable(l) && k < |TAGS|
    ensures Tagged(Groups(l)[k], l.name, TAGS[k])
    ensures k != 2 && k != 4 ==> Numbered(Groups(l)[k], l.name, TAGS[k])
  {
    if k == 2 {
      CopiesTagged(l.cond, l.condOrder, l.CondStart(), l.Merges(), l.name, TAGS[k]);
    } else if k == 4 {
      CopiesTagged(l.body, l.bodyOrder, l.BodyStart(), l.SwitchTrues(), l.name, TAGS[k]);
    } else {
      NumberedTagged(Groups(l)[k], l.name, TAGS[k]);
    }
  }

  lemma CopiesTagged(sub: Sub, order: seq<nat>, start: nat, dsts: seq<Output>, name: string, tag: string)
    requires 0 < |dsts| == |sub.inputs| && ImportOrder(sub.nodes, order)
    ensures Tagged(ImportedNodes(sub.nodes, CopyOptions(sub, dsts, name + tag), order, start), name, tag)
  {
    assert forall j: nat :: j < |order| ==> Ready(sub.nodes, order, j);
  }

  // ----- The steps of TF_FinishWhileHelper -----

  /** The inputs of the nodes of one group are all in the graph. */
  ghost predicate AllRead(nodes: Slots, ops: seq<Node>) {
    forall j :: 0 <= j < |ops| ==> InputsPrecede(nodes, ops[j], |nodes|)
  }

  /** The loop's nodes below `end` have been created. */
  ghost predicate Growing(nodes: Slots, l: Loop, end: nat) {
    |nodes| == end && l.base <= end && forall id :: l.base <= id < end ==> nodes[id].Some?
  }

  lemma BuiltGrowing(nodes: Slots, before: Slots, gs: seq<seq<Node>>, l: Loop, k: nat)
    requires Sized(gs, l) && |before| == l.base && k <= |TAGS| && Built(nodes, before, gs, k)
    ensures Growing(nodes, l, GroupStart(l, k))
  {
    FlatStart(gs, l, k);
    forall id | l.base <= id < |nodes|
      ensures nodes[id].Some?
    {
      assert nodes[id] == Somes(Flat(gs, k))[id - l.base];
    }
  }

  /** Creates the k-th group, one node after the other. */
  method CreateGroup(g: Graph, ops: seq<Node>, ghost before: Slots, ghost gs: seq<seq<Node>>, ghost name: string,
                     ghost k: nat, judge: Judge) returns (ok: bool)
    requires g.Valid() && k < |gs| == |TAGS| && Built(g.nodes, before, gs, k) && ops == gs[k]
    requires AllRead(g.nodes, ops) && Numbered(ops, name, TAGS[k])
    modifies g
    ensures g.Valid() && old(g.nodes) <= g.nodes
    ensures if ok then Built(g.nodes, before, gs, k + 1) else Stopped(g.nodes, before, All(gs))
    ensures Unused(old(g.nodes), name, k) ==> (AcceptsAll(judge) ==> ok) && (ok ==> Unused(g.nodes, name, k + 1))
  {
    ghost var built := g.nodes;
    NumberedTagged(ops, name, TAGS[k]);
    if Unused(built, name, k) {
      UnusedTagIsNew(built, g.nameMap, ops, name, TAGS[k]);
      StageUnused(built, ops, name, k);
    }
    ok := g.AppendOps(ops, judge);
    if ok {
      BuiltNext(built, before, gs, k);
    } else {
      StoppedWithin(g.nodes, built, before, gs, k);
    }
  }

  lemma BuildableKnown(nodes: Slots, order: seq<nat>)
    requires ImportOrder(nodes, order) && Complete(nodes, order)
    ensures AllKnown(nodes)
  {
    forall id | 0 <= id < |nodes| && IsOp(nodes, id)
      ensures Known(nodes, nodes[id].value)
    {
      var j :| 0 <= j < |order| && order[j] == id;
      assert Ready(nodes, order, j);
    }
  }

  lemma OptionsLive(nodes: Slots, sub: Sub, dsts: seq<Output>, prefix: string)
    requires 0 < |dsts| == |sub.inputs| && forall i :: 0 <= i < |dsts| ==> IsLive(nodes, dsts[i].node)
    ensures TargetsLive(nodes, CopyOptions(sub, dsts, prefix))
  {
  }

  /** CopyGraph, for the k-th group. */
  method CopySub(g: Graph, sub: Sub, order: seq<nat>, dsts: seq<Output>, ghost before: Slots,
                 ghost gs: seq<seq<Node>>, name: string, k: nat, judge: Judge)
    returns (ok: bool, outs: seq<Output>)
    requires g.Valid() && k < |gs| == |TAGS| && Built(g.nodes, before, gs, k)
    requires 0 < |dsts| == |sub.inputs| && BuildableSub(sub, |dsts|, |sub.outputs|)
    requires ImportOrder(sub.nodes, order) && Complete(sub.nodes, order)
    requires forall i :: 0 <= i < |dsts| ==> IsLive(g.nodes, dsts[i].node)
    requires gs[k] == ImportedNodes(sub.nodes, CopyOptions(sub, dsts, name + TAGS[k]), order, |g.nodes|)
    modifies g
    ensures g.Valid() && old(g.nodes) <= g.nodes
    ensures if ok then Built(g.nodes, before, gs, k + 1) else Stopped(g.nodes, before, All(gs))
    ensures ok ==> outs == ImportOutputs(CopyOptions(sub, dsts, name + TAGS[k]), order, |old(g.nodes)|, sub.outputs)
    ensures Unused(old(g.nodes), name, k) ==> (AcceptsAll(judge) ==> ok) && (ok ==> Unused(g.nodes, name, k + 1))
  {
    ghost var built := g.nodes;
    BuildableKnown(sub.nodes, order);
    OptionsLive(built, sub, dsts, name + TAGS[k]);
    CopiesTagged(sub, order, |built|, dsts, name, TAGS[k]);
    if Unused(built, name, k) {
      StageUnused(built, gs[k], name, k);
    }
    ok, outs := g.ImportGraph(sub.nodes, CopyOptions(sub, dsts, name + TAGS[k]), order, sub.outputs, judge);
    if ok {
      BuiltNext(built, before, gs, k);
    } else {
      assert gs[k][..0] == [];
      assert StoppedAfter(g.nodes, built, gs[k], 0, |g.nodes| - |built|);
      StoppedWithin(g.nodes, built, before, gs, k);
    }
  }

  /** The outputs that import returns are those that the rest of the loop reads. */
  lemma OutputsMapped(sub: Sub, dsts: seq<Output>, prefix: string, order: seq<nat>, start: nat, i: nat)
    requires 0 < |dsts| == |sub.inputs| && i < |sub.outputs|
    requires forall j :: 0 <= j < |sub.outputs| ==> sub.outputs[j].node in order
    ensures ImportOutputs(CopyOptions(sub, dsts, prefix), order, start, sub.outputs)[i] ==
            MapOutput(sub, Placement(order, start), dsts, sub.outputs[i])
  {
    MappedAreVariables(sub, dsts, prefix, sub.outputs[i]);
  }

  ghost predicate StartsLive(nodes: Slots, l: Loop) {
    |nodes| == l.base && forall i :: 0 <= i < l.N() ==> IsLive(nodes, l.starts[i].node)
  }

  /** Creates the Enter nodes. */
  method CreateEnters(g: Graph, l: Loop, ghost gs: seq<seq<Node>>, judge: Judge) returns (ok: bool)
    requires g.Valid() && StartsLive(g.nodes, l) && |gs| == |TAGS| && gs[0] == Enters(l)
    modifies g
    ensures g.Valid() && old(g.nodes) <= g.nodes
    ensures if ok then Built(g.nodes, old(g.nodes), gs, 1) else Stopped(g.nodes, old(g.nodes), All(gs))
    ensures Unused(old(g.nodes), l.name, 0) ==> (AcceptsAll(judge) ==> ok) && (ok ==> Unused(g.nodes, l.name, 1))
  {
    assert g.nodes + Somes([]) == g.nodes;
    ok := CreateGroup(g, Enters(l), g.nodes, gs, l.name, 0, judge);
  }

  /** Creates the Merge nodes, each with a back edge to a node that does not exist yet. */
  method CreateMerges(g: Graph, l: Loop, ghost before: Slots, ghost gs: seq<seq<Node>>, judge: Judge) returns (ok: bool)
    requires g.Valid() && Growing(g.nodes, l, l.MergeId(0)) && Built(g.nodes, before, gs, 1)
    requires |gs| == |TAGS| && gs[1] == MergeOps(l)
    modifies g
    ensures g.Valid() && old(g.nodes) <= g.nodes
    ensures if ok then Built(g.nodes, before, gs, 2) else Stopped(g.nodes, before, All(gs))
    ensures Unused(old(g.nodes), l.name, 1) ==> (AcceptsAll(judge) ==> ok) && (ok ==> Unused(g.nodes, l.name, 2))
  {
    ok := CreateGroup(g, MergeOps(l), before, gs, l.name, 1, judge);
  }

  /** Creates the Switch nodes. */
  method CreateSwitches(g: Graph, l: Loop, pred: Output, ghost before: Slots, ghost gs: seq<seq<Node>>, judge: Judge)
    returns (ok: bool)
    requires g.Valid() && Growing(g.nodes, l, l.SwitchId(0)) && Built(g.nodes, before, gs, 3)
    requires |gs| == |TAGS| && gs[3] == SwitchOps(l, pred) && l.base <= pred.node < l.SwitchId(0)
    modifies g
    ensures g.Valid() && old(g.nodes) <= g.nodes
    ensures if ok then Built(g.nodes, before, gs, 4) else Stopped(g.nodes, before, All(gs))
    ensures Unused(old(g.nodes), l.name, 3) ==> (AcceptsAll(judge) ==> ok) && (ok ==> Unused(g.nodes, l.name, 4))
  {
    ok := CreateGroup(g, SwitchOps(l, pred), before, gs, l.name, 3, judge);
  }

  /** Creates the NextIteration nodes. */
  method CreateNexts(g: Graph, l: Loop, values: seq<Output>, ghost before: Slots, ghost gs: seq<seq<Node>>, judge: Judge)
    returns (ok: bool)
    requires g.Valid() && Growing(g.nodes, l, l.NextId(0)) && Built(g.nodes, before, gs, 5)
    requires |gs| == |TAGS| && |values| == l.N() && gs[5] == NextOps(l, values)
    requires forall i :: 0 <= i < l.N() ==> l.base <= values[i].node < l.NextId(0)
    modifies g
    ensures g.Valid() && old(g.nodes) <= g.nodes
    ensures if ok then Built(g.nodes, before, gs, 6) else Stopped(g.nodes, before, All(gs))
    ensures Unused(old(g.nodes), l.name, 5) ==> (AcceptsAll(judge) ==> ok) && (ok ==> Unused(g.nodes, l.name, 6))
  {
    ok := CreateGroup(g, NextOps(l, values), before, gs, l.name, 5, judge);
  }

  /** Creates the Exit nodes. */
  method CreateExits(g: Graph, l: Loop, ghost before: Slots, ghost gs: seq<seq<Node>>, judge: Judge) returns (ok: bool)
    requires g.Valid() && Growing(g.nodes, l, l.ExitId(0)) && Built(g.nodes, before, gs, 6)
    requires |gs| == |TAGS| && gs[6] == ExitOps(l)
    modifies g
    ensures g.Valid() && old(g.nodes) <= g.nodes
    ensures if ok then Built(g.nodes, before, gs, |TAGS|) else Stopped(g.nodes, before, All(gs))
    ensures Unused(old(g.nodes), l.name, 6) ==> (AcceptsAll(judge) ==> ok)
  {
    ok := CreateGroup(g, ExitOps(l), before, gs, l.name, 6, judge);
  }

  lemma MappedPlaced(sub: Sub, order: seq<nat>, start: nat, dsts: seq<Output>, out: Output, base: nat)
    requires |dsts| == |sub.inputs| && out.node in order && base <= start
    requires forall i :: 0 <= i < |dsts| ==> base <= dsts[i].node < start
    ensures base <= MapOutput(sub, Placement(order, start), dsts, out).node < start + |order|
  {
  }

  /** Enter and Merge nodes, and the condition. */
  method LowerCondition(g: Graph, l: Loop, ghost gs: seq<seq<Node>>, judge: Judge) returns (ok: bool, pred: Output)
    requires g.Valid() && Buildable(l) && StartsLive(g.nodes, l)
    requires Sized(gs, l) && gs[0] == Enters(l) && gs[1] == MergeOps(l) && gs[2] == CondOps(l)
    modifies g
    ensures g.Valid() && old(g.nodes) <= g.nodes
    ensures if ok then Built(g.nodes, old(g.nodes), gs, 3) else Stopped(g.nodes, old(g.nodes), All(gs))
    ensures ok ==> pred == l.CondOutput()
    ensures Unused(old(g.nodes), l.name, 0) ==> (AcceptsAll(judge) ==> ok) && (ok ==> Unused(g.nodes, l.name, 3))
  {
    pred := Output(0, 0);
    ok := CreateEnters(g, l, gs, judge);
    if !ok { return; }
    BuiltGrowing(g.nodes, old(g.nodes), gs, l, 1);
    ok := CreateMerges(g, l, old(g.nodes), gs, judge);
    if !ok { return; }
    BuiltGrowing(g.nodes, old(g.nodes), gs, l, 2);
    ok, pred := CopyCond(g, l, old(g.nodes), gs, judge);
  }

  /** Copies the condition. */
  method CopyCond(g: Graph, l: Loop, ghost before: Slots, ghost gs: seq<seq<Node>>, judge: Judge)
    returns (ok: bool, pred: Output)
    requires g.Valid() && Buildable(l) && Growing(g.nodes, l, l.CondStart()) && Built(g.nodes, before, gs, 2)
    requires |gs| == |TAGS| && gs[2] == CondOps(l)
    modifies g
    ensures g.Valid() && old(g.nodes) <= g.nodes
    ensures if ok then Built(g.nodes, before, gs, 3) else Stopped(g.nodes, before, All(gs))
    ensures ok ==> pred == l.CondOutput()
    ensures Unused(old(g.nodes), l.name, 2) ==> (AcceptsAll(judge) ==> ok) && (ok ==> Unused(g.nodes, l.name, 3))
  {
    pred := Output(0, 0);
    var outs;
    ok, outs := CopySub(g, l.cond, l.condOrder, l.Merges(), before, gs, l.name, 2, judge);
    if ok {
      OutputsMapped(l.cond, l.Merges(), l.name + TAGS[2], l.condOrder, l.CondStart(), 0);
      pred := outs[0];
    }
  }

  /** Switch nodes and the body. */
  method LowerBody(g: Graph, l: Loop, pred: Output, ghost before: Slots, ghost gs: seq<seq<Node>>, judge: Judge)
    returns (ok: bool, values: seq<Output>)
    requires g.Valid() && Buildable(l) && |before| == l.base && Built(g.nodes, before, gs, 3) && pred == l.CondOutput()
    requires Sized(gs, l) && gs[3] == SwitchOps(l, l.CondOutput()) && gs[4] == BodyOps(l)
    modifies g
    ensures g.Valid() && old(g.nodes) <= g.nodes
    ensures if ok then Built(g.nodes, before, gs, 5) else Stopped(g.nodes, before, All(gs))
    ensures ok ==> values == BodyOutputs(l)
    ensures Unused(old(g.nodes), l.name, 3) ==> (AcceptsAll(judge) ==> ok) && (ok ==> Unused(g.nodes, l.name, 5))
  {
    values := [];
    BuiltGrowing(g.nodes, before, gs, l, 3);
    MappedPlaced(l.cond, l.condOrder, l.CondStart(), l.Merges(), l.cond.outputs[0], l.base);
    ok := CreateSwitches(g, l, pred, before, gs, judge);
    if !ok { return; }
    BuiltGrowing(g.nodes, before, gs, l, 4);
    ok, values := CopyBody(g, l, before, gs, judge);
  }

  /** Copies the body. */
  method CopyBody(g: Graph, l: Loop, ghost before: Slots, ghost gs: seq<seq<Node>>, judge: Judge)
    returns (ok: bool, values: seq<Output>)
    requires g.Valid() && Buildable(l) && Growing(g.nodes, l, l.BodyStart()) && Built(g.nodes, before, gs, 4)
    requires |gs| == |TAGS| && gs[4] == BodyOps(l)
    modifies g
    ensures g.Valid() && old(g.nodes) <= g.nodes
    ensures if ok then Built(g.nodes, before, gs, 5) else Stopped(g.nodes, before, All(gs))
    ensures ok ==> values == BodyOutputs(l)
    ensures Unused(old(g.nodes), l.name, 4) ==> (AcceptsAll(judge) ==> ok) && (ok ==> Unused(g.nodes, l.name, 5))
  {
    ok, values := CopySub(g, l.body, l.bodyOrder, l.SwitchTrues(), before, gs, l.name, 4, judge);
    if ok {
      BodyOutputsReturned(l, values);
    }
  }

  /** NextIteration and Exit nodes. */
  method LowerEnds(g: Graph, l: Loop, values: seq<Output>, ghost before: Slots, ghost gs: seq<seq<Node>>, judge: Judge)
    returns (ok: bool)
    requires g.Valid() && Buildable(l) && |before| == l.base && Built(g.nodes, before, gs, 5) && values == BodyOutputs(l)
    requires Sized(gs, l) && gs[5] == NextOps(l, BodyOutputs(l)) && gs[6] == ExitOps(l)
    modifies g
    ensures g.Valid() && old(g.nodes) <= g.nodes
    ensures if ok then Built(g.nodes, before, gs, |TAGS|) else Stopped(g.nodes, before, All(gs))
    ensures Unused(old(g.nodes), l.name, 5) ==> (AcceptsAll(judge) ==> ok)
  {
    BuiltGrowing(g.nodes, before, gs, l, 5);
    forall i | 0 <= i < l.N()
      ensures l.base <= values[i].node < l.NextId(0)
    {
      MappedPlaced(l.body, l.bodyOrder, l.BodyStart(), l.SwitchTrues(), l.body.outputs[i], l.base);
    }
    ok := CreateNexts(g, l, values, before, gs, judge);
    if !ok { return; }
    BuiltGrowing(g.nodes, before, gs, l, 6);
    ok := CreateExits(g, l, before, gs, judge);
  }

  lemma BodyOutputsReturned(l: Loop, values: seq<Output>)
    requires Buildable(l)
    requires values == ImportOutputs(CopyOptions(l.body, l.SwitchTrues(), l.name + TAGS[4]), l.bodyOrder, l.BodyStart(), l.body.outputs)
    ensures values == BodyOutputs(l)
  {
    forall i | 0 <= i < l.N()
      ensures values[i] == l.BodyOutput(i)
    {
      OutputsMapped(l.body, l.SwitchTrues(), l.name + TAGS[4], l.bodyOrder, l.BodyStart(), i);
    }
  }

  /** The steps from the Enter nodes to the Exit nodes. */
  method Lower(g: Graph, l: Loop, judge: Judge) returns (ok: bool)
    requires g.Valid() && Buildable(l) && StartsLive(g.nodes, l)
    modifies g
    ensures g.Valid() && old(g.nodes) <= g.nodes
    ensures if ok then g.nodes == old(g.nodes) + Somes(Lowered(l)) else Stopped(g.nodes, old(g.nodes), Lowered(l))
    ensures Unused(old(g.nodes), l.name, 0) ==> (AcceptsAll(judge) ==> ok)
  {
    ghost var gs := Groups(l);
    var pred, values;
    ok, pred := LowerCondition(g, l, gs, judge);
    if !ok { return; }
    ok, values := LowerBody(g, l, pred, old(g.nodes), gs, judge);
    if !ok { return; }
    ok := LowerEnds(g, l, values, old(g.nodes), gs, judge);
  }

  /** TF_FinishWhileHelper. On success the parent graph holds the lowered loop after the nodes it had; on failure
      it holds the first nodes of the loop, and some ids after them may be used up. */
  method FinishWhile(g: Graph, p: WhileParams, condOrder: seq<nat>, bodyOrder: seq<nat>, judge: Judge)
    returns (ok: bool, outputs: seq<Output>)
    requires g.Valid()
    requires IsSet(p) ==> Buildable(LoopOf(p, |g.nodes|, condOrder, bodyOrder))
    requires forall i :: 0 <= i < |p.starts| ==> IsLive(g.nodes, p.starts[i].node)
    modifies g
    ensures g.Valid() && old(g.nodes) <= g.nodes
    ensures !IsSet(p) ==> !ok && g.nodes == old(g.nodes) && g.nameMap == old(g.nameMap)
    ensures ok ==> IsLowered(g.nodes, LoopOf(p, |old(g.nodes)|, condOrder, bodyOrder)) && UniqueNames(g.nodes)
    ensures ok ==> |outputs| == |p.starts|
    ensures ok ==> forall i :: 0 <= i < |outputs| ==>
              outputs[i] == Output(LoopOf(p, |old(g.nodes)|, condOrder, bodyOrder).ExitId(i), 0)
    ensures !ok && IsSet(p) ==>
              Stopped(g.nodes, old(g.nodes), Lowered(LoopOf(p, |old(g.nodes)|, condOrder, bodyOrder)))
    ensures IsSet(p) && AcceptsAll(judge) && NoneStartsWith(old(g.nodes), p.name.value + "/") ==> ok
  {
    ok, outputs := false, [];
    if !IsSet(p) { return; }
    var l := LoopOf(p, |g.nodes|, condOrder, bodyOrder);
    if NoneStartsWith(g.nodes, l.name + "/") {
      AllUnused(g.nodes, l.name);
    }
    ok := Lower(g, l, judge);
    if !ok { return; }
    LoweredIsLowered(old(g.nodes), l);
    IndexGivesUniqueNames(g.nodes, g.nameMap);
    outputs := seq(l.N(), (i: nat) => Output(l.ExitId(i), 0));
  }

  /** Plain graphs can be imported in the order of their ids, so the loop can be built. */
  lemma PlainCanBeBuilt(p: WhileParams, base: nat, l: Loop)
    requires IsSet(p) && 0 < |p.starts|
    requires l == LoopOf(p, base, OpIds(p.condNodes, 0, |p.condNodes|), OpIds(p.bodyNodes, 0, |p.bodyNodes|))
    requires BuildableSub(CondSub(p), |p.starts|, 1) && Plain(p.condNodes)
    requires BuildableSub(BodySub(p), |p.starts|, |p.starts|) && Plain(p.bodyNodes)
    requires forall i :: 0 <= i < |p.starts| ==> p.starts[i].node < base
    ensures ValidLoop(l)
  {
    IdsAreTopological(p.condNodes);
    IdsAreTopological(p.bodyNodes);
    TopologicalIsImport(l.cond.nodes, l.condOrder);
    TopologicalIsImport(l.body.nodes, l.bodyOrder);
  }

  // ----- What a failure leaves -----

  /** No op has the name that the back edge of Merge `i` refers to. */
  ghost predicate Dangles(nodes: Slots, l: Loop, i: nat) {
    forall id: nat :: !IsNamed(nodes, id, l.name + "/next" + Decimal(i))
  }

  /** In the lowered loop only NextIteration `i` has that name. */
  lemma NextNamed(l: Loop, i: nat, k: nat, j: nat)
    requires Buildable(l) && i < l.N() && k < |TAGS| && j < |Groups(l)[k]|
    ensures Groups(l)[k][j].name == l.name + "/next" + Decimal(i) <==> k == 5 && j == i
  {
    var ops := Groups(l)[k];
    GroupTagged(l, k);
    if k == 5 {
      NumberedTagged(ops, l.name, TAGS[5]);
      assert |ops| == l.N() && ops[i].name == l.name + TAGS[5] + Decimal(i);
    } else {
      TagsAllDiffer(if k < 5 then k else 5, if k < 5 then 5 else k);
      DifferentTags(l.name, TAGS[k], TAGS[5], ops[j].name);
      assert StartsWith(l.name + "/next" + Decimal(i), l.name + TAGS[5]);
    }
  }

  lemma GroupsApart(l: Loop, k: nat, j: nat, i: nat)
    requires k < |TAGS| && j < GroupStart(l, k + 1) - GroupStart(l, k) && i < l.N()
    ensures GroupStart(l, k) + j == l.NextId(i) <==> k == 5 && j == i
  {
  }

  lemma LoweredNextNamed(l: Loop, i: nat, at: nat)
    requires Buildable(l) && i < l.N() && at < |Lowered(l)|
    ensures Lowered(l)[at].name == l.name + "/next" + Decimal(i) <==> l.base + at == l.NextId(i)
  {
    var k, j := FlatGroup(Groups(l), |TAGS|, at);
    FlatStart(Groups(l), l, k);
    NextNamed(l, i, k, j);
    GroupsApart(l, k, j, i);
  }

  lemma LoweredMerge(l: Loop, i: nat)
    requires Buildable(l) && i < l.N()
    ensures l.base + |Lowered(l)| == l.End() && Lowered(l)[l.MergeId(i) - l.base] == MergeNode(l, i)
  {
    MergeInGroups(Groups(l), l, i);
  }

  lemma MergeInGroups(gs: seq<seq<Node>>, l: Loop, i: nat)
    requires Sized(gs, l) && gs[1] == MergeOps(l) && i < l.N()
    ensures l.base + |All(gs)| == l.End() && All(gs)[l.MergeId(i) - l.base] == MergeNode(l, i)
  {
    FlatStart(gs, l, 1);
    FlatStart(gs, l, |gs|);
    FlatAt(gs, 1, i);
  }

  /** A failure after `done` nodes leaves Merge `i` if and only if it had been created, and its back edge refers to
      nothing if and only if NextIteration `i` had not been, and no older node had the name. */
  lemma FailureLeaves(nodes: Slots, before: Slots, l: Loop, done: nat, used: nat, i: nat)
    requires Buildable(l) && i < l.N() && SENTINELS <= |before| == l.base
    requires StoppedAfter(nodes, before, Lowered(l), done, used)
    ensures IsLive(nodes, l.MergeId(i)) <==> l.MergeId(i) < l.base + done
    ensures IsLive(nodes, l.MergeId(i)) ==> nodes[l.MergeId(i)] == Some(MergeNode(l, i))
    ensures Dangles(nodes, l, i) <==> l.base + done <= l.NextId(i) && Dangles(before, l, i)
  {
    LoweredMerge(l, i);
    StoppedNode(nodes, before, Lowered(l), done, used, l.MergeId(i) - l.base);
    forall at: nat | at < |Lowered(l)|
      ensures Lowered(l)[at].name == l.name + "/next" + Decimal(i) <==> l.base + at == l.NextId(i)
    {
      LoweredNextNamed(l, i, at);
    }
    StoppedNames(nodes, before, Lowered(l), done, used, l.name + "/next" + Decimal(i), l.NextId(i));
  }

  lemma StoppedNode(nodes: Slots, before: Slots, ops: seq<Node>, done: nat, used: nat, at: nat)
    requires StoppedAfter(nodes, before, ops, done, used) && at < |ops|
    ensures IsLive(nodes, |before| + at) <==> at < done
    ensures at < done ==> nodes[|before| + at] == Some(ops[at])
  {
  }

  /** Which nodes have a name after a failure, if one of the ops to be added has it. */
  lemma StoppedNames(nodes: Slots, before: Slots, ops: seq<Node>, done: nat, used: nat, name: string, only: nat)
    requires SENTINELS <= |before| <= only < |before| + |ops| && StoppedAfter(nodes, before, ops, done, used)
    requires forall at: nat :: at < |ops| ==> (ops[at].name == name <==> |before| + at == only)
    ensures (forall id: nat :: !IsNamed(nodes, id, name)) <==>
            |before| + done <= only && forall id: nat :: !IsNamed(before, id, name)
  {
    forall id: nat
      ensures IsNamed(nodes, id, name) <==> IsNamed(before, id, name) || (id == only && id < |before| + done)
    {
      if |before| <= id < |before| + done {
        assert nodes[id] == Some(ops[id - |before|]);
      }
    }
    assert forall id: nat :: IsNamed(before, id, name) ==> IsNamed(nodes, id, name);
    assert only < |before| + done ==> IsNamed(nodes, only, name);
  }

  /** A graph with such a Merge cannot be imported, by a session or into another graph. */
  lemma DanglingUnknown(nodes: Slots, l: Loop, i: nat)
    requires SENTINELS <= l.base && i < l.N() && IsLive(nodes, l.MergeId(i)) && nodes[l.MergeId(i)] == Some(MergeNode(l, i))
    ensures Dangles(nodes, l, i) ==> !AllKnown(nodes)
  {
    assert Source(nodes, MergeNode(l, i).inputs[1]).None? <==> FindOp(nodes, l.name + "/next" + Decimal(i), |nodes|).None?;
    assert IsOp(nodes, l.MergeId(i));
  }
}
