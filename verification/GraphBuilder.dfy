/** Building a TF_Graph: adding operations, importing a graph, and the index of names. */
module GraphBuilder {
  import opened Base
  import opened GraphModel
  import opened GraphImport

  /** What node construction and shape inference say about a node: both accept it, construction rejects it
      before it gets an id, or shape inference refuses it after it got one. */
  datatype Verdict = Accept | Reject | Refuse

  /** The checks of code outside this model: of each node, and of the back edges made at the end of an import. */
  datatype Judge = Judge(verdict: (Slots, Node) -> Verdict, links: Slots -> bool)

  /** The index maps exactly the names of the live ops to their ids. */
  ghost predicate IndexAgrees(nodes: Slots, nameMap: map<string, nat>) {
    && (forall name :: name in nameMap ==> IsNamed(nodes, nameMap[name], name))
    && (forall id: nat :: IsOp(nodes, id) ==> nodes[id].value.name in nameMap && nameMap[nodes[id].value.name] == id)
  }

  function Nones(count: nat): (s: Slots)
    ensures |s| == count && forall i :: 0 <= i < count ==> s[i] == None
  {
    seq(count, _ => None)
  }

  function Somes(ops: seq<Node>): (s: Slots)
    ensures |s| == |ops| && forall i :: 0 <= i < |ops| ==> s[i] == Some(ops[i])
  {
    seq(|ops|, i requires 0 <= i < |ops| => Some(ops[i]))
  }

  predicate StartsWith(s: string, prefix: string) {
    prefix <= s
  }

  lemma AppendKeeps(nodes: Slots, n: Node, nameMap: map<string, nat>)
    requires WellFormed(nodes) && InputsPrecede(nodes, n, |nodes|)
    requires IndexAgrees(nodes, nameMap) && n.name !in nameMap
    ensures WellFormed(nodes + [Some(n)])
    ensures IndexAgrees(nodes + [Some(n)], nameMap[n.name := |nodes|])
  {
    var after := nodes + [Some(n)];
    forall id | 0 <= id < |after|
      ensures ReadsBackward(after, id)
    {
      assert id < |nodes| ==> ReadsBackward(nodes, id);
    }
    forall id: nat | IsOp(after, id)
      ensures after[id].value.name in nameMap[n.name := |nodes|]
      ensures nameMap[n.name := |nodes|][after[id].value.name] == id
    {
      assert id < |nodes| ==> IsOp(nodes, id);
    }
  }

  lemma AppendNonesKeeps(nodes: Slots, count: nat, nameMap: map<string, nat>)
    requires WellFormed(nodes) && IndexAgrees(nodes, nameMap)
    ensures WellFormed(nodes + Nones(count)) && IndexAgrees(nodes + Nones(count), nameMap)
  {
    var after := nodes + Nones(count);
    forall id | 0 <= id < |after|
      ensures ReadsBackward(after, id)
    {
      assert id < |nodes| ==> ReadsBackward(nodes, id);
    }
    forall id: nat | IsOp(after, id)
      ensures after[id].value.name in nameMap && nameMap[after[id].value.name] == id
    {
      assert IsOp(nodes, id);
    }
  }

  lemma IndexGivesUniqueNames(nodes: Slots, nameMap: map<string, nat>)
    requires IndexAgrees(nodes, nameMap)
    ensures UniqueNames(nodes)
  {
    forall a, b | SENTINELS <= a < b < |nodes| && nodes[a].Some? && nodes[b].Some?
      ensures nodes[a].value.name != nodes[b].value.name
    {
      assert IsOp(nodes, a) && IsOp(nodes, b);
    }
  }

  class Graph {
    var nodes: Slots
    var nameMap: map<string, nat>

    ghost predicate Valid()
      reads this
    {
      WellFormed(nodes) && IndexAgrees(nodes, nameMap)
    }

    /** A new graph holds the source and the sink. */
    constructor ()
      ensures Valid()
      ensures |nodes| == SENTINELS && nameMap == map[]
    {
      nodes := [Some(Node("_SOURCE", Sentinel, [], [])), Some(Node("_SINK", Sentinel, [], []))];
      nameMap := map[];
    }

    /** TF_FinishOperation: a node that is not accepted leaves no live node and no entry in the index, but its id
        is used up if shape inference refused it. */
    method FinishOperation(n: Node, judge: Judge) returns (r: Option<nat>)
      requires Valid() && InputsPrecede(nodes, n, |nodes|)
      modifies this
      ensures Valid()
      ensures r.Some? <==> n.name !in old(nameMap) && judge.verdict(old(nodes), n).Accept?
      ensures r.Some? ==> r.value == |old(nodes)|
      ensures r.Some? ==> nodes == old(nodes) + [Some(n)] && nameMap == old(nameMap)[n.name := r.value]
      ensures r.None? ==> nameMap == old(nameMap)
      ensures r.None? ==>
                nodes == old(nodes) + Nones(if n.name !in nameMap && judge.verdict(old(nodes), n).Refuse? then 1 else 0)
    {
      r := None;
      if n.name in nameMap {
        return;
      }
      var verdict := judge.verdict(nodes, n);
      if verdict.Reject? {
        return;
      }
      AppendKeeps(nodes, n, nameMap);
      AppendNonesKeeps(nodes, 1, nameMap);
      nodes := nodes + [Some(n)];
      var id := |nodes| - 1;
      if verdict.Accept? {
        nameMap := nameMap[n.name := id];
        r := Some(id);
      } else {
        nodes := nodes[id := None];
        assert nodes == old(nodes) + Nones(1);
      }
    }

    /** A loop over TF_FinishOperation that stops at the first failure. */
    method AppendOps(ops: seq<Node>, judge: Judge) returns (ok: bool)
      requires Valid()
      requires forall j :: 0 <= j < |ops| ==> InputsPrecede(nodes, ops[j], |nodes|)
      modifies this
      ensures Valid()
      ensures old(nodes) <= nodes
      ensures ok ==> nodes == old(nodes) + Somes(ops)
      ensures !ok ==> Stopped(nodes, old(nodes), ops)
      ensures AcceptsAll(judge) && DistinctNames(ops) && (forall j :: 0 <= j < |ops| ==> ops[j].name !in old(nameMap)) ==> ok
    {
      ok := true;
      ghost var allNew := DistinctNames(ops) && forall j :: 0 <= j < |ops| ==> ops[j].name !in nameMap;
      for j := 0 to |ops|
        invariant Valid()
        invariant ok && nodes == old(nodes) + Somes(ops[..j])
        invariant allNew ==> forall i :: j <= i < |ops| ==> ops[i].name !in nameMap
      {
        LaterInputsPrecede(old(nodes), nodes, ops[j]);
        var r := FinishOperation(ops[j], judge);
        if r.None? {
          ok := false;
          StoppedAt(old(nodes), nodes, ops, j);
          return;
        }
        assert Somes(ops[..j + 1]) == Somes(ops[..j]) + [Some(ops[j])];
      }
      assert ops[..|ops|] == ops;
    }

    /** GraphImportGraphDefLocked, for any graph definition, options and order in which its nodes can be taken. When
        a check fails, the nodes imported so far are removed. */
    method ImportGraph(defs: Slots, o: ImportOptions, order: seq<nat>, requested: seq<Output>, judge: Judge)
      returns (ok: bool, outs: seq<Output>)
      requires Valid()
      requires AllKnown(defs) ==> ImportOrder(defs, order)
      modifies this
      ensures Valid()
      ensures ok ==> CanImport(old(nodes), defs, o, order, requested)
      ensures ok ==> nodes == old(nodes) + Somes(ImportedNodes(defs, o, order, |old(nodes)|))
      ensures ok ==> outs == ImportOutputs(o, order, |old(nodes)|, requested)
      ensures !ok ==> nameMap == old(nameMap)
      ensures !ok ==> |old(nodes)| <= |nodes| && nodes == old(nodes) + Nones(|nodes| - |old(nodes)|)
      ensures AcceptsAll(judge) && CanImport(old(nodes), defs, o, order, requested) ==> ok
    {
      ok, outs := false, [];
      if Collides(nodes, defs, o.prefix) || !TargetsLive(nodes, o) || !UniqueNames(defs) || !AllKnown(defs) {
        return;
      }
      var start := |nodes|;
      ghost var index;
      ok, index := Convert(defs, o, order, judge);
      if !ok || !Complete(defs, order) || !judge.links(nodes) || !AllFound(defs, o, requested) {
        ok := false;
        Undo(start, old(nodes));
        return;
      }
      assert nodes[..start] == old(nodes);
      AddToIndex(start);
      IndexedIsIndex(nodes, old(nameMap), index, start, |nodes|);
      outs := ImportOutputs(o, order, start, requested);
    }

    /** The loop of import that makes the nodes. The index that will agree with them is made later. */
    method Convert(defs: Slots, o: ImportOptions, order: seq<nat>, judge: Judge) returns (ok: bool, ghost index: map<string, nat>)
      requires Valid() && TargetsLive(nodes, o) && UniqueNames(defs) && !Collides(nodes, defs, o.prefix)
      requires ImportOrder(defs, order)
      modifies this`nodes
      ensures old(nodes) <= nodes
      ensures ok ==> nodes == old(nodes) + Somes(ImportedNodes(defs, o, order, |old(nodes)|))
      ensures ok ==> WellFormed(nodes) && IndexAgrees(nodes, index)
      ensures AcceptsAll(judge) ==> ok
    {
      ok := false;
      var start := |nodes|;
      ghost var copies := ImportedNodes(defs, o, order, start);
      index := nameMap;
      ImportedFresh(defs, o, order, start, nodes, nameMap);
      for j := 0 to |order|
        invariant Converted(old(nodes), nodes, index, copies, j)
      {
        assert Ready(defs, order, j);
        ReadyAt(defs, order, start, j);
        var c := Imported(defs, o, Placement(order[..j], start), defs[order[j]].value);
        var verdict := judge.verdict(nodes, c);
        if verdict.Reject? {
          return;
        }
        ImportedPrecedes(defs, o, order, old(nodes), nodes, j);
        ConvertedNext(old(nodes), nodes, index, copies, j);
        index := index[c.name := |nodes|];
        nodes := nodes + [Some(c)];
        if verdict.Refuse? {
          return;
        }
      }
      assert copies[..|order|] == copies;
      ok := true;
    }

    /** Removes the nodes from `start` on; their ids stay used. */
    method Undo(start: nat, ghost before: Slots)
      requires start == |before| && before <= nodes && WellFormed(before) && IndexAgrees(before, nameMap)
      modifies this`nodes
      ensures Valid() && nodes == before + Nones(|old(nodes)| - start)
    {
      for id := start to |nodes|
        invariant |nodes| == |old(nodes)| && nodes[id..] == old(nodes[id..])
        invariant nodes[..id] == before + Nones(id - start)
      {
        if nodes[id].Some? {
          nodes := nodes[id := None];
        }
        assert Nones(id + 1 - start) == Nones(id - start) + [None];
        assert nodes[..id + 1] == nodes[..id] + [nodes[id]];
      }
      assert nodes == nodes[..|nodes|];
      AppendNonesKeeps(before, |nodes| - start, nameMap);
    }

    /** The loop, in import and in TF_AddGradients, that records the nodes from `start` on in the index. */
    method AddToIndex(start: nat)
      requires start <= |nodes|
      modifies this`nameMap
      ensures nameMap == Indexed(old(nameMap), nodes, start, |nodes|)
    {
      for i := start to |nodes|
        invariant nameMap == Indexed(old(nameMap), nodes, start, i)
      {
        if nodes[i].Some? {
          nameMap := nameMap[nodes[i].value.name := i];
        }
      }
    }

    /** TF_AddGradients, where `added` is what the gradient builder leaves in the graph, successful or not. */
    method AddGradients(added: Slots)
      requires WellFormed(nodes + added)
      modifies this
      ensures nodes == old(nodes) + added
      ensures nameMap == Indexed(old(nameMap), nodes, |old(nodes)|, |nodes|)
      ensures old(Valid()) ==> (Valid() <==> NewNames(added, old(nameMap)))
    {
      var start := |nodes|;
      nodes := nodes + added;
      AddToIndex(start);
      if old(Valid()) {
        IndexedAgreesIff(old(nodes), added, old(nameMap));
      }
    }

    /** TF_GraphNextOperation: the first op after `pos`, skipping the sentinels and removed nodes. */
    method NextOperation(pos: nat) returns (next: nat, r: Option<nat>)
      requires Valid()
      ensures pos < next
      ensures r.Some? ==> r.value == next && IsOp(nodes, next)
      ensures forall id: nat :: pos < id && (r.None? || id < next) ==> !IsOp(nodes, id)
    {
      next := if pos == 0 then 2 else pos + 1;
      while next < |nodes|
        invariant pos < next && SENTINELS <= next
        invariant forall id: nat :: pos < id < next ==> !IsOp(nodes, id)
      {
        if nodes[next].Some? {
          r := Some(next);
          return;
        }
        next := next + 1;
      }
      r := None;
    }

    /** The loop in the documentation of TF_GraphNextOperation visits every op once, in the order of ids. */
    method AllOperations() returns (ids: seq<nat>)
      requires Valid()
      ensures forall id: nat :: id in ids <==> IsOp(nodes, id)
      ensures forall i, j :: 0 <= i < j < |ids| ==> ids[i] < ids[j]
      ensures forall id :: id in ids <==> id in nameMap.Values
    {
      ids := [];
      var pos := 0;
      var next, r := NextOperation(pos);
      while r.Some?
        invariant pos < |nodes| && pos < next
        invariant r.Some? ==> r.value == next && IsOp(nodes, next)
        invariant forall id: nat :: pos < id && (r.None? || id < next) ==> !IsOp(nodes, id)
        invariant forall id: nat :: id in ids <==> IsOp(nodes, id) && id <= pos
        invariant forall i, j :: 0 <= i < j < |ids| ==> ids[i] < ids[j]
        decreases |nodes| - pos
      {
        assert forall i :: 0 <= i < |ids| ==> ids[i] in ids;
        ids := ids + [r.value];
        pos := next;
        next, r := NextOperation(pos);
      }
      IndexedAreOps(nodes, nameMap);
    }
  }

  lemma IndexedAreOps(nodes: Slots, nameMap: map<string, nat>)
    requires IndexAgrees(nodes, nameMap)
    ensures forall id: nat :: id in nameMap.Values <==> IsOp(nodes, id)
  {
    forall id: nat | IsOp(nodes, id)
      ensures id in nameMap.Values
    {
      assert nodes[id].value.name in nameMap.Keys;
    }
  }

  ghost predicate DistinctNames(ops: seq<Node>) {
    forall i, j :: 0 <= i < j < |ops| ==> ops[i].name != ops[j].name
  }

  ghost predicate AcceptsAll(judge: Judge) {
    (forall nodes, n :: judge.verdict(nodes, n).Accept?) && (forall nodes :: judge.links(nodes))
  }

  lemma LaterInputsPrecede(before: Slots, after: Slots, n: Node)
    requires before <= after && InputsPrecede(before, n, |before|)
    ensures InputsPrecede(after, n, |after|)
  {}

  // ----- What was done before a failure -----

  /** Of the ops to be added the first ones were, and some ids after them are used up. */
  ghost predicate Stopped(nodes: Slots, before: Slots, ops: seq<Node>) {
    exists j: nat, k: nat :: StoppedAfter(nodes, before, ops, j, k)
  }

  ghost predicate StoppedAfter(nodes: Slots, before: Slots, ops: seq<Node>, j: nat, k: nat) {
    j <= |ops| && nodes == before + Somes(ops[..j]) + Nones(k)
  }

  lemma StoppedAt(before: Slots, nodes: Slots, ops: seq<Node>, j: nat)
    requires j <= |ops|
    requires nodes == before + Somes(ops[..j]) + Nones(0) || nodes == before + Somes(ops[..j]) + Nones(1)
    ensures Stopped(nodes, before, ops)
  {
    assert StoppedAfter(nodes, before, ops, j, 0) || StoppedAfter(nodes, before, ops, j, 1);
  }

  // ----- The loop that records names -----

  function Indexed(nameMap: map<string, nat>, nodes: Slots, lo: nat, hi: nat): map<string, nat>
    requires lo <= hi <= |nodes|
    decreases hi - lo
  {
    if lo == hi then nameMap
    else
      var before := Indexed(nameMap, nodes, lo, hi - 1);
      if nodes[hi - 1].Some? then before[nodes[hi - 1].value.name := hi - 1] else before
  }

  /** The live nodes have names that are not in the index, and differ from each other. */
  ghost predicate NewNames(added: Slots, nameMap: map<string, nat>) {
    && (forall i :: 0 <= i < |added| && added[i].Some? ==> added[i].value.name !in nameMap)
    && (forall i, j :: 0 <= i < j < |added| && added[i].Some? && added[j].Some? ==>
          added[i].value.name != added[j].value.name)
  }

  /** Every entry is that of a live node in the range, or an old one. */
  lemma {:induction false} IndexedEntries(nameMap: map<string, nat>, nodes: Slots, lo: nat, hi: nat)
    requires lo <= hi <= |nodes|
    ensures forall name :: name in Indexed(nameMap, nodes, lo, hi) ==>
              var id := Indexed(nameMap, nodes, lo, hi)[name];
              || (name in nameMap && nameMap[name] == id)
              || (lo <= id < hi && nodes[id].Some? && nodes[id].value.name == name)
    ensures forall name :: name in nameMap ==> name in Indexed(nameMap, nodes, lo, hi)
    decreases hi - lo
  {
    if lo < hi {
      IndexedEntries(nameMap, nodes, lo, hi - 1);
    }
  }

  /** With new names, no entry is lost. */
  lemma {:induction false} IndexedKeeps(nodes: Slots, added: Slots, nameMap: map<string, nat>, hi: nat)
    requires NewNames(added, nameMap) && hi <= |added|
    ensures var index := Indexed(nameMap, nodes + added, |nodes|, |nodes| + hi);
            && (forall name :: name in nameMap ==> name in index && index[name] == nameMap[name])
            && (forall i :: 0 <= i < hi && added[i].Some? ==>
                  added[i].value.name in index && index[added[i].value.name] == |nodes| + i)
    decreases hi
  {
    if 0 < hi {
      IndexedKeeps(nodes, added, nameMap, hi - 1);
    }
  }

  /** The index agrees after nodes were added if and only if their names are new. */
  lemma IndexedAgreesIff(nodes: Slots, added: Slots, nameMap: map<string, nat>)
    requires IndexAgrees(nodes, nameMap) && SENTINELS <= |nodes|
    ensures IndexAgrees(nodes + added, Indexed(nameMap, nodes + added, |nodes|, |nodes + added|)) <==> NewNames(added, nameMap)
  {
    var after := nodes + added;
    var index := Indexed(nameMap, after, |nodes|, |after|);
    IndexedEntries(nameMap, after, |nodes|, |after|);
    if NewNames(added, nameMap) {
      IndexedKeeps(nodes, added, nameMap, |added|);
      forall name | name in index
        ensures IsNamed(after, index[name], name)
      {
        assert name in nameMap ==> IsNamed(nodes, nameMap[name], name);
      }
      forall id: nat | IsOp(after, id)
        ensures after[id].value.name in index && index[after[id].value.name] == id
      {
        if id < |nodes| {
          assert IsOp(nodes, id);
        } else {
          assert added[id - |nodes|].Some?;
        }
      }
    } else if IndexAgrees(after, index) {
      OldNamesKept(nodes, added, nameMap, index);
    }
  }

  lemma OldNamesKept(nodes: Slots, added: Slots, nameMap: map<string, nat>, index: map<string, nat>)
    requires IndexAgrees(nodes, nameMap) && SENTINELS <= |nodes| && IndexAgrees(nodes + added, index)
    ensures NewNames(added, nameMap)
  {
    forall i | 0 <= i < |added| && added[i].Some?
      ensures added[i].value.name !in nameMap
      ensures IsOp(nodes + added, |nodes| + i)
    {
      assert IsOp(nodes + added, |nodes| + i);
      if added[i].value.name in nameMap {
        assert IsNamed(nodes, nameMap[added[i].value.name], added[i].value.name);
        assert IsOp(nodes + added, nameMap[added[i].value.name]);
      }
    }
  }

  /** The index that import builds up is the one that the loop makes. */
  lemma IndexedIsIndex(nodes: Slots, nameMap: map<string, nat>, index: map<string, nat>, lo: nat, hi: nat)
    requires SENTINELS <= lo <= hi == |nodes|
    requires IndexAgrees(nodes[..lo], nameMap) && IndexAgrees(nodes, index)
    ensures IndexAgrees(nodes, Indexed(nameMap, nodes, lo, hi))
  {
    assert nodes == nodes[..lo] + nodes[lo..];
    OldNamesKept(nodes[..lo], nodes[lo..], nameMap, index);
    IndexedAgreesIff(nodes[..lo], nodes[lo..], nameMap);
  }

  // ----- Import -----

  predicate NoneStartsWith(nodes: Slots, prefix: string) {
    forall id :: 0 <= id < |nodes| && nodes[id].Some? ==> !StartsWith(nodes[id].value.name, prefix)
  }

  predicate NameUsed(nodes: Slots, name: string) {
    exists id :: 0 <= id < |nodes| && nodes[id].Some? && nodes[id].value.name == name
  }

  /** Without a prefix, some name is in the graph already; with one, some name in the graph starts with it. */
  predicate Collides(nodes: Slots, defs: Slots, prefix: string) {
    if prefix == "" then exists id :: 0 <= id < |defs| && IsOp(defs, id) && NameUsed(nodes, defs[id].value.name)
    else !NoneStartsWith(nodes, prefix)
  }

  predicate AllFound(defs: Slots, o: ImportOptions, requested: seq<Output>) {
    forall i :: 0 <= i < |requested| ==> requested[i] in o.inputMap || IsOp(defs, requested[i].node)
  }

  /** What import checks itself. */
  ghost predicate CanImport(nodes: Slots, defs: Slots, o: ImportOptions, order: seq<nat>, requested: seq<Output>) {
    && !Collides(nodes, defs, o.prefix) && TargetsLive(nodes, o)
    && UniqueNames(defs) && AllKnown(defs) && ImportOrder(defs, order) && Complete(defs, order)
    && AllFound(defs, o, requested)
  }

  function ImportOutputs(o: ImportOptions, order: seq<nat>, start: nat, requested: seq<Output>): (outs: seq<Output>)
    requires forall i :: 0 <= i < |requested| ==> requested[i] in o.inputMap || requested[i].node in order
    ensures |outs| == |requested|
  {
    seq(|requested|, i requires 0 <= i < |requested| => ImportOutput(o, Placement(order, start), requested[i]))
  }

  lemma PrefixInjective(prefix: string, a: string, b: string)
    requires prefix + a == prefix + b
    ensures a == b
  {
    assert (prefix + a)[|prefix|..] == a;
    assert (prefix + b)[|prefix|..] == b;
  }

  /** The first j copies have been made, and `index` has them; the names of the others are still new. */
  ghost predicate Converted(before: Slots, nodes: Slots, index: map<string, nat>, copies: seq<Node>, j: nat) {
    && j <= |copies| && DistinctNames(copies)
    && nodes == before + Somes(copies[..j])
    && WellFormed(nodes) && IndexAgrees(nodes, index)
    && (forall i :: j <= i < |copies| ==> copies[i].name !in index)
  }

  lemma ConvertedNext(before: Slots, nodes: Slots, index: map<string, nat>, copies: seq<Node>, j: nat)
    requires Converted(before, nodes, index, copies, j) && j < |copies| && InputsPrecede(nodes, copies[j], |nodes|)
    ensures Converted(before, nodes + [Some(copies[j])], index[copies[j].name := |nodes|], copies, j + 1)
  {
    AppendKeeps(nodes, copies[j], index);
    assert Somes(copies[..j + 1]) == Somes(copies[..j]) + [Some(copies[j])];
  }

  /** The names of the copies are new and distinct. */
  lemma ImportedFresh(defs: Slots, o: ImportOptions, order: seq<nat>, start: nat, nodes: Slots, nameMap: map<string, nat>)
    requires ImportOrder(defs, order) && UniqueNames(defs) && !Collides(nodes, defs, o.prefix) && IndexAgrees(nodes, nameMap)
    ensures DistinctNames(ImportedNodes(defs, o, order, start))
    ensures forall j :: 0 <= j < |order| ==> ImportedNodes(defs, o, order, start)[j].name !in nameMap
  {
    var copies := ImportedNodes(defs, o, order, start);
    forall j | 0 <= j < |order|
      ensures IsOp(defs, order[j]) && copies[j].name == o.prefix + defs[order[j]].value.name
      ensures copies[j].name !in nameMap
    {
      assert Ready(defs, order, j);
      var name := defs[order[j]].value.name;
      if o.prefix == "" {
        assert o.prefix + name == name;
        assert name in nameMap ==> IsNamed(nodes, nameMap[name], name) && NameUsed(nodes, name);
      } else {
        assert StartsWith(o.prefix + name, o.prefix);
      }
    }
    forall i, j | 0 <= i < j < |order|
      ensures copies[i].name != copies[j].name
    {
      if copies[i].name == copies[j].name {
        PrefixInjective(o.prefix, defs[order[i]].value.name, defs[order[j]].value.name);
      }
    }
  }
}
