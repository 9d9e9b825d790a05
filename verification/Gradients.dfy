/** The names that TF_AddGradients gives: unique in a scope that is new for each call. */
module Gradients {
  import opened Base
  import opened GraphModel
  import opened GraphBuilder

  /** The names used in a scope, with the last suffix given to each. */
  type Used = map<string, nat>

  /** GetUniqueName: the name itself the first time, and then the name with a count. That such a name is itself in
      use is not looked for. */
  function UniqueName(used: Used, name: string): (string, Used) {
    if name !in used then (name, used[name := 0])
    else (name + "_" + Decimal(used[name] + 1), used[name := used[name] + 1])
  }

  /** The names in a graph, as NewInternalScope collects them. */
  function NamesIn(nodes: Slots): Used {
    map id | 0 <= id < |nodes| && nodes[id].Some? :: nodes[id].value.name := 0
  }

  /** The scope of a call. */
  function GradientScope(nodes: Slots): string {
    UniqueName(NamesIn(nodes), "gradients").0
  }

  /** The names that ops get, in order, from the names they ask for. */
  function OpNames(scope: string, used: Used, asked: seq<string>): (names: seq<string>)
    ensures |names| == |asked|
    decreases |asked|
  {
    if asked == [] then []
    else
      var (name, used') := UniqueName(used, asked[0]);
      [scope + "/" + name] + OpNames(scope, used', asked[1..])
  }

  /** What a call adds: ops with the names that its scope gives them. */
  ghost predicate AddedBy(nodes: Slots, added: Slots, asked: seq<string>) {
    && |added| == |asked|
    && (forall i :: 0 <= i < |added| ==>
          added[i].Some? && added[i].value.name == OpNames(GradientScope(nodes), map[], asked)[i])
  }

  lemma {:induction false} NamesStartWithScope(scope: string, used: Used, asked: seq<string>, i: nat)
    requires i < |asked|
    ensures StartsWith(OpNames(scope, used, asked)[i], scope + "/")
    decreases |asked|
  {
    if i > 0 {
      NamesStartWithScope(scope, UniqueName(used, asked[0]).1, asked[1..], i - 1);
    } else {
      assert scope + "/" + UniqueName(used, asked[0]).0 == (scope + "/") + UniqueName(used, asked[0]).0;
    }
  }

  /** A call adds no node with the bare name of a scope, so that the next call gets the same scope. */
  lemma SameScope(nodes: Slots, added: Slots, asked: seq<string>)
    requires AddedBy(nodes, added, asked) && !NameUsed(nodes, "gradients")
    ensures GradientScope(nodes) == GradientScope(nodes + added) == "gradients"
  {
    assert GradientScope(nodes) == "gradients";
    forall i | 0 <= i < |added|
      ensures added[i].value.name != "gradients"
    {
      NamesStartWithScope("gradients", map[], asked, i);
      assert |added[i].value.name| > |"gradients"|;
    }
    assert !NameUsed(nodes + added, "gradients");
  }

  /** Of two calls that begin by asking for the same name, the second breaks the index: a graph with an agreeing
      index and no node called "gradients" is all it takes. */
  lemma SecondCallBreaksIndex(nodes: Slots, nameMap: map<string, nat>, first: Slots, second: Slots,
                              asked: seq<string>, asked': seq<string>)
    requires IndexAgrees(nodes, nameMap) && SENTINELS <= |nodes| && !NameUsed(nodes, "gradients")
    requires AddedBy(nodes, first, asked) && AddedBy(nodes + first, second, asked')
    requires asked != [] && asked' != [] && asked[0] == asked'[0]
    ensures var index := Indexed(nameMap, nodes + first, |nodes|, |nodes + first|);
            var after := nodes + first + second;
            !IndexAgrees(after, Indexed(index, after, |nodes + first|, |after|))
  {
    SameScope(nodes, first, asked);
    assert first[0].value.name == second[0].value.name == "gradients" + "/" + asked[0];
    var after := nodes + first + second;
    var a, b := |nodes|, |nodes + first|;
    assert after[a] == first[0] && after[b] == second[0];
    assert IsOp(after, a) && IsOp(after, b);
  }

  /** An index that has come to disagree in this way stays so, whatever is added. */
  lemma BrokenForGood(nodes: Slots, more: Slots, index: map<string, nat>)
    requires !UniqueNames(nodes)
    ensures !IndexAgrees(nodes + more, index)
  {
    var a, b :| SENTINELS <= a < b < |nodes| && nodes[a].Some? && nodes[b].Some? && nodes[a].value.name == nodes[b].value.name;
    assert (nodes + more)[a] == nodes[a] && (nodes + more)[b] == nodes[b];
    if IndexAgrees(nodes + more, index) {
      IndexGivesUniqueNames(nodes + more, index);
    }
  }
}
