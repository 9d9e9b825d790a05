/** TF_FinishWhile as a whole: what it builds computes the loop it was given. */
module WhileFinish {
  import opened Base
  import opened GraphModel
  import opened GraphImport
  import opened GraphBuilder
  import opened WhileGraph
  import opened WhileLowering
  import opened WhileStops
  import opened WhileTheorem
  import opened Dataflow

  /** The outputs are the Exit nodes through which the loop variables leave the loop. */
  ghost predicate AreExits(outputs: seq<Output>, l: Loop) {
    |outputs| == l.N() && forall i :: 0 <= i < l.N() ==> outputs[i] == Output(l.ExitId(i), 0)
  }

  /** If TF_FinishWhile succeeds, then for a loop without control flow inside: whenever the source loop stops, its
      outputs yield the values of the loop variables, once each, if and only if the loop is lowerable. */
  method BuildWhile(g: Graph, p: WhileParams, condOrder: seq<nat>, bodyOrder: seq<nat>, judge: Judge,
                    ghost code: Term -> Tensor) returns (ok: bool, outputs: seq<Output>)
    requires g.Valid()
    requires IsSet(p) ==> Buildable(LoopOf(p, |g.nodes|, condOrder, bodyOrder))
    requires forall i :: 0 <= i < |p.starts| ==> IsLive(g.nodes, p.starts[i].node)
    modifies g
    ensures g.Valid() && old(g.nodes) <= g.nodes
    ensures ok ==> IsSet(p) && AreExits(outputs, LoopOf(p, |old(g.nodes)|, condOrder, bodyOrder))
    ensures ok ==>
              var l := LoopOf(p, |old(g.nodes)|, condOrder, bodyOrder);
              ValidLoop(l) && Telling(l, code) ==> (Computes(g.nodes, l) <==> Lowerable(l))
    ensures IsSet(p) && AcceptsAll(judge) && NoneStartsWith(old(g.nodes), p.name.value + "/") ==> ok
  {
    ok, outputs := FinishWhile(g, p, condOrder, bodyOrder, judge);
    if ok {
      ghost var l := LoopOf(p, |old(g.nodes)|, condOrder, bodyOrder);
      if ValidLoop(l) && Telling(l, code) {
        LoweringCorrectIff(g.nodes, l, code);
      }
    }
  }
}
