/** Runs: nodes execute one at a time, in any order the arrived tokens allow. */
module DataflowRuns {
  import opened Base
  import opened GraphModel
  import opened Dataflow

  /** The executions performed so far. */
  type Progress = map<(nat, Tag), Firing>

  ghost function Partial(m: Machine, s: Progress): (p: Machine)
    ensures SameGraph(m, p)
  {
    m.(fires := (id: nat, tag) => if (id, tag) in s then s[(id, tag)] else NotFired)
  }

  /** Some node that has not executed at some tag, and can, executes there. */
  ghost predicate Step(m: Machine, s: Progress, s': Progress, id: nat, tag: Tag) {
    && (id, tag) !in s
    && !Outcome(Partial(m, s), id, tag).NotFired?
    && s' == s[(id, tag) := Outcome(Partial(m, s), id, tag)]
  }

  ghost predicate Moves(m: Machine, s: Progress, s': Progress) {
    exists id: nat, tag :: Step(m, s, s', id, tag)
  }

  ghost predicate IsRun(m: Machine, run: seq<Progress>) {
    && 0 < |run|
    && run[0] == map[]
    && (forall k :: 0 <= k < |run| - 1 ==> Moves(m, run[k], run[k + 1]))
  }

  /** Nothing is left to execute. */
  ghost predicate Finished(m: Machine, s: Progress) {
    forall id: nat, tag :: (id, tag) in s || Outcome(Partial(m, s), id, tag).NotFired?
  }

  /** No Merge ever has two live inputs at one tag. */
  ghost predicate RaceFree(m: Machine) {
    forall id: nat, tag :: m.base <= id && IsLive(m.nodes, id) && m.nodes[id].value.op.Merge? ==> OneLive(m, id, tag)
  }

  ghost predicate OneLive(m: Machine, id: nat, tag: Tag)
    requires IsLive(m.nodes, id)
  {
    var n := m.nodes[id].value;
    forall i, j :: 0 <= i < j < |n.inputs| ==>
      !(InToken(m, n.inputs[i], id, tag).Live? && InToken(m, n.inputs[j], id, tag).Live?)
  }

  /** The executions in `s` are executions of `m`. */
  ghost predicate Agrees(m: Machine, s: Progress) {
    forall id: nat, tag :: (id, tag) in s ==> s[(id, tag)] == m.fires(id, tag) && !s[(id, tag)].NotFired?
  }

  lemma ArrivedAgrees(m: Machine, s: Progress, n: Node, id: nat, tag: Tag)
    requires Agrees(m, s)
    ensures forall i :: 0 <= i < |n.inputs| ==>
              || InToken(Partial(m, s), n.inputs[i], id, tag).Absent?
              || InToken(Partial(m, s), n.inputs[i], id, tag) == InToken(m, n.inputs[i], id, tag)
    ensures forall i :: 0 <= i < |n.controls| ==>
              || InControl(Partial(m, s), n.controls[i], id, tag).NotFired?
              || InControl(Partial(m, s), n.controls[i], id, tag) == InControl(m, n.controls[i], id, tag)
  {}

  /** A node that executes early does what it does in the complete execution. */
  lemma EarlyOutcome(m: Machine, s: Progress, id: nat, tag: Tag)
    requires Consistent(m) && RaceFree(m) && Agrees(m, s)
    requires !Outcome(Partial(m, s), id, tag).NotFired?
    ensures Outcome(Partial(m, s), id, tag) == m.fires(id, tag)
  {
    assert Lawful(m, id, tag);
    var p, n := Partial(m, s), m.nodes[id].value;
    ArrivedAgrees(m, s, n, id, tag);
    var early, late := DataTokens(p, n, id, tag), DataTokens(m, n, id, tag);
    var earlyCtrl, lateCtrl := ControlFirings(p, n, id, tag), ControlFirings(m, n, id, tag);
    if n.op.Merge? {
      assert OneLive(m, id, tag);
      MergeAgrees(early, late, earlyCtrl, lateCtrl, tag);
    } else if |early| + |earlyCtrl| != 0 {
      assert AllArrived(early, earlyCtrl);
      assert early == late && earlyCtrl == lateCtrl;
    }
  }

  lemma MergeAgrees(early: seq<Token>, late: seq<Token>, earlyCtrl: seq<Firing>, lateCtrl: seq<Firing>, tag: Tag)
    requires |early| == |late| && |earlyCtrl| == |lateCtrl|
    requires forall i :: 0 <= i < |early| ==> early[i].Absent? || early[i] == late[i]
    requires forall i :: 0 <= i < |earlyCtrl| ==> earlyCtrl[i].NotFired? || earlyCtrl[i] == lateCtrl[i]
    requires forall i, j :: 0 <= i < j < |late| ==> !(late[i].Live? && late[j].Live?)
    requires !Fire(Merge, early, earlyCtrl, tag).NotFired?
    ensures Fire(Merge, early, earlyCtrl, tag) == Fire(Merge, late, lateCtrl, tag)
  {
    if i :| 0 <= i < |early| && early[i].Live? {
      assert late[i].Live?;
    }
  }

  lemma {:induction false} RunAgrees(m: Machine, run: seq<Progress>)
    requires Consistent(m) && RaceFree(m) && IsRun(m, run)
    ensures Agrees(m, run[|run| - 1])
  {
    if |run| > 1 {
      var before := run[..|run| - 1];
      RunAgrees(m, before);
      var s, s' := run[|run| - 2], run[|run| - 1];
      assert Moves(m, s, s');
      var id: nat, tag :| Step(m, s, s', id, tag);
      EarlyOutcome(m, s, id, tag);
    }
  }

  /** A finished run has performed the complete execution. */
  lemma {:induction false} FinishedComplete(m: Machine, s: Progress, id: nat, tag: Tag)
    requires Consistent(m) && Agrees(m, s) && Finished(m, s)
    ensures Partial(m, s).fires(id, tag) == m.fires(id, tag)
    decreases Rank(tag), id
  {
    forall i, at | Before(i, at, id, tag)
      ensures Partial(m, s).fires(i, at) == m.fires(i, at)
    {
      FinishedComplete(m, s, i, at);
    }
    OutcomeDependsOnEarlier(Partial(m, s), m, id, tag);
    assert Lawful(m, id, tag);
  }

  // ----- Counting -----

  lemma {:induction false} RunLength(m: Machine, run: seq<Progress>)
    requires IsRun(m, run)
    ensures |run[|run| - 1]| == |run| - 1
  {
    if |run| > 1 {
      RunLength(m, run[..|run| - 1]);
      var s, s' := run[|run| - 2], run[|run| - 1];
      assert Moves(m, s, s');
      var id: nat, tag :| Step(m, s, s', id, tag);
      assert s'.Keys == s.Keys + {(id, tag)};
    }
  }

  /** At most `nodes * ranks` executions have a node below `nodes` and a tag of rank below `ranks`. */
  lemma {:induction false} CountKeys(keys: set<(nat, Tag)>, nodes: nat, ranks: nat)
    requires forall k :: k in keys ==> k.0 < nodes && Rank(k.1) < ranks
    ensures |keys| <= nodes * ranks
    decreases ranks
  {
    if ranks > 0 {
      var top := set k | k in keys && Rank(k.1) == ranks - 1;
      CountKeys(keys - top, nodes, ranks - 1);
      CountTop(top, nodes, ranks - 1);
      assert |keys| == |keys - top| + |top|;
      assert nodes * ranks == nodes * (ranks - 1) + nodes;
    }
  }

  lemma {:induction false} CountTop(top: set<(nat, Tag)>, nodes: nat, rank: nat)
    requires forall k :: k in top ==> k.0 < nodes && Rank(k.1) == rank
    ensures |top| <= nodes
    decreases nodes
  {
    if nodes > 0 {
      var last := if rank == 0 then Root else Iter(rank - 1);
      CountTop(top - {(nodes - 1, last)}, nodes - 1, rank);
    } else {
      assert top == {};
    }
  }
}
