/** Small loops, of which lowering gets some wrong. */
module WhileExamples {
  import opened Base
  import opened GraphModel
  import opened Dataflow
  import opened GraphImport
  import opened WhileGraph
  import opened WhileMeaning
  import opened WhileStops
  import opened WhileCorrect
  import opened WhileTheorem

  /** A graph that holds the placeholder "x" and one op. */
  ghost function OneOp(n: Node): Sub {
    Sub([Some(Node("_SOURCE", Sentinel, [], [])), Some(Node("_SINK", Sentinel, [], [])),
         Some(Node("x", Placeholder, [], [])), Some(n)], [2], [Output(3, 0)])
  }

  /** An op that reads nothing or the placeholder, and that may wait for it. */
  ghost predicate Simple(n: Node) {
    && n.name != "x" && n.op.Compute?
    && (n.inputs == [] || n.inputs == [Edge(Output(2, 0))])
    && (n.controls == [] || n.controls == [2])
  }

  lemma OneOpValid(n: Node)
    requires Simple(n)
    ensures BuildableSub(OneOp(n), 1, 1) && Plain(OneOp(n).nodes)
  {
    var nodes := OneOp(n).nodes;
    forall id | 0 <= id < |nodes|
      ensures ReadsBackward(nodes, id)
    {
      assert id == 0 || id == 1 || id == 2 || id == 3;
    }
  }

  lemma OneOpOrder(n: Node)
    requires Simple(n)
    ensures TopologicalOrder(OneOp(n).nodes, [2, 3])
    ensures ImportOrder(OneOp(n).nodes, [2, 3]) && Complete(OneOp(n).nodes, [2, 3])
  {
    var order: seq<nat> := [2, 3];
    assert order[..0] == [] && order[..1] == [2];
    assert ReadsEarlier(OneOp(n).nodes, order, 0) && ReadsEarlier(OneOp(n).nodes, order, 1);
    TopologicalIsImport(OneOp(n).nodes, order);
  }

  lemma OneOpFeeds(n: Node)
    requires Simple(n)
    ensures Feeds(OneOp(n), Output(3, 0)) <==> n.controls == []
  {
    var sub := OneOp(n);
    assert sub.nodes[3].value == n && !IsVariable(sub, Output(3, 0));
    assert !Runs(sub, 2);
    assert Feeds(sub, Output(2, 0));
    if n.controls == [2] {
      assert n.controls[0] == 2;
    }
  }

  lemma OneOpNeeds(n: Node)
    requires Simple(n)
    ensures Needs(OneOp(n), Output(3, 0), 0) <==> n.inputs != []
  {
    var sub := OneOp(n);
    assert sub.nodes[3].value == n && !IsVariable(sub, Output(3, 0));
    assert !NodeNeeds(sub, 2, 0);
    assert Needs(sub, Output(2, 0), 0);
    if n.inputs != [] {
      assert n.inputs[0] == Edge(Output(2, 0));
    }
  }

  /** A loop with one variable, and one op in its condition and in its body. */
  ghost function SmallLoop(base: nat, start: Output, cond: Node, body: Node): Loop {
    Loop("w", base, [start], OneOp(cond), [2, 3], OneOp(body), [2, 3])
  }

  lemma SmallLoopValid(base: nat, start: Output, cond: Node, body: Node)
    requires start.node < base && Simple(cond) && Simple(body)
    ensures ValidLoop(SmallLoop(base, start, cond, body))
  {
    OneOpValid(cond);
    OneOpValid(body);
    OneOpOrder(cond);
    OneOpOrder(body);
  }

  /** What the theorem asks of a loop with one variable. */
  lemma OneVariable(l: Loop)
    requires Shaped(l) && l.N() == 1 && !IsVariable(l.cond, l.cond.outputs[0])
    ensures Executable(l) <==> Feeds(l.cond, l.cond.outputs[0]) && Feeds(l.body, l.body.outputs[0])
    ensures CondGuarded(l) <==> Needs(l.body, l.body.outputs[0], 0) || !Feeds(l.body, l.body.outputs[0])
  {
    assert CondNeeds(l, 0);
    assert Computed(l, 0) <==> Needs(l.body, l.body.outputs[0], 0);
    assert CondGuarded(l) <==> Ends(l, 0);
  }

  /** And of the small ones, in terms of their two ops. */
  lemma SmallLoopFacts(base: nat, start: Output, cond: Node, body: Node, l: Loop)
    requires start.node < base && Simple(cond) && Simple(body) && l == SmallLoop(base, start, cond, body)
    ensures ValidLoop(l)
    ensures Feeds(l.cond, l.cond.outputs[0]) <==> cond.controls == []
    ensures Executable(l) <==> cond.controls == [] && body.controls == []
    ensures CondGuarded(l) <==> body.inputs != [] || body.controls != []
  {
    SmallLoopValid(base, start, cond, body);
    OneOpFeeds(cond);
    OneOpFeeds(body);
    OneOpNeeds(body);
    assert !IsVariable(OneOp(cond), Output(3, 0));
    OneVariable(l);
  }

  /** `while less(x) { x := 5 }`: the condition reads the variable, which the body replaces by a constant. */
  lemma ConstantLoopFails(nodes: Slots, base: nat, start: Output, less: Node, five: Node, l: Loop, code: Term -> Tensor)
    requires start.node < base && l == SmallLoop(base, start, less, five)
    requires less == Node("less", Compute("Less"), [Edge(Output(2, 0))], [])
    requires five == Node("five", Compute("Const"), [], [])
    ensures ValidLoop(l) && Executable(l) && !CondGuarded(l)
    ensures UniqueNames(nodes) && IsLowered(nodes, l) ==> !Computes(nodes, l)
  {
    SmallLoopFacts(base, start, less, five, l);
    if UniqueNames(nodes) && IsLowered(nodes, l) {
      LoweringCorrectIff(nodes, l, code);
    }
  }

  /** `while less(x) { x := next(x) }`, where less waits for the placeholder of x: guarded, but it never exits. */
  lemma LateLoopFails(nodes: Slots, base: nat, start: Output, less: Node, next: Node, l: Loop, code: Term -> Tensor)
    requires start.node < base && l == SmallLoop(base, start, less, next)
    requires less == Node("less", Compute("Less"), [Edge(Output(2, 0))], [2])
    requires next == Node("next", Compute("Next"), [Edge(Output(2, 0))], [])
    ensures ValidLoop(l) && CondGuarded(l) && !Feeds(l.cond, l.cond.outputs[0])
    ensures UniqueNames(nodes) && IsLowered(nodes, l) ==> !Computes(nodes, l)
  {
    SmallLoopFacts(base, start, less, next, l);
    if UniqueNames(nodes) && IsLowered(nodes, l) {
      LoweringCorrectIff(nodes, l, code);
    }
  }

  /** Without that control edge the loop is computed. */
  lemma PlainLoopComputed(nodes: Slots, base: nat, start: Output, less: Node, next: Node, l: Loop, code: Term -> Tensor)
    requires start.node < base && l == SmallLoop(base, start, less, next)
    requires less == Node("less", Compute("Less"), [Edge(Output(2, 0))], [])
    requires next == Node("next", Compute("Next"), [Edge(Output(2, 0))], [])
    ensures ValidLoop(l)
    ensures UniqueNames(nodes) && IsLowered(nodes, l) ==> Computes(nodes, l)
  {
    SmallLoopFacts(base, start, less, next, l);
    if UniqueNames(nodes) && IsLowered(nodes, l) {
      LoweringCorrectIff(nodes, l, code);
    }
  }

  /** `while go() { x := next(x) }`, where next waits for the placeholder of x: its condition is the same before and
      after the body, so the loop stops at once or never, and the body that cannot execute does no harm. */
  lemma FixedLoopComputed(nodes: Slots, base: nat, start: Output, go: Node, next: Node, l: Loop, code: Term -> Tensor)
    requires start.node < base && l == SmallLoop(base, start, go, next)
    requires go == Node("go", Compute("Go"), [], [])
    requires next == Node("next", Compute("Next"), [Edge(Output(2, 0))], [2])
    ensures ValidLoop(l) && !Executable(l) && Frozen(l)
    ensures UniqueNames(nodes) && IsLowered(nodes, l) && Faithful(code) ==> Computes(nodes, l)
  {
    SmallLoopFacts(base, start, go, next, l);
    assert l.cond.nodes[3].value == go && !IsVariable(l.cond, Output(3, 0));
    assert forall j :: !Reads(l.cond, l.cond.outputs[0], j);
    assert Keeps(l, {});
    if UniqueNames(nodes) && IsLowered(nodes, l) && Faithful(code) {
      LoweringCorrectIff(nodes, l, code);
    }
  }
}
