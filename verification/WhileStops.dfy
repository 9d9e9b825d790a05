/** Which source loops can stop after they have run their body. */
module WhileStops {
  import opened Base
  import opened GraphModel
  import opened Dataflow
  import opened WhileGraph
  import opened WhileMeaning

  /** For some kernels and initial values, the source loop runs its body and then stops. */
  ghost predicate CanStopLater(l: Loop)
    requires Shaped(l)
  {
    exists outside: Output -> Tensor, k: Kernels, steps: nat ::
      0 < steps && StopsAfter(l, k, StartValues(outside, l), steps)
  }

  /** The value of the output is computed from loop variable `j`. */
  ghost predicate Reads(sub: Sub, out: Output, j: nat)
    decreases out.node
  {
    if IsVariable(sub, out) then j == IndexOf(sub.inputs, out.node)
    else
      && IsOp(sub.nodes, out.node)
      && var n := sub.nodes[out.node].value;
      exists i :: 0 <= i < |n.inputs| && ReadsInput(sub, n, out.node, i) && Reads(sub, n.inputs[i].src, j)
  }

  ghost predicate ReadsInput(sub: Sub, n: Node, id: nat, i: nat)
    requires i < |n.inputs|
  {
    n.inputs[i].Edge? && n.inputs[i].src.node < id
  }

  lemma {:induction false} ValDepends(sub: Sub, k: Kernels, x: seq<Tensor>, y: seq<Tensor>, out: Output)
    requires |x| == |y| == |sub.inputs|
    requires forall j :: 0 <= j < |x| && Reads(sub, out, j) ==> x[j] == y[j]
    ensures Val(sub, k, x, out) == Val(sub, k, y, out)
    decreases out.node
  {
    if IsVariable(sub, out) {
      assert Reads(sub, out, IndexOf(sub.inputs, out.node));
    } else if IsOp(sub.nodes, out.node) {
      var n := sub.nodes[out.node].value;
      forall i | 0 <= i < |n.inputs| && ReadsInput(sub, n, out.node, i)
        ensures Val(sub, k, x, n.inputs[i].src) == Val(sub, k, y, n.inputs[i].src)
      {
        assert forall j :: Reads(sub, n.inputs[i].src, j) ==> Reads(sub, out, j);
        ValDepends(sub, k, x, y, n.inputs[i].src);
      }
      assert Args(sub, k, x, out.node) == Args(sub, k, y, out.node);
    }
  }

  // ----- Loops whose condition never changes -----

  /** The body hands variable `i` on from a variable of the set that entered the loop with the same value. */
  ghost predicate HandedOn(l: Loop, keep: set<nat>, i: nat)
    requires Shaped(l)
  {
    && i < l.N() && IsVariable(l.body, l.body.outputs[i])
    && var j := IndexOf(l.body.inputs, l.body.outputs[i].node);
    j in keep && l.starts[j] == l.starts[i]
  }

  /** The set holds all that the condition reads, and the body hands its variables on among themselves. */
  ghost predicate Keeps(l: Loop, keep: set<nat>)
    requires Shaped(l)
  {
    && (forall i :: 0 <= i < l.N() && Reads(l.cond, l.cond.outputs[0], i) ==> i in keep)
    && (forall i :: i in keep ==> HandedOn(l, keep, i))
  }

  ghost predicate Frozen(l: Loop)
    requires Shaped(l)
  {
    exists keep: set<nat> :: Keeps(l, keep)
  }

  lemma {:induction false} KeptValues(l: Loop, keep: set<nat>, k: Kernels, outside: Output -> Tensor, t: nat)
    requires Shaped(l) && Keeps(l, keep)
    ensures forall i :: i in keep ==> i < l.N() && After(l, k, StartValues(outside, l), t)[i] == outside(l.starts[i])
  {
    forall i | i in keep
      ensures i < l.N() && After(l, k, StartValues(outside, l), t)[i] == outside(l.starts[i])
    {
      assert HandedOn(l, keep, i);
      if t > 0 {
        KeptValues(l, keep, k, outside, t - 1);
      }
    }
  }

  lemma FrozenGoesOn(l: Loop, k: Kernels, outside: Output -> Tensor, t: nat)
    requires Shaped(l) && Frozen(l)
    ensures GoesOn(l, k, StartValues(outside, l), t) <==> GoesOn(l, k, StartValues(outside, l), 0)
  {
    var keep :| Keeps(l, keep);
    KeptValues(l, keep, k, outside, t);
    ValDepends(l.cond, k, After(l, k, StartValues(outside, l), t), StartValues(outside, l), l.cond.outputs[0]);
  }

  // ----- Kernels that tell all terms apart -----

  /** How a tensor was computed from those that entered the loop. */
  datatype Term = Start(out: Output) | App(kind: string, args: seq<Term>, slot: nat)

  /** Tensors can stand for terms. */
  ghost predicate Faithful(code: Term -> Tensor) {
    forall a, b :: code(a) == code(b) ==> a == b
  }

  ghost function TermOf(sub: Sub, ts: seq<Term>, out: Output): Term
    requires |ts| == |sub.inputs|
    decreases out.node, 1
  {
    if IsVariable(sub, out) then ts[IndexOf(sub.inputs, out.node)]
    else if !IsOp(sub.nodes, out.node) then App("", [], 0)
    else
      var op := sub.nodes[out.node].value.op;
      App(if op.Compute? then op.kind else "Placeholder", ArgTerms(sub, ts, out.node), out.index)
  }

  ghost function ArgTerms(sub: Sub, ts: seq<Term>, id: nat): seq<Term>
    requires |ts| == |sub.inputs| && IsOp(sub.nodes, id)
    decreases id, 0
  {
    var n := sub.nodes[id].value;
    seq(|n.inputs|, i requires 0 <= i < |n.inputs| =>
      if ReadsInput(sub, n, id, i) then TermOf(sub, ts, n.inputs[i].src) else App("", [], 0))
  }

  /** Equal terms are computed from equal variables. */
  lemma {:induction false} TermTells(sub: Sub, ts: seq<Term>, us: seq<Term>, out: Output, j: nat)
    requires |ts| == |us| == |sub.inputs| && j < |ts| && Reads(sub, out, j)
    requires TermOf(sub, ts, out) == TermOf(sub, us, out)
    ensures ts[j] == us[j]
    decreases out.node
  {
    if !IsVariable(sub, out) {
      var n := sub.nodes[out.node].value;
      var i :| 0 <= i < |n.inputs| && ReadsInput(sub, n, out.node, i) && Reads(sub, n.inputs[i].src, j);
      assert ArgTerms(sub, ts, out.node)[i] == ArgTerms(sub, us, out.node)[i];
      TermTells(sub, ts, us, n.inputs[i].src, j);
    }
  }

  ghost function Codes(code: Term -> Tensor, ts: seq<Term>): (x: seq<Tensor>)
    ensures |x| == |ts| && forall i :: 0 <= i < |ts| ==> x[i] == code(ts[i])
  {
    seq(|ts|, i requires 0 <= i < |ts| => code(ts[i]))
  }

  ghost function Decode(code: Term -> Tensor, x: seq<Tensor>): (ts: seq<Term>)
    ensures (exists us :: Codes(code, us) == x) ==> Codes(code, ts) == x
  {
    if us :| Codes(code, us) == x then us else []
  }

  lemma DecodeCodes(code: Term -> Tensor, ts: seq<Term>)
    requires Faithful(code)
    ensures Decode(code, Codes(code, ts)) == ts
  {
    var us := Decode(code, Codes(code, ts));
    assert Codes(code, us) == Codes(code, ts);
    assert |us| == |Codes(code, us)| == |ts|;
    forall i | 0 <= i < |ts|
      ensures us[i] == ts[i]
    {
      assert code(us[i]) == Codes(code, us)[i] == code(ts[i]);
    }
  }

  /** The kernels compute the terms themselves; one of them is true. */
  ghost function TermKernels(code: Term -> Tensor, yes: Term): Kernels {
    Kernels((kind: string, args: seq<Tensor>, slot: nat) => code(App(kind, Decode(code, args), slot)), x => x == code(yes))
  }

  lemma {:induction false} ValIsTerm(sub: Sub, code: Term -> Tensor, yes: Term, ts: seq<Term>, out: Output)
    requires Faithful(code) && |ts| == |sub.inputs|
    ensures Val(sub, TermKernels(code, yes), Codes(code, ts), out) == code(TermOf(sub, ts, out))
    decreases out.node
  {
    var k, x := TermKernels(code, yes), Codes(code, ts);
    DecodeCodes(code, []);
    assert Codes(code, []) == [];
    if !IsVariable(sub, out) && IsOp(sub.nodes, out.node) {
      var n := sub.nodes[out.node].value;
      forall i | 0 <= i < |n.inputs| && ReadsInput(sub, n, out.node, i)
        ensures Val(sub, k, x, n.inputs[i].src) == code(TermOf(sub, ts, n.inputs[i].src))
      {
        ValIsTerm(sub, code, yes, ts, n.inputs[i].src);
      }
      DecodeCodes(code, ArgTerms(sub, ts, out.node));
      assert Args(sub, k, x, out.node) == Codes(code, ArgTerms(sub, ts, out.node));
    }
  }

  /** The terms of the loop variables after `t` iterations. */
  ghost function TermsAfter(l: Loop, t: nat): (ts: seq<Term>)
    requires Shaped(l)
    ensures |ts| == l.N()
  {
    if t == 0 then seq(l.N(), i requires 0 <= i < l.N() => Start(l.starts[i]))
    else seq(l.N(), i requires 0 <= i < l.N() => TermOf(l.body, TermsAfter(l, t - 1), l.body.outputs[i]))
  }

  ghost function CondTerm(l: Loop, t: nat): Term
    requires Shaped(l)
  {
    TermOf(l.cond, TermsAfter(l, t), l.cond.outputs[0])
  }

  lemma {:induction false} AfterIsTerms(l: Loop, code: Term -> Tensor, yes: Term, t: nat)
    requires Shaped(l) && Faithful(code)
    ensures After(l, TermKernels(code, yes), StartValues(out => code(Start(out)), l), t) == Codes(code, TermsAfter(l, t))
  {
    if t > 0 {
      AfterIsTerms(l, code, yes, t - 1);
      forall i | 0 <= i < l.N()
        ensures Val(l.body, TermKernels(code, yes), Codes(code, TermsAfter(l, t - 1)), l.body.outputs[i]) ==
                code(TermsAfter(l, t)[i])
      {
        ValIsTerm(l.body, code, yes, TermsAfter(l, t - 1), l.body.outputs[i]);
      }
    }
  }

  lemma GoesOnIffTerm(l: Loop, code: Term -> Tensor, yes: Term, t: nat)
    requires Shaped(l) && Faithful(code)
    ensures GoesOn(l, TermKernels(code, yes), StartValues(out => code(Start(out)), l), t) <==> CondTerm(l, t) == yes
  {
    AfterIsTerms(l, code, yes, t);
    ValIsTerm(l.cond, code, yes, TermsAfter(l, t), l.cond.outputs[0]);
  }

  /** Variable `i` is what it was when it entered the loop. */
  ghost predicate Same(l: Loop, i: nat, t: nat)
    requires Shaped(l)
  {
    i < l.N() && TermsAfter(l, t)[i] == Start(l.starts[i])
  }

  ghost predicate AlwaysSame(l: Loop, i: nat)
    requires Shaped(l)
  {
    forall t: nat :: Same(l, i, t)
  }

  /** Where the condition's term never changes, the loop is frozen. */
  lemma SameTermFrozen(l: Loop)
    requires Shaped(l) && forall t: nat :: CondTerm(l, t) == CondTerm(l, 0)
    ensures Frozen(l)
  {
    var keep := set i: nat | i < l.N() && AlwaysSame(l, i);
    forall i | 0 <= i < l.N() && Reads(l.cond, l.cond.outputs[0], i)
      ensures i in keep
    {
      forall t: nat
        ensures Same(l, i, t)
      {
        assert CondTerm(l, t) == CondTerm(l, 0);
        TermTells(l.cond, TermsAfter(l, t), TermsAfter(l, 0), l.cond.outputs[0], i);
      }
    }
    forall i | i in keep
      ensures HandedOn(l, keep, i)
    {
      SameHandedOn(l, i);
    }
    assert Keeps(l, keep);
  }

  lemma SameHandedOn(l: Loop, i: nat)
    requires Shaped(l) && i < l.N() && AlwaysSame(l, i)
    ensures IsVariable(l.body, l.body.outputs[i])
    ensures var j := IndexOf(l.body.inputs, l.body.outputs[i].node);
            j < l.N() && l.starts[j] == l.starts[i] && AlwaysSame(l, j)
  {
    assert Same(l, i, 1);
    assert TermsAfter(l, 1)[i] == TermOf(l.body, TermsAfter(l, 0), l.body.outputs[i]);
    var j := IndexOf(l.body.inputs, l.body.outputs[i].node);
    forall t: nat
      ensures Same(l, j, t)
    {
      assert Same(l, i, t + 1);
      assert TermsAfter(l, t + 1)[i] == TermOf(l.body, TermsAfter(l, t), l.body.outputs[i]);
    }
  }

  lemma {:induction false} FirstChange(l: Loop, t: nat) returns (s: nat)
    requires Shaped(l) && CondTerm(l, t) != CondTerm(l, 0)
    ensures 0 < s && CondTerm(l, s) != CondTerm(l, 0)
    ensures forall r :: 0 <= r < s ==> CondTerm(l, r) == CondTerm(l, 0)
  {
    if r: nat :| r < t && CondTerm(l, r) != CondTerm(l, 0) {
      s := FirstChange(l, r);
    } else {
      s := t;
    }
  }

  /** A loop can stop after it has run its body if and only if it is not frozen. */
  lemma CanStopLaterIff(l: Loop, code: Term -> Tensor)
    requires Shaped(l) && Faithful(code)
    ensures CanStopLater(l) <==> !Frozen(l)
  {
    if Frozen(l) {
      forall outside: Output -> Tensor, k: Kernels, steps: nat | 0 < steps
        ensures !StopsAfter(l, k, StartValues(outside, l), steps)
      {
        FrozenGoesOn(l, k, outside, steps);
      }
    } else {
      if forall t: nat :: CondTerm(l, t) == CondTerm(l, 0) {
        SameTermFrozen(l);
      }
      var t: nat :| CondTerm(l, t) != CondTerm(l, 0);
      var s := FirstChange(l, t);
      var k, outside := TermKernels(code, CondTerm(l, 0)), (out: Output) => code(Start(out));
      forall r: nat | r <= s
        ensures GoesOn(l, k, StartValues(outside, l), r) <==> r < s
      {
        GoesOnIffTerm(l, code, CondTerm(l, 0), r);
      }
      assert StopsAfter(l, k, StartValues(outside, l), s);
    }
  }
}
