/** Nested Go slices as tensors: the shape of a value, its elements in row-major order, and back. */
module GoTensor {
  import opened Base
  import opened Varint

  type Bytes = seq<Byte>

  /** A Go value: an element, or a slice of values. */
  datatype Value<T> = Leaf(x: T) | Slice(elems: seq<Value<T>>)

  /** The Go type of the value has d levels of slices. */
  predicate HasDepth<T>(v: Value<T>, d: nat)
    decreases d
  {
    if d == 0 then v.Leaf? else v.Slice? && forall i :: 0 <= i < |v.elems| ==> HasDepth(v.elems[i], d - 1)
  }

  /** The elements of the first k values, in row-major order. */
  function LeavesTo<T>(elems: seq<Value<T>>, k: nat): seq<T>
    requires k <= |elems|
    decreases elems, 0, k
  {
    if k == 0 then [] else LeavesTo(elems, k - 1) + Leaves(elems[k - 1])
  }

  function Leaves<T>(v: Value<T>): seq<T>
    decreases v, 1
  {
    match v
    case Leaf(x) => [x]
    case Slice(elems) => LeavesTo(elems, |elems|)
  }

  lemma LeavesOfOne<T>(e: Value<T>)
    ensures Leaves(Slice([e])) == Leaves(e)
  {
    assert LeavesTo([e], 1) == LeavesTo([e], 0) + Leaves([e][0]);
  }

  /** The value is rectangular, with the given lengths. */
  predicate HasShape<T>(v: Value<T>, shape: seq<nat>)
    decreases |shape|
  {
    if shape == [] then v.Leaf?
    else v.Slice? && |v.elems| == shape[0] && forall i :: 0 <= i < |v.elems| ==> HasShape(v.elems[i], shape[1..])
  }

  // ----- Shapes -----

  function Zeros(d: nat): (z: seq<nat>) {
    seq(d, _ => 0)
  }

  /** The lengths met on the way to the first element. */
  function FirstPath<T>(v: Value<T>, d: nat): (shape: seq<nat>)
    requires HasDepth(v, d)
    ensures |shape| == d
    decreases d
  {
    if d == 0 then [] else [|v.elems|] + if v.elems == [] then Zeros(d - 1) else FirstPath(v.elems[0], d - 1)
  }

  function Len<T>(v: Value<T>): nat {
    if v.Slice? then |v.elems| else 0
  }

  /** The slices of a slice have the same length. */
  predicate Even<T>(v: Value<T>, d: nat)
    requires HasDepth(v, d)
  {
    d >= 2 ==> forall i :: 0 <= i < |v.elems| ==> Len(v.elems[i]) == Len(v.elems[0])
  }

  predicate EvenOnPath<T>(v: Value<T>, d: nat)
    requires HasDepth(v, d)
    decreases d
  {
    Even(v, d) && (d > 0 && v.elems != [] ==> EvenOnPath(v.elems[0], d - 1))
  }

  predicate EvenEverywhere<T>(v: Value<T>, d: nat)
    requires HasDepth(v, d)
    decreases d
  {
    Even(v, d) && (d > 0 ==> forall i :: 0 <= i < |v.elems| ==> EvenEverywhere(v.elems[i], d - 1))
  }

  lemma {:induction false} EvenAlsoOnPath<T>(v: Value<T>, d: nat)
    requires HasDepth(v, d)
    ensures EvenEverywhere(v, d) ==> EvenOnPath(v, d)
    decreases d
  {
    if d > 0 && v.elems != [] {
      EvenAlsoOnPath(v.elems[0], d - 1);
    }
  }

  /** The scan for a slice of another length. */
  method CheckLengths<T>(v: Value<T>, d: nat) returns (ok: bool)
    requires d > 0 && HasDepth(v, d)
    ensures ok <==> Even(v, d)
  {
    ok := true;
    if |v.elems| > 0 && d >= 2 {
      var expected := Len(v.elems[0]);
      for i := 1 to |v.elems|
        invariant forall j :: 0 <= j < i ==> Len(v.elems[j]) == expected
      {
        if Len(v.elems[i]) != expected {
          return false;
        }
      }
    }
  }

  /** With `typ` levels to go from val, the lengths found and those to be found are the first path of v. */
  ghost predicate OnPath<T>(v: Value<T>, d: nat, val: Value<T>, typ: nat, shape: seq<nat>)
    requires HasDepth(v, d)
  {
    && HasDepth(val, typ)
    && FirstPath(v, d) == shape + FirstPath(val, typ)
    && (EvenOnPath(v, d) <==> EvenOnPath(val, typ))
  }

  /** The path has come to an empty slice, which the loop does not leave. */
  ghost predicate OffPath<T>(v: Value<T>, d: nat, val: Value<T>, typ: nat, shape: seq<nat>)
    requires HasDepth(v, d)
  {
    val == Slice([]) && FirstPath(v, d) == shape + Zeros(typ) && EvenOnPath(v, d)
  }

  lemma PathStep<T>(v: Value<T>, d: nat, val: Value<T>, typ: nat, shape: seq<nat>)
    requires HasDepth(v, d) && typ > 0 && OnPath(v, d, val, typ, shape)
    ensures val.elems != [] && Even(val, typ) ==> OnPath(v, d, val.elems[0], typ - 1, shape + [|val.elems|])
    ensures val.elems == [] ==> OffPath(v, d, val, typ - 1, shape + [|val.elems|])
  {
    assert FirstPath(val, typ) == [|val.elems|] + FirstPath(val, typ)[1..];
    assert shape + FirstPath(val, typ) == shape + [|val.elems|] + FirstPath(val, typ)[1..];
  }

  lemma OffPathStep<T>(v: Value<T>, d: nat, val: Value<T>, typ: nat, shape: seq<nat>)
    requires HasDepth(v, d) && typ > 0 && OffPath(v, d, val, typ, shape)
    ensures OffPath(v, d, val, typ - 1, shape + [0])
  {
    assert Zeros(typ) == [0] + Zeros(typ - 1);
    assert shape + Zeros(typ) == shape + [0] + Zeros(typ - 1);
  }

  /** shapeAndDataTypeOf, which looks at the first element of each level only; None is an error. */
  method ShapeOf<T>(v: Value<T>, d: nat) returns (r: Option<seq<nat>>)
    requires HasDepth(v, d)
    ensures r == if EvenOnPath(v, d) then Some(FirstPath(v, d)) else None
  {
    var val, typ: nat, shape: seq<nat> := v, d, [];
    while typ > 0
      invariant OnPath(v, d, val, typ, shape) || OffPath(v, d, val, typ, shape)
    {
      if OnPath(v, d, val, typ, shape) {
        PathStep(v, d, val, typ, shape);
      } else {
        OffPathStep(v, d, val, typ, shape);
      }
      shape := shape + [|val.elems|];
      if |val.elems| > 0 {
        var ok := CheckLengths(val, typ);
        if !ok {
          return None;
        }
        val := val.elems[0];
      }
      typ := typ - 1;
    }
    assert shape + [] == shape;
    r := Some(shape);
  }

  /** numElements, in 64 bits. */
  method NumElements(shape: seq<nat>) returns (n: nat)
    ensures n == Product(shape) % TWO64
  {
    n := 1;
    for i := 0 to |shape|
      invariant n * Product(shape[i..]) % TWO64 == Product(shape) % TWO64
      invariant n < TWO64
    {
      ghost var rest := Product(shape[i + 1..]);
      assert shape[i..][1..] == shape[i + 1..];
      MulAssoc(n, shape[i], rest);
      MulMod(n * shape[i], rest);
      n := n * shape[i] % TWO64;
    }
    assert shape[|shape|..] == [];
  }

  lemma MulAssoc(a: nat, b: nat, c: nat)
    ensures a * (b * c) == (a * b) * c && a * b >= 0
  {
  }

  lemma MulMod(a: nat, b: nat)
    ensures (a % TWO64) * b % TWO64 == a * b % TWO64
  {
    var q, r := a / TWO64, a % TWO64;
    assert a * b == (q * TWO64 + r) * b == (q * b) * TWO64 + r * b;
    assert r * b >= 0 && q * b >= 0;
    ModShift(r * b, q * b);
  }

  // ----- Rectangular values -----

  lemma {:induction false} ShapeGivesDepth<T>(v: Value<T>, shape: seq<nat>)
    requires HasShape(v, shape)
    ensures HasDepth(v, |shape|)
    decreases |shape|
  {
    if shape != [] {
      forall i | 0 <= i < |v.elems| ensures HasDepth(v.elems[i], |shape| - 1) {
        ShapeGivesDepth(v.elems[i], shape[1..]);
      }
    }
  }

  /** A rectangular value has the shape found on its first path, and passes every check of lengths. */
  lemma {:induction false} RectangularFound<T>(v: Value<T>, shape: seq<nat>)
    requires HasShape(v, shape) && HasDepth(v, |shape|)
    ensures HasShape(v, FirstPath(v, |shape|)) && EvenOnPath(v, |shape|) && EvenEverywhere(v, |shape|)
    decreases |shape|
  {
    var d := |shape|;
    if d > 0 {
      forall i | 0 <= i < |v.elems|
        ensures HasShape(v.elems[i], shape[1..])
        ensures EvenEverywhere(v.elems[i], d - 1) && EvenOnPath(v.elems[i], d - 1)
        ensures HasShape(v.elems[i], FirstPath(v.elems[0], d - 1))
      {
        RectangularFound(v.elems[i], shape[1..]);
        SamePath(v.elems[0], v.elems[i], shape[1..]);
      }
      assert v.elems != [] ==> FirstPath(v, d)[1..] == FirstPath(v.elems[0], d - 1);
    }
  }

  lemma {:induction false} SamePath<T>(v: Value<T>, w: Value<T>, shape: seq<nat>)
    requires HasShape(v, shape) && HasShape(w, shape) && HasDepth(v, |shape|) && HasDepth(w, |shape|)
    ensures FirstPath(v, |shape|) == FirstPath(w, |shape|)
    decreases |shape|
  {
    if shape != [] && shape[0] > 0 {
      SamePath(v.elems[0], w.elems[0], shape[1..]);
    }
  }

  /** The value of the given shape with the given elements. */
  function Build<T>(shape: seq<nat>, leaves: seq<T>): (v: Value<T>)
    requires |leaves| == Product(shape)
    decreases |shape|
  {
    if shape == [] then Leaf(leaves[0])
    else
      Slice(seq(shape[0], i requires 0 <= i < shape[0] => Part(shape, leaves, i)))
  }

  function Part<T>(shape: seq<nat>, leaves: seq<T>, i: nat): (v: Value<T>)
    requires shape != [] && |leaves| == Product(shape) && i < shape[0]
    decreases |shape|, 0
  {
    var p := Product(shape[1..]);
    PartFits(i, shape[0], p);
    Build(shape[1..], leaves[i * p..i * p + p])
  }

  lemma PartFits(i: nat, n: nat, p: nat)
    requires i < n
    ensures 0 <= i * p <= i * p + p <= n * p
  {
    assert (i + 1) * p <= n * p;
  }

  lemma {:induction false} BuildHasShape<T>(shape: seq<nat>, leaves: seq<T>)
    requires |leaves| == Product(shape)
    ensures HasShape(Build(shape, leaves), shape)
    decreases |shape|
  {
    if shape != [] {
      forall i: nat | i < shape[0] ensures HasShape(Part(shape, leaves, i), shape[1..]) {
        var p := Product(shape[1..]);
        PartFits(i, shape[0], p);
        BuildHasShape(shape[1..], leaves[i * p..i * p + p]);
      }
    }
  }

  /** Building puts the elements in row-major order. */
  lemma {:induction false} LeavesOfBuild<T>(shape: seq<nat>, leaves: seq<T>)
    requires |leaves| == Product(shape)
    ensures Leaves(Build(shape, leaves)) == leaves
    decreases |shape|, 1
  {
    if shape == [] {
      assert leaves == [leaves[0]];
    } else {
      LeavesOfParts(shape, leaves, shape[0]);
      assert leaves[..|leaves|] == leaves;
    }
  }

  lemma {:induction false} LeavesOfParts<T>(shape: seq<nat>, leaves: seq<T>, k: nat)
    requires shape != [] && |leaves| == Product(shape) && k <= shape[0]
    ensures 0 <= k * Product(shape[1..]) <= |leaves|
    ensures LeavesTo(Build(shape, leaves).elems, k) == leaves[..k * Product(shape[1..])]
    decreases |shape|, 0, k
  {
    var p := Product(shape[1..]);
    if k > 0 {
      PartFits(k - 1, shape[0], p);
      assert k * p == (k - 1) * p + p;
      LeavesOfParts(shape, leaves, k - 1);
      LeavesOfBuild(shape[1..], leaves[(k - 1) * p..(k - 1) * p + p]);
      assert Build(shape, leaves).elems[k - 1] == Part(shape, leaves, k - 1);
      assert leaves[..(k - 1) * p] + leaves[(k - 1) * p..k * p] == leaves[..k * p];
    }
  }

  /** A rectangular value has as many elements as the product of its lengths, and is built from them. */
  lemma {:induction false} BuildOfLeaves<T>(v: Value<T>, shape: seq<nat>)
    requires HasShape(v, shape)
    ensures |Leaves(v)| == Product(shape)
    ensures Build(shape, Leaves(v)) == v
    decreases |shape|, 1
  {
    if shape != [] {
      LeavesOfElems(v, shape, shape[0]);
      assert LeavesTo(v.elems, |v.elems|) == Leaves(v);
      forall i: nat | i < shape[0] ensures Part(shape, Leaves(v), i) == v.elems[i] {
        LeavesOfElem(v, shape, i, shape[0]);
        BuildOfLeaves(v.elems[i], shape[1..]);
      }
      assert Build(shape, Leaves(v)).elems == v.elems;
    }
  }

  lemma {:induction false} LeavesOfElems<T>(v: Value<T>, shape: seq<nat>, k: nat)
    requires shape != [] && HasShape(v, shape) && k <= shape[0]
    ensures |LeavesTo(v.elems, k)| == k * Product(shape[1..])
    decreases |shape|, 0, k
  {
    if k > 0 {
      LeavesOfElems(v, shape, k - 1);
      BuildOfLeaves(v.elems[k - 1], shape[1..]);
      assert k * Product(shape[1..]) == (k - 1) * Product(shape[1..]) + Product(shape[1..]);
    }
  }

  lemma {:induction false} LeavesOfElem<T>(v: Value<T>, shape: seq<nat>, i: nat, k: nat)
    requires shape != [] && HasShape(v, shape) && i < k <= shape[0]
    ensures 0 <= i * Product(shape[1..]) <= i * Product(shape[1..]) + Product(shape[1..]) <= |LeavesTo(v.elems, k)|
    ensures LeavesTo(v.elems, k)[i * Product(shape[1..])..i * Product(shape[1..]) + Product(shape[1..])] == Leaves(v.elems[i])
    decreases |shape|, 0, k
  {
    var p := Product(shape[1..]);
    LeavesOfElems(v, shape, k - 1);
    BuildOfLeaves(v.elems[k - 1], shape[1..]);
    if i < k - 1 {
      LeavesOfElem(v, shape, i, k - 1);
    }
  }

  /** The value built from the elements of v has the given shape and the same elements; it is v exactly when v has that shape. */
  lemma Rebuilt<T>(v: Value<T>, shape: seq<nat>)
    requires |Leaves(v)| == Product(shape)
    ensures HasShape(Build(shape, Leaves(v)), shape)
    ensures Leaves(Build(shape, Leaves(v))) == Leaves(v)
    ensures Build(shape, Leaves(v)) == v <==> HasShape(v, shape)
  {
    BuildHasShape(shape, Leaves(v));
    LeavesOfBuild(shape, Leaves(v));
    if HasShape(v, shape) {
      BuildOfLeaves(v, shape);
    }
  }
}
