/** Layouts of batches of images: the order of the dimensions, and the strides that follow from it. */
module TensorLayout {
  import opened Base

  datatype DataLayout = YXDepthBatch | YXBatchDepth | BatchYXDepth | BatchDepthYX | BatchDepthYX4

  /** The positions of the depth, of the batch and of the first spatial dimension among dataDims. */
  function GetDimIndices(layout: DataLayout, dataDims: nat): (r: (nat, nat, nat))
    requires dataDims >= 2
    ensures r.0 < dataDims && r.1 < dataDims && r.0 != r.1 && r.2 + (dataDims - 2) <= dataDims
    ensures !(r.2 <= r.0 < r.2 + (dataDims - 2)) && !(r.2 <= r.1 < r.2 + (dataDims - 2))
  {
    match layout
    case YXBatchDepth => (dataDims - 1, dataDims - 2, 0)
    case YXDepthBatch => (dataDims - 2, dataDims - 1, 0)
    case BatchYXDepth => (dataDims - 1, 0, 1)
    case BatchDepthYX => (1, 0, 2)
    case BatchDepthYX4 => (1, 0, 2)
  }

  /** The numbers for the batch, the depth and the spatial dimensions, in the order of a layout. */
  function Pack(layout: DataLayout, b: nat, d: nat, sp: seq<nat>): (r: seq<nat>)
    ensures |r| == |sp| + 2
  {
    match layout
    case YXBatchDepth => sp + [b, d]
    case YXDepthBatch => sp + [d, b]
    case BatchYXDepth => [b] + sp + [d]
    case BatchDepthYX => [b, d] + sp
    case BatchDepthYX4 => [b, d] + sp
  }

  function BatchOf(layout: DataLayout, s: seq<nat>): nat
    requires |s| >= 2
  {
    s[GetDimIndices(layout, |s|).1]
  }

  function DepthOf(layout: DataLayout, s: seq<nat>): nat
    requires |s| >= 2
  {
    s[GetDimIndices(layout, |s|).0]
  }

  function SpatialOf(layout: DataLayout, s: seq<nat>): (sp: seq<nat>)
    requires |s| >= 2
    ensures |sp| == |s| - 2
  {
    var from := GetDimIndices(layout, |s|).2;
    s[from..from + (|s| - 2)]
  }

  /** The indices of a layout are the places where Pack puts things. */
  lemma PackOfParts(layout: DataLayout, s: seq<nat>)
    requires |s| >= 2
    ensures Pack(layout, BatchOf(layout, s), DepthOf(layout, s), SpatialOf(layout, s)) == s
  {
    var p := Pack(layout, BatchOf(layout, s), DepthOf(layout, s), SpatialOf(layout, s));
    forall i | 0 <= i < |s| ensures p[i] == s[i] {
    }
  }

  lemma PartsOfPack(layout: DataLayout, b: nat, d: nat, sp: seq<nat>)
    ensures var s := Pack(layout, b, d, sp); BatchOf(layout, s) == b && DepthOf(layout, s) == d && SpatialOf(layout, s) == sp
  {
  }

  function Reordered(s: seq<nat>, src: DataLayout, dst: DataLayout): seq<nat>
    requires |s| >= 2
  {
    Pack(dst, BatchOf(src, s), DepthOf(src, s), SpatialOf(src, s))
  }

  method ReorderDims(input: seq<nat>, src: DataLayout, dst: DataLayout) returns (r: seq<nat>)
    requires |input| >= 2
    ensures r == Reordered(input, src, dst)
  {
    PackOfParts(src, input);
    if src == dst {
      return input;
    }
    var places, places' := GetDimIndices(src, |input|), GetDimIndices(dst, |input|);
    r := Scatter(input, places, places');
    assert SpatialOf(dst, r) == SpatialOf(src, input);
    PackOfParts(dst, r);
  }

  /** The rest of ReorderDims, for any places of depth, batch and space. */
  method Scatter(input: seq<nat>, from: (nat, nat, nat), dst: (nat, nat, nat)) returns (r: seq<nat>)
    requires |input| >= 2 && from.0 < |input| && from.1 < |input| && from.2 <= 2
    requires dst.0 < |input| && dst.1 < |input| && dst.0 != dst.1 && dst.2 <= 2
    requires !(dst.2 <= dst.0 < dst.2 + (|input| - 2)) && !(dst.2 <= dst.1 < dst.2 + (|input| - 2))
    ensures |r| == |input| && r[dst.0] == input[from.0] && r[dst.1] == input[from.1]
    ensures r[dst.2..dst.2 + (|input| - 2)] == input[from.2..from.2 + (|input| - 2)]
  {
    var reordered := new nat[|input|];
    reordered[dst.1] := input[from.1];
    reordered[dst.0] := input[from.0];
    var spatialFrom, spatialTo := from.2, dst.2;
    for i := 0 to |input| - 2
      invariant spatialFrom == from.2 + i && spatialTo == dst.2 + i
      invariant reordered[dst.1] == input[from.1] && reordered[dst.0] == input[from.0]
      invariant reordered[dst.2..spatialTo] == input[from.2..spatialFrom]
    {
      reordered[spatialTo] := input[spatialFrom];
      spatialFrom, spatialTo := spatialFrom + 1, spatialTo + 1;
      assert reordered[dst.2..spatialTo] == reordered[dst.2..spatialTo - 1] + [reordered[spatialTo - 1]];
    }
    r := reordered[..];
  }

  // ----- Descriptors -----

  datatype BatchDescriptor = BatchDescriptor(count: nat, featureMapCount: nat, spatialSize: seq<nat>, layout: DataLayout)

  /** full_dims, whose body copies the spatial sizes after the other two. */
  method FullDims(bd: BatchDescriptor, layout: DataLayout) returns (dims: seq<nat>)
    ensures dims == Pack(layout, bd.count, bd.featureMapCount, bd.spatialSize)
  {
    var bdyx := [bd.count, bd.featureMapCount];
    for i := 0 to |bd.spatialSize|
      invariant bdyx == [bd.count, bd.featureMapCount] + bd.spatialSize[..i]
    {
      bdyx := bdyx + [bd.spatialSize[i]];
    }
    assert bdyx == Pack(BatchDepthYX, bd.count, bd.featureMapCount, bd.spatialSize);
    PartsOfPack(BatchDepthYX, bd.count, bd.featureMapCount, bd.spatialSize);
    dims := ReorderDims(bdyx, BatchDepthYX, layout);
  }

  /** The distance between neighbours along each dimension, the last dimension varying fastest. */
  function RowMajor(dims: seq<nat>): (strides: seq<nat>)
    ensures |strides| == |dims|
  {
    if dims == [] then [] else [Product(dims[1..])] + RowMajor(dims[1..])
  }

  function DimsIn(bd: BatchDescriptor, layout: DataLayout): (dims: seq<nat>)
    ensures |dims| == |bd.spatialSize| + 2
  {
    Pack(layout, bd.count, bd.featureMapCount, bd.spatialSize)
  }

  function Strides(bd: BatchDescriptor, layout: DataLayout): seq<nat> {
    Reordered(RowMajor(DimsIn(bd, bd.layout)), bd.layout, layout)
  }

  /** The loop of full_strides, from the last dimension to the first. */
  method PhysicalStrides(dims: seq<nat>) returns (r: seq<nat>)
    requires dims != []
    ensures r == RowMajor(dims)
  {
    var n := |dims|;
    var strides := new nat[n];
    strides[n - 1] := 1;
    var i := n - 1;
    RowMajorStep(dims, i);
    while i > 0
      invariant 0 <= i < n
      invariant strides[i..] == RowMajor(dims[i..])
    {
      RowMajorStep(dims, i);
      RowMajorStep(dims, i - 1);
      strides[i - 1] := strides[i..][0] * dims[i];
      assert strides[i - 1..] == [strides[i - 1]] + strides[i..];
      i := i - 1;
    }
    r := strides[..];
    assert strides[0..] == r && dims[0..] == dims;
  }

  lemma RowMajorStep(dims: seq<nat>, i: nat)
    requires i < |dims|
    ensures RowMajor(dims[i..]) == [Product(dims[i + 1..])] + RowMajor(dims[i + 1..])
    ensures Product(dims[i..]) == Product(dims[i + 1..]) * dims[i]
    ensures i + 1 == |dims| ==> Product(dims[i + 1..]) == 1 && RowMajor(dims[i + 1..]) == []
  {
    assert dims[i..][1..] == dims[i + 1..];
  }

  /** full_strides; None is the fatal error for a vectorised layout. */
  method FullStrides(bd: BatchDescriptor, layout: DataLayout) returns (r: Option<seq<nat>>)
    ensures r == if bd.layout == BatchDepthYX4 then None else Some(Strides(bd, layout))
  {
    if bd.layout == BatchDepthYX4 {
      return None;
    }
    var physDims := FullDims(bd, bd.layout);
    var physStrides := PhysicalStrides(physDims);
    var reordered := ReorderDims(physStrides, bd.layout, layout);
    r := Some(reordered);
  }

  method NodesPerFeatureMap(bd: BatchDescriptor) returns (n: nat)
    ensures n == Product(bd.spatialSize)
  {
    n := 1;
    for i := 0 to |bd.spatialSize|
      invariant n * Product(bd.spatialSize[i..]) == Product(bd.spatialSize)
    {
      ghost var rest := Product(bd.spatialSize[i + 1..]);
      assert bd.spatialSize[i..][1..] == bd.spatialSize[i + 1..];
      assert n * (bd.spatialSize[i] * rest) == (n * bd.spatialSize[i]) * rest;
      n := n * bd.spatialSize[i];
    }
  }

  method ElementCount(bd: BatchDescriptor) returns (n: nat)
    ensures n == bd.count * bd.featureMapCount * Product(bd.spatialSize)
  {
    var nodes := NodesPerFeatureMap(bd);
    n := bd.count * bd.featureMapCount * nodes;
  }

  // ----- Offsets -----

  function Dot(a: seq<nat>, b: seq<nat>): nat
    requires |a| == |b|
  {
    if a == [] then 0 else a[0] * b[0] + Dot(a[1..], b[1..])
  }

  /** The index is within the dimensions. */
  predicate Within(idx: seq<nat>, dims: seq<nat>) {
    |idx| == |dims| && forall i :: 0 <= i < |dims| ==> idx[i] < dims[i]
  }

  lemma WithinTail(idx: seq<nat>, dims: seq<nat>)
    requires dims != [] && |idx| == |dims|
    ensures Within(idx, dims) <==> idx[0] < dims[0] && Within(idx[1..], dims[1..])
  {
    if idx[0] < dims[0] && Within(idx[1..], dims[1..]) {
      forall i | 0 <= i < |dims| ensures idx[i] < dims[i] {
        if i > 0 {
          assert idx[1..][i - 1] < dims[1..][i - 1];
        }
      }
    }
  }

  lemma RowBound(a: nat, n: nat, p: nat, c: nat)
    requires a < n && c < p
    ensures a * p + c < n * p
  {
    assert (a + 1) * p <= n * p;
  }

  lemma {:induction false} OffsetBound(idx: seq<nat>, dims: seq<nat>)
    requires Within(idx, dims)
    ensures Dot(idx, RowMajor(dims)) < Product(dims)
  {
    if dims != [] {
      WithinTail(idx, dims);
      OffsetBound(idx[1..], dims[1..]);
      assert RowMajor(dims)[1..] == RowMajor(dims[1..]);
      RowBound(idx[0], dims[0], Product(dims[1..]), Dot(idx[1..], RowMajor(dims[1..])));
    }
  }

  lemma DivideUnique(a: nat, b: nat, c: nat, d: nat, p: nat)
    requires a * p + c == b * p + d && c < p && d < p
    ensures a == b && c == d
  {
    assert a < b ==> (a + 1) * p <= b * p;
    assert b < a ==> (b + 1) * p <= a * p;
  }

  lemma {:induction false} OffsetInjective(idx: seq<nat>, jdx: seq<nat>, dims: seq<nat>)
    requires Within(idx, dims) && Within(jdx, dims)
    requires Dot(idx, RowMajor(dims)) == Dot(jdx, RowMajor(dims))
    ensures idx == jdx
  {
    if dims != [] {
      WithinTail(idx, dims);
      WithinTail(jdx, dims);
      OffsetBound(idx[1..], dims[1..]);
      OffsetBound(jdx[1..], dims[1..]);
      var rest := RowMajor(dims[1..]);
      assert RowMajor(dims)[1..] == rest;
      DivideUnique(idx[0], jdx[0], Dot(idx[1..], rest), Dot(jdx[1..], rest), Product(dims[1..]));
      OffsetInjective(idx[1..], jdx[1..], dims[1..]);
      assert idx == [idx[0]] + idx[1..] && jdx == [jdx[0]] + jdx[1..];
    }
  }

  lemma DivideBound(offset: nat, n: nat, p: nat)
    requires offset < n * p
    ensures p > 0 && offset / p < n && offset / p * p + offset % p == offset
  {
    assert p > 0;
    var q := offset / p;
    assert q >= n ==> q * p >= n * p;
  }

  /** The index of an offset. */
  function IndexOfOffset(offset: nat, dims: seq<nat>): (idx: seq<nat>)
    requires offset < Product(dims)
    ensures |idx| == |dims|
  {
    if dims == [] then []
    else
      var p := Product(dims[1..]);
      DivideBound(offset, dims[0], p);
      [offset / p] + IndexOfOffset(offset % p, dims[1..])
  }

  lemma {:induction false} OffsetSurjective(offset: nat, dims: seq<nat>)
    requires offset < Product(dims)
    ensures Within(IndexOfOffset(offset, dims), dims)
    ensures Dot(IndexOfOffset(offset, dims), RowMajor(dims)) == offset
  {
    if dims != [] {
      var p := Product(dims[1..]);
      DivideBound(offset, dims[0], p);
      OffsetSurjective(offset % p, dims[1..]);
      var idx := IndexOfOffset(offset, dims);
      assert idx[1..] == IndexOfOffset(offset % p, dims[1..]);
      WithinTail(idx, dims);
      assert RowMajor(dims)[1..] == RowMajor(dims[1..]);
    }
  }

  // ----- Layouts do not matter -----

  lemma {:induction false} DotAppend(a: seq<nat>, b: seq<nat>, c: seq<nat>, d: seq<nat>)
    requires |a| == |b| && |c| == |d|
    ensures Dot(a + c, b + d) == Dot(a, b) + Dot(c, d)
  {
    if a == [] {
      assert a + c == c && b + d == d;
    } else {
      DotAppend(a[1..], b[1..], c, d);
      assert (a + c)[1..] == a[1..] + c && (b + d)[1..] == b[1..] + d;
    }
  }

  lemma DotOne(a: nat, b: nat)
    ensures Dot([a], [b]) == a * b
  {
    assert [a][1..] == [] && [b][1..] == [];
  }

  lemma DotTwo(a: nat, b: nat, c: nat, d: nat)
    ensures Dot([a, b], [c, d]) == a * c + b * d
  {
    assert [a, b][1..] == [b] && [c, d][1..] == [d];
    DotOne(b, d);
  }

  /** A sum over the dimensions is the same in every layout. */
  lemma DotOfPacks(l: DataLayout, b: nat, d: nat, sp: seq<nat>, b': nat, d': nat, sp': seq<nat>)
    requires |sp| == |sp'|
    ensures Dot(Pack(l, b, d, sp), Pack(l, b', d', sp')) == b * b' + d * d' + Dot(sp, sp')
  {
    DotTwo(b, d, b', d');
    DotTwo(d, b, d', b');
    DotOne(b, b');
    DotOne(d, d');
    DotAppend(sp, sp', [b, d], [b', d']);
    DotAppend(sp, sp', [d, b], [d', b']);
    DotAppend([b, d], [b', d'], sp, sp');
    DotAppend([b], [b'], sp, sp');
    DotAppend([b] + sp, [b'] + sp', [d], [d']);
  }

  lemma {:induction false} ProductAppend(a: seq<nat>, b: seq<nat>)
    ensures Product(a + b) == Product(a) * Product(b)
  {
    if a == [] {
      assert a + b == b;
    } else {
      ProductAppend(a[1..], b);
      assert (a + b)[1..] == a[1..] + b;
      assert a[0] * (Product(a[1..]) * Product(b)) == (a[0] * Product(a[1..])) * Product(b);
    }
  }

  lemma ProductTwo(a: nat, b: nat)
    ensures Product([a]) == a && Product([a, b]) == a * b
  {
    assert [a][1..] == [] && [a, b][1..] == [b] && [b][1..] == [];
  }

  /** The number of elements is the product of the dimensions in any layout. */
  lemma ProductOfPack(l: DataLayout, b: nat, d: nat, sp: seq<nat>)
    ensures Product(Pack(l, b, d, sp)) == b * d * Product(sp)
  {
    var p := Product(sp);
    ProductTwo(b, d);
    ProductTwo(d, b);
    ProductAppend(sp, [b, d]);
    ProductAppend(sp, [d, b]);
    ProductAppend([b, d], sp);
    ProductAppend([b], sp);
    ProductAppend([b] + sp, [d]);
    MulOrder(b, d, p);
  }

  lemma MulOrder(b: nat, d: nat, p: nat)
    ensures p * (b * d) == b * d * p && p * (d * b) == b * d * p && b * p * d == b * d * p
  {
    assert b * p == p * b;
    assert p * b * d == p * (b * d);
  }

  lemma WithinAppend(a: seq<nat>, b: seq<nat>, c: seq<nat>, d: seq<nat>)
    requires |a| == |b| && |c| == |d|
    ensures Within(a + c, b + d) <==> Within(a, b) && Within(c, d)
  {
    if Within(a + c, b + d) {
      forall i | 0 <= i < |a| ensures a[i] < b[i] {
        assert (a + c)[i] < (b + d)[i];
      }
      forall i | 0 <= i < |c| ensures c[i] < d[i] {
        assert (a + c)[|a| + i] < (b + d)[|a| + i];
      }
    }
  }

  lemma WithinOne(a: nat, b: nat)
    ensures Within([a], [b]) <==> a < b
  {
    assert Within([a], [b]) ==> [a][0] < [b][0];
  }

  /** An index is within the dimensions if its components are, in any layout. */
  lemma WithinPack(l: DataLayout, b: nat, d: nat, sp: seq<nat>, b': nat, d': nat, sp': seq<nat>)
    requires |sp| == |sp'|
    ensures Within(Pack(l, b, d, sp), Pack(l, b', d', sp')) <==> b < b' && d < d' && Within(sp, sp')
  {
    WithinOne(b, b');
    WithinOne(d, d');
    assert Within([b, d], [b', d']) <==> b < b' && d < d' by {
      assert [b, d] == [b] + [d] && [b', d'] == [b'] + [d'];
      WithinAppend([b], [b'], [d], [d']);
    }
    assert Within([d, b], [d', b']) <==> b < b' && d < d' by {
      assert [d, b] == [d] + [b] && [d', b'] == [d'] + [b'];
      WithinAppend([d], [d'], [b], [b']);
    }
    WithinAppend(sp, sp', [b, d], [b', d']);
    WithinAppend(sp, sp', [d, b], [d', b']);
    WithinAppend([b, d], [b', d'], sp, sp');
    WithinAppend([b], [b'], sp, sp');
    WithinAppend([b] + sp, [b'] + sp', [d], [d']);
  }

  // ----- Strides are a bijection -----

  function Elements(bd: BatchDescriptor): nat {
    bd.count * bd.featureMapCount * Product(bd.spatialSize)
  }

  lemma ReorderedBack(s: seq<nat>, l: DataLayout, m: DataLayout)
    requires |s| >= 2
    ensures Reordered(Reordered(s, l, m), m, l) == s
  {
    PartsOfPack(m, BatchOf(l, s), DepthOf(l, s), SpatialOf(l, s));
    PackOfParts(l, s);
  }

  /** An offset does not depend on the layout in which the index and the strides are given. */
  lemma SameOffset(bd: BatchDescriptor, l: DataLayout, idx: seq<nat>)
    requires |idx| == |bd.spatialSize| + 2
    ensures Dot(idx, Strides(bd, l)) == Dot(Reordered(idx, l, bd.layout), RowMajor(DimsIn(bd, bd.layout)))
  {
    var st := RowMajor(DimsIn(bd, bd.layout));
    var b, d, sp := BatchOf(l, idx), DepthOf(l, idx), SpatialOf(l, idx);
    var b', d', sp' := BatchOf(bd.layout, st), DepthOf(bd.layout, st), SpatialOf(bd.layout, st);
    PackOfParts(l, idx);
    PackOfParts(bd.layout, st);
    DotOfPacks(l, b, d, sp, b', d', sp');
    DotOfPacks(bd.layout, b, d, sp, b', d', sp');
  }

  lemma SameWithin(bd: BatchDescriptor, l: DataLayout, m: DataLayout, idx: seq<nat>)
    requires |idx| == |bd.spatialSize| + 2
    ensures Within(idx, DimsIn(bd, l)) <==> Within(Reordered(idx, l, m), DimsIn(bd, m))
  {
    var b, d, sp := BatchOf(l, idx), DepthOf(l, idx), SpatialOf(l, idx);
    PackOfParts(l, idx);
    WithinPack(l, b, d, sp, bd.count, bd.featureMapCount, bd.spatialSize);
    WithinPack(m, b, d, sp, bd.count, bd.featureMapCount, bd.spatialSize);
  }

  lemma QueryLayoutIrrelevant(bd: BatchDescriptor, l: DataLayout, m: DataLayout, idx: seq<nat>)
    requires |idx| == |bd.spatialSize| + 2
    ensures Within(idx, DimsIn(bd, l)) <==> Within(Reordered(idx, l, m), DimsIn(bd, m))
    ensures Dot(idx, Strides(bd, l)) == Dot(Reordered(idx, l, m), Strides(bd, m))
  {
    SameWithin(bd, l, m, idx);
    SameOffset(bd, l, idx);
    SameOffset(bd, m, Reordered(idx, l, m));
    PartsOfPack(m, BatchOf(l, idx), DepthOf(l, idx), SpatialOf(l, idx));
  }

  lemma StridesInBounds(bd: BatchDescriptor, l: DataLayout, idx: seq<nat>)
    requires Within(idx, DimsIn(bd, l))
    ensures Dot(idx, Strides(bd, l)) < Elements(bd)
  {
    SameOffset(bd, l, idx);
    SameWithin(bd, l, bd.layout, idx);
    OffsetBound(Reordered(idx, l, bd.layout), DimsIn(bd, bd.layout));
    ProductOfPack(bd.layout, bd.count, bd.featureMapCount, bd.spatialSize);
  }

  lemma StridesInjective(bd: BatchDescriptor, l: DataLayout, idx: seq<nat>, jdx: seq<nat>)
    requires Within(idx, DimsIn(bd, l)) && Within(jdx, DimsIn(bd, l))
    requires Dot(idx, Strides(bd, l)) == Dot(jdx, Strides(bd, l))
    ensures idx == jdx
  {
    SameOffset(bd, l, idx);
    SameOffset(bd, l, jdx);
    SameWithin(bd, l, bd.layout, idx);
    SameWithin(bd, l, bd.layout, jdx);
    OffsetInjective(Reordered(idx, l, bd.layout), Reordered(jdx, l, bd.layout), DimsIn(bd, bd.layout));
    ReorderedBack(idx, l, bd.layout);
    ReorderedBack(jdx, l, bd.layout);
  }

  lemma StridesSurjective(bd: BatchDescriptor, l: DataLayout, offset: nat) returns (idx: seq<nat>)
    requires offset < Elements(bd)
    ensures Within(idx, DimsIn(bd, l)) && Dot(idx, Strides(bd, l)) == offset
  {
    ProductOfPack(bd.layout, bd.count, bd.featureMapCount, bd.spatialSize);
    var phys := IndexOfOffset(offset, DimsIn(bd, bd.layout));
    OffsetSurjective(offset, DimsIn(bd, bd.layout));
    idx := Reordered(phys, bd.layout, l);
    SameWithin(bd, bd.layout, l, phys);
    SameOffset(bd, l, idx);
    ReorderedBack(phys, bd.layout, l);
  }

  /** The strides map the valid indices one-to-one onto the numbers below the element count. */
  lemma StridesBijective(bd: BatchDescriptor, l: DataLayout)
    ensures forall idx: seq<nat> :: Within(idx, DimsIn(bd, l)) ==> Dot(idx, Strides(bd, l)) < Elements(bd)
    ensures forall idx: seq<nat>, jdx: seq<nat> ::
              Within(idx, DimsIn(bd, l)) && Within(jdx, DimsIn(bd, l)) && Dot(idx, Strides(bd, l)) == Dot(jdx, Strides(bd, l)) ==>
                idx == jdx
    ensures forall offset: nat :: offset < Elements(bd) ==> Reached(bd, l, offset)
  {
    forall idx: seq<nat> | Within(idx, DimsIn(bd, l)) ensures Dot(idx, Strides(bd, l)) < Elements(bd) {
      StridesInBounds(bd, l, idx);
    }
    forall idx: seq<nat>, jdx: seq<nat> |
      Within(idx, DimsIn(bd, l)) && Within(jdx, DimsIn(bd, l)) && Dot(idx, Strides(bd, l)) == Dot(jdx, Strides(bd, l))
      ensures idx == jdx
    {
      StridesInjective(bd, l, idx, jdx);
    }
    forall offset: nat | offset < Elements(bd) ensures Reached(bd, l, offset) {
      var idx := StridesSurjective(bd, l, offset);
    }
  }

  ghost predicate Reached(bd: BatchDescriptor, l: DataLayout, offset: nat) {
    exists idx: seq<nat> :: Within(idx, DimsIn(bd, l)) && Dot(idx, Strides(bd, l)) == offset
  }
}
