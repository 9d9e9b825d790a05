/** List attributes of an operation: the sizes that are reported, and the getters that fill a caller's storage. */
module AttrLists {
  import opened Varint

  type Bytes = seq<Byte>

  /** The space that the first k values take. */
  function TotalTo<T>(values: seq<seq<T>>, k: nat): nat
    requires k <= |values|
  {
    if k == 0 then 0 else TotalTo(values, k - 1) + |values[k - 1]|
  }

  lemma {:induction false} TotalMono<T>(values: seq<seq<T>>, i: nat, k: nat)
    requires i <= k <= |values|
    ensures TotalTo(values, i) <= TotalTo(values, k)
    decreases k
  {
    if i < k {
      TotalMono(values, i, k - 1);
    }
  }

  /** Value i is in the storage, right after the values before it. */
  ghost predicate Region<T>(storage: seq<T>, starts: seq<nat>, values: seq<seq<T>>, i: nat)
    requires i < |starts| && i < |values|
  {
    && starts[i] == TotalTo(values, i)
    && starts[i] + |values[i]| <= |storage|
    && storage[starts[i]..starts[i] + |values[i]|] == values[i]
  }

  ghost predicate Filled<T>(storage: seq<T>, starts: seq<nat>, values: seq<seq<T>>, k: nat) {
    k <= |values| && |starts| == k &&
    forall i: nat {:trigger Region(storage, starts, values, i)} :: i < k ==> Region(storage, starts, values, i)
  }

  /** Distinct regions do not overlap, and follow each other without gaps. */
  lemma RegionsDisjoint<T>(storage: seq<T>, starts: seq<nat>, values: seq<seq<T>>, k: nat, i: nat, j: nat)
    requires Filled(storage, starts, values, k) && i < j < k
    ensures starts[i] + |values[i]| <= starts[j]
    ensures j == i + 1 ==> starts[j] == starts[i] + |values[i]|
  {
    assert Region(storage, starts, values, i) && Region(storage, starts, values, j);
    TotalMono(values, i + 1, j);
  }

  lemma RegionStays<T>(was: seq<T>, now: seq<T>, starts: seq<nat>, values: seq<seq<T>>, i: nat, k: nat)
    requires i < k < |values| && i < |starts| && Region(was, starts, values, i)
    requires TotalTo(values, k) + |values[k]| <= |was| && now == Overwrite(was, TotalTo(values, k), values[k])
    ensures Region(now, starts, values, i)
  {
    TotalMono(values, i + 1, k);
    OverwriteElsewhere(was, TotalTo(values, k), values[k], starts[i], starts[i] + |values[i]|);
  }

  /** A value copied after the regions filled so far is one more of them. */
  lemma FilledNext<T>(was: seq<T>, now: seq<T>, starts: seq<nat>, values: seq<seq<T>>, k: nat, p: nat)
    requires k < |values| && Filled(was, starts, values, k) && p == TotalTo(values, k) && p + |values[k]| <= |was|
    requires now == Overwrite(was, p, values[k])
    ensures Filled(now, starts + [p], values, k + 1)
  {
    forall i: nat | i < k + 1 ensures Region(now, starts + [p], values, i) {
      if i < k {
        assert Region(was, starts, values, i);
        RegionStays(was, now, starts, values, i, k);
        assert Region(now, starts, values, i);
      }
    }
  }

  function Count(size: nat, maxValues: int): (n: nat)
    ensures n <= size
  {
    if maxValues < 0 then 0 else if maxValues < size then maxValues else size
  }

  datatype Metadata = Metadata(listSize: int, totalSize: int)

  // ----- Strings -----

  /** The part of TF_OperationGetAttrMetadata for lists of strings. */
  method StringListMetadata(strings: seq<Bytes>) returns (m: Metadata)
    ensures m == Metadata(|strings|, if strings == [] then -1 else TotalTo(strings, |strings|))
  {
    m := Metadata(0, -1);
    if |strings| > 0 {
      var total := 0;
      for i := 0 to |strings|
        invariant total == TotalTo(strings, i)
      {
        total := total + |strings[i]|;
      }
      m := Metadata(|strings|, total);
    }
  }

  /** TF_OperationGetAttrStringList; pointers into the storage are given as indices. */
  method GetStringList(strings: seq<Bytes>, maxValues: int, storage: array<Byte>, storageSize: nat)
    returns (ok: bool, values: seq<nat>, lengths: seq<nat>)
    requires storageSize <= storage.Length
    modifies storage
    ensures var n := Count(|strings|, maxValues);
            && (ok <==> TotalTo(strings, n) <= storageSize)
            && (ok ==> Filled(storage[..], values, strings, n) && |lengths| == n)
            && (ok ==> forall i :: 0 <= i < n ==> lengths[i] == |strings[i]|)
  {
    var n := Count(|strings|, maxValues);
    values, lengths := [], [];
    var p := 0;
    for i := 0 to n
      invariant p == TotalTo(strings, i) <= storageSize
      invariant Filled(storage[..], values, strings, i) && |lengths| == i
      invariant forall j :: 0 <= j < i ==> lengths[j] == |strings[j]|
    {
      TotalMono(strings, i + 1, n);
      ghost var was := storage[..];
      values := values + [p];
      lengths := lengths + [|strings[i]|];
      if p + |strings[i]| > storageSize {
        return false, values, lengths;
      }
      Copy(storage, p, strings[i]);
      FilledNext(was, storage[..], values[..i], strings, i, p);
      assert values[..i] + [p] == values;
      p := p + |strings[i]|;
    }
    ok := true;
  }

  /** With the sizes that are reported, the getter does not fail, and the regions give the list back. */
  method ReadStringList(strings: seq<Bytes>) returns (copy: seq<Bytes>)
    ensures copy == strings
  {
    var m := StringListMetadata(strings);
    var size: nat := if m.totalSize < 0 then 0 else m.totalSize;
    var storage := new Byte[size];
    var ok, values, lengths := GetStringList(strings, m.listSize, storage, size);
    assert ok;
    copy := [];
    for i := 0 to |strings|
      invariant |copy| == i && forall j :: 0 <= j < i ==> copy[j] == strings[j]
    {
      assert Region(storage[..], values, strings, i);
      copy := copy + [storage[values[i]..values[i] + lengths[i]]];
    }
  }

  // ----- Shapes -----

  datatype PartialShape = UnknownRank | Dims(dims: seq<int>)

  /** The dimensions to be stored: none for a shape of unknown rank. */
  function DimsOf(shape: PartialShape): seq<int> {
    if shape.UnknownRank? then [] else shape.dims
  }

  function AllDims(shapes: seq<PartialShape>): (r: seq<seq<int>>)
    ensures |r| == |shapes| && forall i :: 0 <= i < |r| ==> r[i] == DimsOf(shapes[i])
  {
    seq(|shapes|, i requires 0 <= i < |shapes| => DimsOf(shapes[i]))
  }

  function Rank(shape: PartialShape): int {
    if shape.UnknownRank? then -1 else |shape.dims|
  }

  /** The part of TF_OperationGetAttrMetadata for lists of shapes. */
  method ShapeListMetadata(shapes: seq<PartialShape>) returns (m: Metadata)
    ensures m == Metadata(|shapes|, if shapes == [] then -1 else TotalTo(AllDims(shapes), |shapes|))
  {
    m := Metadata(0, -1);
    if |shapes| > 0 {
      var total := 0;
      for i := 0 to |shapes|
        invariant total == TotalTo(AllDims(shapes), i)
      {
        total := total + if shapes[i].UnknownRank? then 0 else |shapes[i].dims|;
      }
      m := Metadata(|shapes|, total);
    }
  }

  predicate AllUnknown(shapes: seq<PartialShape>, k: nat)
    requires k <= |shapes|
  {
    k == 0 || (shapes[k - 1].UnknownRank? && AllUnknown(shapes, k - 1))
  }

  lemma {:induction false} UnknownMono(shapes: seq<PartialShape>, i: nat, k: nat)
    requires i <= k <= |shapes|
    ensures AllUnknown(shapes, k) ==> AllUnknown(shapes, i)
    decreases k
  {
    if i < k {
      UnknownMono(shapes, i, k - 1);
    }
  }

  function Ranks(shapes: seq<PartialShape>, k: nat): (r: seq<int>)
    requires k <= |shapes|
    ensures |r| == k && forall i :: 0 <= i < k ==> r[i] == Rank(shapes[i])
  {
    if k == 0 then [] else Ranks(shapes, k - 1) + [Rank(shapes[k - 1])]
  }

  /** There is room for the first k shapes; with less than no room, only for those of unknown rank. */
  predicate Room(shapes: seq<PartialShape>, k: nat, storageSize: int)
    requires k <= |shapes|
  {
    TotalTo(AllDims(shapes), k) <= storageSize || AllUnknown(shapes, k)
  }

  lemma RoomMono(shapes: seq<PartialShape>, i: nat, k: nat, storageSize: int)
    requires i <= k <= |shapes|
    ensures Room(shapes, k, storageSize) ==> Room(shapes, i, storageSize)
  {
    TotalMono(AllDims(shapes), i, k);
    UnknownMono(shapes, i, k);
  }

  /** TF_OperationGetAttrShapeList. */
  method GetShapeList(shapes: seq<PartialShape>, maxValues: int, storage: array<int>, storageSize: int)
    returns (ok: bool, values: seq<nat>, numDims: seq<int>)
    requires storageSize <= storage.Length
    modifies storage
    ensures var n := Count(|shapes|, maxValues);
            && (ok <==> Room(shapes, n, storageSize))
            && (ok ==> Filled(storage[..], values, AllDims(shapes), n) && numDims == Ranks(shapes, n))
  {
    var n := Count(|shapes|, maxValues);
    values, numDims := [], [];
    var p: nat, storageLeft := 0, storageSize;
    for i := 0 to n
      invariant p == TotalTo(AllDims(shapes), i) <= storage.Length && storageLeft == storageSize - p
      invariant Room(shapes, i, storageSize)
      invariant Filled(storage[..], values, AllDims(shapes), i) && numDims == Ranks(shapes, i)
    {
      RoomMono(shapes, i + 1, n, storageSize);
      RoomNext(shapes, i, p, storageSize);
      numDims := numDims + [Rank(shapes[i])];
      if !shapes[i].UnknownRank? && storageLeft < |shapes[i].dims| {
        values := values + [p];
        return false, values, numDims;
      }
      StoreDims(shapes, i, p, storage, values);
      values := values + [p];
      if !shapes[i].UnknownRank? {
        storageLeft := storageLeft - |shapes[i].dims|;
        p := p + |shapes[i].dims|;
      }
    }
    ok := true;
  }

  /** The inner loop of the getter, which does not run for a shape of unknown rank. */
  method StoreDims(shapes: seq<PartialShape>, i: nat, p: nat, storage: array<int>, ghost values: seq<nat>)
    requires i < |shapes| && p == TotalTo(AllDims(shapes), i) && p + |DimsOf(shapes[i])| <= storage.Length
    requires Filled(storage[..], values, AllDims(shapes), i)
    modifies storage
    ensures Filled(storage[..], values + [p], AllDims(shapes), i + 1)
  {
    ghost var was := storage[..];
    Copy(storage, p, DimsOf(shapes[i]));
    FilledNext(was, storage[..], values, AllDims(shapes), i, p);
  }

  lemma RoomNext(shapes: seq<PartialShape>, i: nat, p: nat, storageSize: int)
    requires i < |shapes| && p == TotalTo(AllDims(shapes), i) && Room(shapes, i, storageSize)
    ensures TotalTo(AllDims(shapes), i + 1) == p + |DimsOf(shapes[i])|
    ensures Room(shapes, i + 1, storageSize) <==> shapes[i].UnknownRank? || p + |shapes[i].dims| <= storageSize
  {
  }

  /** With the sizes that are reported, the getter does not fail, and gives the shapes back, unknown ranks included. */
  method ReadShapeList(shapes: seq<PartialShape>) returns (copy: seq<PartialShape>)
    ensures copy == shapes
  {
    var m := ShapeListMetadata(shapes);
    var storage := new int[if m.totalSize < 0 then 0 else m.totalSize];
    var ok, values, numDims := GetShapeList(shapes, m.listSize, storage, m.totalSize);
    assert ok;
    var contents := storage[..];
    copy := [];
    for i := 0 to |shapes|
      invariant |copy| == i && forall j :: 0 <= j < i ==> copy[j] == shapes[j]
    {
      ShapeBack(shapes, contents, values, i);
      var shape := if numDims[i] < 0 then UnknownRank else Dims(contents[values[i]..values[i] + numDims[i]]);
      copy := copy + [shape];
    }
  }

  lemma ShapeBack(shapes: seq<PartialShape>, storage: seq<int>, values: seq<nat>, i: nat)
    requires i < |shapes| && Filled(storage, values, AllDims(shapes), |shapes|)
    ensures !shapes[i].UnknownRank? ==>
              values[i] + Rank(shapes[i]) <= |storage| && shapes[i] == Dims(storage[values[i]..values[i] + Rank(shapes[i])])
  {
    assert Region(storage, values, AllDims(shapes), i);
  }
}
