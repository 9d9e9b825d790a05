/** Numeric Go tensors: NewTensor and Value on elements that are blocks of a fixed number of bytes. */
module GoNumeric {
  import opened Base
  import opened Varint
  import opened GoTensor
  import opened TensorShape

  /** The largest buffer that tensorData can view. */
  const MAX_BYTES: nat := 0x4000_0000

  predicate Sized(leaves: seq<Bytes>, size: nat) {
    forall i :: 0 <= i < |leaves| ==> |leaves[i]| == size
  }

  // ----- Bytes and blocks -----

  function Flat(leaves: seq<Bytes>): Bytes {
    if leaves == [] then [] else Flat(leaves[..|leaves| - 1]) + leaves[|leaves| - 1]
  }

  lemma {:induction false} FlatAppend(a: seq<Bytes>, b: seq<Bytes>)
    ensures Flat(a + b) == Flat(a) + Flat(b)
  {
    if b == [] {
      assert a + b == a;
    } else {
      var front, last := b[..|b| - 1], b[|b| - 1];
      FlatAppend(a, front);
      assert (a + b)[..|a + b| - 1] == a + front && (a + b)[|a + b| - 1] == last;
      AppendAssociates(Flat(a), Flat(front), last);
    }
  }

  lemma AppendAssociates(a: Bytes, b: Bytes, c: Bytes)
    ensures (a + b) + c == a + (b + c)
  {
  }

  lemma FlatOne(x: Bytes)
    ensures Flat([x]) == x
  {
    assert [x][..0] == [];
  }

  function Block(data: Bytes, pos: nat, size: nat, i: nat): Bytes
    requires pos + i * size + size <= |data| && i * size >= 0
  {
    data[pos + i * size..pos + i * size + size]
  }

  /** The n blocks of `data` from `pos` on. */
  function Blocks(data: Bytes, pos: nat, size: nat, n: nat): (bs: seq<Bytes>)
    requires n * size >= 0 && pos + n * size <= |data|
    ensures |bs| == n
  {
    seq(n, i requires 0 <= i < n => PartFits(i, n, size); Block(data, pos, size, i))
  }

  lemma {:induction false} FlatLength(leaves: seq<Bytes>, size: nat)
    requires Sized(leaves, size)
    ensures |Flat(leaves)| == |leaves| * size
  {
    if leaves != [] {
      FlatLength(leaves[..|leaves| - 1], size);
      assert |leaves| * size == (|leaves| - 1) * size + size;
    }
  }

  lemma {:induction false} FlatBlock(leaves: seq<Bytes>, size: nat, i: nat)
    requires Sized(leaves, size) && i < |leaves|
    ensures i * size >= 0 && i * size + size <= |Flat(leaves)|
    ensures Block(Flat(leaves), 0, size, i) == leaves[i]
    decreases |leaves|
  {
    var front := leaves[..|leaves| - 1];
    FlatLength(front, size);
    assert |front| * size >= 0;
    if i < |front| {
      FlatBlock(front, size, i);
    }
  }

  /** Blocks written one after another are read back. */
  lemma BlocksOfFlat(leaves: seq<Bytes>, size: nat)
    requires Sized(leaves, size)
    ensures |leaves| * size == |Flat(leaves)|
    ensures Blocks(Flat(leaves), 0, size, |leaves|) == leaves
  {
    FlatLength(leaves, size);
    var blocks := Blocks(Flat(leaves), 0, size, |leaves|);
    forall i | 0 <= i < |leaves| ensures blocks[i] == leaves[i] {
      FlatBlock(leaves, size, i);
    }
  }

  /** The blocks of one element of the outermost slice. */
  lemma BlocksPart(data: Bytes, pos: nat, size: nat, n: nat, p: nat, j: nat)
    requires j < n && n * p >= 0 && n * p * size >= 0 && pos + n * p * size <= |data|
    ensures 0 <= j * p <= j * p + p <= n * p
    ensures 0 <= j * (p * size) && p * size >= 0 && pos + j * (p * size) + p * size <= |data|
    ensures Blocks(data, pos, size, n * p)[j * p..j * p + p] == Blocks(data, pos + j * (p * size), size, p)
  {
    PartFits(j, n, p);
    PartFits(j, n, p * size);
    assert n * p * size == n * (p * size);
    assert (j * p) * size == j * (p * size);
    var part, own := Blocks(data, pos, size, n * p)[j * p..j * p + p], Blocks(data, pos + j * (p * size), size, p);
    forall i | 0 <= i < p ensures part[i] == own[i] {
      PartFits(j * p + i, n * p, size);
      PartFits(i, p, size);
      assert (j * p + i) * size == j * (p * size) + i * size;
    }
  }

  // ----- Writing -----

  class Buffer {
    var bytes: Bytes

    constructor ()
      ensures bytes == []
    {
      bytes := [];
    }
  }

  /** encodeTensor; false is an error. */
  method EncodeTensor(w: Buffer, v: Value<Bytes>, d: nat) returns (ok: bool)
    requires HasDepth(v, d)
    modifies w
    ensures ok <==> EvenEverywhere(v, d)
    ensures ok ==> w.bytes == old(w.bytes) + Flat(Leaves(v))
    decreases d
  {
    if d == 0 {
      FlatOne(v.x);
      w.bytes := w.bytes + v.x;
      return true;
    }
    ok := CheckLengths(v, d);
    if !ok {
      return;
    }
    for i := 0 to |v.elems|
      invariant forall j :: 0 <= j < i ==> EvenEverywhere(v.elems[j], d - 1)
      invariant w.bytes == old(w.bytes) + Flat(LeavesTo(v.elems, i))
    {
      FlatNext(v.elems, i, old(w.bytes));
      ok := EncodeTensor(w, v.elems[i], d - 1);
      if !ok {
        return;
      }
    }
  }

  lemma FlatNext(elems: seq<Value<Bytes>>, i: nat, was: Bytes)
    requires i < |elems|
    ensures was + Flat(LeavesTo(elems, i)) + Flat(Leaves(elems[i])) == was + Flat(LeavesTo(elems, i + 1))
  {
    FlatAppend(LeavesTo(elems, i), Leaves(elems[i]));
    AppendAssociates(was, Flat(LeavesTo(elems, i)), Flat(Leaves(elems[i])));
  }

  // ----- Reading -----

  class Reader {
    const data: Bytes
    var pos: nat

    constructor (data: Bytes)
      ensures this.data == data && pos == 0
    {
      this.data := data;
      pos := 0;
    }
  }

  /** There is room for n blocks from pos on. */
  predicate Room(data: Bytes, pos: nat, size: nat, n: nat) {
    n * size >= 0 && pos + n * size <= |data|
  }

  /** decodeTensor; None is an error. */
  method DecodeTensor(r: Reader, shape: seq<nat>, size: nat) returns (v: Option<Value<Bytes>>)
    requires r.pos <= |r.data|
    modifies r`pos
    ensures v.Some? <==> Room(r.data, old(r.pos), size, Product(shape))
    ensures v.Some? ==> r.pos == old(r.pos) + Product(shape) * size <= |r.data|
    ensures v.Some? ==> v.value == Build(shape, Blocks(r.data, old(r.pos), size, Product(shape)))
    decreases |shape|
  {
    if shape == [] {
      if r.pos + size > |r.data| {
        return None;
      }
      v := Some(Leaf(r.data[r.pos..r.pos + size]));
      assert Block(r.data, r.pos, size, 0) == r.data[r.pos..r.pos + size];
      r.pos := r.pos + size;
      return;
    }
    ghost var p, start := Product(shape[1..]), r.pos;
    var elems: seq<Value<Bytes>> := [];
    for i := 0 to shape[0]
      invariant |elems| == i && i * (p * size) >= 0
      invariant r.pos == start + i * (p * size) <= |r.data|
      invariant forall j :: 0 <= j < i ==> DecodedAt(r.data, start, shape, size, j, elems[j])
    {
      RoomStep(r.data, start, size, shape[0], p, i);
      var e := DecodeTensor(r, shape[1..], size);
      if e.None? {
        return None;
      }
      elems := elems + [e.value];
    }
    v := Some(Slice(elems));
    DecodedAll(r.data, start, shape, size, elems);
  }

  /** The value read for element j. */
  ghost predicate DecodedAt(data: Bytes, start: nat, shape: seq<nat>, size: nat, j: nat, e: Value<Bytes>)
    requires shape != []
  {
    var p := Product(shape[1..]);
    && j * (p * size) >= 0
    && Room(data, start + j * (p * size), size, p)
    && e == Build(shape[1..], Blocks(data, start + j * (p * size), size, p))
  }

  /** All n elements fit only if each does, at its place. */
  lemma RoomStep(data: Bytes, start: nat, size: nat, n: nat, p: nat, i: nat)
    requires i < n && i * (p * size) >= 0
    ensures Room(data, start, size, n * p) ==> Room(data, start + i * (p * size), size, p)
    ensures (i + 1) * (p * size) == i * (p * size) + p * size
  {
    PartFits(i, n, p * size);
    assert n * p * size == n * (p * size);
    assert p * size >= 0;
  }

  lemma DecodedAll(data: Bytes, start: nat, shape: seq<nat>, size: nat, elems: seq<Value<Bytes>>)
    requires shape != [] && |elems| == shape[0]
    requires shape[0] * (Product(shape[1..]) * size) >= 0 && start + shape[0] * (Product(shape[1..]) * size) <= |data|
    requires forall j :: 0 <= j < |elems| ==> DecodedAt(data, start, shape, size, j, elems[j])
    ensures Product(shape) * size == shape[0] * (Product(shape[1..]) * size)
    ensures Room(data, start, size, Product(shape)) && Slice(elems) == Build(shape, Blocks(data, start, size, Product(shape)))
  {
    var n, p := shape[0], Product(shape[1..]);
    MulAssoc(n, p, size);
    var bs := Blocks(data, start, size, n * p);
    forall j | 0 <= j < n ensures elems[j] == Part(shape, bs, j) {
      assert DecodedAt(data, start, shape, size, j, elems[j]);
      DecodedPart(data, start, shape, size, p, bs, j, elems[j]);
    }
    assert Build(shape, bs).elems == elems;
  }

  lemma DecodedPart(data: Bytes, start: nat, shape: seq<nat>, size: nat, p: nat, bs: seq<Bytes>, j: nat, e: Value<Bytes>)
    requires shape != [] && p == Product(shape[1..]) && j < shape[0] && DecodedAt(data, start, shape, size, j, e)
    requires Room(data, start, size, shape[0] * p) && bs == Blocks(data, start, size, shape[0] * p)
    ensures e == Part(shape, bs, j)
  {
    BlocksPart(data, start, size, shape[0], p, j);
  }

  // ----- Tensors -----

  datatype Tensor = Tensor(shape: seq<nat>, bytes: Bytes)

  /** What a call can end in; an abort ends the process. */
  datatype Outcome<T> = Ok(value: T) | Error | Panic | Abort

  /** The number of bytes allocated for a shape, in the arithmetic of uintptr. */
  function ByteCount(shape: seq<nat>, size: nat): nat {
    Product(shape) * size % TWO64
  }

  /** What NewTensor asks of a value: it does not ask that it be rectangular. */
  predicate Accepted(v: Value<Bytes>, d: nat, size: nat)
    requires HasDepth(v, d)
  {
    && EvenEverywhere(v, d) && Representable(FirstPath(v, d))
    && |Leaves(v)| * size == ByteCount(FirstPath(v, d), size) <= MAX_BYTES
  }

  method NewTensor(v: Value<Bytes>, d: nat, size: nat) returns (r: Outcome<Tensor>)
    requires HasDepth(v, d) && Sized(Leaves(v), size)
    ensures r.Ok? <==> Accepted(v, d, size)
    ensures r.Ok? ==> r.value == Tensor(FirstPath(v, d), Flat(Leaves(v)))
    ensures r.Abort? <==> EvenOnPath(v, d) && !Representable(FirstPath(v, d))
    ensures r.Panic? <==>
              EvenOnPath(v, d) && Representable(FirstPath(v, d)) && ByteCount(FirstPath(v, d), size) > MAX_BYTES
  {
    EvenAlsoOnPath(v, d);
    BlocksOfFlat(Leaves(v), size);
    var shape := ShapeOf(v, d);
    if shape.None? {
      return Error;
    }
    var n := NumElements(shape.value);
    MulMod(Product(shape.value), size);
    var nbytes := n * size % TWO64;
    var representable := CheckDims(shape.value);
    if !representable {
      return Abort;
    }
    if nbytes > MAX_BYTES {
      return Panic;
    }
    var buf := new Buffer();
    var ok := EncodeTensor(buf, v, d);
    if !ok {
      return Error;
    }
    if |buf.bytes| != nbytes {
      return Error;
    }
    r := Ok(Tensor(shape.value, buf.bytes));
  }

  method ValueOf(t: Tensor, size: nat) returns (r: Outcome<Value<Bytes>>)
    requires |t.bytes| <= MAX_BYTES
    ensures r == if Room(t.bytes, 0, size, Product(t.shape))
                 then Ok(Build(t.shape, Blocks(t.bytes, 0, size, Product(t.shape)))) else Panic
  {
    var reader := new Reader(t.bytes);
    var v := DecodeTensor(reader, t.shape, size);
    r := if v.Some? then Ok(v.value) else Panic;
  }

  /**
   * The tensor of an accepted value can be read back exactly when the size of its shape does not wrap around.
   * What is read has the shape that was found and the elements of v in the same order; it is v exactly when v
   * has that shape.
   */
  lemma RoundTrip(v: Value<Bytes>, d: nat, size: nat)
    requires HasDepth(v, d) && Sized(Leaves(v), size) && Accepted(v, d, size)
    ensures var shape, bytes := FirstPath(v, d), Flat(Leaves(v));
            && (Room(bytes, 0, size, Product(shape)) <==> Product(shape) * size < TWO64)
            && (Product(shape) * size < TWO64 && size > 0 ==>
                  var w := Build(shape, Blocks(bytes, 0, size, Product(shape)));
                  && HasShape(w, shape)
                  && Leaves(w) == Leaves(v)
                  && (w == v <==> HasShape(v, shape)))
  {
    var shape, n := FirstPath(v, d), Product(FirstPath(v, d));
    BlocksOfFlat(Leaves(v), size);
    SizeWraps(|Leaves(v)|, n, size);
    if n * size < TWO64 && size > 0 {
      Rebuilt(v, shape);
    }
  }

  lemma SizeWraps(count: nat, n: nat, size: nat)
    requires count * size == n * size % TWO64
    ensures 0 <= n * size && (n * size <= count * size <==> n * size < TWO64)
    ensures n * size < TWO64 && size > 0 ==> count == n
  {
    var total := n * size;
    assert total >= 0;
    if total < TWO64 && size > 0 {
      assert count < n ==> count * size < n * size;
      assert n < count ==> n * size < count * size;
    }
  }

  /** A rectangular value that a buffer can hold is accepted exactly if its shape can be represented. */
  lemma RectangularAccepted(v: Value<Bytes>, shape: seq<nat>, size: nat)
    requires HasShape(v, shape) && size > 0 && |Leaves(v)| * size <= MAX_BYTES
    ensures HasDepth(v, |shape|) && HasShape(v, FirstPath(v, |shape|))
    ensures Accepted(v, |shape|, size) <==> Representable(FirstPath(v, |shape|))
  {
    ShapeGivesDepth(v, shape);
    RectangularFound(v, shape);
    var found := FirstPath(v, |shape|);
    BuildOfLeaves(v, found);
    BytesFit(|Leaves(v)|, size, |Leaves(v)| * size);
  }

  lemma BytesFit(count: nat, size: nat, bytes: nat)
    requires bytes == count * size <= MAX_BYTES
    ensures count * size % TWO64 == bytes
  {
  }

  /** And then it comes back, whatever dimensions are empty. */
  lemma RectangularRoundTrip(v: Value<Bytes>, shape: seq<nat>, size: nat)
    requires HasShape(v, shape) && Sized(Leaves(v), size) && size > 0 && |Leaves(v)| * size <= MAX_BYTES
    ensures HasDepth(v, |shape|)
    ensures Accepted(v, |shape|, size) <==> Representable(FirstPath(v, |shape|))
    ensures var found := FirstPath(v, |shape|);
            && Room(Flat(Leaves(v)), 0, size, Product(found))
            && Build(found, Blocks(Flat(Leaves(v)), 0, size, Product(found))) == v
  {
    RectangularAccepted(v, shape, size);
    ReadRectangular(v, FirstPath(v, |shape|), size);
  }

  lemma ReadRectangular(v: Value<Bytes>, shape: seq<nat>, size: nat)
    requires HasShape(v, shape) && Sized(Leaves(v), size)
    ensures Room(Flat(Leaves(v)), 0, size, Product(shape))
    ensures Build(shape, Blocks(Flat(Leaves(v)), 0, size, Product(shape))) == v
  {
    BuildOfLeaves(v, shape);
    BlocksOfFlat(Leaves(v), size);
  }

  /** Three rows of one slice each, of one, no and two elements. */
  function Ragged(a: Byte, b: Byte, c: Byte): Value<Bytes> {
    Slice([Slice([Slice([Leaf([a])])]), Slice([Slice([])]), Slice([Slice([Leaf([b]), Leaf([c])])])])
  }

  lemma RaggedLeaves(a: Byte, b: Byte, c: Byte)
    ensures |Leaves(Ragged(a, b, c))| == 3
  {
    var one, none, two := Slice([Leaf([a])]), Slice([]), Slice([Leaf([b]), Leaf([c])]);
    LeavesOfOne(Leaf([a]));
    LeavesOfOne(one);
    LeavesOfOne<Bytes>(none);
    LeavesOfOne(two);
    assert LeavesTo(two.elems, 1) == [] + [[b]];
    assert LeavesTo(two.elems, 2) == [[b]] + [[c]];
    var rows := Ragged(a, b, c).elems;
    assert LeavesTo(rows, 1) == [] + [[a]];
    assert LeavesTo(rows, 2) == [[a]] + [];
    assert LeavesTo(rows, 3) == [[a]] + Leaves(rows[2]);
  }

  lemma RaggedPath(a: Byte, b: Byte, c: Byte)
    ensures var v := Ragged(a, b, c); HasDepth(v, 3) && EvenEverywhere(v, 3) && FirstPath(v, 3) == [3, 1, 1]
  {
    var one, none, two := Slice([Leaf([a])]), Slice([]), Slice([Leaf([b]), Leaf([c])]);
    assert HasDepth(one, 1) && HasDepth<Bytes>(none, 1) && HasDepth(two, 1);
    var x, y, z := Slice([one]), Slice([none]), Slice([two]);
    assert HasDepth(x, 2) && HasDepth(y, 2) && HasDepth(z, 2);
    assert EvenEverywhere(one, 1) && EvenEverywhere(none, 1) && EvenEverywhere(two, 1);
    assert EvenEverywhere(x, 2) && EvenEverywhere(y, 2) && EvenEverywhere(z, 2);
    assert FirstPath(one, 1) == [1];
    assert FirstPath(x, 2) == [1, 1];
  }

  /** It is accepted, and cannot come back. */
  lemma RaggedAccepted(a: Byte, b: Byte, c: Byte)
    ensures var v := Ragged(a, b, c); HasDepth(v, 3) && Accepted(v, 3, 1) && !HasShape(v, FirstPath(v, 3))
  {
    RaggedPath(a, b, c);
    RaggedLeaves(a, b, c);
    ThreeDims(3, 1, 3);
    assert [1, 1][1..] == [1] && [3, 1, 1][1..] == [1, 1];
    var row := Ragged(a, b, c).elems[1];
    assert !HasShape(row.elems[0], [1]);
    assert !HasShape(row, [1, 1]);
  }

  // ----- A size that wraps around -----

  /** `a` rows of one slice each, of which only the first is not empty: it has `c` elements. */
  function Lopsided(x: Bytes, a: nat, c: nat): (v: Value<Bytes>) {
    Slice(seq(a, i requires 0 <= i < a => Slice([Row(x, if i == 0 then c else 0)])))
  }

  function Row(x: Bytes, c: nat): (v: Value<Bytes>) {
    Slice(seq(c, _ => Leaf(x)))
  }

  lemma {:induction false} RowLeaves(x: Bytes, c: nat, k: nat)
    requires k <= c
    ensures LeavesTo(Row(x, c).elems, k) == seq(k, _ => x)
  {
    if k > 0 {
      RowLeaves(x, c, k - 1);
      assert Leaves(Row(x, c).elems[k - 1]) == [x];
    }
  }

  lemma {:induction false} LopsidedLeavesTo(x: Bytes, a: nat, c: nat, k: nat)
    requires 0 < k <= a
    ensures LeavesTo(Lopsided(x, a, c).elems, k) == seq(c, _ => x)
  {
    var elems, last := Lopsided(x, a, c).elems, if k == 1 then c else 0;
    assert elems[k - 1] == Slice([Row(x, last)]);
    LeavesOfOne(Row(x, last));
    RowLeaves(x, last, last);
    if k == 1 {
      assert LeavesTo(elems, 0) == [];
    } else {
      LopsidedLeavesTo(x, a, c, k - 1);
    }
  }

  lemma LopsidedLeaves(x: Bytes, a: nat, c: nat)
    requires 0 < a
    ensures Leaves(Lopsided(x, a, c)) == seq(c, _ => x)
  {
    LopsidedLeavesTo(x, a, c, a);
  }

  lemma RowPath(x: Bytes, c: nat, d: nat)
    requires d == 1
    ensures HasDepth(Row(x, c), d) && EvenEverywhere(Row(x, c), d) && FirstPath(Row(x, c), d) == [c]
  {
  }

  lemma LopsidedPath(x: Bytes, a: nat, c: nat, d: nat)
    requires 0 < a && d == 3
    ensures var v := Lopsided(x, a, c);
            && HasDepth(v, d) && EvenEverywhere(v, d) && EvenOnPath(v, d)
            && FirstPath(v, d) == [a, 1, c] && FirstPath(v, d)[1..] == [1, c]
  {
    var v := Lopsided(x, a, c);
    forall i | 0 <= i < a
      ensures HasDepth(v.elems[i], d - 1) && EvenEverywhere(v.elems[i], d - 1) && Len(v.elems[i]) == 1
      ensures i == 0 ==> FirstPath(v.elems[i], d - 1) == [1, c]
    {
      RowPath(x, if i == 0 then c else 0, d - 2);
    }
    EvenAlsoOnPath(v, d);
  }

  lemma ThreeDims(a: nat, c: nat, n: nat)
    requires n == a * c
    ensures Product([a, 1, c]) == n
    ensures a < TWO63 && c < TWO63 && n < TWO63 ==> Representable([a, 1, c])
  {
    var shape := [a, 1, c];
    ProductAppend([], a);
    ProductAppend([a], 1);
    ProductAppend([a, 1], c);
    assert [] + [a] == [a] == shape[..1];
    assert [a] + [1] == [a, 1] == shape[..2];
    assert [a, 1] + [c] == shape == shape[..3];
  }

  /** 2^34 + 1 rows, the first with 2^27 elements of 8 bytes: the shape has 2^61 + 2^27 elements, which take 2^30
      bytes in 64 bits. The value is accepted, and its tensor cannot be read. */
  lemma WrappedAccepted(x: Bytes, a: nat, c: nat, size: nat, d: nat)
    requires |x| == size == 8 && d == 3 && a == 0x4_0000_0001 && c == 0x800_0000
    ensures var v := Lopsided(x, a, c);
            && HasDepth(v, d) && Sized(Leaves(v), size) && Accepted(v, d, size)
            && !Room(Flat(Leaves(v)), 0, size, Product(FirstPath(v, d)))
  {
    var v := Lopsided(x, a, c);
    LopsidedLeaves(x, a, c);
    LopsidedPath(x, a, c, d);
    ThreeDims(a, c, a * c);
    RoundTrip(v, d, size);
  }
}
