/** The number of elements of a shape, as TensorShape computes it one dimension at a time. */
module TensorShape {
  import opened Base
  import opened Varint

  const TWO32: nat := 0x1_0000_0000
  const MAX_DIMENSIONS: nat := 254

  lemma DivOfProduct(x: nat, y: nat, xy: nat)
    requires 0 < x && xy == x * y
    ensures xy / x == y
  {
    var q, r := xy / x, xy % x;
    assert xy == x * q + r;
    Cancel(x, y - q, r);
  }

  lemma Cancel(x: nat, d: int, r: nat)
    requires r < x && x * d == r
    ensures d == 0
  {
    assert d > 0 ==> x * d >= x;
    assert d < 0 ==> x * d + x <= 0;
  }

  lemma SmallProduct(x: nat, y: nat)
    requires x < TWO32 && y < TWO32
    ensures x * y < TWO64
  {
    MulMonotone(x, TWO32, y);
  }

  lemma MulMonotone(x: nat, bound: nat, y: nat)
    requires x <= bound
    ensures x * y <= bound * y
  {
  }

  /** The check by division sees that the product did not fit 64 bits. */
  lemma QuotientTells(x: nat, y: nat, xy: nat, low: nat)
    requires 0 < x && xy == x * y && low == xy % TWO64
    ensures low / x == y <==> xy < TWO64
  {
    assert low == x * (low / x) + low % x;
    if xy < TWO64 {
      DivOfProduct(x, y, xy);
    }
  }

  /** Small factors are not checked; others are, by a division. */
  predicate SeenToOverflow(x: nat, y: nat, low: nat) {
    (TWO32 <= x || TWO32 <= y) && x != 0 && low / x != y
  }

  lemma OverflowSeen(x: nat, y: nat, xy: nat)
    requires xy == x * y
    ensures SeenToOverflow(x, y, xy % TWO64) <==> TWO64 <= xy
  {
    if 0 < x {
      QuotientTells(x, y, xy, xy % TWO64);
    }
    if x < TWO32 && y < TWO32 {
      SmallProduct(x, y);
    }
  }

  /** The cast to int64 of the low 64 bits, or -1. */
  function ToSigned(low: nat, overflow: bool): (r: int)
    requires low < TWO64
    ensures 0 <= r <==> !overflow && low < TWO63
    ensures 0 <= r ==> r == low
  {
    if overflow then -1 else if low < TWO63 then low else low - TWO64
  }

  /** The product, or a negative number if it does not fit an int64. */
  function MultiplyWithoutOverflow(x: nat, y: nat): (r: int)
    requires x < TWO63 && y < TWO63
    ensures 0 <= r <==> x * y < TWO63
    ensures 0 <= r ==> r == x * y
  {
    var xy: nat := x * y;
    OverflowSeen(x, y, xy);
    ToSigned(xy % TWO64, SeenToOverflow(x, y, xy % TWO64))
  }

  /** No prefix of the dimensions has too many elements, even if a later dimension is empty. */
  predicate Representable(shape: seq<nat>) {
    && |shape| <= MAX_DIMENSIONS
    && (forall i :: 0 <= i < |shape| ==> shape[i] < TWO63)
    && (forall k :: 0 <= k <= |shape| ==> Product(shape[..k]) < TWO63)
  }

  lemma {:induction false} ProductAppend(dims: seq<nat>, d: nat)
    ensures Product(dims + [d]) == Product(dims) * d
  {
    if dims == [] {
      assert [d][1..] == [];
    } else {
      ProductAppend(dims[1..], d);
      assert (dims + [d])[1..] == dims[1..] + [d];
      MulAssociates(dims[0], Product(dims[1..]), d);
    }
  }

  lemma MulAssociates(a: nat, b: nat, c: nat)
    ensures a * (b * c) == a * b * c
  {
  }

  /** TensorShape on a list of dimensions: AddDim for each. The process aborts if a check fails. */
  method CheckDims(shape: seq<nat>) returns (ok: bool)
    ensures ok <==> Representable(shape)
  {
    var n: nat := 1;
    for i := 0 to |shape|
      invariant i <= MAX_DIMENSIONS && n == Product(shape[..i]) < TWO63
      invariant forall j :: 0 <= j < i ==> shape[j] < TWO63
      invariant forall k :: 0 <= k <= i ==> Product(shape[..k]) < TWO63
    {
      if shape[i] >= TWO63 || i >= MAX_DIMENSIONS {
        return false;
      }
      ProductAppend(shape[..i], shape[i]);
      assert shape[..i + 1] == shape[..i] + [shape[i]];
      var more := MultiplyWithoutOverflow(n, shape[i]);
      if more < 0 {
        assert Product(shape[..i + 1]) >= TWO63;
        return false;
      }
      n := more;
    }
    ok := true;
  }

  /** A shape without elements can be refused. */
  lemma EmptyRefused()
    ensures Product([TWO32, TWO32, 0]) == 0 && !Representable([TWO32, TWO32, 0])
  {
    var shape: seq<nat> := [TWO32, TWO32, 0];
    ProductAppend([], TWO32);
    ProductAppend([TWO32], TWO32);
    ProductAppend([TWO32, TWO32], 0);
    assert [] + [TWO32] == [TWO32];
    assert [TWO32] + [TWO32] == [TWO32, TWO32] == shape[..2];
    assert [TWO32, TWO32] + [0] == shape;
  }
}
