/** String Go tensors: the second implementation of the TF_STRING format, on nested values. */
module GoStrings {
  import opened Base
  import opened Varint
  import opened GoTensor
  import opened GoNumeric
  import opened TensorShape
  import ST = StringTensor

  // ----- Sizes -----

  lemma {:induction false} SizeOfPrefix(a: seq<Bytes>, b: seq<Bytes>, k: nat)
    requires k <= |a|
    ensures ST.SizeTo(a + b, k) == ST.SizeTo(a, k)
  {
    if k > 0 {
      SizeOfPrefix(a, b, k - 1);
    }
  }

  lemma {:induction false} SizeAppend(a: seq<Bytes>, b: seq<Bytes>, j: nat)
    requires j <= |b|
    ensures ST.SizeTo(a + b, |a| + j) == ST.Size(a) + ST.SizeTo(b, j)
  {
    if j == 0 {
      SizeOfPrefix(a, b, |a|);
    } else {
      SizeAppend(a, b, j - 1);
    }
  }

  lemma SizeStep(elems: seq<Value<Bytes>>, i: nat)
    requires i < |elems|
    ensures ST.Size(LeavesTo(elems, i + 1)) == ST.Size(LeavesTo(elems, i)) + ST.Size(Leaves(elems[i]))
    ensures ST.Size(LeavesTo(elems, i + 1)) <= ST.Size(LeavesTo(elems, |elems|))
  {
    SizeAppend(LeavesTo(elems, i), Leaves(elems[i]), |Leaves(elems[i])|);
    LeavesPrefix(elems, i + 1, |elems|);
    var part, all := LeavesTo(elems, i + 1), LeavesTo(elems, |elems|);
    SizeAppend(part, all[|part|..], |all| - |part|);
    assert part + all[|part|..] == all;
  }

  lemma SizeOfOne(s: Bytes)
    ensures ST.Size([s]) == |ST.EncodeString(s)|
  {
    assert ST.SizeTo([s], 1) == ST.SizeTo([s], 0) + |ST.EncodeString([s][0])|;
  }

  /** byteSizeOfEncodedStrings. */
  method ByteSize(v: Value<Bytes>) returns (size: nat)
    requires ST.Size(Leaves(v)) < TWO64
    ensures size == ST.Size(Leaves(v))
    decreases v
  {
    match v
    case Leaf(s) =>
      SizeOfOne(s);
      size := ST.EncodedSize(|s|);
    case Slice(elems) =>
      size := 0;
      for i := 0 to |elems|
        invariant size == ST.Size(LeavesTo(elems, i))
      {
        SizeStep(elems, i);
        var more := ByteSize(elems[i]);
        size := (size + more) % TWO64;
      }
  }

  lemma {:induction false} LeavesPrefix<T>(elems: seq<Value<T>>, i: nat, k: nat)
    requires i <= k <= |elems|
    ensures LeavesTo(elems, i) <= LeavesTo(elems, k)
    decreases k
  {
    if i < k {
      LeavesPrefix(elems, i, k - 1);
    }
  }

  // ----- Places in a sequence -----

  ghost predicate PartOf<T>(part: seq<T>, ss: seq<T>, k: nat) {
    k + |part| <= |ss| && forall j :: 0 <= j < |part| ==> part[j] == ss[k + j]
  }

  lemma PartOfPart<T>(a: seq<T>, b: seq<T>, ss: seq<T>, j: nat, k: nat)
    requires PartOf(a, b, j) && PartOf(b, ss, k)
    ensures PartOf(a, ss, k + j)
  {
    forall i | 0 <= i < |a| ensures a[i] == ss[k + j + i] {
      assert b[j + i] == ss[k + (j + i)];
    }
  }

  /** The elements of each value are together, after those of the values before it. */
  lemma {:induction false} LeavesAt<T>(elems: seq<Value<T>>, i: nat, k: nat)
    requires i < k <= |elems|
    ensures PartOf(Leaves(elems[i]), LeavesTo(elems, k), |LeavesTo(elems, i)|)
    decreases k
  {
    if i < k - 1 {
      LeavesAt(elems, i, k - 1);
    }
  }

  // ----- Writing -----

  /** The table is written through a buffer over the start of raw, which moves away if it outgrows raw. */
  class StringEncoder {
    const raw: array<Byte>
    const table: nat
    var offsetsLen: nat
    var attached: bool
    var offset: nat

    constructor (raw: array<Byte>, table: nat)
      ensures this.raw == raw && this.table == table && offsetsLen == 0 && attached && offset == 0
    {
      this.raw, this.table, offsetsLen, attached, offset := raw, table, 0, true, 0;
    }

    /** The first k of the strings ss have been written; if the table has room for just all of ss, in their places. */
    ghost predicate Wrote(ss: seq<Bytes>, k: nat)
      reads this, raw
    {
      && k <= |ss| && ST.Fits(ss)
      && raw.Length == table + ST.Size(ss)
      && offsetsLen == 8 * k
      && offset == ST.SizeTo(ss, k)
      && (table == 8 * |ss| ==> attached && ST.Placed(raw[..], ss, k))
    }

    method WriteOffset()
      requires offset < TWO64
      modifies this, raw
      ensures offsetsLen == old(offsetsLen) + 8 && offset == old(offset)
      ensures old(attached) && old(offsetsLen) + 8 <= raw.Length ==>
                attached && raw[..] == Overwrite(old(raw[..]), old(offsetsLen), Fixed64(offset))
    {
      if attached && offsetsLen + 8 <= raw.Length {
        ST.StoreFixed64(raw, offsetsLen, offset);
      } else {
        attached := false;
      }
      offsetsLen := offsetsLen + 8;
    }

    method WriteString(s: Bytes)
      requires offset + |ST.EncodeString(s)| < TWO64 && table + offset + |ST.EncodeString(s)| <= raw.Length
      modifies `offset, raw
      ensures offset == old(offset) + |ST.EncodeString(s)|
      ensures raw[..] == Overwrite(old(raw[..]), table + old(offset), ST.EncodeString(s))
    {
      EncodeIsVarint(|s|);
      assert table + offset < raw.Length;
      var consumed := ST.StringEncode(s, raw, table + offset, raw.Length - table - offset);
      offset := offset + consumed.value;
    }

    /** One string: its offset, and then itself. */
    method WriteOne(s: Bytes)
      requires offset + |ST.EncodeString(s)| < TWO64 && table + offset + |ST.EncodeString(s)| <= raw.Length
      modifies this, raw
      ensures offsetsLen == old(offsetsLen) + 8 && offset == old(offset) + |ST.EncodeString(s)|
      ensures old(attached) && old(offsetsLen) + 8 <= raw.Length ==>
                attached && raw[..] == Overwrite(Overwrite(old(raw[..]), old(offsetsLen), Fixed64(old(offset))),
                                                 table + old(offset), ST.EncodeString(s))
    {
      WriteOffset();
      WriteString(s);
    }

    method EncodeOne(s: Bytes, ghost ss: seq<Bytes>, ghost k: nat)
      requires Wrote(ss, k) && k < |ss| && ss[k] == s
      modifies this, raw
      ensures Wrote(ss, k + 1)
    {
      ghost var was := raw[..];
      ST.SizeBound(ss, k);
      WriteOne(s);
      if table == 8 * |ss| {
        ST.PlacedNext(was, Overwrite(was, 8 * k, Fixed64(ST.SizeTo(ss, k))), raw[..], ss, k);
      }
    }

    /** encode: there is always room for the next string. */
    method Encode(v: Value<Bytes>, ghost ss: seq<Bytes>, ghost k: nat)
      requires Wrote(ss, k) && PartOf(Leaves(v), ss, k)
      modifies this, raw
      ensures Wrote(ss, k + |Leaves(v)|)
      decreases v
    {
      match v
      case Leaf(s) =>
        assert Leaves(v)[0] == ss[k + 0];
        EncodeOne(s, ss, k);
      case Slice(elems) =>
        for i := 0 to |elems|
          invariant Wrote(ss, k + |LeavesTo(elems, i)|)
        {
          LeavesAt(elems, i, |elems|);
          PartOfPart(Leaves(elems[i]), Leaves(v), ss, |LeavesTo(elems, i)|, k);
          Encode(elems[i], ss, k + |LeavesTo(elems, i)|);
        }
    }
  }

  /** What NewTensor asks of a nested value of strings. */
  predicate AcceptedStrings(v: Value<Bytes>, d: nat)
    requires HasDepth(v, d)
  {
    && EvenOnPath(v, d) && Representable(FirstPath(v, d))
    && 8 * |Leaves(v)| == ByteCount(FirstPath(v, d), 8)
    && 8 * |Leaves(v)| + ST.Size(Leaves(v)) <= MAX_BYTES
  }

  /** The bytes after the encoder is done: with a table of the right length, those of the format. */
  method WriteStrings(v: Value<Bytes>, raw: array<Byte>, table: nat) returns (offsetsLen: nat)
    requires ST.Fits(Leaves(v)) && raw.Length == table + ST.Size(Leaves(v))
    modifies raw
    ensures offsetsLen == 8 * |Leaves(v)|
    ensures table == 8 * |Leaves(v)| ==> raw[..] == ST.Encoded(Leaves(v))
  {
    ghost var ss := Leaves(v);
    var e := new StringEncoder(raw, table);
    e.Encode(v, ss, 0);
    offsetsLen := e.offsetsLen;
    if table == 8 * |ss| {
      ST.PlacedIsEncoded(raw[..], ss);
    }
  }

  /** The two checks together see whether the sum is too large, even if it wraps around. */
  lemma SumSeen(table: nat, size: nat, nbytes: nat)
    requires table < TWO64 && size < TWO64 && nbytes == (table + size) % TWO64
    ensures nbytes > MAX_BYTES || table > nbytes <==> table + size > MAX_BYTES
    ensures table <= nbytes ==> nbytes == table + size
  {
  }

  /** NewTensor on strings: the bytes are those that TF_Tensor_EncodeStrings writes for the elements in row-major order. */
  method NewStringTensor(v: Value<Bytes>, d: nat) returns (r: Outcome<Tensor>)
    requires HasDepth(v, d) && ST.Fits(Leaves(v))
    ensures r.Ok? <==> AcceptedStrings(v, d)
    ensures r.Ok? ==> r.value == Tensor(FirstPath(v, d), ST.Encoded(Leaves(v)))
    ensures r.Abort? <==> EvenOnPath(v, d) && !Representable(FirstPath(v, d))
    ensures r.Panic? <==>
              && EvenOnPath(v, d) && Representable(FirstPath(v, d))
              && ByteCount(FirstPath(v, d), 8) + ST.Size(Leaves(v)) > MAX_BYTES
  {
    var shape := ShapeOf(v, d);
    if shape.None? {
      return Error;
    }
    var n := NumElements(shape.value);
    MulMod(Product(shape.value), 8);
    var table := n * 8 % TWO64;
    var size := ByteSize(v);
    var nbytes := (table + size) % TWO64;
    SumSeen(table, size, nbytes);
    var representable := CheckDims(shape.value);
    if !representable {
      return Abort;
    }
    if nbytes > MAX_BYTES {
      return Panic;
    }
    if table > nbytes {
      return Panic;
    }
    var raw := new Byte[nbytes];
    var offsetsLen := WriteStrings(v, raw, table);
    if offsetsLen != table {
      return Error;
    }
    r := Ok(Tensor(shape.value, raw[..]));
  }

  // ----- Reading -----

  /** What the Go decoder makes of element i of n in buf; None is a panic or a read outside of buf. */
  ghost function GoElementAt(buf: Bytes, n: nat, i: nat): Option<Bytes>
    requires 8 * n <= |buf| && i < n
  {
    var offset := FromFixed(buf[8 * i..8 * i + 8]);
    if offset >= |buf| - 8 * n then None
    else match ST.StringAt(buf[8 * n + offset..])
         case Good(s) => Some(s)
         case _ => None
  }

  /** The elements from k to m, if all can be read. */
  ghost function Taken(es: seq<Option<Bytes>>, k: nat, m: nat): Option<seq<Bytes>>
    decreases m
  {
    if m <= k then Some([])
    else if m > |es| || es[m - 1].None? || Taken(es, k, m - 1).None? then None
    else Some(Taken(es, k, m - 1).value + [es[m - 1].value])
  }

  lemma {:induction false} TakenSplit(es: seq<Option<Bytes>>, k: nat, mid: nat, m: nat)
    requires k <= mid <= m
    ensures var a, b, all := Taken(es, k, mid), Taken(es, mid, m), Taken(es, k, m);
            && (all.Some? <==> a.Some? && b.Some?)
            && (all.Some? ==> all.value == a.value + b.value && |a.value| == mid - k && |b.value| == m - mid)
    decreases m
  {
    if mid < m {
      TakenSplit(es, k, mid, m - 1);
      var a, b := Taken(es, k, mid), Taken(es, mid, m - 1);
      if a.Some? && b.Some? && m <= |es| && es[m - 1].Some? {
        JoinAssociates(a.value, b.value, [es[m - 1].value]);
      }
    } else {
      TakenLength(es, k, mid);
    }
  }

  lemma JoinAssociates(a: seq<Bytes>, b: seq<Bytes>, c: seq<Bytes>)
    ensures (a + b) + c == a + (b + c)
  {
  }

  lemma {:induction false} TakenLength(es: seq<Option<Bytes>>, k: nat, m: nat)
    requires k <= m
    ensures Taken(es, k, m).Some? ==> |Taken(es, k, m).value| == m - k
    decreases m
  {
    if k < m {
      TakenLength(es, k, m - 1);
    }
  }

  class StringDecoder {
    const buf: Bytes
    const n: nat
    var next: nat

    constructor (buf: Bytes, n: nat)
      ensures this.buf == buf && this.n == n && next == 0
    {
      this.buf, this.n, next := buf, n, 0;
    }

    method DecodeOne() returns (s: Option<Bytes>)
      requires 8 * n <= |buf|
      modifies `next
      ensures s == if old(next) < n then GoElementAt(buf, n, old(next)) else None
      ensures s.Some? ==> next == old(next) + 1
    {
      if next >= n {
        return None;
      }
      var offset := FromFixed(buf[8 * next..8 * next + 8]);
      if offset >= |buf| - 8 * n {
        return None;
      }
      var src := buf[8 * n + offset..];
      var p := ST.StringDecode(src);
      if p.None? || p.value.0 + p.value.1 > |src| {
        return None;
      }
      s := Some(src[p.value.0..p.value.0 + p.value.1]);
      next := next + 1;
    }

    /** decode. */
    method Decode(shape: seq<nat>, ghost es: seq<Option<Bytes>>) returns (v: Option<Value<Bytes>>)
      requires 8 * n <= |buf| && IsElements(buf, n, es)
      modifies `next
      ensures v.Some? <==> Taken(es, old(next), old(next) + Product(shape)).Some?
      ensures v.Some? ==> next == old(next) + Product(shape)
      ensures v.Some? ==> Rebuilds(shape, Taken(es, old(next), old(next) + Product(shape)).value, v.value)
      decreases |shape|, 1
    {
      if shape == [] {
        assert next < n ==> IsElement(buf, n, next, es[next]);
        TakenOne(es, next);
        var s := DecodeOne();
        v := if s.None? then None else Some(Leaf(s.value));
      } else {
        v := DecodeSlice(shape, es);
      }
    }

    method DecodeSlice(shape: seq<nat>, ghost es: seq<Option<Bytes>>) returns (v: Option<Value<Bytes>>)
      requires shape != [] && 8 * n <= |buf| && IsElements(buf, n, es)
      modifies `next
      ensures v.Some? <==> Taken(es, old(next), old(next) + Product(shape)).Some?
      ensures v.Some? ==> next == old(next) + Product(shape)
      ensures v.Some? ==> Rebuilds(shape, Taken(es, old(next), old(next) + Product(shape)).value, v.value)
      decreases |shape|, 0
    {
      ghost var start: nat, m: nat := next, 0;
      var elems: seq<Value<Bytes>> := [];
      ProgressStart(es, start, shape);
      for i := 0 to shape[0]
        invariant |elems| == i && next == start + m
        invariant Progress(es, start, shape, elems, m)
      {
        var e := Decode(shape[1..], es);
        if e.None? {
          ProgressStuck(es, start, shape, elems, m);
          return None;
        }
        ProgressNext(es, start, shape, elems, m, e.value);
        m := m + Product(shape[1..]);
        elems := elems + [e.value];
      }
      v := Some(Slice(elems));
      ProgressDone(es, start, shape, elems, m);
    }
  }

  ghost predicate IsElements(buf: Bytes, n: nat, es: seq<Option<Bytes>>)
    requires 8 * n <= |buf|
  {
    |es| == n && forall i: nat {:trigger IsElement(buf, n, i, es[i])} :: i < n ==> IsElement(buf, n, i, es[i])
  }

  ghost predicate IsElement(buf: Bytes, n: nat, i: nat, e: Option<Bytes>)
    requires 8 * n <= |buf| && i < n
  {
    e == GoElementAt(buf, n, i)
  }

  /** The first values of a slice have been read from the m elements that they take. */
  ghost predicate Progress(es: seq<Option<Bytes>>, start: nat, shape: seq<nat>, elems: seq<Value<Bytes>>, m: nat)
    requires shape != []
  {
    && m == |elems| * Product(shape[1..])
    && Taken(es, start, start + m).Some?
    && AllParts(shape, Taken(es, start, start + m).value, elems)
  }

  ghost predicate AllParts(shape: seq<nat>, leaves: seq<Bytes>, elems: seq<Value<Bytes>>)
    requires shape != []
  {
    forall j :: 0 <= j < |elems| ==> RebuildsPart(shape, leaves, j, elems[j])
  }

  lemma ProgressNext(es: seq<Option<Bytes>>, start: nat, shape: seq<nat>, elems: seq<Value<Bytes>>, m: nat, e: Value<Bytes>)
    requires shape != [] && Progress(es, start, shape, elems, m)
    requires var more := Taken(es, start + m, start + m + Product(shape[1..]));
             more.Some? && Rebuilds(shape[1..], more.value, e)
    ensures Progress(es, start, shape, elems + [e], m + Product(shape[1..]))
  {
    var p := Product(shape[1..]);
    OneMore(|elems|, p);
    TakenSplit(es, start, start + m, start + m + p);
    var before, more := Taken(es, start, start + m).value, Taken(es, start + m, start + m + p).value;
    PartsKept(shape, before, more, elems, e);
  }

  lemma OneMore(i: nat, p: nat)
    ensures (i + 1) * p == i * p + p && i * p >= 0
  {
  }

  lemma ProgressStart(es: seq<Option<Bytes>>, start: nat, shape: seq<nat>)
    requires shape != []
    ensures Progress(es, start, shape, [], 0)
  {
  }

  lemma ProgressStuck(es: seq<Option<Bytes>>, start: nat, shape: seq<nat>, elems: seq<Value<Bytes>>, m: nat)
    requires shape != [] && |elems| < shape[0] && Progress(es, start, shape, elems, m)
    requires Taken(es, start + m, start + m + Product(shape[1..])).None?
    ensures Taken(es, start, start + Product(shape)).None?
  {
    var p := Product(shape[1..]);
    PartFits(|elems|, shape[0], p);
    TakenSplit(es, start, start + m, start + m + p);
    TakenSplit(es, start, start + m + p, start + shape[0] * p);
  }

  lemma ProgressDone(es: seq<Option<Bytes>>, start: nat, shape: seq<nat>, elems: seq<Value<Bytes>>, m: nat)
    requires shape != [] && |elems| == shape[0] && Progress(es, start, shape, elems, m)
    ensures m == Product(shape) && Taken(es, start, start + Product(shape)).Some?
    ensures Rebuilds(shape, Taken(es, start, start + Product(shape)).value, Slice(elems))
  {
    TakenLength(es, start, start + Product(shape));
    RebuildsAll(shape, Taken(es, start, start + Product(shape)).value, elems);
  }

  lemma TakenOne(es: seq<Option<Bytes>>, k: nat)
    ensures Taken(es, k, k + 1) == if k < |es| && es[k].Some? then Some([es[k].value]) else None
  {
    if k < |es| && es[k].Some? {
      assert [] + [es[k].value] == [es[k].value];
    }
  }

  ghost predicate Rebuilds(shape: seq<nat>, leaves: seq<Bytes>, v: Value<Bytes>) {
    |leaves| == Product(shape) && v == Build(shape, leaves)
  }

  ghost predicate RebuildsPart(shape: seq<nat>, leaves: seq<Bytes>, j: nat, e: Value<Bytes>)
    requires shape != []
  {
    var p := Product(shape[1..]);
    0 <= j * p <= j * p + p <= |leaves| && e == Build(shape[1..], leaves[j * p..j * p + p])
  }

  lemma PartsKept(shape: seq<nat>, before: seq<Bytes>, more: seq<Bytes>, elems: seq<Value<Bytes>>, e: Value<Bytes>)
    requires shape != [] && |before| == |elems| * Product(shape[1..]) && Rebuilds(shape[1..], more, e)
    requires AllParts(shape, before, elems)
    ensures AllParts(shape, before + more, elems + [e])
  {
    var p := Product(shape[1..]);
    forall j | 0 <= j <= |elems| ensures RebuildsPart(shape, before + more, j, (elems + [e])[j]) {
      if j < |elems| {
        assert RebuildsPart(shape, before, j, elems[j]);
        assert (before + more)[j * p..j * p + p] == before[j * p..j * p + p];
      } else {
        assert (before + more)[j * p..j * p + p] == more;
      }
    }
  }

  lemma RebuildsAll(shape: seq<nat>, leaves: seq<Bytes>, elems: seq<Value<Bytes>>)
    requires shape != [] && |elems| == shape[0] && |leaves| == Product(shape)
    requires AllParts(shape, leaves, elems)
    ensures Rebuilds(shape, leaves, Slice(elems))
  {
    forall j | 0 <= j < |elems| ensures Part(shape, leaves, j) == elems[j] {
      assert RebuildsPart(shape, leaves, j, elems[j]);
    }
    assert Build(shape, leaves).elems == elems;
  }

  ghost function Elements(buf: Bytes, n: nat): (es: seq<Option<Bytes>>)
    requires 8 * n <= |buf|
    ensures IsElements(buf, n, es)
  {
    seq(n, i requires 0 <= i < n => GoElementAt(buf, n, i))
  }

  /** Value on a tensor of strings. */
  method StringValueOf(t: Tensor) returns (r: Outcome<Value<Bytes>>)
    requires |t.bytes| <= MAX_BYTES
    ensures !r.Error?
    ensures r.Ok? <==> ByteCount(t.shape, 8) <= |t.bytes| &&
                       Taken(Elements(t.bytes, ByteCount(t.shape, 8) / 8), 0, Product(t.shape)).Some?
    ensures r.Ok? ==> Rebuilds(t.shape, Taken(Elements(t.bytes, ByteCount(t.shape, 8) / 8), 0, Product(t.shape)).value, r.value)
  {
    var n := NumElements(t.shape);
    MulMod(Product(t.shape), 8);
    var table := n * 8 % TWO64;
    if table > |t.bytes| {
      return Panic;
    }
    var d := new StringDecoder(t.bytes, table / 8);
    var v := d.Decode(t.shape, Elements(t.bytes, table / 8));
    r := if v.Some? then Ok(v.value) else Panic;
  }

  // ----- Round trip -----

  /** The two decoders read the same strings, wherever the offset is in the range of a pointer difference. */
  lemma DecodersAgree(buf: Bytes, n: nat, i: nat, s: Bytes)
    requires 8 * n <= |buf| < TWO63 && i < n && FromFixed(buf[8 * i..8 * i + 8]) < TWO63
    ensures GoElementAt(buf, n, i) == Some(s) <==> ST.ElementAt(buf, n, i) == ST.Good(s)
  {
  }

  lemma GoReadsBack(ss: seq<Bytes>, i: nat)
    requires ST.Fits(ss) && |ST.Encoded(ss)| < TWO63 && i < |ss|
    ensures GoElementAt(ST.Encoded(ss), |ss|, i) == Some(ss[i])
  {
    ST.EncodedInPlace(ss, i);
    ST.SizeBound(ss, i);
    Fixed64ReadsBack(ST.SizeTo(ss, i));
    ST.ElementReadsBack(ss, i);
    DecodersAgree(ST.Encoded(ss), |ss|, i, ss[i]);
  }

  lemma {:induction false} TakenAll(es: seq<Option<Bytes>>, ss: seq<Bytes>, m: nat)
    requires |es| == |ss| && forall i :: 0 <= i < |ss| ==> es[i] == Some(ss[i])
    ensures Taken(es, 0, m) == if m <= |ss| then Some(ss[..m]) else None
  {
    if m > 0 {
      TakenAll(es, ss, m - 1);
      assert m <= |ss| ==> ss[..m] == ss[..m - 1] + [ss[m - 1]];
    }
  }

  lemma EncodedElements(ss: seq<Bytes>, m: nat)
    requires ST.Fits(ss) && |ST.Encoded(ss)| < TWO63
    ensures Taken(Elements(ST.Encoded(ss), |ss|), 0, m) == if m <= |ss| then Some(ss[..m]) else None
  {
    var es := Elements(ST.Encoded(ss), |ss|);
    forall i | 0 <= i < |ss| ensures es[i] == Some(ss[i]) {
      GoReadsBack(ss, i);
    }
    TakenAll(es, ss, m);
  }

  lemma TableWraps(count: nat, n: nat)
    requires 8 * n == count * 8 % TWO64
    ensures n <= count && (count * 8 < TWO64 <==> count == n)
  {
  }

  /** What is read back of an accepted value of strings: its strings, if the size of the table did not wrap around. */
  lemma StringsReadBack(v: Value<Bytes>, d: nat)
    requires HasDepth(v, d) && ST.Fits(Leaves(v)) && AcceptedStrings(v, d)
    ensures var shape, ss := FirstPath(v, d), Leaves(v);
            && ByteCount(shape, 8) / 8 == |ss|
            && (Product(shape) * 8 < TWO64 <==> Product(shape) == |ss|)
            && Taken(Elements(ST.Encoded(ss), |ss|), 0, Product(shape)) == if Product(shape) == |ss| then Some(ss) else None
  {
    var shape, ss := FirstPath(v, d), Leaves(v);
    EncodedElements(ss, Product(shape));
    TableWraps(Product(shape), |ss|);
    assert ss[..|ss|] == ss;
  }

  /**
   * The tensor of an accepted value of strings can be read back exactly when the size of its table does not wrap
   * around. What is read has the shape that was found and the same strings; it is v exactly when v has that shape.
   */
  lemma StringRoundTrip(v: Value<Bytes>, d: nat)
    requires HasDepth(v, d) && ST.Fits(Leaves(v)) && AcceptedStrings(v, d)
    ensures var shape, ss := FirstPath(v, d), Leaves(v);
            var read := Taken(Elements(ST.Encoded(ss), |ss|), 0, Product(shape));
            && ByteCount(shape, 8) / 8 == |ss|
            && (read.Some? <==> Product(shape) * 8 < TWO64)
            && (read.Some? ==>
                  && read.value == ss
                  && |ss| == Product(shape)
                  && HasShape(Build(shape, ss), shape)
                  && Leaves(Build(shape, ss)) == ss
                  && (Build(shape, ss) == v <==> HasShape(v, shape)))
  {
    StringsReadBack(v, d);
    if Product(FirstPath(v, d)) == |Leaves(v)| {
      Rebuilt(v, FirstPath(v, d));
    }
  }

  lemma RectangularStringsAccepted(v: Value<Bytes>, shape: seq<nat>)
    requires HasShape(v, shape) && 8 * |Leaves(v)| + ST.Size(Leaves(v)) <= MAX_BYTES
    ensures HasDepth(v, |shape|)
    ensures AcceptedStrings(v, |shape|) <==> Representable(FirstPath(v, |shape|))
    ensures |Leaves(v)| == Product(FirstPath(v, |shape|)) && Rebuilds(FirstPath(v, |shape|), Leaves(v), v)
  {
    ShapeGivesDepth(v, shape);
    RectangularFound(v, shape);
    BuildOfLeaves(v, FirstPath(v, |shape|));
    TableFits(|Leaves(v)|, Product(FirstPath(v, |shape|)));
  }

  lemma TableFits(count: nat, n: nat)
    requires count == n && 8 * count <= MAX_BYTES
    ensures 8 * count == n * 8 % TWO64
  {
  }

  /** A rectangular value of strings that a buffer can hold is accepted exactly if its shape can be represented, and
      then comes back. */
  lemma RectangularStrings(v: Value<Bytes>, shape: seq<nat>)
    requires HasShape(v, shape) && ST.Fits(Leaves(v)) && 8 * |Leaves(v)| + ST.Size(Leaves(v)) <= MAX_BYTES
    ensures HasDepth(v, |shape|)
    ensures AcceptedStrings(v, |shape|) <==> Representable(FirstPath(v, |shape|))
    ensures var found, ss := FirstPath(v, |shape|), Leaves(v);
            Taken(Elements(ST.Encoded(ss), |ss|), 0, Product(found)) == Some(ss) && Rebuilds(found, ss, v)
  {
    RectangularStringsAccepted(v, shape);
    var ss := Leaves(v);
    EncodedElements(ss, |ss|);
    assert ss[..|ss|] == ss;
  }

  // ----- A table that wraps around -----

  lemma {:induction false} EmptySizes(c: nat, k: nat)
    requires k <= c
    ensures ST.SizeTo(seq(c, _ => []), k) == k
  {
    if k > 0 {
      EmptySizes(c, k - 1);
      EncodeEmpty();
    }
  }

  lemma EncodeEmpty()
    ensures |ST.EncodeString([])| == 1
  {
  }

  /** 2^35 + 1 rows, the first with 2^26 empty strings: the table of 2^61 + 2^26 offsets takes 2^29 bytes in 64 bits.
      The value is accepted, and its tensor cannot be read. */
  lemma WrappedStringsAccepted(a: nat, c: nat, d: nat)
    requires d == 3 && a == 0x8_0000_0001 && c == 0x400_0000
    ensures var v := Lopsided([], a, c);
            && HasDepth(v, d) && ST.Fits(Leaves(v)) && AcceptedStrings(v, d)
            && Taken(Elements(ST.Encoded(Leaves(v)), |Leaves(v)|), 0, Product(FirstPath(v, d))).None?
  {
    var v := Lopsided([], a, c);
    LopsidedLeaves([], a, c);
    LopsidedPath([], a, c, d);
    EmptySizes(c, c);
    ThreeDims(a, c, a * c);
    StringRoundTrip(v, d);
  }
}
