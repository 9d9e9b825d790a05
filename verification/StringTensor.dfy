/** TF_STRING tensors: a table of offsets, then the strings, each prefixed with its length. */
module StringTensor {
  import opened Base
  import opened Varint

  type Bytes = seq<Byte>

  // ----- One string -----

  function EncodeString(s: Bytes): Bytes {
    Encode(|s|) + s
  }

  /** TF_StringEncodedSize, in the arithmetic of size_t. */
  method EncodedSize(len: nat) returns (size: nat)
    requires len < TWO64
    ensures size == (|Encode(len)| + len) % TWO64
  {
    var n := VarintLength(len);
    size := (n + len) % TWO64;
  }

  /** A sum that wraps around is less than the length. */
  lemma SizeWraps(prefix: nat, len: nat, size: nat)
    requires prefix <= MAX_VARINT && len < TWO64 && size == (prefix + len) % TWO64
    ensures size < len <==> prefix + len >= TWO64
    ensures size >= len ==> size == prefix + len
  {
    var sum := prefix + len;
    assert sum >= TWO64 ==> sum % TWO64 == sum - TWO64;
  }

  /** TF_StringEncode, to dstLen bytes from index `at`; None is an error. */
  method StringEncode(src: Bytes, dst: array<Byte>, at: nat, dstLen: nat) returns (r: Option<nat>)
    requires |src| < TWO64 && at + dstLen <= dst.Length
    modifies dst
    ensures r.Some? <==> |EncodeString(src)| < TWO64 && |EncodeString(src)| <= dstLen
    ensures r.Some? ==> r.value == |EncodeString(src)|
    ensures dst[..] == if r.Some? then Overwrite(old(dst[..]), at, EncodeString(src)) else old(dst[..])
  {
    var size := EncodedSize(|src|);
    Encode64Length(|src|);
    SizeWraps(|Encode(|src|)|, |src|, size);
    if size < |src| {
      return None;
    }
    if dstLen < size {
      return None;
    }
    var next := EncodeVarint64(dst, at, |src|);
    Copy(dst, next, src);
    OverwriteTwice(old(dst[..]), at, Encode(|src|), src);
    r := Some(size);
  }

  /** What the decoder makes of some bytes: a string, an error, or a length that reaches past their end. */
  datatype Element = Good(bytes: Bytes) | Bad | Outside

  ghost function StringAt(src: Bytes): Element {
    match VarintAt(src)
    case None => Bad
    case Some((len, start)) => if start + len <= |src| then Good(src[start..start + len]) else Outside
  }

  /** TF_StringDecode: where the string starts and how long it is said to be. */
  method StringDecode(src: Bytes) returns (r: Option<(nat, nat)>)
    ensures r.None? <==> StringAt(src) == Bad
    ensures r.Some? ==> VarintAt(src) == Some((r.value.1, r.value.0))
    ensures r.Some? ==>
              StringAt(src) == if r.value.0 + r.value.1 <= |src| then Good(src[r.value.0..r.value.0 + r.value.1]) else Outside
  {
    var v := GetVarint64(src);
    if v.None? {
      return None;
    }
    r := Some((v.value.1, v.value.0));
  }

  /** An encoded string is read back, whatever follows it. */
  lemma StringReadsBack(s: Bytes, rest: Bytes)
    requires |s| < TWO64
    ensures StringAt(EncodeString(s) + rest) == Good(s)
  {
    assert EncodeString(s) + rest == Encode(|s|) + (s + rest);
    ReadsBack(|s|, s + rest);
  }

  // ----- The format -----

  /** The size of the first k strings, encoded. */
  function SizeTo(ss: seq<Bytes>, k: nat): nat
    requires k <= |ss|
  {
    if k == 0 then 0 else SizeTo(ss, k - 1) + |EncodeString(ss[k - 1])|
  }

  function Size(ss: seq<Bytes>): nat {
    SizeTo(ss, |ss|)
  }

  /** The first k strings one after another. */
  function Data(ss: seq<Bytes>, k: nat): (d: Bytes)
    requires k <= |ss|
    ensures |d| == SizeTo(ss, k)
  {
    if k == 0 then [] else Data(ss, k - 1) + EncodeString(ss[k - 1])
  }

  /** Where in the data each of the first k strings starts. */
  function OffsetTable(ss: seq<Bytes>, k: nat): (t: Bytes)
    requires k <= |ss| && SizeTo(ss, k) < TWO64
    ensures |t| == 8 * k
  {
    if k == 0 then [] else OffsetTable(ss, k - 1) + Fixed64(SizeTo(ss, k - 1))
  }

  predicate Fits(ss: seq<Bytes>) {
    8 * |ss| + Size(ss) < TWO64
  }

  function Encoded(ss: seq<Bytes>): (r: Bytes)
    requires Fits(ss)
    ensures |r| == 8 * |ss| + Size(ss)
  {
    OffsetTable(ss, |ss|) + Data(ss, |ss|)
  }

  lemma {:induction false} SizeMono(ss: seq<Bytes>, i: nat, k: nat)
    requires i <= k <= |ss|
    ensures SizeTo(ss, i) <= SizeTo(ss, k)
    decreases k
  {
    if i < k {
      SizeMono(ss, i, k - 1);
    }
  }

  /** A string takes at least one byte. */
  lemma SizeBound(ss: seq<Bytes>, k: nat)
    requires k < |ss| && Fits(ss)
    ensures SizeTo(ss, k) + 1 <= SizeTo(ss, k + 1) <= Size(ss) < TWO64
  {
    EncodeIsVarint(|ss[k]|);
    SizeMono(ss, k + 1, |ss|);
  }

  // ----- Strings in their places -----

  /** Offset j is in the table, and string j is where it points. */
  ghost predicate InPlace(b: Bytes, ss: seq<Bytes>, j: nat)
    requires j < |ss|
  {
    && 8 * |ss| + SizeTo(ss, j + 1) <= |b| && SizeTo(ss, j) < TWO64
    && b[8 * j..8 * j + 8] == Fixed64(SizeTo(ss, j))
    && b[8 * |ss| + SizeTo(ss, j)..8 * |ss| + SizeTo(ss, j + 1)] == EncodeString(ss[j])
  }

  ghost predicate Placed(b: Bytes, ss: seq<Bytes>, k: nat) {
    k <= |ss| && forall j: nat {:trigger InPlace(b, ss, j)} :: j < k ==> InPlace(b, ss, j)
  }

  lemma SliceLeft(a: Bytes, b: Bytes, lo: nat, hi: nat)
    requires lo <= hi <= |a|
    ensures (a + b)[lo..hi] == a[lo..hi]
  {
  }

  lemma SliceRight(a: Bytes, b: Bytes, lo: nat, hi: nat)
    requires lo <= hi <= |b|
    ensures (a + b)[|a| + lo..|a| + hi] == b[lo..hi]
  {
  }

  lemma SliceJoin(b: Bytes, lo: nat, mid: nat, hi: nat)
    requires lo <= mid <= hi <= |b|
    ensures b[lo..hi] == b[lo..mid] + b[mid..hi]
  {
  }

  lemma {:induction false} DataAt(ss: seq<Bytes>, i: nat, k: nat)
    requires i < k <= |ss|
    ensures SizeTo(ss, i + 1) <= SizeTo(ss, k)
    ensures Data(ss, k)[SizeTo(ss, i)..SizeTo(ss, i + 1)] == EncodeString(ss[i])
    decreases k
  {
    if i < k - 1 {
      DataAt(ss, i, k - 1);
      SliceLeft(Data(ss, k - 1), EncodeString(ss[k - 1]), SizeTo(ss, i), SizeTo(ss, i + 1));
    }
  }

  lemma {:induction false} OffsetAt(ss: seq<Bytes>, i: nat, k: nat)
    requires i < k <= |ss| && SizeTo(ss, i) <= SizeTo(ss, k) < TWO64
    ensures OffsetTable(ss, k)[8 * i..8 * i + 8] == Fixed64(SizeTo(ss, i))
    decreases k
  {
    if i < k - 1 {
      SizeMono(ss, i, k - 1);
      OffsetAt(ss, i, k - 1);
    }
    SlotOf(OffsetTable(ss, k - 1), Fixed64(SizeTo(ss, k - 1)), i, k - 1);
  }

  /** A table with one more slot. */
  lemma SlotOf(t: Bytes, last: Bytes, i: nat, k: nat)
    requires |t| == 8 * k && |last| == 8 && i <= k
    ensures (t + last)[8 * i..8 * i + 8] == if i == k then last else t[8 * i..8 * i + 8]
  {
  }

  /** In the format, every offset points into the data, at its string. */
  lemma EncodedInPlace(ss: seq<Bytes>, i: nat)
    requires i < |ss| && Fits(ss)
    ensures InPlace(Encoded(ss), ss, i)
  {
    var t, data := OffsetTable(ss, |ss|), Data(ss, |ss|);
    SizeBound(ss, i);
    OffsetAt(ss, i, |ss|);
    SliceLeft(t, data, 8 * i, 8 * i + 8);
    DataAt(ss, i, |ss|);
    SliceRight(t, data, SizeTo(ss, i), SizeTo(ss, i + 1));
  }

  lemma {:induction false} PlacedTable(b: Bytes, ss: seq<Bytes>, k: nat)
    requires Fits(ss) && |b| == 8 * |ss| + Size(ss) && Placed(b, ss, k) && SizeTo(ss, k) < TWO64
    ensures b[..8 * k] == OffsetTable(ss, k)
  {
    if k > 0 {
      PlacedTable(b, ss, k - 1);
      assert InPlace(b, ss, k - 1);
      assert b[..8 * k] == b[..8 * (k - 1)] + b[8 * (k - 1)..8 * (k - 1) + 8];
    }
  }

  lemma {:induction false} PlacedData(b: Bytes, ss: seq<Bytes>, k: nat)
    requires Placed(b, ss, k) && 8 * |ss| + SizeTo(ss, k) <= |b|
    ensures b[8 * |ss|..8 * |ss| + SizeTo(ss, k)] == Data(ss, k)
  {
    if k > 0 {
      PlacedString(b, ss, k, k - 1);
      PlacedData(b, ss, k - 1);
      var lo, mid, hi := 8 * |ss|, 8 * |ss| + SizeTo(ss, k - 1), 8 * |ss| + SizeTo(ss, k);
      SliceJoin(b, lo, mid, hi);
    }
  }

  lemma PlacedString(b: Bytes, ss: seq<Bytes>, k: nat, j: nat)
    requires Placed(b, ss, k) && j < k
    ensures 8 * |ss| + SizeTo(ss, j + 1) <= |b|
    ensures b[8 * |ss| + SizeTo(ss, j)..8 * |ss| + SizeTo(ss, j + 1)] == EncodeString(ss[j])
  {
    assert InPlace(b, ss, j);
  }

  /** Only the format has every string in its place. */
  lemma PlacedIsEncoded(b: Bytes, ss: seq<Bytes>)
    requires Fits(ss) && |b| == 8 * |ss| + Size(ss) && Placed(b, ss, |ss|)
    ensures b == Encoded(ss)
  {
    PlacedTable(b, ss, |ss|);
    PlacedData(b, ss, |ss|);
    assert b == b[..8 * |ss|] + b[8 * |ss|..8 * |ss| + Size(ss)];
  }

  /** Storing an offset and a string after the others leaves those where they are. */
  lemma StaysInPlace(was: Bytes, mid: Bytes, now: Bytes, ss: seq<Bytes>, j: nat, k: nat)
    requires j < k < |ss| && SizeTo(ss, k) < TWO64 && 8 * |ss| + SizeTo(ss, k + 1) <= |was|
    requires mid == Overwrite(was, 8 * k, Fixed64(SizeTo(ss, k)))
    requires now == Overwrite(mid, 8 * |ss| + SizeTo(ss, k), EncodeString(ss[k]))
    requires InPlace(was, ss, j)
    ensures InPlace(now, ss, j)
  {
    var fixed, str, at := Fixed64(SizeTo(ss, k)), EncodeString(ss[k]), 8 * |ss| + SizeTo(ss, k);
    var lo, hi := 8 * |ss| + SizeTo(ss, j), 8 * |ss| + SizeTo(ss, j + 1);
    SizeMono(ss, j + 1, k);
    OverwriteElsewhere(was, 8 * k, fixed, 8 * j, 8 * j + 8);
    OverwriteElsewhere(mid, at, str, 8 * j, 8 * j + 8);
    OverwriteElsewhere(was, 8 * k, fixed, lo, hi);
    OverwriteElsewhere(mid, at, str, lo, hi);
  }

  lemma PlacedNext(was: Bytes, mid: Bytes, now: Bytes, ss: seq<Bytes>, k: nat)
    requires k < |ss| && SizeTo(ss, k) < TWO64 && 8 * |ss| + SizeTo(ss, k + 1) <= |was|
    requires mid == Overwrite(was, 8 * k, Fixed64(SizeTo(ss, k)))
    requires now == Overwrite(mid, 8 * |ss| + SizeTo(ss, k), EncodeString(ss[k]))
    requires Placed(was, ss, k)
    ensures Placed(now, ss, k + 1)
  {
    forall j: nat | j < k + 1 ensures InPlace(now, ss, j) {
      if j < k {
        assert InPlace(was, ss, j);
        StaysInPlace(was, mid, now, ss, j, k);
      } else {
        OverwriteElsewhere(mid, 8 * |ss| + SizeTo(ss, k), EncodeString(ss[k]), 8 * k, 8 * k + 8);
      }
    }
  }

  // ----- Writing a tensor -----

  /** Storing a 64-bit offset. */
  method StoreFixed64(dst: array<Byte>, at: nat, v: nat)
    requires v < TWO64 && at + 8 <= dst.Length
    modifies dst
    ensures dst[..] == Overwrite(old(dst[..]), at, Fixed64(v))
  {
    Copy(dst, at, Fixed64(v));
  }

  /** The sum that TF_Tensor_EncodeStrings takes over the strings before it allocates. */
  method SizeOf(srcs: seq<Bytes>) returns (size: nat)
    requires Fits(srcs)
    ensures size == |Encoded(srcs)|
  {
    size := 0;
    for i := 0 to |srcs|
      invariant size == 8 * i + SizeTo(srcs, i)
    {
      SizeBound(srcs, i);
      var one := EncodedSize(|srcs[i]|);
      size := (size + 8 + one) % TWO64;
    }
  }

  /** TF_Tensor_EncodeStrings: the sizes agree, so that both of its checks hold. */
  method EncodeStrings(srcs: seq<Bytes>) returns (base: array<Byte>)
    requires Fits(srcs)
    ensures fresh(base) && base[..] == Encoded(srcs)
  {
    var size := SizeOf(srcs);
    base := new Byte[size];
    var dataStart := 8 * |srcs|;
    var dst: nat, dstLen: nat := dataStart, size - dataStart;
    for i := 0 to |srcs|
      invariant fresh(base) && dst + dstLen == base.Length == size
      invariant dst == dataStart + SizeTo(srcs, i)
      invariant Placed(base[..], srcs, i)
    {
      dst, dstLen := EncodeOne(srcs, i, base, dst, dstLen);
    }
    assert dst == size;
    PlacedIsEncoded(base[..], srcs);
  }

  /** One turn of the writing loop. */
  method EncodeOne(srcs: seq<Bytes>, i: nat, base: array<Byte>, dst: nat, dstLen: nat) returns (dst': nat, dstLen': nat)
    requires i < |srcs| && Fits(srcs) && dst + dstLen == base.Length == 8 * |srcs| + Size(srcs)
    requires dst == 8 * |srcs| + SizeTo(srcs, i) && Placed(base[..], srcs, i)
    modifies base
    ensures dst' + dstLen' == base.Length
    ensures dst' == 8 * |srcs| + SizeTo(srcs, i + 1) && Placed(base[..], srcs, i + 1)
  {
    ghost var was := base[..];
    OneFits(srcs, i, dstLen);
    var consumed := StoreOne(srcs[i], base, 8 * i, dst - 8 * |srcs|, dst, dstLen);
    PlacedNext(was, Overwrite(was, 8 * i, Fixed64(SizeTo(srcs, i))), base[..], srcs, i);
    dst', dstLen' := dst + consumed, dstLen - consumed;
  }

  lemma OneFits(ss: seq<Bytes>, i: nat, room: nat)
    requires i < |ss| && Fits(ss) && SizeTo(ss, i) + room == Size(ss)
    ensures SizeTo(ss, i) < TWO64 && |EncodeString(ss[i])| < TWO64 && |EncodeString(ss[i])| <= room
    ensures SizeTo(ss, i + 1) == SizeTo(ss, i) + |EncodeString(ss[i])| <= Size(ss)
  {
    SizeBound(ss, i);
  }

  /** An offset, and then the string; the check of its status holds. */
  method StoreOne(s: Bytes, base: array<Byte>, slot: nat, offset: nat, dst: nat, dstLen: nat) returns (consumed: nat)
    requires offset < TWO64 && slot + 8 <= base.Length && dst + dstLen <= base.Length
    requires |EncodeString(s)| < TWO64 && |EncodeString(s)| <= dstLen
    modifies base
    ensures consumed == |EncodeString(s)|
    ensures base[..] == Overwrite(Overwrite(old(base[..]), slot, Fixed64(offset)), dst, EncodeString(s))
  {
    StoreFixed64(base, slot, offset);
    var r := StringEncode(s, base, dst, dstLen);
    assert r.Some?;
    consumed := r.value;
  }

  // ----- Reading a tensor -----

  /** A 64-bit word as a signed number. */
  function Signed(v: nat): int {
    if v < TWO63 then v else v - TWO64
  }

  /** What the decoder makes of element i of n in buf. */
  ghost function ElementAt(buf: Bytes, n: nat, i: nat): Element
    requires 8 * n <= |buf| < TWO64 && i < n
  {
    FromFixedBound(buf[8 * i..8 * i + 8]);
    var offset := Signed(FromFixed(buf[8 * i..8 * i + 8]));
    if offset >= Signed(|buf| - 8 * n) then Bad
    else if 8 * n + offset < 0 then Outside
    else StringAt(buf[8 * n + offset..])
  }

  datatype Decoding = Decoded(strings: seq<Bytes>) | Malformed | Undefined

  /** TF_Tensor_DecodeStrings; Undefined is where it would read outside of buf. */
  method DecodeStrings(buf: Bytes, n: nat) returns (r: Decoding)
    requires |buf| < TWO64
    ensures r.Decoded? ==> 8 * n <= |buf| && |r.strings| == n &&
                           forall i :: 0 <= i < n ==> ElementAt(buf, n, i) == Good(r.strings[i])
    ensures !r.Decoded? && 8 * n <= |buf| ==>
              exists i :: 0 <= i < n && ElementAt(buf, n, i) == (if r.Malformed? then Bad else Outside) &&
                          forall j :: 0 <= j < i ==> ElementAt(buf, n, j).Good?
    ensures r.Undefined? ==> 8 * n <= |buf|
  {
    if |buf| / 8 < n {
      return Malformed;
    }
    var dataStart := 8 * n;
    var strings: seq<Bytes> := [];
    for i := 0 to n
      invariant |strings| == i
      invariant forall j :: 0 <= j < i ==> ElementAt(buf, n, j) == Good(strings[j])
    {
      var e := DecodeOne(buf, n, i);
      if e.Bad? {
        return Malformed;
      }
      if e.Outside? {
        return Undefined;
      }
      strings := strings + [e.bytes];
    }
    r := Decoded(strings);
  }

  /** One turn of the reading loop. */
  method DecodeOne(buf: Bytes, n: nat, i: nat) returns (e: Element)
    requires 8 * n <= |buf| < TWO64 && i < n
    ensures e == ElementAt(buf, n, i)
  {
    FromFixedBound(buf[8 * i..8 * i + 8]);
    var offset := Signed(FromFixed(buf[8 * i..8 * i + 8]));
    if offset >= Signed(|buf| - 8 * n) {
      return Bad;
    }
    var srcp := 8 * n + offset;
    if srcp < 0 {
      return Outside;
    }
    var p := StringDecode(buf[srcp..]);
    if p.None? {
      return Bad;
    }
    var (start, len) := p.value;
    if start + len > |buf| - srcp {
      return Outside;
    }
    e := Good(buf[srcp..][start..start + len]);
  }

  // ----- Round trip -----

  /** An element depends on its own offset and its own bytes only: what follows may be anything. */
  lemma ElementIsLocal(buf: Bytes, n: nat, i: nat, s: Bytes, offset: nat)
    requires 8 * n <= |buf| < TWO64 && i < n && |buf| - 8 * n < TWO63
    requires 8 * n + offset + |EncodeString(s)| <= |buf|
    requires buf[8 * i..8 * i + 8] == Fixed64(offset)
    requires buf[8 * n + offset..8 * n + offset + |EncodeString(s)|] == EncodeString(s)
    ensures ElementAt(buf, n, i) == Good(s)
  {
    Fixed64ReadsBack(offset);
    Encode64Length(|s|);
    StringWithin(buf, 8 * n + offset, s);
  }

  lemma StringWithin(buf: Bytes, at: nat, s: Bytes)
    requires |s| < TWO64 && at + |EncodeString(s)| <= |buf| && buf[at..at + |EncodeString(s)|] == EncodeString(s)
    ensures StringAt(buf[at..]) == Good(s)
  {
    var rest := buf[at + |EncodeString(s)|..];
    SliceJoin(buf, at, at + |EncodeString(s)|, |buf|);
    assert buf[at..] == EncodeString(s) + rest;
    StringReadsBack(s, rest);
  }

  /** Where the data is shorter than the largest pointer difference, every string is read back. */
  lemma ElementReadsBack(ss: seq<Bytes>, i: nat)
    requires i < |ss| && Fits(ss) && Size(ss) < TWO63
    ensures ElementAt(Encoded(ss), |ss|, i) == Good(ss[i])
  {
    EncodedInPlace(ss, i);
    SizeBound(ss, i);
    ElementIsLocal(Encoded(ss), |ss|, i, ss[i], SizeTo(ss, i));
  }

  /** A longer tensor is refused at its first element. */
  lemma LongIsRefused(ss: seq<Bytes>)
    requires Fits(ss) && Size(ss) >= TWO63
    ensures ss != [] && ElementAt(Encoded(ss), |ss|, 0) == Bad
  {
    EncodedInPlace(ss, 0);
    Fixed64ReadsBack(0);
  }

  /** What TF_Tensor_EncodeStrings writes, TF_Tensor_DecodeStrings reads back, exactly when the data is that short. */
  lemma RoundTripIff(ss: seq<Bytes>)
    requires Fits(ss)
    ensures (forall i :: 0 <= i < |ss| ==> ElementAt(Encoded(ss), |ss|, i) == Good(ss[i])) <==> Size(ss) < TWO63
  {
    if Size(ss) < TWO63 {
      forall i | 0 <= i < |ss| ensures ElementAt(Encoded(ss), |ss|, i) == Good(ss[i]) {
        ElementReadsBack(ss, i);
      }
    } else {
      LongIsRefused(ss);
    }
  }

  /** The shortest input for which it fails: one string of 2^63 bytes or more. */
  lemma LongString(s: Bytes)
    requires TWO63 <= |s| < TWO63 + TWO63 / 2
    ensures Fits([s]) && ElementAt(Encoded([s]), 1, 0) == Bad
  {
    Encode64Length(|s|);
    assert SizeTo([s], 1) == SizeTo([s], 0) + |EncodeString([s][0])|;
    LongIsRefused([s]);
  }
}
