/** Bytes in buffers, and the variable-length integers that prefix encoded strings. */
module Varint {
  import opened Base

  type Byte = x: int | 0 <= x < 256

  const TWO63: nat := 0x8000_0000_0000_0000
  const TWO64: nat := 0x1_0000_0000_0000_0000
  const MAX_VARINT: nat := 10

  /** The sequence s with the elements from `at` on replaced by those of bs. */
  function Overwrite<T>(s: seq<T>, at: nat, bs: seq<T>): (r: seq<T>)
    requires at + |bs| <= |s|
    ensures |r| == |s| && r[at..at + |bs|] == bs
    ensures forall i :: 0 <= i < |s| && !(at <= i < at + |bs|) ==> r[i] == s[i]
  {
    s[..at] + bs + s[at + |bs|..]
  }

  lemma OverwriteElsewhere<T>(s: seq<T>, at: nat, bs: seq<T>, lo: nat, hi: nat)
    requires at + |bs| <= |s| && lo <= hi <= |s| && (hi <= at || at + |bs| <= lo)
    ensures Overwrite(s, at, bs)[lo..hi] == s[lo..hi]
  {
  }

  lemma OverwriteTwice<T>(s: seq<T>, at: nat, a: seq<T>, b: seq<T>)
    requires at + |a| + |b| <= |s|
    ensures Overwrite(Overwrite(s, at, a), at + |a|, b) == Overwrite(s, at, a + b)
  {
    var l, r := Overwrite(Overwrite(s, at, a), at + |a|, b), Overwrite(s, at, a + b);
    forall i | 0 <= i < |s| ensures l[i] == r[i] {
      if at <= i < at + |a| {
        assert l[i] == Overwrite(s, at, a)[i] == Overwrite(s, at, a)[at..at + |a|][i - at];
        assert r[i] == r[at..at + |a + b|][i - at] == (a + b)[i - at];
      } else if at + |a| <= i < at + |a| + |b| {
        assert l[i] == l[at + |a|..at + |a| + |b|][i - at - |a|];
        assert r[i] == r[at..at + |a + b|][i - at] == (a + b)[i - at];
      }
    }
  }

  lemma OverwriteNext<T>(s: seq<T>, at: nat, done: seq<T>, x: T)
    requires at + |done| < |s|
    ensures Overwrite(s, at, done)[at + |done| := x] == Overwrite(s, at, done + [x])
  {
    OverwriteTwice(s, at, done, [x]);
  }

  /** Copying src to dst, from index `at` on. */
  method Copy<T>(dst: array<T>, at: nat, src: seq<T>)
    requires at + |src| <= dst.Length
    modifies dst
    ensures dst[..] == Overwrite(old(dst[..]), at, src)
  {
    for i := 0 to |src|
      invariant dst[..] == Overwrite(old(dst[..]), at, src[..i])
    {
      OverwriteNext(old(dst[..]), at, src[..i], src[i]);
      assert src[..i] + [src[i]] == src[..i + 1];
      ghost var before := dst[..];
      dst[at + i] := src[i];
      assert dst[..] == before[at + i := src[i]];
    }
    assert src[..|src|] == src;
  }

  // ----- The encoding -----

  /** All bytes but the last have the high bit set. */
  predicate IsVarint(bs: seq<Byte>) {
    && bs != []
    && bs[|bs| - 1] < 128
    && (forall i :: 0 <= i < |bs| - 1 ==> bs[i] >= 128)
  }

  /** The number of which the low seven bits of each byte are the digits, least significant first. */
  function Digits(bs: seq<Byte>): nat {
    if bs == [] then 0 else bs[0] % 128 + 128 * Digits(bs[1..])
  }

  function Encode(v: nat): (bs: seq<Byte>) {
    if v < 128 then [v] else [v % 128 + 128] + Encode(v / 128)
  }

  lemma {:induction false} EncodeIsVarint(v: nat)
    ensures IsVarint(Encode(v)) && Digits(Encode(v)) == v
  {
    if v >= 128 {
      EncodeIsVarint(v / 128);
      assert Encode(v)[1..] == Encode(v / 128);
    } else {
      assert Encode(v)[1..] == [];
    }
  }

  function Pow128(k: nat): nat {
    if k == 0 then 1 else 128 * Pow128(k - 1)
  }

  lemma {:induction false} EncodeLength(v: nat, k: nat)
    requires 1 <= k && v < Pow128(k)
    ensures 1 <= |Encode(v)| <= k
  {
    assert Pow128(1) == 128 * Pow128(0);
    if v >= 128 {
      assert v / 128 < Pow128(k - 1);
      EncodeLength(v / 128, k - 1);
    }
  }

  lemma Encode64Length(v: nat)
    requires v < TWO64
    ensures 1 <= |Encode(v)| <= MAX_VARINT
  {
    assert Pow128(5) == 0x8_0000_0000;
    assert Pow128(9) == 0x8000_0000_0000_0000;
    assert Pow128(10) == 128 * Pow128(9);
    EncodeLength(v, 10);
  }

  /** No varint is a proper prefix of another, so a reader knows where one ends. */
  lemma VarintUnique(s: seq<Byte>, j: nat, k: nat)
    requires j <= |s| && k <= |s| && IsVarint(s[..j]) && IsVarint(s[..k])
    ensures j == k
  {
  }

  // ----- Reading -----

  /** The length of the varint at the start of src, if there is one of at most ten bytes. */
  ghost predicate Starts(src: seq<Byte>, k: nat) {
    k <= |src| && k <= MAX_VARINT && IsVarint(src[..k])
  }

  lemma {:induction false} DigitsAppend(bs: seq<Byte>, b: Byte)
    ensures Digits(bs + [b]) == Digits(bs) + b % 128 * Pow128(|bs|)
  {
    if bs == [] {
      assert (bs + [b])[1..] == [];
    } else {
      assert (bs + [b])[1..] == bs[1..] + [b];
      DigitsAppend(bs[1..], b);
      assert 128 * (b % 128 * Pow128(|bs| - 1)) == b % 128 * Pow128(|bs|);
    }
  }

  /** One more byte adds its seven bits above the earlier ones. */
  lemma DigitsNext(src: seq<Byte>, p: nat)
    requires p < |src|
    ensures 0 <= src[p] % 128 * Pow128(p)
    ensures (Digits(src[..p]) % TWO64 + src[p] % 128 * Pow128(p)) % TWO64 == Digits(src[..p + 1]) % TWO64
  {
    DigitsAppend(src[..p], src[p]);
    assert src[..p] + [src[p]] == src[..p + 1];
    var b: nat := src[p] % 128 * Pow128(p);
    AddMod(Digits(src[..p]), b);
  }

  /**
   * GetVarint64Ptr: the value, which keeps its low 64 bits, and the number of bytes read. The bits added for a
   * byte are above all earlier ones (DigitsBound), so that adding them is or-ing them.
   */
  method GetVarint64(src: seq<Byte>) returns (r: Option<(nat, nat)>)
    ensures r == VarintAt(src)
  {
    var result: nat, p: nat, shift: nat, scale: nat := 0, 0, 0, 1;
    while shift <= 63 && p < |src|
      invariant shift == 7 * p && p <= |src| && p <= MAX_VARINT
      invariant scale == Pow128(p)
      invariant forall i :: 0 <= i < p ==> src[i] >= 128
      invariant result == Digits(src[..p]) % TWO64
      decreases |src| - p
    {
      var byte := src[p];
      DigitsNext(src, p);
      p := p + 1;
      result := (result + byte % 128 * scale) % TWO64;
      if byte < 128 {
        StartsAt(src, p);
        return Some((result, p));
      }
      scale := scale * 128;
      shift := shift + 7;
    }
    r := None;
    forall k: nat ensures !Starts(src, k) {
      assert 0 < k <= |src| ==> src[..k][k - 1] == src[k - 1];
    }
  }

  lemma AddMod(a: nat, b: nat)
    ensures (a % TWO64 + b) % TWO64 == (a + b) % TWO64
  {
    assert a == a / TWO64 * TWO64 + a % TWO64;
    var c := a % TWO64 + b;
    assert a + b == a / TWO64 * TWO64 + c;
    ModShift(c, a / TWO64);
  }

  lemma ModShift(c: nat, q: nat)
    ensures (q * TWO64 + c) % TWO64 == c % TWO64
  {
    assert q * TWO64 + c == (q + c / TWO64) * TWO64 + c % TWO64;
  }

  /** The value and the length of the varint at the start of src. */
  ghost function VarintAt(src: seq<Byte>): Option<(nat, nat)> {
    if exists k: nat :: Starts(src, k) then
      var k: nat :| Starts(src, k);
      Some((Digits(src[..k]) % TWO64, k))
    else
      None
  }

  lemma StartsAt(src: seq<Byte>, k: nat)
    requires Starts(src, k)
    ensures VarintAt(src) == Some((Digits(src[..k]) % TWO64, k))
  {
    var j: nat := VarintAt(src).value.1;
    VarintUnique(src, j, k);
  }

  /** Whatever follows it, an encoded 64-bit number is read back, and nothing after it is. */
  lemma ReadsBack(v: nat, rest: seq<Byte>)
    requires v < TWO64
    ensures VarintAt(Encode(v) + rest) == Some((v, |Encode(v)|))
  {
    EncodeIsVarint(v);
    Encode64Length(v);
    assert (Encode(v) + rest)[..|Encode(v)|] == Encode(v);
    StartsAt(Encode(v) + rest, |Encode(v)|);
  }

  // ----- Writing -----

  /** EncodeVarint64, from index `at` of dst. */
  method EncodeVarint64(dst: array<Byte>, at: nat, value: nat) returns (next: nat)
    requires at + |Encode(value)| <= dst.Length
    modifies dst
    ensures next == at + |Encode(value)|
    ensures dst[..] == Overwrite(old(dst[..]), at, Encode(value))
  {
    var v := value;
    next := at;
    ghost var done: seq<Byte> := [];
    while v >= 128
      invariant done + Encode(v) == Encode(value)
      invariant next == at + |done|
      invariant dst[..] == Overwrite(old(dst[..]), at, done)
    {
      StoreByte(dst, next, v % 128 + 128, old(dst[..]), at, done);
      EncodeNext(v, done);
      done := done + [v % 128 + 128];
      next := next + 1;
      v := v / 128;
    }
    StoreByte(dst, next, v, old(dst[..]), at, done);
    next := next + 1;
  }

  lemma EncodeNext(v: nat, done: seq<Byte>)
    requires v >= 128
    ensures done + Encode(v) == done + [v % 128 + 128] + Encode(v / 128)
    ensures |Encode(v)| == 1 + |Encode(v / 128)|
  {
  }

  /** One more byte, after those in `done`. */
  method StoreByte(dst: array<Byte>, next: nat, b: Byte, ghost was: seq<Byte>, ghost at: nat, ghost done: seq<Byte>)
    requires next == at + |done| < dst.Length == |was| && dst[..] == Overwrite(was, at, done)
    modifies dst
    ensures dst[..] == Overwrite(was, at, done + [b])
  {
    OverwriteNext(was, at, done, b);
    ghost var before := dst[..];
    dst[next] := b;
    assert dst[..] == before[next := b];
  }

  method VarintLength(value: nat) returns (len: nat)
    ensures len == |Encode(value)|
  {
    var v := value;
    len := 1;
    while v >= 128
      invariant len + |Encode(v)| == |Encode(value)| + 1
    {
      v := v / 128;
      len := len + 1;
    }
  }

  // ----- Fixed-width integers -----

  /** The eight bytes of a 64-bit number in memory, least significant first. */
  function Fixed64(v: nat): (bs: seq<Byte>)
    requires v < TWO64
    ensures |bs| == 8
  {
    Fixed(v, 8)
  }

  function Fixed(v: nat, k: nat): (bs: seq<Byte>)
    ensures |bs| == k
    decreases v, k
  {
    if k == 0 then [] else [v % 256] + Fixed(v / 256, k - 1)
  }

  function FromFixed(bs: seq<Byte>): nat {
    if bs == [] then 0 else bs[0] + 256 * FromFixed(bs[1..])
  }

  function Pow256(k: nat): nat {
    if k == 0 then 1 else 256 * Pow256(k - 1)
  }

  lemma {:induction false} FixedReadsBack(v: nat, k: nat)
    requires v < Pow256(k)
    ensures FromFixed(Fixed(v, k)) == v
  {
    if k > 0 {
      assert v / 256 < Pow256(k - 1);
      FixedReadsBack(v / 256, k - 1);
      assert Fixed(v, k)[1..] == Fixed(v / 256, k - 1);
    }
  }

  lemma Fixed64ReadsBack(v: nat)
    requires v < TWO64
    ensures FromFixed(Fixed64(v)) == v
  {
    assert Pow256(4) == 0x1_0000_0000;
    assert Pow256(8) == 256 * Pow256(7) == 65536 * Pow256(6) == 0x100_0000 * Pow256(5);
    FixedReadsBack(v, 8);
  }

  lemma {:induction false} FromFixedBound(bs: seq<Byte>)
    ensures FromFixed(bs) < Pow256(|bs|)
  {
    if bs != [] {
      FromFixedBound(bs[1..]);
    }
  }
}
