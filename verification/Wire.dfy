/** The protobuf wire format as the generated code reads and writes it: base-128 varints and the
  skipping of unknown fields (codec/types/any.pb.go, types/abci.pb.go; section "Base 128 Varints" of
  the Protocol Buffers encoding specification).

  Unsigned 64-bit values are naturals below 2^64. Shifts are multiplications and divisions by powers
  of two; an `|=` into bits that are still zero is an addition. A Go `int` is a signed 64-bit value,
  so a length of 2^63 or more is negative. */
module Wire {
  import opened Lex

  const TWO63: int := 0x8000_0000_0000_0000
  const TWO64: int := 0x1_0000_0000_0000_0000

  datatype WireError =
    | IntOverflow
    | UnexpectedEOF
    | InvalidLength
    | EndGroup
    | IllegalTag
    | WrongWireType
    | IllegalWireType

  // ---------------------------------------------------------------- writing varints

  function EncodeVarint(v: nat): (s: Bytes)
    ensures s != []
  {
    if v < 128 then [v] else [v % 128 + 128] + EncodeVarint(v / 128)
  }

  /** `math/bits.Len64`. */
  function Len64(x: nat): nat {
    if x == 0 then 0 else 1 + Len64(x / 2)
  }

  /** `sovAny`, `sovAbci`: the number of bytes of a varint, from the bit length of `x | 1`. */
  function Sov(x: nat): nat {
    (Len64(if x % 2 == 0 then x + 1 else x) + 6) / 7
  }

  lemma Len64Or1(x: nat)
    requires x > 0
    ensures Len64(if x % 2 == 0 then x + 1 else x) == Len64(x)
  {
    assert (x + 1) / 2 == x / 2 || x % 2 != 0;
  }

  lemma Len64Group(x: nat)
    requires x >= 128
    ensures Len64(x) == 7 + Len64(x / 128)
  {
    var a := x / 2;
    var b := a / 2;
    var c := b / 2;
    var d := c / 2;
    var e := d / 2;
    var f := e / 2;
    assert Len64(x) == 1 + Len64(a) == 2 + Len64(b) == 3 + Len64(c) == 4 + Len64(d);
    assert Len64(d) == 1 + Len64(e) == 2 + Len64(f) == 3 + Len64(f / 2);
    assert f / 2 == x / 128;
  }

  lemma Len64Small(x: nat)
    requires 0 < x < 128
    ensures 1 <= Len64(x) <= 7
  {
    var b := x / 2 / 2;
    var d := b / 2 / 2;
    var f := d / 2 / 2;
    assert Len64(x) <= 2 + Len64(b) <= 4 + Len64(d) <= 6 + Len64(f);
  }

  /** The size computed in advance is the number of bytes written. */
  lemma {:induction false} SovIsLength(x: nat)
    ensures |EncodeVarint(x)| == Sov(x)
  {
    if x < 128 {
      if x == 0 {
        assert Len64(1) == 1;
      } else {
        Len64Or1(x);
        Len64Small(x);
      }
    } else {
      SovIsLength(x / 128);
      Len64Or1(x);
      Len64Or1(x / 128);
      Len64Group(x);
    }
  }

  lemma VarintTail(s: Bytes, i: nat, x: nat)
    requires i <= |s| && s[i..] == EncodeVarint(x)
    ensures i < |s|
    ensures x < 128 ==> i + 1 == |s| && s[i] == x
    ensures x >= 128 ==> i + 1 < |s| && s[i] == x % 128 + 128 && s[i + 1..] == EncodeVarint(x / 128)
  {
    assert s[i] == s[i..][0];
    assert s[i + 1..] == s[i..][1..];
  }

  /** `encodeVarintAny`, `encodeVarintAbci`: write `v` so that it ends just before `offset`. */
  method EncodeVarintInto(dAtA: array<byte>, offset: nat, v: nat) returns (base: nat)
    requires Sov(v) <= offset <= dAtA.Length
    modifies dAtA
    ensures base == offset - Sov(v)
    ensures dAtA[base..offset] == EncodeVarint(v)
    ensures forall k :: 0 <= k < dAtA.Length && !(base <= k < offset) ==> dAtA[k] == old(dAtA[k])
  {
    hide EncodeVarint, Sov;
    SovIsLength(v);
    base := offset - Sov(v);
    ghost var target := EncodeVarint(v);
    var at, x := base, v;
    while x >= 128
      invariant base <= at < offset
      invariant target[at - base..] == EncodeVarint(x)
      invariant forall k :: base <= k < at ==> dAtA[k] == target[k - base]
      invariant forall k :: 0 <= k < dAtA.Length && !(base <= k < offset) ==> dAtA[k] == old(dAtA[k])
    {
      VarintTail(target, at - base, x);
      dAtA[at] := x % 128 + 128;
      x := x / 128;
      at := at + 1;
    }
    VarintTail(target, at - base, x);
    dAtA[at] := x;
  }

  // ---------------------------------------------------------------- reading varints

  datatype Varint = Varint(value: nat, size: nat) | BadVarint(error: WireError)

  /** The number a group of 7-bit digits denotes, least significant first. */
  function Base128(s: Bytes): nat {
    if s == [] then 0 else s[0] % 128 + 128 * Base128(s[1..])
  }

  /** A varint is the bytes up to the first one below 0x80, at most ten of them. */
  function ScanVarint(bz: Bytes, k: nat): Varint
    decreases 10 - k
  {
    if k >= 10 then BadVarint(IntOverflow)
    else if k >= |bz| then BadVarint(UnexpectedEOF)
    else if bz[k] < 128 then Varint(Base128(bz[..k + 1]) % TWO64, k + 1)
    else ScanVarint(bz, k + 1)
  }

  function ReadVarint(bz: Bytes): Varint {
    ScanVarint(bz, 0)
  }

  lemma {:induction false} ScanVarintSize(bz: Bytes, k: nat)
    ensures ScanVarint(bz, k).Varint? ==>
              k < ScanVarint(bz, k).size <= |bz| && ScanVarint(bz, k).size <= 10 && ScanVarint(bz, k).value < TWO64
    decreases 10 - k
  {
    if k < 10 && k < |bz| && bz[k] >= 128 {
      ScanVarintSize(bz, k + 1);
    }
  }

  /** A varint does not depend on the bytes after it. */
  lemma {:induction false} ScanVarintPrefix(bz: Bytes, rest: Bytes, k: nat)
    requires ScanVarint(bz, k).Varint?
    ensures ScanVarint(bz + rest, k) == ScanVarint(bz, k)
    decreases 10 - k
  {
    if bz[k] < 128 {
      assert (bz + rest)[..k + 1] == bz[..k + 1];
    } else {
      ScanVarintPrefix(bz, rest, k + 1);
    }
  }

  lemma ReadVarintSize(bz: Bytes)
    ensures ReadVarint(bz).Varint? ==>
              0 < ReadVarint(bz).size <= |bz| && ReadVarint(bz).size <= 10 && ReadVarint(bz).value < TWO64
  {
    ScanVarintSize(bz, 0);
  }

  lemma ReadVarintPrefix(bz: Bytes, rest: Bytes)
    requires ReadVarint(bz).Varint?
    ensures ReadVarint(bz + rest) == ReadVarint(bz)
  {
    ScanVarintPrefix(bz, rest, 0);
  }

  lemma {:induction false} Base128OfVarint(v: nat)
    ensures Base128(EncodeVarint(v)) == v
  {
    if v >= 128 {
      Base128OfVarint(v / 128);
      assert EncodeVarint(v)[1..] == EncodeVarint(v / 128);
    } else {
      assert EncodeVarint(v)[1..] == [];
    }
  }

  lemma {:induction false} VarintBytes(v: nat)
    ensures forall k :: 0 <= k < |EncodeVarint(v)| - 1 ==> EncodeVarint(v)[k] >= 128
    ensures EncodeVarint(v)[|EncodeVarint(v)| - 1] < 128
  {
    if v >= 128 {
      VarintBytes(v / 128);
    }
  }

  function Pow128(n: nat): int {
    if n == 0 then 1 else 128 * Pow128(n - 1)
  }

  lemma {:induction false} VarintLengthBound(v: nat, n: nat)
    requires n >= 1 && v < Pow128(n)
    ensures |EncodeVarint(v)| <= n
    decreases n
  {
    if v >= 128 {
      assert Pow128(1) == 128;
      VarintLengthBound(v / 128, n - 1);
    }
  }

  lemma Pow128Values()
    ensures Pow128(9) == TWO63 && Pow128(10) == 128 * TWO63
  {
    assert Pow128(1) == 128;
    assert Pow128(2) == 128 * 128;
    assert Pow128(3) == 128 * 128 * 128;
    assert Pow128(4) == 0x1000_0000;
    assert Pow128(5) == 0x8_0000_0000;
    assert Pow128(6) == 0x400_0000_0000;
    assert Pow128(7) == 0x2_0000_0000_0000;
    assert Pow128(8) == 0x100_0000_0000_0000;
    assert Pow128(9) == TWO63;
  }

  lemma ScanToEnd(bz: Bytes, n: nat, k: nat)
    requires k <= n < |bz| && n < 10
    requires bz[n] < 128 && forall j :: 0 <= j < n ==> bz[j] >= 128
    ensures ScanVarint(bz, k) == Varint(Base128(bz[..n + 1]) % TWO64, n + 1)
    decreases n - k
  {
  }

  /** A 64-bit value is read back from what was written, whatever follows it. */
  lemma VarintRoundTrip(v: nat, rest: Bytes)
    requires v < TWO64
    ensures ReadVarint(EncodeVarint(v) + rest) == Varint(v, |EncodeVarint(v)|)
  {
    var s := EncodeVarint(v);
    VarintBytes(v);
    Base128OfVarint(v);
    Pow128Values();
    VarintLengthBound(v, 10);
    assert (s + rest)[..|s|] == s;
    ScanToEnd(s + rest, |s| - 1, 0);
  }

  lemma {:induction false} Base128Snoc(s: Bytes, b: byte)
    ensures Base128(s + [b]) == Base128(s) + b % 128 * Pow128(|s|)
  {
    if s == [] {
      assert s + [b] == [b] && [b][1..] == [];
    } else {
      assert (s + [b])[1..] == s[1..] + [b];
      Base128Snoc(s[1..], b);
      MulAssoc(b % 128, Pow128(|s| - 1));
    }
  }

  lemma MulAssoc(d: int, p: int)
    ensures 128 * (d * p) == d * (128 * p)
  {
  }

  lemma {:induction false} Base128Bound(s: Bytes)
    ensures Base128(s) < Pow128(|s|)
  {
    if s != [] {
      Base128Bound(s[1..]);
    }
  }

  /** The tenth byte contributes only its lowest bit. */
  lemma TenthByte(acc: int, d: int)
    requires 0 <= acc < TWO63 && 0 <= d < 128
    ensures acc + d * TWO63 % TWO64 == (acc + d * TWO63) % TWO64
  {
    var m, p := d / 2, d % 2;
    assert d * TWO63 == m * TWO64 + p * TWO63;
    assert (m * TWO64 + p * TWO63) % TWO64 == p * TWO63;
    assert (m * TWO64 + (acc + p * TWO63)) % TWO64 == acc + p * TWO63;
  }

  lemma {:induction false} Pow128Monotone(n: nat, m: nat)
    requires n <= m
    ensures 1 <= Pow128(n) <= Pow128(m)
    decreases m
  {
    if n < m {
      Pow128Monotone(n, m - 1);
    } else if n > 0 {
      Pow128Monotone(n - 1, n - 1);
    }
  }

  /** Accumulating one more byte, with the shift cut off at 64 bits. */
  lemma AccumulateByte(s: Bytes, b: byte)
    requires |s| <= 9
    ensures Base128(s) + b % 128 * Pow128(|s|) % TWO64 == Base128(s + [b]) % TWO64
    ensures |s| <= 8 ==> Base128(s + [b]) % TWO64 == Base128(s + [b])
  {
    hide Base128, Pow128;
    Base128Snoc(s, b);
    Base128Bound(s);
    if |s| == 9 {
      Pow128Values();
      TenthByte(Base128(s), b % 128);
    } else {
      EarlyByteBound(s + [b]);
      Pow128Monotone(|s|, |s|);
      NoTruncation(Base128(s), b % 128, Pow128(|s|));
    }
  }

  lemma EarlyByteBound(s: Bytes)
    requires |s| <= 9
    ensures Base128(s) < TWO63
  {
    hide Base128, Pow128;
    Base128Bound(s);
    Pow128Monotone(|s|, 9);
    Pow128Values();
  }

  lemma NoTruncation(acc: int, d: int, p: int)
    requires 0 <= acc && 0 <= d && 0 <= p && acc + d * p < TWO63
    ensures acc + d * p % TWO64 == acc + d * p == (acc + d * p) % TWO64
  {
    assert d * p >= 0;
  }

  /** The shift-and-accumulate loop of the generated decoders. */
  method ReadVarintAt(dAtA: Bytes, start: nat) returns (r: Varint)
    requires start <= |dAtA|
    ensures r == ReadVarint(dAtA[start..])
  {
    var value, shift, scale, iNdEx := 0, 0, 1, start;
    ghost var bz := dAtA[start..];
    ghost var k := 0;
    assert bz[..0] == [];
    while true
      invariant start <= iNdEx <= |dAtA| && k == iNdEx - start && shift == 7 * k && 0 <= k <= 10
      invariant scale == Pow128(k) && 0 <= value
      invariant k <= 9 ==> value == Base128(bz[..k])
      invariant ScanVarint(bz, 0) == ScanVarint(bz, k)
      decreases 10 - k
    {
      if shift >= 64 {
        return BadVarint(IntOverflow);
      }
      if iNdEx >= |dAtA| {
        return BadVarint(UnexpectedEOF);
      }
      var b := dAtA[iNdEx];
      iNdEx := iNdEx + 1;
      assert bz[k] == b && bz[..k + 1] == bz[..k] + [b];
      AccumulateByte(bz[..k], b);
      value := value + b % 128 * scale % TWO64;
      if b < 128 {
        return Varint(value, iNdEx - start);
      }
      k := k + 1;
      shift := shift + 7;
      scale := scale * 128;
    }
  }

  // ---------------------------------------------------------------- skipping a field

  datatype Step = Next(index: nat) | Stop(error: WireError)

  /** Where the value of wire type `wt` that starts at `j` ends. It may lie beyond the buffer. */
  function ValueEnd(bz: Bytes, j: nat, wt: nat): Step
    requires j <= |bz|
  {
    if wt == 0 then
      var v := ReadVarint(bz[j..]);
      if v.BadVarint? then Stop(v.error) else Next(j + v.size)
    else if wt == 1 then Next(j + 8)
    else if wt == 2 then
      var v := ReadVarint(bz[j..]);
      if v.BadVarint? then Stop(v.error)
      else if v.value >= TWO63 then Stop(InvalidLength)
      else Next(j + v.size + v.value)
    else if wt == 3 || wt == 4 then Next(j)
    else if wt == 5 then Next(j + 4)
    else Stop(IllegalWireType)
  }

  function NewDepth(depth: nat, wt: nat): nat
    requires wt == 4 ==> depth > 0
  {
    if wt == 3 then depth + 1 else if wt == 4 then depth - 1 else depth
  }

  /** `skipAny`, `skipAbci` from index `i` inside `depth` open groups: the index after the field. */
  function SkipFrom(bz: Bytes, i: nat, depth: nat): Step
    decreases if i < |bz| then |bz| - i else 0
  {
    if i >= |bz| then Stop(UnexpectedEOF)
    else
      var tag := ReadVarint(bz[i..]);
      ReadVarintSize(bz[i..]);
      if tag.BadVarint? then Stop(tag.error)
      else
        var wt := tag.value % 8;
        if wt == 4 && depth == 0 then Stop(EndGroup)
        else
          var end := ValueEnd(bz, i + tag.size, wt);
          if end.Stop? then end
          else if end.index >= TWO63 then Stop(InvalidLength)
          else if NewDepth(depth, wt) == 0 then end
          else SkipFrom(bz, end.index, NewDepth(depth, wt))
  }

  function Skip(bz: Bytes): Step {
    SkipFrom(bz, 0, 0)
  }

  lemma {:induction false} SkipAdvances(bz: Bytes, i: nat, depth: nat)
    ensures SkipFrom(bz, i, depth).Next? ==> i < SkipFrom(bz, i, depth).index < TWO63
    decreases if i < |bz| then |bz| - i else 0
  {
    if i < |bz| && SkipFrom(bz, i, depth).Next? {
      ReadVarintSize(bz[i..]);
      var tag := ReadVarint(bz[i..]);
      var end := ValueEnd(bz, i + tag.size, tag.value % 8);
      if NewDepth(depth, tag.value % 8) != 0 {
        SkipAdvances(bz, end.index, NewDepth(depth, tag.value % 8));
      }
    }
  }

  lemma ReadVarintSuffixPrefix(bz: Bytes, rest: Bytes, i: nat)
    requires i <= |bz| && ReadVarint(bz[i..]).Varint?
    ensures ReadVarint((bz + rest)[i..]) == ReadVarint(bz[i..])
  {
    assert (bz + rest)[i..] == bz[i..] + rest;
    ReadVarintPrefix(bz[i..], rest);
  }

  lemma ValueEndPrefix(bz: Bytes, rest: Bytes, j: nat, wt: nat)
    requires j <= |bz| && ValueEnd(bz, j, wt).Next?
    ensures ValueEnd(bz + rest, j, wt) == ValueEnd(bz, j, wt)
  {
    if wt == 0 || wt == 2 {
      ReadVarintSuffixPrefix(bz, rest, j);
    }
  }

  /** A field that ends inside the buffer is skipped the same way whatever follows. */
  lemma {:induction false} SkipPrefix(bz: Bytes, rest: Bytes, i: nat, depth: nat)
    requires SkipFrom(bz, i, depth).Next?
    ensures SkipFrom(bz + rest, i, depth) == SkipFrom(bz, i, depth)
    decreases if i < |bz| then |bz| - i else 0
  {
    hide ScanVarint;
    ReadVarintSize(bz[i..]);
    ReadVarintSuffixPrefix(bz, rest, i);
    var tag := ReadVarint(bz[i..]);
    var wt := tag.value % 8;
    ValueEndPrefix(bz, rest, i + tag.size, wt);
    var end := ValueEnd(bz, i + tag.size, wt);
    if NewDepth(depth, wt) != 0 {
      SkipPrefix(bz, rest, end.index, NewDepth(depth, wt));
    }
  }

  /** The loop of `skipAny` and `skipAbci`. */
  method SkipField(dAtA: Bytes) returns (r: Step)
    ensures r == Skip(dAtA)
  {
    hide ScanVarint;
    var iNdEx: nat, depth: nat := 0, 0;
    while iNdEx < |dAtA|
      invariant SkipFrom(dAtA, iNdEx, depth) == Skip(dAtA)
      decreases if iNdEx < |dAtA| then |dAtA| - iNdEx else 0
    {
      var tag := ReadVarintAt(dAtA, iNdEx);
      if tag.BadVarint? {
        return Stop(tag.error);
      }
      ReadVarintSize(dAtA[iNdEx..]);
      iNdEx := iNdEx + tag.size;
      var wireType := tag.value % 8;
      match wireType {
        case 0 =>
          var v := ReadVarintAt(dAtA, iNdEx);
          if v.BadVarint? {
            return Stop(v.error);
          }
          iNdEx := iNdEx + v.size;
        case 1 =>
          iNdEx := iNdEx + 8;
        case 2 =>
          var length := ReadVarintAt(dAtA, iNdEx);
          if length.BadVarint? {
            return Stop(length.error);
          }
          if length.value >= TWO63 {
            return Stop(InvalidLength);
          }
          iNdEx := iNdEx + length.size + length.value;
        case 3 =>
          depth := depth + 1;
        case 4 =>
          if depth == 0 {
            return Stop(EndGroup);
          }
          depth := depth - 1;
        case 5 =>
          iNdEx := iNdEx + 4;
        case _ =>
          return Stop(IllegalWireType);
      }
      if iNdEx >= TWO63 {
        return Stop(InvalidLength);
      }
      if depth == 0 {
        return Next(iNdEx);
      }
    }
    return Stop(UnexpectedEOF);
  }
}
