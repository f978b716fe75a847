/** Encoding, and that decoding undoes it (codec/types/any.pb.go, types/abci.pb.go).

  The writers fill a buffer from the back, starting from a size computed in advance. */
module MessageCodec {
  import opened Lex
  import opened Outcomes
  import opened Wire
  import opened Messages

  // ---------------------------------------------------------------- the encoding

  function LengthField(tag: byte, body: Bytes): Bytes {
    [tag] + EncodeVarint(|body|) + body
  }

  function OptionalBytes(tag: byte, body: Bytes): Bytes {
    if body == [] then [] else LengthField(tag, body)
  }

  function OptionalVarint(tag: byte, v: nat): Bytes {
    if v == 0 then [] else [tag] + EncodeVarint(v)
  }

  function EncodeMsgData(d: MsgData): Bytes {
    OptionalBytes(0x0a, d.msgType) + OptionalBytes(0x12, d.data)
  }

  function EncodeEntries(es: seq<MsgData>): Bytes {
    if es == [] then [] else LengthField(0x0a, EncodeMsgData(es[0])) + EncodeEntries(es[1..])
  }

  function Encode(m: Message): Bytes {
    match m
    case Any(typeUrl, value, unrecognized) =>
      OptionalBytes(0x0a, typeUrl) + OptionalBytes(0x12, value) + unrecognized
    case GasInfo(gasWanted, gasUsed) => OptionalVarint(0x08, gasWanted) + OptionalVarint(0x10, gasUsed)
    case SingleMsg(d) => EncodeMsgData(d)
    case TxMsgData(entries) => EncodeEntries(entries)
  }

  // ---------------------------------------------------------------- sizes

  function LengthFieldSize(l: nat): nat {
    1 + l + Sov(l)
  }

  function OptionalSize(l: nat): nat {
    if l > 0 then LengthFieldSize(l) else 0
  }

  function MsgDataSize(d: MsgData): nat {
    OptionalSize(|d.msgType|) + OptionalSize(|d.data|)
  }

  function EntriesSize(es: seq<MsgData>): nat {
    if es == [] then 0 else LengthFieldSize(MsgDataSize(es[0])) + EntriesSize(es[1..])
  }

  /** The `Size` methods. */
  function Size(m: Message): nat {
    match m
    case Any(typeUrl, value, unrecognized) => OptionalSize(|typeUrl|) + OptionalSize(|value|) + |unrecognized|
    case GasInfo(gasWanted, gasUsed) =>
      (if gasWanted != 0 then 1 + Sov(gasWanted) else 0) + (if gasUsed != 0 then 1 + Sov(gasUsed) else 0)
    case SingleMsg(d) => MsgDataSize(d)
    case TxMsgData(entries) => EntriesSize(entries)
  }

  lemma OptionalBytesSize(tag: byte, body: Bytes)
    ensures |OptionalBytes(tag, body)| == OptionalSize(|body|)
  {
    SovIsLength(|body|);
  }

  lemma MsgDataEncodedSize(d: MsgData)
    ensures |EncodeMsgData(d)| == MsgDataSize(d)
  {
    OptionalBytesSize(0x0a, d.msgType);
    OptionalBytesSize(0x12, d.data);
  }

  lemma {:induction false} EntriesEncodedSize(es: seq<MsgData>)
    ensures |EncodeEntries(es)| == EntriesSize(es)
  {
    if es != [] {
      MsgDataEncodedSize(es[0]);
      SovIsLength(MsgDataSize(es[0]));
      EntriesEncodedSize(es[1..]);
    }
  }

  /** `Size` is the length of the encoding. */
  lemma SizeIsLength(m: Message)
    ensures |Encode(m)| == Size(m)
  {
    match m
    case Any(typeUrl, value, _) =>
      OptionalBytesSize(0x0a, typeUrl);
      OptionalBytesSize(0x12, value);
    case GasInfo(gasWanted, gasUsed) =>
      SovIsLength(gasWanted);
      SovIsLength(gasUsed);
    case SingleMsg(d) => MsgDataEncodedSize(d);
    case TxMsgData(entries) => EntriesEncodedSize(entries);
  }

  // ---------------------------------------------------------------- decoding an encoding

  lemma ReadTag(tag: byte, rest: Bytes)
    requires tag < 128
    ensures ReadVarint([tag] + rest) == Varint(tag, 1)
  {
    hide ReadVarint;
    assert EncodeVarint(tag) == [tag];
    VarintRoundTrip(tag, rest);
  }

  lemma NextLengthField(k: Kind, tag: byte, body: Bytes, base: nat)
    requires tag < 128 && tag % 8 == 2 && WireTypeOf(k, tag / 8) == Some(2)
    requires base + |LengthField(tag, body)| < TWO63
    ensures NextField(k, LengthField(tag, body), base) == Got(BytesField(tag / 8, body), |LengthField(tag, body)|)
  {
    hide ReadVarint, EncodeVarint;
    var bz := LengthField(tag, body);
    var len := EncodeVarint(|body|);
    assert bz == [tag] + (len + body) && bz[1..] == len + body;
    ReadTag(tag, len + body);
    VarintRoundTrip(|body|, body);
    assert bz[1 + |len|..1 + |len| + |body|] == body;
  }

  lemma NextVarintField(k: Kind, tag: byte, v: nat, base: nat)
    requires tag < 128 && tag % 8 == 0 && tag > 0 && WireTypeOf(k, tag / 8) == Some(0)
    requires v < TWO64
    ensures NextField(k, [tag] + EncodeVarint(v), base) == Got(VarintField(tag / 8, v), 1 + |EncodeVarint(v)|)
  {
    hide ReadVarint, EncodeVarint;
    var bz := [tag] + EncodeVarint(v);
    assert bz[1..] == EncodeVarint(v) + [];
    ReadTag(tag, EncodeVarint(v));
    VarintRoundTrip(v, []);
  }

  lemma DecodeOne(bz: Bytes, base: nat, m: Message, f: Field)
    requires bz != [] && NextField(KindOf(m), bz, base) == Got(f, |bz|)
    ensures Decode(bz, base, m) == Apply(m, f)
  {
    hide NextField, Apply;
    assert bz[|bz|..] == [];
  }

  /** An absent field leaves the message alone, a present one is stored. */
  lemma DecodeOptionalBytes(tag: byte, body: Bytes, base: nat, m: Message)
    requires tag == 0x0a || tag == 0x12
    requires m.Any? || m.SingleMsg?
    requires base + |OptionalBytes(tag, body)| < TWO63
    ensures body != [] ==> Decode(OptionalBytes(tag, body), base, m) == Apply(m, BytesField(tag / 8, body))
    ensures body == [] ==> Decode(OptionalBytes(tag, body), base, m) == Ok(m)
  {
    hide NextField, Apply;
    if body != [] {
      NextLengthField(KindOf(m), tag, body, base);
      DecodeOne(OptionalBytes(tag, body), base, m, BytesField(tag / 8, body));
    }
  }

  lemma DecodeOptionalVarint(tag: byte, v: nat, base: nat, m: Message)
    requires (tag == 0x08 || tag == 0x10) && m.GasInfo? && v < TWO64
    ensures v != 0 ==> Decode(OptionalVarint(tag, v), base, m) == Apply(m, VarintField(tag / 8, v))
    ensures v == 0 ==> Decode(OptionalVarint(tag, v), base, m) == Ok(m)
  {
    hide NextField, Apply;
    if v != 0 {
      NextVarintField(KindOf(m), tag, v, base);
      DecodeOne(OptionalVarint(tag, v), base, m, VarintField(tag / 8, v));
    }
  }

  lemma MsgDataRoundTrip(d: MsgData)
    requires |EncodeMsgData(d)| < TWO63
    ensures Decode(EncodeMsgData(d), 0, EMPTY_MSG) == Ok(SingleMsg(d))
  {
    hide Decode, OptionalBytes;
    var a, b := OptionalBytes(0x0a, d.msgType), OptionalBytes(0x12, d.data);
    DecodeOptionalBytes(0x0a, d.msgType, 0, EMPTY_MSG);
    var m1 := SingleMsg(MsgData(d.msgType, []));
    assert Decode(a, 0, EMPTY_MSG) == Ok(m1);
    DecodeConcat(a, b, 0, EMPTY_MSG);
    DecodeOptionalBytes(0x12, d.data, |a|, m1);
  }

  lemma {:induction false} EntriesRoundTrip(es: seq<MsgData>, acc: seq<MsgData>, base: nat)
    requires base + |EncodeEntries(es)| < TWO63
    ensures Decode(EncodeEntries(es), base, TxMsgData(acc)) == Ok(TxMsgData(acc + es))
    decreases |es|
  {
    hide NextField, LengthField, Decode;
    if es == [] {
      assert acc + es == acc;
      DecodeEmpty(base, TxMsgData(acc));
    } else {
      var e := EncodeMsgData(es[0]);
      var first := LengthField(0x0a, e);
      assert first != [] && |e| <= |first| by { LengthFieldContains(0x0a, e); }
      NextLengthField(TxMsgDataKind, 0x0a, e, base);
      MsgDataRoundTrip(es[0]);
      DecodeOne(first, base, TxMsgData(acc), BytesField(1, e));
      DecodeConcat(first, EncodeEntries(es[1..]), base, TxMsgData(acc));
      EntriesRoundTrip(es[1..], acc + [es[0]], base + |first|);
      assert acc + [es[0]] + es[1..] == acc + es;
    }
  }

  lemma DecodeEmpty(base: nat, m: Message)
    ensures Decode([], base, m) == Ok(m)
  {
  }

  lemma LengthFieldContains(tag: byte, body: Bytes)
    ensures LengthField(tag, body) != [] && |body| <= |LengthField(tag, body)|
  {
  }

  /** The message `Unmarshal` starts from. */
  function Fresh(m: Message): Message {
    match m
    case Any(_, _, _) => Any([], [], [])
    case GasInfo(_, _) => GasInfo(0, 0)
    case SingleMsg(_) => EMPTY_MSG
    case TxMsgData(_) => TxMsgData([])
  }

  /** Messages the source can hold: 64-bit gas values, buffer lengths below 2^63, and unrecognized
      bytes that are themselves a sequence of unknown fields (none, for example). */
  ghost predicate Encodable(m: Message) {
    && |Encode(m)| < TWO63
    && (m.GasInfo? ==> m.gasWanted < TWO64 && m.gasUsed < TWO64)
    && (m.Any? ==> AllUnknown(m.unrecognized))
  }

  /** A sequence of complete fields that `Any` does not know. */
  ghost predicate AllUnknown(u: Bytes)
    decreases |u|
  {
    u == [] || exists n :: 0 < n <= |u| && IsUnknownField(AnyKind, u[..n]) && AllUnknown(u[n..])
  }

  lemma GasInfoRoundTrip(m: Message)
    requires m.GasInfo? && m.gasWanted < TWO64 && m.gasUsed < TWO64
    ensures Decode(Encode(m), 0, Fresh(m)) == Ok(m)
  {
    hide Decode, OptionalVarint;
    var a, b := OptionalVarint(0x08, m.gasWanted), OptionalVarint(0x10, m.gasUsed);
    DecodeOptionalVarint(0x08, m.gasWanted, 0, GasInfo(0, 0));
    var m1 := GasInfo(m.gasWanted, 0);
    assert Decode(a, 0, GasInfo(0, 0)) == Ok(m1);
    DecodeConcat(a, b, 0, GasInfo(0, 0));
    DecodeOptionalVarint(0x10, m.gasUsed, |a|, m1);
  }

  lemma AnyFieldsRoundTrip(typeUrl: Bytes, value: Bytes)
    requires |OptionalBytes(0x0a, typeUrl)| + |OptionalBytes(0x12, value)| < TWO63
    ensures Decode(OptionalBytes(0x0a, typeUrl) + OptionalBytes(0x12, value), 0, Any([], [], []))
         == Ok(Any(typeUrl, value, []))
  {
    hide Decode, OptionalBytes;
    var a, b := OptionalBytes(0x0a, typeUrl), OptionalBytes(0x12, value);
    DecodeOptionalBytes(0x0a, typeUrl, 0, Any([], [], []));
    var m1 := Any(typeUrl, [], []);
    assert Decode(a, 0, Any([], [], [])) == Ok(m1);
    DecodeConcat(a, b, 0, Any([], [], []));
    DecodeOptionalBytes(0x12, value, |a|, m1);
  }

  lemma {:induction false} DecodeAllUnknown(u: Bytes, base: nat, m: Message)
    requires m.Any? && AllUnknown(u) && base + |u| < TWO63
    ensures Decode(u, base, m) == Ok(m.(unrecognized := m.unrecognized + u))
    decreases |u|
  {
    hide NextField, Decode;
    if u == [] {
      assert m.unrecognized + u == m.unrecognized;
      DecodeEmpty(base, m);
    } else {
      var n :| 0 < n <= |u| && IsUnknownField(AnyKind, u[..n]) && AllUnknown(u[n..]);
      var first := u[..n];
      assert u == first + u[n..];
      DecodeUnknownField(first, base, m);
      DecodeConcat(first, u[n..], base, m);
      DecodeAllUnknown(u[n..], base + n, m.(unrecognized := m.unrecognized + first));
      assert m.unrecognized + first + u[n..] == m.unrecognized + u;
    }
  }

  /** Decoding an encoded message gives the message back. */
  lemma RoundTrip(m: Message)
    requires Encodable(m)
    ensures Decode(Encode(m), 0, Fresh(m)) == Ok(m)
  {
    hide Decode, OptionalBytes, EncodeEntries, EncodeMsgData, OptionalVarint;
    match m
    case Any(typeUrl, value, unrecognized) =>
      var known := OptionalBytes(0x0a, typeUrl) + OptionalBytes(0x12, value);
      AnyFieldsRoundTrip(typeUrl, value);
      DecodeConcat(known, unrecognized, 0, Any([], [], []));
      DecodeAllUnknown(unrecognized, |known|, Any(typeUrl, value, []));
      assert [] + unrecognized == unrecognized;
    case GasInfo(_, _) => GasInfoRoundTrip(m);
    case SingleMsg(d) => MsgDataRoundTrip(d);
    case TxMsgData(entries) =>
      EntriesRoundTrip(entries, [], 0);
      assert [] + entries == entries;
  }

  // ---------------------------------------------------------------- writing backwards

  ghost predicate Unchanged(now: Bytes, before: Bytes, lo: nat, hi: nat) {
    |now| == |before| && lo <= hi <= |now| && now[..lo] == before[..lo] && now[hi..] == before[hi..]
  }

  /** Two writes, the second in front of the first. */
  lemma WritesCompose(before: Bytes, mid: Bytes, now: Bytes, lo: nat, m: nat, hi: nat)
    requires Unchanged(mid, before, m, hi) && Unchanged(now, mid, lo, m)
    ensures Unchanged(now, before, lo, hi)
    ensures now[lo..hi] == now[lo..m] + mid[m..hi]
  {
    assert now[hi..] == now[m..][hi - m..] && mid[hi..] == mid[m..][hi - m..];
    assert now[..lo] == mid[..lo] == mid[..m][..lo] == before[..m][..lo] == before[..lo];
    assert now[m..hi] == now[m..][..hi - m] && mid[m..hi] == mid[m..][..hi - m];
  }

  /** Payload, then its length, then the tag, each in front of the one before. */
  method WriteLengthField(dAtA: array<byte>, end: nat, tag: byte, body: Bytes) returns (i: nat)
    requires LengthFieldSize(|body|) <= end <= dAtA.Length
    modifies dAtA
    ensures i == end - LengthFieldSize(|body|)
    ensures dAtA[i..end] == LengthField(tag, body)
    ensures Unchanged(dAtA[..], old(dAtA[..]), i, end)
  {
    hide EncodeVarint, Sov;
    i := end - |body|;
    forall k | 0 <= k < |body| {
      dAtA[i + k] := body[k];
    }
    ghost var afterBody := dAtA[..];
    assert afterBody[i..end] == body;
    var j := EncodeVarintInto(dAtA, i, |body|);
    ghost var afterLength := dAtA[..];
    assert afterLength[i..end] == afterBody[i..end];
    i := j - 1;
    dAtA[i] := tag;
    assert dAtA[i..end] == [tag] + afterLength[j..end - |body|] + afterLength[end - |body|..end];
  }

  method WriteMsgData(dAtA: array<byte>, end: nat, d: MsgData) returns (i: nat)
    requires MsgDataSize(d) <= end <= dAtA.Length
    modifies dAtA
    ensures i == end - MsgDataSize(d)
    ensures dAtA[i..end] == EncodeMsgData(d)
    ensures Unchanged(dAtA[..], old(dAtA[..]), i, end)
  {
    hide LengthField, Sov;
    i := end;
    if |d.data| > 0 {
      i := WriteLengthField(dAtA, i, 0x12, d.data);
    }
    ghost var j, first := i, dAtA[..];
    if |d.msgType| > 0 {
      i := WriteLengthField(dAtA, i, 0x0a, d.msgType);
    }
    WritesCompose(old(dAtA[..]), first, dAtA[..], i, j, end);
  }

  /** One entry of `TxMsgData` with its own length in front. */
  method WriteEntry(dAtA: array<byte>, end: nat, d: MsgData) returns (i: nat)
    requires LengthFieldSize(MsgDataSize(d)) <= end <= dAtA.Length
    modifies dAtA
    ensures i == end - LengthFieldSize(MsgDataSize(d))
    ensures dAtA[i..end] == LengthField(0x0a, EncodeMsgData(d))
    ensures Unchanged(dAtA[..], old(dAtA[..]), i, end)
  {
    hide EncodeVarint, Sov, EncodeMsgData, MsgDataSize;
    var j := WriteMsgData(dAtA, end, d);
    var size := end - j;
    MsgDataEncodedSize(d);
    ghost var entry := dAtA[..];
    i := WriteVarintField(dAtA, j, 0x0a, size);
    WritesCompose(old(dAtA[..]), entry, dAtA[..], i, j, end);
  }

  /** `TxMsgData` writes its entries last to first. */
  method WriteEntries(dAtA: array<byte>, end: nat, es: seq<MsgData>) returns (i: nat)
    requires EntriesSize(es) <= end <= dAtA.Length
    modifies dAtA
    ensures i == end - EntriesSize(es)
    ensures dAtA[i..end] == EncodeEntries(es)
    ensures Unchanged(dAtA[..], old(dAtA[..]), i, end)
  {
    hide LengthField, LengthFieldSize;
    i := end;
    var iNdEx := |es|;
    assert es[|es|..] == [];
    while iNdEx > 0
      invariant 0 <= iNdEx <= |es|
      invariant EntriesSize(es[iNdEx..]) <= EntriesSize(es)
      invariant i == end - EntriesSize(es[iNdEx..])
      invariant dAtA[i..end] == EncodeEntries(es[iNdEx..])
      invariant Unchanged(dAtA[..], old(dAtA[..]), i, end)
    {
      iNdEx := iNdEx - 1;
      ghost var rest, j := dAtA[..], i;
      assert es[iNdEx..][0] == es[iNdEx] && es[iNdEx..][1..] == es[iNdEx + 1..];
      EntriesSizeSuffix(es, iNdEx);
      i := WriteEntry(dAtA, i, es[iNdEx]);
      WritesCompose(old(dAtA[..]), rest, dAtA[..], i, j, end);
    }
    assert es[0..] == es;
  }

  lemma {:induction false} EntriesSizeSuffix(es: seq<MsgData>, i: nat)
    requires i <= |es|
    ensures EntriesSize(es[i..]) <= EntriesSize(es)
    decreases i
  {
    if i == 0 {
      assert es[0..] == es;
    } else {
      EntriesSizeSuffix(es, i - 1);
      assert es[i - 1..][1..] == es[i..];
    }
  }

  method WriteVarintField(dAtA: array<byte>, end: nat, tag: byte, v: nat) returns (i: nat)
    requires 1 + Sov(v) <= end <= dAtA.Length
    modifies dAtA
    ensures i == end - (1 + Sov(v))
    ensures dAtA[i..end] == [tag] + EncodeVarint(v)
    ensures Unchanged(dAtA[..], old(dAtA[..]), i, end)
  {
    hide EncodeVarint, Sov;
    var j := EncodeVarintInto(dAtA, end, v);
    ghost var written := dAtA[..];
    i := j - 1;
    dAtA[i] := tag;
    assert dAtA[i..end] == [tag] + written[j..end];
  }

  method WriteGasInfo(dAtA: array<byte>, end: nat, m: Message) returns (i: nat)
    requires m.GasInfo? && Size(m) <= end <= dAtA.Length
    modifies dAtA
    ensures i == end - Size(m)
    ensures dAtA[i..end] == Encode(m)
    ensures Unchanged(dAtA[..], old(dAtA[..]), i, end)
  {
    hide EncodeVarint, Sov;
    i := end;
    if m.gasUsed != 0 {
      i := WriteVarintField(dAtA, i, 0x10, m.gasUsed);
    }
    ghost var j, first := i, dAtA[..];
    if m.gasWanted != 0 {
      i := WriteVarintField(dAtA, i, 0x08, m.gasWanted);
    }
    WritesCompose(old(dAtA[..]), first, dAtA[..], i, j, end);
  }

  method WriteAny(dAtA: array<byte>, end: nat, m: Message) returns (i: nat)
    requires m.Any? && Size(m) <= end <= dAtA.Length
    modifies dAtA
    ensures i == end - Size(m)
    ensures dAtA[i..end] == Encode(m)
    ensures Unchanged(dAtA[..], old(dAtA[..]), i, end)
  {
    hide LengthField, Sov;
    i := end - |m.unrecognized|;
    forall k | 0 <= k < |m.unrecognized| {
      dAtA[i + k] := m.unrecognized[k];
    }
    ghost var tail, h := dAtA[..], i;
    assert tail[h..end] == m.unrecognized;
    i := WriteMsgData(dAtA, i, MsgData(m.typeUrl, m.value));
    WritesCompose(old(dAtA[..]), tail, dAtA[..], i, h, end);
  }

  /** `MarshalToSizedBuffer`: the encoding ends at `end` and takes exactly `Size` bytes. */
  method MarshalToSizedBuffer(m: Message, dAtA: array<byte>, end: nat) returns (n: nat)
    requires Size(m) <= end <= dAtA.Length
    modifies dAtA
    ensures n == Size(m)
    ensures dAtA[end - n..end] == Encode(m)
    ensures Unchanged(dAtA[..], old(dAtA[..]), end - n, end)
  {
    hide Sov, EncodeEntries, EncodeMsgData, EntriesSize, MsgDataSize;
    var i: nat;
    match m {
      case Any(_, _, _) => i := WriteAny(dAtA, end, m);
      case GasInfo(_, _) => i := WriteGasInfo(dAtA, end, m);
      case SingleMsg(d) => i := WriteMsgData(dAtA, end, d);
      case TxMsgData(entries) => i := WriteEntries(dAtA, end, entries);
    }
    n := end - i;
  }

  /** `Marshal` allocates `Size` bytes and fills all of them. */
  method Marshal(m: Message) returns (bz: Bytes)
    ensures bz == Encode(m) && |bz| == Size(m)
  {
    hide Sov, Encode;
    SizeIsLength(m);
    var size := Size(m);
    var dAtA := new byte[size];
    var n := MarshalToSizedBuffer(m, dAtA, size);
    bz := dAtA[size - n..size];
  }

  // ---------------------------------------------------------------- Unmarshal

  /** The value of a known field at `start`, where the field itself began at `pre`. */
  method ReadKnown(dAtA: Bytes, pre: nat, start: nat, num: int, wireType: nat) returns (r: FieldResult)
    requires pre <= start <= |dAtA|
    ensures r == KnownValue(dAtA[pre..], pre, start - pre, num, wireType)
  {
    hide ReadVarint;
    ghost var bz := dAtA[pre..];
    assert bz[start - pre..] == dAtA[start..];
    var v := ReadVarintAt(dAtA, start);
    ReadVarintSize(dAtA[start..]);
    if v.BadVarint? {
      return Bad(v.error);
    }
    var iNdEx := start + v.size;
    if wireType == 0 {
      return Got(VarintField(num, v.value), iNdEx - pre);
    }
    if v.value >= TWO63 {
      return Bad(InvalidLength);
    }
    var postIndex := iNdEx + v.value;
    if postIndex >= TWO63 {
      return Bad(InvalidLength);
    }
    if postIndex > |dAtA| {
      return Bad(UnexpectedEOF);
    }
    assert bz[iNdEx - pre..postIndex - pre] == dAtA[iNdEx..postIndex];
    return Got(BytesField(num, dAtA[iNdEx..postIndex]), postIndex - pre);
  }

  method ReadUnknown(dAtA: Bytes, pre: nat) returns (r: FieldResult)
    requires pre <= |dAtA|
    ensures r == UnknownValue(dAtA[pre..], pre)
  {
    hide SkipFrom;
    var skippy := SkipField(dAtA[pre..]);
    if skippy.Stop? {
      return Bad(skippy.error);
    }
    if pre + skippy.index >= TWO63 {
      return Bad(InvalidLength);
    }
    if pre + skippy.index > |dAtA| {
      return Bad(UnexpectedEOF);
    }
    assert dAtA[pre..][..skippy.index] == dAtA[pre..pre + skippy.index];
    return Got(Unknown(dAtA[pre..pre + skippy.index]), skippy.index);
  }

  /** Tag, checks and value of the field at `pre`. */
  method ReadField(k: Kind, dAtA: Bytes, pre: nat) returns (r: FieldResult)
    requires pre < |dAtA|
    ensures r == NextField(k, dAtA[pre..], pre)
  {
    hide ReadVarint, KnownValue, UnknownValue;
    var wire := ReadVarintAt(dAtA, pre);
    ReadVarintSize(dAtA[pre..]);
    if wire.BadVarint? {
      return Bad(wire.error);
    }
    var fieldNum, wireType := Int32(wire.value / 8), wire.value % 8;
    if wireType == 4 {
      return Bad(EndGroup);
    }
    if fieldNum <= 0 {
      return Bad(IllegalTag);
    }
    var want := WireTypeOf(k, fieldNum);
    if want.None? {
      r := ReadUnknown(dAtA, pre);
      return;
    }
    if wireType != want.value {
      return Bad(WrongWireType);
    }
    r := ReadKnown(dAtA, pre, pre + wire.size, fieldNum, wireType);
  }

  /** `Unmarshal` into `m0`: an index loop that updates the message field by field. */
  method Unmarshal(dAtA: Bytes, m0: Message) returns (r: Decoded)
    ensures r == Decode(dAtA, 0, m0)
    decreases |dAtA|
  {
    hide NextField;
    var m, iNdEx := m0, 0;
    assert dAtA[0..] == dAtA;
    while iNdEx < |dAtA|
      invariant 0 <= iNdEx <= |dAtA|
      invariant Decode(dAtA[iNdEx..], iNdEx, m) == Decode(dAtA, 0, m0)
    {
      var f := ReadField(KindOf(m), dAtA, iNdEx);
      ghost var bz := dAtA[iNdEx..];
      NextFieldSize(KindOf(m), bz, iNdEx);
      if f.Bad? {
        return Err(f.error);
      }
      var next: Decoded;
      if m.TxMsgData? && f.field.BytesField? {
        var entry := Unmarshal(f.field.body, EMPTY_MSG);
        DecodeKind(f.field.body, 0, EMPTY_MSG);
        next := if entry.Err? then entry else Ok(TxMsgData(m.entries + [entry.message.msg]));
      } else {
        next := Apply(m, f.field);
      }
      assert next == Apply(m, f.field);
      if next.Err? {
        return next;
      }
      assert bz[f.size..] == dAtA[iNdEx + f.size..];
      m := next.message;
      iNdEx := iNdEx + f.size;
    }
    return Ok(m);
  }
}
