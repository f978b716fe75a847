/** The generated codecs of `Any` (codec/types/any.pb.go) and of `GasInfo`, `MsgData` and `TxMsgData`
  (types/abci.pb.go).

  The four decoders are instances of one template, so they are modelled once, with the known fields
  of each message type as a table. */
module Messages {
  import opened Lex
  import opened Outcomes
  import opened Wire

  datatype MsgData = MsgData(msgType: Bytes, data: Bytes)

  datatype Message =
    | Any(typeUrl: Bytes, value: Bytes, unrecognized: Bytes)
    | GasInfo(gasWanted: nat, gasUsed: nat)
    | SingleMsg(msg: MsgData)
    | TxMsgData(entries: seq<MsgData>)

  datatype Kind = AnyKind | GasInfoKind | MsgDataKind | TxMsgDataKind

  function KindOf(m: Message): Kind {
    match m
    case Any(_, _, _) => AnyKind
    case GasInfo(_, _) => GasInfoKind
    case SingleMsg(_) => MsgDataKind
    case TxMsgData(_) => TxMsgDataKind
  }

  const EMPTY_MSG: Message := SingleMsg(MsgData([], []))

  /** The wire type a known field must have. */
  function WireTypeOf(k: Kind, num: int): Option<nat> {
    match k
    case AnyKind => if num == 1 || num == 2 then Some(2) else None
    case GasInfoKind => if num == 1 || num == 2 then Some(0) else None
    case MsgDataKind => if num == 1 || num == 2 then Some(2) else None
    case TxMsgDataKind => if num == 1 then Some(2) else None
  }

  datatype Field = VarintField(num: int, v: nat) | BytesField(num: int, body: Bytes) | Unknown(raw: Bytes)

  datatype FieldResult = Got(field: Field, size: nat) | Bad(error: WireError)

  datatype Decoded = Ok(message: Message) | Err(error: WireError)

  /** The conversion `int32(x)`. */
  function Int32(x: nat): int {
    var y := x % 0x1_0000_0000;
    if y >= 0x8000_0000 then y - 0x1_0000_0000 else y
  }

  // ---------------------------------------------------------------- decoding one field

  /** The value of a known field, which starts `n` bytes into `bz`. `base` is the index of `bz` in the
      whole buffer; it matters only for the overflow test on `iNdEx + length`. */
  function KnownValue(bz: Bytes, base: nat, n: nat, num: int, wt: nat): FieldResult
    requires n <= |bz|
  {
    var v := ReadVarint(bz[n..]);
    ReadVarintSize(bz[n..]);
    if v.BadVarint? then Bad(v.error)
    else if wt == 0 then Got(VarintField(num, v.value), n + v.size)
    else if v.value >= TWO63 || base + n + v.size + v.value >= TWO63 then Bad(InvalidLength)
    else if n + v.size + v.value > |bz| then Bad(UnexpectedEOF)
    else Got(BytesField(num, bz[n + v.size..n + v.size + v.value]), n + v.size + v.value)
  }

  function UnknownValue(bz: Bytes, base: nat): FieldResult {
    var end := Skip(bz);
    if end.Stop? then Bad(end.error)
    else if base + end.index >= TWO63 then Bad(InvalidLength)
    else if end.index > |bz| then Bad(UnexpectedEOF)
    else Got(Unknown(bz[..end.index]), end.index)
  }

  /** One turn of an `Unmarshal` loop: the field at the front of `bz`. */
  function NextField(k: Kind, bz: Bytes, base: nat): FieldResult {
    var tag := ReadVarint(bz);
    ReadVarintSize(bz);
    if tag.BadVarint? then Bad(tag.error)
    else
      var num, wt := Int32(tag.value / 8), tag.value % 8;
      if wt == 4 then Bad(EndGroup)
      else if num <= 0 then Bad(IllegalTag)
      else if WireTypeOf(k, num).None? then UnknownValue(bz, base)
      else if WireTypeOf(k, num).value != wt then Bad(WrongWireType)
      else KnownValue(bz, base, tag.size, num, wt)
  }

  function BodySize(f: Field): nat {
    if f.BytesField? then |f.body| else 0
  }

  lemma NextFieldSize(k: Kind, bz: Bytes, base: nat)
    ensures var f := NextField(k, bz, base);
            f.Got? ==> 0 < f.size <= |bz| && BodySize(f.field) < f.size
  {
    hide ScanVarint, SkipFrom;
    ReadVarintSize(bz);
    var tag := ReadVarint(bz);
    if tag.Varint? {
      ReadVarintSize(bz[tag.size..]);
    }
    SkipAdvances(bz, 0, 0);
  }

  // ---------------------------------------------------------------- decoding a message

  /** What a decoded field does to the message. Repeated entries are decoded and appended. */
  function Apply(m: Message, f: Field): Decoded
    decreases BodySize(f), 2
  {
    match f
    case VarintField(num, v) =>
      if m.GasInfo? then Ok(if num == 1 then m.(gasWanted := v) else m.(gasUsed := v)) else Ok(m)
    case BytesField(num, body) => (
      match m
      case Any(_, _, _) => Ok(if num == 1 then m.(typeUrl := body) else m.(value := body))
      case SingleMsg(d) =>
        Ok(SingleMsg(if num == 1 then MsgData(body, d.data) else MsgData(d.msgType, body)))
      case TxMsgData(entries) =>
        var entry := Decode(body, 0, EMPTY_MSG);
        if entry.Err? then entry
        else if entry.message.SingleMsg? then Ok(TxMsgData(entries + [entry.message.msg]))
        else Ok(m)
      case GasInfo(_, _) => Ok(m)
      )
    case Unknown(raw) => Ok(if m.Any? then m.(unrecognized := m.unrecognized + raw) else m)
  }

  /** `Unmarshal` of `bz`, found at index `base` of the buffer, into `m`. */
  function Decode(bz: Bytes, base: nat, m: Message): Decoded
    decreases |bz|, 1
  {
    if bz == [] then Ok(m)
    else
      var f := NextField(KindOf(m), bz, base);
      NextFieldSize(KindOf(m), bz, base);
      if f.Bad? then Err(f.error)
      else
        var next := Apply(m, f.field);
        if next.Err? then next else Decode(bz[f.size..], base + f.size, next.message)
  }

  lemma {:induction false} ApplyKind(m: Message, f: Field)
    ensures Apply(m, f).Ok? ==> KindOf(Apply(m, f).message) == KindOf(m)
  {
  }

  lemma {:induction false} DecodeKind(bz: Bytes, base: nat, m: Message)
    ensures Decode(bz, base, m).Ok? ==> KindOf(Decode(bz, base, m).message) == KindOf(m)
    decreases |bz|
  {
    hide ReadVarint, NextField;
    if bz != [] && Decode(bz, base, m).Ok? {
      var f := NextField(KindOf(m), bz, base);
      NextFieldSize(KindOf(m), bz, base);
      ApplyKind(m, f.field);
      DecodeKind(bz[f.size..], base + f.size, Apply(m, f.field).message);
    }
  }

  // ---------------------------------------------------------------- decoding piece by piece

  lemma KnownValuePrefix(bz: Bytes, rest: Bytes, base: nat, n: nat, num: int, wt: nat)
    requires n <= |bz| && KnownValue(bz, base, n, num, wt).Got?
    ensures KnownValue(bz + rest, base, n, num, wt) == KnownValue(bz, base, n, num, wt)
  {
    hide ReadVarint;
    ReadVarintSuffixPrefix(bz, rest, n);
    var v := ReadVarint(bz[n..]);
    if wt != 0 {
      assert (bz + rest)[n + v.size..n + v.size + v.value] == bz[n + v.size..n + v.size + v.value];
    }
  }

  lemma UnknownValuePrefix(bz: Bytes, rest: Bytes, base: nat)
    requires UnknownValue(bz, base).Got?
    ensures UnknownValue(bz + rest, base) == UnknownValue(bz, base)
  {
    hide SkipFrom;
    SkipPrefix(bz, rest, 0, 0);
    assert (bz + rest)[..Skip(bz).index] == bz[..Skip(bz).index];
  }

  /** A complete field is decoded the same way whatever follows it. */
  lemma NextFieldPrefix(k: Kind, bz: Bytes, rest: Bytes, base: nat)
    requires NextField(k, bz, base).Got?
    ensures NextField(k, bz + rest, base) == NextField(k, bz, base)
  {
    hide ReadVarint, KnownValue, UnknownValue;
    ReadVarintSize(bz);
    ReadVarintPrefix(bz, rest);
    var tag := ReadVarint(bz);
    var num, wt := Int32(tag.value / 8), tag.value % 8;
    if WireTypeOf(k, num).None? {
      UnknownValuePrefix(bz, rest, base);
    } else {
      KnownValuePrefix(bz, rest, base, tag.size, num, wt);
    }
  }

  /** The position in the buffer does not matter as long as the buffer has a valid length. */
  lemma NextFieldBase(k: Kind, bz: Bytes, base: nat, base': nat)
    requires base + |bz| < TWO63 && base' + |bz| < TWO63
    ensures NextField(k, bz, base).Got? ==> NextField(k, bz, base') == NextField(k, bz, base)
  {
    hide ScanVarint, SkipFrom;
  }

  /** Field boundaries: if `a` decodes completely, decoding `a + b` is decoding `b` after `a`. */
  lemma {:induction false} DecodeConcat(a: Bytes, b: Bytes, base: nat, m: Message)
    requires Decode(a, base, m).Ok?
    ensures Decode(a + b, base, m) == Decode(b, base + |a|, Decode(a, base, m).message)
    decreases |a|
  {
    hide NextField, Apply;
    if a == [] {
      assert a + b == b;
    } else {
      var f := NextField(KindOf(m), a, base);
      NextFieldSize(KindOf(m), a, base);
      NextFieldPrefix(KindOf(m), a, b, base);
      assert (a + b)[f.size..] == a[f.size..] + b;
      DecodeConcat(a[f.size..], b, base + f.size, Apply(m, f.field).message);
    }
  }

  lemma {:induction false} DecodeBase(bz: Bytes, base: nat, base': nat, m: Message)
    requires base + |bz| < TWO63 && base' + |bz| < TWO63
    ensures Decode(bz, base, m).Ok? ==> Decode(bz, base', m) == Decode(bz, base, m)
    decreases |bz|
  {
    hide NextField, Apply;
    if bz != [] && Decode(bz, base, m).Ok? {
      var f := NextField(KindOf(m), bz, base);
      NextFieldSize(KindOf(m), bz, base);
      NextFieldBase(KindOf(m), bz, base, base');
      DecodeBase(bz[f.size..], base + f.size, base' + f.size, Apply(m, f.field).message);
    }
  }

  // ---------------------------------------------------------------- unknown fields

  /** The decoded fields the message type knows. */
  function Known(m: Message): Message {
    if m.Any? then m.(unrecognized := []) else m
  }

  function Unrecognized(m: Message): Bytes {
    if m.Any? then m.unrecognized else []
  }

  function Prefixed(p: Bytes, m: Message): Message {
    if m.Any? then m.(unrecognized := p + m.unrecognized) else m
  }

  function PrefixedResult(p: Bytes, r: Decoded): Decoded {
    if r.Ok? then Ok(Prefixed(p, r.message)) else r
  }

  lemma ApplyPrefixed(p: Bytes, m: Message, f: Field)
    ensures Apply(Prefixed(p, m), f) == PrefixedResult(p, Apply(m, f))
  {
    hide Decode;
    if f.Unknown? && m.Any? {
      assert p + (m.unrecognized + f.raw) == p + m.unrecognized + f.raw;
    }
  }

  /** Unrecognized bytes seen earlier stay in front and influence nothing else. */
  lemma {:induction false} DecodePrefixed(bz: Bytes, base: nat, p: Bytes, m: Message)
    ensures Decode(bz, base, Prefixed(p, m)) == PrefixedResult(p, Decode(bz, base, m))
    decreases |bz|
  {
    hide NextField, Apply;
    if bz != [] {
      var f := NextField(KindOf(m), bz, base);
      NextFieldSize(KindOf(m), bz, base);
      if f.Got? {
        ApplyPrefixed(p, m, f.field);
        if Apply(m, f.field).Ok? {
          DecodePrefixed(bz[f.size..], base + f.size, p, Apply(m, f.field).message);
        }
      }
    }
  }

  /** `u` is one complete field that the message type does not know. */
  ghost predicate IsUnknownField(k: Kind, u: Bytes) {
    u != [] && NextField(k, u, 0) == Got(Unknown(u), |u|)
  }

  lemma DecodeUnknownField(u: Bytes, base: nat, m: Message)
    requires IsUnknownField(KindOf(m), u) && base + |u| < TWO63
    ensures Decode(u, base, m) == Ok(if m.Any? then m.(unrecognized := m.unrecognized + u) else m)
  {
    hide NextField;
    NextFieldBase(KindOf(m), u, 0, base);
    assert u[|u|..] == [];
  }

  lemma SplitKnown(m: Message)
    ensures Prefixed(Unrecognized(m), Known(m)) == m
  {
    if m.Any? { assert m.unrecognized + [] == m.unrecognized; }
  }

  lemma DecodeAfter(pre: Bytes, post: Bytes, m: Message)
    requires Decode(pre, 0, m).Ok?
    ensures var m1 := Decode(pre, 0, m).message;
            Decode(pre + post, 0, m) == PrefixedResult(Unrecognized(m1), Decode(post, |pre|, Known(m1)))
  {
    hide Decode;
    var m1 := Decode(pre, 0, m).message;
    DecodeConcat(pre, post, 0, m);
    SplitKnown(m1);
    DecodePrefixed(post, |pre|, Unrecognized(m1), Known(m1));
  }

  /** Decoding up to and including an inserted unknown field. */
  lemma DecodeThrough(pre: Bytes, u: Bytes, m: Message)
    requires |pre| + |u| < TWO63
    requires Decode(pre, 0, m).Ok?
    requires IsUnknownField(KindOf(m), u)
    ensures var m1 := Decode(pre, 0, m).message;
            Decode(pre + u, 0, m) == Ok(if m1.Any? then m1.(unrecognized := m1.unrecognized + u) else m1)
  {
    hide Decode, IsUnknownField;
    DecodeKind(pre, 0, m);
    DecodeConcat(pre, u, 0, m);
    DecodeUnknownField(u, |pre|, Decode(pre, 0, m).message);
  }

  /** `b` is `a` with `u` inserted after the first unrecognized bytes `p`. */
  ghost predicate Inserted(p: Bytes, u: Bytes, a: Decoded, b: Decoded) {
    && (a.Ok? <==> b.Ok?)
    && (a.Ok? ==> Known(a.message) == Known(b.message))
    && (a.Ok? && a.message.Any? ==> exists tail ::
          Unrecognized(a.message) == p + tail && Unrecognized(b.message) == p + u + tail)
  }

  lemma InsertedPrefix(p: Bytes, u: Bytes, r: Decoded)
    ensures Inserted(p, u, PrefixedResult(p, r), PrefixedResult(p + u, r))
  {
    if r.Ok? && r.message.Any? {
      var tail := r.message.unrecognized;
      assert Unrecognized(Prefixed(p, r.message)) == p + tail;
    }
  }

  lemma PrefixedNonAny(p: Bytes, q: Bytes, r: Decoded)
    requires r.Ok? ==> !r.message.Any?
    ensures PrefixedResult(p, r) == PrefixedResult(q, r)
  {
  }

  lemma DecodeAcross(pre: Bytes, u: Bytes, post: Bytes, m: Message)
    requires |pre| + |u| < TWO63
    requires Decode(pre, 0, m).Ok?
    requires IsUnknownField(KindOf(m), u)
    ensures var m1 := Decode(pre, 0, m).message;
            Decode(pre + u + post, 0, m) == PrefixedResult(Unrecognized(m1) + u, Decode(post, |pre| + |u|, Known(m1)))
  {
    hide Decode, IsUnknownField, PrefixedResult;
    var m1 := Decode(pre, 0, m).message;
    DecodeThrough(pre, u, m);
    DecodeAfter(pre + u, post, m);
    if !m1.Any? {
      var r := Decode(post, |pre| + |u|, Known(m1));
      DecodeKind(post, |pre| + |u|, Known(m1));
      PrefixedNonAny(Unrecognized(m1) + u, Unrecognized(m1), r);
    }
  }

  /** Inserting an unknown field at a field boundary changes no known field and turns no message into
      an error or back. `Any` keeps the inserted bytes between the unknown bytes before and after. */
  lemma InsertUnknownField(pre: Bytes, u: Bytes, post: Bytes, m: Message)
    requires |pre| + |u| + |post| < TWO63
    requires Decode(pre, 0, m).Ok?
    requires IsUnknownField(KindOf(m), u)
    ensures Inserted(Unrecognized(Decode(pre, 0, m).message), u, Decode(pre + post, 0, m), Decode(pre + u + post, 0, m))
  {
    hide *;
    var m1 := Decode(pre, 0, m).message;
    var p := Unrecognized(m1);
    DecodeAfter(pre, post, m);
    DecodeAcross(pre, u, post, m);
    DecodeBase(post, |pre|, |pre| + |u|, Known(m1));
    DecodeBase(post, |pre| + |u|, |pre|, Known(m1));
    var r, r' := Decode(post, |pre|, Known(m1)), Decode(post, |pre| + |u|, Known(m1));
    if r.Ok? {
      InsertedPrefix(p, u, r);
    } else {
      InsertedErrors(p, u, r, r');
    }
  }

  lemma InsertedErrors(p: Bytes, u: Bytes, r: Decoded, r': Decoded)
    requires r.Err? && r'.Err?
    ensures Inserted(p, u, PrefixedResult(p, r), PrefixedResult(p + u, r'))
  {
  }
}
