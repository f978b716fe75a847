/** Rejection of unknown fields (codec/unknownproto/unknown_fields.go).

  The checker walks the bytes of a message without decoding it, entering nested messages and the
  values packed in `Any`. Its reference is `Clean`, which first splits a message into fields and then
  judges every field.

  The `protowire` functions belong to google.golang.org/protobuf and are modelled from their
  documented behaviour: unlike the generated decoders they refuse a tenth varint byte above 1, field
  numbers outside 1..2^31-1 and groups closed by another number. */
module UnknownFields {
  import opened Lex
  import opened Outcomes
  import opened Wire
  import opened Messages

  // ---------------------------------------------------------------- protowire

  function ConsumeVarint(bz: Bytes): Option<(nat, nat)> {
    var v := ReadVarint(bz);
    ReadVarintSize(bz);
    if v.BadVarint? || (v.size == 10 && bz[9] >= 2) then None else Some((v.value, v.size))
  }

  datatype Tag = Tag(num: nat, wt: nat, size: nat)

  function ConsumeTag(bz: Bytes): Option<Tag> {
    var v := ConsumeVarint(bz);
    if v.None? || v.value.0 / 8 < 1 || v.value.0 / 8 > 0x7fff_ffff then None
    else Some(Tag(v.value.0 / 8, v.value.0 % 8, v.value.1))
  }

  lemma ConsumeVarintSize(bz: Bytes)
    ensures ConsumeVarint(bz).Some? ==> 0 < ConsumeVarint(bz).value.1 <= |bz|
  {
    hide ReadVarint;
    ReadVarintSize(bz);
  }

  lemma ConsumeTagSize(bz: Bytes)
    ensures ConsumeTag(bz).Some? ==> 0 < ConsumeTag(bz).value.size <= |bz| && ConsumeTag(bz).value.num > 0
  {
    hide ConsumeVarint;
    ConsumeVarintSize(bz);
  }

  /** The length of a field value, or nothing if it is malformed. */
  function ConsumeFieldValue(num: nat, wt: nat, bz: Bytes): (n: Option<nat>)
    ensures n.Some? ==> n.value <= |bz|
    decreases |bz|, 1
  {
    if wt == 0 then
      var v := ConsumeVarint(bz);
      ConsumeVarintSize(bz);
      if v.None? then None else Some(v.value.1)
    else if wt == 1 then (if |bz| < 8 then None else Some(8))
    else if wt == 2 then
      var v := ConsumeVarint(bz);
      ConsumeVarintSize(bz);
      if v.None? || v.value.0 > |bz| - v.value.1 then None else Some(v.value.1 + v.value.0)
    else if wt == 3 then ConsumeGroup(num, bz)
    else if wt == 5 then (if |bz| < 4 then None else Some(4))
    else None
  }

  /** The rest of group `num`, with its end tag. */
  function ConsumeGroup(num: nat, bz: Bytes): (n: Option<nat>)
    ensures n.Some? ==> n.value <= |bz|
    decreases |bz|, 0
  {
    var tag := ConsumeTag(bz);
    ConsumeTagSize(bz);
    if tag.None? then None
    else if tag.value.wt == 4 then (if tag.value.num == num then Some(tag.value.size) else None)
    else
      var v := ConsumeFieldValue(tag.value.num, tag.value.wt, bz[tag.value.size..]);
      if v.None? then None
      else
        var rest := ConsumeGroup(num, bz[tag.value.size + v.value..]);
        if rest.None? then None else Some(tag.value.size + v.value + rest.value)
  }

  // ---------------------------------------------------------------- descriptors

  datatype FieldType =
    | TypeDouble | TypeFloat | TypeInt64 | TypeUint64 | TypeInt32 | TypeFixed64 | TypeFixed32 | TypeBool
    | TypeString | TypeGroup | TypeMessage | TypeBytes | TypeUint32 | TypeEnum | TypeSfixed32
    | TypeSfixed64 | TypeSint32 | TypeSint64

  datatype FieldDesc = FieldDesc(typ: FieldType, typeName: Bytes)

  type Descriptor = map<int, FieldDesc>

  /** What the registries answer: the descriptor of a message type, whether a type name is registered,
      and the message type a type URL resolves to. */
  datatype Registry = Registry(
    descriptors: map<Bytes, Descriptor>,
    registered: set<Bytes>,
    resolve: map<Bytes, Bytes>)

  function DescriptorOf(reg: Registry, name: Bytes): Option<Descriptor> {
    if name in reg.descriptors then Some(reg.descriptors[name]) else None
  }

  predicate IsScalar(t: FieldType) {
    !(t.TypeString? || t.TypeGroup? || t.TypeMessage? || t.TypeBytes?)
  }

  /** The table `checks`: the field types a wire type may carry. */
  predicate CanEncodeType(wt: nat, t: FieldType) {
    match wt
    case 0 => t in {TypeInt32, TypeInt64, TypeUint32, TypeUint64, TypeSint32, TypeSint64, TypeBool, TypeEnum}
    case 1 => t in {TypeFixed64, TypeSfixed64, TypeDouble}
    case 2 => t in {TypeString, TypeBytes, TypeMessage, TypeInt32, TypeInt64, TypeUint32, TypeUint64, TypeSint32,
                    TypeSint64, TypeBool, TypeEnum, TypeFixed64, TypeSfixed64, TypeDouble}
    case 3 => t.TypeGroup?
    case 4 => t.TypeGroup?
    case 5 => t in {TypeFixed32, TypeSfixed32, TypeFloat}
    case _ => false
  }

  /** ".google.protobuf.Any" */
  const ANY_NAME: Bytes :=
    [46, 103, 111, 111, 103, 108, 101, 46, 112, 114, 111, 116, 111, 98, 117, 102, 46, 65, 110, 121]

  const ANY_DESCRIPTOR: Descriptor := map[1 := FieldDesc(TypeString, []), 2 := FieldDesc(TypeBytes, [])]

  /** Bit 11 of a field number marks it as non-critical. */
  predicate NonCritical(num: nat) {
    num / 1024 % 2 == 1
  }

  lemma {:induction false} ValueLength(bz: Bytes, base: nat, m: Message)
    requires m.Any? && Decode(bz, base, m).Ok? && Decode(bz, base, m).message.Any?
    ensures |Decode(bz, base, m).message.value| <= |bz| || Decode(bz, base, m).message.value == m.value
    decreases |bz|
  {
    hide NextField;
    if bz != [] {
      var f := NextField(KindOf(m), bz, base);
      NextFieldSize(KindOf(m), bz, base);
      ValueLength(bz[f.size..], base + f.size, Apply(m, f.field).message);
    }
  }

  /** The type URL and value that `proto.Unmarshal` finds in the bytes of an `Any`. */
  function UnpackAny(bz: Bytes): (r: Option<(Bytes, Bytes)>)
    ensures r.Some? ==> |r.value.1| <= |bz|
  {
    var any := Decode(bz, 0, Any([], [], []));
    if any.Err? || !any.message.Any? then None
    else
      ValueLength(bz, 0, Any([], [], []));
      Some((any.message.typeUrl, any.message.value))
  }

  // ---------------------------------------------------------------- the walk

  /** The result of the checker: its flag, and whether it returned an error. Slicing with the negative
      length of a malformed varint would panic; `NeverPanics` shows that this does not happen. */
  datatype Verdict = Accept(has: bool) | Reject(has: bool) | Panicked

  function After(has: bool, child: Verdict): Verdict {
    match child
    case Accept(h) => Accept(has || h)
    case Reject(h) => Reject(has || h)
    case Panicked => Panicked
  }

  function Walk(reg: Registry, bz: Bytes, desc: Option<Descriptor>, allow: bool, has: bool): Verdict
    decreases |bz|, 1
  {
    if bz == [] then Accept(has)
    else if desc.None? then Reject(has)
    else
      var tag := ConsumeTag(bz);
      ConsumeTagSize(bz);
      if tag.None? then Reject(has)
      else
        var Tag(num, wt, m) := tag.value;
        var known := num in desc.value;
        if known && !CanEncodeType(wt, desc.value[num].typ) then Reject(has)
        else
          var has' := has || (!known && NonCritical(num));
          if !known && (!NonCritical(num) || !allow) then Reject(has')
          else
            var n := ConsumeFieldValue(num, wt, bz[m..]);
            if n.None? then Reject(has')
            else
              var inner := if known then WalkField(reg, bz[m..m + n.value], desc.value[num], allow) else Accept(false);
              var v := After(has', inner);
              if v.Accept? then Walk(reg, bz[m + n.value..], desc, allow, v.has) else v
  }

  /** What happens inside the value of a known field. */
  function WalkField(reg: Registry, value: Bytes, fd: FieldDesc, allow: bool): Verdict
    decreases |value|, 2
  {
    if IsScalar(fd.typ) then Accept(false)
    else if fd.typeName == [] then
      if fd.typ.TypeString? || fd.typ.TypeBytes? then Accept(false) else Reject(false)
    else
      var o := ConsumeVarint(value);
      ConsumeVarintSize(value);
      if o.None? then Panicked
      else
        var body := value[o.value.1..];
        if fd.typeName == ANY_NAME then WalkAny(reg, body, allow)
        else if fd.typeName[1..] !in reg.registered then Reject(false)
        else Walk(reg, body, DescriptorOf(reg, fd.typeName[1..]), allow, false)
  }

  function WalkAny(reg: Registry, body: Bytes, allow: bool): Verdict
    decreases |body|, 3
  {
    var outer := Walk(reg, body, Some(ANY_DESCRIPTOR), allow, false);
    if !outer.Accept? then outer
    else
      var any := UnpackAny(body);
      if any.None? || any.value.0 !in reg.resolve then Reject(outer.has)
      else After(outer.has, Walk(reg, any.value.1, DescriptorOf(reg, reg.resolve[any.value.0]), allow, false))
  }

  /** `RejectUnknownFields`: a loop that re-slices `bz`, keeps the flag and recurses into values. */
  method RejectUnknownFields(reg: Registry, bz0: Bytes, desc: Option<Descriptor>, allow: bool) returns (r: Verdict)
    ensures r == Walk(reg, bz0, desc, allow, false)
    decreases |bz0|, 1
  {
    hide ConsumeTag, ConsumeFieldValue, WalkField, CanEncodeType;
    if bz0 == [] {
      return Accept(false);
    }
    if desc.None? {
      return Reject(false);
    }
    var bz, has := bz0, false;
    while bz != []
      invariant |bz| <= |bz0|
      invariant Walk(reg, bz, desc, allow, has) == Walk(reg, bz0, desc, allow, false)
      decreases |bz|
    {
      var tag := ConsumeTag(bz);
      ConsumeTagSize(bz);
      if tag.None? {
        return Reject(has);
      }
      var Tag(num, wt, m) := tag.value;
      var known := num in desc.value;
      if known && !CanEncodeType(wt, desc.value[num].typ) {
        return Reject(has);
      }
      if !known {
        if NonCritical(num) {
          has := true;
        }
        if !NonCritical(num) || !allow {
          return Reject(has);
        }
      }
      var n := ConsumeFieldValue(num, wt, bz[m..]);
      if n.None? {
        return Reject(has);
      }
      var fieldBytes := bz[m..m + n.value];
      if known {
        var inner := CheckField(reg, fieldBytes, desc.value[num], allow);
        var v := After(has, inner);
        if !v.Accept? {
          return v;
        }
        has := v.has;
      }
      bz := bz[m + n.value..];
    }
    return Accept(has);
  }

  method CheckField(reg: Registry, value: Bytes, fd: FieldDesc, allow: bool) returns (r: Verdict)
    ensures r == WalkField(reg, value, fd, allow)
    decreases |value|, 2
  {
    hide ConsumeVarint, Walk, UnpackAny;
    if IsScalar(fd.typ) {
      return Accept(false);
    }
    if fd.typeName == [] {
      return if fd.typ.TypeString? || fd.typ.TypeBytes? then Accept(false) else Reject(false);
    }
    var o := ConsumeVarint(value);
    ConsumeVarintSize(value);
    if o.None? {
      return Panicked;
    }
    var body := value[o.value.1..];
    if fd.typeName == ANY_NAME {
      var outer := RejectUnknownFields(reg, body, Some(ANY_DESCRIPTOR), allow);
      if !outer.Accept? {
        return outer;
      }
      var any := UnpackAny(body);
      if any.None? || any.value.0 !in reg.resolve {
        return Reject(outer.has);
      }
      var child := RejectUnknownFields(reg, any.value.1, DescriptorOf(reg, reg.resolve[any.value.0]), allow);
      return After(outer.has, child);
    }
    if fd.typeName[1..] !in reg.registered {
      return Reject(false);
    }
    r := RejectUnknownFields(reg, body, DescriptorOf(reg, fd.typeName[1..]), allow);
  }

  // ---------------------------------------------------------------- what is accepted

  datatype RawField = RawField(num: nat, wt: nat, value: Bytes)

  /** A message as the sequence of its fields, or nothing if it is malformed. */
  function SplitFields(bz: Bytes): (r: Option<seq<RawField>>)
    ensures r.Some? ==> forall f :: f in r.value ==> |f.value| < |bz|
    decreases |bz|
  {
    if bz == [] then Some([])
    else
      var tag := ConsumeTag(bz);
      ConsumeTagSize(bz);
      if tag.None? then None
      else
        var Tag(num, wt, m) := tag.value;
        var n := ConsumeFieldValue(num, wt, bz[m..]);
        if n.None? then None
        else
          var rest := SplitFields(bz[m + n.value..]);
          if rest.None? then None else Some([RawField(num, wt, bz[m..m + n.value])] + rest.value)
  }

  /** Every field at every level is known with an allowed wire type; with `allow`, non-critical fields
      may also be unknown. */
  ghost predicate Clean(reg: Registry, bz: Bytes, desc: Option<Descriptor>, allow: bool)
    decreases |bz|, 1
  {
    bz == [] || (
      && desc.Some?
      && SplitFields(bz).Some?
      && forall f :: f in SplitFields(bz).value ==> FieldClean(reg, f, desc.value, allow))
  }

  ghost predicate FieldClean(reg: Registry, f: RawField, desc: Descriptor, allow: bool)
    decreases |f.value|, 3
  {
    if f.num in desc then CanEncodeType(f.wt, desc[f.num].typ) && ValueClean(reg, f.value, desc[f.num], allow)
    else allow && NonCritical(f.num)
  }

  ghost predicate ValueClean(reg: Registry, value: Bytes, fd: FieldDesc, allow: bool)
    decreases |value|, 2
  {
    if IsScalar(fd.typ) then true
    else if fd.typeName == [] then fd.typ.TypeString? || fd.typ.TypeBytes?
    else
      var o := ConsumeVarint(value);
      ConsumeVarintSize(value);
      && o.Some?
      && var body := value[o.value.1..];
         if fd.typeName != ANY_NAME then
           fd.typeName[1..] in reg.registered && Clean(reg, body, DescriptorOf(reg, fd.typeName[1..]), allow)
         else
           && Clean(reg, body, Some(ANY_DESCRIPTOR), allow)
           && UnpackAny(body).Some?
           && UnpackAny(body).value.0 in reg.resolve
           && Clean(reg, UnpackAny(body).value.1, DescriptorOf(reg, reg.resolve[UnpackAny(body).value.0]), allow)
  }

  // ---------------------------------------------------------------- one field at a time

  /** The first field of a message and the bytes after it. */
  function FirstField(bz: Bytes): (r: Option<(RawField, Bytes)>)
    ensures r.Some? ==> |r.value.0.value| < |bz| && |r.value.1| < |bz|
  {
    var tag := ConsumeTag(bz);
    ConsumeTagSize(bz);
    if tag.None? then None
    else
      var Tag(num, wt, m) := tag.value;
      var n := ConsumeFieldValue(num, wt, bz[m..]);
      if n.None? then None else Some((RawField(num, wt, bz[m..m + n.value]), bz[m + n.value..]))
  }

  /** What the walk does with a field that is there completely. */
  function WalkOn(reg: Registry, f: RawField, rest: Bytes, desc: Descriptor, allow: bool, has: bool): Verdict {
    if f.num !in desc then
      if !NonCritical(f.num) then Reject(has)
      else if !allow then Reject(true)
      else Walk(reg, rest, Some(desc), allow, true)
    else if !CanEncodeType(f.wt, desc[f.num].typ) then Reject(has)
    else
      var v := After(has, WalkField(reg, f.value, desc[f.num], allow));
      if v.Accept? then Walk(reg, rest, Some(desc), allow, v.has) else v
  }

  lemma WalkFirst(reg: Registry, bz: Bytes, desc: Descriptor, allow: bool, has: bool)
    requires bz != [] && FirstField(bz).Some?
    ensures var (f, rest) := FirstField(bz).value;
      Walk(reg, bz, Some(desc), allow, has) == WalkOn(reg, f, rest, desc, allow, has)
  {
    hide ConsumeTag, ConsumeFieldValue, WalkField, CanEncodeType, NonCritical;
    ConsumeTagSize(bz);
  }

  /** Without a complete first field the walk ends there; only the tag of an unknown field is looked at. */
  lemma WalkMalformed(reg: Registry, bz: Bytes, desc: Descriptor, allow: bool, has: bool)
    requires bz != [] && FirstField(bz).None?
    ensures var tag := ConsumeTag(bz);
      Walk(reg, bz, Some(desc), allow, has)
      == Reject(has || (tag.Some? && tag.value.num !in desc && NonCritical(tag.value.num)))
  {
    hide ConsumeTag, ConsumeFieldValue, WalkField, CanEncodeType, NonCritical;
    ConsumeTagSize(bz);
  }

  lemma SplitFirst(bz: Bytes)
    requires bz != []
    ensures FirstField(bz).None? ==> SplitFields(bz).None?
    ensures FirstField(bz).Some? ==>
      var (f, rest) := FirstField(bz).value;
      SplitFields(bz) == if SplitFields(rest).None? then None else Some([f] + SplitFields(rest).value)
  {
    hide ConsumeTag, ConsumeFieldValue;
    ConsumeTagSize(bz);
  }

  lemma CleanFirst(reg: Registry, bz: Bytes, desc: Descriptor, allow: bool)
    requires bz != []
    ensures FirstField(bz).None? ==> !Clean(reg, bz, Some(desc), allow)
    ensures FirstField(bz).Some? ==>
      var (f, rest) := FirstField(bz).value;
      Clean(reg, bz, Some(desc), allow) <==> FieldClean(reg, f, desc, allow) && Clean(reg, rest, Some(desc), allow)
  {
    hide FieldClean, SplitFields, FirstField;
    SplitFirst(bz);
    if FirstField(bz).Some? {
      var (f, rest) := FirstField(bz).value;
      SplitEmpty();
      if SplitFields(rest).Some? {
        assert SplitFields(bz).value[0] == f;
        assert forall g :: g in SplitFields(bz).value <==> g == f || g in SplitFields(rest).value;
      }
    }
  }

  lemma SplitEmpty()
    ensures SplitFields([]) == Some([])
  {
  }

  /** The checker accepts exactly the clean messages, in either mode. */
  lemma {:induction false} AcceptsClean(reg: Registry, bz: Bytes, desc: Option<Descriptor>, allow: bool, has: bool)
    ensures Walk(reg, bz, desc, allow, has).Accept? <==> Clean(reg, bz, desc, allow)
    decreases |bz|, 1
  {
    if bz != [] && desc.Some? {
      hide Walk, Clean, FirstField, WalkField, ValueClean, CanEncodeType, NonCritical;
      CleanFirst(reg, bz, desc.value, allow);
      if FirstField(bz).None? {
        WalkMalformed(reg, bz, desc.value, allow, has);
      } else {
        var (f, rest) := FirstField(bz).value;
        WalkFirst(reg, bz, desc.value, allow, has);
        AcceptsClean(reg, rest, desc, allow, true);
        AcceptsClean(reg, rest, desc, allow, false);
        if f.num in desc.value {
          FieldAccepts(reg, f.value, desc.value[f.num], allow);
        }
      }
    }
  }

  lemma {:induction false} FieldAccepts(reg: Registry, value: Bytes, fd: FieldDesc, allow: bool)
    ensures WalkField(reg, value, fd, allow).Accept? <==> ValueClean(reg, value, fd, allow)
    decreases |value|, 2
  {
    hide ConsumeVarint, Walk, UnpackAny, Clean;
    if !IsScalar(fd.typ) && fd.typeName != [] && ConsumeVarint(value).Some? {
      ConsumeVarintSize(value);
      var body := value[ConsumeVarint(value).value.1..];
      if fd.typeName == ANY_NAME {
        AcceptsClean(reg, body, Some(ANY_DESCRIPTOR), allow, false);
        var any := UnpackAny(body);
        if any.Some? && any.value.0 in reg.resolve {
          AcceptsClean(reg, any.value.1, DescriptorOf(reg, reg.resolve[any.value.0]), allow, false);
        }
      } else {
        AcceptsClean(reg, body, DescriptorOf(reg, fd.typeName[1..]), allow, false);
      }
    }
  }

  // ---------------------------------------------------------------- the two modes

  lemma WalkOnFlag(reg: Registry, f: RawField, rest: Bytes, desc: Descriptor, allow: bool)
    requires Walk(reg, rest, Some(desc), allow, true) == After(true, Walk(reg, rest, Some(desc), allow, false))
    ensures WalkOn(reg, f, rest, desc, allow, true) == After(true, WalkOn(reg, f, rest, desc, allow, false))
  {
    hide Walk, WalkField, CanEncodeType, NonCritical;
    if f.num in desc {
      var inner := WalkField(reg, f.value, desc[f.num], allow);
      assert After(true, inner).Accept? == inner.Accept? == After(false, inner).Accept?;
    }
  }

  lemma WalkEmpty(reg: Registry, bz: Bytes, desc: Option<Descriptor>, allow: bool, has: bool)
    requires bz == [] || desc.None?
    ensures Walk(reg, bz, desc, allow, has) == if bz == [] then Accept(has) else Reject(has)
  {
  }

  lemma AfterNothing(v: Verdict)
    ensures After(false, v) == v
  {
  }

  /** The flag only accumulates. */
  lemma {:induction false} WalkFlag(reg: Registry, bz: Bytes, desc: Option<Descriptor>, allow: bool, has: bool)
    ensures Walk(reg, bz, desc, allow, has) == After(has, Walk(reg, bz, desc, allow, false))
    decreases |bz|
  {
    hide Walk, WalkOn, FirstField, NonCritical;
    if !has {
      AfterNothing(Walk(reg, bz, desc, allow, false));
    } else if bz == [] || desc.None? {
      WalkEmpty(reg, bz, desc, allow, true);
      WalkEmpty(reg, bz, desc, allow, false);
    } else if FirstField(bz).None? {
      WalkMalformed(reg, bz, desc.value, allow, true);
      WalkMalformed(reg, bz, desc.value, allow, false);
    } else {
      var (f, rest) := FirstField(bz).value;
      WalkFirst(reg, bz, desc.value, allow, true);
      WalkFirst(reg, bz, desc.value, allow, false);
      WalkFlag(reg, rest, desc, allow, true);
      WalkOnFlag(reg, f, rest, desc.value, allow);
    }
  }

  /** Lenient mode accepts with its flag false exactly when strict mode accepts, and strict mode never
      accepts with the flag set. */
  lemma {:induction false} LenientUnflaggedIsStrict(reg: Registry, bz: Bytes, desc: Option<Descriptor>)
    ensures Walk(reg, bz, desc, true, false) == Accept(false) <==> Walk(reg, bz, desc, false, false).Accept?
    ensures Walk(reg, bz, desc, false, false).Accept? ==> Walk(reg, bz, desc, false, false) == Accept(false)
    decreases |bz|, 1
  {
    hide ConsumeTag, ConsumeFieldValue, WalkField, CanEncodeType, NonCritical;
    if bz != [] && desc.Some? && ConsumeTag(bz).Some? {
      var Tag(num, wt, m) := ConsumeTag(bz).value;
      ConsumeTagSize(bz);
      var n := ConsumeFieldValue(num, wt, bz[m..]);
      if n.Some? {
        var rest := bz[m + n.value..];
        if num in desc.value {
          FieldModes(reg, bz[m..m + n.value], desc.value[num]);
        }
        LenientUnflaggedIsStrict(reg, rest, desc);
        WalkFlag(reg, rest, desc, true, true);
      }
    }
  }

  lemma {:induction false} FieldModes(reg: Registry, value: Bytes, fd: FieldDesc)
    ensures WalkField(reg, value, fd, true) == Accept(false) <==> WalkField(reg, value, fd, false).Accept?
    ensures WalkField(reg, value, fd, false).Accept? ==> WalkField(reg, value, fd, false) == Accept(false)
    decreases |value|, 2
  {
    hide ConsumeVarint, Walk, UnpackAny;
    if !IsScalar(fd.typ) && fd.typeName != [] && ConsumeVarint(value).Some? {
      ConsumeVarintSize(value);
      var body := value[ConsumeVarint(value).value.1..];
      if fd.typeName == ANY_NAME {
        LenientUnflaggedIsStrict(reg, body, Some(ANY_DESCRIPTOR));
        var any := UnpackAny(body);
        if any.Some? && any.value.0 in reg.resolve {
          LenientUnflaggedIsStrict(reg, any.value.1, DescriptorOf(reg, reg.resolve[any.value.0]));
        }
      } else {
        LenientUnflaggedIsStrict(reg, body, DescriptorOf(reg, fd.typeName[1..]));
      }
    }
  }

  // ---------------------------------------------------------------- the flag of a rejection

  /** In strict mode, the field that stops the walk, at any level, is unknown and non-critical: everything
      in front of it is clean. */
  ghost predicate StoppedByNonCritical(reg: Registry, bz: Bytes, desc: Option<Descriptor>)
    decreases |bz|, 1
  {
    && bz != [] && desc.Some? && ConsumeTag(bz).Some?
    && var num := ConsumeTag(bz).value.num;
       if num !in desc.value then NonCritical(num)
       else
         && FirstField(bz).Some?
         && var (f, rest) := FirstField(bz).value;
            && CanEncodeType(f.wt, desc.value[num].typ)
            && (|| StoppedInside(reg, f.value, desc.value[num])
                || (ValueClean(reg, f.value, desc.value[num], false) && StoppedByNonCritical(reg, rest, desc)))
  }

  ghost predicate StoppedInside(reg: Registry, value: Bytes, fd: FieldDesc)
    decreases |value|, 2
  {
    && !IsScalar(fd.typ) && fd.typeName != [] && ConsumeVarint(value).Some?
    && ConsumeVarint(value).value.1 <= |value|
    && var body := value[ConsumeVarint(value).value.1..];
       if fd.typeName != ANY_NAME then
         fd.typeName[1..] in reg.registered && StoppedByNonCritical(reg, body, DescriptorOf(reg, fd.typeName[1..]))
       else
         || StoppedByNonCritical(reg, body, Some(ANY_DESCRIPTOR))
         || (&& Clean(reg, body, Some(ANY_DESCRIPTOR), false)
             && UnpackAny(body).Some? && UnpackAny(body).value.0 in reg.resolve
             && StoppedByNonCritical(reg, UnpackAny(body).value.1,
                                       DescriptorOf(reg, reg.resolve[UnpackAny(body).value.0])))
  }

  lemma FirstFieldTag(bz: Bytes)
    requires FirstField(bz).Some?
    ensures ConsumeTag(bz).Some? && ConsumeTag(bz).value.num == FirstField(bz).value.0.num
  {
    hide ConsumeTag, ConsumeFieldValue;
    ConsumeTagSize(bz);
  }

  /** A rejection in strict mode carries the flag exactly when it was an unknown non-critical field that
      stopped the walk. */
  lemma {:induction false} StrictRejectionFlag(reg: Registry, bz: Bytes, desc: Option<Descriptor>)
    ensures Walk(reg, bz, desc, false, false) == Reject(true) <==> StoppedByNonCritical(reg, bz, desc)
    decreases |bz|, 1
  {
    if bz != [] && desc.Some? {
      hide Walk, Clean, FirstField, WalkField, ValueClean, StoppedInside, CanEncodeType, NonCritical, ConsumeTag;
      if FirstField(bz).None? {
        WalkMalformed(reg, bz, desc.value, false, false);
      } else {
        var (f, rest) := FirstField(bz).value;
        FirstFieldTag(bz);
        WalkFirst(reg, bz, desc.value, false, false);
        StrictRejectionFlag(reg, rest, desc);
        if f.num in desc.value {
          StrictFieldFlag(reg, f.value, desc.value[f.num]);
          FieldAccepts(reg, f.value, desc.value[f.num], false);
          FieldModes(reg, f.value, desc.value[f.num]);
        }
      }
    }
  }

  lemma {:induction false} StrictFieldFlag(reg: Registry, value: Bytes, fd: FieldDesc)
    ensures WalkField(reg, value, fd, false) == Reject(true) <==> StoppedInside(reg, value, fd)
    decreases |value|, 2
  {
    hide ConsumeVarint, Walk, UnpackAny, Clean, StoppedByNonCritical;
    if !IsScalar(fd.typ) && fd.typeName != [] && ConsumeVarint(value).Some? {
      ConsumeVarintSize(value);
      var body := value[ConsumeVarint(value).value.1..];
      if fd.typeName == ANY_NAME {
        StrictRejectionFlag(reg, body, Some(ANY_DESCRIPTOR));
        AcceptsClean(reg, body, Some(ANY_DESCRIPTOR), false, false);
        LenientUnflaggedIsStrict(reg, body, Some(ANY_DESCRIPTOR));
        var any := UnpackAny(body);
        if any.Some? && any.value.0 in reg.resolve {
          StrictRejectionFlag(reg, any.value.1, DescriptorOf(reg, reg.resolve[any.value.0]));
        }
      } else {
        StrictRejectionFlag(reg, body, DescriptorOf(reg, fd.typeName[1..]));
      }
    }
  }

  // ---------------------------------------------------------------- no panic

  lemma {:induction false} ScanWithin(bz: Bytes, n: nat, k: nat)
    requires n <= |bz| && ScanVarint(bz, k).Varint? && ScanVarint(bz, k).size <= n
    ensures ScanVarint(bz[..n], k) == ScanVarint(bz, k)
    decreases 10 - k
  {
    ScanVarintSize(bz, k);
    if bz[k] < 128 {
      assert bz[..n][..k + 1] == bz[..k + 1];
    } else {
      ScanWithin(bz, n, k + 1);
    }
  }

  /** A length-delimited value starts with a readable length, and a group with a readable tag. */
  lemma LengthReadable(num: nat, wt: nat, bz: Bytes, n: nat)
    requires ConsumeFieldValue(num, wt, bz) == Some(n) && (wt == 2 || wt == 3)
    ensures ConsumeVarint(bz[..n]).Some?
  {
    hide ScanVarint;
    ConsumeVarintSize(bz);
    ScanWithin(bz, n, 0);
  }

  lemma EndGroupHasNoValue(num: nat, bz: Bytes)
    ensures ConsumeFieldValue(num, 4, bz).None?
  {
  }

  /** The checker never slices out of range, whatever the descriptors and the bytes are. */
  lemma {:induction false} NeverPanics(reg: Registry, bz: Bytes, desc: Option<Descriptor>, allow: bool, has: bool)
    ensures !Walk(reg, bz, desc, allow, has).Panicked?
    decreases |bz|, 1
  {
    hide ConsumeTag, ConsumeFieldValue, WalkField;
    if bz != [] && desc.Some? && ConsumeTag(bz).Some? {
      var Tag(num, wt, m) := ConsumeTag(bz).value;
      ConsumeTagSize(bz);
      var n := ConsumeFieldValue(num, wt, bz[m..]);
      if n.Some? {
        NeverPanics(reg, bz[m + n.value..], desc, allow, true);
        NeverPanics(reg, bz[m + n.value..], desc, allow, false);
        if num in desc.value && CanEncodeType(wt, desc.value[num].typ) {
          assert bz[m..m + n.value] == bz[m..][..n.value];
          if wt == 2 || wt == 3 { LengthReadable(num, wt, bz[m..], n.value); }
          EndGroupHasNoValue(num, bz[m..]);
          FieldNeverPanics(reg, bz[m..m + n.value], desc.value[num], allow);
        }
      }
    }
  }

  lemma {:induction false} FieldNeverPanics(reg: Registry, value: Bytes, fd: FieldDesc, allow: bool)
    requires !IsScalar(fd.typ) && fd.typeName != [] ==> ConsumeVarint(value).Some?
    ensures !WalkField(reg, value, fd, allow).Panicked?
    decreases |value|, 2
  {
    hide ConsumeVarint, Walk, UnpackAny;
    if !IsScalar(fd.typ) && fd.typeName != [] {
      ConsumeVarintSize(value);
      var body := value[ConsumeVarint(value).value.1..];
      if fd.typeName == ANY_NAME {
        NeverPanics(reg, body, Some(ANY_DESCRIPTOR), allow, false);
        var any := UnpackAny(body);
        if any.Some? && any.value.0 in reg.resolve {
          NeverPanics(reg, any.value.1, DescriptorOf(reg, reg.resolve[any.value.0]), allow, false);
        }
      } else {
        NeverPanics(reg, body, DescriptorOf(reg, fd.typeName[1..]), allow, false);
      }
    }
  }
}
