/** The extension set: field numbers mapped to typed values, and what serializing,
    parsing, merging and clearing do to them. */
module Extensions {
  import opened Prelude
  import opened WireFormat

  datatype FieldType =
    | DoubleField | FloatField | Int64Field | UInt64Field | Int32Field | Fixed64Field | Fixed32Field | BoolField
    | StringField | MessageField | BytesField | UInt32Field | EnumField
    | SFixed32Field | SFixed64Field | SInt32Field | SInt64Field

  /** Doubles and floats are their bit patterns. */
  datatype Value = Num(n: int) | Str(s: Bytes) | Msg(message: Message)

  /** `ExtensionSet::Extension`.  A singular extension holds one value, also when cleared. */
  datatype Extension = Extension(
    kind: FieldType, repeated: bool, packed: bool, cleared: bool, values: seq<Value>, cachedSize: nat)

  /** A message made of extensions; `cachedSize` is what `GetCachedSize` returns. */
  datatype Message = Message(fields: map<nat, Extension>, cachedSize: nat)

  const EMPTY: Message := Message(map[], 0)

  /** `ExtensionInfo` */
  datatype Info = Info(kind: FieldType, repeated: bool, packed: bool, messageType: nat, enumValues: set<int>)

  /** The registry: containing message type and field number to extension. */
  type Registry = map<(nat, nat), Info>

  predicate IsPackable(kind: FieldType) {
    kind != StringField && kind != BytesField && kind != MessageField
  }

  predicate RegistryOk(r: Registry) {
    forall k :: k in r ==> NumberOk(k.1) && (r[k].packed ==> r[k].repeated && IsPackable(r[k].kind))
  }

  // ------------------------------------------------------------------ scalars

  function WireTypeOf(kind: FieldType): (w: nat)
    ensures w < 8
  {
    match kind
    case Int32Field | Int64Field | UInt32Field | UInt64Field | SInt32Field | SInt64Field
      | BoolField | EnumField => VARINT
    case Fixed64Field | SFixed64Field | DoubleField => FIXED64
    case Fixed32Field | SFixed32Field | FloatField => FIXED32
    case StringField | BytesField | MessageField => LENGTH_DELIMITED
  }

  /** The values the C++ type of a field can hold. */
  predicate NumOk(kind: FieldType, n: int) {
    match kind
    case Int32Field | SInt32Field | SFixed32Field | EnumField => 0 - TWO31 <= n < TWO31
    case Int64Field | SInt64Field | SFixed64Field => 0 - TWO63 <= n < TWO63
    case UInt32Field | Fixed32Field | FloatField => 0 <= n < TWO32
    case UInt64Field | Fixed64Field | DoubleField => 0 <= n < TWO64
    case BoolField => 0 <= n < 2
    case StringField | BytesField | MessageField => false
  }

  /** The `Write...NoTag` functions.  Negative 32-bit integers are sign-extended. */
  function EncodeNum(kind: FieldType, n: int): Bytes {
    match kind
    case Int32Field | Int64Field | EnumField | UInt32Field | UInt64Field | BoolField => Varint(n % TWO64)
    case SInt32Field | SInt64Field => Varint(ZigZag(n) % TWO64)
    case Fixed32Field | SFixed32Field | FloatField => LittleEndian(n % TWO32, 4)
    case Fixed64Field | SFixed64Field | DoubleField => LittleEndian(n % TWO64, 8)
    case StringField | BytesField | MessageField => []
  }

  /** `ReadPrimitive` */
  function DecodeNum(kind: FieldType, s: Bytes): (r: Option<Reading<int>>)
    ensures r.Some? ==> |r.value.rest| < |s|
  {
    match kind
    case Int32Field | EnumField =>
      (match ReadVarint32(s) case None => None case Some(x) => Some(Reading(Signed(x.value, TWO32), x.rest)))
    case Int64Field =>
      (match ReadVarint64(s) case None => None case Some(x) => Some(Reading(Signed(x.value, TWO64), x.rest)))
    case UInt32Field =>
      (match ReadVarint32(s) case None => None case Some(x) => Some(Reading(x.value, x.rest)))
    case UInt64Field =>
      (match ReadVarint64(s) case None => None case Some(x) => Some(Reading(x.value, x.rest)))
    case BoolField =>
      (match ReadVarint32(s) case None => None case Some(x) => Some(Reading(if x.value != 0 then 1 else 0, x.rest)))
    case SInt32Field =>
      (match ReadVarint32(s) case None => None case Some(x) => Some(Reading(UnZigZag(x.value), x.rest)))
    case SInt64Field =>
      (match ReadVarint64(s) case None => None case Some(x) => Some(Reading(UnZigZag(x.value), x.rest)))
    case Fixed32Field | FloatField =>
      (match ReadFixed(s, 4) case None => None case Some(x) => Some(Reading(x.value, x.rest)))
    case SFixed32Field =>
      (match ReadFixed(s, 4) case None => None case Some(x) => Some(Reading(Signed(x.value % TWO32, TWO32), x.rest)))
    case Fixed64Field | DoubleField =>
      (match ReadFixed(s, 8) case None => None case Some(x) => Some(Reading(x.value, x.rest)))
    case SFixed64Field =>
      (match ReadFixed(s, 8) case None => None case Some(x) => Some(Reading(Signed(x.value % TWO64, TWO64), x.rest)))
    case StringField | BytesField | MessageField => None
  }

  lemma SignedOfWrapped(n: int, modulus: int, m: int)
    requires m == TWO32 || m == TWO64
    requires modulus == TWO64 && 0 - m / 2 <= n < m / 2
    ensures (n % modulus) % m == n % m
    ensures Signed(n % m, m) == n
  {
    if n < 0 {
      assert n % m == n + m && n % modulus == n + modulus;
      if m == TWO32 {
        assert n + modulus == (n + m) + (TWO32 - 1) * m;
      }
    }
  }

  predicate IsVarint(kind: FieldType) {
    WireTypeOf(kind) == VARINT
  }

  lemma VarintNumRoundTrip(kind: FieldType, n: int, rest: Bytes)
    requires NumOk(kind, n) && IsVarint(kind)
    ensures DecodeNum(kind, EncodeNum(kind, n) + rest) == Some(Reading(n, rest))
  {
    hide ReadVarint32, ReadVarint64, Varint, Signed, ZigZag, UnZigZag;
    if kind == SInt32Field || kind == SInt64Field {
      ZigZagRoundTrip(n);
      VarintRoundTrip(ZigZag(n), rest);
    } else {
      VarintRoundTrip(n % TWO64, rest);
      if kind == Int32Field || kind == EnumField {
        SignedOfWrapped(n, TWO64, TWO32);
      } else if kind == Int64Field {
        SignedOfWrapped(n, TWO64, TWO64);
      }
    }
  }

  lemma FixedNumRoundTrip(kind: FieldType, n: int, rest: Bytes)
    requires NumOk(kind, n) && !IsVarint(kind)
    ensures DecodeNum(kind, EncodeNum(kind, n) + rest) == Some(Reading(n, rest))
  {
    hide LittleEndian, ReadFixed, Signed, Pow256;
    Powers();
    var four := WireTypeOf(kind) == FIXED32;
    var modulus := if four then TWO32 else TWO64;
    FixedRoundTrip(n % modulus, if four then 4 else 8, rest);
    if kind == SFixed32Field || kind == SFixed64Field {
      SignedOfWrapped(n, TWO64, modulus);
    }
  }

  /** A number of a field's type is read back from what is written for it. */
  lemma NumRoundTrip(kind: FieldType, n: int, rest: Bytes)
    requires NumOk(kind, n)
    ensures DecodeNum(kind, EncodeNum(kind, n) + rest) == Some(Reading(n, rest))
    ensures |EncodeNum(kind, n)| > 0
  {
    hide DecodeNum, Varint, LittleEndian;
    if IsVarint(kind) {
      VarintNumRoundTrip(kind, n, rest);
    } else {
      FixedNumRoundTrip(kind, n, rest);
    }
  }

  // ------------------------------------------------------------- serializing

  function EncodeValue(kind: FieldType, v: Value): Bytes
    decreases v
  {
    match v
    case Num(n) => EncodeNum(kind, n)
    case Str(s) => Delimited(s)
    case Msg(m) => Delimited(SerializeRange(m, 0, MAX_NUMBER))
  }

  /** The payload of a packed field. */
  function EncodeValues(kind: FieldType, vs: seq<Value>): Bytes
    decreases vs
  {
    if vs == [] then [] else EncodeValue(kind, vs[0]) + EncodeValues(kind, vs[1..])
  }

  /** One record for each value. */
  function SerializeEach(number: nat, kind: FieldType, vs: seq<Value>): Bytes
    decreases vs
  {
    if vs == [] then []
    else Varint(MakeTag(number, WireTypeOf(kind))) + EncodeValue(kind, vs[0]) + SerializeEach(number, kind, vs[1..])
  }

  /** `Extension::SerializeFieldWithCachedSizes`, once the sizes are right. */
  function SerializeExtension(number: nat, e: Extension): Bytes
    decreases e
  {
    if e.repeated then
      if e.packed then
        if e.values == [] then []
        else Varint(MakeTag(number, LENGTH_DELIMITED)) + Delimited(EncodeValues(e.kind, e.values))
      else SerializeEach(number, e.kind, e.values)
    else if e.cleared then []
    else SerializeEach(number, e.kind, e.values)
  }

  /** `SerializeWithCachedSizes(start, end)` */
  function SerializeRange(m: Message, start: nat, end: nat): Bytes
    decreases m, if start < end then end - start else 0
  {
    if start >= end then []
    else
      (if start in m.fields then SerializeExtension(start, m.fields[start]) else []) + SerializeRange(m, start + 1, end)
  }

  function Serialize(m: Message): Bytes {
    SerializeRange(m, 0, MAX_NUMBER)
  }

  // ------------------------------------------------------------------ storing

  /** `MaybeNewExtension` and the `Add...` family. */
  function Add(m: Message, number: nat, info: Info, v: Value): Message {
    m.(fields := m.fields[number :=
      if number in m.fields then m.fields[number].(values := m.fields[number].values + [v])
      else Extension(info.kind, true, info.packed, false, [v], 0)])
  }

  /** The `Set...` family and the singular `Mutable...` ones. */
  function Set(m: Message, number: nat, info: Info, v: Value): Message {
    m.(fields := m.fields[number :=
      if number in m.fields then m.fields[number].(cleared := false, values := [v])
      else Extension(info.kind, false, false, false, [v], 0)])
  }

  function Store(m: Message, number: nat, info: Info, v: Value): Message {
    if info.repeated then Add(m, number, info, v) else Set(m, number, info, v)
  }

  /** The message an extension already holds, or a new one. */
  function Held(x: Option<Extension>): Message {
    if x.Some? && x.value.values != [] && x.value.values[0].Msg? then x.value.values[0].message else EMPTY
  }

  function Lookup(m: Message, number: nat): Option<Extension> {
    if number in m.fields then Some(m.fields[number]) else None
  }

  // ------------------------------------------------------------------ parsing

  function ExpectedWireType(info: Info): nat {
    if info.packed then LENGTH_DELIMITED else WireTypeOf(info.kind)
  }

  /** `WireFormatLite::SkipField`: what is left behind a field that is not known. */
  function SkipField(number: nat, wireType: nat, s: Bytes, room: nat): (rest: Option<Bytes>)
    ensures rest.Some? ==> |rest.value| <= |s|
    decreases |s|, 1
  {
    if wireType == VARINT then
      match ReadVarint64(s) case None => None case Some(x) => Some(x.rest)
    else if wireType == FIXED64 then
      match ReadFixed(s, 8) case None => None case Some(x) => Some(x.rest)
    else if wireType == LENGTH_DELIMITED then
      match ReadDelimited(s) case None => None case Some(x) => Some(x.rest)
    else if wireType == START_GROUP then
      if room == 0 then None else SkipGroup(number, s, room - 1)
    else if wireType == FIXED32 then
      match ReadFixed(s, 4) case None => None case Some(x) => Some(x.rest)
    else None
  }

  /** The fields of a group up to the end tag, which must be that of the group. */
  function SkipGroup(number: nat, s: Bytes, room: nat): (rest: Option<Bytes>)
    ensures rest.Some? ==> |rest.value| <= |s|
    decreases |s|, 0
  {
    match ReadTag(s)
    case None => None
    case Some(tag) =>
      if tag.value.1 == END_GROUP then
        if tag.value.0 == number then Some(tag.rest) else None
      else
        match SkipField(tag.value.0, tag.value.1, tag.rest, room)
        case None => None
        case Some(rest) => SkipGroup(number, rest, room)
  }

  predicate ValidEnum(info: Info, n: int) {
    info.kind == EnumField ==> n in info.enumValues
  }

  /** The element loop of a packed field, up to its limit. */
  function ParsePacked(m: Message, number: nat, info: Info, s: Bytes): Option<Message>
    decreases |s|
  {
    if s == [] then Some(m)
    else match DecodeNum(info.kind, s)
      case None => None
      case Some(x) =>
        ParsePacked(if ValidEnum(info, x.value) then Add(m, number, info, Num(x.value)) else m, number, info, x.rest)
  }

  /** How deep messages may be nested in the one that is parsed, by default. */
  const DEFAULT_RECURSION_LIMIT: nat := 100

  /** `ParseFieldWithExtensionInfo`; `room` is how many more messages may be
      entered before the recursion limit. */
  function ParseKnown(r: Registry, m: Message, number: nat, info: Info, s: Bytes, room: nat)
    : (res: Option<Reading<Message>>)
    ensures res.Some? ==> |res.value.rest| < |s|
    decreases |s|, 0
  {
    if info.packed then
      match ReadLimited(s)
      case None => None
      case Some(x) =>
        (match ParsePacked(m, number, info, x.value) case None => None case Some(m') => Some(Reading(m', x.rest)))
    else if info.kind == MessageField then
      match ReadLimited(s)
      case None => None
      case Some(x) =>
        if room == 0 then None
        else
          var target := if info.repeated then EMPTY else Held(Lookup(m, number));
          (match ParseMessage(r, info.messageType, target, x.value, room - 1)
           case None => None
           case Some(sub) => Some(Reading(Store(m, number, info, Msg(sub)), x.rest)))
    else if info.kind == StringField || info.kind == BytesField then
      match ReadDelimited(s)
      case None => None
      case Some(x) => Some(Reading(Store(m, number, info, Str(x.value)), x.rest))
    else
      match DecodeNum(info.kind, s)
      case None => None
      case Some(x) =>
        Some(Reading(if ValidEnum(info, x.value) then Store(m, number, info, Num(x.value)) else m, x.rest))
  }

  /** `ParseField`, after the tag. */
  function ParseField(r: Registry, t: nat, m: Message, number: nat, wireType: nat, s: Bytes, room: nat)
    : (res: Option<Reading<Message>>)
    ensures res.Some? ==> |res.value.rest| <= |s|
    decreases |s|, 1
  {
    if (t, number) in r && wireType == ExpectedWireType(r[(t, number)])
    then ParseKnown(r, m, number, r[(t, number)], s, room)
    else match SkipField(number, wireType, s, room) case None => None case Some(rest) => Some(Reading(m, rest))
  }

  /** The tag loop of a message whose fields are all extensions; the result is
      absent unless the whole input is consumed. */
  function ParseMessage(r: Registry, t: nat, m: Message, s: Bytes, room: nat): Option<Message>
    decreases |s|, 2
  {
    if s == [] then Some(m)
    else match ReadTag(s)
      case None => None
      case Some(tag) =>
        match ParseField(r, t, m, tag.value.0, tag.value.1, tag.rest, room)
        case None => None
        case Some(x) => ParseMessage(r, t, x.value, x.rest, room)
  }

  // ------------------------------------------------------------------ merging

  predicate IsEmpty(e: Extension) {
    if e.repeated then e.values == [] else e.cleared
  }

  /** Whether merging touches the target: a repeated extension is created even
      without values, unless the source is read from its serialization (`sparse`). */
  predicate Carries(e: Extension, sparse: bool) {
    if sparse then !IsEmpty(e) else e.repeated || !e.cleared
  }

  /** A value as it arrives in another set: a message is merged into the target's. */
  function MergedValue(target: Message, v: Value, sparse: bool): Value
    decreases v
  {
    match v
    case Num(_) => v
    case Str(_) => v
    case Msg(m) => Msg(Combine(target, m, sparse))
  }

  /** Repeated values: messages are merged into new ones. */
  function CopyValues(vs: seq<Value>, sparse: bool): (r: seq<Value>)
    ensures |r| == |vs|
    decreases vs
  {
    if vs == [] then [] else [MergedValue(EMPTY, vs[0], sparse)] + CopyValues(vs[1..], sparse)
  }

  function CombineExtension(x: Option<Extension>, e: Extension, sparse: bool): Extension
    decreases e
  {
    if e.repeated then
      var copies := CopyValues(e.values, sparse);
      match x
      case None => Extension(e.kind, true, e.packed, false, copies, 0)
      case Some(o) => o.(values := o.values + copies)
    else
      var v := if e.values == [] then [] else [MergedValue(Held(x), e.values[0], sparse)];
      match x
      case None => Extension(e.kind, false, e.packed, false, v, 0)
      case Some(o) => o.(cleared := false, values := v)
  }

  /** `b` merged into `a`. */
  function Combine(a: Message, b: Message, sparse: bool): Message
    decreases b
  {
    a.(fields := map k | k in a.fields.Keys + b.fields.Keys && (k in a.fields || Carries(b.fields[k], sparse)) ::
         if k in b.fields && Carries(b.fields[k], sparse) then CombineExtension(Lookup(a, k), b.fields[k], sparse)
         else a.fields[k])
  }

  /** `ExtensionSet::MergeFrom` */
  function Merge(a: Message, b: Message): Message {
    Combine(a, b, false)
  }

  // ------------------------------------------------------------------ nesting

  function ValueDepth(v: Value): nat
    decreases v
  {
    if v.Msg? then 1 + RangeDepth(v.message, 0, MAX_NUMBER) else 0
  }

  function ValuesDepth(vs: seq<Value>): nat
    decreases vs
  {
    if vs == [] then 0 else Max(ValueDepth(vs[0]), ValuesDepth(vs[1..]))
  }

  /** What is cleared or empty is not serialized. */
  function ExtensionDepth(e: Extension): nat
    decreases e
  {
    if IsEmpty(e) then 0 else ValuesDepth(e.values)
  }

  function RangeDepth(m: Message, start: nat, end: nat): nat
    decreases m, if start < end then end - start else 0
  {
    if start >= end then 0
    else Max(if start in m.fields then ExtensionDepth(m.fields[start]) else 0, RangeDepth(m, start + 1, end))
  }

  /** How many messages lie inside one another in a message. */
  function Depth(m: Message): nat {
    RangeDepth(m, 0, MAX_NUMBER)
  }

  // ----------------------------------------------------------------- clearing

  function ClearedValue(v: Value): Value
    decreases v
  {
    match v
    case Num(_) => v
    case Str(_) => Str([])
    case Msg(m) => Msg(Cleared(m))
  }

  function ClearedValues(vs: seq<Value>): (r: seq<Value>)
    ensures |r| == |vs|
    decreases vs
  {
    if vs == [] then [] else [ClearedValue(vs[0])] + ClearedValues(vs[1..])
  }

  /** `Extension::Clear` */
  function ClearedExtension(e: Extension): Extension
    decreases e
  {
    if e.repeated then e.(values := [])
    else if e.cleared then e
    else e.(values := ClearedValues(e.values), cleared := true)
  }

  /** `ExtensionSet::Clear`: every extension stays, cleared. */
  function Cleared(m: Message): Message
    decreases m
  {
    m.(fields := map k | k in m.fields :: ClearedExtension(m.fields[k]))
  }

  // ------------------------------------------------------- equality of content

  function NormValue(v: Value): Value
    decreases v
  {
    match v
    case Num(_) => v
    case Str(_) => v
    case Msg(m) => Msg(Norm(m))
  }

  function NormValues(vs: seq<Value>): (r: seq<Value>)
    ensures |r| == |vs|
    decreases vs
  {
    if vs == [] then [] else [NormValue(vs[0])] + NormValues(vs[1..])
  }

  function NormExtension(e: Extension): Extension
    decreases e
  {
    Extension(e.kind, e.repeated, e.packed, false, NormValues(e.values), 0)
  }

  /** A message up to cleared and empty extensions and cached sizes. */
  function Norm(m: Message): Message
    decreases m
  {
    Message(map k | k in m.fields && !IsEmpty(m.fields[k]) :: NormExtension(m.fields[k]), 0)
  }

  // -------------------------------------------------------------- well-typed

  predicate ValueOk(r: Registry, info: Info, v: Value)
    decreases v
  {
    match v
    case Num(n) => NumOk(info.kind, n) && ValidEnum(info, n)
    case Str(_) => info.kind == StringField || info.kind == BytesField
    case Msg(m) => info.kind == MessageField && MessageOk(r, info.messageType, m)
  }

  predicate ExtensionOk(r: Registry, info: Info, e: Extension)
    decreases e
  {
    && e.kind == info.kind && e.repeated == info.repeated && e.packed == info.packed
    && (forall i :: 0 <= i < |e.values| ==> ValueOk(r, info, e.values[i]))
    && (e.repeated ==> !e.cleared)
    && (!e.repeated ==> |e.values| == 1)
    && (e.cleared && e.values[0].Msg? ==> Norm(e.values[0].message) == EMPTY)
  }

  /** Every extension is registered for the message type and holds values of its
      registered type. */
  predicate MessageOk(r: Registry, t: nat, m: Message)
    decreases m
  {
    forall k :: k in m.fields ==> (t, k) in r && ExtensionOk(r, r[(t, k)], m.fields[k])
  }
}
