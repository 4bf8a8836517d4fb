/** Fields a reader does not know: parsing goes on behind them as if they were
    not there. */
module UnknownFields {
  import opened Prelude
  import opened WireFormat
  import opened Extensions
  import opened ExtensionLaws

  /** What the wire can hold behind a tag. */
  datatype Unknown =
    | UnknownVarint(n: nat)
    | UnknownFixed64(n: nat)
    | UnknownFixed32(n: nat)
    | UnknownBytes(s: Bytes)
    | UnknownGroup(fields: seq<UnknownField>)

  datatype UnknownField = UnknownField(number: nat, value: Unknown)

  function WireTypeOfUnknown(u: Unknown): (w: nat)
    ensures w < 8 && w != END_GROUP
  {
    match u
    case UnknownVarint(_) => 0
    case UnknownFixed64(_) => 1
    case UnknownBytes(_) => 2
    case UnknownGroup(_) => 3
    case UnknownFixed32(_) => 5
  }

  /** Sections "Base 128 Varints", "Non-varint Numbers", "Length-Delimited Records"
      and "Groups" of the encoding. */
  function Payload(number: nat, u: Unknown): Bytes
    decreases u, 0
  {
    match u
    case UnknownVarint(n) => Varint(n)
    case UnknownFixed64(n) => LittleEndian(n, 8)
    case UnknownFixed32(n) => LittleEndian(n, 4)
    case UnknownBytes(s) => Delimited(s)
    case UnknownGroup(fields) => Records(fields) + Varint(MakeTag(number, 4))
  }

  function Record(f: UnknownField): Bytes
    decreases f, 0
  {
    Varint(MakeTag(f.number, WireTypeOfUnknown(f.value))) + Payload(f.number, f.value)
  }

  function Records(fs: seq<UnknownField>): Bytes
    decreases fs, 0
  {
    if fs == [] then [] else Record(fs[0]) + Records(fs[1..])
  }

  predicate UnknownOk(u: Unknown)
    decreases u, 0
  {
    match u
    case UnknownVarint(n) => n < TWO64
    case UnknownFixed64(_) => true
    case UnknownFixed32(_) => true
    case UnknownBytes(s) => |s| < TWO31
    case UnknownGroup(fields) => AllUnknownOk(fields)
  }

  predicate AllUnknownOk(fs: seq<UnknownField>)
    decreases fs, 0
  {
    fs != [] ==> FieldOk(fs[0]) && AllUnknownOk(fs[1..])
  }

  predicate FieldOk(f: UnknownField)
    decreases f, 0
  {
    NumberOk(f.number) && UnknownOk(f.value)
  }

  /** How many groups lie inside one another. */
  function GroupDepth(u: Unknown): nat
    decreases u, 0
  {
    if u.UnknownGroup? then 1 + GroupsDepth(u.fields) else 0
  }

  function GroupsDepth(fs: seq<UnknownField>): nat
    decreases fs, 0
  {
    if fs == [] then 0 else Max(FieldDepth(fs[0]), GroupsDepth(fs[1..]))
  }

  function FieldDepth(f: UnknownField): nat
    decreases f, 0
  {
    GroupDepth(f.value)
  }

  /** The reader has no extension of that number, or one of another wire type. */
  predicate NotKnown(r: Registry, t: nat, f: UnknownField) {
    (t, f.number) in r ==> WireTypeOfUnknown(f.value) != ExpectedWireType(r[(t, f.number)])
  }

  predicate NoneKnown(r: Registry, t: nat, fs: seq<UnknownField>) {
    forall i :: 0 <= i < |fs| ==> NotKnown(r, t, fs[i])
  }

  // ------------------------------------------------------------------ skipping

  lemma FixedSkipped(n: nat, k: nat, rest: Bytes)
    ensures ReadFixed(LittleEndian(n, k) + rest, k) == Some(Reading(FromLittleEndian(LittleEndian(n, k)), rest))
  {
    var s := LittleEndian(n, k) + rest;
    assert s[..k] == LittleEndian(n, k) && s[k..] == rest;
  }

  /** A field of any wire type is skipped exactly to its end, or not at all when
      its groups lie deeper than the recursion limit. */
  lemma {:induction false} PayloadSkipped(number: nat, u: Unknown, rest: Bytes, room: nat)
    requires NumberOk(number) && UnknownOk(u)
    ensures SkipField(number, WireTypeOfUnknown(u), Payload(number, u) + rest, room) ==
            if GroupDepth(u) <= room then Some(rest) else None
    decreases u, 0
  {
    hide ReadVarint64, ReadFixed, ReadDelimited, Varint, LittleEndian, Delimited, Records, SkipGroup, GroupsDepth;
    match u
    case UnknownVarint(n) => VarintRoundTrip(n, rest);
    case UnknownFixed64(n) => FixedSkipped(n, 8, rest);
    case UnknownFixed32(n) => FixedSkipped(n, 4, rest);
    case UnknownBytes(s) => DelimitedRoundTrip(s, rest);
    case UnknownGroup(fields) =>
      var end := Varint(MakeTag(number, 4));
      Reassociate(Records(fields), end, rest);
      if room > 0 {
        RecordsSkipped(number, fields, end + rest, room - 1);
        GroupEnds(number, rest, room - 1);
      }
  }

  lemma GroupEnds(number: nat, rest: Bytes, room: nat)
    requires NumberOk(number)
    ensures SkipGroup(number, Varint(MakeTag(number, 4)) + rest, room) == Some(rest)
  {
    hide ReadTag, Varint;
    TagRoundTrip(number, 4, rest);
  }

  lemma {:induction false} RecordSkipped(f: UnknownField, rest: Bytes, room: nat)
    requires FieldOk(f)
    ensures SkipField(f.number, WireTypeOfUnknown(f.value), Payload(f.number, f.value) + rest, room) ==
            if FieldDepth(f) <= room then Some(rest) else None
    decreases f, 0
  {
    hide SkipField, Payload, GroupDepth, UnknownOk;
    PayloadSkipped(f.number, f.value, rest, room);
  }

  lemma {:induction false} RecordsSkipped(number: nat, fs: seq<UnknownField>, rest: Bytes, room: nat)
    requires AllUnknownOk(fs)
    ensures SkipGroup(number, Records(fs) + rest, room) ==
            if GroupsDepth(fs) <= room then SkipGroup(number, rest, room) else None
    decreases fs, 0
  {
    hide ReadTag, Varint, Payload, SkipField, FieldDepth, UnknownOk;
    if fs == [] {
      assert Records(fs) + rest == rest;
    } else {
      var f, w := fs[0], WireTypeOfUnknown(fs[0].value);
      var tag, p, more := Varint(MakeTag(f.number, w)), Payload(f.number, f.value), Records(fs[1..]);
      assert Records(fs) + rest == tag + (p + (more + rest));
      TagRoundTrip(f.number, w, p + (more + rest));
      RecordSkipped(f, more + rest, room);
      RecordsSkipped(number, fs[1..], rest, room);
    }
  }

  // ------------------------------------------------------------------- parsing

  lemma UnknownTag(r: Registry, t: nat, m: Message, f: UnknownField, s: Bytes, room: nat)
    requires NumberOk(f.number) && NotKnown(r, t, f)
    ensures ParseMessage(r, t, m, Varint(MakeTag(f.number, WireTypeOfUnknown(f.value))) + s, room) ==
            match SkipField(f.number, WireTypeOfUnknown(f.value), s, room)
            case None => None
            case Some(rest) => ParseMessage(r, t, m, rest, room)
  {
    hide SkipField, ParseKnown, ReadTag, Varint;
    var w := WireTypeOfUnknown(f.value);
    TagRoundTrip(f.number, w, s);
    assert Varint(MakeTag(f.number, w)) + s != [];
  }

  /** One field that is not known: the message stays as it is, and parsing goes on
      right behind the field. */
  lemma UnknownFieldSkipped(r: Registry, t: nat, m: Message, f: UnknownField, rest: Bytes, room: nat)
    requires NumberOk(f.number) && UnknownOk(f.value) && NotKnown(r, t, f)
    ensures ParseMessage(r, t, m, Record(f) + rest, room) ==
            if GroupDepth(f.value) <= room then ParseMessage(r, t, m, rest, room) else None
  {
    hide ParseMessage, Varint, Payload, SkipField, NotKnown, UnknownOk;
    var w := WireTypeOfUnknown(f.value);
    Reassociate(Varint(MakeTag(f.number, w)), Payload(f.number, f.value), rest);
    UnknownTag(r, t, m, f, Payload(f.number, f.value) + rest, room);
    PayloadSkipped(f.number, f.value, rest, room);
  }

  /** Any number of them. */
  lemma {:induction false} UnknownFieldsSkipped(
      r: Registry, t: nat, m: Message, fs: seq<UnknownField>, rest: Bytes, room: nat)
    requires AllUnknownOk(fs) && NoneKnown(r, t, fs)
    ensures ParseMessage(r, t, m, Records(fs) + rest, room) ==
            if GroupsDepth(fs) <= room then ParseMessage(r, t, m, rest, room) else None
    decreases |fs|
  {
    hide ParseMessage, Record, NotKnown, UnknownOk, GroupDepth;
    if fs == [] {
      assert Records(fs) + rest == rest;
    } else {
      Reassociate(Record(fs[0]), Records(fs[1..]), rest);
      UnknownFieldSkipped(r, t, m, fs[0], Records(fs[1..]) + rest, room);
      UnknownFieldsSkipped(r, t, m, fs[1..], rest, room);
    }
  }

  // ----------------------------------------------------- sets of another reader

  /** A value as a reader without its extension sees it. */
  function Seen(kind: FieldType, v: Value): Unknown {
    match v
    case Str(s) => UnknownBytes(s)
    case Msg(m) => UnknownBytes(Serialize(m))
    case Num(n) =>
      match kind
      case Int32Field | Int64Field | EnumField | UInt32Field | UInt64Field | BoolField => UnknownVarint(n % TWO64)
      case SInt32Field | SInt64Field => UnknownVarint(ZigZag(n) % TWO64)
      case Fixed32Field | SFixed32Field | FloatField => UnknownFixed32(n % TWO32)
      case Fixed64Field | SFixed64Field | DoubleField => UnknownFixed64(n % TWO64)
      case StringField | MessageField | BytesField => UnknownBytes([])
  }

  lemma SeenValue(r: Registry, info: Info, number: nat, v: Value)
    requires ValueOk(r, info, v) && |EncodeValue(info.kind, v)| < TWO31
    ensures UnknownOk(Seen(info.kind, v)) && GroupDepth(Seen(info.kind, v)) == 0
    ensures WireTypeOfUnknown(Seen(info.kind, v)) == WireTypeOf(info.kind)
    ensures Payload(number, Seen(info.kind, v)) == EncodeValue(info.kind, v)
  {
    hide Varint, LittleEndian, SerializeRange, MessageOk;
    match v
    case Num(n) =>
    case Str(s) => DelimitedShorter(s);
    case Msg(m) => DelimitedShorter(Serialize(m));
  }

  lemma {:induction false} SeenEach(r: Registry, info: Info, number: nat, vs: seq<Value>)
    returns (fs: seq<UnknownField>)
    requires NumberOk(number) && forall i :: 0 <= i < |vs| ==> ValueOk(r, info, vs[i])
    requires |SerializeEach(number, info.kind, vs)| < TWO31
    ensures AllUnknownOk(fs) && GroupsDepth(fs) == 0 && Records(fs) == SerializeEach(number, info.kind, vs)
    ensures forall i :: 0 <= i < |fs| ==> fs[i].number == number
    decreases |vs|
  {
    hide ValueOk, EncodeValue, Payload, Varint, UnknownOk, GroupDepth, Seen;
    if vs == [] {
      fs := [];
    } else {
      SeenValue(r, info, number, vs[0]);
      var more := SeenEach(r, info, number, vs[1..]);
      var f := UnknownField(number, Seen(info.kind, vs[0]));
      fs := [f] + more;
      assert fs[1..] == more;
      assert Records(fs) == Record(f) + Records(more);
    }
  }

  /** One extension of another reader. */
  lemma StrangeExtensionSkipped(r: Registry, t: nat, m: Message, other: Registry, info: Info, number: nat,
                                e: Extension, rest: Bytes, room: nat)
    requires NumberOk(number) && (t, number) !in r && ExtensionOk(other, info, e)
    requires |SerializeExtension(number, e)| < TWO31
    ensures ParseMessage(r, t, m, SerializeExtension(number, e) + rest, room) == ParseMessage(r, t, m, rest, room)
  {
    hide ParseMessage, SerializeEach, EncodeValues, Varint, Delimited, ValueOk, Records, AllUnknownOk;
    if IsEmpty(e) {
      NoneSerialized(number, e.kind);
      assert SerializeExtension(number, e) + rest == rest;
    } else if e.packed && e.repeated {
      var f := UnknownField(number, UnknownBytes(EncodeValues(e.kind, e.values)));
      DelimitedShorter(EncodeValues(e.kind, e.values));
      assert SerializeExtension(number, e) == Record(f);
      UnknownFieldSkipped(r, t, m, f, rest, room);
    } else {
      var fs := SeenEach(other, info, number, e.values);
      UnknownFieldsSkipped(r, t, m, fs, rest, room);
    }
  }

  lemma {:induction false} StrangeRangeSkipped(r: Registry, t: nat, m: Message, other: Registry, of: nat, b: Message,
                                               start: nat, end: nat, rest: Bytes, room: nat)
    requires RegistryOk(other) && MessageOk(other, of, b) && |SerializeRange(b, start, end)| < TWO31
    requires forall k :: k in b.fields ==> (t, k) !in r
    ensures ParseMessage(r, t, m, SerializeRange(b, start, end) + rest, room) == ParseMessage(r, t, m, rest, room)
    decreases if start < end then end - start else 0
  {
    hide ParseMessage, SerializeExtension, ExtensionOk;
    if start >= end {
      assert SerializeRange(b, start, end) + rest == rest;
    } else if start in b.fields {
      var s, more := SerializeExtension(start, b.fields[start]), SerializeRange(b, start + 1, end);
      Reassociate(s, more, rest);
      StrangeExtensionSkipped(r, t, m, other, other[(of, start)], start, b.fields[start], more + rest, room);
      StrangeRangeSkipped(r, t, m, other, of, b, start + 1, end, rest, room);
    } else {
      assert SerializeRange(b, start, end) == SerializeRange(b, start + 1, end);
      StrangeRangeSkipped(r, t, m, other, of, b, start + 1, end, rest, room);
    }
  }

  /** A whole set serialized by a reader with other extensions, wherever it
      stands in the input: nothing of it is taken for something else. */
  lemma StrangeSetSkipped(r: Registry, t: nat, m: Message, other: Registry, of: nat, b: Message, rest: Bytes, room: nat)
    requires RegistryOk(other) && MessageOk(other, of, b) && |Serialize(b)| < TWO31
    requires forall k :: k in b.fields ==> (t, k) !in r
    ensures ParseMessage(r, t, m, Serialize(b) + rest, room) == ParseMessage(r, t, m, rest, room)
  {
    hide ParseMessage, SerializeRange;
    StrangeRangeSkipped(r, t, m, other, of, b, 0, MAX_NUMBER, rest, room);
  }

  /** An enum value that is not one of the type's is dropped, alone and in a packed list. */
  lemma InvalidEnumDropped(r: Registry, m: Message, number: nat, info: Info, n: int, rest: Bytes, room: nat)
    requires info.kind == EnumField && NumOk(EnumField, n) && n !in info.enumValues
    ensures !info.packed ==>
              ParseKnown(r, m, number, info, EncodeNum(EnumField, n) + rest, room) == Some(Reading(m, rest))
    ensures ParsePacked(m, number, info, EncodeNum(EnumField, n) + rest) == ParsePacked(m, number, info, rest)
  {
    hide DecodeNum, EncodeNum, ReadLimited;
    NumRoundTrip(EnumField, n, rest);
  }

  // ----------------------------------------------------------- what is refused

  /** A tag of an end of a group, or of a wire type there is not, ends parsing. */
  lemma BadWireTypeRefused(r: Registry, t: nat, m: Message, number: nat, wireType: nat, s: Bytes, room: nat)
    requires NumberOk(number) && wireType in {4, 6, 7}
    ensures ParseMessage(r, t, m, Varint(number * 8 + wireType) + s, room) == None
  {
    hide ReadTag, Varint, ParseKnown;
    TagRoundTrip(number, wireType, s);
    assert Varint(MakeTag(number, wireType)) + s != [];
    KnownWireTypes(r, t, number);
  }

  lemma KnownWireTypes(r: Registry, t: nat, number: nat)
    ensures (t, number) in r ==> ExpectedWireType(r[(t, number)]) in {0, 1, 2, 5}
  {
  }

  /** So does a zero. */
  lemma ZeroTagRefused(r: Registry, t: nat, m: Message, s: Bytes, room: nat)
    ensures ParseMessage(r, t, m, [0] + s, room) == None
  {
    assert ([0] + s)[0] == 0;
  }

  /** Input that ends within a field: an unfinished varint, too few bytes of a fixed
      number, a string shorter than its length. */
  lemma CutShort(kind: FieldType, s: Bytes, n: nat)
    ensures WireTypeOf(kind) == 0 && (forall i :: 0 <= i < |s| ==> s[i] >= 128) ==> DecodeNum(kind, s) == None
    ensures WireTypeOf(kind) == 1 && |s| < 8 ==> DecodeNum(kind, s) == None
    ensures WireTypeOf(kind) == 5 && |s| < 4 ==> DecodeNum(kind, s) == None
    ensures |s| < n < TWO32 ==> ReadDelimited(Varint(n) + s) == None
  {
    hide Varint, ReadVarint;
    if forall i :: 0 <= i < |s| ==> s[i] >= 128 {
      Unfinished(s, 10);
    }
    if n < TWO32 {
      VarintRoundTrip(n, s);
    }
  }

  lemma {:induction false} Unfinished(s: Bytes, k: nat)
    requires forall i :: 0 <= i < |s| ==> s[i] >= 128
    ensures ReadVarint(s, k) == None
    decreases |s|
  {
    if s != [] && k > 0 {
      Unfinished(s[1..], k - 1);
    }
  }

  /** What a varint means to each type it can belong to: the types of 32 bits keep
      the low bits, any number but zero is true, and the signed types take the
      numbers of the upper half for negative ones. */
  lemma VarintMeaning(n: nat, rest: Bytes)
    requires n < TWO64
    ensures var low := n % TWO32;
            && DecodeNum(UInt64Field, Varint(n) + rest) == Some(Reading(n, rest))
            && DecodeNum(UInt32Field, Varint(n) + rest) == Some(Reading(low, rest))
            && DecodeNum(BoolField, Varint(n) + rest) == Some(Reading(if low == 0 then 0 else 1, rest))
            && DecodeNum(Int64Field, Varint(n) + rest) == Some(Reading(if n < TWO63 then n else n - TWO64, rest))
            && DecodeNum(Int32Field, Varint(n) + rest) == Some(Reading(if low < TWO31 then low else low - TWO32, rest))
            && DecodeNum(EnumField, Varint(n) + rest) == DecodeNum(Int32Field, Varint(n) + rest)
  {
    hide Varint, ReadVarint32, ReadVarint64;
    VarintRoundTrip(n, rest);
  }
}
