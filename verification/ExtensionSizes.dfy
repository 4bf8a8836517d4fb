/** `ByteSize`, the sizes it caches, and serializing with them. */
module ExtensionSizes {
  import opened Prelude
  import opened WireFormat
  import opened Extensions
  import opened ExtensionLaws

  /** The constant size of fixed-width types. */
  function FixedSize(kind: FieldType): Option<nat> {
    match kind
    case Fixed32Field | SFixed32Field | FloatField => Some(4)
    case Fixed64Field | SFixed64Field | DoubleField => Some(8)
    case BoolField => Some(1)
    case _ => None
  }

  /** The `...Size` functions on one value. */
  function ValueSize(kind: FieldType, v: Value): nat
    decreases v
  {
    match v
    case Num(n) =>
      if FixedSize(kind).Some? then FixedSize(kind).value
      else if kind == Int32Field || kind == EnumField then if n < 0 then 10 else VarintSize(n)
      else if kind == SInt32Field || kind == SInt64Field then VarintSize(ZigZag(n))
      else VarintSize(n % TWO64)
    case Str(s) => VarintSize(|s|) + |s|
    case Msg(m) => VarintSize(SizeRange(m, 0, MAX_NUMBER)) + SizeRange(m, 0, MAX_NUMBER)
  }

  function ValuesSize(kind: FieldType, vs: seq<Value>): nat
    decreases vs
  {
    if vs == [] then 0 else ValueSize(kind, vs[0]) + ValuesSize(kind, vs[1..])
  }

  /** `TagSize` */
  function TagSize(number: nat): nat {
    VarintSize(MakeTag(number, 0))
  }

  function PackedSize(e: Extension): nat
    decreases e, 0
  {
    if FixedSize(e.kind).Some? then FixedSize(e.kind).value * |e.values| else ValuesSize(e.kind, e.values)
  }

  /** `Extension::ByteSize` */
  function ExtensionSize(number: nat, e: Extension): nat
    decreases e, 1
  {
    if e.repeated then
      if e.packed then
        var size := PackedSize(e);
        if size > 0 then size + VarintSize(size) + VarintSize(MakeTag(number, LENGTH_DELIMITED)) else size
      else if FixedSize(e.kind).Some? then (TagSize(number) + FixedSize(e.kind).value) * |e.values|
      else TagSize(number) * |e.values| + ValuesSize(e.kind, e.values)
    else if e.cleared then 0
    else TagSize(number) + ValuesSize(e.kind, e.values)
  }

  /** The sizes of the extensions numbered from `start` to below `end`. */
  function SizeRange(m: Message, start: nat, end: nat): nat
    decreases m, if start < end then end - start else 0
  {
    if start >= end then 0
    else (if start in m.fields then ExtensionSize(start, m.fields[start]) else 0) + SizeRange(m, start + 1, end)
  }

  // ------------------------------------------------------ sizes are exact

  lemma NumSizeExact(kind: FieldType, n: int)
    requires NumOk(kind, n)
    ensures |EncodeNum(kind, n)| == ValueSize(kind, Num(n))
  {
    hide Varint, LittleEndian, VarintSize, ZigZag, UnZigZag;
    match kind
    case SInt32Field | SInt64Field =>
      ZigZagRoundTrip(n);
      VarintLength(ZigZag(n));
    case Int32Field | EnumField =>
      VarintLength(n % TWO64);
      if n < 0 {
        NegativeSize(n);
      }
    case Int64Field | UInt32Field | UInt64Field => VarintLength(n % TWO64);
    case BoolField =>
      VarintLength(n % TWO64);
      SmallSize(n);
    case _ =>
  }

  lemma NegativeSize(n: int)
    requires 0 - TWO31 <= n < 0
    ensures VarintSize(n % TWO64) == 10
  {
    assert n % TWO64 == n + TWO64;
  }

  lemma SmallSize(n: nat)
    requires n < 128
    ensures VarintSize(n % TWO64) == 1
  {
  }

  lemma TagSizeExact(number: nat, kind: FieldType)
    requires NumberOk(number)
    ensures |Varint(MakeTag(number, WireTypeOf(kind)))| == TagSize(number)
  {
    hide Varint;
    VarintLength(MakeTag(number, WireTypeOf(kind)));
  }

  lemma DelimitedSize(s: Bytes)
    requires |s| < TWO31
    ensures |Delimited(s)| == VarintSize(|s|) + |s|
  {
    VarintLength(|s|);
  }

  lemma {:induction false} ValueSizeExact(r: Registry, info: Info, v: Value)
    requires RegistryOk(r) && ValueOk(r, info, v) && |EncodeValue(info.kind, v)| < TWO31
    ensures |EncodeValue(info.kind, v)| == ValueSize(info.kind, v)
    decreases v, 0, 0
  {
    match v
    case Num(n) => NumSizeExact(info.kind, n);
    case Str(s) =>
      DelimitedShorter(s);
      DelimitedSize(s);
    case Msg(m) =>
      var s := SerializeRange(m, 0, MAX_NUMBER);
      DelimitedShorter(s);
      RangeSizeExact(r, info.messageType, m, 0, MAX_NUMBER);
      DelimitedSize(s);
  }

  lemma {:induction false} ValuesSizeExact(r: Registry, info: Info, vs: seq<Value>)
    requires RegistryOk(r) && forall i :: 0 <= i < |vs| ==> ValueOk(r, info, vs[i])
    requires |EncodeValues(info.kind, vs)| < TWO31
    ensures |EncodeValues(info.kind, vs)| == ValuesSize(info.kind, vs)
    decreases vs, 0, 0
  {
    hide ValueOk, EncodeValue, ValueSize;
    if vs != [] {
      ValueSizeExact(r, info, vs[0]);
      ValuesSizeExact(r, info, vs[1..]);
    }
  }

  lemma {:induction false} EachSizeExact(r: Registry, info: Info, number: nat, vs: seq<Value>)
    requires RegistryOk(r) && NumberOk(number) && forall i :: 0 <= i < |vs| ==> ValueOk(r, info, vs[i])
    requires |SerializeEach(number, info.kind, vs)| < TWO31
    ensures |SerializeEach(number, info.kind, vs)| == TagSize(number) * |vs| + ValuesSize(info.kind, vs)
    decreases vs, 0, 0
  {
    hide ValueOk, EncodeValue, ValueSize, TagSize, Varint;
    if vs != [] {
      TagSizeExact(number, info.kind);
      ValueSizeExact(r, info, vs[0]);
      EachSizeExact(r, info, number, vs[1..]);
      Distribute(TagSize(number), |vs|);
    }
  }

  lemma Distribute(a: nat, n: nat)
    requires n > 0
    ensures a * n == a + a * (n - 1)
  {
  }

  lemma {:induction false} FixedValuesSize(r: Registry, info: Info, vs: seq<Value>)
    requires FixedSize(info.kind).Some? && forall i :: 0 <= i < |vs| ==> ValueOk(r, info, vs[i])
    ensures ValuesSize(info.kind, vs) == FixedSize(info.kind).value * |vs|
    decreases |vs|
  {
    if vs != [] {
      FixedValuesSize(r, info, vs[1..]);
      assert ValueOk(r, info, vs[0]);
      Distribute(FixedSize(info.kind).value, |vs|);
    }
  }

  /** `Extension::ByteSize` returns what serializing writes. */
  lemma {:induction false} ExtensionSizeExact(r: Registry, info: Info, number: nat, e: Extension)
    requires RegistryOk(r) && NumberOk(number) && ExtensionOk(r, info, e) && (e.packed ==> e.repeated)
    requires |SerializeExtension(number, e)| < TWO31
    ensures |SerializeExtension(number, e)| == ExtensionSize(number, e)
    ensures e.packed ==> |EncodeValues(e.kind, e.values)| == PackedSize(e)
    decreases e, 0, 0
  {
    hide ValueOk, EncodeValue, ValueSize, TagSize, Varint, VarintSize, Delimited;
    if FixedSize(e.kind).Some? {
      FixedValuesSize(r, info, e.values);
    }
    if e.packed {
      var s := EncodeValues(e.kind, e.values);
      if e.values == [] {
        assert FixedSize(e.kind).Some? ==> FixedSize(e.kind).value * 0 == 0;
      } else {
        DelimitedShorter(s);
        DelimitedSize(s);
        ValuesSizeExact(r, info, e.values);
        VarintLength(MakeTag(number, LENGTH_DELIMITED));
        NonEmptyPayload(r, info, e.values);
      }
    } else if !e.cleared {
      EachSizeExact(r, info, number, e.values);
      if e.repeated {
        if FixedSize(e.kind).Some? {
          Factor(TagSize(number), FixedSize(e.kind).value, |e.values|);
        }
      }
    }
  }

  lemma Factor(a: nat, b: nat, n: nat)
    ensures (a + b) * n == a * n + b * n
  {
  }

  lemma NonEmptyPayload(r: Registry, info: Info, vs: seq<Value>)
    requires vs != [] && ValueOk(r, info, vs[0])
    ensures |EncodeValues(info.kind, vs)| > 0
  {
    if vs[0].Num? {
      NumRoundTrip(info.kind, vs[0].n, []);
    }
  }

  lemma {:induction false} RangeSizeExact(r: Registry, t: nat, m: Message, start: nat, end: nat)
    requires RegistryOk(r) && MessageOk(r, t, m) && |SerializeRange(m, start, end)| < TWO31
    ensures |SerializeRange(m, start, end)| == SizeRange(m, start, end)
    decreases m, if start < end then end - start else 0, 0
  {
    hide ExtensionOk, SerializeExtension, ExtensionSize;
    if start < end {
      if start in m.fields {
        PackedRepeated(r, r[(t, start)], m.fields[start]);
        ExtensionSizeExact(r, r[(t, start)], start, m.fields[start]);
      }
      RangeSizeExact(r, t, m, start + 1, end);
    }
  }

  lemma PackedRepeated(r: Registry, info: Info, e: Extension)
    requires ExtensionOk(r, info, e) && (info.packed ==> info.repeated)
    ensures e.packed ==> e.repeated
  {
  }

  // ------------------------------------------------------------- cached sizes

  /** A value whose message has had its sizes computed. */
  function SizedValue(v: Value): Value
    decreases v
  {
    match v
    case Num(_) => v
    case Str(_) => v
    case Msg(m) => Msg(Sized(m))
  }

  function SizedValues(vs: seq<Value>): (r: seq<Value>)
    ensures |r| == |vs|
    decreases vs
  {
    if vs == [] then [] else [SizedValue(vs[0])] + SizedValues(vs[1..])
  }

  /** What `Extension::ByteSize` leaves behind in the extension. */
  function SizedExtension(e: Extension): Extension
    decreases e
  {
    if e.repeated && e.packed then e.(cachedSize := PackedSize(e))
    else if !e.repeated && e.cleared then e
    else e.(values := SizedValues(e.values))
  }

  /** What `ByteSize` leaves behind in the message. */
  function Sized(m: Message): Message
    decreases m
  {
    Message(map k | k in m.fields :: SizedExtension(m.fields[k]), SizeRange(m, 0, MAX_NUMBER))
  }

  /** Writing with the sizes found in the caches. */
  function WriteValue(kind: FieldType, v: Value): Bytes
    decreases v
  {
    match v
    case Num(n) => EncodeNum(kind, n)
    case Str(s) => Delimited(s)
    case Msg(m) => Varint(m.cachedSize) + WriteRange(m, 0, MAX_NUMBER)
  }

  function WriteEach(number: nat, kind: FieldType, vs: seq<Value>): Bytes
    decreases vs
  {
    if vs == [] then []
    else Varint(MakeTag(number, WireTypeOf(kind))) + WriteValue(kind, vs[0]) + WriteEach(number, kind, vs[1..])
  }

  /** `SerializeFieldWithCachedSizes` */
  function WriteExtension(number: nat, e: Extension): Bytes
    decreases e
  {
    if e.repeated then
      if e.packed then
        if e.cachedSize == 0 then []
        else Varint(MakeTag(number, LENGTH_DELIMITED)) + (Varint(e.cachedSize) + EncodeValues(e.kind, e.values))
      else WriteEach(number, e.kind, e.values)
    else if e.cleared then []
    else WriteEach(number, e.kind, e.values)
  }

  function WriteRange(m: Message, start: nat, end: nat): Bytes
    decreases m, if start < end then end - start else 0
  {
    if start >= end then []
    else (if start in m.fields then WriteExtension(start, m.fields[start]) else []) + WriteRange(m, start + 1, end)
  }

  lemma {:induction false} SizedValueWrites(r: Registry, info: Info, v: Value)
    requires RegistryOk(r) && ValueOk(r, info, v) && |EncodeValue(info.kind, v)| < TWO31
    ensures WriteValue(info.kind, SizedValue(v)) == EncodeValue(info.kind, v)
    decreases v, 0, 0
  {
    hide Varint;
    if v.Msg? {
      var m := v.message;
      DelimitedShorter(SerializeRange(m, 0, MAX_NUMBER));
      RangeSizeExact(r, info.messageType, m, 0, MAX_NUMBER);
      SizedRangeWrites(r, info.messageType, m, 0, MAX_NUMBER);
    }
  }

  lemma {:induction false} SizedEachWrites(r: Registry, info: Info, number: nat, vs: seq<Value>)
    requires RegistryOk(r) && forall i :: 0 <= i < |vs| ==> ValueOk(r, info, vs[i])
    requires |SerializeEach(number, info.kind, vs)| < TWO31
    ensures WriteEach(number, info.kind, SizedValues(vs)) == SerializeEach(number, info.kind, vs)
    decreases vs, 0, 0
  {
    hide ValueOk, EncodeValue, WriteValue, SizedValue, Varint;
    if vs != [] {
      SizedValueWrites(r, info, vs[0]);
      SizedEachWrites(r, info, number, vs[1..]);
      assert SizedValues(vs)[1..] == SizedValues(vs[1..]);
    }
  }

  lemma {:induction false} SizedExtensionWrites(r: Registry, info: Info, number: nat, e: Extension)
    requires RegistryOk(r) && NumberOk(number) && ExtensionOk(r, info, e) && (e.packed ==> e.repeated)
    requires |SerializeExtension(number, e)| < TWO31
    ensures WriteExtension(number, SizedExtension(e)) == SerializeExtension(number, e)
    decreases e, 0, 0
  {
    hide ValueOk, EncodeValue, WriteValue, SizedValue, Varint, SerializeEach, WriteEach;
    if e.packed {
      ExtensionSizeExact(r, info, number, e);
      if e.values != [] {
        NonEmptyPayload(r, info, e.values);
      }
    } else if !e.cleared {
      SizedEachWrites(r, info, number, e.values);
    }
  }

  /** After `ByteSize`, serializing with cached sizes writes the message, in
      exactly the number of bytes computed. */
  lemma {:induction false} SizedRangeWrites(r: Registry, t: nat, m: Message, start: nat, end: nat)
    requires RegistryOk(r) && MessageOk(r, t, m) && |SerializeRange(m, start, end)| < TWO31
    ensures WriteRange(Sized(m), start, end) == SerializeRange(m, start, end)
    ensures |WriteRange(Sized(m), start, end)| == SizeRange(m, start, end)
    decreases m, if start < end then end - start else 0, 0
  {
    hide ExtensionOk, SerializeExtension, WriteExtension, SizedExtension;
    RangeSizeExact(r, t, m, start, end);
    if start < end {
      if start in m.fields {
        PackedRepeated(r, r[(t, start)], m.fields[start]);
        SizedExtensionWrites(r, r[(t, start)], start, m.fields[start]);
      }
      SizedRangeWrites(r, t, m, start + 1, end);
    }
  }

  /** The cached size of a packed extension is the length of its payload. */
  lemma CachedPackedSize(r: Registry, t: nat, m: Message, k: nat)
    requires RegistryOk(r) && MessageOk(r, t, m) && k in m.fields && m.fields[k].packed
    requires |SerializeExtension(k, m.fields[k])| < TWO31
    ensures Sized(m).fields[k].cachedSize == |EncodeValues(m.fields[k].kind, m.fields[k].values)|
  {
    hide ValueOk;
    PackedRepeated(r, r[(t, k)], m.fields[k]);
    ExtensionSizeExact(r, r[(t, k)], k, m.fields[k]);
  }
}
