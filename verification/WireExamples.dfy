/** The encoding against its published description: what the numbers of the wire
    format are, and the examples it is explained with. */
module WireExamples {
  import opened Prelude
  import opened WireFormat
  import opened Extensions
  import opened ExtensionMerging

  // ------------------------------------------------------------------ numbers

  /** The groups of seven bits, the lowest first. */
  function Groups(s: Bytes): nat {
    if s == [] then 0 else s[0] % 128 + 128 * Groups(s[1..])
  }

  /** Section "Base 128 Varints": the groups of seven bits of a number, lowest
      first, the high bit set on every byte but the last; no byte too many. */
  lemma {:induction false} VarintIsBase128(n: nat)
    ensures var s := Varint(n);
            && Groups(s) == n
            && (forall i :: 0 <= i < |s| - 1 ==> s[i] >= 128)
            && s[|s| - 1] < 128
            && (|s| > 1 ==> s[|s| - 1] > 0)
  {
    if n < 128 {
      assert Groups([n][1..]) == 0;
    } else {
      VarintIsBase128(n / 128);
      Prepended(128 + n % 128, Varint(n / 128));
    }
  }

  lemma Prepended(b: Byte, s: Bytes)
    requires b >= 128 && s != [] && s[|s| - 1] < 128 && s[|s| - 1] > 0 && forall i :: 0 <= i < |s| - 1 ==> s[i] >= 128
    ensures var t := [b] + s;
            && Groups(t) == b - 128 + 128 * Groups(s)
            && t[|t| - 1] == s[|s| - 1] && forall i :: 0 <= i < |t| - 1 ==> t[i] >= 128
  {
    assert ([b] + s)[1..] == s;
  }

  /** Any such bytes are read as the number their groups make up, ten of them at
      most. */
  lemma {:induction false} Base128IsRead(s: Bytes, rest: Bytes, k: nat)
    requires s != [] && s[|s| - 1] < 128 && forall i :: 0 <= i < |s| - 1 ==> s[i] >= 128
    ensures ReadVarint(s + rest, k) == if |s| <= k then Some(Reading(Groups(s), rest)) else None
    decreases |s|
  {
    var t := s + rest;
    if k > 0 {
      if |s| == 1 {
        assert t[1..] == rest && Groups(s[1..]) == 0;
      } else {
        assert t[1..] == s[1..] + rest;
        Base128IsRead(s[1..], rest, k - 1);
      }
    }
  }

  /** Section "Signed Integers": 0, -1, 1, -2, 2 become 0, 1, 2, 3, 4, and so on. */
  lemma ZigZagOrder(n: int)
    requires n >= 0
    ensures ZigZag(n) == 2 * n && ZigZag(-n - 1) == 2 * n + 1
    ensures UnZigZag(2 * n) == n && UnZigZag(2 * n + 1) == -n - 1
  {
  }

  /** Two's complement of 32 and 64 bits, the lowest byte first. */
  lemma FixedBytes(n: int)
    requires 0 <= n < 0x1_0000_0000
    ensures LittleEndian(n, 4) == [n % 0x100, n / 0x100 % 0x100, n / 0x1_0000 % 0x100, n / 0x100_0000]
    ensures EncodeNum(Fixed32Field, n) == LittleEndian(n, 4)
    ensures 0 < n <= 0x8000_0000 ==> EncodeNum(SFixed32Field, -n) == LittleEndian(0x1_0000_0000 - n, 4)
    ensures EncodeNum(Fixed64Field, n) == LittleEndian(n, 4) + [0, 0, 0, 0]
  {
    hide LittleEndian;
    FourBytes(n);
    FixedUpper(n);
    FixedNegative(n);
  }

  lemma FourBytes(n: nat)
    requires n < 0x1_0000_0000
    ensures LittleEndian(n, 4) == [n % 0x100, n / 0x100 % 0x100, n / 0x1_0000 % 0x100, n / 0x100_0000]
  {
    hide LittleEndian;
    LowByteFirst(n, 3);
    LowByteFirst(n / 256, 2);
    LowByteFirst(n / 256 / 256, 1);
    LowByteFirst(n / 256 / 256 / 256, 0);
  }

  lemma LowByteFirst(n: nat, k: nat)
    ensures LittleEndian(n, k + 1) == [n % 256] + LittleEndian(n / 256, k) && LittleEndian(n, 0) == []
  {
  }

  lemma FixedNegative(n: nat)
    requires n < 0x1_0000_0000
    ensures n > 0 ==> (0 - n) % 0x1_0000_0000 == 0x1_0000_0000 - n
  {
  }

  lemma FixedUpper(n: nat)
    requires n < 0x1_0000_0000
    ensures LittleEndian(n, 8) == LittleEndian(n, 4) + [0, 0, 0, 0]
  {
    UpperZero(n, 4);
    assert LittleEndian(0, 1) == [0] + LittleEndian(0, 0);
    assert LittleEndian(0, 2) == [0] + LittleEndian(0, 1);
    assert LittleEndian(0, 3) == [0] + LittleEndian(0, 2);
    assert LittleEndian(0, 4) == [0] + LittleEndian(0, 3);
    Powers();
  }

  lemma {:induction false} UpperZero(n: nat, k: nat)
    requires n < Pow256(k)
    ensures LittleEndian(n, k + 4) == LittleEndian(n, k) + LittleEndian(0, 4)
  {
    if k > 0 {
      UpperZero(n / 256, k - 1);
      Reassociate([n % 256], LittleEndian(n / 256, k - 1), LittleEndian(0, 4));
    } else {
      assert [] + LittleEndian(0, 4) == LittleEndian(0, 4);
    }
  }

  // --------------------------------------------------------------- wire types

  /** Section "Message Structure": the wire type each field type is written with. */
  lemma WireTypes(kind: FieldType)
    ensures WireTypeOf(kind) == 0 <==> kind in {Int32Field, Int64Field, UInt32Field, UInt64Field, SInt32Field,
                                               SInt64Field, BoolField, EnumField}
    ensures WireTypeOf(kind) == 1 <==> kind in {Fixed64Field, SFixed64Field, DoubleField}
    ensures WireTypeOf(kind) == 2 <==> kind in {StringField, BytesField, MessageField}
    ensures WireTypeOf(kind) == 5 <==> kind in {Fixed32Field, SFixed32Field, FloatField}
  {
  }

  /** A key is the field number, shifted by three bits, and the wire type. */
  lemma KeyBits(number: bv32, wireType: bv32)
    requires number < 0x2000_0000 && wireType < 8
    ensures (number << 3) | wireType == number * 8 + wireType
    ensures ((number << 3) | wireType) >> 3 == number && ((number << 3) | wireType) & 7 == wireType
  {
  }

  // ----------------------------------------------------------------- messages

  function Single(kind: FieldType, v: Value): Extension {
    Extension(kind, false, false, false, [v], 0)
  }

  function OneFieldMessage(number: nat, e: Extension): Message {
    Message(map[number := e], 0)
  }

  /** Section "A Simple Message": field 1, an `int32` of 150. */
  lemma SimpleMessage()
    ensures Serialize(OneFieldMessage(1, Single(Int32Field, Num(150)))) == [0x08, 0x96, 0x01]
  {
    hide SerializeRange;
    OneField(1, Single(Int32Field, Num(150)));
    SmallRecord(1, Int32Field, Num(150));
    assert Varint(150) == [0x96] + Varint(1);
  }

  lemma SmallRecord(number: nat, kind: FieldType, v: Value)
    requires number < 16
    ensures SerializeExtension(number, Single(kind, v)) == [8 * number + WireTypeOf(kind)] + EncodeValue(kind, v)
  {
    hide EncodeValue, WireTypeOf;
    assert [v][1..] == [];
    assert SerializeEach(number, kind, [v]) ==
           Varint(MakeTag(number, WireTypeOf(kind))) + EncodeValue(kind, v) + SerializeEach(number, kind, []);
  }

  /** Section "Length-Delimited Records": field 2, the string `testing`. */
  lemma StringMessage()
    ensures Serialize(OneFieldMessage(2, Single(StringField, Str(Ascii("testing"))))) == [0x12, 0x07] + Ascii("testing")
  {
    hide SerializeRange, Ascii;
    OneField(2, Single(StringField, Str(Ascii("testing"))));
    SmallRecord(2, StringField, Str(Ascii("testing")));
    assert Varint(7) == [7];
    assert [0x12] + ([7] + Ascii("testing")) == [0x12, 0x07] + Ascii("testing");
  }

  /** Section "Submessages": field 3, the simple message. */
  lemma EmbeddedMessage()
    ensures var sub := OneFieldMessage(1, Single(Int32Field, Num(150)));
            Serialize(OneFieldMessage(3, Single(MessageField, Msg(sub)))) == [0x1A, 0x03, 0x08, 0x96, 0x01]
  {
    hide SerializeRange;
    var sub := OneFieldMessage(1, Single(Int32Field, Num(150)));
    SimpleMessage();
    OneField(3, Single(MessageField, Msg(sub)));
    SmallRecord(3, MessageField, Msg(sub));
    assert Varint(3) == [3];
  }

  /** Section "Packed Fields": field 4, the numbers 3, 270 and 86942. */
  lemma PackedMessage()
    ensures Serialize(OneFieldMessage(4, Extension(Int32Field, true, true, false, [Num(3), Num(270), Num(86942)], 0)))
         == [0x22, 0x06, 0x03, 0x8E, 0x02, 0x9E, 0xA7, 0x05]
  {
    hide SerializeRange;
    var vs := [Num(3), Num(270), Num(86942)];
    OneField(4, Extension(Int32Field, true, true, false, vs, 0));
    PackedNumbers();
    assert Varint(6) == [6] && Varint(MakeTag(4, 2)) == [0x22];
  }

  lemma PackedNumbers()
    ensures EncodeValues(Int32Field, [Num(3), Num(270), Num(86942)]) == [0x03, 0x8E, 0x02, 0x9E, 0xA7, 0x05]
  {
    var vs := [Num(3), Num(270), Num(86942)];
    assert Varint(3) == [3];
    assert Varint(270) == [0x8E] + Varint(2);
    assert Varint(679) == [0xA7] + Varint(5);
    assert Varint(86942) == [0x9E] + Varint(679);
    assert vs[1..] == [Num(270), Num(86942)] && vs[1..][1..] == [Num(86942)] && vs[1..][1..][1..] == [];
    assert EncodeValues(Int32Field, [Num(86942)]) == Varint(86942) + EncodeValues(Int32Field, []);
    assert EncodeValues(Int32Field, vs[1..]) == Varint(270) + EncodeValues(Int32Field, [Num(86942)]);
    assert EncodeValues(Int32Field, vs) == Varint(3) + EncodeValues(Int32Field, vs[1..]);
  }

  /** A negative `int32` takes ten bytes, a negative `sint32` as few as one. */
  lemma NegativeNumbers()
    ensures EncodeNum(Int32Field, -1) == [255, 255, 255, 255, 255, 255, 255, 255, 255, 1]
    ensures EncodeNum(SInt32Field, -1) == [1] && EncodeNum(SInt64Field, -2) == [3]
  {
    hide Varint;
    assert Varint(1) == [1] && Varint(3) == [3] by { SmallVarint(1); SmallVarint(3); }
    OnesMore(0x1);
    OnesMore(0xFF);
    OnesMore(0x7FFF);
    OnesMore(0x3F_FFFF);
    OnesMore(0x1FFF_FFFF);
    OnesMore(0xF_FFFF_FFFF);
    OnesMore(0x7FF_FFFF_FFFF);
    OnesMore(0x3_FFFF_FFFF_FFFF);
    OnesMore(0x1FF_FFFF_FFFF_FFFF);
  }

  lemma SmallVarint(n: nat)
    requires n < 128
    ensures Varint(n) == [n]
  {
  }

  lemma OnesMore(n: nat)
    requires n > 0
    ensures Varint(128 * n + 127) == [255] + Varint(n)
  {
  }
}
