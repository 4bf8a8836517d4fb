/** The memory layout `DynamicMessageFactory` computes for a message type. */
module DynamicLayout {
  import opened WireFormat

  datatype CppType =
    | CppInt32 | CppInt64 | CppUint32 | CppUint64 | CppDouble | CppFloat | CppBool | CppEnum | CppString | CppMessage

  /** A field; `messageType` matters for fields of type message only. */
  datatype Field = Field(cppType: CppType, isRepeated: bool, messageType: nat) {
    predicate IsSingularMessage() {
      cppType == CppMessage && !isRepeated
    }
  }

  /** The sizes of the C++ types involved that the language leaves open. */
  datatype Platform = Platform(
    dynamicMessage: nat, extensionSet: nat, unknownFieldSet: nat, pointer: nat, repeatedPtrField: nat,
    repeatedInt32: nat, repeatedInt64: nat, repeatedUint32: nat, repeatedUint64: nat,
    repeatedDouble: nat, repeatedFloat: nat, repeatedBool: nat, repeatedEnum: nat)
  {
    /** No object has size zero; a repeated field holds a pointer and two
        integers, so it is never small. */
    predicate Valid() {
      && dynamicMessage > 0 && extensionSet > 0 && unknownFieldSet > 0
      && (pointer == 4 || pointer == 8)
      && repeatedPtrField >= 8
      && repeatedInt32 >= 8 && repeatedInt64 >= 8 && repeatedUint32 >= 8 && repeatedUint64 >= 8
      && repeatedDouble >= 8 && repeatedFloat >= 8 && repeatedBool >= 8 && repeatedEnum >= 8
    }
  }

  function FieldSpaceUsed(platform: Platform, field: Field): (size: nat)
    requires platform.Valid()
    ensures size > 0 && Alignment(size) in {1, 4, 8}
  {
    if field.isRepeated then
      match field.cppType
      case CppInt32 => platform.repeatedInt32
      case CppInt64 => platform.repeatedInt64
      case CppUint32 => platform.repeatedUint32
      case CppUint64 => platform.repeatedUint64
      case CppDouble => platform.repeatedDouble
      case CppFloat => platform.repeatedFloat
      case CppBool => platform.repeatedBool
      case CppEnum => platform.repeatedEnum
      case CppMessage => platform.repeatedPtrField
      case CppString => platform.repeatedPtrField
    else
      match field.cppType
      case CppInt32 => 4
      case CppInt64 => 8
      case CppUint32 => 4
      case CppUint64 => 8
      case CppDouble => 8
      case CppFloat => 4
      case CppBool => 1
      case CppEnum => 4
      case CppMessage => platform.pointer
      case CppString => platform.pointer
  }

  /** A number of bytes that can tell so many values apart, and no more of them
      than needed. */
  ghost predicate Snug(length: nat, values: nat) {
    length > 0 && Pow256(length - 1) < values <= Pow256(length)
  }

  /** The stretch of bytes at `offset` holds every value of the field: a number
      of the width of its type, at a multiple of that width, a pointer, or the
      container for the type. */
  ghost predicate Holds(platform: Platform, field: Field, offset: nat, length: nat)
    requires platform.Valid()
  {
    if field.isRepeated then
      && offset % 8 == 0
      && (field.cppType == CppInt32 ==> length == platform.repeatedInt32)
      && (field.cppType == CppInt64 ==> length == platform.repeatedInt64)
      && (field.cppType == CppUint32 ==> length == platform.repeatedUint32)
      && (field.cppType == CppUint64 ==> length == platform.repeatedUint64)
      && (field.cppType == CppDouble ==> length == platform.repeatedDouble)
      && (field.cppType == CppFloat ==> length == platform.repeatedFloat)
      && (field.cppType == CppBool ==> length == platform.repeatedBool)
      && (field.cppType == CppEnum ==> length == platform.repeatedEnum)
      && (field.cppType in {CppString, CppMessage} ==> length == platform.repeatedPtrField)
    else
      && (field.cppType in {CppInt64, CppUint64, CppDouble} ==>
            Snug(length, 0x1_0000_0000_0000_0000) && offset % 8 == 0)
      && (field.cppType in {CppInt32, CppUint32, CppFloat, CppEnum} ==>
            Snug(length, 0x1_0000_0000) && offset % 4 == 0)
      && (field.cppType == CppBool ==> Snug(length, 2))
      && (field.cppType in {CppString, CppMessage} ==> length == platform.pointer && offset % platform.pointer == 0)
  }

  lemma SizesHold(platform: Platform, field: Field, offset: nat)
    requires platform.Valid() && offset % Alignment(FieldSpaceUsed(platform, field)) == 0
    ensures Holds(platform, field, offset, FieldSpaceUsed(platform, field))
  {
    Powers();
    assert Pow256(3) == 0x100_0000 && Pow256(7) == 0x100_0000_0000_0000 by {
      assert Pow256(4) == 256 * Pow256(3) && Pow256(8) == 256 * Pow256(7);
    }
    assert Pow256(0) == 1 && Pow256(1) == 256;
  }

  function DivideRoundingUp(i: nat, j: nat): nat
    requires j > 0
  {
    (i + (j - 1)) / j
  }

  const SAFE_ALIGNMENT: nat := 8

  function AlignTo(offset: nat, alignment: nat): nat
    requires alignment > 0
  {
    DivideRoundingUp(offset, alignment) * alignment
  }

  function AlignOffset(offset: nat): nat {
    AlignTo(offset, SAFE_ALIGNMENT)
  }

  /** The alignment of an object of a given size: the size, up to eight. */
  function Alignment(size: nat): nat {
    if SAFE_ALIGNMENT < size then SAFE_ALIGNMENT else size
  }

  const BITS_PER_WORD: nat := 32

  /** Rounding up gives the least multiple that is not smaller. */
  lemma AlignToIsLeast(offset: nat, alignment: nat)
    requires alignment > 0
    ensures AlignTo(offset, alignment) % alignment == 0
    ensures offset <= AlignTo(offset, alignment) < offset + alignment
  {
    var q := DivideRoundingUp(offset, alignment);
    var n := offset + (alignment - 1);
    assert n == q * alignment + n % alignment;
    MultipleOf(q, alignment);
  }

  lemma MultipleOf(q: nat, m: nat)
    requires m > 0
    ensures (q * m) % m == 0
  {
    var d, r := (q * m) / m, (q * m) % m;
    assert q * m == d * m + r;
    assert (q - d) * m == r;
    assert q - d >= 1 ==> (q - d) * m >= m;
    assert q - d <= -1 ==> (q - d) * m <= -1 * m;
  }

  /** A stretch of bytes of the message object. */
  datatype Region = Region(start: nat, length: nat) {
    function End(): nat {
      start + length
    }
  }

  /** Offsets in the message object; an `extensionsOffset` of -1 stands for a
      type with no extensions. */
  datatype TypeInfo = TypeInfo(
    size: nat, hasBitsOffset: nat, unknownFieldsOffset: nat, extensionsOffset: int, offsets: seq<nat>)

  function Words(fields: seq<Field>): nat {
    DivideRoundingUp(|fields|, BITS_PER_WORD)
  }

  function FieldRegions(platform: Platform, fields: seq<Field>, offsets: seq<nat>): (rs: seq<Region>)
    requires platform.Valid() && |offsets| <= |fields|
  {
    seq(|offsets|, i requires 0 <= i < |offsets| => Region(offsets[i], FieldSpaceUsed(platform, fields[i])))
  }

  /** The parts of the object before the fields. */
  function HeadRegions(platform: Platform, fields: seq<Field>, hasBitsOffset: nat, extensionsOffset: int): seq<Region> {
    [Region(0, platform.dynamicMessage), Region(hasBitsOffset, 4 * Words(fields))]
    + if extensionsOffset >= 0 then [Region(extensionsOffset, platform.extensionSet)] else []
  }

  /** Every part of the object, in address order. */
  function Regions(platform: Platform, fields: seq<Field>, t: TypeInfo): seq<Region>
    requires platform.Valid() && |t.offsets| == |fields|
  {
    HeadRegions(platform, fields, t.hasBitsOffset, t.extensionsOffset)
    + FieldRegions(platform, fields, t.offsets)
    + [Region(t.unknownFieldsOffset, platform.unknownFieldSet)]
  }

  /** Each part starts at or after the end of the one before, with fewer than
      eight bytes of padding between. */
  ghost predicate Packed(rs: seq<Region>) {
    forall i {:trigger rs[i]} :: 0 <= i < |rs| - 1 ==> rs[i].End() <= rs[i + 1].start < rs[i].End() + 8
  }

  ghost predicate Disjoint(rs: seq<Region>) {
    forall i, j :: 0 <= i < j < |rs| ==> rs[i].End() <= rs[j].start
  }

  /** The same in addresses: the message object, a word of four bytes for every
      32 fields, the extensions, the fields in order and the unknown fields
      follow each other, and all end within the object. */
  ghost predicate InOrder(platform: Platform, fields: seq<Field>, hasExtensions: bool, t: TypeInfo)
    requires platform.Valid() && |t.offsets| == |fields|
  {
    var bitsEnd := t.hasBitsOffset + (|fields| + 31) / 32 * 4;
    var headEnd := if hasExtensions then t.extensionsOffset + platform.extensionSet else bitsEnd;
    && platform.dynamicMessage <= t.hasBitsOffset
    && (hasExtensions ==> bitsEnd <= t.extensionsOffset)
    && headEnd <= t.unknownFieldsOffset
    && t.unknownFieldsOffset + platform.unknownFieldSet <= t.size
    && (forall i :: 0 <= i < |fields| ==>
          headEnd <= t.offsets[i] && t.offsets[i] + FieldSpaceUsed(platform, fields[i]) <= t.unknownFieldsOffset)
    && (forall i, j :: 0 <= i < j < |fields| ==>
          t.offsets[i] + FieldSpaceUsed(platform, fields[i]) <= t.offsets[j])
  }

  lemma DisjointInOrder(platform: Platform, fields: seq<Field>, hasExtensions: bool, t: TypeInfo)
    requires platform.Valid() && |t.offsets| == |fields| && (hasExtensions <==> t.extensionsOffset >= 0)
    requires Disjoint(Regions(platform, fields, t))
    requires t.unknownFieldsOffset + platform.unknownFieldSet <= t.size
    ensures InOrder(platform, fields, hasExtensions, t)
  {
    hide FieldSpaceUsed;
    var rs := Regions(platform, fields, t);
    var h := |HeadRegions(platform, fields, t.hasBitsOffset, t.extensionsOffset)|;
    assert rs[0] == Region(0, platform.dynamicMessage);
    assert rs[1] == Region(t.hasBitsOffset, 4 * Words(fields));
    assert hasExtensions ==> rs[2] == Region(t.extensionsOffset, platform.extensionSet);
    assert forall i :: 0 <= i < |fields| ==>
             rs[h + i] == Region(t.offsets[i], FieldSpaceUsed(platform, fields[i]));
    assert rs[h + |fields|] == Region(t.unknownFieldsOffset, platform.unknownFieldSet);
  }

  /** A layout of a message type that is safe to use. */
  ghost predicate Laid(platform: Platform, fields: seq<Field>, hasExtensions: bool, t: TypeInfo)
    requires platform.Valid()
  {
    && |t.offsets| == |fields|
    && (hasExtensions <==> t.extensionsOffset >= 0)
    && Disjoint(Regions(platform, fields, t)) && Packed(Regions(platform, fields, t))
    && InOrder(platform, fields, hasExtensions, t)
    && t.size < t.unknownFieldsOffset + platform.unknownFieldSet + 8
    && (forall i :: 0 <= i < |fields| ==>
          Holds(platform, fields[i], t.offsets[i], FieldSpaceUsed(platform, fields[i])))
    && t.hasBitsOffset % 8 == 0 && t.unknownFieldsOffset % 8 == 0
    && t.size % 8 == 0 && (hasExtensions ==> t.extensionsOffset % 8 == 0)
    && (forall i :: 0 <= i < |fields| ==> i / 32 < Words(fields))
  }

  lemma {:induction false} PackedIsDisjoint(rs: seq<Region>, i: nat, j: nat)
    requires Packed(rs) && i < j < |rs|
    ensures rs[i].End() <= rs[j].start
  {
    assert rs[j - 1].End() <= rs[j].start;
    if i < j - 1 {
      PackedIsDisjoint(rs, i, j - 1);
    }
  }

  lemma PackedAreDisjoint(rs: seq<Region>)
    requires Packed(rs)
    ensures Disjoint(rs)
  {
    hide Packed;
    forall i, j | 0 <= i < j < |rs|
      ensures rs[i].End() <= rs[j].start
    {
      PackedIsDisjoint(rs, i, j);
    }
  }

  lemma PackedExtends(rs: seq<Region>, r: Region)
    requires Packed(rs) && rs != []
    requires rs[|rs| - 1].End() <= r.start < rs[|rs| - 1].End() + SAFE_ALIGNMENT
    ensures Packed(rs + [r])
  {
  }

  lemma WordsHoldBits(fields: seq<Field>)
    ensures forall i :: 0 <= i < |fields| ==> i / BITS_PER_WORD < Words(fields)
  {
  }

  lemma FieldRegionsGrow(platform: Platform, fields: seq<Field>, offsets: seq<nat>, offset: nat)
    requires platform.Valid() && |offsets| < |fields|
    ensures FieldRegions(platform, fields, offsets + [offset])
         == FieldRegions(platform, fields, offsets) + [Region(offset, FieldSpaceUsed(platform, fields[|offsets|]))]
  {
  }

  /** What the loop over the fields keeps: the parts placed so far are packed,
      and `size` is where the next one may start. */
  ghost predicate Placed(platform: Platform, fields: seq<Field>, head: seq<Region>, offsets: seq<nat>, size: nat)
    requires platform.Valid()
  {
    && |offsets| <= |fields|
    && head != []
    && Packed(head + FieldRegions(platform, fields, offsets))
    && LastEnd(head + FieldRegions(platform, fields, offsets)) <= size
       < LastEnd(head + FieldRegions(platform, fields, offsets)) + SAFE_ALIGNMENT
    && (if offsets == [] then size % SAFE_ALIGNMENT == 0
        else LastEnd(head + FieldRegions(platform, fields, offsets)) == size)
    && forall i :: 0 <= i < |offsets| ==> offsets[i] % Alignment(FieldSpaceUsed(platform, fields[i])) == 0
  }

  function LastEnd(rs: seq<Region>): nat
    requires rs != []
  {
    rs[|rs| - 1].End()
  }

  lemma AlignedStays(offset: nat, alignment: nat)
    requires offset % SAFE_ALIGNMENT == 0 && alignment in {1, 4, 8}
    ensures AlignTo(offset, alignment) == offset
  {
  }

  lemma PlaceField(platform: Platform, fields: seq<Field>, head: seq<Region>, offsets: seq<nat>, size: nat)
    requires platform.Valid() && Placed(platform, fields, head, offsets, size) && |offsets| < |fields|
    ensures var used := FieldSpaceUsed(platform, fields[|offsets|]);
            var offset := AlignTo(size, Alignment(used));
            Placed(platform, fields, head, offsets + [offset], offset + used)
  {
    hide AlignTo, FieldSpaceUsed;
    var used := FieldSpaceUsed(platform, fields[|offsets|]);
    AlignToIsLeast(size, Alignment(used));
    var offset := AlignTo(size, Alignment(used));
    if offsets == [] {
      AlignedStays(size, Alignment(used));
    }
    FieldRegionsGrow(platform, fields, offsets, offset);
    var rs := head + FieldRegions(platform, fields, offsets);
    PackedExtends(rs, Region(offset, used));
    assert rs + [Region(offset, used)] == head + FieldRegions(platform, fields, offsets + [offset]);
  }

  lemma HeadIsPlaced(platform: Platform, fields: seq<Field>, hasBitsOffset: nat, extensionsOffset: int, size: nat)
    requires platform.Valid()
    requires hasBitsOffset == AlignOffset(platform.dynamicMessage)
    requires var end := AlignOffset(hasBitsOffset + 4 * Words(fields));
             if extensionsOffset < 0 then size == end
             else extensionsOffset == end && size == AlignOffset(end + platform.extensionSet)
    ensures Placed(platform, fields, HeadRegions(platform, fields, hasBitsOffset, extensionsOffset), [], size)
    ensures hasBitsOffset % SAFE_ALIGNMENT == 0 && (extensionsOffset >= 0 ==> extensionsOffset % SAFE_ALIGNMENT == 0)
  {
    hide AlignTo;
    AlignToIsLeast(platform.dynamicMessage, SAFE_ALIGNMENT);
    AlignToIsLeast(hasBitsOffset + 4 * Words(fields), SAFE_ALIGNMENT);
    if extensionsOffset >= 0 {
      AlignToIsLeast(extensionsOffset + platform.extensionSet, SAFE_ALIGNMENT);
    }
    var head := HeadRegions(platform, fields, hasBitsOffset, extensionsOffset);
    assert head + FieldRegions(platform, fields, []) == head;
  }

  lemma PlacedIsLaid(platform: Platform, fields: seq<Field>, hasExtensions: bool, end: nat, t: TypeInfo)
    requires platform.Valid() && |t.offsets| == |fields|
    requires Placed(platform, fields, HeadRegions(platform, fields, t.hasBitsOffset, t.extensionsOffset), t.offsets,
             end)
    requires t.hasBitsOffset % SAFE_ALIGNMENT == 0
    requires if hasExtensions then t.extensionsOffset >= 0 && t.extensionsOffset % SAFE_ALIGNMENT == 0
             else t.extensionsOffset < 0
    requires t.unknownFieldsOffset == AlignOffset(end)
    requires t.size == AlignOffset(t.unknownFieldsOffset + platform.unknownFieldSet)
    ensures Laid(platform, fields, hasExtensions, t)
  {
    hide AlignTo, FieldSpaceUsed, Words, Packed, Disjoint, HeadRegions, Holds, InOrder, Alignment;
    AlignToIsLeast(end, SAFE_ALIGNMENT);
    AlignToIsLeast(t.unknownFieldsOffset + platform.unknownFieldSet, SAFE_ALIGNMENT);
    if t.offsets == [] {
      AlignedStays(end, SAFE_ALIGNMENT);
    }
    WordsHoldBits(fields);
    var head := HeadRegions(platform, fields, t.hasBitsOffset, t.extensionsOffset);
    var rs := head + FieldRegions(platform, fields, t.offsets);
    PackedExtends(rs, Region(t.unknownFieldsOffset, platform.unknownFieldSet));
    var all := Regions(platform, fields, t);
    assert all == rs + [Region(t.unknownFieldsOffset, platform.unknownFieldSet)];
    PackedAreDisjoint(all);
    DisjointInOrder(platform, fields, hasExtensions, t);
    forall i | 0 <= i < |fields|
      ensures Holds(platform, fields[i], t.offsets[i], FieldSpaceUsed(platform, fields[i]))
    {
      SizesHold(platform, fields[i], t.offsets[i]);
    }
  }

  /** Decides all offsets by packing in order. */
  method ComputeLayout(platform: Platform, fields: seq<Field>, hasExtensions: bool) returns (t: TypeInfo)
    requires platform.Valid()
    ensures Laid(platform, fields, hasExtensions, t)
  {
    hide DivideRoundingUp, AlignTo, Placed, Packed;
    var size: nat := platform.dynamicMessage;
    size := AlignOffset(size);
    var hasBitsOffset: nat := size;
    size := size + DivideRoundingUp(|fields|, BITS_PER_WORD) * 4;
    size := AlignOffset(size);
    var extensionsOffset: int := -1;
    if hasExtensions {
      extensionsOffset := size;
      size := size + platform.extensionSet;
      size := AlignOffset(size);
    }
    ghost var head := HeadRegions(platform, fields, hasBitsOffset, extensionsOffset);
    HeadIsPlaced(platform, fields, hasBitsOffset, extensionsOffset, size);
    var offsets: seq<nat> := [];
    for i := 0 to |fields|
      invariant |offsets| == i
      invariant Placed(platform, fields, head, offsets, size)
    {
      PlaceField(platform, fields, head, offsets, size);
      var fieldSize := FieldSpaceUsed(platform, fields[i]);
      size := AlignTo(size, Alignment(fieldSize));
      offsets := offsets + [size];
      size := size + fieldSize;
    }
    ghost var end: nat := size;
    size := AlignOffset(size);
    var unknownFieldsOffset: nat := size;
    size := size + platform.unknownFieldSet;
    size := AlignOffset(size);
    t := TypeInfo(size, hasBitsOffset, unknownFieldsOffset, extensionsOffset, offsets);
    PlacedIsLaid(platform, fields, hasExtensions, end, t);
  }
}
