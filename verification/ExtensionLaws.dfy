/** Parsing what was serialized is merging. */
module ExtensionLaws {
  import opened Prelude
  import opened WireFormat
  import opened Extensions

  // ------------------------------------------------------ one record at a time

  function AddAll(m: Message, number: nat, info: Info, vs: seq<Value>): Message
    decreases |vs|
  {
    if vs == [] then m else AddAll(Add(m, number, info, vs[0]), number, info, vs[1..])
  }

  /** Adding values one by one extends the extension, or creates it. */
  lemma {:induction false} AddAllIs(m: Message, number: nat, info: Info, vs: seq<Value>)
    requires vs != []
    ensures AddAll(m, number, info, vs) == m.(fields := m.fields[number :=
              if number in m.fields then m.fields[number].(values := m.fields[number].values + vs)
              else Extension(info.kind, true, info.packed, false, vs, 0)])
    decreases |vs|
  {
    var m' := Add(m, number, info, vs[0]);
    if |vs| == 1 {
      assert vs == [vs[0]] && vs[1..] == [];
    } else {
      AddAllIs(m', number, info, vs[1..]);
      assert [vs[0]] + vs[1..] == vs;
      if number in m.fields {
        assert (m.fields[number].values + [vs[0]]) + vs[1..] == m.fields[number].values + vs;
      }
    }
  }

  /** A tag is recognised and its record handed on. */
  lemma TagStep(r: Registry, t: nat, m: Message, number: nat, wireType: nat, s: Bytes, room: nat)
    requires RegistryOk(r) && (t, number) in r && wireType == ExpectedWireType(r[(t, number)])
    ensures ParseMessage(r, t, m, Varint(MakeTag(number, wireType)) + s, room) ==
            match ParseKnown(r, m, number, r[(t, number)], s, room)
            case None => None
            case Some(x) => ParseMessage(r, t, x.value, x.rest, room)
  {
    hide ParseKnown, ReadTag, Varint;
    TagRoundTrip(number, wireType, s);
    assert Varint(MakeTag(number, wireType)) + s != [];
  }

  lemma {:induction false} PackedReadsBack(m: Message, number: nat, info: Info, vs: seq<Value>)
    requires IsPackable(info.kind)
    requires forall i :: 0 <= i < |vs| ==> vs[i].Num? && NumOk(info.kind, vs[i].n) && ValidEnum(info, vs[i].n)
    ensures ParsePacked(m, number, info, EncodeValues(info.kind, vs)) == Some(AddAll(m, number, info, vs))
    ensures vs != [] ==> EncodeValues(info.kind, vs) != []
    decreases |vs|
  {
    hide DecodeNum, EncodeNum;
    if vs != [] {
      NumRoundTrip(info.kind, vs[0].n, EncodeValues(info.kind, vs[1..]));
      PackedReadsBack(Add(m, number, info, vs[0]), number, info, vs[1..]);
    }
  }

  lemma {:induction false} CopiedNumbers(vs: seq<Value>, sparse: bool)
    requires forall i :: 0 <= i < |vs| ==> !vs[i].Msg?
    ensures CopyValues(vs, sparse) == vs
  {
    if vs != [] {
      CopiedNumbers(vs[1..], sparse);
      assert [vs[0]] + vs[1..] == vs;
    }
  }

  /** The message a value is parsed into. */
  function Target(m: Message, number: nat, info: Info): Message {
    if info.repeated then EMPTY else Held(Lookup(m, number))
  }

  /** A value is read back exactly when its nesting fits the room there is. */
  lemma {:induction false} ValueReadsBack(
      r: Registry, m: Message, number: nat, info: Info, v: Value, rest: Bytes, room: nat)
    requires RegistryOk(r) && !info.packed && ValueOk(r, info, v)
    requires |EncodeValue(info.kind, v)| < TWO31
    ensures ParseKnown(r, m, number, info, EncodeValue(info.kind, v) + rest, room) ==
            if ValueDepth(v) <= room
            then Some(Reading(Store(m, number, info, MergedValue(Target(m, number, info), v, true)), rest))
            else None
    decreases v, 0, 0
  {
    hide DecodeNum, EncodeNum, ReadDelimited, ReadLimited, Delimited, Combine, ParseMessage, RangeDepth;
    match v
    case Num(n) =>
      NumRoundTrip(info.kind, n, rest);
    case Str(s) =>
      DelimitedShorter(s);
      DelimitedRoundTrip(s, rest);
    case Msg(sub) =>
      var s := Serialize(sub);
      DelimitedShorter(s);
      DelimitedRoundTrip(s, rest);
      if room > 0 {
        RangeReadsBack(r, info.messageType, Target(m, number, info), sub, 0, MAX_NUMBER, [], room - 1);
        assert s + [] == s;
        WholeRange(Target(m, number, info), sub);
        FinishedParse(r, info.messageType, Combine(Target(m, number, info), sub, true), room - 1);
      }
  }

  lemma FinishedParse(r: Registry, t: nat, m: Message, room: nat)
    ensures ParseMessage(r, t, m, [], room) == Some(m)
  {
  }

  lemma DelimitedShorter(s: Bytes)
    ensures |s| < |Delimited(s)|
  {
  }

  function StoreAll(m: Message, number: nat, info: Info, vs: seq<Value>): Message
    decreases |vs|
  {
    if vs == [] then m
    else StoreAll(Store(m, number, info, MergedValue(Target(m, number, info), vs[0], true)), number, info, vs[1..])
  }

  lemma {:induction false} EachReadsBack(
      r: Registry, t: nat, m: Message, number: nat, vs: seq<Value>, rest: Bytes, room: nat)
    requires RegistryOk(r) && (t, number) in r && !r[(t, number)].packed
    requires forall i :: 0 <= i < |vs| ==> ValueOk(r, r[(t, number)], vs[i])
    requires |SerializeEach(number, r[(t, number)].kind, vs)| < TWO31
    ensures ParseMessage(r, t, m, SerializeEach(number, r[(t, number)].kind, vs) + rest, room) ==
            if ValuesDepth(vs) <= room
            then ParseMessage(r, t, StoreAll(m, number, r[(t, number)], vs), rest, room)
            else None
    decreases vs, 0, 0
  {
    hide ParseKnown, EncodeValue, ParseMessage, Store, MergedValue, ValueOk, Varint, ValueDepth;
    var info := r[(t, number)];
    if vs == [] {
      assert SerializeEach(number, info.kind, vs) + rest == rest;
    } else {
      var tag, v, more := Varint(MakeTag(number, WireTypeOf(info.kind))), EncodeValue(info.kind, vs[0]),
                          SerializeEach(number, info.kind, vs[1..]);
      assert tag + v + more + rest == tag + (v + (more + rest));
      TagStep(r, t, m, number, WireTypeOf(info.kind), v + (more + rest), room);
      ValueReadsBack(r, m, number, info, vs[0], more + rest, room);
      var m' := Store(m, number, info, MergedValue(Target(m, number, info), vs[0], true));
      EachReadsBack(r, t, m', number, vs[1..], rest, room);
    }
  }

  lemma {:induction false} StoreAllRepeated(m: Message, number: nat, info: Info, vs: seq<Value>)
    requires info.repeated
    ensures StoreAll(m, number, info, vs) == AddAll(m, number, info, CopyValues(vs, true))
    decreases |vs|
  {
    if vs != [] {
      var v := MergedValue(EMPTY, vs[0], true);
      StoreAllRepeated(Add(m, number, info, v), number, info, vs[1..]);
      assert CopyValues(vs, true)[1..] == CopyValues(vs[1..], true);
    }
  }

  /** One extension combined into a message. */
  function CombineOne(a: Message, number: nat, e: Extension): Message {
    if IsEmpty(e) then a
    else a.(fields := a.fields[number := CombineExtension(Lookup(a, number), e, true)])
  }

  lemma {:induction false} ExtensionReadsBack(
      r: Registry, t: nat, a: Message, number: nat, e: Extension, rest: Bytes, room: nat)
    requires RegistryOk(r) && (t, number) in r && ExtensionOk(r, r[(t, number)], e)
    requires |SerializeExtension(number, e)| < TWO31
    ensures ParseMessage(r, t, a, SerializeExtension(number, e) + rest, room) ==
            if ExtensionDepth(e) <= room then ParseMessage(r, t, CombineOne(a, number, e), rest, room) else None
    decreases e, 0, 0
  {
    hide ParseKnown, ParseMessage, MergedValue, ValueOk, Varint, EncodeValues, SerializeEach, Delimited,
      ReadDelimited, ReadLimited, ValuesDepth;
    var info := r[(t, number)];
    var s := SerializeExtension(number, e);
    if IsEmpty(e) {
      assert s + rest == rest by { NoneSerialized(number, e.kind); }
    } else if e.packed {
      PackedExtensionReadsBack(r, t, a, number, e, rest, room);
    } else {
      EachReadsBack(r, t, a, number, e.values, rest, room);
      if e.repeated {
        StoreAllRepeated(a, number, info, e.values);
        AddAllIs(a, number, info, CopyValues(e.values, true));
      } else {
        assert e.values[1..] == [];
      }
    }
  }

  lemma NoneSerialized(number: nat, kind: FieldType)
    ensures SerializeEach(number, kind, []) == []
  {
  }

  lemma {:induction false} NumbersAreFlat(vs: seq<Value>)
    requires forall i :: 0 <= i < |vs| ==> !vs[i].Msg?
    ensures ValuesDepth(vs) == 0
    decreases |vs|
  {
    if vs != [] {
      NumbersAreFlat(vs[1..]);
    }
  }

  lemma PackedExtensionReadsBack(
      r: Registry, t: nat, a: Message, number: nat, e: Extension, rest: Bytes, room: nat)
    requires RegistryOk(r) && (t, number) in r && ExtensionOk(r, r[(t, number)], e)
    requires e.packed && e.values != [] && |SerializeExtension(number, e)| < TWO31
    ensures ParseMessage(r, t, a, SerializeExtension(number, e) + rest, room) ==
            ParseMessage(r, t, CombineOne(a, number, e), rest, room)
    ensures ExtensionDepth(e) == 0
  {
    hide ParseMessage, MergedValue, Varint, EncodeValues, ParsePacked, Delimited, ReadDelimited, ReadLimited,
         ValuesDepth;
    var info := r[(t, number)];
    var payload := EncodeValues(e.kind, e.values);
    var tag := Varint(MakeTag(number, LENGTH_DELIMITED));
    assert SerializeExtension(number, e) + rest == tag + (Delimited(payload) + rest);
    DelimitedShorter(payload);
    DelimitedRoundTrip(payload, rest);
    TagStep(r, t, a, number, LENGTH_DELIMITED, Delimited(payload) + rest, room);
    assert forall i :: 0 <= i < |e.values| ==> ValueOk(r, info, e.values[i]);
    NumbersAreFlat(e.values);
    PackedReadsBack(a, number, info, e.values);
    CopiedNumbers(e.values, true);
    AddAllIs(a, number, info, e.values);
  }

  // ------------------------------------------------------------ whole messages

  /** The extensions numbered from `start` to below `end`. */
  function Restrict(m: Message, start: nat, end: nat): Message {
    m.(fields := map k | k in m.fields && start <= k < end :: m.fields[k])
  }

  lemma {:induction false} RangeReadsBack(
      r: Registry, t: nat, a: Message, b: Message, start: nat, end: nat, rest: Bytes, room: nat)
    requires RegistryOk(r) && MessageOk(r, t, b) && |SerializeRange(b, start, end)| < TWO31
    ensures ParseMessage(r, t, a, SerializeRange(b, start, end) + rest, room) ==
            if RangeDepth(b, start, end) <= room
            then ParseMessage(r, t, Combine(a, Restrict(b, start, end), true), rest, room)
            else None
    decreases b, if start < end then end - start else 0, 0
  {
    hide ParseMessage, SerializeExtension, CombineOne, ExtensionOk, Combine, ExtensionDepth;
    if start >= end {
      assert SerializeRange(b, start, end) + rest == rest;
      NothingCombined(a, b, start, end);
    } else if start in b.fields {
      var e := b.fields[start];
      var s, more := SerializeExtension(start, e), SerializeRange(b, start + 1, end);
      assert SerializeRange(b, start, end) + rest == s + (more + rest);
      ExtensionReadsBack(r, t, a, start, e, more + rest, room);
      RangeReadsBack(r, t, CombineOne(a, start, e), b, start + 1, end, rest, room);
      CombineStep(a, b, start, end);
    } else {
      assert SerializeRange(b, start, end) == SerializeRange(b, start + 1, end);
      RangeReadsBack(r, t, a, b, start + 1, end, rest, room);
      assert Restrict(b, start, end) == Restrict(b, start + 1, end);
    }
  }

  lemma NothingCombined(a: Message, b: Message, start: nat, end: nat)
    requires start >= end
    ensures Combine(a, Restrict(b, start, end), true) == a
  {
    assert Combine(a, Restrict(b, start, end), true).fields == a.fields;
  }

  lemma CombineStep(a: Message, b: Message, start: nat, end: nat)
    requires start < end && start in b.fields
    ensures Combine(CombineOne(a, start, b.fields[start]), Restrict(b, start + 1, end), true) ==
            Combine(a, Restrict(b, start, end), true)
  {
    hide CombineExtension, IsEmpty, Combine;
    var one, more := CombineOne(a, start, b.fields[start]), Restrict(b, start + 1, end);
    var x, y := Combine(one, more, true), Combine(a, Restrict(b, start, end), true);
    forall k
      ensures Lookup(x, k) == Lookup(y, k)
    {
      CombinedLookup(one, more, k);
      CombinedLookup(a, Restrict(b, start, end), k);
    }
    SameFields(x, y);
    SameCache(one, more);
    SameCache(a, Restrict(b, start, end));
  }

  lemma SameCache(a: Message, b: Message)
    ensures Combine(a, b, true).cachedSize == a.cachedSize
  {
  }

  lemma WholeRange(a: Message, b: Message)
    requires forall k :: k in b.fields ==> k < MAX_NUMBER
    ensures Combine(a, Restrict(b, 0, MAX_NUMBER), true) == Combine(a, b, true)
  {
    assert Restrict(b, 0, MAX_NUMBER).fields == b.fields;
  }

  // ------------------------------------------------------- merging and content

  lemma {:induction false} NormOfAppended(vs: seq<Value>, ws: seq<Value>)
    ensures NormValues(vs + ws) == NormValues(vs) + NormValues(ws)
    decreases |vs|
  {
    if vs == [] {
      assert vs + ws == ws;
    } else {
      assert (vs + ws)[1..] == vs[1..] + ws;
      NormOfAppended(vs[1..], ws);
    }
  }

  lemma NormOfEmpty()
    ensures Norm(EMPTY) == EMPTY
  {
  }

  lemma {:induction false} CopiesNormalised(r: Registry, info: Info, vs: seq<Value>)
    requires forall i :: 0 <= i < |vs| ==> ValueOk(r, info, vs[i])
    ensures NormValues(CopyValues(vs, false)) == CopyValues(vs, true)
    decreases vs, 0
  {
    if vs != [] {
      ValueMergeNormalised(r, info, EMPTY, vs[0]);
      NormOfEmpty();
      CopiesNormalised(r, info, vs[1..]);
      assert CopyValues(vs, false)[1..] == CopyValues(vs[1..], false);
    }
  }

  lemma {:induction false} ValueMergeNormalised(r: Registry, info: Info, target: Message, v: Value)
    requires ValueOk(r, info, v)
    requires v.Msg? ==> MessageOk(r, info.messageType, target)
    ensures NormValue(MergedValue(target, v, false)) == MergedValue(Norm(target), v, true)
    decreases v, 0
  {
    if v.Msg? {
      MergeNormalised(r, info.messageType, target, v.message);
    }
  }

  /** An extension as content: absent when it is empty. */
  function NormLookup(x: Option<Extension>): Option<Extension> {
    if x.Some? && !IsEmpty(x.value) then Some(NormExtension(x.value)) else None
  }

  lemma {:induction false} ExtensionMergeNormalised(r: Registry, info: Info, x: Option<Extension>, e: Extension)
    requires ExtensionOk(r, info, e) && (x.Some? ==> ExtensionOk(r, info, x.value))
    ensures !IsEmpty(e) ==>
              NormLookup(Some(CombineExtension(x, e, false))) == Some(CombineExtension(NormLookup(x), e, true))
    ensures IsEmpty(e) && e.repeated ==> NormLookup(Some(CombineExtension(x, e, false))) == NormLookup(x)
    decreases e, 0
  {
    hide ValueOk, MergedValue;
    if e.repeated {
      CopiesNormalised(r, info, e.values);
      if x.Some? {
        NormOfAppended(x.value.values, CopyValues(e.values, false));
        assert x.value.values == [] ==> NormValues(x.value.values) == [];
        assert [] + CopyValues(e.values, true) == CopyValues(e.values, true);
        assert e.values == [] ==> x.value.values + CopyValues(e.values, false) == x.value.values;
      }
    } else if !e.cleared {
      HeldNormalised(r, info, x);
      HeldOk(r, info, x);
      SingleValue(r, info, Held(x), e.values);
      assert CombineExtension(x, e, false).values == [MergedValue(Held(x), e.values[0], false)];
    }
  }

  lemma {:induction false} SingleValue(r: Registry, info: Info, target: Message, vs: seq<Value>)
    requires |vs| == 1 && ValueOk(r, info, vs[0])
    requires vs[0].Msg? ==> MessageOk(r, info.messageType, target)
    ensures NormValues([MergedValue(target, vs[0], false)]) == [MergedValue(Norm(target), vs[0], true)]
    decreases vs, 0
  {
    ValueMergeNormalised(r, info, target, vs[0]);
    assert [MergedValue(target, vs[0], false)][1..] == [];
  }

  lemma HeldNormalised(r: Registry, info: Info, x: Option<Extension>)
    requires !info.repeated && (x.Some? ==> ExtensionOk(r, info, x.value))
    ensures Held(NormLookup(x)) == Norm(Held(x))
  {
    hide ValueOk, Norm;
    NormOfEmpty();
    if x.Some? {
      assert NormExtension(x.value).values[0] == NormValue(x.value.values[0]);
    }
  }

  lemma HeldOk(r: Registry, info: Info, x: Option<Extension>)
    requires x.Some? ==> ExtensionOk(r, info, x.value)
    ensures MessageOk(r, info.messageType, Held(x))
  {
    if x.Some? && x.value.values != [] {
      assert ValueOk(r, info, x.value.values[0]);
    }
  }

  /** Merging, up to cleared and empty extensions, is what parsing does. */
  lemma {:induction false} MergeNormalised(r: Registry, t: nat, a: Message, b: Message)
    requires MessageOk(r, t, a) && MessageOk(r, t, b)
    ensures Norm(Merge(a, b)) == Combine(Norm(a), b, true)
    decreases b, 0
  {
    hide NormExtension, CombineExtension, ExtensionOk;
    var x, y := Norm(Merge(a, b)), Combine(Norm(a), b, true);
    forall k
      ensures Lookup(x, k) == Lookup(y, k)
    {
      MergedLookup(a, b, k);
      CombinedLookup(Norm(a), b, k);
      NormalisedLookup(a, k);
      NormalisedLookup(Merge(a, b), k);
      if k in b.fields {
        ExtensionMergeNormalised(r, r[(t, k)], Lookup(a, k), b.fields[k]);
      }
    }
    SameFields(x, y);
  }

  lemma SameFields(x: Message, y: Message)
    requires forall k :: Lookup(x, k) == Lookup(y, k)
    ensures x.fields == y.fields
  {
    forall k ensures k in x.fields <==> k in y.fields {
      assert Lookup(x, k) == Lookup(y, k);
    }
    forall k | k in x.fields ensures x.fields[k] == y.fields[k] {
      assert Lookup(x, k) == Lookup(y, k);
    }
  }

  lemma NormalisedLookup(m: Message, k: nat)
    ensures Lookup(Norm(m), k) == NormLookup(Lookup(m, k))
  {
  }

  lemma MergedLookup(a: Message, b: Message, k: nat)
    ensures Lookup(Merge(a, b), k) ==
            if k in b.fields && (b.fields[k].repeated || !b.fields[k].cleared)
            then Some(CombineExtension(Lookup(a, k), b.fields[k], false)) else Lookup(a, k)
  {
    hide CombineExtension;
  }

  lemma CombinedLookup(a: Message, b: Message, k: nat)
    ensures Lookup(Combine(a, b, true), k) ==
            if k in b.fields && !IsEmpty(b.fields[k])
            then Some(CombineExtension(Lookup(a, k), b.fields[k], true)) else Lookup(a, k)
  {
    hide CombineExtension;
  }

  // ------------------------------------------------ into an empty message

  lemma {:induction false} CopiedIsNormal(r: Registry, info: Info, vs: seq<Value>)
    requires forall i :: 0 <= i < |vs| ==> ValueOk(r, info, vs[i])
    ensures CopyValues(vs, true) == NormValues(vs)
    decreases vs, 0
  {
    if vs != [] {
      ValueCopyIsNormal(r, info, vs[0]);
      CopiedIsNormal(r, info, vs[1..]);
    }
  }

  lemma {:induction false} ValueCopyIsNormal(r: Registry, info: Info, v: Value)
    requires ValueOk(r, info, v)
    ensures MergedValue(EMPTY, v, true) == NormValue(v)
    decreases v, 0
  {
    if v.Msg? {
      CombinedIntoEmpty(r, info.messageType, v.message);
    }
  }

  lemma {:induction false} ExtensionCopyIsNormal(r: Registry, info: Info, e: Extension)
    requires ExtensionOk(r, info, e) && !IsEmpty(e)
    ensures CombineExtension(None, e, true) == NormExtension(e)
    decreases e, 0
  {
    hide ValueOk, MergedValue;
    CopiedIsNormal(r, info, e.values);
    if !e.repeated {
      assert CopyValues(e.values, true) == [MergedValue(EMPTY, e.values[0], true)];
    }
  }

  lemma {:induction false} CombinedIntoEmpty(r: Registry, t: nat, b: Message)
    requires MessageOk(r, t, b)
    ensures Combine(EMPTY, b, true) == Norm(b)
    decreases b, 0
  {
    hide NormExtension, CombineExtension, ExtensionOk, IsEmpty;
    var x, y := Combine(EMPTY, b, true), Norm(b);
    forall k
      ensures Lookup(x, k) == Lookup(y, k)
    {
      CombinedLookup(EMPTY, b, k);
      NormalisedLookup(b, k);
      if k in b.fields && !IsEmpty(b.fields[k]) {
        ExtensionCopyIsNormal(r, r[(t, k)], b.fields[k]);
      }
    }
    SameFields(x, y);
  }

  // -------------------------------------------------------- types are kept

  lemma {:induction false} LittleEndianBound(s: Bytes)
    ensures FromLittleEndian(s) < Pow256(|s|)
  {
    if s != [] {
      LittleEndianBound(s[1..]);
    }
  }

  lemma DecodedInRange(kind: FieldType, s: Bytes)
    ensures DecodeNum(kind, s).Some? ==> NumOk(kind, DecodeNum(kind, s).value.value)
  {
    hide FromLittleEndian, Pow256, ReadVarint;
    Powers();
    if |s| >= 4 { LittleEndianBound(s[..4]); }
    if |s| >= 8 { LittleEndianBound(s[..8]); }
  }

  lemma StoreOk(r: Registry, t: nat, m: Message, number: nat, v: Value)
    requires RegistryOk(r) && MessageOk(r, t, m) && (t, number) in r && ValueOk(r, r[(t, number)], v)
    ensures MessageOk(r, t, Store(m, number, r[(t, number)], v))
  {
    hide ValueOk;
    var info := r[(t, number)];
    var m' := Store(m, number, info, v);
    assert ExtensionOk(r, info, m'.fields[number]) by {
      if number in m.fields {
        assert ExtensionOk(r, info, m.fields[number]);
      }
    }
    assert forall k :: k in m'.fields && k != number ==> k in m.fields && m'.fields[k] == m.fields[k];
  }

  lemma {:induction false} PackedOk(r: Registry, t: nat, m: Message, number: nat, s: Bytes)
    requires RegistryOk(r) && MessageOk(r, t, m) && (t, number) in r && r[(t, number)].packed
    ensures ParsePacked(m, number, r[(t, number)], s).Some? ==>
              MessageOk(r, t, ParsePacked(m, number, r[(t, number)], s).value)
    decreases |s|
  {
    hide DecodeNum, MessageOk, Add;
    var info := r[(t, number)];
    if s != [] && DecodeNum(info.kind, s).Some? {
      var x := DecodeNum(info.kind, s).value;
      DecodedInRange(info.kind, s);
      if ValidEnum(info, x.value) {
        StoreOk(r, t, m, number, Num(x.value));
        PackedOk(r, t, Add(m, number, info, Num(x.value)), number, x.rest);
      } else {
        PackedOk(r, t, m, number, x.rest);
      }
    }
  }

  lemma {:induction false} KnownOk(r: Registry, t: nat, m: Message, number: nat, s: Bytes, room: nat)
    requires RegistryOk(r) && MessageOk(r, t, m) && (t, number) in r
    ensures ParseKnown(r, m, number, r[(t, number)], s, room).Some? ==>
              MessageOk(r, t, ParseKnown(r, m, number, r[(t, number)], s, room).value.value)
    decreases |s|, 0
  {
    hide DecodeNum, ReadDelimited, ReadLimited, MessageOk, Store, ParsePacked, ParseMessage;
    var info := r[(t, number)];
    if ParseKnown(r, m, number, info, s, room).Some? {
      if info.packed {
        PackedOk(r, t, m, number, ReadLimited(s).value.value);
      } else if info.kind == MessageField {
        var target := Target(m, number, info);
        TargetOk(r, t, m, number);
        var sub := ReadLimited(s).value.value;
        ParsedOk(r, info.messageType, target, sub, room - 1);
        StoreOk(r, t, m, number, Msg(ParseMessage(r, info.messageType, target, sub, room - 1).value));
      } else if info.kind == StringField || info.kind == BytesField {
        StoreOk(r, t, m, number, Str(ReadDelimited(s).value.value));
      } else {
        DecodedInRange(info.kind, s);
        var n := DecodeNum(info.kind, s).value.value;
        if ValidEnum(info, n) {
          StoreOk(r, t, m, number, Num(n));
        }
      }
    }
  }

  lemma TargetOk(r: Registry, t: nat, m: Message, number: nat)
    requires MessageOk(r, t, m) && (t, number) in r
    ensures MessageOk(r, r[(t, number)].messageType, Target(m, number, r[(t, number)]))
  {
    hide ValueOk;
    var info := r[(t, number)];
    HeldOk(r, info, Lookup(m, number));
  }

  /** Whatever the input, parsing keeps a message well-typed. */
  lemma {:induction false} ParsedOk(r: Registry, t: nat, m: Message, s: Bytes, room: nat)
    requires RegistryOk(r) && MessageOk(r, t, m)
    ensures ParseMessage(r, t, m, s, room).Some? ==> MessageOk(r, t, ParseMessage(r, t, m, s, room).value)
    decreases |s|, 2
  {
    hide MessageOk, ReadTag, ParseKnown, SkipField;
    if s != [] && ReadTag(s).Some? {
      var tag := ReadTag(s).value;
      var x := ParseField(r, t, m, tag.value.0, tag.value.1, tag.rest, room);
      if x.Some? {
        if (t, tag.value.0) in r && tag.value.1 == ExpectedWireType(r[(t, tag.value.0)]) {
          KnownOk(r, t, m, tag.value.0, tag.rest, room);
        } else {
          assert x.value.value == m;
        }
        ParsedOk(r, t, x.value.value, x.value.rest, room);
      }
    }
  }

  lemma {:induction false} ClearedValueOk(r: Registry, info: Info, v: Value)
    requires ValueOk(r, info, v)
    ensures ValueOk(r, info, ClearedValue(v))
    ensures v.Msg? ==> Norm(ClearedValue(v).message) == EMPTY
    decreases v, 0
  {
    if v.Msg? {
      ClearedOk(r, info.messageType, v.message);
    }
  }

  lemma {:induction false} ClearedSingleOk(r: Registry, info: Info, vs: seq<Value>)
    requires |vs| == 1 && ValueOk(r, info, vs[0])
    ensures |ClearedValues(vs)| == 1 && ValueOk(r, info, ClearedValues(vs)[0])
    ensures ClearedValues(vs)[0].Msg? ==> Norm(ClearedValues(vs)[0].message) == EMPTY
    decreases vs, 0
  {
    hide ValueOk, Norm;
    ClearedValueOk(r, info, vs[0]);
    assert ClearedValues(vs)[0] == ClearedValue(vs[0]);
    assert ClearedValue(vs[0]).Msg? == vs[0].Msg?;
  }

  lemma {:induction false} ClearedExtensionOk(r: Registry, info: Info, e: Extension)
    requires ExtensionOk(r, info, e)
    ensures ExtensionOk(r, info, ClearedExtension(e)) && IsEmpty(ClearedExtension(e))
    decreases e, 0
  {
    hide ValueOk, Norm, ClearedValues;
    if !e.repeated && !e.cleared {
      ClearedSingleOk(r, info, e.values);
    }
  }

  /** Clearing keeps a message well-typed and leaves it without content. */
  lemma {:induction false} ClearedOk(r: Registry, t: nat, m: Message)
    requires MessageOk(r, t, m)
    ensures MessageOk(r, t, Cleared(m)) && Norm(Cleared(m)) == EMPTY
    decreases m, 0
  {
    hide ExtensionOk, IsEmpty, ClearedExtension, NormExtension;
    forall k | k in m.fields
      ensures ExtensionOk(r, r[(t, k)], Cleared(m).fields[k]) && IsEmpty(Cleared(m).fields[k])
    {
      ClearedExtensionOk(r, r[(t, k)], m.fields[k]);
    }
    assert Norm(Cleared(m)).fields == map[];
  }

  // ------------------------------------------------------------- main results

  /** Parsing a serialized message into any message combines it in, and fails
      exactly when messages are nested deeper than the recursion limit. */
  lemma SerializedReadsBack(r: Registry, t: nat, a: Message, b: Message, rest: Bytes, room: nat)
    requires RegistryOk(r) && MessageOk(r, t, b) && |Serialize(b)| < TWO31
    ensures ParseMessage(r, t, a, Serialize(b) + rest, room) ==
            if Depth(b) <= room then ParseMessage(r, t, Combine(a, b, true), rest, room) else None
  {
    hide ParseMessage, Combine, ExtensionOk, SerializeRange, RangeDepth;
    RangeReadsBack(r, t, a, b, 0, MAX_NUMBER, rest, room);
    WholeRange(a, b);
  }

  /** A message serialized and parsed again is the same up to cleared and empty
      extensions if and only if it is not nested too deep. */
  lemma RoundTrip(r: Registry, t: nat, a: Message, room: nat)
    requires RegistryOk(r) && MessageOk(r, t, a) && |Serialize(a)| < TWO31
    ensures ParseMessage(r, t, EMPTY, Serialize(a), room) == if Depth(a) <= room then Some(Norm(a)) else None
  {
    hide ParseMessage, Combine, Norm, ExtensionOk, SerializeRange, RangeDepth;
    SerializedReadsBack(r, t, EMPTY, a, [], room);
    assert Serialize(a) + [] == Serialize(a);
    CombinedIntoEmpty(r, t, a);
    FinishedParse(r, t, Norm(a), room);
  }

  /** Concatenated serializations parse to the merged message if and only if
      neither is nested too deep. */
  lemma ConcatenationMerges(r: Registry, t: nat, a: Message, b: Message, room: nat)
    requires RegistryOk(r) && MessageOk(r, t, a) && MessageOk(r, t, b)
    requires |Serialize(a)| < TWO31 && |Serialize(b)| < TWO31
    ensures ParseMessage(r, t, EMPTY, Serialize(a) + Serialize(b), room) ==
            if Depth(a) <= room && Depth(b) <= room then Some(Norm(Merge(a, b))) else None
  {
    hide ParseMessage, Combine, Norm, ExtensionOk, SerializeRange, Merge, RangeDepth;
    SerializedReadsBack(r, t, EMPTY, a, Serialize(b), room);
    CombinedIntoEmpty(r, t, a);
    SerializedReadsBack(r, t, Norm(a), b, [], room);
    assert Serialize(b) + [] == Serialize(b);
    MergeNormalised(r, t, a, b);
    FinishedParse(r, t, Norm(Merge(a, b)), room);
  }

  // ---------------------------------------------------- nesting and cut lengths

  lemma {:induction false} RangeDepthIs(m: Message, start: nat, end: nat, n: nat)
    ensures RangeDepth(m, start, end) <= n <==>
            forall k :: k in m.fields && start <= k < end ==> ExtensionDepth(m.fields[k]) <= n
    decreases if start < end then end - start else 0
  {
    hide ExtensionDepth;
    if start < end {
      RangeDepthIs(m, start + 1, end, n);
      assert forall k :: k in m.fields && start <= k < end ==> k == start || start + 1 <= k < end;
    }
  }

  lemma {:induction false} ValuesDepthIs(vs: seq<Value>, n: nat)
    ensures ValuesDepth(vs) <= n <==> forall i :: 0 <= i < |vs| ==> ValueDepth(vs[i]) <= n
    decreases |vs|
  {
    hide ValueDepth;
    if vs != [] {
      ValuesDepthIs(vs[1..], n);
      assert forall i :: 0 < i < |vs| ==> vs[i] == vs[1..][i - 1];
      assert forall i :: 0 <= i < |vs[1..]| ==> vs[1..][i] == vs[i + 1];
    }
  }

  /** A message is nested at most `n` deep exactly when every message it would
      serialize is nested less deep than `n`. */
  lemma DepthIsNesting(m: Message, n: nat)
    requires forall k :: k in m.fields ==> k < MAX_NUMBER
    ensures Depth(m) <= n <==>
            forall k :: k in m.fields && !IsEmpty(m.fields[k]) ==>
              forall i :: 0 <= i < |m.fields[k].values| && m.fields[k].values[i].Msg? ==>
                Depth(m.fields[k].values[i].message) < n
  {
    hide ValuesDepth, RangeDepth;
    RangeDepthIs(m, 0, MAX_NUMBER, n);
    forall k | k in m.fields && !IsEmpty(m.fields[k])
      ensures ExtensionDepth(m.fields[k]) <= n <==>
              forall i :: 0 <= i < |m.fields[k].values| && m.fields[k].values[i].Msg? ==>
                Depth(m.fields[k].values[i].message) < n
    {
      ValuesDepthIs(m.fields[k].values, n);
    }
  }

  /** A message type with one extension of its own type. */
  const NESTING: Registry := map[(0, 1) := Info(MessageField, false, false, 0, {})]

  /** `n` messages inside one another, around an empty one. */
  function Nest(n: nat): Message {
    if n == 0 then EMPTY
    else Message(map[1 := Extension(MessageField, false, false, false, [Msg(Nest(n - 1))], 0)], 0)
  }

  lemma {:induction false} NothingBeyond(m: Message, start: nat, end: nat)
    requires forall k :: k in m.fields ==> k < start
    ensures SerializeRange(m, start, end) == [] && RangeDepth(m, start, end) == 0
    decreases if start < end then end - start else 0
  {
    if start < end {
      NothingBeyond(m, start + 1, end);
    }
  }

  lemma OneExtension(m: Message, e: Extension)
    requires m.fields == map[1 := e]
    ensures Serialize(m) == SerializeExtension(1, e) && Depth(m) == ExtensionDepth(e)
  {
    hide SerializeExtension, ExtensionDepth;
    NothingBeyond(m, 2, MAX_NUMBER);
    assert SerializeRange(m, 1, MAX_NUMBER) == SerializeExtension(1, e) + [];
    assert SerializeRange(m, 0, MAX_NUMBER) == [] + SerializeRange(m, 1, MAX_NUMBER);
    assert RangeDepth(m, 0, MAX_NUMBER) == RangeDepth(m, 1, MAX_NUMBER);
  }

  lemma OneMoreNested(sub: Message)
    requires MessageOk(NESTING, 0, sub)
    ensures var m := Message(map[1 := Extension(MessageField, false, false, false, [Msg(sub)], 0)], 0);
            && MessageOk(NESTING, 0, m) && Depth(m) == 1 + Depth(sub)
            && Serialize(m) == Varint(MakeTag(1, LENGTH_DELIMITED)) + Delimited(Serialize(sub))
  {
    hide SerializeRange, RangeDepth, Varint, Delimited;
    var vs := [Msg(sub)];
    var e := Extension(MessageField, false, false, false, vs, 0);
    var m := Message(map[1 := e], 0);
    OneExtension(m, e);
    assert vs[1..] == [];
    NoneSerialized(1, MessageField);
    NumbersAreFlat([]);
    assert ValuesDepth(vs) == ValueDepth(vs[0]);
    assert EncodeValue(MessageField, vs[0]) == Delimited(Serialize(sub));
    assert SerializeEach(1, MessageField, vs) ==
           Varint(MakeTag(1, LENGTH_DELIMITED)) + EncodeValue(MessageField, vs[0]) +
               SerializeEach(1, MessageField, vs[1..]);
    assert ValueOk(NESTING, NESTING[(0, 1)], vs[0]);
    assert ExtensionOk(NESTING, NESTING[(0, 1)], e);
  }

  lemma {:induction false} NestIs(n: nat)
    requires n < 1000
    ensures MessageOk(NESTING, 0, Nest(n)) && Depth(Nest(n)) == n && |Serialize(Nest(n))| <= 20 * n
  {
    hide SerializeRange, RangeDepth, Varint, ExtensionOk;
    if n == 0 {
      NothingBeyond(EMPTY, 0, MAX_NUMBER);
    } else {
      NestIs(n - 1);
      OneMoreNested(Nest(n - 1));
      VarintLength(|Serialize(Nest(n - 1))|);
      VarintLength(MakeTag(1, LENGTH_DELIMITED));
    }
  }

  /** With the default limit a hundred messages inside one another are read
      back, and a hundred and one are not. */
  lemma DeepestReadBack()
    ensures ParseMessage(NESTING, 0, EMPTY, Serialize(Nest(100)), DEFAULT_RECURSION_LIMIT) == Some(Norm(Nest(100)))
    ensures ParseMessage(NESTING, 0, EMPTY, Serialize(Nest(101)), DEFAULT_RECURSION_LIMIT) == None
  {
    hide ParseMessage, Norm, MessageOk, Serialize, Depth, Nest;
    NestIs(100);
    NestIs(101);
    RoundTrip(NESTING, 0, Nest(100), DEFAULT_RECURSION_LIMIT);
    RoundTrip(NESTING, 0, Nest(101), DEFAULT_RECURSION_LIMIT);
  }

  /** A length beyond the end of the input counts as the rest of the input for a
      packed field and for a message; a string is refused. */
  lemma OverlongLength(r: Registry, m: Message, number: nat, info: Info, n: nat, s: Bytes, room: nat)
    requires |s| <= n < TWO32 && |s| < TWO31
    ensures info.packed || info.kind == MessageField ==>
              ParseKnown(r, m, number, info, Varint(n) + s, room) == ParseKnown(r, m, number, info, Delimited(s), room)
    ensures !info.packed && (info.kind == StringField || info.kind == BytesField) && n > |s| ==>
              ParseKnown(r, m, number, info, Varint(n) + s, room) == None
  {
    hide ReadLimited, ReadDelimited, Delimited, Varint, ParseMessage, ParsePacked, DecodeNum;
    OverlongRead(n, s);
  }

  lemma OverlongRead(n: nat, s: Bytes)
    requires |s| <= n < TWO32 && |s| < TWO31
    ensures ReadLimited(Varint(n) + s) == ReadLimited(Delimited(s))
    ensures n > |s| ==> ReadDelimited(Varint(n) + s) == None
  {
    hide ReadVarint32, Varint;
    VarintRoundTrip(n, s);
    VarintRoundTrip(|s|, s);
    assert s[..|s|] == s && s[|s|..] == [];
  }
}
