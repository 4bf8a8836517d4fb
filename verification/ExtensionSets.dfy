/** `ExtensionSet` as an object: its map of extensions is updated in place by the
    loops of `Clear`, `MergeFrom`, `ByteSize` and parsing. */
module ExtensionSets {
  import opened Prelude
  import opened WireFormat
  import opened Extensions
  import opened ExtensionLaws
  import opened ExtensionSizes

  ghost function Least(s: set<nat>): (k: nat)
    requires s != {}
    ensures k in s && forall j :: j in s ==> k <= j
  {
    var x :| x in s;
    if s == {x} then x
    else
      var m := Least(s - {x});
      assert forall j :: j in s ==> j == x || j in s - {x};
      if m < x then m else x
  }

  lemma LeastExists(s: set<nat>)
    requires s != {}
    ensures exists k :: k in s && forall j :: j in s ==> k <= j
  {
    var k := Least(s);
  }

  lemma {:induction false} SizeGap(m: Message, from: nat, to: nat, end: nat)
    requires from <= to <= end && forall k :: from <= k < to ==> k !in m.fields
    ensures SizeRange(m, from, end) == SizeRange(m, to, end)
    decreases if from < to then to - from else 0
  {
    if from < to {
      SizeGap(m, from + 1, to, end);
    }
  }

  lemma {:induction false} WriteGap(m: Message, from: nat, to: nat, end: nat)
    requires from <= to && forall k :: from <= k < to ==> k !in m.fields
    ensures to <= end ==> WriteRange(m, from, end) == WriteRange(m, to, end)
    ensures to > end ==> WriteRange(m, from, end) == []
    decreases if from < to then to - from else 0
  {
    if from < to {
      WriteGap(m, from + 1, to, end);
    }
  }

  class ExtensionSet {
    var extensions: map<nat, Extension>
    var cachedSize: nat

    function Contents(): Message
      reads this
    {
      Message(extensions, cachedSize)
    }

    predicate Numbered()
      reads this
    {
      forall k :: k in extensions ==> k < MAX_NUMBER
    }

    constructor ()
      ensures Contents() == EMPTY
    {
      extensions, cachedSize := map[], 0;
    }

    /** `Clear` */
    method Clear()
      modifies this`extensions
      ensures Contents() == Cleared(old(Contents()))
    {
      hide ClearedExtension;
      var rest := extensions.Keys;
      while rest != {}
        invariant rest <= extensions.Keys == old(extensions.Keys)
        invariant forall k :: k in extensions ==>
                    extensions[k] == if k in rest then old(extensions)[k] else ClearedExtension(old(extensions)[k])
        decreases |rest|
      {
        var k :| k in rest;
        extensions := extensions[k := ClearedExtension(extensions[k])];
        rest := rest - {k};
      }
      assert extensions == Cleared(old(Contents())).fields;
    }

    /** `MaybeNewExtension`: makes sure there is an entry, and says whether there was none. */
    method MaybeNewExtension(number: nat) returns (isNew: bool)
      modifies this`extensions
      ensures isNew <==> number !in old(extensions)
      ensures extensions == if isNew then old(extensions)[number := Extension(Int32Field, false, false, false, [], 0)]
                            else old(extensions)
    {
      isNew := number !in extensions;
      if isNew {
        extensions := extensions[number := Extension(Int32Field, false, false, false, [], 0)];
      }
    }

    /** One round of `MergeFrom`. */
    method MergeOne(number: nat, other: Extension)
      modifies this`extensions
      ensures extensions == if Carries(other, false)
                            then
                              old(extensions)[number := CombineExtension(Lookup(old(Contents()), number), other, false)]
                            else old(extensions)
    {
      hide CopyValues, MergedValue;
      if other.repeated {
        var isNew := MaybeNewExtension(number);
        if isNew {
          var e := extensions[number];
          extensions := extensions[number := e.(kind := other.kind, packed := other.packed, repeated := true)];
        }
        var e := extensions[number];
        assert [] + CopyValues(other.values, false) == CopyValues(other.values, false);
        extensions := extensions[number := e.(values := e.values + CopyValues(other.values, false))];
        assert extensions == old(extensions)[number := extensions[number]];
      } else if !other.cleared {
        var held := Held(Lookup(Contents(), number));
        var isNew := MaybeNewExtension(number);
        if isNew {
          extensions := extensions[number := extensions[number].(kind := other.kind, packed := other.packed,
                                                                  repeated := false)];
        }
        var v := if other.values == [] then [] else [MergedValue(held, other.values[0], false)];
        extensions := extensions[number := extensions[number].(values := v, cleared := false)];
        assert extensions == old(extensions)[number := extensions[number]];
      }
    }

    /** `MergeFrom` */
    method MergeFrom(other: Message)
      modifies this`extensions
      ensures Contents() == Merge(old(Contents()), other)
    {
      hide CombineExtension, Carries;
      ghost var before := Contents();
      var rest := other.fields.Keys;
      while rest != {}
        invariant rest <= other.fields.Keys
        invariant forall k :: Lookup(Contents(), k) ==
                    if k in other.fields && k !in rest && Carries(other.fields[k], false)
                    then Some(CombineExtension(Lookup(before, k), other.fields[k], false)) else Lookup(before, k)
        decreases |rest|
      {
        LeastExists(rest);
        var k :| k in rest && forall j :: j in rest ==> k <= j;
        ghost var was := Contents();
        assert Lookup(was, k) == Lookup(before, k);
        MergeOne(k, other.fields[k]);
        assert forall j :: j != k ==> Lookup(Contents(), j) == Lookup(was, j);
        rest := rest - {k};
      }
      forall k ensures Lookup(Contents(), k) == Lookup(Merge(before, other), k) {
        MergedLookup(before, other, k);
        CarriesPlain(other, k);
      }
      SameFields(Contents(), Merge(before, other));
    }

    /** `ByteSize`: sums the sizes in number order and fills the caches. */
    method ByteSize() returns (total: nat)
      requires Numbered()
      modifies this
      ensures total == SizeRange(old(Contents()), 0, MAX_NUMBER)
      ensures Contents() == Sized(old(Contents()))
    {
      hide ExtensionSize, SizedExtension, SizeRange, PartlySized, Sized;
      ghost var before := Contents();
      total := 0;
      var rest := extensions.Keys;
      ghost var at: nat := 0;
      NothingSized(before);
      while rest != {}
        invariant at <= MAX_NUMBER && cachedSize == before.cachedSize
        invariant PartlySized(extensions, rest, before, at)
        invariant total + SizeRange(before, at, MAX_NUMBER) == SizeRange(before, 0, MAX_NUMBER)
        decreases |rest|
      {
        LeastExists(rest);
        var k :| k in rest && forall j :: j in rest ==> k <= j;
        SizedStep(extensions, rest, before, at, k);
        total := total + ExtensionSize(k, extensions[k]);
        extensions := extensions[k := SizedExtension(extensions[k])];
        rest := rest - {k};
        at := k + 1;
      }
      AllSized(extensions, rest, before, at);
      cachedSize := total;
    }

    /** `SerializeWithCachedSizes` */
    method SerializeWithCachedSizes(start: nat, end: nat, output: Bytes) returns (out: Bytes)
      ensures out == output + WriteRange(Contents(), start, end)
    {
      hide WriteExtension, WriteRange;
      out := output;
      var rest := set k | k in extensions && start <= k < end;
      ghost var at: nat := start;
      while rest != {}
        invariant at >= start
        invariant rest == set k | k in extensions && at <= k < end
        invariant out + WriteRange(Contents(), at, end) == output + WriteRange(Contents(), start, end)
        decreases |rest|
      {
        LeastExists(rest);
        var k :| k in rest && forall j :: j in rest ==> k <= j;
        assert forall j :: j in extensions && at <= j < end ==> j in rest;
        WriteGap(Contents(), at, k, end);
        WriteStep(Contents(), k, end);
        ghost var was := out;
        out := out + WriteExtension(k, extensions[k]);
        Reassociate(was, WriteExtension(k, extensions[k]), WriteRange(Contents(), k + 1, end));
        rest := rest - {k};
        at := k + 1;
      }
      assert forall j :: j in extensions && at <= j < end ==> j in rest;
      WriteGap(Contents(), at, if at < end then end else at, end);
      WriteStep(Contents(), if at < end then end else at, end);
    }

    /** `Set...`, `Add...` and the `Mutable...` accessors. */
    method StoreValue(number: nat, info: Info, v: Value)
      modifies this`extensions
      ensures Contents() == Store(old(Contents()), number, info, v)
    {
      var isNew := MaybeNewExtension(number);
      var e := extensions[number];
      if info.repeated {
        if isNew {
          e := e.(kind := info.kind, repeated := true, packed := info.packed);
        }
        assert [] + [v] == [v];
        e := e.(values := e.values + [v]);
      } else {
        if isNew {
          e := e.(kind := info.kind, repeated := false);
        }
        e := e.(cleared := false, values := [v]);
      }
      extensions := extensions[number := e];
      assert extensions == old(extensions)[number := e];
    }

    /** The element loop of a packed field. */
    method ParsePackedField(number: nat, info: Info, payload: Bytes) returns (ok: bool)
      requires info.repeated
      modifies this`extensions
      ensures ok <==> ParsePacked(old(Contents()), number, info, payload).Some?
      ensures ok ==> ParsePacked(old(Contents()), number, info, payload) == Some(Contents())
    {
      hide DecodeNum;
      var s := payload;
      while s != []
        invariant cachedSize == old(cachedSize)
        invariant ParsePacked(Contents(), number, info, s) == ParsePacked(old(Contents()), number, info, payload)
        decreases |s|
      {
        var x := DecodeNum(info.kind, s);
        if x.None? {
          return false;
        }
        if ValidEnum(info, x.value.value) {
          StoreValue(number, info, Num(x.value.value));
        }
        s := x.value.rest;
      }
      return true;
    }

    /** `ParseFieldWithExtensionInfo` */
    method ParseFieldWithExtensionInfo(r: Registry, number: nat, info: Info, s: Bytes, room: nat)
      returns (ok: bool, rest: Bytes)
      requires info.packed ==> info.repeated
      requires RegistryOk(r)
      modifies this`extensions
      ensures var k := ParseKnown(r, old(Contents()), number, info, s, room);
              (ok <==> k.Some?) && (ok ==> k == Some(Reading(Contents(), rest)))
      decreases |s|, 0
    {
      hide DecodeNum, ReadDelimited, ReadLimited, ParsePacked, ParseMessage;
      if info.packed {
        var x := ReadLimited(s);
        if x.None? {
          return false, s;
        }
        ok := ParsePackedField(number, info, x.value.value);
        return ok, x.value.rest;
      }
      if info.kind == MessageField {
        var x := ReadLimited(s);
        if x.None? {
          return false, s;
        }
        if room == 0 {
          return false, s;
        }
        var sub := new ExtensionSet();
        if !info.repeated {
          sub.extensions := Held(Lookup(Contents(), number)).fields;
          sub.cachedSize := Held(Lookup(Contents(), number)).cachedSize;
        }
        ok := sub.MergePartialFromCodedStream(r, info.messageType, x.value.value, room - 1);
        if ok {
          StoreValue(number, info, Msg(sub.Contents()));
        }
        return ok, x.value.rest;
      }
      if info.kind == StringField || info.kind == BytesField {
        var x := ReadDelimited(s);
        if x.None? {
          return false, s;
        }
        StoreValue(number, info, Str(x.value.value));
        return true, x.value.rest;
      }
      var x := DecodeNum(info.kind, s);
      if x.None? {
        return false, s;
      }
      if ValidEnum(info, x.value.value) {
        StoreValue(number, info, Num(x.value.value));
      }
      return true, x.value.rest;
    }

    /** The tag loop of a message that consists of extensions. */
    method MergePartialFromCodedStream(r: Registry, t: nat, input: Bytes, room: nat) returns (ok: bool)
      requires RegistryOk(r)
      modifies this`extensions
      ensures ok <==> ParseMessage(r, t, old(Contents()), input, room).Some?
      ensures ok ==> ParseMessage(r, t, old(Contents()), input, room) == Some(Contents())
      decreases |input|, 1
    {
      hide ReadTag, ParseKnown, SkipField;
      var s := input;
      while s != []
        invariant |s| <= |input| && cachedSize == old(cachedSize)
        invariant ParseMessage(r, t, Contents(), s, room) == ParseMessage(r, t, old(Contents()), input, room)
        decreases |s|
      {
        var tag := ReadTag(s);
        if tag.None? {
          return false;
        }
        var number, wireType := tag.value.value.0, tag.value.value.1;
        if (t, number) in r && wireType == ExpectedWireType(r[(t, number)]) {
          var fine;
          fine, s := ParseFieldWithExtensionInfo(r, number, r[(t, number)], tag.value.rest, room);
          if !fine {
            return false;
          }
        } else {
          var rest := SkipFieldAt(number, wireType, tag.value.rest, room);
          if rest.None? {
            return false;
          }
          s := rest.value;
        }
      }
      return true;
    }
  }

  /** `SkipField` */
  method SkipFieldAt(number: nat, wireType: nat, s: Bytes, room: nat) returns (rest: Option<Bytes>)
    ensures rest == SkipField(number, wireType, s, room)
    decreases |s|, 1
  {
    hide ReadVarint64, ReadFixed, ReadDelimited, SkipGroup;
    if wireType == VARINT {
      var x := ReadVarint64(s);
      return if x.Some? then Some(x.value.rest) else None;
    }
    if wireType == FIXED64 {
      var x := ReadFixed(s, 8);
      return if x.Some? then Some(x.value.rest) else None;
    }
    if wireType == LENGTH_DELIMITED {
      var x := ReadDelimited(s);
      return if x.Some? then Some(x.value.rest) else None;
    }
    if wireType == START_GROUP {
      if room == 0 {
        return None;
      }
      var ok, lastTag, behind := SkipMessage(s, room - 1);
      return if ok && lastTag == Some((number, END_GROUP)) then Some(behind) else None;
    }
    if wireType == FIXED32 {
      var x := ReadFixed(s, 4);
      return if x.Some? then Some(x.value.rest) else None;
    }
    return None;
  }

  /** `SkipMessage`: skips fields up to an end tag, or to the end of the input;
      the last tag is absent there. */
  method SkipMessage(start: Bytes, room: nat) returns (ok: bool, lastTag: Option<(nat, nat)>, rest: Bytes)
    ensures forall number: nat :: SkipGroup(number, start, room) ==
              if ok && lastTag == Some((number, END_GROUP)) then Some(rest) else None
    decreases |start|, 0
  {
    hide ReadTag, SkipField;
    rest := start;
    while true
      invariant |rest| <= |start|
      invariant forall number: nat :: SkipGroup(number, start, room) == SkipGroup(number, rest, room)
      decreases |rest|
    {
      var tag := ReadTag(rest);
      if tag.None? {
        return true, None, rest;
      }
      if tag.value.value.1 == END_GROUP {
        return true, Some(tag.value.value), tag.value.rest;
      }
      var behind := SkipFieldAt(tag.value.value.0, tag.value.value.1, tag.value.rest, room);
      if behind.None? {
        return false, None, rest;
      }
      rest := behind.value;
    }
  }

  lemma CarriesPlain(m: Message, k: nat)
    ensures k in m.fields ==> (Carries(m.fields[k], false) <==> m.fields[k].repeated || !m.fields[k].cleared)
  {
  }

  /** `rest` are the extensions from `at` on; those below have been sized. */
  ghost predicate PartlySized(now: map<nat, Extension>, rest: set<nat>, before: Message, at: nat) {
    && now.Keys == before.fields.Keys
    && rest == (set k | k in before.fields && at <= k)
    && (forall k :: k in before.fields ==> k < MAX_NUMBER)
    && forall k :: k in now ==> now[k] == if k < at then SizedExtension(before.fields[k]) else before.fields[k]
  }

  lemma NothingSized(before: Message)
    requires forall k :: k in before.fields ==> k < MAX_NUMBER
    ensures PartlySized(before.fields, before.fields.Keys, before, 0)
  {
  }

  lemma SizedStep(now: map<nat, Extension>, rest: set<nat>, before: Message, at: nat, k: nat)
    requires PartlySized(now, rest, before, at) && k in rest && forall j :: j in rest ==> k <= j
    ensures k in now && now[k] == before.fields[k] && k < MAX_NUMBER
    ensures PartlySized(now[k := SizedExtension(now[k])], rest - {k}, before, k + 1)
    ensures SizeRange(before, at, MAX_NUMBER) == ExtensionSize(k, now[k]) + SizeRange(before, k + 1, MAX_NUMBER)
  {
    hide ExtensionSize, SizedExtension, SizeRange;
    assert forall j :: j in before.fields && at <= j ==> j in rest;
    SizeGap(before, at, k, MAX_NUMBER);
    SizeStep(before, k, MAX_NUMBER);
  }

  lemma AllSized(now: map<nat, Extension>, rest: set<nat>, before: Message, at: nat)
    requires PartlySized(now, rest, before, at) && rest == {} && at <= MAX_NUMBER
    ensures SizeRange(before, at, MAX_NUMBER) == 0
    ensures now == Sized(before).fields && Sized(before).cachedSize == SizeRange(before, 0, MAX_NUMBER)
  {
    hide ExtensionSize, SizedExtension, SizeRange;
    assert forall j :: j in before.fields && at <= j ==> j in rest;
    SizeGap(before, at, MAX_NUMBER, MAX_NUMBER);
    SizeStep(before, MAX_NUMBER, MAX_NUMBER);
  }

  lemma SizeStep(m: Message, k: nat, end: nat)
    ensures k < end && k in m.fields ==>
            SizeRange(m, k, end) == ExtensionSize(k, m.fields[k]) + SizeRange(m, k + 1, end)
    ensures k >= end ==> SizeRange(m, k, end) == 0
  {
  }

  lemma WriteStep(m: Message, k: nat, end: nat)
    ensures k < end && k in m.fields ==>
            WriteRange(m, k, end) == WriteExtension(k, m.fields[k]) + WriteRange(m, k + 1, end)
    ensures k >= end ==> WriteRange(m, k, end) == []
  {
  }

  /** Sizing, writing and parsing one object into another merges its content,
      unless messages are nested too deep. */
  method CopyThroughWire(r: Registry, t: nat, source: ExtensionSet, target: ExtensionSet, room: nat) returns (ok: bool)
    requires source != target && RegistryOk(r) && MessageOk(r, t, source.Contents())
    requires |Serialize(source.Contents())| < TWO31
    modifies source, target
    ensures ok <==> Depth(old(source.Contents())) <= room
    ensures ok ==> target.Contents() == Combine(old(target.Contents()), old(source.Contents()), true)
    ensures ok && old(target.Contents()) == EMPTY ==> target.Contents() == Norm(old(source.Contents()))
    ensures source.Contents() == Sized(old(source.Contents()))
  {
    hide MessageOk, SerializeRange, ParseMessage, Norm, Sized, WriteRange, SizeRange, Combine, RangeDepth;
    ghost var m, before := source.Contents(), target.Contents();
    NumbersBounded(r, t, m);
    var total := source.ByteSize();
    var bytes := source.SerializeWithCachedSizes(0, MAX_NUMBER, []);
    SizedRangeWrites(r, t, m, 0, MAX_NUMBER);
    assert bytes == Serialize(m) && bytes + [] == bytes;
    SerializedReadsBack(r, t, before, m, [], room);
    FinishedParse(r, t, Combine(before, m, true), room);
    CombinedIntoEmpty(r, t, m);
    ok := target.MergePartialFromCodedStream(r, t, bytes, room);
  }

  lemma NumbersBounded(r: Registry, t: nat, m: Message)
    requires RegistryOk(r) && MessageOk(r, t, m)
    ensures forall k :: k in m.fields ==> k < MAX_NUMBER
  {
    hide ExtensionOk;
  }
}
