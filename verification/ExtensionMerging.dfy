/** Merging and parsing field by field: which values a field holds afterwards. */
module ExtensionMerging {
  import opened Prelude
  import opened WireFormat
  import opened Extensions
  import opened ExtensionLaws

  predicate HoldsMessages(e: Extension) {
    exists i :: 0 <= i < |e.values| && e.values[i].Msg?
  }

  /** The values a field holds; none if it is not there. */
  function ValuesAt(m: Message, k: nat): seq<Value> {
    if k in m.fields then m.fields[k].values else []
  }

  // ------------------------------------------------------------------ merging

  /** A field the other set does not have, or has cleared, stays as it is. */
  lemma UntouchedStays(a: Message, b: Message, k: nat)
    requires k in b.fields ==> !b.fields[k].repeated && b.fields[k].cleared
    ensures k in Merge(a, b).fields <==> k in a.fields
    ensures k in a.fields ==> Merge(a, b).fields[k] == a.fields[k]
    ensures Merge(a, b).cachedSize == a.cachedSize
  {
    hide CombineExtension;
  }

  /** A field that is new is of the type, label and packing it has in the other
      set; one that is there keeps its own. */
  lemma MergedType(a: Message, b: Message, k: nat)
    requires k in b.fields && (b.fields[k].repeated || !b.fields[k].cleared)
    ensures k in Merge(a, b).fields
    ensures var e, like := Merge(a, b).fields[k], if k in a.fields then a.fields[k] else b.fields[k];
            e.kind == like.kind && e.repeated == like.repeated && e.packed == like.packed
  {
    hide CopyValues, MergedValue;
    MergedLookup(a, b, k);
  }

  /** Repeated values are appended. */
  lemma RepeatedAppend(a: Message, b: Message, k: nat)
    requires k in b.fields && b.fields[k].repeated && !HoldsMessages(b.fields[k])
    ensures k in Merge(a, b).fields && Merge(a, b).fields[k].values == ValuesAt(a, k) + b.fields[k].values
  {
    hide CopyValues, MergedValue;
    MergedLookup(a, b, k);
    CopiedNumbers(b.fields[k].values, false);
    assert [] + b.fields[k].values == b.fields[k].values;
  }

  /** The last singular value wins. */
  lemma LastValueWins(a: Message, b: Message, k: nat)
    requires k in b.fields && !b.fields[k].repeated && !b.fields[k].cleared && |b.fields[k].values| == 1
    requires !HoldsMessages(b.fields[k])
    ensures k in Merge(a, b).fields && Merge(a, b).fields[k].values == b.fields[k].values
    ensures !Merge(a, b).fields[k].cleared
  {
    MergedLookup(a, b, k);
    assert !b.fields[k].values[0].Msg?;
    assert b.fields[k].values == [b.fields[k].values[0]];
  }

  /** Singular messages are merged into one another. */
  lemma SubMessagesMerge(a: Message, b: Message, k: nat)
    requires k in a.fields && |a.fields[k].values| == 1 && a.fields[k].values[0].Msg?
    requires k in b.fields && !b.fields[k].repeated && !b.fields[k].cleared
    requires |b.fields[k].values| == 1 && b.fields[k].values[0].Msg?
    ensures k in Merge(a, b).fields && !Merge(a, b).fields[k].cleared
    ensures Merge(a, b).fields[k].values ==
            [Msg(Merge(a.fields[k].values[0].message, b.fields[k].values[0].message))]
  {
    MergedLookup(a, b, k);
    assert MergedValue(Held(Lookup(a, k)), b.fields[k].values[0], false) ==
           Msg(Combine(a.fields[k].values[0].message, b.fields[k].values[0].message, false));
  }

  /** A message merged into an empty one is a copy of its content. */
  lemma MergedIntoEmpty(r: Registry, t: nat, b: Message)
    requires MessageOk(r, t, b)
    ensures Norm(Merge(EMPTY, b)) == Norm(b)
  {
    hide Combine, Norm, ExtensionOk;
    assert MessageOk(r, t, EMPTY);
    MergeNormalised(r, t, EMPTY, b);
    NormOfEmpty();
    CombinedIntoEmpty(r, t, b);
  }

  /** Repeated messages are appended as copies. */
  lemma RepeatedMessagesAppend(r: Registry, t: nat, a: Message, b: Message, k: nat, i: nat)
    requires MessageOk(r, t, b) && k in b.fields && b.fields[k].repeated && i < |b.fields[k].values|
    requires b.fields[k].values[i].Msg?
    ensures k in Merge(a, b).fields
    ensures |Merge(a, b).fields[k].values| == |ValuesAt(a, k)| + |b.fields[k].values|
    ensures Merge(a, b).fields[k].values[..|ValuesAt(a, k)|] == ValuesAt(a, k)
    ensures var v := Merge(a, b).fields[k].values[|ValuesAt(a, k)| + i];
            v.Msg? && Norm(v.message) == Norm(b.fields[k].values[i].message)
  {
    hide Norm, ValueOk, MergedValue;
    MergedLookup(a, b, k);
    CopiedAt(b.fields[k].values, i);
    assert ValueOk(r, r[(t, k)], b.fields[k].values[i]);
    CopyOfMessage(r, r[(t, k)], b.fields[k].values[i]);
  }

  lemma {:induction false} CopiedAt(vs: seq<Value>, i: nat)
    requires i < |vs|
    ensures CopyValues(vs, false)[i] == MergedValue(EMPTY, vs[i], false)
    decreases |vs|
  {
    hide MergedValue;
    if i > 0 {
      CopiedAt(vs[1..], i - 1);
    }
  }

  lemma CopyOfMessage(r: Registry, info: Info, v: Value)
    requires ValueOk(r, info, v) && v.Msg?
    ensures var c := MergedValue(EMPTY, v, false); c.Msg? && Norm(c.message) == Norm(v.message)
  {
    hide Norm, Combine;
    MergedIntoEmpty(r, info.messageType, v.message);
  }

  // ------------------------------------------------------------------ parsing

  /** What is parsed for one field changes that field only: a repeated one gets the
      value behind those it has, a singular one gets it in their place. */
  lemma StoredValue(m: Message, number: nat, info: Info, v: Value)
    requires number in m.fields ==> m.fields[number].repeated == info.repeated && m.fields[number].kind == info.kind
    ensures var m' := Store(m, number, info, v);
            && m'.cachedSize == m.cachedSize && m'.fields.Keys == m.fields.Keys + {number}
            && (forall k :: k in m.fields && k != number ==> m'.fields[k] == m.fields[k])
            && m'.fields[number].kind == info.kind && m'.fields[number].repeated == info.repeated
            && (info.repeated ==> m'.fields[number].values == ValuesAt(m, number) + [v])
            && (!info.repeated ==> m'.fields[number].values == [v] && !m'.fields[number].cleared)
  {
  }

  /** Of two records of a singular field that is no message only the last one
      counts. */
  lemma LastRecordWins(r: Registry, t: nat, m: Message, number: nat, v: Value, w: Value, rest: Bytes, room: nat)
    requires RegistryOk(r) && (t, number) in r && !r[(t, number)].repeated && r[(t, number)].kind != MessageField
    requires ValueOk(r, r[(t, number)], v) && ValueOk(r, r[(t, number)], w)
    requires |SerializeEach(number, r[(t, number)].kind, [v])| < TWO31
    requires |SerializeEach(number, r[(t, number)].kind, [w])| < TWO31
    ensures var kind := r[(t, number)].kind;
            ParseMessage(r, t, m, SerializeEach(number, kind, [v]) + (SerializeEach(number, kind, [w]) + rest), room) ==
            ParseMessage(r, t, m, SerializeEach(number, kind, [w]) + rest, room)
  {
    hide ParseMessage, SerializeEach, Varint, ValueOk;
    var info := r[(t, number)];
    NoMessages(r, info, v);
    NoMessages(r, info, w);
    var s := SerializeEach(number, info.kind, [w]) + rest;
    EachReadsBack(r, t, m, number, [v], s, room);
    EachReadsBack(r, t, Set(m, number, info, v), number, [w], rest, room);
    EachReadsBack(r, t, m, number, [w], rest, room);
    assert [v][1..] == [] && [w][1..] == [];
    assert Set(Set(m, number, info, v), number, info, w) == Set(m, number, info, w);
  }

  lemma NoMessages(r: Registry, info: Info, v: Value)
    requires ValueOk(r, info, v) && info.kind != MessageField
    ensures !v.Msg? && ValuesDepth([v]) == 0
  {
    assert [v][1..] == [];
  }

  /** The records of a repeated field, one for each value, append the values. */
  lemma RecordsAppend(r: Registry, t: nat, m: Message, number: nat, vs: seq<Value>, rest: Bytes, room: nat)
    requires RegistryOk(r) && (t, number) in r && r[(t, number)].repeated && !r[(t, number)].packed
    requires r[(t, number)].kind != MessageField && vs != []
    requires forall i :: 0 <= i < |vs| ==> ValueOk(r, r[(t, number)], vs[i])
    requires |SerializeEach(number, r[(t, number)].kind, vs)| < TWO31
    ensures var info := r[(t, number)];
            var e := if number in m.fields then m.fields[number] else Extension(info.kind, true, false, false, [], 0);
            ParseMessage(r, t, m, SerializeEach(number, info.kind, vs) + rest, room) ==
            ParseMessage(r, t, m.(fields := m.fields[number := e.(values := e.values + vs)]), rest, room)
  {
    hide ParseMessage, SerializeEach, StoreAll, AddAll, ValueOk;
    var info := r[(t, number)];
    forall i | 0 <= i < |vs|
      ensures !vs[i].Msg?
    {
      NoMessages(r, info, vs[i]);
    }
    NumbersAreFlat(vs);
    EachReadsBack(r, t, m, number, vs, rest, room);
    StoreAllRepeated(m, number, info, vs);
    CopiedNumbers(vs, true);
    AddAllIs(m, number, info, vs);
    assert [] + vs == vs;
  }

  // -------------------------------------------------------------- serializing

  /** The fields of a message are written in the order of their numbers. */
  lemma {:induction false} LowNumbersFirst(m: Message, low: nat, middle: nat, high: nat)
    requires low <= middle <= high
    ensures SerializeRange(m, low, high) == SerializeRange(m, low, middle) + SerializeRange(m, middle, high)
    decreases middle - low
  {
    hide SerializeExtension;
    if low == middle {
      assert [] + SerializeRange(m, middle, high) == SerializeRange(m, middle, high);
    } else {
      LowNumbersFirst(m, low + 1, middle, high);
      Reassociate(if low in m.fields then SerializeExtension(low, m.fields[low]) else [],
                  SerializeRange(m, low + 1, middle), SerializeRange(m, middle, high));
    }
  }

  lemma {:induction false} NothingInRange(m: Message, low: nat, high: nat)
    requires forall k :: low <= k < high ==> k !in m.fields
    ensures SerializeRange(m, low, high) == []
    decreases if low < high then high - low else 0
  {
    if low < high {
      NothingInRange(m, low + 1, high);
    }
  }

  /** A message of a single field is that field. */
  lemma OneField(number: nat, e: Extension)
    requires NumberOk(number)
    ensures Serialize(Message(map[number := e], 0)) == SerializeExtension(number, e)
  {
    hide SerializeRange, SerializeExtension;
    var m := Message(map[number := e], 0);
    LowNumbersFirst(m, 0, number, MAX_NUMBER);
    LowNumbersFirst(m, number, number + 1, MAX_NUMBER);
    NothingInRange(m, 0, number);
    NothingInRange(m, number + 1, MAX_NUMBER);
    OneInRange(m, number);
    assert [] + (SerializeExtension(number, e) + []) == SerializeExtension(number, e);
  }

  lemma OneInRange(m: Message, number: nat)
    requires number in m.fields
    ensures SerializeRange(m, number, number + 1) == SerializeExtension(number, m.fields[number])
  {
    hide SerializeExtension;
    assert SerializeRange(m, number + 1, number + 1) == [];
  }
}
