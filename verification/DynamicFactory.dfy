/** `DynamicMessageFactory`: one prototype per message type, built on demand
    over a graph of types that may be recursive. */
module DynamicFactory {
  import opened DynamicLayout

  type TypeId = nat

  /** A message type; `isGenerated` says it belongs to the generated pool. */
  datatype Descriptor = Descriptor(fields: seq<Field>, hasExtensions: bool, isGenerated: bool)

  type Schema = map<TypeId, Descriptor>

  /** A prototype: its type, its layout, and a pointer for each field, null
      unless the field is a singular message. */
  class Message {
    const descriptor: TypeId
    const info: TypeInfo
    var pointers: seq<Message?>

    constructor (t: TypeId, layout: TypeInfo, fieldCount: nat)
      ensures descriptor == t && info == layout
      ensures pointers == seq(fieldCount, _ => null)
    {
      descriptor, info := t, layout;
      pointers := seq(fieldCount, _ => null);
    }
  }

  type Prototypes = map<TypeId, Message>
  type Pointers = map<TypeId, seq<Message?>>

  /** What never changes in a factory: the types, the platform, whether
      generated types are left to the generated factory, and the prototypes
      that factory holds. */
  datatype Config = Config(schema: Schema, platform: Platform, delegate: bool, generated: Prototypes) {
    predicate IsDelegated(t: TypeId)
      requires t in schema
    {
      delegate && schema[t].isGenerated
    }

    /** Every type a singular message field names is a type of the schema, and
        the generated factory has a prototype of every generated type. */
    ghost predicate Valid() {
      && platform.Valid()
      && (forall t, f :: t in schema && f in schema[t].fields && f.IsSingularMessage() ==> f.messageType in schema)
      && (forall t :: t in schema && schema[t].isGenerated ==> t in generated)
    }
  }

  // ------------------------------------------------------------ specification

  predicate HasPrototype(c: Config, ps: Prototypes, t: TypeId) {
    t in c.schema && if c.IsDelegated(t) then t in c.generated else t in ps
  }

  /** The one prototype of a type. */
  function Prototype(c: Config, ps: Prototypes, t: TypeId): Message
    requires HasPrototype(c, ps, t)
  {
    if c.IsDelegated(t) then c.generated[t] else ps[t]
  }

  /** The pointer of a singular message field is the prototype of its type; of
      any other field it is null. */
  ghost predicate Linked(c: Config, ps: Prototypes, f: Field, pointer: Message?) {
    if f.IsSingularMessage() then HasPrototype(c, ps, f.messageType) && pointer == Prototype(c, ps, f.messageType)
    else pointer == null
  }

  ghost predicate LinkedUpTo(c: Config, ps: Prototypes, fields: seq<Field>, row: seq<Message?>, n: nat) {
    n <= |fields| == |row| && forall i :: 0 <= i < n ==> Linked(c, ps, fields[i], row[i])
  }

  /** The prototype of each type is of that type, owned, and laid out safely. */
  ghost predicate WellFormed(c: Config, ps: Prototypes)
    requires c.Valid()
  {
    forall t :: t in ps ==>
      && t in c.schema && !c.IsDelegated(t) && ps[t].descriptor == t
      && Laid(c.platform, c.schema[t].fields, c.schema[t].hasExtensions, ps[t].info)
  }

  /** All types but those in `open`, which are being linked, are linked. */
  ghost predicate AllLinked(c: Config, ps: Prototypes, pointers: Pointers, open: set<TypeId>) {
    forall t :: t in ps && t !in open ==>
      && t in c.schema && t in pointers
      && LinkedUpTo(c, ps, c.schema[t].fields, pointers[t], |c.schema[t].fields|)
  }

  /** A set of types that contains, with a type, the types its singular
      message fields make the factory build. */
  ghost predicate Closed(c: Config, ts: set<TypeId>)
    requires c.Valid()
  {
    forall t, f :: t in ts && t in c.schema && f in c.schema[t].fields && f.IsSingularMessage()
                   && !c.IsDelegated(f.messageType)
                   ==> f.messageType in ts
  }

  /** Asking for a type adds no type it does not force. */
  ghost predicate OnlyForced(c: Config, t: TypeId, before: set<TypeId>, after: set<TypeId>)
    requires c.Valid() && t in c.schema
  {
    forall ts: set<TypeId> {:trigger Closed(c, ts)} :: Closed(c, ts) && (c.IsDelegated(t) || t in ts) ==>
           after <= before + ts
  }

  /** The prototype of a type is the one the generated factory holds, if
      generated types are left to it, and else the one in the map. */
  ghost predicate IsPrototypeOf(c: Config, ps: Prototypes, t: TypeId, p: Message?) {
    && t in c.schema
    && (c.delegate && c.schema[t].isGenerated ==> t in c.generated && p == c.generated[t])
    && (!(c.delegate && c.schema[t].isGenerated) ==> t in ps && p == ps[t])
  }

  /** In every prototype, the pointer of each field that is a message and not
      repeated leads to the prototype of its type; no other pointer is set. */
  ghost predicate PointsToPrototypes(c: Config, ps: Prototypes, pointers: Pointers) {
    forall t :: t in ps ==>
      && t in c.schema && t in pointers && |pointers[t]| == |c.schema[t].fields|
      && forall i :: 0 <= i < |pointers[t]| ==>
           var f := c.schema[t].fields[i];
           if f.cppType == CppMessage && !f.isRepeated then IsPrototypeOf(c, ps, f.messageType, pointers[t][i])
           else pointers[t][i] == null
  }

  lemma LinkedPoints(c: Config, ps: Prototypes, pointers: Pointers)
    requires AllLinked(c, ps, pointers, {})
    ensures PointsToPrototypes(c, ps, pointers)
  {
    hide IsPrototypeOf, Linked;
    forall t, i | t in ps && 0 <= i < |pointers[t]|
      ensures var f := c.schema[t].fields[i];
              if f.cppType == CppMessage && !f.isRepeated then IsPrototypeOf(c, ps, f.messageType, pointers[t][i])
              else pointers[t][i] == null
    {
      assert Linked(c, ps, c.schema[t].fields[i], pointers[t][i]);
      PointerOfField(c, ps, c.schema[t].fields[i], pointers[t][i]);
    }
  }

  lemma PointerOfField(c: Config, ps: Prototypes, f: Field, pointer: Message?)
    requires Linked(c, ps, f, pointer)
    ensures if f.cppType == CppMessage && !f.isRepeated then IsPrototypeOf(c, ps, f.messageType, pointer)
            else pointer == null
  {
  }

  lemma TheOnePrototype(c: Config, ps: Prototypes, t: TypeId, p: Message?)
    requires HasPrototype(c, ps, t) && p == Prototype(c, ps, t)
    ensures IsPrototypeOf(c, ps, t, p)
  {
  }

  ghost predicate Grew(before: Prototypes, after: Prototypes) {
    forall t :: t in before ==> t in after && after[t] == before[t]
  }

  // ------------------------------------------------------------------- lemmas

  lemma LinkedStays(c: Config, before: Prototypes, after: Prototypes, fields: seq<Field>, row: seq<Message?>, n: nat)
    requires LinkedUpTo(c, before, fields, row, n) && Grew(before, after)
    ensures LinkedUpTo(c, after, fields, row, n)
  {
    forall i | 0 <= i < n
      ensures Linked(c, after, fields[i], row[i])
    {
      assert Linked(c, before, fields[i], row[i]);
    }
  }

  lemma LinkNext(c: Config, ps: Prototypes, fields: seq<Field>, row: seq<Message?>, n: nat, pointer: Message?)
    requires LinkedUpTo(c, ps, fields, row, n) && n < |fields| && Linked(c, ps, fields[n], pointer)
    ensures LinkedUpTo(c, ps, fields, row[n := pointer], n + 1)
  {
    hide Linked;
  }

  lemma LinkedIsClosed(c: Config, ps: Prototypes, pointers: Pointers)
    requires c.Valid() && AllLinked(c, ps, pointers, {})
    ensures Closed(c, ps.Keys)
  {
    forall t, f | t in ps && f in c.schema[t].fields && f.IsSingularMessage() && !c.IsDelegated(f.messageType)
      ensures f.messageType in ps
    {
      var i :| 0 <= i < |c.schema[t].fields| && c.schema[t].fields[i] == f;
      assert Linked(c, ps, f, pointers[t][i]);
    }
  }

  /** A new type, not linked yet. */
  lemma AddKeeps(c: Config, ps: Prototypes, pointers: Pointers, after: Pointers, open: set<TypeId>, t: TypeId,
                 p: Message)
    requires AllLinked(c, ps, pointers, open) && t !in ps
    requires forall s :: s in pointers && s != t ==> s in after && after[s] == pointers[s]
    ensures AllLinked(c, ps[t := p], after, open + {t})
  {
    hide LinkedUpTo;
    var more := ps[t := p];
    forall s | s in more && s !in open + {t}
      ensures LinkedUpTo(c, more, c.schema[s].fields, after[s], |c.schema[s].fields|)
    {
      LinkedStays(c, ps, more, c.schema[s].fields, after[s], |c.schema[s].fields|);
    }
  }

  lemma ForcedStep(c: Config, t: TypeId, f: Field, before: set<TypeId>, middle: set<TypeId>, after: set<TypeId>)
    requires c.Valid() && t in c.schema && f in c.schema[t].fields && f.IsSingularMessage() && !c.IsDelegated(t)
    requires OnlyForced(c, t, before, middle) && OnlyForced(c, f.messageType, middle, after)
    ensures OnlyForced(c, t, before, after)
  {
  }

  lemma OnlyForcedStart(c: Config, t: TypeId, before: set<TypeId>)
    requires c.Valid() && t in c.schema
    ensures OnlyForced(c, t, before, before)
    ensures !c.IsDelegated(t) ==> OnlyForced(c, t, before, before + {t})
  {
  }

  lemma OnlyForcedAfterAdd(c: Config, t: TypeId, before: set<TypeId>, after: set<TypeId>)
    requires c.Valid() && t in c.schema && !c.IsDelegated(t) && OnlyForced(c, t, before + {t}, after)
    ensures OnlyForced(c, t, before, after)
  {
  }

  /** The pointers of a type being linked do not matter. */
  lemma AllLinkedElsewhere(c: Config, ps: Prototypes, pointers: Pointers, after: Pointers, open: set<TypeId>, t: TypeId)
    requires AllLinked(c, ps, pointers, open + {t})
    requires forall s :: s in pointers && s != t ==> s in after && after[s] == pointers[s]
    ensures AllLinked(c, ps, after, open + {t})
  {
    hide LinkedUpTo;
  }

  lemma LastIsLinked(c: Config, ps: Prototypes, pointers: Pointers, open: set<TypeId>, t: TypeId)
    requires AllLinked(c, ps, pointers, open + {t})
    requires t in c.schema && t in pointers && LinkedUpTo(c, ps, c.schema[t].fields, pointers[t], |c.schema[t].fields|)
    ensures AllLinked(c, ps, pointers, open)
  {
    hide LinkedUpTo;
  }

  lemma LinkNone(c: Config, ps: Prototypes, fields: seq<Field>, row: seq<Message?>)
    requires |row| == |fields|
    ensures LinkedUpTo(c, ps, fields, row, 0)
  {
  }

  lemma GrewTwice(before: Prototypes, middle: Prototypes, after: Prototypes)
    requires Grew(before, middle) && Grew(middle, after)
    ensures Grew(before, after)
  {
  }

  lemma GrewKeys(before: Prototypes, after: Prototypes, all: set<TypeId>)
    requires Grew(before, after)
    ensures all - after.Keys <= all - before.Keys
  {
  }

  lemma GrewRefl(ps: Prototypes)
    ensures Grew(ps, ps)
  {
  }

  lemma GrewByOne(ps: Prototypes, t: TypeId, p: Message, after: Prototypes)
    requires t !in ps && Grew(ps[t := p], after)
    ensures Grew(ps, after) && t in after && after[t] == p
  {
    assert t in ps[t := p];
    forall s | s in ps
      ensures s in after && after[s] == ps[s]
    {
      assert s in ps[t := p];
    }
  }

  // ------------------------------------------------------------------ factory

  class DynamicMessageFactory {
    const config: Config
    /** Each entry is a `TypeInfo` with its prototype. */
    var prototypes: Prototypes

    ghost function AllPointers(): Pointers
      reads this, prototypes.Values
    {
      map t | t in prototypes :: prototypes[t].pointers
    }

    /** The invariant, while the types in `open` are being linked. */
    ghost predicate ValidBut(open: set<TypeId>)
      reads this, prototypes.Values
    {
      config.Valid() && WellFormed(config, prototypes) && AllLinked(config, prototypes, AllPointers(), open)
    }

    ghost predicate Valid()
      reads this, prototypes.Values
    {
      ValidBut({})
    }

    constructor (c: Config)
      requires c.Valid()
      ensures Valid() && config == c && prototypes == map[]
    {
      config, prototypes := c, map[];
    }

    /** Returns the one prototype of the type, the same on every call.
        Afterwards the map is closed under singular message fields, holds what
        it held before, and holds no type it was not forced to add. */
    method GetPrototype(t: TypeId) returns (p: Message)
      requires Valid() && t in config.schema
      modifies this`prototypes
      ensures Valid()
      ensures HasPrototype(config, prototypes, t) && p == Prototype(config, prototypes, t)
      ensures Grew(old(prototypes), prototypes)
      ensures HasPrototype(config, old(prototypes), t) ==> prototypes == old(prototypes)
      ensures IsPrototypeOf(config, prototypes, t, p) && (t in prototypes ==> prototypes[t].descriptor == t)
      ensures PointsToPrototypes(config, prototypes, AllPointers())
      ensures Closed(config, prototypes.Keys)
      ensures OnlyForced(config, t, old(prototypes.Keys), prototypes.Keys)
    {
      hide AllLinked, OnlyForced, Closed, Laid, PointsToPrototypes;
      p := GetPrototypeNoLock(t, {});
      LinkedPoints(config, prototypes, AllPointers());
      TheOnePrototype(config, prototypes, t, p);
      LinkedIsClosed(config, prototypes, AllPointers());
    }

    method GetPrototypeNoLock(t: TypeId, ghost open: set<TypeId>) returns (p: Message)
      requires ValidBut(open) && t in config.schema
      modifies this`prototypes
      ensures ValidBut(open)
      ensures HasPrototype(config, prototypes, t) && p == Prototype(config, prototypes, t)
      ensures Grew(old(prototypes), prototypes)
      ensures HasPrototype(config, old(prototypes), t) ==> prototypes == old(prototypes)
      ensures OnlyForced(config, t, old(prototypes.Keys), prototypes.Keys)
      decreases config.schema.Keys - prototypes.Keys, 1
    {
      hide LinkedUpTo, Laid, AllLinked, OnlyForced, Grew;
      OnlyForcedStart(config, t, prototypes.Keys);
      assert Grew(prototypes, prototypes) by {
        GrewRefl(prototypes);
      }
      if config.IsDelegated(t) {
        return config.generated[t];
      }
      if t in prototypes {
        return prototypes[t];
      }
      ghost var before := prototypes;
      p := AddPrototype(t, open);
      assert t in config.schema.Keys - before.Keys && t !in config.schema.Keys - prototypes.Keys;
      assert config.schema.Keys - prototypes.Keys < config.schema.Keys - before.Keys;
      CrossLinkPrototypes(t, open);
      assert before[t := p].Keys == before.Keys + {t};
      OnlyForcedAfterAdd(config, t, before.Keys, prototypes.Keys);
      GrewByOne(before, t, p, prototypes);
    }

    /** Lays out and allocates the prototype of a new type. */
    method AddPrototype(t: TypeId, ghost open: set<TypeId>) returns (p: Message)
      requires ValidBut(open) && t in config.schema && !config.IsDelegated(t) && t !in prototypes
      modifies this`prototypes
      ensures ValidBut(open + {t})
      ensures fresh(p) && prototypes == old(prototypes)[t := p]
      ensures p.pointers == seq(|config.schema[t].fields|, _ => null)
    {
      hide LinkedUpTo, Laid, AllLinked;
      var fields := config.schema[t].fields;
      var layout := ComputeLayout(config.platform, fields, config.schema[t].hasExtensions);
      ghost var before, pointers := prototypes, AllPointers();
      p := new Message(t, layout, |fields|);
      prototypes := prototypes[t := p];
      AddKeeps(config, before, pointers, AllPointers(), open, t, p);
    }

    method SetPointer(t: TypeId, i: nat, m: Message?, ghost open: set<TypeId>)
      requires ValidBut(open + {t}) && t in prototypes && i < |prototypes[t].pointers|
      modifies prototypes[t]
      ensures ValidBut(open + {t})
      ensures prototypes[t].pointers == old(prototypes[t].pointers)[i := m]
    {
      hide LinkedUpTo, Laid, AllLinked;
      ghost var pointers := AllPointers();
      var p := prototypes[t];
      p.pointers := p.pointers[i := m];
      AllLinkedElsewhere(config, prototypes, pointers, AllPointers(), open, t);
    }

    /** Points each singular message field of a new prototype to the prototype
        of the field's type. */
    method CrossLinkPrototypes(t: TypeId, ghost open: set<TypeId>)
      requires ValidBut(open + {t}) && t in prototypes
      requires t in config.schema && !config.IsDelegated(t)
      requires prototypes[t].pointers == seq(|config.schema[t].fields|, _ => null)
      modifies this`prototypes, prototypes[t]
      ensures ValidBut(open)
      ensures Grew(old(prototypes), prototypes)
      ensures OnlyForced(config, t, old(prototypes.Keys), prototypes.Keys)
      decreases config.schema.Keys - prototypes.Keys, 2
    {
      hide LinkedUpTo, OnlyForced, Grew, AllLinked, WellFormed;
      var p := prototypes[t];
      var fields := config.schema[t].fields;
      ghost var before := prototypes;
      OnlyForcedStart(config, t, prototypes.Keys);
      GrewRefl(prototypes);
      LinkNone(config, prototypes, fields, p.pointers);
      for i := 0 to |fields|
        invariant ValidBut(open + {t})
        invariant Grew(before, prototypes) && OnlyForced(config, t, before.Keys, prototypes.Keys)
        invariant t in prototypes && prototypes[t] == p && |p.pointers| == |fields|
        invariant LinkedUpTo(config, prototypes, fields, p.pointers, i)
        invariant forall j :: i <= j < |fields| ==> p.pointers[j] == null
      {
        if fields[i].IsSingularMessage() {
          ghost var middle := prototypes;
          GrewKeys(before, middle, config.schema.Keys);
          var m := GetPrototypeNoLock(fields[i].messageType, open + {t});
          ForcedStep(config, t, fields[i], before.Keys, middle.Keys, prototypes.Keys);
          GrewTwice(before, middle, prototypes);
          LinkedStays(config, middle, prototypes, fields, p.pointers, i);
          LinkNext(config, prototypes, fields, p.pointers, i, m);
          SetPointer(t, i, m, open);
        } else {
          LinkNext(config, prototypes, fields, p.pointers, i, null);
          assert p.pointers[i := null] == p.pointers;
        }
      }
      LastIsLinked(config, prototypes, AllPointers(), open, t);
    }
  }
}
