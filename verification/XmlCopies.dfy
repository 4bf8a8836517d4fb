/** What a copy of a DOM node holds: strings cut at their first NUL, and the
    attributes a walk visits, set one by one. */
module XmlCopies {
  import opened Prelude
  import opened XmlBytes
  import opened XmlTree

  /** The list after `SetAttribute`: the value of the first attribute of that name
      is replaced, or a new attribute added at the end. */
  function Assigned(attributes: seq<Attribute>, name: Bytes, value: Bytes): seq<Attribute> {
    if attributes == [] then [Attribute(name, value)]
    else if attributes[0].name == name then [Attribute(name, value)] + attributes[1..]
    else attributes[..1] + Assigned(attributes[1..], name, value)
  }

  function AllAssigned(into: seq<Attribute>, attributes: seq<Attribute>): seq<Attribute>
    decreases |attributes|
  {
    if attributes == [] then into
    else AllAssigned(Assigned(into, CStr(attributes[0].name), CStr(attributes[0].value)), attributes[1..])
  }

  /** `TiXmlElement::CopyTo`, for its attributes. */
  function CopiedAttributes(attributes: seq<Attribute>): seq<Attribute> {
    AllAssigned([], Walked(attributes))
  }

  /** What a node holds besides its links.  Only elements have attributes, only
      texts a CDATA mark, only declarations a version, encoding and standalone. */
  datatype Own = Own(
    value: Bytes, attributes: seq<Attribute>, userData: int, location: (int, int),
    cdata: bool, declaration: (Bytes, Bytes, Bytes))

  /** What a node and everything below it amounts to. */
  datatype Tree = Tree(isDocument: bool, own: Own, children: seq<Tree>)

  function CopiedOwn(own: Own): Own {
    own.(value := CStr(own.value), attributes := CopiedAttributes(own.attributes))
  }

  function Copied(t: Tree): Tree {
    Tree(t.isDocument, CopiedOwn(t.own), seq(|t.children|, i requires 0 <= i < |t.children| => Copied(t.children[i])))
  }

  // ------------------------------------------------------- when a copy is equal

  predicate PlainAttribute(a: Attribute) {
    NulFree(a.name) && NulFree(a.value)
  }

  predicate PlainAttributes(attributes: seq<Attribute>) {
    && DistinctNames(attributes)
    && (forall i :: 0 <= i < |attributes| ==> PlainAttribute(attributes[i]))
    && (forall i :: 0 < i < |attributes| ==> !LooksLikeSentinel(attributes[i]))
  }

  predicate Plain(t: Tree) {
    && NulFree(t.own.value) && PlainAttributes(t.own.attributes)
    && forall i :: 0 <= i < |t.children| ==> Plain(t.children[i])
  }

  predicate HasName(attributes: seq<Attribute>, name: Bytes) {
    exists i :: 0 <= i < |attributes| && attributes[i].name == name
  }

  /** The names of the second list are distinct and not in the first. */
  predicate Apart(into: seq<Attribute>, attributes: seq<Attribute>) {
    && DistinctNames(attributes)
    && forall i :: 0 <= i < |attributes| ==> !HasName(into, attributes[i].name)
  }

  lemma {:induction false} AssignedIs(attributes: seq<Attribute>, name: Bytes, value: Bytes)
    ensures !HasName(attributes, name) ==> Assigned(attributes, name, value) == attributes + [Attribute(name, value)]
    ensures HasName(attributes, name) ==> |Assigned(attributes, name, value)| == |attributes|
  {
    if attributes != [] {
      var rest := attributes[1..];
      AssignedIs(rest, name, value);
      if !HasName(attributes, name) {
        assert attributes[0].name != name;
        assert forall i :: 0 <= i < |rest| ==> rest[i] == attributes[i + 1];
        assert attributes[..1] + (rest + [Attribute(name, value)]) == attributes + [Attribute(name, value)];
      } else if attributes[0].name != name {
        var i :| 0 <= i < |attributes| && attributes[i].name == name;
        assert rest[i - 1].name == name;
      }
    }
  }

  /** The walk visits all attributes if and only if each one behind the first has a
      name or a value. */
  lemma {:induction false} WalkGoesOn(attributes: seq<Attribute>)
    ensures Walked(attributes) == attributes <==>
            forall i :: 0 < i < |attributes| ==> attributes[i].name != [] || attributes[i].value != []
  {
    if |attributes| > 1 {
      var rest := attributes[1..];
      WalkGoesOn(rest);
      assert forall i :: 0 < i < |attributes| ==> attributes[i] == rest[i - 1];
      assert forall i :: 0 <= i < |rest| ==> rest[i] == attributes[i + 1];
      assert attributes[..1] + rest == attributes;
      assert (attributes[..1] + Walked(rest))[1..] == Walked(rest);
    }
  }

  /** Setting the value of a name that is there replaces the first attribute of
      the name and leaves all others, and their order, as they are. */
  lemma {:induction false} AssignedReplaces(attributes: seq<Attribute>, name: Bytes, value: Bytes, i: nat)
    requires i < |attributes| && attributes[i].name == name
    requires forall j :: 0 <= j < i ==> attributes[j].name != name
    ensures Assigned(attributes, name, value) == attributes[i := Attribute(name, value)]
  {
    if i == 0 {
      assert [Attribute(name, value)] + attributes[1..] == attributes[0 := Attribute(name, value)];
    } else {
      AssignedReplaces(attributes[1..], name, value, i - 1);
      assert attributes[..1] + attributes[1..][i - 1 := Attribute(name, value)] ==
             attributes[i := Attribute(name, value)];
    }
  }

  /** Setting attributes of distinct names adds all of them; otherwise there are
      fewer than were set. */
  lemma {:induction false} AllAssignedLength(into: seq<Attribute>, attributes: seq<Attribute>)
    ensures |AllAssigned(into, attributes)| <= |into| + |attributes|
    ensures |AllAssigned(into, attributes)| == |into| + |attributes| ==> into <= AllAssigned(into, attributes)
    decreases |attributes|
  {
    hide Assigned, CStr, HasName;
    if attributes != [] {
      var name, value := CStr(attributes[0].name), CStr(attributes[0].value);
      AssignedIs(into, name, value);
      AllAssignedLength(Assigned(into, name, value), attributes[1..]);
    }
  }

  /** Setting attributes adds them as they are exactly when their names are new
      and no string is cut. */
  lemma {:induction false} AllAssignedExact(into: seq<Attribute>, attributes: seq<Attribute>)
    ensures AllAssigned(into, attributes) == into + attributes <==>
            Apart(into, attributes) && forall i :: 0 <= i < |attributes| ==> PlainAttribute(attributes[i])
    decreases |attributes|
  {
    hide Assigned, Apart, PlainAttribute, HasName, CStr, AllAssigned;
    AllAssignedStep(into, attributes);
    if attributes == [] {
      assert Apart(into, []) by { NothingApart(into); }
      assert into + attributes == into;
    } else {
      var a, rest := attributes[0], attributes[1..];
      var x := Attribute(CStr(a.name), CStr(a.value));
      var next := Assigned(into, x.name, x.value);
      AssignedIs(into, x.name, x.value);
      AllAssignedLength(next, rest);
      AllAssignedExact(next, rest);
      UncutAttribute(a);
      ApartStep(into, attributes);
      assert into + attributes == (into + [a]) + rest;
      assert forall i :: 0 < i < |attributes| ==> attributes[i] == rest[i - 1];
      if AllAssigned(into, attributes) == into + attributes {
        assert next == into + [x];
        assert (into + attributes)[|into|] == a && next[|into|] == x;
      }
    }
  }

  lemma AllAssignedStep(into: seq<Attribute>, attributes: seq<Attribute>)
    ensures attributes == [] ==> AllAssigned(into, attributes) == into
    ensures attributes != [] ==>
              AllAssigned(into, attributes) ==
              AllAssigned(Assigned(into, CStr(attributes[0].name), CStr(attributes[0].value)), attributes[1..])
  {
  }

  lemma NothingApart(into: seq<Attribute>)
    ensures Apart(into, [])
  {
  }

  lemma UncutAttribute(a: Attribute)
    ensures Attribute(CStr(a.name), CStr(a.value)) == a <==> PlainAttribute(a)
  {
    CStrOfNulFree(a.name);
    CStrOfNulFree(a.value);
  }

  lemma ApartStep(into: seq<Attribute>, attributes: seq<Attribute>)
    requires attributes != []
    ensures Apart(into, attributes) <==>
            !HasName(into, attributes[0].name) && Apart(into + [attributes[0]], attributes[1..])
  {
    var a, rest := attributes[0], attributes[1..];
    var more := into + [a];
    forall name
      ensures HasName(more, name) <==> HasName(into, name) || name == a.name
    {
      assert more[|into|] == a;
      assert forall i :: 0 <= i < |into| ==> more[i] == into[i];
    }
    hide HasName;
    assert forall i :: 0 <= i < |rest| ==> rest[i] == attributes[i + 1];
    assert forall i :: 0 < i < |attributes| ==> attributes[i] == rest[i - 1];
  }

  lemma {:induction false} WalkedIsPrefix(attributes: seq<Attribute>)
    ensures Walked(attributes) <= attributes
    ensures Walked(attributes) == attributes <==> forall i :: 0 < i < |attributes| ==> !LooksLikeSentinel(attributes[i])
  {
    if |attributes| > 1 && !LooksLikeSentinel(attributes[1]) {
      var rest := attributes[1..];
      WalkedIsPrefix(rest);
      assert attributes == attributes[..1] + rest;
      assert Walked(attributes)[1..] == Walked(rest);
      assert forall i :: 1 < i < |attributes| ==> attributes[i] == rest[i - 1];
      assert forall i :: 0 < i < |rest| ==> rest[i] == attributes[i + 1];
    }
  }

  /** A copy has the same attributes exactly when their names are distinct, no
      string holds a NUL, and none but the first is without name and value. */
  lemma CopiedAttributesExact(attributes: seq<Attribute>)
    ensures CopiedAttributes(attributes) == attributes <==> PlainAttributes(attributes)
  {
    hide AllAssigned, Walked, PlainAttribute, LooksLikeSentinel, DistinctNames;
    WalkedIsPrefix(attributes);
    AllAssignedLength([], Walked(attributes));
    AllAssignedExact([], attributes);
    assert [] + attributes == attributes;
  }

  /** A copy equals its original exactly when the whole tree is plain. */
  lemma {:induction false} CopiedIsEqual(t: Tree)
    ensures Copied(t) == t <==> Plain(t)
  {
    hide PlainAttributes, CopiedAttributes, CStr, NulFree;
    CStrOfNulFree(t.own.value);
    CopiedAttributesExact(t.own.attributes);
    forall i | 0 <= i < |t.children|
      ensures Copied(t.children[i]) == t.children[i] <==> Plain(t.children[i])
    {
      CopiedIsEqual(t.children[i]);
    }
    if Copied(t) == t {
      assert forall i :: 0 <= i < |t.children| ==> Copied(t).children[i] == t.children[i];
    }
  }
}
