/** The attributes of an element: a ring of nodes closed by a sentinel. */
module XmlAttributeSet {
  import opened Prelude
  import XmlBytes
  import opened XmlTree
  import opened XmlCopies

  class TiXmlAttribute {
    var name: Bytes
    var value: Bytes
    var prev: TiXmlAttribute?
    var next: TiXmlAttribute?

    constructor (name: Bytes, value: Bytes)
      ensures this.name == name && this.value == value && prev == null && next == null
    {
      this.name, this.value := name, value;
      prev, next := null, null;
    }
  }

  /** The node at a place of the ring: an attribute, or around them the sentinel. */
  ghost function At(sentinel: TiXmlAttribute, nodes: seq<TiXmlAttribute>, i: int): TiXmlAttribute {
    if 0 <= i < |nodes| then nodes[i] else sentinel
  }

  /** The link from one place of the ring to the next, in both directions. */
  ghost predicate LinkedAt(sentinel: TiXmlAttribute, nodes: seq<TiXmlAttribute>, i: int)
    reads At(sentinel, nodes, i)`next, At(sentinel, nodes, i + 1)`prev
  {
    At(sentinel, nodes, i).next == At(sentinel, nodes, i + 1) &&
        At(sentinel, nodes, i + 1).prev == At(sentinel, nodes, i)
  }

  ghost predicate Distinct(sentinel: TiXmlAttribute, nodes: seq<TiXmlAttribute>) {
    && sentinel !in nodes
    && forall i, j :: 0 <= i < j < |nodes| ==> nodes[i] != nodes[j]
  }

  lemma DistinctFrom(sentinel: TiXmlAttribute, nodes: seq<TiXmlAttribute>, k: int)
    requires Distinct(sentinel, nodes) && -1 <= k < |nodes|
    ensures forall i :: -1 <= i < |nodes| && i != k ==> At(sentinel, nodes, i) != At(sentinel, nodes, k)
  {
  }

  lemma DistinctGrows(sentinel: TiXmlAttribute, nodes: seq<TiXmlAttribute>, node: TiXmlAttribute)
    requires Distinct(sentinel, nodes) && node != sentinel && node !in nodes
    ensures Distinct(sentinel, nodes + [node])
    ensures forall i :: -1 <= i < |nodes| ==> At(sentinel, nodes, i) != node
  {
  }

  lemma WithoutKeeps(sentinel: TiXmlAttribute, nodes: seq<TiXmlAttribute>, k: nat)
    requires Distinct(sentinel, nodes) && k < |nodes|
    ensures Distinct(sentinel, Without(nodes, k)) && |Without(nodes, k)| == |nodes| - 1
    ensures forall i :: -1 <= i < k ==> At(sentinel, Without(nodes, k), i) == At(sentinel, nodes, i)
    ensures forall i :: k <= i < |nodes| ==> At(sentinel, Without(nodes, k), i) == At(sentinel, nodes, i + 1)
  {
    assert forall i :: 0 <= i < |nodes| - 1 ==> Without(nodes, k)[i] == nodes[if i < k then i else i + 1];
  }

  function Without<T>(s: seq<T>, k: nat): seq<T>
    requires k < |s|
  {
    s[..k] + s[k + 1..]
  }

  class TiXmlAttributeSet {
    const sentinel: TiXmlAttribute
    /** The attributes in the order they were added. */
    ghost var attributes: seq<TiXmlAttribute>

    ghost predicate Valid()
      reads this, sentinel, attributes`prev, attributes`next
    {
      && Distinct(sentinel, attributes)
      && sentinel.name == [] && sentinel.value == []
      && forall i :: -1 <= i < |attributes| ==> LinkedAt(sentinel, attributes, i)
    }

    ghost predicate NamesDistinct()
      reads this, attributes
    {
      forall i, j :: 0 <= i < j < |attributes| ==> attributes[i].name != attributes[j].name
    }

    /** Names and values, in order. */
    ghost function Pairs(): (pairs: seq<Attribute>)
      reads this, attributes
      ensures |pairs| == |attributes|
    {
      seq(|attributes|, i requires 0 <= i < |attributes| reads this, attributes =>
        Attribute(attributes[i].name, attributes[i].value))
    }

    constructor ()
      ensures Valid() && attributes == [] && fresh(sentinel)
    {
      sentinel := new TiXmlAttribute([], []);
      attributes := [];
      new;
      sentinel.next := sentinel;
      sentinel.prev := sentinel;
    }

    /** Adds at the end. */
    method Add(addMe: TiXmlAttribute)
      requires Valid() && addMe != sentinel && addMe !in attributes
      modifies this, sentinel`prev, sentinel`next, attributes`next, addMe`prev, addMe`next
      ensures Valid() && attributes == old(attributes) + [addMe]
    {
      hide Distinct;
      ghost var was, n := attributes, |attributes|;
      assert LinkedAt(sentinel, was, n - 1);
      DistinctFrom(sentinel, was, n - 1);
      DistinctGrows(sentinel, was, addMe);
      addMe.next := sentinel;
      addMe.prev := sentinel.prev;
      sentinel.prev.next := addMe;
      sentinel.prev := addMe;
      attributes := was + [addMe];
      forall i | -1 <= i < n + 1
        ensures LinkedAt(sentinel, attributes, i)
      {
        if i < n - 1 {
          assert old(LinkedAt(sentinel, was, i));
        }
      }
    }

    /** Unlinks an attribute, if it is there. */
    method Remove(removeMe: TiXmlAttribute)
      requires Valid()
      modifies this`attributes, sentinel`prev, sentinel`next, attributes`prev, attributes`next
      ensures Valid()
      ensures removeMe !in old(attributes) ==> attributes == old(attributes)
      ensures removeMe in old(attributes) ==>
                && removeMe.prev == null && removeMe.next == null
                && exists k :: 0 <= k < |old(attributes)| && old(attributes)[k] == removeMe
                               && attributes == Without(old(attributes), k)
    {
      ghost var k := 0;
      assert LinkedAt(sentinel, attributes, -1);
      var node := sentinel.next;
      while node != sentinel
        invariant 0 <= k <= |attributes| && node == At(sentinel, attributes, k)
        invariant removeMe !in attributes[..k]
        decreases |attributes| - k
      {
        assert LinkedAt(sentinel, attributes, k);
        if node == removeMe {
          Unlink(node, k);
          return;
        }
        node := node.next;
        k := k + 1;
      }
      assert k == |attributes| && attributes[..k] == attributes;
    }

    method Unlink(node: TiXmlAttribute, ghost k: nat)
      requires Valid() && k < |attributes| && attributes[k] == node
      modifies this`attributes, sentinel`prev, sentinel`next, attributes`prev, attributes`next
      ensures Valid() && attributes == Without(old(attributes), k)
      ensures node.prev == null && node.next == null
    {
      hide Distinct, Without;
      ghost var was, n := attributes, |attributes|;
      WithoutKeeps(sentinel, was, k);
      assert LinkedAt(sentinel, was, k) && LinkedAt(sentinel, was, k - 1);
      DistinctFrom(sentinel, was, k - 1);
      DistinctFrom(sentinel, was, k);
      DistinctFrom(sentinel, was, if k + 1 < n then k + 1 else -1);
      node.prev.next := node.next;
      node.next.prev := node.prev;
      node.next := null;
      node.prev := null;
      attributes := Without(was, k);
      forall i | -1 <= i < n - 1
        ensures LinkedAt(sentinel, attributes, i)
      {
        if i < k - 1 {
          assert old(LinkedAt(sentinel, was, i));
        } else if i >= k {
          assert old(LinkedAt(sentinel, was, i + 1));
        }
      }
    }

    /** The attribute of a name. */
    method Find(name: Bytes) returns (found: TiXmlAttribute?)
      requires Valid()
      ensures found == null <==> forall a :: a in attributes ==> a.name != name
      ensures found != null ==> found in attributes && found.name == name
    {
      ghost var k := 0;
      assert LinkedAt(sentinel, attributes, -1);
      var node := sentinel.next;
      while node != sentinel
        invariant 0 <= k <= |attributes| && node == At(sentinel, attributes, k)
        invariant forall j :: 0 <= j < k ==> attributes[j].name != name
        decreases |attributes| - k
      {
        assert LinkedAt(sentinel, attributes, k);
        if node.name == name {
          return node;
        }
        node := node.next;
        k := k + 1;
      }
      return null;
    }

    /** Finds the attribute of a name, or adds one at the end. */
    method FindOrCreate(name: Bytes) returns (attribute: TiXmlAttribute)
      requires Valid()
      modifies this, sentinel`prev, sentinel`next, attributes`next
      ensures Valid() && attribute in attributes && attribute.name == name
      ensures old(NamesDistinct()) ==> NamesDistinct()
      ensures if exists a :: a in old(attributes) && a.name == name then attributes == old(attributes)
              else fresh(attribute) && attributes == old(attributes) + [attribute]
    {
      var found := Find(name);
      if found != null {
        return found;
      }
      attribute := new TiXmlAttribute([], []);
      Add(attribute);
      ghost var was := old(attributes);
      attribute.name := name;
      assert forall i :: 0 <= i < |was| ==> was[i] in was && attributes[i] == was[i] && was[i].name == old(was[i].name);
    }

    /** Sets the value of the attribute of a name, which is added if need be. */
    method SetAttribute(name: Bytes, value: Bytes)
      requires Valid() && NamesDistinct()
      modifies this, sentinel`prev, sentinel`next, attributes`next, attributes`value
      ensures Valid() && NamesDistinct()
      ensures Pairs() == Assigned(old(Pairs()), name, value)
      ensures forall j :: 0 <= j < |attributes| ==> attributes[j] in old(attributes) || fresh(attributes[j])
    {
      hide Assigned, LinkedAt;
      ghost var was := attributes;
      var attribute := FindOrCreate(name);
      attribute.value := value;
      ValueAssigned(attribute);
    }

    /** The pairs after `SetAttribute`, from what happened to one attribute. */
    twostate lemma ValueAssigned(new attribute: TiXmlAttribute)
      requires old(NamesDistinct()) && attribute in attributes
      requires forall a :: a in old(attributes) ==>
               a.name == old(a.name) && (a != attribute ==> a.value == old(a.value))
      requires if attribute in old(attributes) then attributes == old(attributes)
               else attributes == old(attributes) + [attribute]
                    && forall a :: a in old(attributes) ==> old(a.name) != attribute.name
      ensures Pairs() == Assigned(old(Pairs()), attribute.name, attribute.value)
    {
      var pairs, was := old(Pairs()), old(attributes);
      var pair := Attribute(attribute.name, attribute.value);
      if attribute in was {
        var k :| 0 <= k < |was| && was[k] == attribute;
        assert pairs[k].name == attribute.name;
        AssignedReplaces(pairs, pair.name, pair.value, k);
        assert Pairs() == pairs[k := pair];
      } else {
        assert forall i :: 0 <= i < |was| ==> was[i] in was && pairs[i].name != pair.name;
        AssignedIs(pairs, pair.name, pair.value);
        assert Pairs() == pairs + [pair];
      }
    }

    lemma PairAt(k: nat)
      requires k < |attributes|
      ensures Pairs()[k] == Attribute(attributes[k].name, attributes[k].value)
    {
    }

    /** A set none of whose attributes changed. */
    twostate lemma StaysValid()
      requires old(Valid()) && attributes == old(attributes)
      requires sentinel.name == old(sentinel.name) && sentinel.value == old(sentinel.value)
      requires sentinel.prev == old(sentinel.prev) && sentinel.next == old(sentinel.next)
      requires forall a :: a in attributes ==>
                 a.name == old(a.name) && a.value == old(a.value) && a.prev == old(a.prev) && a.next == old(a.next)
      ensures Valid() && Pairs() == old(Pairs())
    {
      hide Distinct;
      forall i | -1 <= i < |attributes|
        ensures LinkedAt(sentinel, attributes, i)
      {
        assert old(LinkedAt(sentinel, attributes, i));
      }
    }

    method First() returns (first: TiXmlAttribute?)
      requires Valid()
      ensures first == if attributes == [] then null else attributes[0]
    {
      assert LinkedAt(sentinel, attributes, -1);
      first := if sentinel.next == sentinel then null else sentinel.next;
    }

    /** `TiXmlAttribute::Next` on an attribute of this set. */
    method Next(node: TiXmlAttribute, ghost k: nat) returns (next: TiXmlAttribute?)
      requires Valid() && k < |attributes| && attributes[k] == node
      ensures next == if k + 1 == |attributes| || LooksLikeSentinel(Pairs()[k + 1]) then null else attributes[k + 1]
    {
      assert LinkedAt(sentinel, attributes, k);
      assert k + 1 < |attributes| ==> Pairs()[k + 1] == Attribute(attributes[k + 1].name, attributes[k + 1].value);
      if node.next.value == [] && node.next.name == [] {
        return null;
      }
      return node.next;
    }

    method Last() returns (last: TiXmlAttribute?)
      requires Valid()
      ensures last == if attributes == [] then null else attributes[|attributes| - 1]
    {
      assert LinkedAt(sentinel, attributes, |attributes| - 1);
      last := if sentinel.prev == sentinel then null else sentinel.prev;
    }

    /** `TiXmlAttribute::Previous` on an attribute of this set. */
    method Previous(node: TiXmlAttribute, ghost k: nat) returns (previous: TiXmlAttribute?)
      requires Valid() && k < |attributes| && attributes[k] == node
      ensures previous == if k == 0 || LooksLikeSentinel(Pairs()[k - 1]) then null else attributes[k - 1]
    {
      assert LinkedAt(sentinel, attributes, k - 1);
      assert k > 0 ==> Pairs()[k - 1] == Attribute(attributes[k - 1].name, attributes[k - 1].value);
      if node.prev.value == [] && node.prev.name == [] {
        return null;
      }
      return node.prev;
    }

    /** Sets the attributes a walk of another set visits, one by one. */
    method CopyTo(target: TiXmlAttributeSet)
      requires Valid()
      requires target.Valid() && target.NamesDistinct() && target.Apart(this)
      modifies target, target.sentinel`prev, target.sentinel`next, target.attributes`next, target.attributes`value
      ensures target.Valid() && target.NamesDistinct()
      ensures target.Pairs() == AllAssigned(old(target.Pairs()), Walked(Pairs()))
      ensures Valid() && Pairs() == old(Pairs())
    {
      hide Valid, Pairs, Walked, AllAssigned, Assigned, NamesDistinct, LooksLikeSentinel;
      var attribute := First();
      ghost var k, left := 0, Walked(Pairs());
      WholeWalk(Pairs());
      while attribute != null
        invariant Valid() && Pairs() == old(Pairs()) && attributes == old(attributes)
        invariant target.Valid() && target.NamesDistinct() && target.Apart(this)
        invariant forall j :: 0 <= j < |target.attributes| ==>
                    target.attributes[j] in old(target.attributes) || fresh(target.attributes[j])
        invariant attribute == null ==> left == []
        invariant attribute != null ==> k < |attributes| && attributes[k] == attribute && left == Walked(Pairs()[k..])
        invariant AllAssigned(target.Pairs(), left) == AllAssigned(old(target.Pairs()), Walked(Pairs()))
        decreases |attributes| - k, if attribute == null then 0 else 1
      {
        WalkedStep(Pairs(), k);
        PairAt(k);
        AllAssignedStep(target.Pairs(), left);
        label setting:
        target.SetAttribute(XmlBytes.CStr(attribute.name), XmlBytes.CStr(attribute.value));
        StaysValid@setting();
        attribute := Next(attribute, k);
        left := left[1..];
        k := k + 1;
      }
      AllAssignedStep(target.Pairs(), left);
    }

    /** No attribute is in both sets. */
    ghost predicate Apart(other: TiXmlAttributeSet)
      reads this, other
    {
      && other != this && other.sentinel != sentinel
      && other.sentinel !in attributes && sentinel !in other.attributes
      && forall a :: a in attributes ==> a !in other.attributes
    }
  }

  lemma WholeWalk(pairs: seq<Attribute>)
    ensures pairs[0..] == pairs && (pairs == [] ==> Walked(pairs) == [])
  {
  }

  lemma WalkedStep(pairs: seq<Attribute>, k: nat)
    requires k < |pairs|
    ensures var w := Walked(pairs[k..]);
            && w != [] && w[0] == pairs[k]
            && w[1..] == if k + 1 == |pairs| || LooksLikeSentinel(pairs[k + 1]) then [] else Walked(pairs[k + 1..])
  {
    assert pairs[k..][1..] == pairs[k + 1..];
  }
}
