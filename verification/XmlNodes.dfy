/** The children of a DOM node: a doubly linked list with both ends. */
module XmlNodes {
  import opened Prelude
  import opened XmlTree
  import opened XmlCopies
  import XmlBytes

  class TiXmlNode {
    const isDocument: bool
    var value: Bytes
    var userData: int
    var location: (int, int)
    /** Of an element; in the order of its attribute set. */
    var attributes: seq<Attribute>
    /** Of a text, and of a declaration. */
    var cdata: bool
    var declaration: (Bytes, Bytes, Bytes)
    var parent: TiXmlNode?
    var prev: TiXmlNode?
    var next: TiXmlNode?
    var firstChild: TiXmlNode?
    var lastChild: TiXmlNode?
    /** The children in order. */
    ghost var children: seq<TiXmlNode>

    /** What the node holds besides its links. */
    function Own(): Own
      reads this
    {
      XmlCopies.Own(value, attributes, userData, location, cdata, declaration)
    }

    constructor (value: Bytes, isDocument: bool)
      ensures this.value == value && this.isDocument == isDocument && attributes == []
      ensures parent == null && children == [] && Valid()
    {
      this.value, this.isDocument := value, isDocument;
      userData, location, attributes, cdata, declaration := 0, (0, 0), [], false, ([], [], []);
      parent, prev, next, firstChild, lastChild := null, null, null, null, null;
      children := [];
    }

    /** The links of the children say exactly what the sequence says. */
    ghost predicate Valid()
      reads this, children
    {
      && this !in children
      && Distinct(children)
      && firstChild == At(children, 0) && lastChild == At(children, |children| - 1)
      && (forall i :: 0 <= i < |children| ==> LinkedAt(this, children, i))
    }

    /** A node whose parent is this one is among the children. */
    ghost predicate Knows(node: TiXmlNode?)
      reads this, node
    {
      node != null && node.parent == this ==> node in children
    }

    lemma ParentOf(node: TiXmlNode?)
      requires Valid()
      ensures node != null && node in children ==> node.parent == this
    {
      if node != null && node in children {
        var i :| 0 <= i < |children| && children[i] == node;
        assert LinkedAt(this, children, i);
      }
    }

    /** No node is a child of two. */
    lemma OthersApart()
      requires Valid()
      ensures forall n: TiXmlNode :: n != this && n.Valid() ==> forall c :: c in n.children ==> c !in children
    {
      forall n: TiXmlNode, c | n != this && n.Valid() && c in n.children
        ensures c !in children
      {
        ParentOf(c);
        n.ParentOf(c);
      }
    }

    /** A node with no parent, or with this one, is no child of another. */
    lemma OthersDoNotHave(node: TiXmlNode)
      requires node.parent == null || node.parent == this
      ensures forall n: TiXmlNode :: n != this && n.Valid() ==> node !in n.children
    {
      forall n: TiXmlNode | n != this && n.Valid()
        ensures node !in n.children
      {
        n.ParentOf(node);
      }
    }

    /** A node none of whose own links or children's links changed. */
    twostate lemma StaysValid()
      requires old(Valid())
      requires firstChild == old(firstChild) && lastChild == old(lastChild) && children == old(children)
      requires forall c :: c in children ==> c.parent == old(c.parent) && c.prev == old(c.prev) && c.next == old(c.next)
      ensures Valid()
    {
      forall i | 0 <= i < |children|
        ensures LinkedAt(this, children, i)
      {
        assert old(LinkedAt(this, children, i));
      }
    }

    /** The index of a child, with what is known of its neighbours. */
    lemma Around(node: TiXmlNode) returns (was: seq<TiXmlNode>, k: nat)
      requires Valid() && node in children
      ensures was == children && k < |was| && was[k] == node
      ensures node.prev == At(was, k - 1) && node.next == At(was, k + 1)
      ensures node.next == null <==> k == |was| - 1
      ensures node.prev == null <==> k == 0
      ensures forall j :: k - 1 <= j <= k + 1 && 0 <= j < |was| ==>
                forall i :: 0 <= i < |was| && i != j ==> was[i] != was[j]
    {
      was := children;
      k :| k < |was| && was[k] == node;
      assert LinkedAt(this, was, k);
    }

    /** `TiXmlElement::SetAttribute` */
    method SetAttribute(name: Bytes, value: Bytes)
      modifies `attributes
      ensures attributes == Assigned(old(attributes), name, value)
    {
      for i := 0 to |attributes|
        invariant attributes == old(attributes)
        invariant Assigned(attributes, name, value) == attributes[..i] + Assigned(attributes[i..], name, value)
      {
        AssignedUnfolds(attributes[i..], name, value);
        if attributes[i].name == name {
          assert attributes[i..][1..] == attributes[i + 1..];
          attributes := attributes[..i] + [Attribute(name, value)] + attributes[i + 1..];
          return;
        }
        assert attributes[i..][1..] == attributes[i + 1..] &&
               attributes[..i] + attributes[i..][..1] == attributes[..i + 1];
        Reassociate(attributes[..i], attributes[i..][..1], Assigned(attributes[i + 1..], name, value));
      }
      assert attributes[..|attributes|] == attributes;
      attributes := attributes + [Attribute(name, value)];
    }

    /** `CopyTo`, but for the children. */
    method CopyTo(target: TiXmlNode)
      requires target != this && target.attributes == [] && target.Valid()
      modifies target`value, target`userData, target`location, target`attributes, target`cdata, target`declaration
      ensures target.Own() == CopiedOwn(Own()) && target.Valid()
    {
      hide Valid, Walked, Assigned, AllAssigned;
      target.value := XmlBytes.CStr(value);
      target.userData := userData;
      target.location := location;
      target.cdata := cdata;
      target.declaration := declaration;
      var visited := Walked(attributes);
      for i := 0 to |visited|
        invariant AllAssigned(target.attributes, visited[i..]) == CopiedAttributes(attributes)
        invariant target.Own() == CopiedOwn(Own()).(attributes := target.attributes)
      {
        AllAssignedStep(target.attributes, visited[i..]);
        assert visited[i..][1..] == visited[i + 1..];
        target.SetAttribute(XmlBytes.CStr(visited[i].name), XmlBytes.CStr(visited[i].value));
      }
      AllAssignedStep(target.attributes, visited[|visited|..]);
      target.StaysValid();
    }

    /** A copy of the whole tree below this node, of new nodes only. */
    method Clone(ghost depth: nat, ghost s: set<TiXmlNode>) returns (copy: TiXmlNode, ghost t: set<TiXmlNode>)
      requires Subtree(this, depth, s)
      ensures fresh(t) && Subtree(copy, depth, t) && copy.parent == null && copy.isDocument == isDocument
      ensures TreeOf(copy, depth, t) == Copied(TreeOf(this, depth, s))
      decreases depth, 1
    {
      hide Distinct, Subtree, TreeOf, CopiedChild, LinkedAt, Valid, CopiedOwn, Copied;
      copy := new TiXmlNode(value, isDocument);
      CopyTo(copy);
      ghost var below := CloneChildren(copy, depth, s);
      t := below + {copy};
      CopiedAll(copy, depth, s, below);
    }

    /** Links copies of the children to a new node. */
    method CloneChildren(copy: TiXmlNode, ghost depth: nat, ghost s: set<TiXmlNode>)
        returns (ghost below: set<TiXmlNode>)
      requires Subtree(this, depth, s) && copy !in s && copy.Valid() && copy.children == []
      modifies copy`firstChild, copy`lastChild, copy`children
      ensures fresh(below) && copy.Valid() && Subtree(this, depth, s) && |copy.children| == |children|
      ensures forall j :: 0 <= j < |children| ==> CopiedChild(copy, j, depth, s, below)
      decreases depth, 0
    {
      hide Distinct, Subtree, TreeOf, CopiedChild, LinkedAt, Valid, Copied;
      SubtreeRoot(this, depth, s);
      FirstIsAt();
      below := {};
      var node := firstChild;
      ghost var i := 0;
      while node != null
        invariant i <= |children| && node == At(children, i)
        invariant Subtree(this, depth, s) && copy !in s
        invariant copy !in below && copy.Valid() && fresh(below) && |copy.children| == i
        invariant forall j :: 0 <= j < i ==> fresh(copy.children[j])
        invariant forall j :: 0 <= j < i ==> CopiedChild(copy, j, depth, s, below)
        decreases |children| - i
      {
        ghost var was := copy.children;
        SubtreeRoot(this, depth, s);
        NextIsAt(i);
        SubtreeChildren(this, depth, s);
        CopiesBelow(copy, depth, s, below);
        var c, tc := node.Clone(depth - 1, s);
        SubtreeRoot(c, depth - 1, tc);
        SubtreeRoot(node, depth - 1, s);
        assert copy.children == was;
        LinkCopy(copy, c, depth, s, below, tc);
        node := node.next;
        i := i + 1;
        below := below + tc;
      }
    }

    /** Links one more copy, and keeps the copies linked before. */
    method LinkCopy(copy: TiXmlNode, c: TiXmlNode, ghost depth: nat, ghost s: set<TiXmlNode>,
                    ghost below: set<TiXmlNode>, ghost tc: set<TiXmlNode>)
      requires Subtree(this, depth, s) && depth > 0 && copy.Valid() && copy !in s + below + tc
      requires |copy.children| < |children| && (forall x :: x in copy.children ==> x in below) && (below + tc) !! s
      requires forall j :: 0 <= j < |copy.children| ==> CopiedChild(copy, j, depth, s, below)
      requires c in tc && c !in below && !c.isDocument && c.parent == null && Subtree(c, depth - 1, tc)
      requires Subtree(children[|copy.children|], depth - 1, s)
      requires TreeOf(c, depth - 1, tc) == Copied(TreeOf(children[|copy.children|], depth - 1, s))
      modifies copy`firstChild, copy`lastChild, copy`children, copy.children`next, c`parent, c`prev, c`next
      ensures copy.Valid() && Subtree(this, depth, s) && copy.children == old(copy.children) + [c]
      ensures forall j :: 0 <= j < |copy.children| ==> CopiedChild(copy, j, depth, s, below + tc)
    {
      hide Distinct, Subtree, TreeOf, CopiedChild, LinkedAt, Valid, Copied;
      SubtreeRoot(this, depth, s);
      SubtreeChildren(this, depth, s);
      var _ := copy.LinkEndChild(c);
      CopiedKept(copy, c, depth, s, below, tc);
    }

    lemma FirstIsAt()
      requires Valid()
      ensures firstChild == At(children, 0)
    {
    }

    lemma NextIsAt(i: nat)
      requires Valid() && i < |children|
      ensures children[i].next == At(children, i + 1)
    {
      assert LinkedAt(this, children, i);
    }

    lemma CopiesBelow(copy: TiXmlNode, depth: nat, s: set<TiXmlNode>, below: set<TiXmlNode>)
      requires Subtree(this, depth, s)
      requires forall j :: 0 <= j < |copy.children| ==> CopiedChild(copy, j, depth, s, below)
      ensures forall c :: c in copy.children ==> c in below
    {
      forall j | 0 <= j < |copy.children|
        ensures copy.children[j] in below
      {
        assert CopiedChild(copy, j, depth, s, below);
      }
    }

    /** Linking one more copy keeps the copies linked before. */
    twostate lemma CopiedKept(new copy: TiXmlNode, new c: TiXmlNode, new depth: nat, new s: set<TiXmlNode>,
                              new below: set<TiXmlNode>, new tc: set<TiXmlNode>)
      requires old(allocated(copy)) && old(allocated(c)) && old(allocated(below)) && old(allocated(tc)) &&
               old(allocated(s))
      requires old(Subtree(this, depth, s)) && Subtree(this, depth, s)
      requires children == old(children) && |old(copy.children)| < |children|
      requires copy.children == old(copy.children) + [c]
      requires forall m :: m in below + tc + s && old(m.Valid()) ==> m.Valid()
      requires forall m :: m in below + tc + s ==> m.children == old(m.children) && m.Own() == old(m.Own())
      requires forall j :: 0 <= j < |old(copy.children)| ==> old(CopiedChild(copy, j, depth, s, below))
      requires depth > 0 && forall j :: 0 <= j < |children| ==> old(Subtree(children[j], depth - 1, s))
      requires !c.isDocument && old(Subtree(c, depth - 1, tc))
      requires old(TreeOf(c, depth - 1, tc)) == Copied(old(TreeOf(children[|copy.children|], depth - 1, s)))
      ensures forall j :: 0 <= j < |copy.children| ==> CopiedChild(copy, j, depth, s, below + tc)
    {
      hide Subtree, TreeOf;
      forall j | 0 <= j < |copy.children|
        ensures CopiedChild(copy, j, depth, s, below + tc)
      {
        if j < |old(copy.children)| {
          assert old(CopiedChild(copy, j, depth, s, below));
          SameCopy(copy.children[j], children[j], depth, s, below, below + tc);
        } else {
          SameCopy(c, children[j], depth, s, tc, below + tc);
        }
      }
    }

    twostate lemma SameCopy(new c: TiXmlNode, new child: TiXmlNode, new depth: nat, new s: set<TiXmlNode>,
                            new t: set<TiXmlNode>, new more: set<TiXmlNode>)
      requires depth > 0 && t <= more
      requires old(allocated(c)) && old(allocated(child)) && old(allocated(t)) && old(allocated(s))
      requires old(Subtree(c, depth - 1, t)) && old(Subtree(child, depth - 1, s))
      requires old(TreeOf(c, depth - 1, t)) == Copied(old(TreeOf(child, depth - 1, s)))
      requires forall m :: m in t + s && old(m.Valid()) ==> m.Valid()
      requires forall m :: m in t + s ==> m.children == old(m.children) && m.Own() == old(m.Own())
      ensures Subtree(c, depth - 1, more) && Subtree(child, depth - 1, s) && c in more
      ensures TreeOf(c, depth - 1, more) == Copied(TreeOf(child, depth - 1, s))
    {
      hide TreeOf;
      SubtreeKept(c, depth - 1, t);
      SubtreeKept(child, depth - 1, s);
      SubtreeGrows(c, depth - 1, t, more);
    }

    lemma CopiedAll(copy: TiXmlNode, depth: nat, s: set<TiXmlNode>, below: set<TiXmlNode>)
      requires Subtree(this, depth, s) && copy.Valid() && |copy.children| == |children|
      requires copy.Own() == CopiedOwn(Own()) && copy.isDocument == isDocument
      requires forall j :: 0 <= j < |children| ==> CopiedChild(copy, j, depth, s, below)
      ensures Subtree(copy, depth, below + {copy}) &&
              TreeOf(copy, depth, below + {copy}) == Copied(TreeOf(this, depth, s))
    {
      var t := below + {copy};
      forall j | 0 <= j < |copy.children|
        ensures copy.children[j] in t && !copy.children[j].isDocument && Subtree(copy.children[j], depth - 1, t)
        ensures TreeOf(copy.children[j], depth - 1, t) == Copied(TreeOf(children[j], depth - 1, s))
      {
        assert CopiedChild(copy, j, depth, s, below);
        SubtreeGrows(copy.children[j], depth - 1, below, t);
      }
    }

    ghost predicate CopiedChild(copy: TiXmlNode, j: nat, depth: nat, s: set<TiXmlNode>, below: set<TiXmlNode>)
      requires Subtree(this, depth, s)
      reads s, copy, below
    {
      && j < |copy.children| && j < |children|
      && copy.children[j] in below && !copy.children[j].isDocument
      && Subtree(copy.children[j], depth - 1, below)
      && TreeOf(copy.children[j], depth - 1, below) == Copied(TreeOf(children[j], depth - 1, s))
    }

    /** What is known of the end of the list. */
    lemma EndOf() returns (was: seq<TiXmlNode>)
      requires Valid()
      ensures was == children
      ensures forall i :: 0 <= i < |was| - 1 ==> was[i] != was[|was| - 1]
      ensures was != [] ==> lastChild == was[|was| - 1] && firstChild == was[0]
      ensures was == [] <==> lastChild == null
    {
      was := children;
    }

    /** Appends. */
    method LinkEndChild(node: TiXmlNode) returns (added: TiXmlNode?)
      requires Valid() && node != this && node !in children
      requires node.parent == null || node.parent == this
      modifies this`firstChild, this`lastChild, this`children, children`next, node`parent, node`prev, node`next
      ensures Valid()
      ensures added == if node.isDocument then null else node
      ensures children == if node.isDocument then old(children) else old(children) + [node]
      ensures forall n: TiXmlNode :: old(allocated(n)) && n != this && old(n.Valid()) ==> n.Valid()
    {
      hide Distinct, Spliced;
      if node.isDocument {
        return null;
      }
      OthersApart();
      OthersDoNotHave(node);
      ghost var was := EndOf();
      node.parent := this;
      node.prev := lastChild;
      node.next := null;
      if lastChild != null {
        lastChild.next := node;
      } else {
        firstChild := node;
      }
      lastChild := node;
      children := Spliced(was, |was|, 0, [node]);
      SplicedLast(was, node);
      assert Valid() by {
        Rewired(this, was, |was|, 0, [node]);
        SplicedDistinct(was, |was|, 0, [node]);
        SplicedEnds(was, |was|, 0, [node]);
      }
      forall n: TiXmlNode | old(allocated(n)) && n != this && old(n.Valid())
        ensures n.Valid()
      {
        n.StaysValid();
      }
      return node;
    }

    /** Appends a copy. */
    method InsertEndChild(addThis: TiXmlNode, ghost depth: nat, ghost s: set<TiXmlNode>)
      returns (added: TiXmlNode?, ghost t: set<TiXmlNode>)
      requires Valid() && Subtree(addThis, depth, s)
      modifies this`firstChild, this`lastChild, this`children, children`next
      ensures Valid()
      ensures added == null <==> addThis.isDocument
      ensures children == if added == null then old(children) else old(children) + [added]
      ensures added != null ==>
                fresh(t) && Subtree(added, depth, t) &&
                    TreeOf(added, depth, t) == Copied(old(TreeOf(addThis, depth, s)))
      ensures forall n: TiXmlNode :: old(allocated(n)) && n != this && old(n.Valid()) ==> n.Valid()
    {
      if addThis.isDocument {
        return null, {};
      }
      hide Distinct, Valid, Subtree, TreeOf;
      var node, copied := addThis.Clone(depth, s);
      SubtreeRoot(addThis, depth, s);
      SubtreeRoot(node, depth, copied);
      label linking:
      added := LinkEndChild(node);
      SubtreeKept@linking(node, depth, copied);
      t := copied;
    }

    /** Inserts a copy before a child. */
    method InsertBeforeChild(beforeThis: TiXmlNode?, addThis: TiXmlNode, ghost depth: nat, ghost s: set<TiXmlNode>)
      returns (added: TiXmlNode?, ghost t: set<TiXmlNode>)
      requires Valid() && Knows(beforeThis) && Subtree(addThis, depth, s)
      modifies this`firstChild, this`children, children`prev, children`next
      ensures Valid()
      ensures added == null <==> beforeThis == null || beforeThis !in old(children) || addThis.isDocument
      ensures added == null ==> children == old(children)
      ensures added != null ==> Edited(old(children), children, beforeThis, 0, 0, [added])
      ensures added != null ==>
                fresh(t) && Subtree(added, depth, t) &&
                    TreeOf(added, depth, t) == Copied(old(TreeOf(addThis, depth, s)))
      ensures forall n: TiXmlNode :: old(allocated(n)) && n != this && old(n.Valid()) ==> n.Valid()
    {
      hide Distinct, Spliced;
      ParentOf(beforeThis);
      if beforeThis == null || beforeThis.parent != this {
        return null, {};
      }
      if addThis.isDocument {
        return null, {};
      }
      var node, copied := addThis.Clone(depth, s);
      label linking:
      LinkBefore(beforeThis, node);
      SubtreeKept@linking(node, depth, copied);
      return node, copied;
    }

    method LinkBefore(beforeThis: TiXmlNode, node: TiXmlNode)
      requires Valid() && beforeThis in children && node != this && node.parent == null
      modifies this`firstChild, this`children, children`prev, children`next
      modifies node`parent, node`prev, node`next
      ensures Valid() && Edited(old(children), children, beforeThis, 0, 0, [node])
      ensures forall n: TiXmlNode :: old(allocated(n)) && n != this && old(n.Valid()) ==> n.Valid()
    {
      hide Distinct, Spliced;
      ParentOf(node);
      OthersApart();
      OthersDoNotHave(node);
      ghost var was, k := Around(beforeThis);
      node.parent := this;
      node.next := beforeThis;
      node.prev := beforeThis.prev;
      if beforeThis.prev != null {
        beforeThis.prev.next := node;
      } else {
        firstChild := node;
      }
      beforeThis.prev := node;
      children := Spliced(was, k, 0, [node]);
      assert Valid() by {
        Rewired(this, was, k, 0, [node]);
        SplicedDistinct(was, k, 0, [node]);
        SplicedEnds(was, k, 0, [node]);
      }
      forall n: TiXmlNode | old(allocated(n)) && n != this && old(n.Valid())
        ensures n.Valid()
      {
        n.StaysValid();
      }
    }

    /** Inserts a copy after a child. */
    method InsertAfterChild(afterThis: TiXmlNode?, addThis: TiXmlNode, ghost depth: nat, ghost s: set<TiXmlNode>)
      returns (added: TiXmlNode?, ghost t: set<TiXmlNode>)
      requires Valid() && Knows(afterThis) && Subtree(addThis, depth, s)
      modifies this`lastChild, this`children, children`prev, children`next
      ensures Valid()
      ensures added == null <==> afterThis == null || afterThis !in old(children) || addThis.isDocument
      ensures added == null ==> children == old(children)
      ensures added != null ==> Edited(old(children), children, afterThis, 1, 0, [added])
      ensures added != null ==>
                fresh(t) && Subtree(added, depth, t) &&
                    TreeOf(added, depth, t) == Copied(old(TreeOf(addThis, depth, s)))
      ensures forall n: TiXmlNode :: old(allocated(n)) && n != this && old(n.Valid()) ==> n.Valid()
    {
      hide Distinct, Spliced;
      ParentOf(afterThis);
      if afterThis == null || afterThis.parent != this {
        return null, {};
      }
      if addThis.isDocument {
        return null, {};
      }
      var node, copied := addThis.Clone(depth, s);
      label linking:
      LinkAfter(afterThis, node);
      SubtreeKept@linking(node, depth, copied);
      return node, copied;
    }

    method LinkAfter(afterThis: TiXmlNode, node: TiXmlNode)
      requires Valid() && afterThis in children && node != this && node.parent == null
      modifies this`lastChild, this`children, children`prev, children`next
      modifies node`parent, node`prev, node`next
      ensures Valid() && Edited(old(children), children, afterThis, 1, 0, [node])
      ensures forall n: TiXmlNode :: old(allocated(n)) && n != this && old(n.Valid()) ==> n.Valid()
    {
      hide Distinct, Spliced;
      ParentOf(node);
      OthersApart();
      OthersDoNotHave(node);
      ghost var was, k := Around(afterThis);
      node.parent := this;
      node.prev := afterThis;
      node.next := afterThis.next;
      if afterThis.next != null {
        afterThis.next.prev := node;
      } else {
        lastChild := node;
      }
      afterThis.next := node;
      children := Spliced(was, k + 1, 0, [node]);
      assert Valid() by {
        Rewired(this, was, k + 1, 0, [node]);
        SplicedDistinct(was, k + 1, 0, [node]);
        SplicedEnds(was, k + 1, 0, [node]);
      }
      forall n: TiXmlNode | old(allocated(n)) && n != this && old(n.Valid())
        ensures n.Valid()
      {
        n.StaysValid();
      }
    }

    /** Puts a copy in the place of a child. */
    method ReplaceChild(replaceThis: TiXmlNode?, withThis: TiXmlNode, ghost depth: nat, ghost s: set<TiXmlNode>)
      returns (added: TiXmlNode?, ghost t: set<TiXmlNode>)
      requires Valid() && Knows(replaceThis) && Subtree(withThis, depth, s)
      modifies this`firstChild, this`lastChild, this`children, children`prev, children`next
      ensures Valid()
      ensures added == null <==> replaceThis == null || replaceThis !in old(children) || withThis.isDocument
      ensures added == null ==> children == old(children)
      ensures added != null ==> Edited(old(children), children, replaceThis, 0, 1, [added])
      ensures added != null ==>
                fresh(t) && Subtree(added, depth, t) &&
                    TreeOf(added, depth, t) == Copied(old(TreeOf(withThis, depth, s)))
      ensures forall n: TiXmlNode :: old(allocated(n)) && n != this && old(n.Valid()) ==> n.Valid()
    {
      hide Distinct, Spliced;
      ParentOf(replaceThis);
      if replaceThis == null {
        return null, {};
      }
      if replaceThis.parent != this {
        return null, {};
      }
      if withThis.isDocument {
        return null, {};
      }
      var node, copied := withThis.Clone(depth, s);
      label linking:
      LinkInstead(replaceThis, node);
      SubtreeKept@linking(node, depth, copied);
      return node, copied;
    }

    method LinkInstead(replaceThis: TiXmlNode, node: TiXmlNode)
      requires Valid() && replaceThis in children && node != this && node.parent == null
      modifies this`firstChild, this`lastChild, this`children, children`prev, children`next
      modifies node`parent, node`prev, node`next
      ensures Valid() && Edited(old(children), children, replaceThis, 0, 1, [node])
      ensures forall n: TiXmlNode :: old(allocated(n)) && n != this && old(n.Valid()) ==> n.Valid()
    {
      hide Distinct, Spliced;
      ParentOf(node);
      OthersApart();
      OthersDoNotHave(node);
      ghost var was, k := Around(replaceThis);
      node.next := replaceThis.next;
      node.prev := replaceThis.prev;
      if replaceThis.next != null {
        replaceThis.next.prev := node;
      } else {
        lastChild := node;
      }
      if replaceThis.prev != null {
        replaceThis.prev.next := node;
      } else {
        firstChild := node;
      }
      node.parent := this;
      children := Spliced(was, k, 1, [node]);
      assert Valid() by {
        Rewired(this, was, k, 1, [node]);
        SplicedDistinct(was, k, 1, [node]);
        SplicedEnds(was, k, 1, [node]);
      }
      forall n: TiXmlNode | old(allocated(n)) && n != this && old(n.Valid())
        ensures n.Valid()
      {
        n.StaysValid();
      }
    }

    /** Unlinks and deletes a child. */
    method RemoveChild(removeThis: TiXmlNode?) returns (removed: bool)
      requires Valid() && Knows(removeThis)
      modifies this`firstChild, this`lastChild, this`children, children`prev, children`next
      ensures Valid()
      ensures removed <==> removeThis != null && removeThis in old(children)
      ensures !removed ==> children == old(children)
      ensures removed ==> Edited(old(children), children, removeThis, 0, 1, [])
      ensures forall n: TiXmlNode :: old(allocated(n)) && n != this && old(n.Valid()) ==> n.Valid()
    {
      hide Distinct, Spliced;
      ParentOf(removeThis);
      OthersApart();
      if removeThis == null {
        return false;
      }
      if removeThis.parent != this {
        return false;
      }
      ghost var was, k := Around(removeThis);
      if removeThis.next != null {
        removeThis.next.prev := removeThis.prev;
      } else {
        lastChild := removeThis.prev;
      }
      if removeThis.prev != null {
        removeThis.prev.next := removeThis.next;
      } else {
        firstChild := removeThis.next;
      }
      children := Spliced(was, k, 1, []);
      assert Valid() by {
        Rewired(this, was, k, 1, []);
        SplicedDistinct(was, k, 1, []);
        SplicedEnds(was, k, 1, []);
      }
      forall n: TiXmlNode | old(allocated(n)) && n != this && old(n.Valid())
        ensures n.Valid()
      {
        n.StaysValid();
      }
      return true;
    }

    method IterateChildren(previous: TiXmlNode?) returns (child: TiXmlNode?)
      requires Valid() && (previous != null ==> previous in children)
      ensures previous == null ==> child == At(children, 0)
      ensures forall i :: 0 <= i < |children| && children[i] == previous ==> child == At(children, i + 1)
    {
      if previous == null {
        child := firstChild;
      } else {
        child := previous.next;
        assert forall i :: 0 <= i < |children| && children[i] == previous ==> LinkedAt(this, children, i);
      }
    }

    /** The walk from the first child along `next`. */
    method WalkForward() returns (walk: seq<TiXmlNode>)
      requires Valid()
      ensures walk == children
    {
      walk := [];
      var node := firstChild;
      while node != null
        invariant |walk| <= |children| && walk == children[..|walk|] && node == At(children, |walk|)
        decreases |children| - |walk|
      {
        assert LinkedAt(this, children, |walk|);
        walk := walk + [node];
        node := node.next;
      }
    }

    /** The walk from the last child along `prev` is the same walk reversed. */
    method WalkBackward() returns (walk: seq<TiXmlNode>)
      requires Valid()
      ensures |walk| == |children| && forall i :: 0 <= i < |walk| ==> walk[i] == children[|children| - 1 - i]
    {
      walk := [];
      var node := lastChild;
      while node != null
        invariant |walk| <= |children| && node == At(children, |children| - 1 - |walk|)
        invariant forall i :: 0 <= i < |walk| ==> walk[i] == children[|children| - 1 - i]
        decreases |children| - |walk|
      {
        assert LinkedAt(this, children, |children| - 1 - |walk|);
        walk := walk + [node];
        node := node.prev;
      }
    }

    /** The first child with a value. */
    method FirstChild(wanted: Bytes) returns (found: TiXmlNode?)
      requires Valid()
      ensures found == null ==> forall c :: c in children ==> c.value != wanted
      ensures found != null ==> exists i :: 0 <= i < |children| && children[i] == found && found.value == wanted
                                            && forall j :: 0 <= j < i ==> children[j].value != wanted
    {
      ghost var i := 0;
      found := firstChild;
      while found != null
        invariant 0 <= i <= |children| && found == At(children, i)
        invariant forall j :: 0 <= j < i ==> children[j].value != wanted
        decreases |children| - i
      {
        if found.value == wanted {
          return;
        }
        assert LinkedAt(this, children, i);
        found := found.next;
        i := i + 1;
      }
    }

    /** The last child with a value. */
    method LastChild(wanted: Bytes) returns (found: TiXmlNode?)
      requires Valid()
      ensures found == null ==> forall c :: c in children ==> c.value != wanted
      ensures found != null ==> exists i :: 0 <= i < |children| && children[i] == found && found.value == wanted
                                            && forall j :: i < j < |children| ==> children[j].value != wanted
    {
      ghost var i := |children| - 1;
      found := lastChild;
      while found != null
        invariant -1 <= i < |children| && found == At(children, i)
        invariant forall j :: i < j < |children| ==> children[j].value != wanted
        decreases i + 1
      {
        if found.value == wanted {
          return;
        }
        assert LinkedAt(this, children, i);
        found := found.prev;
        i := i - 1;
      }
    }
  }

  ghost function FirstOr(nodes: seq<TiXmlNode>, other: TiXmlNode?): TiXmlNode? {
    if nodes == [] then other else nodes[0]
  }

  /** `after` is `before` with the nodes of `middle` in the place of `cut`
      nodes, `offset` after a given node. */
  ghost predicate Edited(before: seq<TiXmlNode>, after: seq<TiXmlNode>, near: TiXmlNode, offset: nat, cut: nat,
                         middle: seq<TiXmlNode>)
  {
    exists k: nat :: k < |before| && before[k] == near && k + offset + cut <= |before|
                     && after == Spliced(before, k + offset, cut, middle)
  }

  ghost predicate Distinct(nodes: seq<TiXmlNode>) {
    forall i, j :: 0 <= i < j < |nodes| ==> nodes[i] != nodes[j]
  }

  ghost predicate LinkedAt(parent: TiXmlNode, nodes: seq<TiXmlNode>, i: int)
    requires 0 <= i < |nodes|
    reads nodes[i]
  {
    && nodes[i].parent == parent
    && nodes[i].prev == At(nodes, i - 1)
    && nodes[i].next == At(nodes, i + 1)
  }

  /** The nodes with some `cut` at an index replaced by others. */
  ghost function Spliced(nodes: seq<TiXmlNode>, k: nat, cut: nat, middle: seq<TiXmlNode>): seq<TiXmlNode>
    requires k + cut <= |nodes|
  {
    nodes[..k] + middle + nodes[k + cut..]
  }

  lemma DistinctFrom(nodes: seq<TiXmlNode>, k: int)
    requires Distinct(nodes)
    ensures 0 <= k < |nodes| ==> forall i :: 0 <= i < |nodes| && i != k ==> nodes[i] != nodes[k]
  {
  }

  lemma SplicedLast(nodes: seq<TiXmlNode>, node: TiXmlNode)
    ensures Spliced(nodes, |nodes|, 0, [node]) == nodes + [node]
  {
  }

  lemma SplicedDistinct(nodes: seq<TiXmlNode>, k: nat, cut: nat, middle: seq<TiXmlNode>)
    requires Distinct(nodes) && k + cut <= |nodes| && |middle| <= 1
    requires forall m :: m in middle ==> m !in nodes
    ensures Distinct(Spliced(nodes, k, cut, middle))
  {
    hide Spliced;
    var all := Spliced(nodes, k, cut, middle);
    forall i, j | 0 <= i < j < |all|
      ensures all[i] != all[j]
    {
      SplicedAt(nodes, k, cut, middle, i);
      SplicedAt(nodes, k, cut, middle, j);
      assert all[i] in (if k <= i < k + |middle| then middle else nodes);
      assert all[j] in (if k <= j < k + |middle| then middle else nodes);
    }
  }

  lemma SplicedAt(nodes: seq<TiXmlNode>, k: nat, cut: nat, middle: seq<TiXmlNode>, i: nat)
    requires k + cut <= |nodes| && i < |Spliced(nodes, k, cut, middle)|
    ensures |Spliced(nodes, k, cut, middle)| == |nodes| - cut + |middle|
    ensures i < k ==> Spliced(nodes, k, cut, middle)[i] == nodes[i]
    ensures k <= i < k + |middle| ==> Spliced(nodes, k, cut, middle)[i] == middle[i - k]
    ensures k + |middle| <= i ==> Spliced(nodes, k, cut, middle)[i] == nodes[i - |middle| + cut]
  {
  }

  lemma SplicedEnds(nodes: seq<TiXmlNode>, k: nat, cut: nat, middle: seq<TiXmlNode>)
    requires k + cut <= |nodes|
    ensures var all := Spliced(nodes, k, cut, middle);
            && At(all, 0) == (if k > 0 then nodes[0] else if middle != [] then middle[0] else At(nodes, cut))
            && At(all, |all| - 1) == (if k + cut < |nodes| then nodes[|nodes| - 1]
                                      else if middle != [] then middle[|middle| - 1] else At(nodes, k - 1))
            && forall m :: m in all ==> m in nodes || m in middle
  {
  }

  /** What rewiring around a cut must do, and that it is enough. */
  twostate lemma Rewired(new p: TiXmlNode, new nodes: seq<TiXmlNode>, new k: nat, new cut: nat,
                         new middle: seq<TiXmlNode>)
    requires k + cut <= |nodes| && |middle| <= 1
    requires old(allocated(p)) && old(allocated(nodes))
    requires forall i :: 0 <= i < |nodes| ==> old(LinkedAt(p, nodes, i))
    requires forall i :: 0 <= i < |nodes| && !(k <= i < k + cut) ==> nodes[i].parent == old(nodes[i].parent)
    requires forall i :: 0 <= i < |nodes| && !(k <= i <= k + cut) ==> nodes[i].prev == old(nodes[i].prev)
    requires forall i :: 0 <= i < |nodes| && !(k - 1 <= i < k + cut) ==> nodes[i].next == old(nodes[i].next)
    requires k > 0 ==> nodes[k - 1].next == FirstOr(middle, At(nodes, k + cut))
    requires k + cut < |nodes| ==> nodes[k + cut].prev == FirstOr(middle, At(nodes, k - 1))
    requires middle != [] ==>
               && middle[0].parent == p
               && middle[0].prev == At(nodes, k - 1) && middle[0].next == At(nodes, k + cut)
    ensures forall i :: 0 <= i < |Spliced(nodes, k, cut, middle)| ==> LinkedAt(p, Spliced(nodes, k, cut, middle), i)
  {
    var all := Spliced(nodes, k, cut, middle);
    forall i | 0 <= i < |all|
      ensures LinkedAt(p, all, i)
    {
      if i < k {
        assert all[i] == nodes[i] && old(LinkedAt(p, nodes, i));
      } else if i >= k + |middle| {
        var j := i - |middle| + cut;
        assert all[i] == nodes[j] && old(LinkedAt(p, nodes, j));
      }
    }
  }

  /** The nodes of `s` hold the whole of a tree of some depth below a node, and
      every list in it is well linked.  A document is never a child. */
  ghost predicate Subtree(n: TiXmlNode, depth: nat, s: set<TiXmlNode>)
    reads s
    decreases depth
  {
    && n in s
    && (forall c :: c in n.children ==> c in s)
    && n.Valid()
    && (n.children != [] ==> depth > 0)
    && (forall i :: 0 <= i < |n.children| ==> !n.children[i].isDocument && Subtree(n.children[i], depth - 1, s))
  }

  ghost function TreeOf(n: TiXmlNode, depth: nat, s: set<TiXmlNode>): Tree
    requires Subtree(n, depth, s)
    reads s
    decreases depth
  {
    Tree(n.isDocument, n.Own(),
         seq(|n.children|, i requires 0 <= i < |n.children| && depth > 0 &&
             Subtree(n.children[i], depth - 1, s) reads s =>
                             TreeOf(n.children[i], depth - 1, s)))
  }

  lemma SubtreeRoot(n: TiXmlNode, depth: nat, s: set<TiXmlNode>)
    requires Subtree(n, depth, s)
    ensures n in s && n.Valid() && (n.children != [] ==> depth > 0)
    ensures TreeOf(n, depth, s).own == n.Own() && TreeOf(n, depth, s).isDocument == n.isDocument
  {
  }

  lemma SubtreeChildren(n: TiXmlNode, depth: nat, s: set<TiXmlNode>)
    requires Subtree(n, depth, s)
    ensures n.children != [] ==> depth > 0
    ensures forall i :: 0 <= i < |n.children| ==> !n.children[i].isDocument && Subtree(n.children[i], depth - 1, s)
  {
  }

  lemma {:induction false} SubtreeGrows(n: TiXmlNode, depth: nat, s: set<TiXmlNode>, t: set<TiXmlNode>)
    requires Subtree(n, depth, s) && s <= t
    ensures Subtree(n, depth, t) && TreeOf(n, depth, t) == TreeOf(n, depth, s)
    decreases depth
  {
    forall i | 0 <= i < |n.children|
      ensures Subtree(n.children[i], depth - 1, t)
      ensures TreeOf(n.children[i], depth - 1, t) == TreeOf(n.children[i], depth - 1, s)
    {
      SubtreeGrows(n.children[i], depth - 1, s, t);
    }
  }

  /** A tree whose lists stay valid, with the same children and contents. */
  twostate lemma {:induction false} SubtreeKept(new n: TiXmlNode, new depth: nat, new s: set<TiXmlNode>)
    requires old(allocated(n)) && old(allocated(s))
    requires old(Subtree(n, depth, s))
    requires forall m :: m in s && old(m.Valid()) ==> m.Valid()
    requires forall m :: m in s ==> m.children == old(m.children) && m.Own() == old(m.Own())
    ensures Subtree(n, depth, s) && TreeOf(n, depth, s) == old(TreeOf(n, depth, s))
    decreases depth
  {
    forall i | 0 <= i < |n.children|
      ensures Subtree(n.children[i], depth - 1, s)
      ensures TreeOf(n.children[i], depth - 1, s) == old(TreeOf(n.children[i], depth - 1, s))
    {
      SubtreeKept(n.children[i], depth - 1, s);
    }
  }

  lemma AssignedUnfolds(attributes: seq<Attribute>, name: Bytes, value: Bytes)
    requires attributes != []
    ensures Assigned(attributes, name, value)
         == if attributes[0].name == name then [Attribute(name, value)] + attributes[1..]
            else attributes[..1] + Assigned(attributes[1..], name, value)
  {
  }

  /** The node at an index; null outside of the sequence. */
  ghost function At(nodes: seq<TiXmlNode>, i: int): TiXmlNode? {
    if 0 <= i < |nodes| then nodes[i] else null
  }
}
