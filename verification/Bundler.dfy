/** `bundler_pool`: lists of handlers in which an unbound handler stays, marked,
    until a flush takes it out. */
module Bundler {
  import opened Prelude

  type Id = nat

  /** An object and one of its member functions. */
  datatype Handler = Handler(obj: nat, address: nat)

  /** A list node: its identity, which its iterator is, and its contents. */
  datatype Entry = Entry(node: nat, handler: Handler, deleted: bool)

  /** The lists by id, the pending deletions, and the next unused node.  In
      what order deletions are pending does not matter here. */
  datatype State = State(pool: map<Id, seq<Entry>>, pending: multiset<(Id, nat)>, nextNode: nat)

  // ------------------------------------------------------------------ entries

  function ListOf(pool: map<Id, seq<Entry>>, id: Id): seq<Entry> {
    if id in pool then pool[id] else []
  }

  /** The handlers still bound, in bind order. */
  function Live(es: seq<Entry>): seq<Handler> {
    if es == [] then []
    else LiveHandler(es[0]) + Live(es[1..])
  }

  function LiveHandler(e: Entry): seq<Handler> {
    if e.deleted then [] else [e.handler]
  }

  /** How many dead entries a node has: one or none, in a list of distinct nodes. */
  function DeadCount(es: seq<Entry>, node: nat): nat {
    if es == [] then 0
    else (if es[0].deleted && es[0].node == node then 1 else 0) + DeadCount(es[1..], node)
  }

  /** How many entries of an object a node has. */
  function ObjectCount(es: seq<Entry>, obj: nat, node: nat): nat {
    if es == [] then 0
    else (if es[0].handler.obj == obj && es[0].node == node then 1 else 0) + ObjectCount(es[1..], obj, node)
  }

  /** The index of the first entry of a handler, dead or not. */
  function Find(es: seq<Entry>, h: Handler): (i: nat)
    ensures i <= |es|
    ensures i < |es| ==> es[i].handler == h
    ensures forall j :: 0 <= j < i ==> es[j].handler != h
  {
    if es == [] || es[0].handler == h then 0 else Find(es[1..], h) + 1
  }

  function Drop(es: seq<Entry>, i: nat): seq<Entry>
    requires i < |es|
  {
    es[..i] + es[i + 1..]
  }

  function Mark(es: seq<Entry>, i: nat): seq<Entry>
    requires i < |es|
  {
    es[..i] + [es[i].(deleted := true)] + es[i + 1..]
  }

  function MarkObject(es: seq<Entry>, obj: nat): seq<Entry> {
    if es == [] then []
    else [if es[0].handler.obj == obj then es[0].(deleted := true) else es[0]] + MarkObject(es[1..], obj)
  }

  ghost predicate ListOk(es: seq<Entry>, nextNode: nat) {
    && (forall i, j :: 0 <= i < j < |es| ==> es[i].node != es[j].node && es[i].handler != es[j].handler)
    && (forall i :: 0 <= i < |es| ==> es[i].node < nextNode)
  }

  // --------------------------------------------------------------- operations

  datatype Op =
    | Bind(id: Id, handler: Handler)
    | Unbind(id: Id, handler: Handler)
    | UnbindObject(obj: nat)
    | Reflush

  function BindState(s: State, id: Id, h: Handler): State {
    var entry := Entry(s.nextNode, h, false);
    var es := ListOf(s.pool, id);
    var i := Find(es, h);
    if i < |es| && !es[i].deleted then s
    else if i < |es| && (id, es[i].node) in s.pending then
      State(s.pool[id := Drop(es, i) + [entry]], s.pending - multiset{(id, es[i].node)}, s.nextNode + 1)
    else State(s.pool[id := es + [entry]], s.pending, s.nextNode + 1)
  }

  function UnbindState(s: State, id: Id, h: Handler): State {
    var es := ListOf(s.pool, id);
    var i := Find(es, h);
    if i == |es| then s
    else State(s.pool[id := Mark(es, i)], s.pending + multiset{(id, es[i].node)}, s.nextNode)
  }

  ghost predicate UnbindObjectStep(s: State, t: State, obj: nat) {
    && t.nextNode == s.nextNode && t.pool.Keys == s.pool.Keys
    && (forall id :: id in s.pool ==> t.pool[id] == MarkObject(s.pool[id], obj))
    && (forall id: Id, n: nat :: t.pending[(id, n)] == s.pending[(id, n)] + ObjectCount(ListOf(s.pool, id), obj, n))
  }

  /** A flush of pending deletions that name each dead entry once. */
  ghost predicate ReflushStep(s: State, t: State) {
    && t.nextNode == s.nextNode && t.pool.Keys == s.pool.Keys && t.pending == multiset{}
    && (forall id :: id in s.pool ==> t.pool[id] == WithoutDead(s.pool[id]))
  }

  function WithoutDead(es: seq<Entry>): seq<Entry> {
    if es == [] then []
    else Survivor(es[0]) + WithoutDead(es[1..])
  }

  function Survivor(e: Entry): seq<Entry> {
    if e.deleted then [] else [e]
  }

  ghost predicate Step(s: State, op: Op, t: State) {
    match op
    case Bind(id, h) => t == BindState(s, id, h)
    case Unbind(id, h) => t == UnbindState(s, id, h)
    case UnbindObject(obj) => UnbindObjectStep(s, t, obj)
    case Reflush => ReflushStep(s, t)
  }

  // ---------------------------------------------------------------- invariant

  /** Each dead entry is pending exactly once, and nothing else is. */
  ghost predicate PendingIsDead(s: State) {
    forall id: Id, n: nat :: s.pending[(id, n)] == DeadCount(ListOf(s.pool, id), n)
  }

  ghost predicate ListsOk(s: State) {
    forall id :: id in s.pool ==> ListOk(s.pool[id], s.nextNode)
  }

  ghost predicate Inv(s: State) {
    ListsOk(s) && PendingIsDead(s)
  }

  /** The operation does not unbind a handler that is unbound already. */
  ghost predicate NotTwice(s: State, op: Op) {
    match op
    case Unbind(id, h) =>
      var es := ListOf(s.pool, id);
      Find(es, h) < |es| ==> !es[Find(es, h)].deleted
    case UnbindObject(obj) =>
      forall id, i :: id in s.pool && 0 <= i < |s.pool[id]| && s.pool[id][i].handler.obj == obj ==>
             !s.pool[id][i].deleted
    case _ => true
  }

  // ------------------------------------------------------------------- lemmas

  lemma {:induction false} LiveConcat(a: seq<Entry>, b: seq<Entry>)
    ensures Live(a + b) == Live(a) + Live(b)
  {
    hide LiveHandler;
    if a == [] {
      assert a + b == b;
    } else {
      LiveConcat(a[1..], b);
      assert (a + b)[1..] == a[1..] + b;
      Reassociate(LiveHandler(a[0]), Live(a[1..]), Live(b));
    }
  }

  lemma {:induction false} DeadConcat(a: seq<Entry>, b: seq<Entry>, n: nat)
    ensures DeadCount(a + b, n) == DeadCount(a, n) + DeadCount(b, n)
  {
    if a == [] {
      assert a + b == b;
    } else {
      DeadConcat(a[1..], b, n);
      assert (a + b)[1..] == a[1..] + b;
    }
  }

  lemma LiveThree(a: seq<Entry>, e: Entry, b: seq<Entry>)
    ensures Live(a + [e] + b) == Live(a) + LiveHandler(e) + Live(b)
  {
    LiveConcat(a + [e], b);
    LiveConcat(a, [e]);
    LiveOne(e);
  }

  lemma DeadThree(a: seq<Entry>, e: Entry, b: seq<Entry>, n: nat)
    ensures DeadCount(a + [e] + b, n) == DeadCount(a, n) + (if e.deleted && e.node == n then 1 else 0) + DeadCount(b, n)
  {
    DeadConcat(a + [e], b, n);
    DeadConcat(a, [e], n);
    DeadOne(e, n);
  }

  lemma LiveOne(e: Entry)
    ensures Live([e]) == LiveHandler(e)
  {
  }

  lemma DeadOne(e: Entry, n: nat)
    ensures DeadCount([e], n) == if e.deleted && e.node == n then 1 else 0
  {
  }

  /** A list around one of its entries. */
  lemma Around(es: seq<Entry>, i: nat, n: nat)
    requires i < |es|
    ensures Live(es) == Live(es[..i]) + LiveHandler(es[i]) + Live(es[i + 1..])
    ensures Live(Drop(es, i)) == Live(es[..i]) + Live(es[i + 1..])
    ensures Live(Mark(es, i)) == Live(es[..i]) + Live(es[i + 1..])
    ensures DeadCount(es, n)
         == DeadCount(es[..i], n) + (if es[i].deleted && es[i].node == n then 1 else 0) + DeadCount(es[i + 1..], n)
    ensures DeadCount(Drop(es, i), n) == DeadCount(es[..i], n) + DeadCount(es[i + 1..], n)
    ensures DeadCount(Mark(es, i), n)
         == DeadCount(es[..i], n) + (if n == es[i].node then 1 else 0) + DeadCount(es[i + 1..], n)
  {
    hide Live, DeadCount;
    var a, e, b := es[..i], es[i], es[i + 1..];
    assert es == a + [e] + b;
    LiveThree(a, e, b);
    DeadThree(a, e, b, n);
    LiveThree(a, e.(deleted := true), b);
    DeadThree(a, e.(deleted := true), b, n);
    LiveConcat(a, b);
    DeadConcat(a, b, n);
  }

  lemma FirstEntry(es: seq<Entry>, h: Handler)
    requires es != []
    ensures h in Live(es) <==> (!es[0].deleted && es[0].handler == h) || h in Live(es[1..])
    ensures Find(es, h) == if es[0].handler == h then 0 else Find(es[1..], h) + 1
  {
    assert forall x :: x in Live(es) <==> x in LiveHandler(es[0]) || x in Live(es[1..]);
  }

  /** A handler is live in a list exactly when its first entry is. */
  lemma {:induction false} LiveIffFound(es: seq<Entry>, h: Handler, nextNode: nat)
    requires ListOk(es, nextNode)
    ensures h in Live(es) <==> Find(es, h) < |es| && !es[Find(es, h)].deleted
  {
    if es != [] {
      hide *;
      TailKeepsList(es, nextNode);
      FirstEntry(es, h);
      if es[0].handler == h {
        LiveFrom(es[1..], h);
      } else {
        LiveIffFound(es[1..], h, nextNode);
      }
    }
  }

  function Without(hs: seq<Handler>, h: Handler): seq<Handler> {
    if hs == [] then [] else Unless(hs[0], h) + Without(hs[1..], h)
  }

  function Unless(x: Handler, h: Handler): seq<Handler> {
    if x == h then [] else [x]
  }

  function WithoutObject(hs: seq<Handler>, obj: nat): seq<Handler> {
    if hs == [] then [] else (if hs[0].obj == obj then [] else [hs[0]]) + WithoutObject(hs[1..], obj)
  }

  lemma {:induction false} WithoutConcat(a: seq<Handler>, b: seq<Handler>, h: Handler)
    ensures Without(a + b, h) == Without(a, h) + Without(b, h)
  {
    hide Unless;
    if a == [] {
      assert a + b == b;
    } else {
      WithoutConcat(a[1..], b, h);
      assert (a + b)[1..] == a[1..] + b;
      Reassociate(Unless(a[0], h), Without(a[1..], h), Without(b, h));
    }
  }

  lemma {:induction false} WithoutAbsent(hs: seq<Handler>, h: Handler)
    requires h !in hs
    ensures Without(hs, h) == hs
  {
    if hs != [] {
      WithoutAbsent(hs[1..], h);
    }
  }

  lemma {:induction false} LiveFrom(es: seq<Entry>, h: Handler)
    requires forall e :: e in es ==> e.handler != h
    ensures h !in Live(es)
  {
    if es != [] {
      LiveFrom(es[1..], h);
    }
  }

  /** Marking the entry of a handler, dead or alive, unbinds it alone. */
  lemma MarkUnbinds(es: seq<Entry>, h: Handler, nextNode: nat)
    requires ListOk(es, nextNode) && Find(es, h) < |es|
    ensures Live(Mark(es, Find(es, h))) == Without(Live(es), h)
  {
    hide Live, Without, Mark, ListOk;
    var i := Find(es, h);
    Around(es, i, 0);
    var a, e, b := es[..i], es[i], es[i + 1..];
    LiveFrom(a, h);
    assert forall e :: e in b ==> e.handler != h by {
      OthersDiffer(es, i, nextNode);
    }
    LiveFrom(b, h);
    WithoutAbsent(Live(a), h);
    WithoutAbsent(Live(b), h);
    WithoutConcat(Live(a) + LiveHandler(e), Live(b), h);
    WithoutConcat(Live(a), LiveHandler(e), h);
    WithoutSelf(e);
  }

  lemma WithoutSelf(e: Entry)
    ensures Without(LiveHandler(e), e.handler) == []
  {
  }

  lemma OthersDiffer(es: seq<Entry>, i: nat, nextNode: nat)
    requires ListOk(es, nextNode) && i < |es|
    ensures forall j :: 0 <= j < |es| && j != i ==> es[j].handler != es[i].handler && es[j].node != es[i].node
    ensures forall e :: e in es[i + 1..] ==> e.handler != es[i].handler
  {
  }

  lemma MarkKeepsList(es: seq<Entry>, i: nat, nextNode: nat)
    requires ListOk(es, nextNode) && i < |es|
    ensures ListOk(Mark(es, i), nextNode)
  {
    assert forall j :: 0 <= j < |es| ==> Mark(es, i)[j] == es[j].(deleted := Mark(es, i)[j].deleted);
  }

  lemma DropKeepsList(es: seq<Entry>, i: nat, nextNode: nat)
    requires ListOk(es, nextNode) && i < |es|
    ensures ListOk(Drop(es, i), nextNode)
    ensures forall e :: e in Drop(es, i) ==> e.handler != es[i].handler
  {
    assert forall j :: 0 <= j < |es| - 1 ==> Drop(es, i)[j] == es[if j < i then j else j + 1];
  }

  lemma AppendKeepsList(es: seq<Entry>, h: Handler, nextNode: nat)
    requires ListOk(es, nextNode) && forall e :: e in es ==> e.handler != h
    ensures ListOk(es + [Entry(nextNode, h, false)], nextNode + 1)
  {
  }

  lemma AppendLive(es: seq<Entry>, e: Entry, n: nat)
    requires !e.deleted
    ensures Live(es + [e]) == Live(es) + [e.handler]
    ensures DeadCount(es + [e], n) == DeadCount(es, n)
  {
    LiveConcat(es, [e]);
    DeadConcat(es, [e], n);
  }

  // ----------------------------------------------------- marking a whole object

  lemma {:induction false} MarkObjectAt(es: seq<Entry>, obj: nat)
    ensures |MarkObject(es, obj)| == |es|
    ensures forall i :: 0 <= i < |es| ==>
              MarkObject(es, obj)[i] == if es[i].handler.obj == obj then es[i].(deleted := true) else es[i]
  {
    if es != [] {
      MarkObjectAt(es[1..], obj);
    }
  }

  lemma MarkObjectKeepsList(es: seq<Entry>, obj: nat, nextNode: nat)
    requires ListOk(es, nextNode)
    ensures ListOk(MarkObject(es, obj), nextNode)
  {
    MarkObjectAt(es, obj);
  }

  lemma {:induction false} MarkObjectUnbinds(es: seq<Entry>, obj: nat)
    ensures Live(MarkObject(es, obj)) == WithoutObject(Live(es), obj)
  {
    if es != [] {
      MarkObjectUnbinds(es[1..], obj);
      var first := if es[0].handler.obj == obj then es[0].(deleted := true) else es[0];
      assert MarkObject(es, obj)[1..] == MarkObject(es[1..], obj) && MarkObject(es, obj)[0] == first;
      if es[0].deleted {
        assert Live(es) == Live(es[1..]);
      } else {
        assert Live(es)[1..] == Live(es[1..]) && Live(es)[0] == es[0].handler;
      }
    }
  }

  /** No entry of the object in the node is dead. */
  ghost predicate NoneDeadOf(es: seq<Entry>, obj: nat, n: nat) {
    forall e :: e in es && e.handler.obj == obj && e.node == n ==> !e.deleted
  }

  /** Counting marked entries again: right exactly when none was dead before. */
  lemma {:induction false} MarkObjectCounts(es: seq<Entry>, obj: nat, n: nat)
    ensures DeadCount(MarkObject(es, obj), n) <= DeadCount(es, n) + ObjectCount(es, obj, n)
    ensures NoneDeadOf(es, obj, n)
       <==> DeadCount(MarkObject(es, obj), n) == DeadCount(es, n) + ObjectCount(es, obj, n)
  {
    if es != [] {
      MarkObjectCounts(es[1..], obj, n);
      var first := if es[0].handler.obj == obj then es[0].(deleted := true) else es[0];
      assert MarkObject(es, obj)[1..] == MarkObject(es[1..], obj) && MarkObject(es, obj)[0] == first;
      assert forall e :: e in es <==> e == es[0] || e in es[1..];
      assert NoneDeadOf(es, obj, n) <==>
             NoneDeadOf(es[1..], obj, n) && (es[0].handler.obj == obj && es[0].node == n ==> !es[0].deleted);
    }
  }

  // ---------------------------------------------------------------- flushing

  lemma {:induction false} WithoutDeadMembers(es: seq<Entry>)
    ensures forall e :: e in WithoutDead(es) <==> e in es && !e.deleted
  {
    if es != [] {
      WithoutDeadMembers(es[1..]);
      assert forall e :: e in es <==> e == es[0] || e in es[1..];
    }
  }

  lemma {:induction false} WithoutDeadFacts(es: seq<Entry>, n: nat)
    ensures Live(WithoutDead(es)) == Live(es)
    ensures DeadCount(WithoutDead(es), n) == 0
  {
    if es != [] {
      WithoutDeadFacts(es[1..], n);
      var rest := WithoutDead(es[1..]);
      if es[0].deleted {
        assert WithoutDead(es) == rest;
      } else {
        assert WithoutDead(es) == [es[0]] + rest && ([es[0]] + rest)[1..] == rest;
      }
    }
  }

  lemma ConsKeepsList(e: Entry, rest: seq<Entry>, nextNode: nat)
    requires ListOk(rest, nextNode) && e.node < nextNode
    requires forall x :: x in rest ==> x.node != e.node && x.handler != e.handler
    ensures ListOk([e] + rest, nextNode)
  {
  }

  lemma TailKeepsList(es: seq<Entry>, nextNode: nat)
    requires ListOk(es, nextNode) && es != []
    ensures ListOk(es[1..], nextNode) && es[0].node < nextNode
    ensures forall x :: x in es[1..] ==> x.node != es[0].node && x.handler != es[0].handler
  {
  }

  lemma {:induction false} WithoutDeadKeepsList(es: seq<Entry>, nextNode: nat)
    requires ListOk(es, nextNode)
    ensures ListOk(WithoutDead(es), nextNode)
  {
    hide ListOk;
    if es != [] {
      TailKeepsList(es, nextNode);
      WithoutDeadKeepsList(es[1..], nextNode);
      WithoutDeadMembers(es[1..]);
      var rest := WithoutDead(es[1..]);
      if es[0].deleted {
        assert WithoutDead(es) == rest;
      } else {
        ConsKeepsList(es[0], rest, nextNode);
      }
    } else {
      assert WithoutDead(es) == es;
    }
  }

  lemma {:induction false} WithoutDeadConcat(a: seq<Entry>, b: seq<Entry>)
    ensures WithoutDead(a + b) == WithoutDead(a) + WithoutDead(b)
  {
    hide Survivor;
    if a == [] {
      assert a + b == b;
    } else {
      WithoutDeadConcat(a[1..], b);
      assert (a + b)[1..] == a[1..] + b;
      Reassociate(Survivor(a[0]), WithoutDead(a[1..]), WithoutDead(b));
    }
  }

  lemma DropDead(es: seq<Entry>, i: nat)
    requires i < |es| && es[i].deleted
    ensures WithoutDead(Drop(es, i)) == WithoutDead(es)
  {
    var a, e, b := es[..i], es[i], es[i + 1..];
    assert es == a + [e] + b;
    WithoutDeadConcat(a + [e], b);
    WithoutDeadConcat(a, [e]);
    WithoutDeadConcat(a, b);
  }

  lemma {:induction false} NoneDead(es: seq<Entry>)
    requires forall n: nat :: DeadCount(es, n) == 0
    ensures WithoutDead(es) == es
  {
    if es != [] {
      forall n: nat
        ensures DeadCount(es[1..], n) == 0
      {
        assert DeadCount(es, n) == 0;
      }
      assert DeadCount(es, es[0].node) == 0;
      NoneDead(es[1..]);
    }
  }

  // ------------------------------------------------------------ main results

  /** What a subscriber sees: what each operation does to the handlers bound to
      an id, had deletion been immediate. */
  function Immediate(bound: seq<Handler>, id: Id, op: Op): seq<Handler> {
    match op
    case Bind(i, h) => if i == id && h !in bound then bound + [h] else bound
    case Unbind(i, h) => if i == id then Without(bound, h) else bound
    case UnbindObject(obj) => WithoutObject(bound, obj)
    case Reflush => bound
  }

  /** Deferred deletion is invisible. */
  ghost predicate LooksImmediate(s: State, op: Op, t: State) {
    forall id :: Live(ListOf(t.pool, id)) == Immediate(Live(ListOf(s.pool, id)), id, op)
  }

  lemma InvAt(s: State, id: Id, n: nat)
    requires Inv(s)
    ensures ListOk(ListOf(s.pool, id), s.nextNode) && s.pending[(id, n)] == DeadCount(ListOf(s.pool, id), n)
  {
    hide DeadCount;
  }

  /** What binding does to the list of the id. */
  lemma BindList(s: State, id: Id, h: Handler, n: nat)
    requires Inv(s)
    ensures var es, t := ListOf(s.pool, id), BindState(s, id, h);
            var after := ListOf(t.pool, id);
            && ListOk(after, t.nextNode)
            && Live(after) == Immediate(Live(es), id, Bind(id, h))
            && t.pending[(id, n)] == DeadCount(after, n)
  {
    hide Inv, ListOk, Live, DeadCount, Drop, Find;
    var es := ListOf(s.pool, id);
    var i := Find(es, h);
    InvAt(s, id, n);
    LiveIffFound(es, h, s.nextNode);
    if i < |es| && es[i].deleted {
      InvAt(s, id, es[i].node);
      DeadIsCounted(es, i);
      ReplaceDead(es, i, s.nextNode, n);
    } else if i == |es| {
      AppendNew(es, h, s.nextNode, n);
    }
  }

  /** Binding a handler whose entry is dead. */
  lemma ReplaceDead(es: seq<Entry>, i: nat, nextNode: nat, n: nat)
    requires ListOk(es, nextNode) && i < |es| && es[i].deleted
    ensures var after := Drop(es, i) + [Entry(nextNode, es[i].handler, false)];
            && ListOk(after, nextNode + 1)
            && Live(after) == Live(es) + [es[i].handler]
            && DeadCount(after, n) == DeadCount(es, n) - if n == es[i].node then 1 else 0
  {
    hide ListOk, Live, DeadCount, Drop;
    Around(es, i, n);
    DropKeepsList(es, i, nextNode);
    AppendKeepsList(Drop(es, i), es[i].handler, nextNode);
    AppendLive(Drop(es, i), Entry(nextNode, es[i].handler, false), n);
  }

  /** Binding a handler that has no entry. */
  lemma AppendNew(es: seq<Entry>, h: Handler, nextNode: nat, n: nat)
    requires ListOk(es, nextNode) && forall i :: 0 <= i < |es| ==> es[i].handler != h
    ensures var after := es + [Entry(nextNode, h, false)];
            && ListOk(after, nextNode + 1) && Live(after) == Live(es) + [h] && DeadCount(after, n) == DeadCount(es, n)
  {
    hide ListOk, Live, DeadCount;
    AppendKeepsList(es, h, nextNode);
    AppendLive(es, Entry(nextNode, h, false), n);
  }

  lemma ListOkGrows(es: seq<Entry>, nextNode: nat, more: nat)
    requires ListOk(es, nextNode) && nextNode <= more
    ensures ListOk(es, more)
  {
  }

  /** Binding what is bound does nothing; binding what is dead takes the dead
      entry out; and nothing is seen but the new handler at the end. */
  lemma BindStep(s: State, id: Id, h: Handler)
    requires Inv(s)
    ensures Inv(BindState(s, id, h)) && LooksImmediate(s, Bind(id, h), BindState(s, id, h))
  {
    hide ListOk, Live, DeadCount, Find, Drop;
    var t := BindState(s, id, h);
    BindList(s, id, h, 0);
    forall other | other in s.pool
      ensures ListOk(s.pool[other], t.nextNode)
    {
      ListOkGrows(s.pool[other], s.nextNode, t.nextNode);
    }
    assert forall other :: other != id ==> ListOf(t.pool, other) == ListOf(s.pool, other);
    forall other: Id, n: nat
      ensures t.pending[(other, n)] == DeadCount(ListOf(t.pool, other), n)
    {
      if other == id {
        BindList(s, id, h, n);
      }
    }
  }

  lemma MarkCounts(es: seq<Entry>, i: nat, n: nat)
    requires i < |es|
    ensures DeadCount(Mark(es, i), n) == DeadCount(es, n) + if n == es[i].node && !es[i].deleted then 1 else 0
  {
    hide Live, DeadCount, Mark;
    Around(es, i, n);
  }

  /** Marking an entry and adding it to the pending ones. */
  lemma MarkStep(s: State, id: Id, i: nat)
    requires Inv(s) && i < |ListOf(s.pool, id)|
    ensures var es := ListOf(s.pool, id);
            var t := State(s.pool[id := Mark(es, i)], s.pending + multiset{(id, es[i].node)}, s.nextNode);
            ListsOk(t) && (PendingIsDead(t) <==> !es[i].deleted)
  {
    hide ListOk, DeadCount, Mark;
    var es := ListOf(s.pool, id);
    var t := State(s.pool[id := Mark(es, i)], s.pending + multiset{(id, es[i].node)}, s.nextNode);
    MarkKeepsList(es, i, s.nextNode);
    MarkCounts(es, i, es[i].node);
    assert t.pending[(id, es[i].node)] == DeadCount(ListOf(t.pool, id), es[i].node) <==> !es[i].deleted;
    if !es[i].deleted {
      forall other: Id, n: nat
        ensures t.pending[(other, n)] == DeadCount(ListOf(t.pool, other), n)
      {
        assert s.pending[(other, n)] == DeadCount(ListOf(s.pool, other), n);
        MarkCounts(es, i, n);
      }
    }
  }

  /** Unbinding is seen at once; it keeps the invariant exactly when the
      handler is not dead already. */
  lemma UnbindStep(s: State, id: Id, h: Handler)
    requires Inv(s)
    ensures LooksImmediate(s, Unbind(id, h), UnbindState(s, id, h))
    ensures Inv(UnbindState(s, id, h)) <==> NotTwice(s, Unbind(id, h))
  {
    hide ListOk, Live, DeadCount, Mark, Without, PendingIsDead;
    var t := UnbindState(s, id, h);
    var es := ListOf(s.pool, id);
    var i := Find(es, h);
    if i == |es| {
      LiveFrom(es, h);
      WithoutAbsent(Live(es), h);
    } else {
      MarkStep(s, id, i);
      MarkUnbinds(es, h, s.nextNode);
    }
    assert forall other :: other != id ==> ListOf(t.pool, other) == ListOf(s.pool, other);
  }

  lemma UnbindObjectIsStep(s: State, t: State, obj: nat)
    requires Inv(s) && UnbindObjectStep(s, t, obj)
    ensures LooksImmediate(s, UnbindObject(obj), t)
    ensures Inv(t) <==> NotTwice(s, UnbindObject(obj))
  {
    hide ListOk, Live, DeadCount, ObjectCount, MarkObject, WithoutObject;
    forall id
      ensures ListOf(t.pool, id) == MarkObject(ListOf(s.pool, id), obj)
      ensures Live(ListOf(t.pool, id)) == WithoutObject(Live(ListOf(s.pool, id)), obj)
    {
      MarkObjectUnbinds(ListOf(s.pool, id), obj);
      MarkObjectAt(ListOf(s.pool, id), obj);
    }
    forall id | id in s.pool
      ensures ListOk(t.pool[id], t.nextNode)
    {
      MarkObjectKeepsList(s.pool[id], obj, s.nextNode);
    }
    forall id: Id, n: nat
      ensures NoneDeadOf(ListOf(s.pool, id), obj, n)
         <==> t.pending[(id, n)] == DeadCount(ListOf(t.pool, id), n)
    {
      MarkObjectCounts(ListOf(s.pool, id), obj, n);
    }
    if !NotTwice(s, UnbindObject(obj)) {
      var id, i :| id in s.pool && 0 <= i < |s.pool[id]| && s.pool[id][i].handler.obj == obj && s.pool[id][i].deleted;
      var e := s.pool[id][i];
      assert e in ListOf(s.pool, id);
      assert t.pending[(id, e.node)] != DeadCount(ListOf(t.pool, id), e.node);
    }
  }

  lemma ReflushIsStep(s: State, t: State)
    requires Inv(s) && ReflushStep(s, t)
    ensures Inv(t) && LooksImmediate(s, Reflush, t)
  {
    forall id: Id, n: nat
      ensures ListOf(t.pool, id) == WithoutDead(ListOf(s.pool, id))
      ensures Live(ListOf(t.pool, id)) == Live(ListOf(s.pool, id))
      ensures DeadCount(ListOf(t.pool, id), n) == 0
    {
      WithoutDeadFacts(ListOf(s.pool, id), n);
    }
    forall id | id in s.pool
      ensures ListOk(t.pool[id], t.nextNode)
    {
      WithoutDeadKeepsList(s.pool[id], s.nextNode);
    }
    assert forall id: Id :: t.pending[(id, 0)] == DeadCount(ListOf(t.pool, id), 0);
    forall id: Id
      ensures Live(ListOf(t.pool, id)) == Immediate(Live(ListOf(s.pool, id)), id, Reflush)
    {
      assert t.pending[(id, 0)] == 0;
    }
  }

  // -------------------------------------------------------------------- runs

  lemma StepKeeps(s: State, op: Op, t: State)
    requires Inv(s) && Step(s, op, t) && NotTwice(s, op)
    ensures Inv(t) && LooksImmediate(s, op, t)
  {
    hide Inv, LooksImmediate, NotTwice;
    match op
    case Bind(id, h) => BindStep(s, id, h);
    case Unbind(id, h) => UnbindStep(s, id, h);
    case UnbindObject(obj) => UnbindObjectIsStep(s, t, obj);
    case Reflush => ReflushIsStep(s, t);
  }

  /** A run: the states between operations, none of which unbinds a handler
      that is unbound and neither flushed nor bound again since. */
  ghost predicate Run(states: seq<State>, ops: seq<Op>) {
    && |states| == |ops| + 1
    && states[0] == State(map[], multiset{}, 0)
    && forall i :: 0 <= i < |ops| ==> Step(states[i], ops[i], states[i + 1]) && NotTwice(states[i], ops[i])
  }

  /** The handlers bound to an id after some operations, had every deletion
      been immediate. */
  function Bound(ops: seq<Op>, id: Id): seq<Handler> {
    if ops == [] then [] else Immediate(Bound(ops[..|ops| - 1], id), id, ops[|ops| - 1])
  }

  /** After any run the delete list names each dead entry exactly once, and the
      live handlers of every id are those of immediate deletion, in bind order. */
  lemma {:induction false} EveryRun(states: seq<State>, ops: seq<Op>, id: Id)
    requires Run(states, ops)
    ensures Inv(states[|ops|])
    ensures Live(ListOf(states[|ops|].pool, id)) == Bound(ops, id)
    decreases |ops|
  {
    if ops != [] {
      var n := |ops| - 1;
      assert Run(states[..|ops|], ops[..n]);
      EveryRun(states[..|ops|], ops[..n], id);
      assert Step(states[n], ops[n], states[n + 1]) && NotTwice(states[n], ops[n]);
      hide Inv, Step, NotTwice, Run, Live;
      StepKeeps(states[n], ops[n], states[n + 1]);
    }
  }

  lemma BoundOnce(id: Id, h: Handler)
    ensures BindState(State(map[], multiset{}, 0), id, h) == State(map[id := [Entry(0, h, false)]], multiset{}, 1)
  {
    assert [] + [Entry(0, h, false)] == [Entry(0, h, false)];
  }

  lemma UnboundOnce(id: Id, h: Handler, deleted: bool, pending: multiset<(Id, nat)>)
    ensures UnbindState(State(map[id := [Entry(0, h, deleted)]], pending, 1), id, h)
         == State(map[id := [Entry(0, h, true)]], pending + multiset{(id, 0)}, 1)
  {
    assert Mark([Entry(0, h, deleted)], 0) == [Entry(0, h, true)];
  }

  lemma PendingTwice(id: Id, h: Handler)
    ensures !Inv(State(map[id := [Entry(0, h, true)]], multiset{(id, 0), (id, 0)}, 1))
  {
    var s := State(map[id := [Entry(0, h, true)]], multiset{(id, 0), (id, 0)}, 1);
    assert s.pending[(id, 0)] == 2 && DeadCount(ListOf(s.pool, id), 0) == 1;
  }

  /** Unbinding twice is within reach: after one binding and two unbindings the
      node of the handler is pending twice, and it is there once. */
  lemma DoubleUnbindWitness(id: Id, h: Handler)
    ensures var s0 := State(map[], multiset{}, 0);
            var s1 := BindState(s0, id, h);
            var s2 := UnbindState(s1, id, h);
            var s3 := UnbindState(s2, id, h);
            && Run([s0, s1, s2], [Bind(id, h), Unbind(id, h)])
            && Step(s2, Unbind(id, h), s3) && !NotTwice(s2, Unbind(id, h))
            && ListOf(s3.pool, id) == [Entry(0, h, true)]
            && s3.pending == multiset{(id, 0), (id, 0)} && !Inv(s3)
  {
    hide BindState, UnbindState, Inv, ListsOk;
    var s0, s1 := State(map[], multiset{}, 0), State(map[id := [Entry(0, h, false)]], multiset{}, 1);
    var s2 := State(map[id := [Entry(0, h, true)]], multiset{(id, 0)}, 1);
    BoundOnce(id, h);
    UnboundOnce(id, h, false, multiset{});
    UnboundOnce(id, h, true, s2.pending);
    assert multiset{(id, 0)} + multiset{(id, 0)} == multiset{(id, 0), (id, 0)};
    PendingTwice(id, h);
    var states, ops := [s0, s1, s2], [Bind(id, h), Unbind(id, h)];
    forall i | 0 <= i < |ops|
      ensures Step(states[i], ops[i], states[i + 1]) && NotTwice(states[i], ops[i])
    {
    }
  }

  // ------------------------------------------------------------------- class

  lemma RemoveOne<T>(s: seq<T>, k: nat)
    requires k < |s|
    ensures multiset(s[..k] + s[k + 1..]) == multiset(s) - multiset{s[k]}
  {
    assert s == s[..k] + [s[k]] + s[k + 1..];
  }

  lemma {:induction false} MarkObjectGrows(es: seq<Entry>, obj: nat, j: nat)
    requires j < |es|
    ensures MarkObject(es[..j + 1], obj)
         == MarkObject(es[..j], obj) + [if es[j].handler.obj == obj then es[j].(deleted := true) else es[j]]
  {
    if j > 0 {
      MarkObjectGrows(es[1..], obj, j - 1);
      assert es[..j + 1][1..] == es[1..][..j] && es[..j][1..] == es[1..][..j - 1];
    }
  }

  lemma {:induction false} ObjectCountGrows(es: seq<Entry>, obj: nat, j: nat, n: nat)
    requires j < |es|
    ensures ObjectCount(es[..j + 1], obj, n)
         == ObjectCount(es[..j], obj, n) + if es[j].handler.obj == obj && es[j].node == n then 1 else 0
  {
    if j > 0 {
      ObjectCountGrows(es[1..], obj, j - 1, n);
      assert es[..j + 1][1..] == es[1..][..j] && es[..j][1..] == es[1..][..j - 1];
    }
  }

  lemma {:induction false} LiveGrows(es: seq<Entry>, j: nat)
    requires j < |es|
    ensures Live(es[..j + 1]) == Live(es[..j]) + LiveHandler(es[j])
  {
    assert es[..j + 1] == es[..j] + [es[j]];
    LiveConcat(es[..j], [es[j]]);
    LiveOne(es[j]);
  }

  lemma Empty(obj: nat, n: nat, h: Handler, nextNode: nat)
    ensures MarkObject([], obj) == [] && ObjectCount([], obj, n) == 0 && Live([]) == []
    ensures Find([], h) == 0 && ListOk([], nextNode)
  {
  }

  /** The index of a node, which an iterator leads to. */
  function NodeIndex(es: seq<Entry>, node: nat): (i: nat)
    ensures i <= |es|
    ensures i < |es| ==> es[i].node == node
    ensures forall j :: 0 <= j < i ==> es[j].node != node
  {
    if es == [] || es[0].node == node then 0 else NodeIndex(es[1..], node) + 1
  }

  lemma {:induction false} CountedIsThere(es: seq<Entry>, node: nat)
    requires DeadCount(es, node) > 0
    ensures exists e :: e in es && e.node == node && e.deleted
  {
    if !(es[0].deleted && es[0].node == node) {
      CountedIsThere(es[1..], node);
      var e :| e in es[1..] && e.node == node && e.deleted;
      assert e in es;
    } else {
      assert es[0] in es;
    }
  }

  lemma NoDeadInEmpty(n: nat)
    ensures DeadCount([], n) == 0
  {
  }

  lemma PendingIsThere(es: seq<Entry>, node: nat, nextNode: nat)
    requires ListOk(es, nextNode) && DeadCount(es, node) > 0
    ensures NodeIndex(es, node) < |es| && es[NodeIndex(es, node)].deleted
  {
    CountedIsThere(es, node);
    var e :| e in es && e.node == node && e.deleted;
    var k: nat :| k < |es| && es[k] == e;
  }

  /** A pending deletion names a node that is there, and dead; taking both out
      keeps the invariant. */
  lemma EraseStep(s: State, id: Id, node: nat)
    requires Inv(s) && (id, node) in s.pending
    ensures id in s.pool && NodeIndex(s.pool[id], node) < |s.pool[id]|
    ensures var after := Drop(s.pool[id], NodeIndex(s.pool[id], node));
            && Inv(State(s.pool[id := after], s.pending - multiset{(id, node)}, s.nextNode))
            && WithoutDead(after) == WithoutDead(s.pool[id])
  {
    var es := ListOf(s.pool, id);
    hide ListOk, DeadCount, Drop, WithoutDead, NodeIndex;
    assert s.pending[(id, node)] == DeadCount(es, node);
    NoDeadInEmpty(node);
    PendingIsThere(es, node, s.nextNode);
    var i := NodeIndex(es, node);
    DropDead(es, i);
    DropKeepsList(es, i, s.nextNode);
    var t := State(s.pool[id := Drop(es, i)], s.pending - multiset{(id, node)}, s.nextNode);
    forall other: Id, n: nat
      ensures t.pending[(other, n)] == DeadCount(ListOf(t.pool, other), n)
    {
      assert s.pending[(other, n)] == DeadCount(ListOf(s.pool, other), n);
      Around(es, i, n);
    }
  }

  lemma NothingPending(s: State)
    requires Inv(s) && s.pending == multiset{}
    ensures forall id :: id in s.pool ==> WithoutDead(s.pool[id]) == s.pool[id]
  {
    hide ListOk, WithoutDead;
    forall id | id in s.pool
      ensures WithoutDead(s.pool[id]) == s.pool[id]
    {
      forall n: nat
        ensures DeadCount(s.pool[id], n) == 0
      {
        assert s.pending[(id, n)] == DeadCount(ListOf(s.pool, id), n);
      }
      NoneDead(s.pool[id]);
    }
  }

  /** The three cases of binding. */
  lemma BindCases(s: State, id: Id, h: Handler)
    requires Inv(s)
    ensures var es := ListOf(s.pool, id);
            var i := Find(es, h);
            var e := Entry(s.nextNode, h, false);
            && (i < |es| && !es[i].deleted ==> BindState(s, id, h) == s)
            && (i < |es| && es[i].deleted ==>
                  && (id, es[i].node) in s.pending
                  && BindState(s, id, h) == State(s.pool[id := Drop(es, i) + [e]],
                      s.pending - multiset{(id, es[i].node)},
                                                  s.nextNode + 1))
            && (i == |es| ==> BindState(s, id, h) == State(s.pool[id := es + [e]], s.pending, s.nextNode + 1))
  {
    hide ListOk, DeadCount, Drop, Find;
    var es := ListOf(s.pool, id);
    var i := Find(es, h);
    if i < |es| && es[i].deleted {
      DeadIsCounted(es, i);
      assert s.pending[(id, es[i].node)] == DeadCount(es, es[i].node);
    }
  }

  lemma DeadIsCounted(es: seq<Entry>, i: nat)
    requires i < |es| && es[i].deleted
    ensures DeadCount(es, es[i].node) > 0
  {
    hide Live, Drop, Mark, DeadCount;
    Around(es, i, es[i].node);
  }

  lemma BoundIffFound(s: State, id: Id, h: Handler)
    requires Inv(s)
    ensures var es := ListOf(s.pool, id); h in Live(es) <==> Find(es, h) < |es| && !es[Find(es, h)].deleted
    ensures Find([], h) == 0
  {
    Empty(0, 0, h, s.nextNode);
    assert ListOk(ListOf(s.pool, id), s.nextNode);
    LiveIffFound(ListOf(s.pool, id), h, s.nextNode);
  }

  /** The deletions added are one for each entry of the object in the list. */
  ghost predicate AddedFor(before: multiset<(Id, nat)>, after: multiset<(Id, nat)>, id: Id, es: seq<Entry>, obj: nat) {
    forall i: Id, n: nat :: after[(i, n)] == before[(i, n)] + if i == id then ObjectCount(es, obj, n) else 0
  }

  lemma NothingAdded(before: multiset<(Id, nat)>, id: Id, es: seq<Entry>, obj: nat)
    requires es == []
    ensures AddedFor(before, before, id, es, obj)
  {
    assert forall n: nat :: ObjectCount(es, obj, n) == 0;
    assert forall i: Id, n: nat :: before[(i, n)] == before[(i, n)] + if i == id then ObjectCount(es, obj, n) else 0;
  }

  lemma MarkNext(was: seq<Entry>, obj: nat, j: nat, es: seq<Entry>)
    requires j < |was| && |MarkObject(was[..j], obj)| == j && es == MarkObject(was[..j], obj) + was[j..]
    ensures |es| == |was| && es[j] == was[j] && |MarkObject(was[..j + 1], obj)| == j + 1
    ensures (if was[j].handler.obj == obj then es[j := was[j].(deleted := true)] else es)
         == MarkObject(was[..j + 1], obj) + was[j + 1..]
  {
    MarkObjectGrows(was, obj, j);
    hide MarkObject;
  }

  lemma AddedForStep(before: multiset<(Id, nat)>, after: multiset<(Id, nat)>, id: Id, es: seq<Entry>, j: nat, obj: nat)
    requires j < |es| && AddedFor(before, after, id, es[..j], obj)
    ensures AddedFor(before, if es[j].handler.obj == obj then after + multiset{(id, es[j].node)} else after,
                     id, es[..j + 1], obj)
  {
    hide ObjectCount;
    var e := es[j];
    var more := if e.handler.obj == obj then after + multiset{(id, e.node)} else after;
    forall i: Id, n: nat
      ensures more[(i, n)] == before[(i, n)] + if i == id then ObjectCount(es[..j + 1], obj, n) else 0
    {
      ObjectCountGrows(es, obj, j, n);
      assert after[(i, n)] == before[(i, n)] + if i == id then ObjectCount(es[..j], obj, n) else 0;
    }
  }

  /** Every list but those of `ids` has been marked. */
  ghost predicate Swept(before: map<Id, seq<Entry>>, after: map<Id, seq<Entry>>, ids: set<Id>, obj: nat) {
    && after.Keys == before.Keys
    && forall id :: id in before ==> after[id] == if id in ids then before[id] else MarkObject(before[id], obj)
  }

  ghost predicate SweptPending(before: multiset<(Id, nat)>, after: multiset<(Id, nat)>, pool: map<Id, seq<Entry>>,
                               ids: set<Id>, obj: nat)
  {
    forall id: Id, n: nat ::
      after[(id, n)] == before[(id, n)] + if id in ids then 0 else ObjectCount(ListOf(pool, id), obj, n)
  }

  lemma SweepStart(s: State, obj: nat)
    ensures Swept(s.pool, s.pool, s.pool.Keys, obj) && SweptPending(s.pending, s.pending, s.pool, s.pool.Keys, obj)
  {
    forall id: Id, n: nat | id !in s.pool
      ensures ObjectCount(ListOf(s.pool, id), obj, n) == 0
    {
    }
  }

  lemma SweepNext(s: State, pool: map<Id, seq<Entry>>, pending: multiset<(Id, nat)>, id: Id, ids: set<Id>, obj: nat)
    requires id in ids && ids <= s.pool.Keys
    requires Swept(s.pool, pool, ids, obj) && SweptPending(s.pending, pending, s.pool, ids, obj)
    ensures id in pool && pool[id] == s.pool[id]
    ensures Swept(s.pool, pool[id := MarkObject(pool[id], obj)], ids - {id}, obj)
    ensures forall more :: AddedFor(pending, more, id, pool[id], obj) ==>
              SweptPending(s.pending, more, s.pool, ids - {id}, obj)
  {
    hide ObjectCount, MarkObject;
    forall more | AddedFor(pending, more, id, pool[id], obj)
      ensures SweptPending(s.pending, more, s.pool, ids - {id}, obj)
    {
      forall i: Id, n: nat
        ensures more[(i, n)] == s.pending[(i, n)] +
                if i in ids - {id} then 0 else ObjectCount(ListOf(s.pool, i), obj, n)
      {
        assert pending[(i, n)] == s.pending[(i, n)] + if i in ids then 0 else ObjectCount(ListOf(s.pool, i), obj, n);
        assert more[(i, n)] == pending[(i, n)] + if i == id then ObjectCount(pool[id], obj, n) else 0;
      }
    }
  }

  lemma SweepEnd(s: State, t: State, obj: nat)
    requires t.nextNode == s.nextNode
    requires Swept(s.pool, t.pool, {}, obj) && SweptPending(s.pending, t.pending, s.pool, {}, obj)
    ensures UnbindObjectStep(s, t, obj)
  {
    hide ObjectCount, MarkObject;
  }

  class BundlerPool {
    var pool: map<Id, seq<Entry>>
    var deleteList: seq<(Id, nat)>
    var nextNode: nat

    ghost function Abstract(): State
      reads this
    {
      State(pool, multiset(deleteList), nextNode)
    }

    constructor ()
      ensures Abstract() == State(map[], multiset{}, 0) && Inv(Abstract())
    {
      pool, deleteList, nextNode := map[], [], 0;
    }

    method Bind(id: Id, h: Handler) returns (ok: bool)
      requires Inv(Abstract())
      modifies this
      ensures Step(old(Abstract()), Op.Bind(id, h), Abstract()) && Inv(Abstract())
      ensures ok <==> h !in Live(ListOf(old(pool), id))
    {
      hide Inv, Live, Find, Drop, BindState, LooksImmediate;
      ghost var s := Abstract();
      BindStep(s, id, h);
      BindCases(s, id, h);
      BoundIffFound(s, id, h);
      if id !in pool {
        pool := pool[id := []];
        Push(id, h);
        assert pool == s.pool[id := [] + [Entry(s.nextNode, h, false)]];
        return true;
      }
      var i := Find(pool[id], h);
      if i < |pool[id]| {
        if !pool[id][i].deleted {
          return false;
        }
        EraseDeleted(id, i);
      }
      Push(id, h);
      assert pool == s.pool[id := pool[id]];
      ok := true;
    }

    method Push(id: Id, h: Handler)
      requires id in pool
      modifies this`pool, this`nextNode
      ensures pool == old(pool)[id := old(pool[id]) + [Entry(old(nextNode), h, false)]]
      ensures nextNode == old(nextNode) + 1
    {
      pool := pool[id := pool[id] + [Entry(nextNode, h, false)]];
      nextNode := nextNode + 1;
    }

    /** Looks for a pending deletion of the entry; takes out both. */
    method EraseDeleted(id: Id, i: nat)
      requires id in pool && i < |pool[id]|
      modifies this`pool, this`deleteList
      ensures var es := old(pool[id]);
              if (id, es[i].node) in old(deleteList)
              then pool == old(pool)[id := Drop(es, i)]
                   && multiset(deleteList) == multiset(old(deleteList)) - multiset{(id, es[i].node)}
              else pool == old(pool) && deleteList == old(deleteList)
    {
      var k := 0;
      while k < |deleteList|
        invariant k <= |deleteList| && deleteList == old(deleteList) && pool == old(pool)
        invariant (id, pool[id][i].node) !in deleteList[..k]
      {
        if deleteList[k] == (id, pool[id][i].node) {
          pool := pool[id := Drop(pool[id], i)];
          RemoveOne(deleteList, k);
          deleteList := deleteList[..k] + deleteList[k + 1..];
          return;
        }
        k := k + 1;
      }
      assert deleteList[..k] == deleteList;
    }

    /** Keeps the invariant exactly when the handler is not unbound twice. */
    method Unbind(id: Id, h: Handler) returns (found: bool)
      requires Inv(Abstract())
      modifies this
      ensures Step(old(Abstract()), Op.Unbind(id, h), Abstract())
      ensures Inv(Abstract()) <==> NotTwice(old(Abstract()), Op.Unbind(id, h))
      ensures found <==> exists e :: e in ListOf(old(pool), id) && e.handler == h
    {
      hide Inv, Mark;
      UnbindStep(Abstract(), id, h);
      if id !in pool {
        return false;
      }
      var i := Find(pool[id], h);
      if i == |pool[id]| {
        return false;
      }
      assert pool[id][i] in pool[id];
      deleteList := deleteList + [(id, pool[id][i].node)];
      pool := pool[id := Mark(pool[id], i)];
      found := true;
    }

    /** Marks every entry of the object and adds it to the delete list, dead
        entries included. */
    method UnbindObject(obj: nat)
      requires Inv(Abstract())
      modifies this
      ensures Step(old(Abstract()), Op.UnbindObject(obj), Abstract())
      ensures Inv(Abstract()) <==> NotTwice(old(Abstract()), Op.UnbindObject(obj))
    {
      hide Inv, Swept, SweptPending, UnbindObjectStep;
      ghost var s := Abstract();
      var ids := pool.Keys;
      SweepStart(s, obj);
      while ids != {}
        invariant ids <= s.pool.Keys && nextNode == s.nextNode
        invariant Swept(s.pool, pool, ids, obj) && SweptPending(s.pending, multiset(deleteList), s.pool, ids, obj)
        decreases |ids|
      {
        var id :| id in ids;
        SweepNext(s, pool, multiset(deleteList), id, ids, obj);
        UnbindInList(id, obj);
        ids := ids - {id};
      }
      SweepEnd(s, Abstract(), obj);
      UnbindObjectIsStep(s, Abstract(), obj);
    }

    method UnbindInList(id: Id, obj: nat)
      requires id in pool
      modifies this`pool, this`deleteList
      ensures pool == old(pool)[id := MarkObject(old(pool[id]), obj)]
      ensures AddedFor(multiset(old(deleteList)), multiset(deleteList), id, old(pool[id]), obj)
    {
      hide MarkObject, AddedFor, ObjectCount;
      ghost var before := multiset(deleteList);
      var es := pool[id];
      ghost var was := es;
      NothingAdded(before, id, was[..0], obj);
      Empty(obj, 0, Handler(0, 0), 0);
      var j := 0;
      assert was[..0] == [] && was[0..] == es && pool == pool[id := es];
      while j < |es|
        invariant j <= |was| && pool == old(pool)[id := es]
        invariant es == MarkObject(was[..j], obj) + was[j..] && |MarkObject(was[..j], obj)| == j
        invariant AddedFor(before, multiset(deleteList), id, was[..j], obj)
      {
        MarkNext(was, obj, j, es);
        AddedForStep(before, multiset(deleteList), id, was, j, obj);
        if es[j].handler.obj == obj {
          deleteList := deleteList + [(id, es[j].node)];
          es := es[j := es[j].(deleted := true)];
          pool := pool[id := es];
        }
        j := j + 1;
      }
      assert was[..j] == was && es == MarkObject(was, obj);
      assert AddedFor(before, multiset(deleteList), id, was, obj);
    }

    /** Calls the live handlers of the id, in bind order. */
    method CallBundler(id: Id) returns (calls: seq<Handler>)
      ensures calls == Live(ListOf(pool, id))
    {
      calls := [];
      if id !in pool {
        return;
      }
      var es := pool[id];
      for j := 0 to |es|
        invariant calls == Live(es[..j])
      {
        LiveGrows(es, j);
        if !es[j].deleted {
          calls := calls + [es[j].handler];
        }
      }
      assert es[..|es|] == es;
    }

    /** Takes out every dead entry. */
    method Reflush()
      requires Inv(Abstract())
      modifies this
      ensures Step(old(Abstract()), Op.Reflush, Abstract()) && Inv(Abstract())
    {
      hide Inv, WithoutDead, Drop, NodeIndex;
      ghost var s := Abstract();
      var k := 0;
      assert deleteList[0..] == deleteList;
      while k < |deleteList|
        invariant k <= |deleteList| && deleteList == old(deleteList)
        invariant pool.Keys == s.pool.Keys && nextNode == s.nextNode
        invariant Inv(State(pool, multiset(deleteList[k..]), nextNode))
        invariant forall id :: id in pool ==> WithoutDead(pool[id]) == WithoutDead(s.pool[id])
      {
        var (id, node) := deleteList[k];
        assert deleteList[k..] == [(id, node)] + deleteList[k + 1..];
        EraseStep(State(pool, multiset(deleteList[k..]), nextNode), id, node);
        assert multiset(deleteList[k..]) - multiset{(id, node)} == multiset(deleteList[k + 1..]);
        pool := pool[id := Drop(pool[id], NodeIndex(pool[id], node))];
        k := k + 1;
      }
      assert deleteList[k..] == [];
      NothingPending(State(pool, multiset(deleteList[k..]), nextNode));
      deleteList := [];
      ReflushIsStep(s, Abstract());
    }
  }
}
