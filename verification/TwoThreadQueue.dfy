/** `TQueue`: a ring buffer shared by one producer and one consumer, as
    interleaved steps on memory that is sequentially consistent. */
module TwoThreadQueue {
  import opened Prelude

  const COUNTER: nat := 0x1_0000_0000
  /** The size is a positive 32-bit signed constant. */
  const MAX_SIZE: nat := 0x7fff_ffff

  const NOT_EXISTS_DATA: int := 0
  const EXISTS_DATA: int := 1

  /** Where the producer is inside `Add` or `TryAdd`: which of them, and the
      next thing it will do with its value. */
  datatype Producer<+T> =
    | ProducerIdle
    | CheckFree(value: T, blocking: bool)
    | StoreValue(value: T)
    | SetSign(value: T)
    | AdvanceWrite
    | CountWrite
    | WrapWrite

  /** Where the consumer is inside `Read`. */
  datatype Consumer<+T> =
    | ConsumerIdle
    | CheckData
    | LoadValue
    | ClearSign(value: T)
    | AdvanceRead
    | CountRead
    | WrapRead

  /** The fields of the queue, the two threads, and two histories: the values
      published and the values taken, in order. */
  datatype State<T> = State(
    queue: seq<T>, sign: seq<int>,
    rIndex: nat, wIndex: nat, rCount: nat, wCount: nat,
    producer: Producer<T>, consumer: Consumer<T>,
    published: seq<T>, taken: seq<T>)

  datatype Action<T> = StartAdd(value: T) | StartTryAdd(value: T) | ProducerStep | StartRead | ConsumerStep

  ghost predicate Initial<T>(s: State<T>) {
    && 0 < |s.queue| == |s.sign| <= MAX_SIZE
    && (forall j :: 0 <= j < |s.sign| ==> s.sign[j] == NOT_EXISTS_DATA)
    && s.rIndex == s.wIndex == s.rCount == s.wCount == 0
    && s.producer == ProducerIdle && s.consumer == ConsumerIdle
    && s.published == s.taken == []
  }

  /** The indices a thread uses are in range where it uses them. */
  predicate InRange<T>(s: State<T>) {
    && |s.queue| == |s.sign|
    && (s.producer.CheckFree? || s.producer.StoreValue? || s.producer.SetSign? ==> s.wIndex < |s.queue|)
    && (s.consumer.CheckData? || s.consumer.LoadValue? || s.consumer.ClearSign? ==> s.rIndex < |s.queue|)
  }

  function ProducerNext<T>(s: State<T>): State<T>
    requires InRange(s)
  {
    match s.producer
    case ProducerIdle => s
    case CheckFree(value, blocking) =>
      if s.sign[s.wIndex] == NOT_EXISTS_DATA then s.(producer := StoreValue(value))
      else if blocking then s
      else s.(producer := ProducerIdle)
    case StoreValue(value) => s.(queue := s.queue[s.wIndex := value], producer := SetSign(value))
    case SetSign(value) =>
      s.(sign := s.sign[s.wIndex := EXISTS_DATA], producer := AdvanceWrite, published := s.published + [value])
    case AdvanceWrite => s.(wIndex := s.wIndex + 1, producer := CountWrite)
    case CountWrite => s.(wCount := (s.wCount + 1) % COUNTER, producer := WrapWrite)
    case WrapWrite => s.(wIndex := if s.wIndex >= |s.queue| then 0 else s.wIndex, producer := ProducerIdle)
  }

  function ConsumerNext<T>(s: State<T>): State<T>
    requires InRange(s)
  {
    match s.consumer
    case ConsumerIdle => s
    case CheckData =>
      if s.sign[s.rIndex] == EXISTS_DATA then s.(consumer := LoadValue) else s.(consumer := ConsumerIdle)
    case LoadValue => s.(consumer := ClearSign(s.queue[s.rIndex]))
    case ClearSign(value) =>
      s.(sign := s.sign[s.rIndex := NOT_EXISTS_DATA], consumer := AdvanceRead, taken := s.taken + [value])
    case AdvanceRead => s.(rIndex := s.rIndex + 1, consumer := CountRead)
    case CountRead => s.(rCount := (s.rCount + 1) % COUNTER, consumer := WrapRead)
    case WrapRead => s.(rIndex := if s.rIndex >= |s.queue| then 0 else s.rIndex, consumer := ConsumerIdle)
  }

  /** One action; a thread that is busy does not start another operation. */
  function Apply<T>(s: State<T>, a: Action<T>): State<T>
    requires InRange(s)
  {
    match a
    case StartAdd(value) =>
      if s.producer.ProducerIdle? then s.(producer := CheckFree(value, true)) else s
    case StartTryAdd(value) =>
      if s.producer.ProducerIdle? then s.(producer := CheckFree(value, false)) else s
    case ProducerStep => ProducerNext(s)
    case StartRead => if s.consumer.ConsumerIdle? then s.(consumer := CheckData) else s
    case ConsumerStep => ConsumerNext(s)
  }

  predicate IsEmpty<T>(s: State<T>) {
    s.rCount == s.wCount
  }

  // --------------------------------------------------------------- invariant

  /** Values published and not yet taken. */
  function Unread<T>(s: State<T>): int {
    |s.published| - |s.taken|
  }

  function Wrap(i: int, size: nat): int {
    if i >= size then i - size else i
  }

  /** The slot of the next value to take, and of the next to publish, whatever
      the threads still have to do to their indices. */
  function Head<T>(s: State<T>): int {
    match s.consumer
    case AdvanceRead => Wrap(s.rIndex + 1, |s.queue|)
    case CountRead => Wrap(s.rIndex, |s.queue|)
    case WrapRead => Wrap(s.rIndex, |s.queue|)
    case _ => s.rIndex
  }

  function Tail<T>(s: State<T>): int {
    match s.producer
    case AdvanceWrite => Wrap(s.wIndex + 1, |s.queue|)
    case CountWrite => Wrap(s.wIndex, |s.queue|)
    case WrapWrite => Wrap(s.wIndex, |s.queue|)
    case _ => s.wIndex
  }

  /** How many slots after the head a slot comes, going round. */
  function Distance(head: int, j: int, size: nat): int {
    if j >= head then j - head else j - head + size
  }

  ghost predicate Indices<T>(s: State<T>) {
    && 0 < |s.queue| == |s.sign| <= MAX_SIZE
    && s.wIndex <= |s.queue| && s.rIndex <= |s.queue|
    && (s.producer.CountWrite? || s.producer.WrapWrite? || s.wIndex < |s.queue|)
    && (s.consumer.CountRead? || s.consumer.WrapRead? || s.rIndex < |s.queue|)
    && 0 <= Unread(s) <= |s.queue|
    && Tail(s) == Wrap(Head(s) + Unread(s), |s.queue|)
  }

  /** The flagged slots are the circular window from the head to the tail. */
  ghost predicate SignsAreWindow<T>(s: State<T>) {
    && |s.sign| == |s.queue|
    && forall j :: 0 <= j < |s.sign| ==>
         s.sign[j] == if InWindow(s, j) then EXISTS_DATA else NOT_EXISTS_DATA
  }

  /** The window holds, in order, the values published and not yet taken. */
  ghost predicate WindowHoldsUnread<T>(s: State<T>) {
    && |s.taken| <= |s.published|
    && forall j :: 0 <= j < |s.queue| && InWindow(s, j) ==>
         s.queue[j] == s.published[|s.taken| + Distance(Head(s), j, |s.queue|)]
  }

  predicate InWindow<T>(s: State<T>, j: int) {
    0 <= Distance(Head(s), j, |s.queue|) < Unread(s)
  }

  ghost predicate ThreadsSafe<T>(s: State<T>)
    requires Indices(s)
  {
    && (s.producer.StoreValue? || s.producer.SetSign? ==> Unread(s) < |s.queue|)
    && (s.producer.SetSign? ==> s.queue[s.wIndex] == s.producer.value)
    && (s.consumer.LoadValue? || s.consumer.ClearSign? ==> 0 < Unread(s))
    && (s.consumer.ClearSign? ==> s.consumer.value == s.published[|s.taken|])
  }

  /** Values published, or taken, and counted. */
  function Counted<T>(s: State<T>): (int, int) {
    (|s.published| - if s.producer.AdvanceWrite? || s.producer.CountWrite? then 1 else 0,
     |s.taken| - if s.consumer.AdvanceRead? || s.consumer.CountRead? then 1 else 0)
  }

  /** The counters hold the numbers of values counted, modulo their width. */
  predicate Counts<T>(s: State<T>) {
    && Counted(s).0 >= 0 && Counted(s).1 >= 0
    && s.wCount == Counted(s).0 % COUNTER
    && s.rCount == Counted(s).1 % COUNTER
  }

  ghost predicate Inv<T>(s: State<T>) {
    && Indices(s) && SignsAreWindow(s) && WindowHoldsUnread(s) && ThreadsSafe(s) && Counts(s)
    && s.taken <= s.published
  }

  lemma InitialInv<T>(s: State<T>)
    requires Initial(s)
    ensures Inv(s)
  {
  }

  // ---------------------------------------------------- steps keep invariant

  lemma CountOneMore(n: nat)
    ensures (n % COUNTER + 1) % COUNTER == (n + 1) % COUNTER
  {
  }

  lemma CountsKept<T>(s: State<T>, t: State<T>)
    requires InRange(s) && Counts(s) && (t == ProducerNext(s) || t == ConsumerNext(s))
    ensures Counts(t)
  {
    CountOneMore(Counted(s).0);
    CountOneMore(Counted(s).1);
  }

  /** Steps that touch neither a slot, a flag nor a history. */
  ghost predicate SameContents<T>(s: State<T>, t: State<T>) {
    s.queue == t.queue && s.sign == t.sign && s.published == t.published && s.taken == t.taken
  }

  lemma SameWindow<T>(s: State<T>, t: State<T>)
    requires SignsAreWindow(s) && WindowHoldsUnread(s)
    requires SameContents(s, t) && Head(s) == Head(t)
    ensures SignsAreWindow(t) && WindowHoldsUnread(t)
  {
    hide Head, Distance;
    assert forall j :: InWindow(s, j) == InWindow(t, j);
  }

  lemma IndexStepKeeps<T>(s: State<T>, t: State<T>)
    requires Inv(s) && SameContents(s, t)
    requires t == ProducerNext(s) || t == ConsumerNext(s)
    requires Indices(t) && ThreadsSafe(t) && Head(t) == Head(s)
    ensures Inv(t)
  {
    assert InRange(s);
    hide Head, Indices, ThreadsSafe, SignsAreWindow, WindowHoldsUnread, Counts;
    CountsKept(s, t);
    SameWindow(s, t);
  }

  lemma ProducerKeeps<T>(s: State<T>)
    requires Inv(s)
    ensures Inv(ProducerNext(s))
  {
    match s.producer
    case StoreValue(_) => StoreKeeps(s);
    case SetSign(_) => PublishKeeps(s);
    case CheckFree(_, _) => CheckFreeKeeps(s);
    case _ => ProducerIndexKeeps(s);
  }

  lemma ProducerIndexKeeps<T>(s: State<T>)
    requires Inv(s) && (s.producer.ProducerIdle? || s.producer.AdvanceWrite? || s.producer.CountWrite? ||
             s.producer.WrapWrite?)
    ensures Inv(ProducerNext(s))
  {
    hide SignsAreWindow, WindowHoldsUnread, Counts;
    IndexStepKeeps(s, ProducerNext(s));
  }

  lemma CheckFreeKeeps<T>(s: State<T>)
    requires Inv(s) && s.producer.CheckFree?
    ensures Inv(ProducerNext(s))
    ensures s.sign[s.wIndex] == NOT_EXISTS_DATA <==> Unread(s) < |s.queue|
  {
    hide WindowHoldsUnread, Counts;
    assert InWindow(s, s.wIndex) <==> Unread(s) == |s.queue|;
    IndexStepKeeps(s, ProducerNext(s));
  }

  /** Writing a free slot disturbs nothing unread and nothing being read. */
  lemma StoreKeeps<T>(s: State<T>)
    requires Inv(s) && s.producer.StoreValue?
    ensures Inv(ProducerNext(s))
  {
    var t := ProducerNext(s);
    assert Indices(t) && ThreadsSafe(t) && Head(t) == Head(s) by {
      hide SignsAreWindow, WindowHoldsUnread, Counts;
    }
    CountsKept(s, t);
    hide Counts, ThreadsSafe;
    assert !InWindow(s, s.wIndex);
    assert forall j :: InWindow(s, j) == InWindow(t, j);
  }

  lemma PublishKeeps<T>(s: State<T>)
    requires Inv(s) && s.producer.SetSign?
    ensures Inv(ProducerNext(s))
  {
    var t := ProducerNext(s);
    assert Indices(t) && ThreadsSafe(t) && Head(t) == Head(s) by {
      hide SignsAreWindow, WindowHoldsUnread, Counts;
    }
    CountsKept(s, t);
    WindowGrows(s);
  }

  lemma WindowGrows<T>(s: State<T>)
    requires Inv(s) && s.producer.SetSign?
    ensures SignsAreWindow(ProducerNext(s)) && WindowHoldsUnread(ProducerNext(s))
  {
    hide Counts;
    var t := ProducerNext(s);
    forall j | 0 <= j < |s.queue|
      ensures InWindow(t, j) <==> InWindow(s, j) || j == s.wIndex
    {
    }
    assert Distance(Head(s), s.wIndex, |s.queue|) == Unread(s);
  }

  lemma ConsumerKeeps<T>(s: State<T>)
    requires Inv(s)
    ensures Inv(ConsumerNext(s))
  {
    match s.consumer
    case ClearSign(_) => TakeKeeps(s);
    case LoadValue => LoadKeeps(s);
    case CheckData => CheckDataKeeps(s);
    case _ => ConsumerIndexKeeps(s);
  }

  lemma ConsumerIndexKeeps<T>(s: State<T>)
    requires Inv(s) && (s.consumer.ConsumerIdle? || s.consumer.AdvanceRead? || s.consumer.CountRead? ||
             s.consumer.WrapRead?)
    ensures Inv(ConsumerNext(s))
  {
    hide SignsAreWindow, WindowHoldsUnread, Counts;
    IndexStepKeeps(s, ConsumerNext(s));
  }

  lemma CheckDataKeeps<T>(s: State<T>)
    requires Inv(s) && s.consumer.CheckData?
    ensures Inv(ConsumerNext(s))
    ensures s.sign[s.rIndex] == EXISTS_DATA <==> 0 < Unread(s)
  {
    hide WindowHoldsUnread, Counts;
    assert InWindow(s, s.rIndex) <==> 0 < Unread(s);
    IndexStepKeeps(s, ConsumerNext(s));
  }

  lemma LoadKeeps<T>(s: State<T>)
    requires Inv(s) && s.consumer.LoadValue?
    ensures Inv(ConsumerNext(s))
  {
    hide SignsAreWindow, Counts;
    assert InWindow(s, s.rIndex);
    IndexStepKeeps(s, ConsumerNext(s));
  }

  lemma TakeKeeps<T>(s: State<T>)
    requires Inv(s) && s.consumer.ClearSign?
    ensures Inv(ConsumerNext(s))
  {
    var t := ConsumerNext(s);
    assert Indices(t) && ThreadsSafe(t) by {
      hide SignsAreWindow, WindowHoldsUnread, Counts;
    }
    assert t.taken <= t.published;
    CountsKept(s, t);
    WindowShrinks(s);
  }

  lemma WindowShrinks<T>(s: State<T>)
    requires Inv(s) && s.consumer.ClearSign?
    ensures SignsAreWindow(ConsumerNext(s)) && WindowHoldsUnread(ConsumerNext(s))
  {
    hide Counts;
    var t := ConsumerNext(s);
    assert Head(t) == Wrap(Head(s) + 1, |s.queue|);
    forall j | 0 <= j < |s.queue|
      ensures InWindow(t, j) <==> InWindow(s, j) && j != s.rIndex
      ensures j != s.rIndex ==> Distance(Head(s), j, |s.queue|) == Distance(Head(t), j, |s.queue|) + 1
    {
    }
  }

  lemma ApplyKeeps<T>(s: State<T>, a: Action<T>)
    requires Inv(s)
    ensures Inv(Apply(s, a))
  {
    match a
    case ProducerStep => ProducerKeeps(s);
    case ConsumerStep => ConsumerKeeps(s);
    case StartAdd(v) => StartKeeps(s, a);
    case StartTryAdd(v) => StartKeeps(s, a);
    case StartRead => StartKeeps(s, a);
  }

  lemma StartKeeps<T>(s: State<T>, a: Action<T>)
    requires Inv(s) && (a.StartAdd? || a.StartTryAdd? || a.StartRead?)
    ensures Inv(Apply(s, a))
  {
    var t := Apply(s, a);
    assert Indices(t) && ThreadsSafe(t) && Head(t) == Head(s) && Counts(t) by {
      hide SignsAreWindow, WindowHoldsUnread;
    }
    hide Head, Indices, ThreadsSafe, SignsAreWindow, WindowHoldsUnread, Counts;
    SameWindow(s, t);
  }

  // -------------------------------------------------------------------- runs

  /** The state after some actions, in any order the scheduler chose. */
  ghost function Run<T>(s: State<T>, actions: seq<Action<T>>): State<T>
    requires Inv(s)
    decreases |actions|
  {
    if actions == [] then s
    else
      ApplyKeeps(s, actions[0]);
      Run(Apply(s, actions[0]), actions[1..])
  }

  lemma {:induction false} RunKeeps<T>(s: State<T>, actions: seq<Action<T>>)
    requires Inv(s)
    ensures Inv(Run(s, actions))
    decreases |actions|
  {
    if actions != [] {
      hide *;
      RunUnfolds(s, actions);
      RunKeeps(Apply(s, actions[0]), actions[1..]);
    }
  }

  /** The producer is about to write, and the consumer to read, a slot. */
  predicate BothInSlots<T>(s: State<T>) {
    s.producer.StoreValue? && s.consumer.LoadValue?
  }

  /** In every interleaving the values taken are a prefix of the values
      published; no slot is written while it is read; the flagged slots are
      the window between the two indices; a check of a flag tells full from
      not full and empty from not empty; and the counters of an idle queue
      tell, although they wrap, whether anything is unread. */
  lemma EveryInterleaving<T>(initial: State<T>, actions: seq<Action<T>>)
    requires Initial(initial)
    ensures Inv(initial)
    ensures var s := Run(initial, actions);
            && Inv(s)
            && s.taken <= s.published && |s.published| - |s.taken| <= |s.queue|
            && SignsAreWindow(s) && WindowHoldsUnread(s)
            && (BothInSlots(s) ==> s.wIndex != s.rIndex)
            && (s.producer.CheckFree? ==> (s.sign[s.wIndex] == EXISTS_DATA <==> Unread(s) == |s.queue|))
            && (s.consumer.CheckData? ==> (s.sign[s.rIndex] == EXISTS_DATA <==> Unread(s) > 0))
            && (s.producer == ProducerIdle && s.consumer == ConsumerIdle ==>
                  (IsEmpty(s) <==> s.taken == s.published))
  {
    InitialInv(initial);
    hide SignsAreWindow, WindowHoldsUnread, Initial, Run;
    RunKeeps(initial, actions);
    var s := Run(initial, actions);
    assert Indices(s);
    if s.producer.CheckFree? {
      CheckFreeKeeps(s);
    }
    if s.consumer.CheckData? {
      CheckDataKeeps(s);
    }
  }

  lemma ApplyGrows<T>(s: State<T>, a: Action<T>)
    requires InRange(s)
    ensures s.published <= Apply(s, a).published && s.taken <= Apply(s, a).taken
  {
  }

  /** Between two states of a run, histories only grow: what was published
      stays published, and what was taken stays taken. */
  lemma {:induction false} HistoriesGrow<T>(s: State<T>, actions: seq<Action<T>>)
    requires Inv(s)
    ensures s.published <= Run(s, actions).published && s.taken <= Run(s, actions).taken
    decreases |actions|
  {
    if actions != [] {
      hide *;
      RunUnfolds(s, actions);
      ApplyGrows(s, actions[0]);
      HistoriesGrow(Apply(s, actions[0]), actions[1..]);
    }
  }

  /** The value the producer holds and has not published yet. */
  function InFlight<T>(s: State<T>): seq<T> {
    match s.producer
    case CheckFree(value, _) => [value]
    case StoreValue(value) => [value]
    case SetSign(value) => [value]
    case _ => []
  }

  /** What an action hands to `Add`. */
  function JustHanded<T>(s: State<T>, a: Action<T>): seq<T> {
    if a.StartAdd? && s.producer.ProducerIdle? then [a.value] else []
  }

  /** The values handed to the calls of `Add` that began, in order. */
  ghost function Handed<T>(s: State<T>, actions: seq<Action<T>>): seq<T>
    requires Inv(s)
    decreases |actions|
  {
    if actions == [] then []
    else
      ApplyKeeps(s, actions[0]);
      JustHanded(s, actions[0]) + Handed(Apply(s, actions[0]), actions[1..])
  }

  ghost predicate NeverGivesUp<T>(s: State<T>, actions: seq<Action<T>>) {
    (s.producer.CheckFree? ==> s.producer.blocking) && forall a :: a in actions ==> !a.StartTryAdd?
  }

  lemma ApplyDelivers<T>(s: State<T>, actions: seq<Action<T>>)
    requires InRange(s) && actions != [] && NeverGivesUp(s, actions)
    ensures var t := Apply(s, actions[0]);
            && NeverGivesUp(t, actions[1..])
            && t.published + InFlight(t)
               == s.published + InFlight(s) + JustHanded(s, actions[0])
  {
    assert actions[0] in actions;
  }

  lemma RunUnfolds<T>(s: State<T>, actions: seq<Action<T>>)
    requires Inv(s) && actions != []
    ensures InRange(s) && Inv(Apply(s, actions[0]))
    ensures Run(s, actions) == Run(Apply(s, actions[0]), actions[1..])
    ensures Handed(s, actions) == JustHanded(s, actions[0]) + Handed(Apply(s, actions[0]), actions[1..])
  {
    InvFacts(s);
    hide Inv, Apply, JustHanded;
    ApplyKeeps(s, actions[0]);
  }

  /** With `Add` alone no value is lost, doubled, changed or overtaken: those
      published and the one in flight are those handed to `Add`, in order. */
  lemma {:induction false} AddsAreDelivered<T>(s: State<T>, actions: seq<Action<T>>)
    requires Inv(s) && NeverGivesUp(s, actions)
    ensures var t := Run(s, actions);
            t.published + InFlight(t) == s.published + InFlight(s) + Handed(s, actions)
    decreases |actions|
  {
    if actions == [] {
      assert Handed(s, actions) == [];
    } else {
      hide *;
      RunUnfolds(s, actions);
      ApplyDelivers(s, actions);
      AddsAreDelivered(Apply(s, actions[0]), actions[1..]);
      Reassociate(s.published + InFlight(s), JustHanded(s, actions[0]), Handed(Apply(s, actions[0]), actions[1..]));
    }
  }

  /** What a whole uninterrupted `TryAdd` leaves behind when there is room. */
  function Added<T>(s: State<T>, value: T): State<T>
    requires s.wIndex < |s.queue| == |s.sign|
  {
    s.(queue := s.queue[s.wIndex := value], sign := s.sign[s.wIndex := EXISTS_DATA],
       wIndex := Wrap(s.wIndex + 1, |s.queue|), wCount := (s.wCount + 1) % COUNTER,
       published := s.published + [value])
  }

  /** What a whole uninterrupted `Read` leaves behind when there is a value. */
  function Taken<T>(s: State<T>): State<T>
    requires s.rIndex < |s.queue| == |s.sign|
  {
    s.(sign := s.sign[s.rIndex := NOT_EXISTS_DATA],
       rIndex := Wrap(s.rIndex + 1, |s.queue|), rCount := (s.rCount + 1) % COUNTER,
       taken := s.taken + [s.queue[s.rIndex]])
  }

  ghost predicate Quiet<T>(s: State<T>) {
    Inv(s) && s.producer == ProducerIdle && s.consumer == ConsumerIdle
  }

  lemma InvFacts<T>(s: State<T>)
    requires Inv(s)
    ensures InRange(s) && 0 < |s.queue| == |s.sign| && s.taken <= s.published
    ensures s.wIndex <= |s.queue| && s.rIndex <= |s.queue|
  {
  }

  ghost function ProducerSteps<T>(s: State<T>, n: nat): (t: State<T>)
    requires Inv(s)
    ensures Inv(t)
    decreases n
  {
    if n == 0 then s
    else
      ProducerKeeps(s);
      ProducerSteps(ProducerNext(s), n - 1)
  }

  ghost function ConsumerSteps<T>(s: State<T>, n: nat): (t: State<T>)
    requires Inv(s)
    ensures Inv(t)
    decreases n
  {
    if n == 0 then s
    else
      ConsumerKeeps(s);
      ConsumerSteps(ConsumerNext(s), n - 1)
  }

  lemma ProducerStepsUnfold<T>(s: State<T>, t: State<T>, n: nat)
    requires Inv(s) && n > 0 && t == ProducerNext(s)
    ensures Inv(t) && ProducerSteps(s, n) == ProducerSteps(t, n - 1)
  {
    hide Inv, ProducerNext;
    ProducerKeeps(s);
  }

  lemma ConsumerStepsUnfold<T>(s: State<T>, t: State<T>, n: nat)
    requires Inv(s) && n > 0 && t == ConsumerNext(s)
    ensures Inv(t) && ConsumerSteps(s, n) == ConsumerSteps(t, n - 1)
  {
    hide Inv, ConsumerNext;
    ConsumerKeeps(s);
  }

  function Published<T>(s: State<T>, value: T): State<T>
    requires s.wIndex < |s.queue| == |s.sign|
  {
    s.(queue := s.queue[s.wIndex := value], sign := s.sign[s.wIndex := EXISTS_DATA],
       producer := AdvanceWrite, published := s.published + [value])
  }

  lemma PublishSteps<T>(s: State<T>, value: T)
    requires Inv(s) && s.producer == StoreValue(value)
    ensures s.wIndex < |s.queue| == |s.sign|
    ensures Inv(Published(s, value)) && ProducerSteps(s, 5) == ProducerSteps(Published(s, value), 3)
  {
    assert InRange(s) && s.wIndex < |s.queue|;
    hide Inv, ProducerSteps;
    ProducerStepsUnfold(s, ProducerNext(s), 5);
    ProducerStepsUnfold(ProducerNext(s), ProducerNext(ProducerNext(s)), 4);
  }

  lemma AddedAfterPublished<T>(s: State<T>, value: T)
    requires s.wIndex < |s.queue| == |s.sign| && s.producer == StoreValue(value)
    ensures var p := Published(s, value);
            && p.producer == AdvanceWrite
            && Added(s.(producer := ProducerIdle), value)
               == p.(wIndex := Wrap(p.wIndex + 1, |p.queue|), wCount := (p.wCount + 1) % COUNTER,
                     producer := ProducerIdle)
  {
  }

  /** From storing the value to wrapping the index. */
  lemma AddSteps<T>(s: State<T>, value: T)
    requires Inv(s) && s.producer == StoreValue(value)
    ensures s.wIndex < |s.queue| == |s.sign|
    ensures ProducerSteps(s, 5) == Added(s.(producer := ProducerIdle), value)
  {
    hide *;
    PublishSteps(s, value);
    AddedAfterPublished(s, value);
    AdvanceWriteSteps(Published(s, value));
  }

  lemma AdvanceWriteSteps<T>(s: State<T>)
    requires Inv(s) && s.producer == AdvanceWrite
    ensures ProducerSteps(s, 3) == s.(wIndex := Wrap(s.wIndex + 1, |s.queue|), wCount := (s.wCount + 1) % COUNTER,
                                      producer := ProducerIdle)
  {
    hide Inv, ProducerSteps;
    InvFacts(s);
    var s1 := s.(wIndex := s.wIndex + 1, producer := CountWrite);
    ProducerStepsUnfold(s, s1, 3);
    var s2 := s1.(wCount := (s1.wCount + 1) % COUNTER, producer := WrapWrite);
    ProducerStepsUnfold(s1, s2, 2);
    InvFacts(s2);
    var s3 := s2.(wIndex := Wrap(s2.wIndex, |s.queue|), producer := ProducerIdle);
    ProducerStepsUnfold(s2, s3, 1);
    NoSteps(s3);
  }

  lemma NoSteps<T>(s: State<T>)
    requires Inv(s)
    ensures ProducerSteps(s, 0) == s && ConsumerSteps(s, 0) == s
  {
  }

  function Cleared<T>(s: State<T>): State<T>
    requires s.rIndex < |s.queue| == |s.sign|
  {
    s.(sign := s.sign[s.rIndex := NOT_EXISTS_DATA], consumer := AdvanceRead, taken := s.taken + [s.queue[s.rIndex]])
  }

  lemma ClearSteps<T>(s: State<T>)
    requires Inv(s) && s.consumer == LoadValue
    ensures s.rIndex < |s.queue| == |s.sign|
    ensures Inv(Cleared(s)) && ConsumerSteps(s, 5) == ConsumerSteps(Cleared(s), 3)
  {
    assert InRange(s) && s.rIndex < |s.queue|;
    hide Inv, ConsumerSteps;
    ConsumerStepsUnfold(s, ConsumerNext(s), 5);
    ConsumerStepsUnfold(ConsumerNext(s), ConsumerNext(ConsumerNext(s)), 4);
  }

  lemma TakenAfterCleared<T>(s: State<T>)
    requires s.rIndex < |s.queue| == |s.sign| && s.consumer == LoadValue
    ensures var p := Cleared(s);
            && p.consumer == AdvanceRead
            && Taken(s.(consumer := ConsumerIdle))
               == p.(rIndex := Wrap(p.rIndex + 1, |p.queue|), rCount := (p.rCount + 1) % COUNTER,
                     consumer := ConsumerIdle)
  {
  }

  /** From loading the value to wrapping the index. */
  lemma ReadSteps<T>(s: State<T>)
    requires Inv(s) && s.consumer == LoadValue
    ensures s.rIndex < |s.queue| == |s.sign|
    ensures ConsumerSteps(s, 5) == Taken(s.(consumer := ConsumerIdle))
  {
    hide *;
    ClearSteps(s);
    TakenAfterCleared(s);
    AdvanceReadSteps(Cleared(s));
  }

  lemma AdvanceReadSteps<T>(s: State<T>)
    requires Inv(s) && s.consumer == AdvanceRead
    ensures ConsumerSteps(s, 3) == s.(rIndex := Wrap(s.rIndex + 1, |s.queue|), rCount := (s.rCount + 1) % COUNTER,
                                      consumer := ConsumerIdle)
  {
    hide Inv, ConsumerSteps;
    InvFacts(s);
    var s1 := s.(rIndex := s.rIndex + 1, consumer := CountRead);
    ConsumerStepsUnfold(s, s1, 3);
    var s2 := s1.(rCount := (s1.rCount + 1) % COUNTER, consumer := WrapRead);
    ConsumerStepsUnfold(s1, s2, 2);
    InvFacts(s2);
    var s3 := s2.(rIndex := Wrap(s2.rIndex, |s.queue|), consumer := ConsumerIdle);
    ConsumerStepsUnfold(s2, s3, 1);
    NoSteps(s3);
  }

  lemma LoadedIsNext<T>(s: State<T>)
    requires Inv(s) && s.consumer == LoadValue
    ensures |s.taken| < |s.published| && s.rIndex < |s.queue| && s.queue[s.rIndex] == s.published[|s.taken|]
  {
    ConsumerKeeps(s);
  }

  /** A call of `TryAdd`, after some steps of the producer. */
  ghost function AfterTryAdd<T>(s: State<T>, value: T, steps: nat): State<T>
    requires Quiet(s)
  {
    InvFacts(s);
    ApplyKeeps(s, StartTryAdd(value));
    ProducerSteps(Apply(s, StartTryAdd(value)), steps)
  }

  /** A call of `Read`, after some steps of the consumer. */
  ghost function AfterRead<T>(s: State<T>, steps: nat): State<T>
    requires Quiet(s)
  {
    InvFacts(s);
    ApplyKeeps(s, StartRead);
    ConsumerSteps(Apply(s, StartRead), steps)
  }

  lemma TryAddRuns<T>(s: State<T>, value: T)
    requires Quiet(s)
    ensures s.wIndex < |s.queue| == |s.sign|
    ensures s.sign[s.wIndex] == NOT_EXISTS_DATA <==> Unread(s) < |s.queue|
    ensures Unread(s) < |s.queue| ==> Quiet(Added(s, value)) && AfterTryAdd(s, value, 6) == Added(s, value)
    ensures Unread(s) >= |s.queue| ==> AfterTryAdd(s, value, 1) == s
  {
    assert s.wIndex < |s.queue| == |s.sign|;
    hide Inv;
    var s0 := Apply(s, StartTryAdd(value));
    ApplyKeeps(s, StartTryAdd(value));
    CheckFreeKeeps(s0);
    if Unread(s) < |s.queue| {
      ProducerStepsUnfold(s0, ProducerNext(s0), 6);
      AddSteps(ProducerNext(s0), value);
      assert Added(s, value) == Added(ProducerNext(s0).(producer := ProducerIdle), value);
    } else {
      ProducerStepsUnfold(s0, s, 1);
      NoSteps(s);
    }
  }

  lemma ReadRuns<T>(s: State<T>)
    requires Quiet(s)
    ensures s.rIndex < |s.queue| == |s.sign|
    ensures s.sign[s.rIndex] == EXISTS_DATA <==> Unread(s) > 0
    ensures Unread(s) > 0 ==> Quiet(Taken(s)) && s.queue[s.rIndex] == s.published[|s.taken|]
    ensures Unread(s) > 0 ==> AfterRead(s, 6) == Taken(s)
    ensures Unread(s) <= 0 ==> AfterRead(s, 1) == s
  {
    assert s.rIndex < |s.queue| == |s.sign|;
    hide Inv;
    var s0 := Apply(s, StartRead);
    ApplyKeeps(s, StartRead);
    CheckDataKeeps(s0);
    if Unread(s) > 0 {
      ConsumerStepsUnfold(s0, ConsumerNext(s0), 6);
      LoadedIsNext(ConsumerNext(s0));
      ReadSteps(ConsumerNext(s0));
      assert Taken(s) == Taken(ConsumerNext(s0).(consumer := ConsumerIdle));
    } else {
      ConsumerStepsUnfold(s0, s, 1);
      NoSteps(s);
    }
  }

  // ------------------------------------------------------------------- class

  /** The queue as each thread runs it while the other is idle. */
  class TQueue<T(0)> {
    const size: nat
    const queue: array<T>
    const sign: array<int>
    var rIndex: nat
    var wIndex: nat
    var rCount: nat
    var wCount: nat
    ghost var published: seq<T>
    ghost var taken: seq<T>

    ghost function Abstract(): State<T>
      reads this, queue, sign
    {
      State(queue[..], sign[..], rIndex, wIndex, rCount, wCount, ProducerIdle, ConsumerIdle, published, taken)
    }

    ghost predicate Valid()
      reads this, queue, sign
    {
      queue.Length == sign.Length == size && (queue as object) != (sign as object) && Quiet(Abstract())
    }

    /** The values in the queue, next to be read first. */
    ghost function Contents(): seq<T>
      requires Valid()
      reads this, queue, sign
    {
      published[|taken|..]
    }

    constructor (size: nat)
      requires 0 < size <= MAX_SIZE
      ensures Valid() && Contents() == [] && this.size == size && fresh(queue) && fresh(sign)
    {
      this.size := size;
      queue, sign := new T[size], new int[size](_ => NOT_EXISTS_DATA);
      rIndex, wIndex, rCount, wCount := 0, 0, 0, 0;
      published, taken := [], [];
      new;
      InitialInv(Abstract());
    }

    /** Appends the value, unless the queue is full; in the steps of the state
        machine. */
    method TryAdd(src: T) returns (added: bool)
      requires Valid()
      modifies this, queue, sign
      ensures Valid()
      ensures added <==> |old(Contents())| < size
      ensures Contents() == if added then old(Contents()) + [src] else old(Contents())
      ensures Abstract() == AfterTryAdd(old(Abstract()), src, if added then 6 else 1)
    {
      hide Inv, ProducerNext, AfterTryAdd;
      ghost var before := Abstract();
      InvFacts(before);
      TryAddRuns(before, src);
      if sign[wIndex] != NOT_EXISTS_DATA {
        return false;
      }
      queue[wIndex] := src;
      sign[wIndex] := EXISTS_DATA;
      published := published + [src];
      wIndex := wIndex + 1;
      wCount := (wCount + 1) % COUNTER;
      if wIndex >= size {
        wIndex := 0;
      }
      assert queue[..] == before.queue[before.wIndex := src];
      assert sign[..] == before.sign[before.wIndex := EXISTS_DATA];
      assert Abstract() == Added(before, src);
      InvFacts(Abstract());
      added := true;
    }

    /** Takes the oldest value, unless the queue is empty; in the steps of the
        state machine. */
    method Read(initial: T) returns (taking: bool, value: T)
      requires Valid()
      modifies this, sign
      ensures Valid()
      ensures taking <==> old(Contents()) != []
      ensures taking ==> old(Contents()) == [value] + Contents()
      ensures !taking ==> value == initial && Contents() == old(Contents())
      ensures Abstract() == AfterRead(old(Abstract()), if taking then 6 else 1)
    {
      hide Inv, ConsumerNext, AfterRead;
      value := initial;
      ghost var before := Abstract();
      InvFacts(before);
      ReadRuns(before);
      if sign[rIndex] != EXISTS_DATA {
        return false, value;
      }
      value := queue[rIndex];
      sign[rIndex] := NOT_EXISTS_DATA;
      taken := taken + [value];
      rIndex := rIndex + 1;
      rCount := (rCount + 1) % COUNTER;
      if rIndex >= size {
        rIndex := 0;
      }
      assert sign[..] == before.sign[before.rIndex := NOT_EXISTS_DATA];
      assert Abstract() == Taken(before);
      InvFacts(Abstract());
      taking := true;
    }

    method IsEmpty() returns (empty: bool)
      requires Valid()
      ensures empty <==> Contents() == []
    {
      empty := rCount == wCount;
    }
  }
}
