/** What the lookup tables lead to: a log of the operations that were not rolled
    back, and the tables read off it. */
module PoolHistory {
  import opened Prelude
  import opened PoolTables

  // ------------------------------------------------------------- reference

  /** A layer of operations for each open checkpoint, on top of the operations
      below all of them. */
  type Log = seq<seq<Op>>

  /** A checkpoint opens a layer; clearing it joins its layer to the one below;
      rolling back drops the layer; everything else goes into the top layer. */
  function Logged(log: Log, op: Op): (r: Log)
    requires log != []
    ensures r != []
  {
    var n := |log| - 1;
    match op
    case AddCheckpoint => log + [[]]
    case ClearLastCheckpoint => if n == 0 then log else log[..n - 1] + [log[n - 1] + log[n]]
    case RollbackToLastCheckpoint => if n == 0 then log else log[..n]
    case _ => log[..n] + [log[n] + [op]]
  }

  function LogOf(ops: seq<Op>): (log: Log)
    ensures log != []
  {
    if ops == [] then [[]] else Logged(LogOf(ops[..|ops| - 1]), ops[|ops| - 1])
  }

  /** The operations of all layers, in order. */
  function Flat(log: Log): seq<Op> {
    if log == [] then [] else Flat(log[..|log| - 1]) + log[|log| - 1]
  }

  /** The operations of a run that were not rolled back. */
  function Surviving(ops: seq<Op>): seq<Op> {
    Flat(LogOf(ops))
  }

  /** What an operation puts into a list or a table; `heap` is how the strings
      are spelled. */
  function StringOf(op: Op): seq<(Ref, string)> {
    match op case AllocateString(at, value) => [(at, value)] case _ => []
  }

  function AddressOf(op: Op): seq<Ref> {
    match op case AllocateString(at, _) => [at] case _ => []
  }

  function MessageOf(op: Op): seq<Ref> {
    match op case AllocateMessage(at) => [at] case _ => []
  }

  function FileTablesOf(op: Op): seq<Ref> {
    match op case AllocateFileTables(at) => [at] case _ => []
  }

  function BlockOf(op: Op): seq<Ref> {
    match op case AllocateBytes(at, size) => (if size > 0 then [at] else []) case _ => []
  }

  function SymbolOf(heap: map<Ref, string>, op: Op): seq<(string, Entry)> {
    match op
    case AddSymbol(name, symbol) => if name in heap then [(heap[name], Entry(name, symbol))] else []
    case _ => []
  }

  function FileOf(heap: map<Ref, string>, op: Op): seq<(string, Entry)> {
    match op
    case AddFile(name, file) => if name in heap then [(heap[name], Entry(name, file))] else []
    case _ => []
  }

  function SymbolsIn(heap: map<Ref, string>): Op -> seq<(string, Entry)> {
    op => SymbolOf(heap, op)
  }

  function FilesIn(heap: map<Ref, string>): Op -> seq<(string, Entry)> {
    op => FileOf(heap, op)
  }

  function ExtensionOf(op: Op): seq<(ExtensionKey, Ref)> {
    match op case AddExtension(key, field) => [(key, field)] case _ => []
  }

  function Gather<T>(h: seq<Op>, put: Op -> seq<T>): seq<T> {
    if h == [] then [] else Gather(h[..|h| - 1], put) + put(h[|h| - 1])
  }

  /** No pair before the `i`-th has its key. */
  ghost predicate IsFirst<K, V>(pairs: seq<(K, V)>, i: nat) {
    i < |pairs| && forall j :: 0 <= j < i ==> pairs[j].0 != pairs[i].0
  }

  /** The table holds exactly the keys of the pairs, and leads from each to what
      came with it first. */
  ghost predicate FirstWins<K(!new), V>(pairs: seq<(K, V)>, table: map<K, V>) {
    && (forall k :: k in table ==> exists i: nat :: IsFirst(pairs, i) && pairs[i].0 == k)
    && (forall i: nat :: IsFirst(pairs, i) ==> pairs[i].0 in table && table[pairs[i].0] == pairs[i].1)
  }

  /** Every name in the operations belongs to a living string. */
  ghost predicate NamesLive(h: seq<Op>, heap: map<Ref, string>) {
    forall i :: 0 <= i < |h| ==>
      && (h[i].AddSymbol? ==> h[i].name in heap)
      && (h[i].AddFile? ==> h[i].fileName in heap)
  }

  ghost predicate ListsTold(h: seq<Op>, s: Tables) {
    && s.strings == Gather(h, AddressOf)
    && s.messages == Gather(h, MessageOf)
    && s.fileTables == Gather(h, FileTablesOf)
    && s.allocations == Gather(h, BlockOf)
    && FirstWins(Gather(h, StringOf), s.heap)
  }

  /** The lists and tables are what the operations `h`, one after the other,
      amount to: each object allocated is there, each string is spelled as it was
      made, and each name, file and extension leads to what was added first. */
  ghost predicate Told(h: seq<Op>, s: Tables) {
    && ListsTold(h, s)
    && NamesLive(h, s.heap)
    && FirstWins(Gather(h, SymbolsIn(s.heap)), s.symbolsByName)
    && FirstWins(Gather(h, FilesIn(s.heap)), s.filesByName)
    && FirstWins(Gather(h, ExtensionOf), s.extensions)
  }

  // ------------------------------------------------------------------ runs

  /** The tables after a run of operations on empty ones, if all are allowed. */
  function After(ops: seq<Op>): Option<Tables> {
    if ops == [] then Some(EMPTY)
    else
      match After(ops[..|ops| - 1])
      case None => None
      case Some(s) => if Allowed(s, ops[|ops| - 1]) then Some(Apply(s, ops[|ops| - 1])) else None
  }

  // ------------------------------------------------------------ one more

  lemma GatherStep<T>(h: seq<Op>, op: Op, put: Op -> seq<T>)
    ensures Gather(h + [op], put) == Gather(h, put) + put(op)
    ensures put(op) == [] ==> Gather(h + [op], put) == Gather(h, put)
  {
    assert (h + [op])[..|h|] == h;
  }

  lemma FirstWinsAdds<K(!new), V>(pairs: seq<(K, V)>, table: map<K, V>, k: K, v: V)
    requires FirstWins(pairs, table)
    ensures FirstWins(pairs + [(k, v)], if k in table then table else table[k := v])
  {
    var more := pairs + [(k, v)];
    var table' := if k in table then table else table[k := v];
    FirstsKept(pairs, k, v);
    if k !in table {
      forall j | 0 <= j < |pairs|
        ensures pairs[j].0 != k
      {
        var i := FirstOf(pairs, j);
      }
      assert IsFirst(more, |pairs|);
    } else {
      var i: nat :| IsFirst(pairs, i) && pairs[i].0 == k;
      assert !IsFirst(more, |pairs|) by {
        assert more[i].0 == more[|pairs|].0;
      }
    }
    forall l | l in table'
      ensures exists i: nat :: IsFirst(more, i) && more[i].0 == l
    {
      if l in table {
        var i: nat :| IsFirst(pairs, i) && pairs[i].0 == l;
        assert IsFirst(more, i) && more[i].0 == l;
      } else {
        assert IsFirst(more, |pairs|) && more[|pairs|].0 == l;
      }
    }
  }

  lemma FirstsKept<K, V>(pairs: seq<(K, V)>, k: K, v: V)
    ensures forall i: nat :: i < |pairs| ==> (IsFirst(pairs + [(k, v)], i) <==> IsFirst(pairs, i))
    ensures forall i: nat :: i < |pairs| ==> (pairs + [(k, v)])[i] == pairs[i]
  {
    var more := pairs + [(k, v)];
    forall i: nat | i < |pairs|
      ensures IsFirst(more, i) <==> IsFirst(pairs, i)
    {
      assert forall j :: 0 <= j <= i ==> more[j] == pairs[j];
    }
  }

  /** The first pair of a key. */
  lemma FirstOf<K, V>(pairs: seq<(K, V)>, j: nat) returns (i: nat)
    requires j < |pairs|
    ensures IsFirst(pairs, i) && pairs[i].0 == pairs[j].0
  {
    if IsFirst(pairs, j) {
      i := j;
    } else {
      var k :| 0 <= k < j && pairs[k].0 == pairs[j].0;
      i := FirstOf(pairs, k);
    }
  }

  /** More strings do not change how those that live are spelled. */
  lemma {:induction false} NamesSame(h: seq<Op>, heap: map<Ref, string>, heap': map<Ref, string>)
    requires NamesLive(h, heap) && forall r :: r in heap ==> r in heap' && heap'[r] == heap[r]
    ensures NamesLive(h, heap')
    ensures Gather(h, SymbolsIn(heap')) == Gather(h, SymbolsIn(heap))
    ensures Gather(h, FilesIn(heap')) == Gather(h, FilesIn(heap))
  {
    if h != [] {
      var n := |h| - 1;
      assert forall i :: 0 <= i < n ==> h[..n][i] == h[i];
      NamesSame(h[..n], heap, heap');
    }
  }

  lemma NamesLiveStep(h: seq<Op>, heap: map<Ref, string>, op: Op)
    requires NamesLive(h, heap)
    requires (op.AddSymbol? ==> op.name in heap) && (op.AddFile? ==> op.fileName in heap)
    ensures NamesLive(h + [op], heap)
  {
  }

  predicate IsPlain(op: Op) {
    !op.AddCheckpoint? && !op.ClearLastCheckpoint? && !op.RollbackToLastCheckpoint?
  }

  lemma ListsStep(h: seq<Op>, s: Tables, op: Op)
    requires Valid(s) && Allowed(s, op) && IsPlain(op) && ListsTold(h, s)
    ensures ListsTold(h + [op], Apply(s, op))
    ensures forall r :: r in s.heap ==> r in Apply(s, op).heap && Apply(s, op).heap[r] == s.heap[r]
    ensures op.AllocateString? || Apply(s, op).heap == s.heap
  {
    hide Valid, FirstWins, Gather;
    AllocatedNew(s, op);
    GatherStep(h, op, AddressOf);
    GatherStep(h, op, MessageOf);
    GatherStep(h, op, FileTablesOf);
    GatherStep(h, op, BlockOf);
    GatherStep(h, op, StringOf);
    if op.AllocateString? {
      FirstWinsAdds(Gather(h, StringOf), s.heap, op.at, op.value);
    }
  }

  lemma AllocatedNew(s: Tables, op: Op)
    requires Valid(s) && Allowed(s, op)
    ensures op.AllocateString? ==> op.at !in s.heap
    ensures op.AddSymbol? ==> op.name in s.heap
    ensures op.AddFile? ==> op.fileName in s.heap
  {
    hide KeysLive, SettledFor, Nested;
  }

  lemma ExtensionsStep(h: seq<Op>, s: Tables, op: Op)
    requires Allowed(s, op) && IsPlain(op) && FirstWins(Gather(h, ExtensionOf), s.extensions)
    ensures FirstWins(Gather(h + [op], ExtensionOf), Apply(s, op).extensions)
  {
    hide FirstWins, Gather;
    GatherStep(h, op, ExtensionOf);
    if op.AddExtension? {
      FirstWinsAdds(Gather(h, ExtensionOf), s.extensions, op.extensionKey, op.field);
    }
  }

  lemma SymbolsStep(h: seq<Op>, s: Tables, op: Op)
    requires Allowed(s, op) && IsPlain(op) && (op.AddSymbol? ==> op.name in s.heap)
    requires FirstWins(Gather(h, SymbolsIn(s.heap)), s.symbolsByName)
    ensures FirstWins(Gather(h + [op], SymbolsIn(s.heap)), Apply(s, op).symbolsByName)
  {
    hide FirstWins, Gather;
    GatherStep(h, op, SymbolsIn(s.heap));
    if op.AddSymbol? {
      FirstWinsAdds(Gather(h, SymbolsIn(s.heap)), s.symbolsByName, s.heap[op.name], Entry(op.name, op.symbol));
    }
  }

  lemma FilesStep(h: seq<Op>, s: Tables, op: Op)
    requires Allowed(s, op) && IsPlain(op) && (op.AddFile? ==> op.fileName in s.heap)
    requires FirstWins(Gather(h, FilesIn(s.heap)), s.filesByName)
    ensures FirstWins(Gather(h + [op], FilesIn(s.heap)), Apply(s, op).filesByName)
  {
    hide FirstWins, Gather;
    GatherStep(h, op, FilesIn(s.heap));
    if op.AddFile? {
      FirstWinsAdds(Gather(h, FilesIn(s.heap)), s.filesByName, s.heap[op.fileName], Entry(op.fileName, op.file));
    }
  }

  /** An operation other than those on checkpoints. */
  lemma ToldStep(h: seq<Op>, s: Tables, op: Op)
    requires Valid(s) && Allowed(s, op) && IsPlain(op) && Told(h, s)
    ensures Told(h + [op], Apply(s, op))
  {
    hide Valid, FirstWins, Gather, ListsTold, NamesLive, Apply, Allowed;
    AllocatedNew(s, op);
    ListsStep(h, s, op);
    ExtensionsStep(h, s, op);
    SymbolsStep(h, s, op);
    FilesStep(h, s, op);
    NamesLiveStep(h, s.heap, op);
    NamesSame(h + [op], s.heap, Apply(s, op).heap);
  }

  // --------------------------------------------------------------- the log

  lemma FlatTop(log: Log, top: seq<Op>)
    ensures Flat(log + [top]) == Flat(log) + top
  {
    assert (log + [top])[..|log|] == log;
  }

  /** The state when each open checkpoint was made, and that it is what a rollback
      would restore. */
  ghost predicate Backed(log: Log, s: Tables, bases: seq<Tables>) {
    && |log| == |bases| + 1 == |s.checkpoints| + 1
    && forall i :: 0 <= i < |bases| ==>
         && Valid(bases[i]) && |bases[i].checkpoints| == i && Since(bases[i], s)
         && Told(Flat(log[..i + 1]), bases[i])
  }

  lemma PlainStep(log: Log, s: Tables, bases: seq<Tables>, op: Op)
    requires Valid(s) && Told(Flat(log), s) && Backed(log, s, bases) && Allowed(s, op) && IsPlain(op)
    ensures Told(Flat(Logged(log, op)), Apply(s, op)) && Backed(Logged(log, op), Apply(s, op), bases)
  {
    hide Valid, Since, Told, Flat;
    var n := |log| - 1;
    ToldStep(Flat(log), s, op);
    assert log == log[..n] + [log[n]];
    FlatTop(log[..n], log[n]);
    FlatTop(log[..n], log[n] + [op]);
    Reassociate(Flat(log[..n]), log[n], [op]);
    KeepsCheckpoints(s, op);
    forall i | 0 <= i < |bases|
      ensures Since(bases[i], Apply(s, op)) && Logged(log, op)[..i + 1] == log[..i + 1]
    {
      SinceKept(bases[i], s, op);
    }
  }

  lemma KeepsCheckpoints(s: Tables, op: Op)
    requires Allowed(s, op) && IsPlain(op)
    ensures Apply(s, op).checkpoints == s.checkpoints
  {
  }

  lemma CheckpointStep(log: Log, s: Tables, bases: seq<Tables>)
    requires Valid(s) && Told(Flat(log), s) && Backed(log, s, bases)
    ensures var s' := Apply(s, AddCheckpoint);
            Told(Flat(Logged(log, AddCheckpoint)), s') && Backed(Logged(log, AddCheckpoint), s', bases + [s])
  {
    hide Valid, Since, Flat, FirstWins, NamesLive;
    var log', s', n := Logged(log, AddCheckpoint), Apply(s, AddCheckpoint), |bases|;
    FlatTop(log, []);
    assert Flat(log) + [] == Flat(log);
    SinceCheckpoint(s);
    forall i | 0 <= i < n + 1
      ensures Since((bases + [s])[i], s') && Told(Flat(log'[..i + 1]), (bases + [s])[i])
    {
      if i < n {
        SinceKept(bases[i], s, AddCheckpoint);
        assert log'[..i + 1] == log[..i + 1];
      } else {
        assert log'[..i + 1] == log;
      }
    }
  }

  lemma TopJoined(below: Log, a: seq<Op>, b: seq<Op>)
    ensures Flat(below + [a] + [b]) == Flat(below + [a + b])
  {
    hide Flat;
    FlatTop(below, a);
    FlatTop(below + [a], b);
    FlatTop(below, a + b);
    Reassociate(Flat(below), a, b);
  }

  lemma LayersJoined(log: Log)
    requires |log| > 1
    ensures Flat(Logged(log, ClearLastCheckpoint)) == Flat(log)
  {
    hide *;
    var n := |log| - 1;
    ClearJoins(log);
    LastTwo(log);
    TopJoined(log[..n - 1], log[n - 1], log[n]);
  }

  lemma ClearJoins(log: Log)
    requires |log| > 1
    ensures var n := |log| - 1;
            Logged(log, ClearLastCheckpoint) == log[..n - 1] + [log[n - 1] + log[n]]
  {
  }

  lemma LastTwo<T>(s: seq<T>)
    requires |s| > 1
    ensures s == s[..|s| - 2] + [s[|s| - 2]] + [s[|s| - 1]]
  {
  }

  lemma ClearTold(h: seq<Op>, s: Tables)
    requires Told(h, s) && s.checkpoints != []
    ensures Told(h, Apply(s, ClearLastCheckpoint))
  {
    hide FirstWins, NamesLive;
  }

  lemma ClearStep(log: Log, s: Tables, bases: seq<Tables>)
    requires Valid(s) && Told(Flat(log), s) && Backed(log, s, bases) && bases != []
    ensures var s' := Apply(s, ClearLastCheckpoint);
            && Told(Flat(Logged(log, ClearLastCheckpoint)), s')
            && Backed(Logged(log, ClearLastCheckpoint), s', bases[..|bases| - 1])
  {
    hide Valid, Since, Flat, Told;
    var log', s', n := Logged(log, ClearLastCheckpoint), Apply(s, ClearLastCheckpoint), |bases|;
    LayersJoined(log);
    ClearTold(Flat(log), s);
    forall i | 0 <= i < n - 1
      ensures Since(bases[i], s') && Told(Flat(log'[..i + 1]), bases[i])
    {
      SinceKept(bases[i], s, ClearLastCheckpoint);
      assert log'[..i + 1] == log[..i + 1];
    }
  }

  lemma RollbackStep(log: Log, s: Tables, bases: seq<Tables>)
    requires Valid(s) && Told(Flat(log), s) && Backed(log, s, bases) && bases != []
    requires Allowed(s, RollbackToLastCheckpoint)
    ensures var s' := Apply(s, RollbackToLastCheckpoint);
            && Told(Flat(Logged(log, RollbackToLastCheckpoint)), s')
            && Backed(Logged(log, RollbackToLastCheckpoint), s', bases[..|bases| - 1])
  {
    hide Valid, Since, Flat, Told, RolledBack;
    var log', s', n := Logged(log, RollbackToLastCheckpoint), Apply(s, RollbackToLastCheckpoint), |bases|;
    RollbackUndoes(bases[n - 1], s);
    assert s' == bases[n - 1] && log[..n - 1 + 1] == log';
    forall i | 0 <= i < n - 1
      ensures Since(bases[i], s') && Told(Flat(log'[..i + 1]), bases[i])
    {
      SinceKept(bases[i], s, RollbackToLastCheckpoint);
      assert log'[..i + 1] == log[..i + 1];
    }
  }

  lemma {:induction false} RunIsBacked(ops: seq<Op>) returns (bases: seq<Tables>)
    requires After(ops).Some?
    ensures var s := After(ops).value; Valid(s) && Told(Surviving(ops), s) && Backed(LogOf(ops), s, bases)
    decreases |ops|
  {
    hide Valid, Told, Backed, Apply, Logged, Flat;
    if ops == [] {
      bases := [];
      EmptyTold();
    } else {
      var before, op := ops[..|ops| - 1], ops[|ops| - 1];
      var s := After(before).value;
      bases := RunIsBacked(before);
      ValidKept(s, op);
      match op
      case AddCheckpoint =>
        CheckpointStep(LogOf(before), s, bases);
        bases := bases + [s];
      case ClearLastCheckpoint =>
        OpenCheckpoints(LogOf(before), s, bases);
        ClearStep(LogOf(before), s, bases);
        bases := bases[..|bases| - 1];
      case RollbackToLastCheckpoint =>
        OpenCheckpoints(LogOf(before), s, bases);
        RollbackStep(LogOf(before), s, bases);
        bases := bases[..|bases| - 1];
      case _ =>
        PlainStep(LogOf(before), s, bases, op);
    }
  }

  lemma OpenCheckpoints(log: Log, s: Tables, bases: seq<Tables>)
    requires Backed(log, s, bases) && (Allowed(s, ClearLastCheckpoint) || Allowed(s, RollbackToLastCheckpoint))
    ensures bases != []
  {
  }

  lemma EmptyTold()
    ensures Valid(EMPTY) && Told(Flat([[]]), EMPTY) && Backed([[]], EMPTY, [])
  {
    assert Flat([[]]) == Flat([]) + [] == [] by {
      FlatTop([], []);
    }
  }

  /** Over every run of operations on empty tables, the lists and tables are what
      the operations that were not rolled back amount to. */
  lemma EveryRunTold(ops: seq<Op>)
    requires After(ops).Some?
    ensures Told(Surviving(ops), After(ops).value)
    ensures |After(ops).value.checkpoints| == |LogOf(ops)| - 1
  {
    hide Valid, Told;
    var bases := RunIsBacked(ops);
  }
}
