/** `DescriptorPool::Tables`: lookup tables and allocation lists with nested
    checkpoints.  Map keys are pointers to strings the tables own. */
module PoolTables {
  /** The address of an allocated object. */
  type Ref = nat

  /** A table entry: the string its key points to, and the descriptor. */
  datatype Entry = Entry(key: Ref, descriptor: Ref)

  /** The sizes of all lists when `AddCheckpoint` was called. */
  datatype CheckPoint = CheckPoint(
    strings: nat, messages: nat, fileTables: nat, allocations: nat,
    pendingSymbols: nat, pendingFiles: nat, pendingExtensions: nat)

  /** An extension is found by its containing type and number. */
  type ExtensionKey = (Ref, int)

  datatype Tables = Tables(
    heap: map<Ref, string>,
    strings: seq<Ref>, messages: seq<Ref>, fileTables: seq<Ref>, allocations: seq<Ref>,
    symbolsByName: map<string, Entry>, filesByName: map<string, Entry>, extensions: map<ExtensionKey, Ref>,
    checkpoints: seq<CheckPoint>,
    symbolsAfter: seq<Ref>, filesAfter: seq<Ref>, extensionsAfter: seq<ExtensionKey>)

  // --------------------------------------------------------------- operations

  /** The characters a key pointer leads to, while its string lives. */
  function Key(heap: map<Ref, string>, r: Ref): string {
    if r in heap then heap[r] else ""
  }

  function Keys(heap: map<Ref, string>, refs: seq<Ref>): (ks: seq<string>)
    ensures |ks| == |refs|
    ensures forall i :: 0 <= i < |refs| ==> ks[i] == Key(heap, refs[i])
  {
    seq(|refs|, i requires 0 <= i < |refs| => Key(heap, refs[i]))
  }

  function EraseAll<K(==), V>(m: map<K, V>, ks: seq<K>): map<K, V> {
    map k | k in m && k !in ks :: m[k]
  }

  function Sizes(s: Tables): CheckPoint {
    CheckPoint(|s.strings|, |s.messages|, |s.fileTables|, |s.allocations|,
               |s.symbolsAfter|, |s.filesAfter|, |s.extensionsAfter|)
  }

  datatype Op =
    | AddCheckpoint
    | ClearLastCheckpoint
    | RollbackToLastCheckpoint
    | AddSymbol(name: Ref, symbol: Ref)
    | AddFile(fileName: Ref, file: Ref)
    | AddExtension(extensionKey: ExtensionKey, field: Ref)
    | AllocateString(at: Ref, value: string)
    | AllocateMessage(at: Ref)
    | AllocateFileTables(at: Ref)
    | AllocateBytes(at: Ref, size: nat)

  /** What the tables demand of their callers: a checkpoint to clear or roll back
      to, names made by `AllocateString`, and new addresses from the allocator. */
  predicate Allowed(s: Tables, op: Op) {
    match op
    case ClearLastCheckpoint => s.checkpoints != []
    case RollbackToLastCheckpoint => CanRollBack(s)
    case AddSymbol(name, _) => name in s.strings
    case AddFile(name, _) => name in s.strings
    case AllocateString(at, _) => at !in s.strings
    case _ => true
  }

  predicate CanRollBack(s: Tables) {
    s.checkpoints != [] && AtMost(s.checkpoints[|s.checkpoints| - 1], Sizes(s))
  }

  /** The strings that are left when only some references are kept. */
  function Living(heap: map<Ref, string>, kept: seq<Ref>): map<Ref, string> {
    map r | r in heap && r in kept :: heap[r]
  }

  /** `RollbackToLastCheckpoint`: names are erased while their strings still live. */
  function RolledBack(s: Tables): Tables
    requires CanRollBack(s)
  {
    var c := s.checkpoints[|s.checkpoints| - 1];
    Tables(
      Living(s.heap, s.strings[..c.strings]),
      s.strings[..c.strings], s.messages[..c.messages], s.fileTables[..c.fileTables], s.allocations[..c.allocations],
      EraseAll(s.symbolsByName, Keys(s.heap, s.symbolsAfter[c.pendingSymbols..])),
      EraseAll(s.filesByName, Keys(s.heap, s.filesAfter[c.pendingFiles..])),
      EraseAll(s.extensions, s.extensionsAfter[c.pendingExtensions..]),
      s.checkpoints[..|s.checkpoints| - 1],
      s.symbolsAfter[..c.pendingSymbols], s.filesAfter[..c.pendingFiles], s.extensionsAfter[..c.pendingExtensions])
  }

  function Apply(s: Tables, op: Op): Tables
    requires Allowed(s, op)
  {
    match op
    case AddCheckpoint => s.(checkpoints := s.checkpoints + [Sizes(s)])
    case ClearLastCheckpoint =>
      var left := s.checkpoints[..|s.checkpoints| - 1];
      if left == [] then s.(checkpoints := left, symbolsAfter := [], filesAfter := [], extensionsAfter := [])
      else s.(checkpoints := left)
    case RollbackToLastCheckpoint => RolledBack(s)
    case AddSymbol(name, symbol) =>
      if Key(s.heap, name) in s.symbolsByName then s
      else s.(symbolsByName := s.symbolsByName[Key(s.heap, name) := Entry(name, symbol)],
              symbolsAfter := s.symbolsAfter + [name])
    case AddFile(name, file) =>
      if Key(s.heap, name) in s.filesByName then s
      else s.(filesByName := s.filesByName[Key(s.heap, name) := Entry(name, file)],
              filesAfter := s.filesAfter + [name])
    case AddExtension(key, field) =>
      if key in s.extensions then s
      else s.(extensions := s.extensions[key := field], extensionsAfter := s.extensionsAfter + [key])
    case AllocateString(at, value) => s.(heap := s.heap[at := value], strings := s.strings + [at])
    case AllocateMessage(at) => s.(messages := s.messages + [at])
    case AllocateFileTables(at) => s.(fileTables := s.fileTables + [at])
    case AllocateBytes(at, size) => if size == 0 then s else s.(allocations := s.allocations + [at])
  }

  // ---------------------------------------------------------------- invariant

  predicate AtMost(c: CheckPoint, d: CheckPoint) {
    && c.strings <= d.strings && c.messages <= d.messages && c.fileTables <= d.fileTables
    && c.allocations <= d.allocations && c.pendingSymbols <= d.pendingSymbols
    && c.pendingFiles <= d.pendingFiles && c.pendingExtensions <= d.pendingExtensions
  }

  function Next(cs: seq<CheckPoint>, now: CheckPoint, i: nat): CheckPoint {
    if i + 1 < |cs| then cs[i + 1] else now
  }

  /** Checkpoints are nested: each is within the next, the last within the present. */
  predicate Nested(cs: seq<CheckPoint>, now: CheckPoint) {
    forall i :: 0 <= i < |cs| ==> AtMost(cs[i], Next(cs, now, i))
  }

  /** Every key of the table points to a living string that spells it. */
  ghost predicate KeysLive(heap: map<Ref, string>, table: map<string, Entry>) {
    forall k :: k in table ==> table[k].key in heap && heap[table[k].key] == k
  }

  /** Names added before a checkpoint belong to strings allocated before it, and
      what is left of the table without the names added since points there too. */
  ghost predicate SettledAt(heap: map<Ref, string>, table: map<string, Entry>, after: seq<Ref>, pending: nat,
                            kept: seq<Ref>)
  {
    && pending <= |after|
    && (forall i :: 0 <= i < pending ==> after[i] in kept)
    && (forall k :: k in EraseAll(table, Keys(heap, after[pending..])) ==> table[k].key in kept)
  }

  ghost predicate Valid(s: Tables) {
    && (forall r :: r in s.heap <==> r in s.strings)
    && (forall i, j :: 0 <= i < j < |s.strings| ==> s.strings[i] != s.strings[j])
    && KeysLive(s.heap, s.symbolsByName) && KeysLive(s.heap, s.filesByName)
    && (forall i :: 0 <= i < |s.symbolsAfter| ==> s.symbolsAfter[i] in s.heap)
    && (forall i :: 0 <= i < |s.filesAfter| ==> s.filesAfter[i] in s.heap)
    && Nested(s.checkpoints, Sizes(s))
    && (forall i :: 0 <= i < |s.checkpoints| ==> SettledFor(s, s.checkpoints[i]))
  }

  ghost predicate SettledFor(s: Tables, c: CheckPoint) {
    && c.strings <= |s.strings|
    && SettledAt(s.heap, s.symbolsByName, s.symbolsAfter, c.pendingSymbols, s.strings[..c.strings])
    && SettledAt(s.heap, s.filesByName, s.filesAfter, c.pendingFiles, s.strings[..c.strings])
  }

  const EMPTY: Tables := Tables(map[], [], [], [], [], map[], map[], map[], [], [], [], [])

  // ------------------------------------------------- the invariant is kept

  lemma {:induction false} NestedWithin(cs: seq<CheckPoint>, now: CheckPoint, i: nat, j: nat)
    requires Nested(cs, now) && i <= j < |cs|
    ensures AtMost(cs[i], cs[j]) && AtMost(cs[i], now)
    decreases |cs| - i
  {
    assert AtMost(cs[i], Next(cs, now, i));
    if i + 1 < |cs| {
      NestedWithin(cs, now, i + 1, if i < j then j else i + 1);
    }
  }

  lemma NestedGrows(cs: seq<CheckPoint>, now: CheckPoint, later: CheckPoint)
    requires Nested(cs, now) && AtMost(now, later)
    ensures Nested(cs, later)
  {
    forall i | 0 <= i < |cs| ensures AtMost(cs[i], Next(cs, later, i)) {
      assert AtMost(cs[i], Next(cs, now, i));
    }
  }

  lemma NestedPrefix(cs: seq<CheckPoint>, now: CheckPoint)
    requires Nested(cs, now) && cs != []
    ensures Nested(cs[..|cs| - 1], cs[|cs| - 1]) && Nested(cs[..|cs| - 1], now)
  {
    var n := |cs| - 1;
    forall i | 0 <= i < n
      ensures AtMost(cs[..n][i], Next(cs[..n], cs[n], i)) && AtMost(cs[..n][i], Next(cs[..n], now, i))
    {
      assert AtMost(cs[i], Next(cs, now, i));
      NestedWithin(cs, now, i, i);
    }
  }

  lemma NestedExtended(cs: seq<CheckPoint>, now: CheckPoint)
    requires Nested(cs, now)
    ensures Nested(cs + [now], now)
  {
    forall i | 0 <= i < |cs| + 1 ensures AtMost((cs + [now])[i], Next(cs + [now], now, i)) {
      assert i < |cs| ==> AtMost(cs[i], Next(cs, now, i));
    }
  }

  /** Keys already read keep their spelling while their strings live. */
  lemma KeysSame(heap: map<Ref, string>, heap': map<Ref, string>, refs: seq<Ref>)
    requires forall i :: 0 <= i < |refs| ==> refs[i] in heap && refs[i] in heap' && heap[refs[i]] == heap'[refs[i]]
    ensures Keys(heap, refs) == Keys(heap', refs)
  {
  }

  /** More strings, and names added behind the checkpoint, change nothing before it. */
  lemma SettledGrows(heap: map<Ref, string>, heap': map<Ref, string>, table: map<string, Entry>, after: seq<Ref>,
                     pending: nat, kept: seq<Ref>)
    requires SettledAt(heap, table, after, pending, kept)
    requires forall r :: r in heap ==> r in heap' && heap'[r] == heap[r]
    requires forall i :: 0 <= i < |after| ==> after[i] in heap
    ensures SettledAt(heap', table, after, pending, kept)
  {
    KeysSame(heap, heap', after[pending..]);
  }

  lemma SettledAdds(heap: map<Ref, string>, table: map<string, Entry>, after: seq<Ref>, pending: nat, kept: seq<Ref>,
                    name: Ref, descriptor: Ref)
    requires SettledAt(heap, table, after, pending, kept) && Key(heap, name) !in table
    ensures SettledAt(heap, table[Key(heap, name) := Entry(name, descriptor)], after + [name], pending, kept)
    ensures EraseAll(table[Key(heap, name) := Entry(name, descriptor)], Keys(heap, (after + [name])[pending..])) ==
            EraseAll(table, Keys(heap, after[pending..]))
  {
    var table', after' := table[Key(heap, name) := Entry(name, descriptor)], after + [name];
    assert after'[pending..] == after[pending..] + [name];
    assert Keys(heap, after'[pending..]) == Keys(heap, after[pending..]) + [Key(heap, name)];
    ErasedWithAdded(table, Keys(heap, after[pending..]), Key(heap, name), Entry(name, descriptor));
  }

  lemma ErasedWithAdded<K, V>(m: map<K, V>, ks: seq<K>, k: K, v: V)
    requires k !in m
    ensures EraseAll(m[k := v], ks + [k]) == EraseAll(m, ks)
  {
  }

  lemma ErasedTwice<K, V>(m: map<K, V>, ks: seq<K>, ls: seq<K>)
    ensures EraseAll(EraseAll(m, ls), ks) == EraseAll(m, ks + ls)
    ensures forall k :: k in EraseAll(m, ks + ls) ==> k in EraseAll(m, ls)
    ensures forall k :: k in EraseAll(m, ls) ==> k in m && EraseAll(m, ls)[k] == m[k]
  {
  }

  lemma ErasedInTwo<K, V>(m: map<K, V>, ks: seq<K>, from: nat, to: nat)
    requires from <= to <= |ks|
    ensures EraseAll(EraseAll(m, ks[to..]), ks[..to][from..]) == EraseAll(m, ks[from..])
  {
    hide EraseAll;
    assert ks[..to][from..] + ks[to..] == ks[from..];
    ErasedTwice(m, ks[..to][from..], ks[to..]);
  }

  lemma KeysConcat(heap: map<Ref, string>, a: seq<Ref>, b: seq<Ref>)
    ensures Keys(heap, a + b) == Keys(heap, a) + Keys(heap, b)
  {
  }

  /** Rolling one table back to an inner checkpoint. */
  lemma SettledRollsBack(heap: map<Ref, string>, heap': map<Ref, string>, table: map<string, Entry>, after: seq<Ref>,
                         pending: nat, kept: seq<Ref>, inner: nat, innerKept: seq<Ref>)
    requires SettledAt(heap, table, after, pending, kept) && SettledAt(heap, table, after, inner, innerKept)
    requires pending <= inner && forall r :: r in innerKept ==> r in heap && r in heap' && heap'[r] == heap[r]
    ensures SettledAt(heap', EraseAll(table, Keys(heap, after[inner..])), after[..inner], pending, kept)
    ensures EraseAll(EraseAll(table, Keys(heap, after[inner..])), Keys(heap', after[..inner][pending..])) ==
            EraseAll(table, Keys(heap, after[pending..]))
  {
    hide Keys, EraseAll;
    var table', after' := EraseAll(table, Keys(heap, after[inner..])), after[..inner];
    assert forall i :: 0 <= i < inner ==> after'[i] == after[i];
    assert after'[pending..] + after[inner..] == after[pending..];
    KeysSame(heap, heap', after'[pending..]);
    KeysConcat(heap, after'[pending..], after[inner..]);
    ErasedTwice(table, Keys(heap, after'[pending..]), Keys(heap, after[inner..]));
  }

  lemma KeysLiveAfterRollback(heap: map<Ref, string>, heap': map<Ref, string>, table: map<string, Entry>,
                              after: seq<Ref>, inner: nat, innerKept: seq<Ref>)
    requires KeysLive(heap, table) && SettledAt(heap, table, after, inner, innerKept)
    requires forall r :: r in innerKept ==> r in heap && r in heap' && heap'[r] == heap[r]
    ensures KeysLive(heap', EraseAll(table, Keys(heap, after[inner..])))
  {
  }

  lemma RollbackKeepsValid(s: Tables)
    requires Valid(s) && CanRollBack(s)
    ensures Valid(RolledBack(s))
  {
    hide SettledAt, KeysLive, Keys, EraseAll, Nested, SettledFor;
    var n := |s.checkpoints| - 1;
    var c := s.checkpoints[n];
    var s' := RolledBack(s);
    SettledParts(s, c);
    var kept := s.strings[..c.strings];
    assert forall r :: r in kept ==> r in s.strings;
    KeysLiveAfterRollback(s.heap, s'.heap, s.symbolsByName, s.symbolsAfter, c.pendingSymbols, kept);
    KeysLiveAfterRollback(s.heap, s'.heap, s.filesByName, s.filesAfter, c.pendingFiles, kept);
    PendingSettled(s.heap, s.symbolsByName, s.symbolsAfter, c.pendingSymbols, kept);
    PendingSettled(s.heap, s.filesByName, s.filesAfter, c.pendingFiles, kept);
    assert Sizes(s') == c;
    NestedPrefix(s.checkpoints, Sizes(s));
    forall i | 0 <= i < n ensures SettledFor(s', s'.checkpoints[i]) {
      RollbackSettles(s, i);
    }
  }

  lemma SettledParts(s: Tables, c: CheckPoint)
    requires SettledFor(s, c)
    ensures c.strings <= |s.strings|
    ensures SettledAt(s.heap, s.symbolsByName, s.symbolsAfter, c.pendingSymbols, s.strings[..c.strings])
    ensures SettledAt(s.heap, s.filesByName, s.filesAfter, c.pendingFiles, s.strings[..c.strings])
  {
  }

  lemma RollbackSettles(s: Tables, i: nat)
    requires Valid(s) && CanRollBack(s) && i < |s.checkpoints| - 1
    ensures SettledFor(RolledBack(s), s.checkpoints[i])
  {
    hide SettledAt, KeysLive, Keys, EraseAll, Nested;
    var n := |s.checkpoints| - 1;
    var c, d := s.checkpoints[n], s.checkpoints[i];
    var s' := RolledBack(s);
    var kept := s.strings[..c.strings];
    assert SettledFor(s, c) && SettledFor(s, d);
    assert forall r :: r in kept ==> r in s.strings;
    NestedWithin(s.checkpoints, Sizes(s), i, n);
    assert s'.strings[..d.strings] == s.strings[..d.strings];
    SettledRollsBack(s.heap, s'.heap, s.symbolsByName, s.symbolsAfter, d.pendingSymbols, s.strings[..d.strings],
                     c.pendingSymbols, kept);
    SettledRollsBack(s.heap, s'.heap, s.filesByName, s.filesAfter, d.pendingFiles, s.strings[..d.strings],
                     c.pendingFiles, kept);
  }

  lemma PendingSettled(heap: map<Ref, string>, table: map<string, Entry>, after: seq<Ref>, pending: nat, kept: seq<Ref>)
    requires SettledAt(heap, table, after, pending, kept)
    ensures pending <= |after| && forall i :: 0 <= i < pending ==> after[i] in kept
  {
  }

  lemma CheckpointKeepsValid(s: Tables)
    requires Valid(s)
    ensures Valid(Apply(s, AddCheckpoint))
  {
    var s' := Apply(s, AddCheckpoint);
    var n := |s.checkpoints|;
    assert s.strings[..|s.strings|] == s.strings;
    assert SettledFor(s', Sizes(s));
    NestedExtended(s.checkpoints, Sizes(s));
    forall i | 0 <= i < n ensures SettledFor(s', s'.checkpoints[i]) {
      assert SettledFor(s, s.checkpoints[i]);
    }
  }

  lemma ClearKeepsValid(s: Tables)
    requires Valid(s) && s.checkpoints != []
    ensures Valid(Apply(s, ClearLastCheckpoint))
  {
    hide SettledAt, KeysLive;
    var s' := Apply(s, ClearLastCheckpoint);
    var n := |s.checkpoints| - 1;
    NestedPrefix(s.checkpoints, Sizes(s));
    if n > 0 {
      forall i | 0 <= i < n ensures SettledFor(s', s'.checkpoints[i]) {
        assert SettledFor(s, s.checkpoints[i]);
      }
    }
  }

  lemma AddSettles(s: Tables, op: Op, c: CheckPoint)
    requires SettledFor(s, c) && Allowed(s, op) && (op.AddSymbol? || op.AddFile?)
    ensures SettledFor(Apply(s, op), c)
  {
    hide SettledAt, Keys, EraseAll, Key;
    if Apply(s, op) != s {
      if op.AddSymbol? {
        SettledAdds(s.heap, s.symbolsByName, s.symbolsAfter, c.pendingSymbols, s.strings[..c.strings], op.name,
            op.symbol);
      } else {
        SettledAdds(s.heap, s.filesByName, s.filesAfter, c.pendingFiles, s.strings[..c.strings], op.fileName, op.file);
      }
    }
  }

  lemma AddKeepsValid(s: Tables, op: Op)
    requires Valid(s) && Allowed(s, op) && (op.AddSymbol? || op.AddFile?)
    ensures Valid(Apply(s, op))
  {
    hide SettledFor, Nested;
    var s' := Apply(s, op);
    NestedGrows(s.checkpoints, Sizes(s), Sizes(s'));
    forall i | 0 <= i < |s.checkpoints| ensures SettledFor(s', s'.checkpoints[i]) {
      AddSettles(s, op, s.checkpoints[i]);
    }
  }

  predicate IsAllocation(op: Op) {
    op.AddExtension? || op.AllocateString? || op.AllocateMessage? || op.AllocateFileTables? || op.AllocateBytes?
  }

  lemma AllocateSettles(s: Tables, op: Op, c: CheckPoint)
    requires Valid(s) && SettledFor(s, c) && Allowed(s, op) && IsAllocation(op)
    ensures SettledFor(Apply(s, op), c)
  {
    hide SettledAt, Nested, KeysLive;
    var s' := Apply(s, op);
    assert s'.strings[..c.strings] == s.strings[..c.strings];
    SettledGrows(s.heap, s'.heap, s.symbolsByName, s.symbolsAfter, c.pendingSymbols, s.strings[..c.strings]);
    SettledGrows(s.heap, s'.heap, s.filesByName, s.filesAfter, c.pendingFiles, s.strings[..c.strings]);
  }

  lemma AllocateKeepsValid(s: Tables, op: Op)
    requires Valid(s) && Allowed(s, op) && IsAllocation(op)
    ensures Valid(Apply(s, op))
  {
    hide SettledFor, Nested, KeysLive, Keys;
    var s' := Apply(s, op);
    HeapGrows(s, op);
    NestedGrows(s.checkpoints, Sizes(s), Sizes(s'));
    KeysLiveGrows(s.heap, s'.heap, s.symbolsByName);
    KeysLiveGrows(s.heap, s'.heap, s.filesByName);
    forall i | 0 <= i < |s.checkpoints| ensures SettledFor(s', s'.checkpoints[i]) {
      AllocateSettles(s, op, s.checkpoints[i]);
    }
  }

  lemma KeysLiveGrows(heap: map<Ref, string>, heap': map<Ref, string>, table: map<string, Entry>)
    requires KeysLive(heap, table) && forall r :: r in heap ==> r in heap' && heap'[r] == heap[r]
    ensures KeysLive(heap', table)
  {
  }

  /** Every operation keeps the invariant; in particular no key ever points to a
      deleted string. */
  lemma ValidKept(s: Tables, op: Op)
    requires Valid(s) && Allowed(s, op)
    ensures Valid(Apply(s, op)) && KeysLive(Apply(s, op).heap, Apply(s, op).symbolsByName)
                                && KeysLive(Apply(s, op).heap, Apply(s, op).filesByName)
  {
    hide SettledFor, KeysLive, RolledBack, Nested;
    match op
    case AddCheckpoint => CheckpointKeepsValid(s);
    case ClearLastCheckpoint => ClearKeepsValid(s);
    case RollbackToLastCheckpoint => RollbackKeepsValid(s);
    case AddSymbol(_, _) => AddKeepsValid(s, op);
    case AddFile(_, _) => AddKeepsValid(s, op);
    case _ => AllocateKeepsValid(s, op);
  }

  lemma ValidCanRollBack(s: Tables)
    requires Valid(s) && s.checkpoints != []
    ensures CanRollBack(s)
  {
    NestedWithin(s.checkpoints, Sizes(s), |s.checkpoints| - 1, |s.checkpoints| - 1);
  }

  // ------------------------------------------------------------- whole runs

  /** `s` came from a checkpoint taken at `s0`, which is still in place: lists have
      only grown. */
  ghost predicate SinceLists(s0: Tables, s: Tables) {
    && |s.checkpoints| > |s0.checkpoints|
    && s.checkpoints[..|s0.checkpoints| + 1] == s0.checkpoints + [Sizes(s0)]
    && s0.strings <= s.strings && s0.messages <= s.messages
    && s0.fileTables <= s.fileTables && s0.allocations <= s.allocations
    && s0.symbolsAfter <= s.symbolsAfter && s0.filesAfter <= s.filesAfter && s0.extensionsAfter <= s.extensionsAfter
    && forall r :: r in s0.heap ==> r in s.heap && s.heap[r] == s0.heap[r]
  }

  /** Without the names added since, the tables are those of `s0`. */
  ghost predicate SinceMaps(s0: Tables, s: Tables)
    requires SinceLists(s0, s)
  {
    && EraseAll(s.symbolsByName, Keys(s.heap, s.symbolsAfter[|s0.symbolsAfter|..])) == s0.symbolsByName
    && EraseAll(s.filesByName, Keys(s.heap, s.filesAfter[|s0.filesAfter|..])) == s0.filesByName
    && EraseAll(s.extensions, s.extensionsAfter[|s0.extensionsAfter|..]) == s0.extensions
  }

  ghost predicate Since(s0: Tables, s: Tables) {
    SinceLists(s0, s) && SinceMaps(s0, s)
  }

  lemma SinceCheckpoint(s: Tables)
    ensures Since(s, Apply(s, AddCheckpoint))
  {
  }

  /** The strings of `s0` are among the first ones later. */
  lemma StringsFirst(s0: Tables, s: Tables, r: Ref, n: nat)
    requires Valid(s0) && SinceLists(s0, s) && r in s0.heap && |s0.strings| <= n <= |s.strings|
    ensures r in s.heap && r in s.strings[..n]
  {
    var i :| 0 <= i < |s0.strings| && s0.strings[i] == r;
    assert s.strings[..n][i] == s.strings[i] == s0.strings[i];
  }

  lemma RollbackKeepsLists(s0: Tables, s: Tables)
    requires Valid(s0) && Valid(s) && SinceLists(s0, s) && CanRollBack(s) && |s.checkpoints| > |s0.checkpoints| + 1
    ensures AtMost(Sizes(s0), s.checkpoints[|s.checkpoints| - 1]) && SinceLists(s0, RolledBack(s))
  {
    hide SettledFor, KeysLive, Keys, EraseAll, Nested;
    var n, m := |s.checkpoints| - 1, |s0.checkpoints|;
    var c, s' := s.checkpoints[n], RolledBack(s);
    assert s.checkpoints[m] == s.checkpoints[..m + 1][m] == Sizes(s0);
    NestedWithin(s.checkpoints, Sizes(s), m, n);
    assert s'.checkpoints[..m + 1] == s.checkpoints[..m + 1];
    forall r | r in s0.heap ensures r in s'.heap && s'.heap[r] == s0.heap[r] {
      StringsFirst(s0, s, r, c.strings);
    }
  }

  lemma RollbackKeepsSince(s0: Tables, s: Tables)
    requires Valid(s0) && Valid(s) && Since(s0, s) && CanRollBack(s) && |s.checkpoints| > |s0.checkpoints| + 1
    ensures Since(s0, RolledBack(s))
  {
    hide SettledAt, KeysLive, Keys, EraseAll, Nested, SinceLists;
    RollbackKeepsLists(s0, s);
    var c, s' := s.checkpoints[|s.checkpoints| - 1], RolledBack(s);
    BaseSettled(s0, s);
    assert SettledFor(s, c);
    var kept := s.strings[..c.strings];
    assert forall r :: r in kept ==> r in s.strings;
    SettledRollsBack(s.heap, s'.heap, s.symbolsByName, s.symbolsAfter, |s0.symbolsAfter|, s.strings[..|s0.strings|],
                     c.pendingSymbols, kept);
    SettledRollsBack(s.heap, s'.heap, s.filesByName, s.filesAfter, |s0.filesAfter|, s.strings[..|s0.strings|],
                     c.pendingFiles, kept);
    ErasedInTwo(s.extensions, s.extensionsAfter, |s0.extensionsAfter|, c.pendingExtensions);
  }

  lemma BaseSettled(s0: Tables, s: Tables)
    requires Valid(s) && SinceLists(s0, s)
    ensures SettledFor(s, Sizes(s0))
  {
    hide SettledFor;
    var m := |s0.checkpoints|;
    assert s.checkpoints[m] == s.checkpoints[..m + 1][m] == Sizes(s0);
  }

  lemma AddKeepsSince(s0: Tables, s: Tables, op: Op)
    requires Valid(s) && Since(s0, s) && Allowed(s, op) && (op.AddSymbol? || op.AddFile?)
    ensures Since(s0, Apply(s, op))
  {
    hide SettledAt, Keys, EraseAll, Key, KeysLive, Nested;
    BaseSettled(s0, s);
    if Apply(s, op) != s {
      if op.AddSymbol? {
        SettledAdds(s.heap, s.symbolsByName, s.symbolsAfter, |s0.symbolsAfter|, s.strings[..|s0.strings|], op.name,
            op.symbol);
      } else {
        SettledAdds(s.heap, s.filesByName, s.filesAfter, |s0.filesAfter|, s.strings[..|s0.strings|], op.fileName,
            op.file);
      }
    }
  }

  lemma AllocateKeepsSince(s0: Tables, s: Tables, op: Op)
    requires Valid(s) && Since(s0, s) && Allowed(s, op) && IsAllocation(op) && !op.AddExtension?
    ensures Since(s0, Apply(s, op))
  {
    hide Valid, EraseAll, Keys;
    HeapGrows(s, op);
    SuffixKeysSame(s, Apply(s, op), |s0.symbolsAfter|, |s0.filesAfter|);
  }

  lemma HeapGrows(s: Tables, op: Op)
    requires Valid(s) && Allowed(s, op) && IsAllocation(op)
    ensures forall r :: r in s.heap ==> r in Apply(s, op).heap && Apply(s, op).heap[r] == s.heap[r]
  {
    hide KeysLive, Nested, SettledFor;
  }

  lemma ExtensionKeepsSince(s0: Tables, s: Tables, op: Op)
    requires Since(s0, s) && Allowed(s, op) && op.AddExtension?
    ensures Since(s0, Apply(s, op))
  {
    hide EraseAll, Keys;
    var s' := Apply(s, op);
    if s' != s {
      var after := s.extensionsAfter[|s0.extensionsAfter|..];
      assert s'.extensionsAfter[|s0.extensionsAfter|..] == after + [op.extensionKey];
      ErasedWithAdded(s.extensions, after, op.extensionKey, op.field);
    }
  }

  /** More strings leave the spelling of the names entered so far alone. */
  lemma SuffixKeysSame(s: Tables, s': Tables, m: nat, n: nat)
    requires Valid(s) && m <= |s.symbolsAfter| && n <= |s.filesAfter|
    requires forall r :: r in s.heap ==> r in s'.heap && s'.heap[r] == s.heap[r]
    ensures Keys(s'.heap, s.symbolsAfter[m..]) == Keys(s.heap, s.symbolsAfter[m..])
    ensures Keys(s'.heap, s.filesAfter[n..]) == Keys(s.heap, s.filesAfter[n..])
  {
    hide KeysLive, Nested, SettledFor, Keys;
    KeysSame(s.heap, s'.heap, s.symbolsAfter[m..]);
    KeysSame(s.heap, s'.heap, s.filesAfter[n..]);
  }

  lemma CheckpointsKeepSince(s0: Tables, s: Tables, op: Op)
    requires Since(s0, s) && Allowed(s, op) && (op.AddCheckpoint? || op.ClearLastCheckpoint?)
    requires |Apply(s, op).checkpoints| > |s0.checkpoints|
    ensures Since(s0, Apply(s, op))
  {
    hide EraseAll, Keys;
    assert Apply(s, op).checkpoints[..|s0.checkpoints| + 1] == s.checkpoints[..|s0.checkpoints| + 1];
  }

  /** Operations above a checkpoint leave what it will restore in place. */
  lemma SinceKept(s0: Tables, s: Tables, op: Op)
    requires Valid(s0) && Valid(s) && Since(s0, s) && Allowed(s, op)
    requires |Apply(s, op).checkpoints| > |s0.checkpoints|
    ensures Since(s0, Apply(s, op))
  {
    hide Valid, Since, EraseAll, Keys, Living;
    match op
    case AddCheckpoint => CheckpointsKeepSince(s0, s, op);
    case ClearLastCheckpoint => CheckpointsKeepSince(s0, s, op);
    case RollbackToLastCheckpoint => RollbackKeepsSince(s0, s);
    case AddSymbol(_, _) => AddKeepsSince(s0, s, op);
    case AddFile(_, _) => AddKeepsSince(s0, s, op);
    case AddExtension(_, _) => ExtensionKeepsSince(s0, s, op);
    case _ => AllocateKeepsSince(s0, s, op);
  }

  /** A run of allowed operations that keeps more than `floor` checkpoints. */
  predicate StaysAbove(s: Tables, ops: seq<Op>, floor: nat)
    decreases |ops|
  {
    ops != [] ==>
      && Allowed(s, ops[0])
      && |Apply(s, ops[0]).checkpoints| > floor
      && StaysAbove(Apply(s, ops[0]), ops[1..], floor)
  }

  function Run(s: Tables, ops: seq<Op>, floor: nat): Tables
    requires StaysAbove(s, ops, floor)
    decreases |ops|
  {
    if ops == [] then s else Run(Apply(s, ops[0]), ops[1..], floor)
  }

  lemma {:induction false} RunKeeps(s0: Tables, s: Tables, ops: seq<Op>)
    requires Valid(s0) && Valid(s) && Since(s0, s) && StaysAbove(s, ops, |s0.checkpoints|)
    ensures Valid(Run(s, ops, |s0.checkpoints|)) && Since(s0, Run(s, ops, |s0.checkpoints|))
    decreases |ops|
  {
    hide Valid, Since, Apply, Allowed;
    if ops != [] {
      ValidKept(s, ops[0]);
      SinceKept(s0, s, ops[0]);
      RunKeeps(s0, Apply(s, ops[0]), ops[1..]);
    }
  }

  /** Rolling back right above `s0` gives `s0` again. */
  lemma RollbackUndoes(s0: Tables, s: Tables)
    requires Valid(s0) && Valid(s) && Since(s0, s) && |s.checkpoints| == |s0.checkpoints| + 1
    ensures CanRollBack(s) && RolledBack(s) == s0
  {
    hide SettledFor, KeysLive, Nested, EraseAll, Keys;
    ValidCanRollBack(s);
    var m := |s0.checkpoints|;
    assert s.checkpoints == s.checkpoints[..m + 1] == s0.checkpoints + [Sizes(s0)];
    assert s.checkpoints[m] == Sizes(s0);
    var s' := RolledBack(s);
    assert s'.strings == s0.strings && s'.messages == s0.messages;
    assert s'.checkpoints == s0.checkpoints;
    assert s'.heap == s0.heap;
  }

  /** Whatever happens between a checkpoint and its rollback, nested checkpoints
      cleared or rolled back included, the rollback restores every lookup table and
      every allocation list to its value at the checkpoint. */
  lemma RollbackRestores(s0: Tables, ops: seq<Op>)
    requires Valid(s0) && StaysAbove(Apply(s0, AddCheckpoint), ops, |s0.checkpoints|)
    requires |Run(Apply(s0, AddCheckpoint), ops, |s0.checkpoints|).checkpoints| == |s0.checkpoints| + 1
    ensures var s := Run(Apply(s0, AddCheckpoint), ops, |s0.checkpoints|);
            Allowed(s, RollbackToLastCheckpoint) && Apply(s, RollbackToLastCheckpoint) == s0
  {
    hide Valid, Since;
    SinceCheckpoint(s0);
    ValidKept(s0, AddCheckpoint);
    RunKeeps(s0, Apply(s0, AddCheckpoint), ops);
    RollbackUndoes(s0, Run(Apply(s0, AddCheckpoint), ops, |s0.checkpoints|));
  }
}
