/** Loading a file, and everything it imports, from a fallback database. */
module ImportLoading {

  type FileName = string

  /** A file as the database stores it: its imports, the full names of what it
      defines, its package with the packages around it, and whether everything
      else in it is free of errors once its imports are built. */
  datatype FileProto = FileProto(
    dependency: seq<FileName>, symbols: set<string>, packages: set<string>, wellFormed: bool)

  type Database = map<FileName, FileProto>

  // ------------------------------------------------------------ specification

  predicate Imports(db: Database, a: FileName, b: FileName) {
    a in db && b in db[a].dependency
  }

  predicate Path(db: Database, p: seq<FileName>) {
    p != [] && forall i {:trigger p[i]} :: 0 <= i < |p| - 1 ==> Imports(db, p[i], p[i + 1])
  }

  predicate PathBetween(db: Database, p: seq<FileName>, a: FileName, b: FileName) {
    Path(db, p) && p[0] == a && p[|p| - 1] == b
  }

  ghost predicate Reaches(db: Database, a: FileName, b: FileName) {
    exists p :: PathBetween(db, p, a, b)
  }

  predicate NoRepeats(s: seq<FileName>) {
    forall i, j :: 0 <= i < j < |s| ==> s[i] != s[j]
  }

  /** The file exists and has no errors of its own. */
  predicate Sound(db: Database, f: FileName) {
    && f in db && db[f].wellFormed && NoRepeats(db[f].dependency)
    && db[f].symbols !! db[f].packages
  }

  /** Two files cannot both be built: files may share packages, and no other names. */
  predicate Clashing(db: Database, f: FileName, g: FileName) {
    && f in db && g in db && f != g
    && !(db[f].symbols !! db[g].symbols + db[g].packages && db[f].packages !! db[g].symbols)
  }

  lemma ClashingIsMutual(db: Database, f: FileName, g: FileName)
    ensures Clashing(db, f, g) <==> Clashing(db, g, f)
  {
  }

  /** Everything transitively imported is sound, no import cycle of two or more
      files is reachable, and no two of the files define one name.  A file may
      import itself. */
  ghost predicate Loadable(db: Database, a: FileName) {
    && (forall b :: Reaches(db, a, b) ==> Sound(db, b))
    && (forall b, c :: Reaches(db, a, b) && Reaches(db, b, c) && Reaches(db, c, b) ==> b == c)
    && (forall b, c :: Reaches(db, a, b) && Reaches(db, a, c) ==> !Clashing(db, b, c))
  }

  /** A file that is built already defines a name of something transitively imported. */
  ghost predicate Blocked(db: Database, files: set<FileName>, a: FileName) {
    exists b, g :: Reaches(db, a, b) && g in files && Clashing(db, b, g)
  }

  ghost predicate Excluded(db: Database, files: set<FileName>, a: FileName) {
    !Loadable(db, a) || Blocked(db, files, a)
  }

  /** Something imported by the one clashes with something imported by the other. */
  ghost predicate ImportsClash(db: Database, a: FileName, b: FileName) {
    exists c, d :: Reaches(db, a, c) && Reaches(db, b, d) && Clashing(db, c, d)
  }

  /** What a pool holds after some files were asked for. */
  ghost predicate Available(db: Database, asked: set<FileName>, f: FileName) {
    Loadable(db, f) && exists q :: q in asked && Reaches(db, q, f)
  }

  /** No name is defined twice among the loadable files that questions lead to. */
  ghost predicate DisjointNames(db: Database, asked: set<FileName>) {
    forall f, g :: Available(db, asked, f) && Available(db, asked, g) ==> !Clashing(db, f, g)
  }

  /** Every file is sound, is listed after its imports and clashes with no other. */
  ghost predicate LoadOrder(db: Database, order: seq<FileName>) {
    && NoRepeats(order)
    && (forall i, j :: 0 <= i < |order| && 0 <= j < |order| ==> !Clashing(db, order[i], order[j]))
    && forall i :: 0 <= i < |order| ==> Sound(db, order[i]) && ImportsWithin(db, order[i], order[..i])
  }

  ghost predicate ImportsWithin(db: Database, f: FileName, earlier: seq<FileName>) {
    forall d :: Imports(db, f, d) ==> d == f || d in earlier
  }

  // ------------------------------------------------------------------- paths

  lemma ReachesSelf(db: Database, a: FileName)
    ensures Reaches(db, a, a)
  {
    assert PathBetween(db, [a], a, a);
  }

  lemma ReachesImport(db: Database, a: FileName, b: FileName)
    requires Imports(db, a, b)
    ensures Reaches(db, a, b)
  {
    assert PathBetween(db, [a, b], a, b);
  }

  lemma ReachesTransitive(db: Database, a: FileName, b: FileName, c: FileName)
    requires Reaches(db, a, b) && Reaches(db, b, c)
    ensures Reaches(db, a, c)
  {
    var p :| PathBetween(db, p, a, b);
    var q :| PathBetween(db, q, b, c);
    assert PathBetween(db, p + q[1..], a, c);
  }

  /** What a loadable file leads to is loadable, and blocked only when the file is. */
  lemma ReachedFromLoadable(db: Database, files: set<FileName>, a: FileName, d: FileName)
    requires Reaches(db, a, d) && !Excluded(db, files, a)
    ensures !Excluded(db, files, d)
  {
    forall b | Reaches(db, d, b)
      ensures Reaches(db, a, b)
    {
      ReachesTransitive(db, a, d, b);
    }
  }

  /** From a file of a load order, a path leads only to files listed no later. */
  lemma {:induction false} PathDescends(db: Database, order: seq<FileName>, i: nat, p: seq<FileName>) returns (j: nat)
    requires LoadOrder(db, order) && i < |order|
    requires Path(db, p) && p[0] == order[i]
    ensures j <= i && p[|p| - 1] == order[j]
    decreases |p|
  {
    if |p| == 1 {
      j := i;
    } else {
      assert Imports(db, p[0], p[1]);
      assert ImportsWithin(db, order[i], order[..i]);
      var k: nat :| k <= i && order[k] == p[1];
      assert Path(db, p[1..]) by {
        forall n | 0 <= n < |p[1..]| - 1
          ensures Imports(db, p[1..][n], p[1..][n + 1])
        {
          assert Imports(db, p[n + 1], p[n + 2]);
        }
      }
      j := PathDescends(db, order, k, p[1..]);
    }
  }

  lemma ReachesDescends(db: Database, order: seq<FileName>, i: nat, b: FileName) returns (j: nat)
    requires LoadOrder(db, order) && i < |order| && Reaches(db, order[i], b)
    ensures j <= i && b == order[j]
  {
    var p :| PathBetween(db, p, order[i], b);
    j := PathDescends(db, order, i, p);
  }

  /** Two files of a load order that reach each other are one. */
  lemma OrderedIsAcyclic(db: Database, order: seq<FileName>, j: nat, c: FileName)
    requires LoadOrder(db, order) && j < |order| && Reaches(db, order[j], c) && Reaches(db, c, order[j])
    ensures c == order[j]
  {
    hide Reaches;
    var k := ReachesDescends(db, order, j, c);
    var l := ReachesDescends(db, order, k, order[j]);
    assert order[l] == order[j];
  }

  /** Every file of a load order is loadable. */
  lemma OrderedIsLoadable(db: Database, order: seq<FileName>, f: FileName)
    requires LoadOrder(db, order) && f in order
    ensures Loadable(db, f)
  {
    hide Reaches, Clashing;
    var i: nat :| i < |order| && order[i] == f;
    forall b | Reaches(db, f, b)
      ensures Sound(db, b)
    {
      var j := ReachesDescends(db, order, i, b);
    }
    forall b, c | Reaches(db, f, b) && Reaches(db, b, c) && Reaches(db, c, b)
      ensures b == c
    {
      var j := ReachesDescends(db, order, i, b);
      OrderedIsAcyclic(db, order, j, c);
    }
    forall b, c | Reaches(db, f, b) && Reaches(db, f, c)
      ensures !Clashing(db, b, c)
    {
      var j := ReachesDescends(db, order, i, b);
      var k := ReachesDescends(db, order, i, c);
    }
  }

  /** What a built file imports is built, and clashes with nothing built. */
  lemma OrderedIsClosed(db: Database, order: seq<FileName>, f: FileName, b: FileName, g: FileName)
    requires LoadOrder(db, order) && f in order && Reaches(db, f, b) && g in order
    ensures b in order && !Clashing(db, b, g)
  {
    var i: nat :| i < |order| && order[i] == f;
    var j := ReachesDescends(db, order, i, b);
    var k: nat :| k < |order| && order[k] == g;
  }

  /** A chain of imports in progress: importing one of its earlier files
      closes a cycle. */
  lemma ChainCloses(db: Database, chain: seq<FileName>, f: FileName, d: FileName)
    requires Path(db, chain + [f]) && Imports(db, f, d) && d in chain && d != f
    ensures !Loadable(db, f)
  {
    var k :| 0 <= k < |chain| && chain[k] == d;
    var p := (chain + [f])[k..];
    assert PathBetween(db, p, d, f) by {
      forall n | 0 <= n < |p| - 1
        ensures Imports(db, p[n], p[n + 1])
      {
        assert Imports(db, (chain + [f])[k + n], (chain + [f])[k + n + 1]);
      }
    }
    ReachesImport(db, f, d);
    ReachesSelf(db, f);
    assert Reaches(db, f, f) && Reaches(db, f, d) && Reaches(db, d, f);
  }

  lemma ChainExtends(db: Database, chain: seq<FileName>, f: FileName)
    requires chain == [] || (Path(db, chain) && Imports(db, chain[|chain| - 1], f))
    ensures Path(db, chain + [f])
    ensures Reaches(db, (chain + [f])[0], f)
  {
    var p := chain + [f];
    forall n | 0 <= n < |p| - 1
      ensures Imports(db, p[n], p[n + 1])
    {
      if n < |chain| - 1 {
        assert Imports(db, chain[n], chain[n + 1]);
      }
    }
    assert PathBetween(db, p, p[0], f);
  }

  /** A set closed under imports contains all that it reaches. */
  lemma {:induction false} ClosedUnderReach(db: Database, s: set<FileName>, p: seq<FileName>)
    requires forall f, d :: f in s && Imports(db, f, d) ==> d in s
    requires Path(db, p) && p[0] in s
    ensures p[|p| - 1] in s
    decreases |p|
  {
    if |p| > 1 {
      assert Imports(db, p[0], p[1]);
      assert Path(db, p[1..]) by {
        forall n | 0 <= n < |p[1..]| - 1
          ensures Imports(db, p[1..][n], p[1..][n + 1])
        {
          assert Imports(db, p[n + 1], p[n + 2]);
        }
      }
      ClosedUnderReach(db, s, p[1..]);
    }
  }

  lemma LoadOrderGrows(db: Database, order: seq<FileName>, f: FileName)
    requires LoadOrder(db, order) && f !in order
    requires Sound(db, f) && ImportsWithin(db, f, order)
    requires forall g :: g in order ==> !Clashing(db, f, g)
    ensures LoadOrder(db, order + [f])
  {
    forall i, j | 0 <= i < |order + [f]| && 0 <= j < |order + [f]|
      ensures !Clashing(db, (order + [f])[i], (order + [f])[j])
    {
      if i < |order| && j < |order| {
        assert !Clashing(db, order[i], order[j]);
      } else if i < |order| {
        ClashingIsMutual(db, f, order[i]);
      }
    }
    forall i | 0 <= i < |order + [f]|
      ensures Sound(db, (order + [f])[i]) && ImportsWithin(db, (order + [f])[i], (order + [f])[..i])
    {
      if i < |order| {
        assert (order + [f])[..i] == order[..i];
      } else {
        assert (order + [f])[..i] == order;
      }
    }
  }

  // -------------------------------------------------------------------- pool

  function Elements(s: seq<FileName>): set<FileName> {
    set f | f in s
  }

  /** Whether the name may be loaded next: asked for, or imported by the file
      being loaded. */
  ghost predicate Wanted(db: Database, pending: seq<FileName>, asked: set<FileName>, name: FileName) {
    if pending == [] then name in asked else Imports(db, pending[|pending| - 1], name)
  }

  ghost predicate FilesBuilt(db: Database, files: set<FileName>, order: seq<FileName>, asked: set<FileName>) {
    && files == Elements(order)
    && LoadOrder(db, order)
    && forall f :: f in files ==> exists q :: q in asked && Reaches(db, q, f)
  }

  ghost predicate InProgress(db: Database, files: set<FileName>, pending: seq<FileName>, asked: set<FileName>) {
    && NoRepeats(pending)
    && Elements(pending) !! files
    && Elements(pending) <= db.Keys
    && (pending != [] ==> Path(db, pending) && pending[0] in asked)
  }

  /** A name is in the cache of bad files only for a reason. */
  ghost predicate BadForAReason(db: Database, files: set<FileName>, knownBad: set<FileName>,
                                pending: seq<FileName>, open: set<FileName>)
  {
    forall f :: f in knownBad && f !in open ==> f in files || f in pending || Excluded(db, files, f)
  }

  /** The names in the symbol table are those of the built files. */
  ghost predicate TablesHold(db: Database, files: set<FileName>, symbols: set<string>, packages: set<string>) {
    && (forall f :: f in files ==> f in db && db[f].symbols <= symbols && db[f].packages <= packages)
    && (forall s :: s in symbols ==> exists f :: f in files && f in db && s in db[f].symbols)
    && (forall s :: s in packages ==> exists f :: f in files && f in db && s in db[f].packages)
  }

  /** Looking up the names of a file in the table finds out whether a built file
      clashes with it. */
  lemma FreeNames(db: Database, files: set<FileName>, symbols: set<string>, packages: set<string>, f: FileName)
    requires TablesHold(db, files, symbols, packages) && f in db && f !in files
    ensures db[f].symbols !! symbols + packages && db[f].packages !! symbols <==>
            forall g :: g in files ==> !Clashing(db, f, g)
  {
    var proto := db[f];
    if forall g :: g in files ==> !Clashing(db, f, g) {
      forall s | s in proto.symbols
        ensures s !in symbols && s !in packages
      {
      }
      forall s | s in proto.packages
        ensures s !in symbols
      {
      }
    }
  }

  lemma NamesAdded(db: Database, files: set<FileName>, symbols: set<string>, packages: set<string>, f: FileName)
    requires TablesHold(db, files, symbols, packages) && f in db
    ensures TablesHold(db, files + {f}, symbols + db[f].symbols, packages + db[f].packages)
  {
    forall s | s in symbols + db[f].symbols
      ensures exists g :: g in files + {f} && g in db && s in db[g].symbols
    {
      if s in symbols {
        var g :| g in files && g in db && s in db[g].symbols;
        assert g in files + {f};
      } else {
        assert f in files + {f};
      }
    }
    forall s | s in packages + db[f].packages
      ensures exists g :: g in files + {f} && g in db && s in db[g].packages
    {
      if s in packages {
        var g :| g in files && g in db && s in db[g].packages;
        assert g in files + {f};
      } else {
        assert f in files + {f};
      }
    }
  }

  lemma ExcludedStays(db: Database, files: set<FileName>, more: set<FileName>, f: FileName)
    requires Excluded(db, files, f) && files <= more
    ensures Excluded(db, more, f)
  {
    if Loadable(db, f) {
      var b, g :| Reaches(db, f, b) && g in files && Clashing(db, b, g);
      assert g in more;
    }
  }

  /** Every import of a file whose load has ended was tried. */
  ghost predicate Explored(db: Database, files: set<FileName>, knownBad: set<FileName>, pending: seq<FileName>) {
    forall f, d :: (f in files || f in knownBad) && f !in pending && Imports(db, f, d) ==> d in files || d in knownBad
  }

  lemma BuiltFromAsked(db: Database, files: set<FileName>, pending: seq<FileName>, asked: set<FileName>, name: FileName)
    requires InProgress(db, files, pending, asked) && Wanted(db, pending, asked, name)
    ensures Path(db, pending + [name]) && (pending + [name])[0] in asked
    ensures exists q :: q in asked && Reaches(db, q, name)
  {
    ChainExtends(db, pending, name);
  }

  /** Beginning the load of a file. */
  lemma PushKeeps(db: Database, files: set<FileName>, knownBad: set<FileName>, pending: seq<FileName>,
                  asked: set<FileName>, name: FileName)
    requires InProgress(db, files, pending, asked) && Wanted(db, pending, asked, name)
    requires BadForAReason(db, files, knownBad, pending, {}) && Explored(db, files, knownBad, pending)
    requires name in db && name !in pending && name !in files
    ensures InProgress(db, files, pending + [name], asked)
    ensures BadForAReason(db, files, knownBad, pending + [name], {})
    ensures Explored(db, files, knownBad, pending + [name])
    ensures db.Keys - Elements(pending + [name]) < db.Keys - Elements(pending)
  {
    hide Excluded;
    BuiltFromAsked(db, files, pending, asked, name);
    assert name in db.Keys - Elements(pending);
    assert name in pending + [name];
    assert name !in db.Keys - Elements(pending + [name]);
  }

  /** Ending the load of a file's imports: the file is no longer pending, and
      is not yet known to be good or bad. */
  lemma PopKeeps(db: Database, files: set<FileName>, knownBad: set<FileName>, pending: seq<FileName>,
                 asked: set<FileName>, name: FileName)
    requires InProgress(db, files, pending + [name], asked)
    requires BadForAReason(db, files, knownBad, pending + [name], {})
    requires Explored(db, files, knownBad, pending + [name])
    requires forall d :: Imports(db, name, d) ==> d in files || d in knownBad
    ensures InProgress(db, files, pending, asked)
    ensures BadForAReason(db, files, knownBad, pending, {name})
    ensures Explored(db, files, knownBad, pending)
    ensures name !in files
  {
    hide Excluded;
    assert (pending + [name])[|pending|] in Elements(pending + [name]);
    forall i, j | 0 <= i < j < |pending|
      ensures pending[i] != pending[j]
    {
      assert (pending + [name])[i] != (pending + [name])[j];
    }
    assert forall f :: f in pending ==> f in Elements(pending + [name]);
    if pending != [] {
      forall n | 0 <= n < |pending| - 1
        ensures Imports(db, pending[n], pending[n + 1])
      {
        assert Imports(db, (pending + [name])[n], (pending + [name])[n + 1]);
      }
    }
  }

  /** A file with a missing import is unloadable or blocked. */
  lemma MissingImport(db: Database, files: set<FileName>, knownBad: set<FileName>,
                      pending: seq<FileName>, asked: set<FileName>, name: FileName, d: FileName)
    requires InProgress(db, files, pending, asked) && Wanted(db, pending, asked, name)
    requires BadForAReason(db, files, knownBad, pending, {name})
    requires Imports(db, name, d) && d != name && d !in files && d in knownBad
    ensures Excluded(db, files, name)
  {
    if d in pending {
      BuiltFromAsked(db, files, pending, asked, name);
      ChainCloses(db, pending, name, d);
    } else if !Excluded(db, files, name) {
      ReachesImport(db, name, d);
      ReachedFromLoadable(db, files, name, d);
    }
  }

  lemma BadReasonClosed(db: Database, files: set<FileName>, knownBad: set<FileName>,
                        pending: seq<FileName>, name: FileName)
    requires BadForAReason(db, files, knownBad, pending, {name})
    requires name in files || Excluded(db, files, name)
    ensures BadForAReason(db, files, knownBad, pending, {})
  {
    hide Excluded;
  }

  /** Adding a file whose imports are all there. */
  lemma AddKeeps(db: Database, files: set<FileName>, knownBad: set<FileName>, pending: seq<FileName>,
                 order: seq<FileName>, asked: set<FileName>, name: FileName)
    requires FilesBuilt(db, files, order, asked) && InProgress(db, files, pending, asked)
    requires BadForAReason(db, files, knownBad, pending, {name}) && Explored(db, files, knownBad, pending)
    requires Wanted(db, pending, asked, name) && name !in pending && name !in files
    requires Sound(db, name) && Elements(db[name].dependency) <= files + {name}
    requires forall g :: g in files ==> !Clashing(db, name, g)
    ensures FilesBuilt(db, files + {name}, order + [name], asked)
    ensures InProgress(db, files + {name}, pending, asked)
    ensures BadForAReason(db, files + {name}, knownBad, pending, {name})
    ensures Explored(db, files + {name}, knownBad, pending)
  {
    hide Excluded, LoadOrder, Path, NoRepeats, PathBetween, Reaches, Clashing;
    BuiltFromAsked(db, files, pending, asked, name);
    assert BadForAReason(db, files + {name}, knownBad, pending, {name}) by {
      forall f | f in knownBad && f != name && Excluded(db, files, f)
        ensures Excluded(db, files + {name}, f)
      {
        ExcludedStays(db, files, files + {name}, f);
      }
    }
    assert forall g :: g in order ==> g in Elements(order);
    assert ImportsWithin(db, name, order) by {
      forall d | Imports(db, name, d)
        ensures d == name || d in order
      {
        assert d in Elements(db[name].dependency);
        assert d != name ==> d in Elements(order);
      }
    }
    assert name !in order by {
      assert name in order ==> name in Elements(order);
    }
    LoadOrderGrows(db, order, name);
  }

  /** A file that cannot be added is unloadable, or blocked by a built file. */
  lemma RejectedIsExcluded(db: Database, files: set<FileName>, knownBad: set<FileName>,
                           pending: seq<FileName>, asked: set<FileName>, name: FileName)
    requires InProgress(db, files, pending, asked) && Wanted(db, pending, asked, name)
    requires BadForAReason(db, files, knownBad, pending, {name})
    requires name in db && forall d :: Imports(db, name, d) ==> d in files || d in knownBad
    requires !(&& Sound(db, name) && Elements(db[name].dependency) <= files + {name}
               && forall g :: g in files ==> !Clashing(db, name, g))
    ensures Excluded(db, files, name)
  {
    ReachesSelf(db, name);
    if !Sound(db, name) {
      assert !Loadable(db, name);
    } else if g :| g in files && Clashing(db, name, g) {
      ClashBlocks(db, files, name, g);
    } else {
      hide Excluded, PathBetween;
      var d :| d in Elements(db[name].dependency) && d !in files + {name};
      assert Imports(db, name, d);
      MissingImport(db, files, knownBad, pending, asked, name, d);
    }
  }

  lemma ClashBlocks(db: Database, files: set<FileName>, name: FileName, g: FileName)
    requires g in files && Clashing(db, name, g)
    ensures Excluded(db, files, name)
  {
    ReachesSelf(db, name);
  }

  lemma ImportReachesMore(db: Database, name: FileName, d: FileName)
    requires Imports(db, name, d)
    ensures forall f :: Reaches(db, d, f) ==> Reaches(db, name, f)
  {
    ReachesImport(db, name, d);
    forall f | Reaches(db, d, f)
      ensures Reaches(db, name, f)
    {
      ReachesTransitive(db, name, d, f);
    }
  }

  lemma AskMore(db: Database, files: set<FileName>, order: seq<FileName>, asked: set<FileName>, name: FileName)
    requires FilesBuilt(db, files, order, asked)
    ensures FilesBuilt(db, files, order, asked + {name})
  {
    forall f | f in files
      ensures exists q :: q in asked + {name} && Reaches(db, q, f)
    {
      var q :| q in asked && Reaches(db, q, f);
      assert q in asked + {name};
    }
  }

  lemma BuiltImports(db: Database, files: set<FileName>, order: seq<FileName>, asked: set<FileName>, name: FileName)
    requires FilesBuilt(db, files, order, asked) && name in files
    ensures forall d :: Imports(db, name, d) ==> d in files
  {
    forall d | Imports(db, name, d)
      ensures d in files
    {
      ReachesImport(db, name, d);
      OrderedIsClosed(db, order, name, d, name);
    }
  }

  /** What the files after a question, which are those before it and some that
      the question leads to, say of the answer. */
  lemma FoundExactly(db: Database, before: set<FileName>, files: set<FileName>, order: seq<FileName>,
                     knownBad: set<FileName>, asked: set<FileName>, name: FileName)
    requires FilesBuilt(db, files, order, asked) && BadForAReason(db, files, knownBad, [], {}) && name in asked
    requires before <= files && forall f :: f in files ==> f in before || Reaches(db, name, f)
    requires name !in files ==> name in knownBad
    ensures name in files <==> Loadable(db, name) && !Blocked(db, before, name)
    ensures DisjointNames(db, asked) ==> (name in files <==> Loadable(db, name))
    ensures name in files ==> forall f :: Reaches(db, name, f) ==> f in files
  {
    hide LoadOrder, PathBetween, Clashing;
    if name in files {
      BuiltIsFound(db, before, files, order, name);
    } else {
      assert Excluded(db, files, name);
      if Loadable(db, name) {
        var b, g :| Reaches(db, name, b) && g in files && Clashing(db, b, g);
        assert g in before;
        ReachedFromLoadable(db, {}, name, b);
        OrderedIsLoadable(db, order, g);
        assert Available(db, asked, b) && Available(db, asked, g);
      }
    }
  }

  lemma BuiltIsFound(db: Database, before: set<FileName>, files: set<FileName>, order: seq<FileName>, name: FileName)
    requires LoadOrder(db, order) && files == Elements(order) && before <= files && name in files
    ensures Loadable(db, name) && !Blocked(db, before, name)
    ensures forall f :: Reaches(db, name, f) ==> f in files
  {
    hide LoadOrder, PathBetween, Clashing, Loadable;
    OrderedIsLoadable(db, order, name);
    forall f | Reaches(db, name, f)
      ensures f in files
    {
      OrderedIsClosed(db, order, name, f, name);
    }
    forall b, g | Reaches(db, name, b) && g in before
      ensures !Clashing(db, b, g)
    {
      assert g in Elements(order);
      OrderedIsClosed(db, order, name, b, g);
    }
  }

  class DescriptorPool {
    const db: Database
    var files: set<FileName>
    /** The symbol table: names that are packages, and all others. */
    var packages: set<string>
    var symbols: set<string>
    var knownBad: set<FileName>
    var pending: seq<FileName>
    /** The built files in the order they were built, and the names asked for. */
    ghost var order: seq<FileName>
    ghost var asked: set<FileName>

    ghost predicate Valid()
      reads this
    {
      ValidBut({})
    }

    /** The invariant, while nothing is yet known of the files in `open`. */
    ghost predicate ValidBut(open: set<FileName>)
      reads this
    {
      && FilesBuilt(db, files, order, asked)
      && InProgress(db, files, pending, asked)
      && BadForAReason(db, files, knownBad, pending, open)
      && Explored(db, files, knownBad, pending)
      && TablesHold(db, files, symbols, packages)
    }

    /** No load is in progress. */
    ghost predicate AtRest()
      reads this
    {
      Valid() && pending == [] && asked <= files + knownBad
    }

    constructor (database: Database)
      ensures AtRest() && db == database && asked == {} && files == {}
    {
      db := database;
      files, symbols, packages, knownBad, pending := {}, {}, {}, {}, [];
      order, asked := [], {};
    }

    /** Finds a file exactly when it is loadable and no file built before defines
        a name of what it imports; whatever was asked before, when the questions
        lead to no name twice. */
    method FindFileByName(name: FileName) returns (found: bool)
      requires AtRest()
      modifies this
      ensures AtRest() && asked == old(asked) + {name}
      ensures found <==> Loadable(db, name) && !Blocked(db, old(files), name)
      ensures DisjointNames(db, asked) ==> (found <==> Loadable(db, name))
      ensures found <==> name in files
      ensures old(files) <= files && forall f :: f in files ==> f in old(files) || Reaches(db, name, f)
      ensures found ==> forall f :: Reaches(db, name, f) ==> f in files
    {
      hide Loadable, Blocked, FilesBuilt, Available, Clashing, TablesHold;
      ghost var before := files;
      AskMore(db, files, order, asked, name);
      asked := asked + {name};
      found := name in files;
      if !found {
        found := TryFindFileInFallbackDatabase(name);
      }
      FoundExactly(db, before, files, order, knownBad, asked, name);
    }

    method TryFindFileInFallbackDatabase(name: FileName) returns (ok: bool)
      requires Valid() && name !in files && Wanted(db, pending, asked, name)
      modifies `files, `symbols, `packages, `knownBad, `pending, `order
      ensures Valid() && pending == old(pending)
      ensures old(files) <= files && old(knownBad) <= knownBad
      ensures forall f :: f in files ==> f in old(files) || Reaches(db, name, f)
      ensures ok <==> name in files
      ensures !ok ==> name in knownBad
      decreases db.Keys - Elements(pending), 2
    {
      if name in knownBad {
        return false;
      }
      hide FilesBuilt, InProgress, Explored, TablesHold, Blocked, Clashing;
      ok := false;
      if name in db {
        ok := BuildFile(name);
      } else {
        ReachesSelf(db, name);
        assert !Sound(db, name);
      }
      if !ok {
        knownBad := knownBad + {name};
      }
    }

    method BuildFile(name: FileName) returns (ok: bool)
      requires Valid() && name in db && Wanted(db, pending, asked, name)
      modifies `files, `symbols, `packages, `knownBad, `pending, `order
      ensures Valid() && pending == old(pending)
      ensures old(files) <= files && old(knownBad) <= knownBad
      ensures forall f :: f in files ==> f in old(files) || Reaches(db, name, f)
      ensures ok <==> name in files
      ensures !ok ==> name in pending || Excluded(db, files, name)
      ensures name !in pending ==> forall d :: Imports(db, name, d) ==> d in files || d in knownBad
      decreases db.Keys - Elements(pending), 1
    {
      hide FilesBuilt, InProgress, BadForAReason, Explored, TablesHold, Excluded, PathBetween;
      ReachesSelf(db, name);
      if name in files {
        BuiltImports(db, files, order, asked, name);
        return true;
      }
      for i := 0 to |pending|
        invariant name !in pending[..i]
      {
        if pending[i] == name {
          return false;
        }
      }
      LoadDependencies(name);
      ok := AddLoadedFile(name);
    }

    /** Tries to load every import before the tables are checkpointed. */
    method LoadDependencies(name: FileName)
      requires Valid() && name in db && Wanted(db, pending, asked, name) && name !in pending && name !in files
      modifies `files, `symbols, `packages, `knownBad, `pending, `order
      ensures ValidBut({name}) && pending == old(pending) && name !in files
      ensures old(files) <= files && old(knownBad) <= knownBad
      ensures forall f :: f in files ==> f in old(files) || Reaches(db, name, f)
      ensures forall d :: Imports(db, name, d) ==> d in files || d in knownBad
      decreases db.Keys - Elements(pending), 0
    {
      ghost var before := pending;
      hide FilesBuilt, InProgress, BadForAReason, Explored, TablesHold, Reaches;
      PushKeeps(db, files, knownBad, pending, asked, name);
      pending := pending + [name];
      var dependency := db[name].dependency;
      for i := 0 to |dependency|
        invariant Valid() && pending == before + [name]
        invariant old(files) <= files && old(knownBad) <= knownBad
        invariant forall f :: f in files ==> f in old(files) || Reaches(db, name, f)
        invariant forall j :: 0 <= j < i ==> dependency[j] in files || dependency[j] in knownBad
      {
        if dependency[i] !in files {
          var _ := TryFindFileInFallbackDatabase(dependency[i]);
          ImportReachesMore(db, name, dependency[i]);
        }
      }
      assert forall d :: Imports(db, name, d) ==> d in dependency;
      PopKeeps(db, files, knownBad, before, asked, name);
      pending := pending[..|pending| - 1];
      assert pending == before;
    }

    /** Whether each import is loaded and listed once. */
    method ImportsAreLoaded(dependency: seq<FileName>) returns (ok: bool)
      ensures ok <==> NoRepeats(dependency) && Elements(dependency) <= files
    {
      ok := true;
      var seen: set<FileName> := {};
      for i := 0 to |dependency|
        invariant seen == Elements(dependency[..i])
        invariant ok <==> NoRepeats(dependency[..i]) && seen <= files
      {
        assert dependency[..i + 1] == dependency[..i] + [dependency[i]];
        if dependency[i] in seen {
          ok := false;
        }
        seen := seen + {dependency[i]};
        if dependency[i] !in files {
          ok := false;
        }
      }
      assert dependency[..|dependency|] == dependency;
    }

    /** Adds the file, its packages and its names, then looks up its imports; takes
        everything back on an error. */
    method AddLoadedFile(name: FileName) returns (ok: bool)
      requires ValidBut({name}) && name in db && Wanted(db, pending, asked, name) && name !in pending && name !in files
      requires forall d :: Imports(db, name, d) ==> d in files || d in knownBad
      modifies `files, `symbols, `packages, `order
      ensures Valid()
      ensures old(files) <= files <= old(files) + {name}
      ensures ok <==> name in files
      ensures !ok ==> Excluded(db, files, name)
    {
      hide FilesBuilt, InProgress, BadForAReason, Explored, Excluded, NoRepeats, TablesHold, Clashing;
      var checkpoint := (files, symbols, packages);
      var proto := db[name];
      FreeNames(db, files, symbols, packages, name);
      NamesAdded(db, files, symbols, packages, name);
      files := files + {name};
      ok := proto.packages !! symbols;
      packages := packages + proto.packages;
      var imported := ImportsAreLoaded(proto.dependency);
      ok := ok && imported && proto.symbols !! symbols + packages;
      symbols := symbols + proto.symbols;
      ok := ok && proto.wellFormed;
      if ok {
        AddKeeps(db, checkpoint.0, knownBad, pending, order, asked, name);
        order := order + [name];
      } else {
        files, symbols, packages := checkpoint.0, checkpoint.1, checkpoint.2;
        RejectedIsExcluded(db, files, knownBad, pending, asked, name);
      }
      assert BadForAReason(db, files, knownBad, pending, {}) by {
        BadReasonClosed(db, files, knownBad, pending, name);
      }
    }
  }

  /** The files a pool at rest holds are loadable and were asked for or are
      imported by what was asked for.  If no name is defined twice among those
      files it holds them all, in whatever order the questions came. */
  lemma FilesAtRest(pool: DescriptorPool, f: FileName)
    requires pool.AtRest()
    ensures f in pool.files ==> Available(pool.db, pool.asked, f)
    ensures DisjointNames(pool.db, pool.asked) ==> (f in pool.files <==> Available(pool.db, pool.asked, f))
  {
    hide Loadable, LoadOrder, TablesHold, Clashing;
    if f in pool.files {
      OrderedIsLoadable(pool.db, pool.order, f);
    }
    if Available(pool.db, pool.asked, f) && DisjointNames(pool.db, pool.asked) {
      var q :| q in pool.asked && Reaches(pool.db, q, f);
      var p :| PathBetween(pool.db, p, q, f);
      ClosedUnderReach(pool.db, pool.files + pool.knownBad, p);
      if f !in pool.files {
        ClashAvailable(pool, f, q);
      }
    }
  }

  lemma ClashAvailable(pool: DescriptorPool, f: FileName, q: FileName)
    requires pool.AtRest() && Loadable(pool.db, f) && Blocked(pool.db, pool.files, f)
    requires q in pool.asked && Reaches(pool.db, q, f)
    ensures !DisjointNames(pool.db, pool.asked)
  {
    hide Loadable, LoadOrder, TablesHold, Clashing, PathBetween;
    var b, g :| Reaches(pool.db, f, b) && g in pool.files && Clashing(pool.db, b, g);
    ReachesTransitive(pool.db, q, f, b);
    assert !Excluded(pool.db, {}, f);
    ReachedFromLoadable(pool.db, {}, f, b);
    OrderedIsLoadable(pool.db, pool.order, g);
    assert Available(pool.db, pool.asked, b) && Available(pool.db, pool.asked, g);
  }

  /** Two pools over one database that were asked the same questions, in any
      order and any number of times, hold the same files, provided no name is
      defined twice among the files the questions lead to. */
  lemma OrderIrrelevant(a: DescriptorPool, b: DescriptorPool)
    requires a.AtRest() && b.AtRest() && a.db == b.db && a.asked == b.asked && DisjointNames(a.db, a.asked)
    ensures a.files == b.files
  {
    hide DisjointNames, Available;
    forall f
      ensures f in a.files <==> f in b.files
    {
      FilesAtRest(a, f);
      FilesAtRest(b, f);
    }
  }

  lemma ImportsClashIsMutual(db: Database, a: FileName, b: FileName)
    requires ImportsClash(db, a, b)
    ensures ImportsClash(db, b, a)
  {
    var c, d :| Reaches(db, a, c) && Reaches(db, b, d) && Clashing(db, c, d);
    ClashingIsMutual(db, c, d);
  }

  /** Two loadable files, asked for in both orders: the order of the questions is
      irrelevant if and only if their imports do not clash; otherwise the file
      asked for first is found and the other is not. */
  method AskInBothOrders(db: Database, f: FileName, g: FileName)
    returns (fFirst: bool, gSecond: bool, gFirst: bool, fSecond: bool)
    ensures fFirst <==> Loadable(db, f)
    ensures gFirst <==> Loadable(db, g)
    ensures fFirst && gFirst ==> (gSecond <==> !ImportsClash(db, f, g)) && (fSecond <==> !ImportsClash(db, f, g))
  {
    hide Loadable, DescriptorPool.Valid, Reaches, Clashing;
    if ImportsClash(db, f, g) {
      ImportsClashIsMutual(db, f, g);
    } else if ImportsClash(db, g, f) {
      ImportsClashIsMutual(db, g, f);
    }
    var one := new DescriptorPool(db);
    fFirst := one.FindFileByName(f);
    gSecond := one.FindFileByName(g);
    var other := new DescriptorPool(db);
    gFirst := other.FindFileByName(g);
    fSecond := other.FindFileByName(f);
  }

  /** Two files without imports that both define `M`. */
  lemma SharedNameWitness(db: Database)
    requires db == map["a" := FileProto([], {"M"}, {}, true), "b" := FileProto([], {"M"}, {}, true)]
    ensures Loadable(db, "a") && Loadable(db, "b") && ImportsClash(db, "a", "b")
    ensures !DisjointNames(db, {"a", "b"})
  {
    ReachesSelf(db, "a");
    ReachesSelf(db, "b");
    OnlyItself(db, "a");
    OnlyItself(db, "b");
    assert "M" in db["a"].symbols && "M" in db["b"].symbols;
    assert Clashing(db, "a", "b");
    assert Available(db, {"a", "b"}, "a") && Available(db, {"a", "b"}, "b");
  }

  lemma OnlyItself(db: Database, f: FileName)
    requires f in db && db[f].dependency == []
    ensures forall b :: Reaches(db, f, b) ==> b == f
  {
    forall b | Reaches(db, f, b)
      ensures b == f
    {
      var p :| PathBetween(db, p, f, b);
      ClosedUnderReach(db, {f}, p);
    }
  }
}
