/** What it takes for a file to be found, in terms of the files themselves, and
    the smallest examples on either side. */
module ImportMeaning {
  import opened ImportLoading

  // ------------------------------------------------------------- spelled out

  /** A file leads to itself, to what it imports, and to what that leads to. */
  lemma ReachesByImports(db: Database, a: FileName, c: FileName)
    ensures Reaches(db, a, c) <==> a == c || exists b :: b != a && Imports(db, a, b) && Reaches(db, b, c)
  {
    ReachesSelf(db, a);
    if Reaches(db, a, c) && a != c {
      var p :| PathBetween(db, p, a, c);
      LeavesAt(db, p, a, c);
    }
    forall b | Imports(db, a, b) && Reaches(db, b, c)
      ensures Reaches(db, a, c)
    {
      ReachesImport(db, a, b);
      ReachesTransitive(db, a, b, c);
    }
  }

  /** A path to somewhere else leaves its first file for another one. */
  lemma {:induction false} LeavesAt(db: Database, p: seq<FileName>, a: FileName, c: FileName)
    requires PathBetween(db, p, a, c) && a != c
    ensures exists b :: b != a && Imports(db, a, b) && Reaches(db, b, c)
    decreases |p|
  {
    var q := p[1..];
    assert Imports(db, p[0], p[1]);
    forall n | 0 <= n < |q| - 1
      ensures Imports(db, q[n], q[n + 1])
    {
      assert Imports(db, p[n + 1], p[n + 2]);
    }
    assert PathBetween(db, q, p[1], c);
    if p[1] == a {
      LeavesAt(db, q, a, c);
    } else {
      assert Reaches(db, p[1], c);
    }
  }

  /** All that a file leads to is in the database, is without errors, lists no
      import twice and names no symbol like one of its packages; no two of these
      files lead to each other; and no two of them give one name to a symbol of
      the one and to a symbol or a package of the other. */
  ghost predicate Found(db: Database, a: FileName) {
    && (forall b :: Reaches(db, a, b) ==>
          && b in db && db[b].wellFormed
          && (forall i, j :: 0 <= i < j < |db[b].dependency| ==> db[b].dependency[i] != db[b].dependency[j])
          && (forall s :: s in db[b].symbols ==> s !in db[b].packages))
    && !(exists b, c :: b != c && Reaches(db, a, b) && Reaches(db, b, c) && Reaches(db, c, b))
    && !(exists b, c :: b != c && Reaches(db, a, b) && Reaches(db, a, c) && NameTwice(db, b, c))
  }

  ghost predicate NameTwice(db: Database, b: FileName, c: FileName) {
    b in db && c in db && exists s :: s in db[b].symbols && (s in db[c].symbols || s in db[c].packages)
  }

  lemma ClashIsNameTwice(db: Database, b: FileName, c: FileName)
    ensures Clashing(db, b, c) <==> b != c && (NameTwice(db, b, c) || NameTwice(db, c, b))
  {
    if b in db && c in db && b != c && Clashing(db, b, c) {
      if s :| s in db[b].symbols && s in db[c].symbols + db[c].packages {
        assert NameTwice(db, b, c);
      } else {
        var s :| s in db[b].packages && s in db[c].symbols;
        assert NameTwice(db, c, b);
      }
    }
  }

  lemma LoadableMeans(db: Database, a: FileName)
    ensures Loadable(db, a) <==> Found(db, a)
  {
    hide Reaches, Clashing, NameTwice;
    forall b, c
      ensures Clashing(db, b, c) <==> b != c && (NameTwice(db, b, c) || NameTwice(db, c, b))
    {
      ClashIsNameTwice(db, b, c);
    }
  }

  /** Of the files built before, one gives a name to a symbol that something
      imported gives to a symbol or a package, or the other way round. */
  lemma BlockedMeans(db: Database, files: set<FileName>, a: FileName)
    ensures Blocked(db, files, a) <==>
            exists b, g :: Reaches(db, a, b) && g in files && b != g && (NameTwice(db, b, g) || NameTwice(db, g, b))
  {
    hide Reaches, Clashing, NameTwice;
    forall b, c
      ensures Clashing(db, b, c) <==> b != c && (NameTwice(db, b, c) || NameTwice(db, c, b))
    {
      ClashIsNameTwice(db, b, c);
    }
  }

  // ---------------------------------------------------------------- examples

  /** A file that leads to one other file at most. */
  lemma LeadsTo(db: Database, a: FileName, b: FileName)
    requires a in db && b in db
    requires forall d :: d in db[a].dependency ==> d == a || d == b
    requires forall d :: d in db[b].dependency ==> d == b || d == a
    ensures forall c :: Reaches(db, a, c) ==> c == a || c == b
  {
    forall c | Reaches(db, a, c)
      ensures c == a || c == b
    {
      var p :| PathBetween(db, p, a, c);
      ClosedUnderReach(db, {a, b}, p);
    }
  }

  /** A file that imports itself is found. */
  lemma SelfImportFound(db: Database, a: FileName)
    requires a in db && db[a] == FileProto([a], {"p.M"}, {"p"}, true)
    ensures Loadable(db, a)
  {
    LeadsTo(db, a, a);
  }

  /** Two files that import each other are not. */
  lemma CycleRefused(db: Database, a: FileName, b: FileName)
    requires a != b && Imports(db, a, b) && Imports(db, b, a)
    ensures !Loadable(db, a) && !Loadable(db, b)
  {
    ReachesSelf(db, a);
    ReachesSelf(db, b);
    ReachesImport(db, a, b);
    ReachesImport(db, b, a);
  }

  /** A file that imports another one twice is not. */
  lemma TwiceRefused(db: Database, a: FileName, b: FileName)
    requires a in db && db[a].dependency == [b, b]
    ensures !Loadable(db, a)
  {
    ReachesSelf(db, a);
    assert db[a].dependency[0] == db[a].dependency[1];
  }

  /** Nor is one that defines a symbol of its import, or one named like a package
      of its import. */
  lemma SharedNameRefused(db: Database, a: FileName, b: FileName)
    requires a != b && a in db && b in db && db[a].dependency == [b]
    requires "p.N" in db[b].symbols && "p" in db[b].packages && ("p.N" in db[a].symbols || "p" in db[a].symbols)
    ensures !Loadable(db, a)
  {
    ReachesSelf(db, a);
    ReachesImport(db, a, b);
    assert Clashing(db, a, b);
  }

  /** One that shares no more than a package with its import is found. */
  lemma OnceFound(db: Database, a: FileName, b: FileName)
    requires a != b && a in db && b in db
    requires db[a] == FileProto([b], {"p.M"}, {"p"}, true) && db[b] == FileProto([], {"p.N"}, {"p"}, true)
    ensures Loadable(db, a)
  {
    LeadsTo(db, a, b);
    FromTheImport(db, a, b);
    DifferentNames();
    assert !Clashing(db, a, b) && !Clashing(db, b, a);
    assert Sound(db, a);
    assert Sound(db, b);
    hide Reaches, Clashing, Sound;
    assert forall c :: Reaches(db, a, c) ==> Sound(db, c);
    assert forall c, d :: Reaches(db, a, c) && Reaches(db, a, d) ==> !Clashing(db, c, d) by {
      assert !Clashing(db, a, a) && !Clashing(db, b, b) by { NoSelfClash(db, a); NoSelfClash(db, b); }
    }
  }

  lemma NoSelfClash(db: Database, a: FileName)
    ensures !Clashing(db, a, a)
  {
  }

  lemma FromTheImport(db: Database, a: FileName, b: FileName)
    requires a != b && a in db && b in db && db[b].dependency == [] && db[a].dependency == [b]
    ensures !Reaches(db, b, a)
  {
    if Reaches(db, b, a) {
      ReachesByImports(db, b, a);
    }
  }

  lemma DifferentNames()
    ensures "p.M" != "p.N" && "p.M" != "p" && "p.N" != "p"
  {
    assert "p.M"[2] != "p.N"[2];
    assert |"p"| == 1;
  }
}
