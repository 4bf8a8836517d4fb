/** The symbol index of `SimpleDescriptorDatabase`: a sorted map in which a
    predecessor search stands in for a scan. */
module SymbolIndex {
  import opened Prelude

  // ------------------------------------------------------------ string order

  /** The byte order of strings. */
  predicate Less(a: string, b: string) {
    b != "" && (a == "" || a[0] < b[0] || (a[0] == b[0] && Less(a[1..], b[1..])))
  }

  predicate AtMost(a: string, b: string) {
    a == b || Less(a, b)
  }

  lemma {:induction false} LessTransitive(a: string, b: string, c: string)
    requires Less(a, b) && Less(b, c)
    ensures Less(a, c)
  {
    if a != "" && a[0] == b[0] == c[0] {
      LessTransitive(a[1..], b[1..], c[1..]);
    }
  }

  lemma {:induction false} LessTotal(a: string, b: string)
    ensures a == b || Less(a, b) || Less(b, a)
    ensures !(Less(a, b) && Less(b, a)) && !Less(a, a)
  {
    if a != "" && b != "" {
      LessTotal(a[1..], b[1..]);
      LessTotal(a[1..], a[1..]);
      assert a[0] == b[0] && a[1..] == b[1..] ==> a == b by {
        assert a == [a[0]] + a[1..] && b == [b[0]] + b[1..];
      }
    } else if a != "" {
      LessTotal(a[1..], a[1..]);
    }
  }

  // ------------------------------------------------------------------- names

  predicate ValidChar(c: char) {
    c == '.' || c == '_' || '0' <= c <= '9' || 'A' <= c <= 'Z' || 'a' <= c <= 'z'
  }

  predicate ValidName(name: string) {
    forall i :: 0 <= i < |name| ==> ValidChar(name[i])
  }

  method ValidateSymbolName(name: string) returns (ok: bool)
    ensures ok <==> ValidName(name)
  {
    for i := 0 to |name|
      invariant forall j :: 0 <= j < i ==> ValidChar(name[j])
    {
      if name[i] != '.' && name[i] != '_' &&
         (name[i] < '0' || name[i] > '9') &&
         (name[i] < 'A' || name[i] > 'Z') &&
         (name[i] < 'a' || name[i] > 'z')
      {
        return false;
      }
    }
    return true;
  }

  const DIGITS := "0123456789"
  const LOWER := "abcdefghijklmnopqrstuvwxyz"
  const UPPER := "ABCDEFGHIJKLMNOPQRSTUVWXYZ"

  /** The characters of a name, one by one. */
  lemma NameCharacters(c: char)
    ensures ValidChar(c) <==> c in "._" || c in DIGITS || c in LOWER || c in UPPER
  {
    InRange(DIGITS, '0', c);
    InRange(LOWER, 'a', c);
    InRange(UPPER, 'A', c);
  }

  lemma InRange(s: string, first: char, c: char)
    requires |s| < 128 && first as int < 128
    requires forall i :: 0 <= i < |s| ==> s[i] as int == first as int + i
    ensures c in s <==> first as int <= c as int < first as int + |s|
  {
    if first as int <= c as int < first as int + |s| {
      assert s[c as int - first as int] == c;
    }
  }

  /** A name is around another one if the other one is the name, or the name, a
      dot and more. */
  lemma SubSymbolMeans(prefix: string, name: string)
    ensures IsSubSymbol(prefix, name) <==> name == prefix || prefix + "." <= name
  {
    if prefix + "." <= name {
      assert name[..|prefix|] == (prefix + ".")[..|prefix|];
      assert name[|prefix|] == (prefix + ".")[|prefix|];
    }
  }

  /** `prefix` equals `name`, or names a scope around it. */
  predicate IsSubSymbol(prefix: string, name: string) {
    prefix == name || (prefix <= name && name[|prefix|] == '.')
  }

  lemma {:induction false} SubSymbolIsAtMost(prefix: string, name: string)
    requires IsSubSymbol(prefix, name)
    ensures AtMost(prefix, name)
  {
    if prefix != "" && prefix != name {
      assert prefix[1..] <= name[1..] && name[1..][|prefix[1..]|] == '.';
      SubSymbolIsAtMost(prefix[1..], name[1..]);
    }
  }

  /** Dot sorts before every other character of a valid name, so a valid name
      between a scope and something inside the scope is inside it too. */
  lemma {:induction false} BetweenIsInside(scope: string, between: string, name: string)
    requires IsSubSymbol(scope, name) && AtMost(scope, between) && AtMost(between, name)
    requires ValidName(between)
    ensures IsSubSymbol(scope, between)
  {
    if scope == "" || scope == name || between == scope || between == name {
      LessTotal(between, name);
      LessTotal(between, scope);
      assert between != "" ==> ValidChar(between[0]);
    } else {
      assert between[0] == scope[0] == name[0];
      assert scope[1..] <= name[1..] && name[1..][|scope[1..]|] == '.';
      assert ValidName(between[1..]) by {
        assert forall i :: 0 <= i < |between[1..]| ==> between[1..][i] == between[i + 1];
      }
      BetweenIsInside(scope[1..], between[1..], name[1..]);
      assert scope == [scope[0]] + scope[1..] && between == [between[0]] + between[1..];
      assert between[|scope|] == between[1..][|scope[1..]|];
    }
  }

  // ----------------------------------------------------------------- entries

  /** The entries of the sorted map, in the order of its iterators. */
  datatype Entry<+V> = Entry(first: string, second: V)

  ghost predicate Sorted<V>(es: seq<Entry<V>>) {
    forall i, j :: 0 <= i < j < |es| ==> Less(es[i].first, es[j].first)
  }

  ghost predicate ValidNames<V>(es: seq<Entry<V>>) {
    forall i :: 0 <= i < |es| ==> ValidName(es[i].first)
  }

  /** No stored name is a scope around another. */
  ghost predicate Separate<V>(es: seq<Entry<V>>) {
    forall i, j :: 0 <= i < |es| && 0 <= j < |es| && i != j ==> !IsSubSymbol(es[i].first, es[j].first)
  }

  /** A linear search for a stored name that equals, or is a scope around,
      the name searched for. */
  function Scan<V>(es: seq<Entry<V>>, name: string): Option<V> {
    if es == [] then None
    else if IsSubSymbol(es[0].first, name) then Some(es[0].second)
    else Scan(es[1..], name)
  }

  lemma {:induction false} ScanFinds<V>(es: seq<Entry<V>>, name: string, k: nat)
    requires k < |es| && IsSubSymbol(es[k].first, name)
    requires forall j :: 0 <= j < k ==> !IsSubSymbol(es[j].first, name)
    ensures Scan(es, name) == Some(es[k].second)
  {
    if k > 0 {
      ScanFinds(es[1..], name, k - 1);
    }
  }

  lemma {:induction false} ScanMisses<V>(es: seq<Entry<V>>, name: string)
    requires forall j :: 0 <= j < |es| ==> !IsSubSymbol(es[j].first, name)
    ensures Scan(es, name) == None
  {
    if es != [] {
      ScanMisses(es[1..], name);
    }
  }

  /** The index of the first entry above the name. */
  function UpperBound<V>(es: seq<Entry<V>>, name: string): (i: nat)
    ensures i <= |es|
    ensures forall j :: 0 <= j < i ==> !Less(name, es[j].first)
    ensures i < |es| ==> Less(name, es[i].first)
  {
    if es == [] || Less(name, es[0].first) then 0 else UpperBound(es[1..], name) + 1
  }

  /** The last entry that is not above the name; the first entry when all are
      above it; the end when there is none. */
  function FindLastLessOrEqual<V>(es: seq<Entry<V>>, name: string): nat {
    var i := UpperBound(es, name);
    if i != 0 then i - 1 else i
  }

  lemma PredecessorSplits<V>(es: seq<Entry<V>>, name: string)
    requires Sorted(es)
    ensures forall j :: 0 <= j < UpperBound(es, name) ==> AtMost(es[j].first, name)
    ensures forall j :: UpperBound(es, name) <= j < |es| ==> Less(name, es[j].first)
  {
    var i := UpperBound(es, name);
    forall j | 0 <= j < i
      ensures AtMost(es[j].first, name)
    {
      LessTotal(name, es[j].first);
    }
    forall j | i <= j < |es|
      ensures Less(name, es[j].first)
    {
      if i < j {
        LessTransitive(name, es[i].first, es[j].first);
      }
    }
  }

  function Lookup<V>(es: seq<Entry<V>>, name: string): Option<V> {
    var i := FindLastLessOrEqual(es, name);
    if i < |es| && IsSubSymbol(es[i].first, name) then Some(es[i].second) else None
  }

  lemma NotAbove(a: string, b: string)
    requires IsSubSymbol(a, b)
    ensures !Less(b, a)
  {
    SubSymbolIsAtMost(a, b);
    LessTotal(a, b);
  }

  /** Any entry that matches is the predecessor itself, or a scope around it. */
  lemma MatchIsAroundPredecessor<V>(es: seq<Entry<V>>, name: string, k: nat)
    requires Sorted(es) && ValidNames(es) && k < |es| && IsSubSymbol(es[k].first, name)
    ensures k <= FindLastLessOrEqual(es, name) < |es|
    ensures IsSubSymbol(es[k].first, es[FindLastLessOrEqual(es, name)].first)
  {
    PredecessorSplits(es, name);
    NotAbove(es[k].first, name);
    var p := FindLastLessOrEqual(es, name);
    if k < p {
      BetweenIsInside(es[k].first, es[p].first, name);
    }
  }

  /** For every query, valid or not, the predecessor search finds what a
      linear scan finds. */
  lemma LookupIsScan<V>(es: seq<Entry<V>>, name: string)
    requires Sorted(es) && ValidNames(es) && Separate(es)
    ensures Lookup(es, name) == Scan(es, name)
  {
    if k: nat :| k < |es| && IsSubSymbol(es[k].first, name) {
      forall j: nat | j < |es| && IsSubSymbol(es[j].first, name)
        ensures j == FindLastLessOrEqual(es, name)
      {
        MatchIsAroundPredecessor(es, name, j);
      }
      ScanFinds(es, name, k);
    } else {
      ScanMisses(es, name);
    }
  }

  /** The least string above a given one. */
  function Successor(name: string): string {
    name + ['\0']
  }

  lemma {:induction false} NothingBetween(name: string, key: string)
    requires Less(name, key) && ValidName(key)
    ensures Less(Successor(name), key)
  {
    assert ValidChar(key[0]);
    if name != "" && name[0] == key[0] {
      assert ValidName(key[1..]) by {
        assert forall i :: 0 <= i < |key[1..]| ==> key[1..][i] == key[i + 1];
      }
      NothingBetween(name[1..], key[1..]);
      assert Successor(name)[1..] == Successor(name[1..]);
    }
  }

  lemma {:induction false} SuccessorAbove(name: string)
    ensures Less(name, Successor(name))
  {
    if name != "" {
      SuccessorAbove(name[1..]);
      assert Successor(name)[1..] == Successor(name[1..]);
    }
  }

  /** The search needs the invariant: if one stored name is a scope around
      another, there is a query that a scan answers and the search does not. */
  lemma OverlapIsMissed<V>(es: seq<Entry<V>>, i: nat, j: nat) returns (query: string)
    requires Sorted(es) && ValidNames(es)
    requires i < |es| && j < |es| && i != j && IsSubSymbol(es[i].first, es[j].first)
    ensures Lookup(es, query) == None && Scan(es, query) != None
  {
    var key := es[j].first;
    query := Successor(key);
    SuccessorAbove(key);
    PredecessorSplits(es, query);
    forall k | j < k < |es|
      ensures Less(query, es[k].first)
    {
      NothingBetween(key, es[k].first);
    }
    var u := UpperBound(es, query);
    assert u > j by {
      if u <= j {
        PredecessorIsBelow(es, u, j, query);
      }
    }
    assert j + 1 < |es| ==> Less(query, es[j + 1].first);
    assert FindLastLessOrEqual(es, query) == j;
    assert key != es[i].first by {
      LessTotal(key, es[i].first);
    }
    assert IsSubSymbol(es[i].first, query) by {
      assert query[|es[i].first|] == key[|es[i].first|];
    }
    ScanMatches(es, query, i);
  }

  lemma PredecessorIsBelow<V>(es: seq<Entry<V>>, i: nat, j: nat, name: string)
    requires Sorted(es) && i <= j < |es| && Less(es[j].first, name)
    ensures !Less(name, es[i].first)
  {
    if i < j {
      LessTransitive(es[i].first, es[j].first, name);
    }
    LessTotal(name, es[i].first);
  }

  lemma {:induction false} ScanMatches<V>(es: seq<Entry<V>>, name: string, k: nat)
    requires k < |es| && IsSubSymbol(es[k].first, name)
    ensures Scan(es, name) != None
  {
    if k > 0 {
      ScanMatches(es[1..], name, k - 1);
    }
  }

  /** The search agrees with a scan on all queries exactly under the
      invariant. */
  lemma LookupExact<V>(es: seq<Entry<V>>)
    requires Sorted(es) && ValidNames(es)
    ensures Separate(es) <==> forall name :: Lookup(es, name) == Scan(es, name)
  {
    if Separate(es) {
      forall name
        ensures Lookup(es, name) == Scan(es, name)
      {
        LookupIsScan(es, name);
      }
    } else {
      var i: nat, j: nat :| i < |es| && j < |es| && i != j && IsSubSymbol(es[i].first, es[j].first);
      var query := OverlapIsMissed(es, i, j);
    }
  }

  // ---------------------------------------------------------------- insertion

  ghost predicate Conflicts<V>(es: seq<Entry<V>>, name: string) {
    exists k: nat :: k < |es| && (IsSubSymbol(es[k].first, name) || IsSubSymbol(name, es[k].first))
  }

  /** The case the two-neighbour check does not see: every stored name is
      above the new one, and the new one is a scope around the first stored
      name but not around the second. */
  predicate Overlooked<V>(es: seq<Entry<V>>, name: string) {
    && es != []
    && Less(name, es[0].first)
    && IsSubSymbol(name, es[0].first)
    && !(|es| > 1 && IsSubSymbol(name, es[1].first))
  }

  /** What the two comparisons of `AddSymbol` decide. */
  predicate NeighboursAgree<V>(es: seq<Entry<V>>, name: string) {
    es == [] ||
    var i := FindLastLessOrEqual(es, name);
    && !IsSubSymbol(es[i].first, name)
    && !(i + 1 < |es| && IsSubSymbol(name, es[i + 1].first))
  }

  function Insert<V>(es: seq<Entry<V>>, e: Entry<V>): seq<Entry<V>> {
    var i := UpperBound(es, e.first);
    es[..i] + [e] + es[i..]
  }

  /** An entry inside the new name is next to the place of the new name, or
      everything from there to the entry is inside the new name too. */
  lemma InsideIsContiguous<V>(es: seq<Entry<V>>, name: string, k: nat, j: nat)
    requires Sorted(es) && ValidNames(es)
    requires k < |es| && IsSubSymbol(name, es[k].first) && UpperBound(es, name) <= j <= k
    ensures IsSubSymbol(name, es[j].first)
  {
    PredecessorSplits(es, name);
    if j < k {
      BetweenIsInside(name, es[j].first, es[k].first);
    }
  }

  lemma InsertAdds<V>(es: seq<Entry<V>>, e: Entry<V>)
    ensures multiset(Insert(es, e)) == multiset(es) + multiset{e}
  {
    var i := UpperBound(es, e.first);
    assert es == es[..i] + es[i..];
  }

  /** Checking two neighbours finds every conflict but the overlooked one. */
  lemma NeighboursSuffice<V>(es: seq<Entry<V>>, name: string)
    requires Sorted(es) && ValidNames(es) && Separate(es)
    ensures NeighboursAgree(es, name) <==> (!Conflicts(es, name) || Overlooked(es, name))
  {
    PredecessorSplits(es, name);
    var u := UpperBound(es, name);
    if k: nat :| k < |es| && IsSubSymbol(es[k].first, name) {
      MatchIsAroundPredecessor(es, name, k);
      NotAbove(es[k].first, name);
      assert !NeighboursAgree(es, name) && Conflicts(es, name);
      OverlookedIsBelow(es, name, k);
    } else if k: nat :| k < |es| && IsSubSymbol(name, es[k].first) {
      NotAbove(name, es[k].first);
      assert es[k].first != name;
      assert u <= k;
      InsideIsContiguous(es, name, k, u);
      if u == 0 && k > 0 {
        InsideIsContiguous(es, name, k, 1);
      }
    }
  }

  lemma OverlookedIsBelow<V>(es: seq<Entry<V>>, name: string, k: nat)
    requires Sorted(es) && k < |es| && IsSubSymbol(es[k].first, name)
    ensures !Overlooked(es, name)
  {
    NotAbove(es[k].first, name);
    if Less(name, es[0].first) && k > 0 {
      LessTransitive(name, es[0].first, es[k].first);
    }
  }

  lemma AgreeingIsNew<V>(es: seq<Entry<V>>, name: string, k: nat)
    requires Sorted(es) && ValidNames(es) && NeighboursAgree(es, name) && k < |es|
    ensures es[k].first != name
  {
    if es[k].first == name {
      MatchIsAroundPredecessor(es, name, k);
      PredecessorSplits(es, name);
      LessTotal(name, es[FindLastLessOrEqual(es, name)].first);
    }
  }

  lemma InsertKeepsOrder<V>(es: seq<Entry<V>>, e: Entry<V>)
    requires Sorted(es) && ValidNames(es) && ValidName(e.first)
    requires NeighboursAgree(es, e.first)
    ensures Sorted(Insert(es, e)) && ValidNames(Insert(es, e))
  {
    forall k | 0 <= k < |es|
      ensures es[k].first != e.first
    {
      AgreeingIsNew(es, e.first, k);
    }
    hide Less, IsSubSymbol, ValidName, NeighboursAgree, UpperBound;
    PredecessorSplits(es, e.first);
  }

  /** Adding a name keeps the invariant exactly when it conflicts with none. */
  lemma InsertSeparates<V>(es: seq<Entry<V>>, e: Entry<V>)
    requires Separate(es)
    ensures Separate(Insert(es, e)) <==> !Conflicts(es, e.first)
  {
    hide IsSubSymbol, UpperBound, Less;
    var i := UpperBound(es, e.first);
    var all := Insert(es, e);
    assert all[i] == e;
    forall k | 0 <= k < |es|
      ensures all[if k < i then k else k + 1] == es[k]
    {
    }
    if !Conflicts(es, e.first) {
      forall a, b | 0 <= a < |all| && 0 <= b < |all| && a != b
        ensures !IsSubSymbol(all[a].first, all[b].first)
      {
        var x := if a < i then a else a - 1;
        var y := if b < i then b else b - 1;
      }
    }
  }

  // -------------------------------------------------------------------- runs

  /** `AddSymbol` accepts the name. */
  predicate Accepts<V>(es: seq<Entry<V>>, name: string) {
    ValidName(name) && NeighboursAgree(es, name)
  }

  function Added<V>(es: seq<Entry<V>>, e: Entry<V>): seq<Entry<V>> {
    if Accepts(es, e.first) then Insert(es, e) else es
  }

  /** The index after a run of additions, some of them refused. */
  function AllAdded<V>(es: seq<Entry<V>>, run: seq<Entry<V>>): seq<Entry<V>>
    decreases |run|
  {
    if run == [] then es else AllAdded(Added(es, run[0]), run[1..])
  }

  /** An addition of the run is accepted in the overlooked case. */
  predicate SomeOverlooked<V>(es: seq<Entry<V>>, run: seq<Entry<V>>)
    decreases |run|
  {
    run != [] &&
    ((Accepts(es, run[0].first) && Overlooked(es, run[0].first)) || SomeOverlooked(Added(es, run[0]), run[1..]))
  }

  lemma AddedKeepsOrder<V>(es: seq<Entry<V>>, e: Entry<V>)
    requires Sorted(es) && ValidNames(es)
    ensures Sorted(Added(es, e)) && ValidNames(Added(es, e))
  {
    hide *;
    AddedIs(es, e);
    if Accepts(es, e.first) {
      AcceptedAgrees(es, e.first);
      InsertKeepsOrder(es, e);
    }
  }

  lemma AddedIs<V>(es: seq<Entry<V>>, e: Entry<V>)
    ensures Added(es, e) == if Accepts(es, e.first) then Insert(es, e) else es
  {
  }

  lemma AcceptedAgrees<V>(es: seq<Entry<V>>, name: string)
    requires Accepts(es, name)
    ensures ValidName(name) && NeighboursAgree(es, name)
  {
  }

  /** One addition keeps the invariant exactly when it is not an overlooked one. */
  lemma AddedSeparates<V>(es: seq<Entry<V>>, e: Entry<V>)
    requires Sorted(es) && ValidNames(es) && Separate(es)
    ensures Separate(Added(es, e)) <==> !(Accepts(es, e.first) && Overlooked(es, e.first))
  {
    hide *;
    AddedIs(es, e);
    if Accepts(es, e.first) {
      AcceptedAgrees(es, e.first);
      NeighboursSuffice(es, e.first);
      InsertSeparates(es, e);
      OverlookedConflicts(es, e.first);
    }
  }

  lemma OverlookedConflicts<V>(es: seq<Entry<V>>, name: string)
    ensures Overlooked(es, name) ==> Conflicts(es, name)
  {
  }

  /** Names are never removed, so an overlap stays. */
  lemma OverlapStays<V>(es: seq<Entry<V>>, e: Entry<V>)
    requires !Separate(es)
    ensures !Separate(Added(es, e))
  {
    hide IsSubSymbol, UpperBound, Less, Accepts;
    var u := UpperBound(es, e.first);
    var i, j :| 0 <= i < |es| && 0 <= j < |es| && i != j && IsSubSymbol(es[i].first, es[j].first);
    var all := Insert(es, e);
    var x, y := if i < u then i else i + 1, if j < u then j else j + 1;
    assert all[x] == es[i] && all[y] == es[j];
  }

  lemma {:induction false} OverlapStaysOverRuns<V>(es: seq<Entry<V>>, run: seq<Entry<V>>)
    requires !Separate(es)
    ensures !Separate(AllAdded(es, run))
    decreases |run|
  {
    hide Separate, Added;
    if run != [] {
      OverlapStays(es, run[0]);
      OverlapStaysOverRuns(Added(es, run[0]), run[1..]);
    }
  }

  /** Over every run of additions the index keeps the invariant if and only if
      no addition was accepted in the overlooked case. */
  lemma {:induction false} RunSeparates<V>(es: seq<Entry<V>>, run: seq<Entry<V>>)
    requires Sorted(es) && ValidNames(es) && Separate(es)
    ensures Sorted(AllAdded(es, run)) && ValidNames(AllAdded(es, run))
    ensures Separate(AllAdded(es, run)) <==> !SomeOverlooked(es, run)
    decreases |run|
  {
    hide Separate, Added, Sorted, ValidNames, Accepts, Overlooked;
    if run != [] {
      AddedKeepsOrder(es, run[0]);
      AddedSeparates(es, run[0]);
      if Separate(Added(es, run[0])) {
        RunSeparates(Added(es, run[0]), run[1..]);
      } else {
        OverlapStaysOverRuns(Added(es, run[0]), run[1..]);
        RunKeepsOrder(Added(es, run[0]), run[1..]);
      }
    }
  }

  lemma {:induction false} RunKeepsOrder<V>(es: seq<Entry<V>>, run: seq<Entry<V>>)
    requires Sorted(es) && ValidNames(es)
    ensures Sorted(AllAdded(es, run)) && ValidNames(AllAdded(es, run))
    decreases |run|
  {
    hide Added, Sorted, ValidNames;
    if run != [] {
      AddedKeepsOrder(es, run[0]);
      RunKeepsOrder(Added(es, run[0]), run[1..]);
    }
  }

  /** After any run of additions to an empty index the search answers every query
      as a scan does if and only if no addition was accepted in the overlooked case. */
  lemma RunIsExact<V>(run: seq<Entry<V>>)
    ensures var es := AllAdded([], run);
            !SomeOverlooked([], run) <==> forall name :: Lookup(es, name) == Scan(es, name)
  {
    hide AllAdded, SomeOverlooked, Lookup, Scan, IsSubSymbol;
    RunSeparates<V>([], run);
    LookupExact(AllAdded([], run));
  }

  /** The name stored is the one searched for, or what stands before one of its
      dots. */
  predicate IsAround(stored: string, name: string) {
    name == stored || stored + "." <= name
  }

  /** In a set of names none of which is around another, a scan finds the one name
      that is around the one searched for. */
  lemma {:induction false} ScanIsAround<V>(es: seq<Entry<V>>, name: string)
    requires Separate(es)
    ensures forall k :: 0 <= k < |es| && IsAround(es[k].first, name) ==> Scan(es, name) == Some(es[k].second)
    ensures Scan(es, name) == None ==> forall k :: 0 <= k < |es| ==> !IsAround(es[k].first, name)
  {
    hide IsSubSymbol, IsAround;
    forall k | 0 <= k < |es|
      ensures IsAround(es[k].first, name) <==> IsSubSymbol(es[k].first, name)
    {
      AroundIsSubSymbol(es[k].first, name);
    }
    if k: nat :| k < |es| && IsSubSymbol(es[k].first, name) {
      forall j | 0 <= j < |es| && IsSubSymbol(es[j].first, name)
        ensures j == k
      {
        TwoAround(es[j].first, es[k].first, name);
      }
      ScanFinds(es, name, k);
    } else {
      ScanMisses(es, name);
    }
  }

  lemma AroundIsSubSymbol(stored: string, name: string)
    ensures IsAround(stored, name) <==> IsSubSymbol(stored, name)
  {
    SubSymbolMeans(stored, name);
  }

  /** Of two names around a third, one is around the other. */
  lemma TwoAround(a: string, b: string, name: string)
    requires IsSubSymbol(a, name) && IsSubSymbol(b, name)
    ensures IsSubSymbol(a, b) || IsSubSymbol(b, a)
  {
    if |a| <= |b| {
      assert a == name[..|a|] == b[..|a|];
    } else {
      assert b == name[..|b|] == a[..|b|];
    }
  }

  /** A name conflicts with those it is around and those that are around it. */
  lemma ConflictMeans<V>(es: seq<Entry<V>>, name: string)
    ensures Conflicts(es, name) <==>
            exists k :: 0 <= k < |es| && (IsAround(es[k].first, name) || IsAround(name, es[k].first))
  {
    hide IsSubSymbol, IsAround;
    forall k | 0 <= k < |es|
      ensures IsAround(es[k].first, name) <==> IsSubSymbol(es[k].first, name)
      ensures IsAround(name, es[k].first) <==> IsSubSymbol(name, es[k].first)
    {
      AroundIsSubSymbol(es[k].first, name);
      AroundIsSubSymbol(name, es[k].first);
    }
  }

  // ------------------------------------------------------------------- class

  class DescriptorIndex<V> {
    var bySymbol: seq<Entry<V>>

    ghost predicate Valid()
      reads this
    {
      Sorted(bySymbol) && ValidNames(bySymbol)
    }

    constructor ()
      ensures Valid() && bySymbol == []
    {
      bySymbol := [];
    }

    /** Under the invariant: accepts a valid name that conflicts with no stored
        one, and in the overlooked case also one that does; only that case
        breaks the invariant.  In any case: a name that is accepted is new, and
        goes to its place in the order. */
    method AddSymbol(name: string, value: V) returns (ok: bool)
      requires Valid()
      modifies this
      ensures Valid()
      ensures bySymbol == Added(old(bySymbol), Entry(name, value)) && (ok <==> Accepts(old(bySymbol), name))
      ensures ok ==> forall k :: 0 <= k < |old(bySymbol)| ==> old(bySymbol)[k].first != name
      ensures if ok then multiset(bySymbol) == multiset(old(bySymbol)) + multiset{Entry(name, value)}
              else bySymbol == old(bySymbol)
      ensures Separate(old(bySymbol)) ==>
                (ok <==> ValidName(name) && (!Conflicts(old(bySymbol), name) || Overlooked(old(bySymbol), name)))
      ensures Separate(old(bySymbol)) ==> (Separate(bySymbol) <==> !(ok && Overlooked(old(bySymbol), name)))
    {
      if Separate(bySymbol) {
        NeighboursSuffice(bySymbol, name);
        InsertSeparates(bySymbol, Entry(name, value));
      }
      ok := ValidateSymbolName(name);
      if !ok {
        return;
      }
      var iter := FindLastLessOrEqual(bySymbol, name);
      if iter == |bySymbol| {
        bySymbol := [Entry(name, value)];
        return;
      }
      if IsSubSymbol(bySymbol[iter].first, name) {
        return false;
      }
      iter := iter + 1;
      if iter < |bySymbol| && IsSubSymbol(name, bySymbol[iter].first) {
        return false;
      }
      InsertKeepsOrder(bySymbol, Entry(name, value));
      forall k | 0 <= k < |bySymbol|
        ensures bySymbol[k].first != name
      {
        AgreeingIsNew(bySymbol, name, k);
      }
      InsertAdds(bySymbol, Entry(name, value));
      bySymbol := Insert(bySymbol, Entry(name, value));
    }

    method FindSymbol(name: string) returns (found: Option<V>)
      requires Valid()
      ensures Separate(bySymbol) ==> found == Scan(bySymbol, name)
      ensures found != None ==> exists k :: 0 <= k < |bySymbol| && IsSubSymbol(bySymbol[k].first, name)
                                            && found == Some(bySymbol[k].second)
      ensures Separate(bySymbol) ==>
                forall k :: 0 <= k < |bySymbol| && IsAround(bySymbol[k].first, name) ==>
                  found == Some(bySymbol[k].second)
      ensures Separate(bySymbol) && found == None ==>
                forall k :: 0 <= k < |bySymbol| ==> !IsAround(bySymbol[k].first, name)
    {
      if Separate(bySymbol) {
        LookupIsScan(bySymbol, name);
        ScanIsAround(bySymbol, name);
      }
      var i := FindLastLessOrEqual(bySymbol, name);
      found := if i < |bySymbol| && IsSubSymbol(bySymbol[i].first, name) then Some(bySymbol[i].second) else None;
    }
  }

  /** With `a.b` stored, adding `a` succeeds; then a name inside `a`
      that a scan would resolve is no longer found. */
  lemma OverlookedWitness()
    ensures var es := [Entry("a.b", 0)];
            && Sorted(es) && ValidNames(es) && Separate(es)
            && Conflicts(es, "a") && NeighboursAgree(es, "a")
            && var after := Insert(es, Entry("a", 1));
               && !Separate(after)
               && Scan(after, "a.c") == Some(1) && Lookup(after, "a.c") == None
  {
    var es := [Entry("a.b", 0)];
    assert "a" == "a.b"[..1];
    assert IsSubSymbol("a", es[0].first) && IsSubSymbol("a", "a.c");
    assert Less("a", "a.b");
    assert UpperBound(es, "a") == 0;
    var after := Insert(es, Entry("a", 1));
    assert after == [Entry("a", 1), Entry("a.b", 0)];
    assert Less("a.b", "a.c") && !Less("a.c", "a.b") && !Less("a.c", "a");
    assert UpperBound(after[1..], "a.c") == 1;
    assert FindLastLessOrEqual(after, "a.c") == 1;
    assert !IsSubSymbol("a.b", "a.c");
  }
}
