/** Resolving a symbol name from inside a scope. */
module SymbolLookup {
  import opened Prelude

  datatype SymbolType = NullSymbol | Message | Field | Enum | EnumValue | Service | Method | Package

  /** A symbol and the identity of the descriptor it stands for. */
  datatype Symbol = Symbol(kind: SymbolType, descriptor: nat) {
    predicate IsNull() {
      kind == NullSymbol
    }

    predicate IsType() {
      kind == Message || kind == Enum
    }

    predicate IsAggregate() {
      kind == Message || kind == Package || kind == Enum || kind == Service
    }
  }

  const NULL_SYMBOL := Symbol(NullSymbol, 0)

  datatype ResolveMode = LookupAll | LookupTypes

  /** The symbols the file being built may use, by full name. */
  type Visible = map<string, Symbol>

  function FindSymbol(visible: Visible, name: string): Symbol {
    if name in visible then visible[name] else NULL_SYMBOL
  }

  // ------------------------------------------------------------ specification

  function FindFirstDot(s: string): (pos: Option<nat>)
    ensures pos.None? ==> '.' !in s
    ensures pos.Some? ==> pos.value < |s| && s[pos.value] == '.' && '.' !in s[..pos.value]
  {
    if s == "" then None
    else if s[0] == '.' then Some(0)
    else
      match FindFirstDot(s[1..])
      case None => None
      case Some(k) => assert s[..k + 1] == [s[0]] + s[1..][..k]; Some(k + 1)
  }

  /** The part of a name before its first dot. */
  function FirstPart(name: string): (first: string)
    ensures '.' !in first && first <= name && (first == name || name[|first|] == '.')
  {
    match FindFirstDot(name)
    case None => name
    case Some(k) => name[..k]
  }

  /** Whether the search ends at this scope: for a compound name, its first
      part must be an aggregate here; for a simple one, the symbol must be
      here and, when only types are wanted, be a type. */
  ghost predicate Decides(visible: Visible, scope: string, name: string, mode: ResolveMode) {
    var first := FirstPart(name);
    var found := FindSymbol(visible, scope + "." + first);
    if first != name then found.IsAggregate()
    else !found.IsNull() && (mode == LookupTypes ==> found.IsType())
  }

  /** A dot of `relativeTo` ends an enclosing scope. */
  ghost predicate EnclosingDecides(visible: Visible, relativeTo: string, d: nat, name: string,
                                   mode: ResolveMode)
    requires d < |relativeTo|
  {
    relativeTo[d] == '.' && Decides(visible, relativeTo[..d], name, mode)
  }

  /** The scope that ends at this dot holds the name as one of these kinds. */
  ghost predicate HeldAs(visible: Visible, relativeTo: string, d: nat, name: string, kinds: set<SymbolType>) {
    d < |relativeTo| && relativeTo[d] == '.' && FindSymbol(visible, relativeTo[..d] + "." + name).kind in kinds
  }

  /** The answer is what the innermost scope that holds `part` as one of the
      kinds `ends` holds under the name, be it nothing; what is outermost if
      there is no such scope. */
  ghost predicate FoundThrough(visible: Visible, name: string, relativeTo: string, part: string,
                               ends: set<SymbolType>, found: Symbol)
  {
    && (forall d: nat ::
          && HeldAs(visible, relativeTo, d, part, ends)
          && (forall e: nat :: d < e ==> !HeldAs(visible, relativeTo, e, part, ends))
          ==> found == FindSymbol(visible, relativeTo[..d] + "." + name))
    && ((forall e: nat :: !HeldAs(visible, relativeTo, e, part, ends)) ==> found == FindSymbol(visible, name))
  }

  /** The symbol found is the one the innermost deciding scope holds, even if
      that is none; with no deciding scope, the one at the outermost level. */
  ghost predicate InnermostRule(visible: Visible, name: string, relativeTo: string,
                                mode: ResolveMode, found: Symbol)
  {
    || (exists d: nat ::
          && d < |relativeTo| && EnclosingDecides(visible, relativeTo, d, name, mode)
          && (forall e: nat :: d < e < |relativeTo| ==> !EnclosingDecides(visible, relativeTo, e, name, mode))
          && found == FindSymbol(visible, relativeTo[..d] + "." + name))
    || ((forall e: nat :: e < |relativeTo| ==> !EnclosingDecides(visible, relativeTo, e, name, mode))
        && found == FindSymbol(visible, name))
  }

  // --------------------------------------------------------------- operations

  function FindLastDot(s: string): (pos: Option<nat>)
    ensures pos.None? ==> '.' !in s
    ensures pos.Some? ==> pos.value < |s| && s[pos.value] == '.' && '.' !in s[pos.value + 1..]
  {
    if s == "" then None
    else if s[|s| - 1] == '.' then Some(|s| - 1)
    else
      var shorter := s[..|s| - 1];
      match FindLastDot(shorter)
      case None => None
      case Some(k) => assert s[k + 1..] == shorter[k + 1..] + [s[|s| - 1]]; Some(k)
  }

  /** No scope from `size` on decides. */
  ghost predicate NoneDecides(visible: Visible, relativeTo: string, size: nat, name: string, mode: ResolveMode) {
    forall e: nat :: size <= e < |relativeTo| ==> !EnclosingDecides(visible, relativeTo, e, name, mode)
  }

  lemma NothingBeyondDecides(visible: Visible, relativeTo: string, name: string, mode: ResolveMode)
    ensures NoneDecides(visible, relativeTo, |relativeTo|, name, mode)
  {
  }

  /** How the code finds out whether a scope decides. */
  lemma Decision(visible: Visible, relativeTo: string, dot: nat, name: string, mode: ResolveMode)
    requires dot < |relativeTo| && relativeTo[dot] == '.'
    ensures var first := FirstPart(name);
            var result := FindSymbol(visible, relativeTo[..dot] + "." + first);
            EnclosingDecides(visible, relativeTo, dot, name, mode) <==>
              && !result.IsNull()
              && if |first| < |name| then result.IsAggregate() else !(mode == LookupTypes && !result.IsType())
  {
    hide FindSymbol;
  }

  /** Editing the scope string in place. */
  lemma ScopeEdits(relativeTo: string, dot: nat, name: string)
    requires dot < |relativeTo|
    ensures var scope := relativeTo[..dot] + "." + FirstPart(name);
            && scope[..dot] == relativeTo[..dot]
            && |FirstPart(name)| <= |name|
            && scope + name[|FirstPart(name)|..] == relativeTo[..dot] + "." + name
            && (|FirstPart(name)| == |name| ==> FirstPart(name) == name)
  {
    var first := FirstPart(name);
    assert first <= name;
    assert name == first + name[|first|..];
    Reassociate(relativeTo[..dot] + ".", first, name[|first|..]);
  }

  /** The last dot of a scope ends the next one around it. */
  lemma NextScope(visible: Visible, relativeTo: string, size: nat, name: string, mode: ResolveMode, dot: nat)
    requires size <= |relativeTo| && NoneDecides(visible, relativeTo, size, name, mode)
    requires FindLastDot(relativeTo[..size]) == Some(dot)
    ensures dot < size && relativeTo[dot] == '.' && relativeTo[..size][..dot] == relativeTo[..dot]
    ensures NoneDecides(visible, relativeTo, dot + 1, name, mode)
  {
    hide FindLastDot, Decides;
    var scope := relativeTo[..size];
    assert forall e: nat :: dot < e < size ==> relativeTo[e] == scope[dot + 1..][e - dot - 1];
  }

  lemma Outermost(visible: Visible, relativeTo: string, size: nat, name: string, mode: ResolveMode)
    requires size <= |relativeTo| && NoneDecides(visible, relativeTo, size, name, mode)
    requires FindLastDot(relativeTo[..size]).None?
    ensures InnermostRule(visible, name, relativeTo, mode, FindSymbol(visible, name))
  {
    hide FindLastDot, Decides;
    assert forall e: nat :: e < size ==> relativeTo[e] == relativeTo[..size][e];
  }

  lemma Decided(visible: Visible, relativeTo: string, dot: nat, name: string, mode: ResolveMode)
    requires dot < |relativeTo| && EnclosingDecides(visible, relativeTo, dot, name, mode)
    requires NoneDecides(visible, relativeTo, dot + 1, name, mode)
    ensures InnermostRule(visible, name, relativeTo, mode, FindSymbol(visible, relativeTo[..dot] + "." + name))
  {
    hide EnclosingDecides, FindSymbol;
  }

  lemma Undecided(visible: Visible, relativeTo: string, dot: nat, name: string, mode: ResolveMode)
    requires dot < |relativeTo| && !EnclosingDecides(visible, relativeTo, dot, name, mode)
    requires NoneDecides(visible, relativeTo, dot + 1, name, mode)
    ensures NoneDecides(visible, relativeTo, dot, name, mode)
  {
    hide EnclosingDecides;
  }

  /** Which kinds of symbols end the search. */
  lemma EndingKinds(visible: Visible, name: string, relativeTo: string, mode: ResolveMode, found: Symbol)
    requires InnermostRule(visible, name, relativeTo, mode, found)
    ensures '.' in name ==>
              FoundThrough(visible, name, relativeTo, FirstPart(name), {Message, Enum, Service, Package}, found)
    ensures '.' !in name && mode == LookupTypes ==>
              FoundThrough(visible, name, relativeTo, name, {Message, Enum}, found)
    ensures '.' !in name && mode == LookupAll ==>
              FoundThrough(visible, name, relativeTo, name,
                           {Message, Field, Enum, EnumValue, Service, Method, Package}, found)
  {
    hide InnermostRule, FindSymbol, FirstPart, FoundThrough;
    var part := FirstPart(name);
    assert ('.' in name) == (part != name);
    var ends := if '.' in name then {Message, Enum, Service, Package}
                else if mode == LookupTypes then {Message, Enum}
                else {Message, Field, Enum, EnumValue, Service, Method, Package};
    forall d: nat
      ensures HeldAs(visible, relativeTo, d, part, ends) <==>
              d < |relativeTo| && EnclosingDecides(visible, relativeTo, d, name, mode)
    {
      KindDecides(visible, relativeTo, d, name, mode, ends);
    }
    RuleFinds(visible, name, relativeTo, mode, part, ends, found);
  }

  lemma KindDecides(visible: Visible, relativeTo: string, d: nat, name: string, mode: ResolveMode,
                    ends: set<SymbolType>)
    requires ends == if '.' in name then {Message, Enum, Service, Package}
                     else if mode == LookupTypes then {Message, Enum}
                     else {Message, Field, Enum, EnumValue, Service, Method, Package}
    ensures HeldAs(visible, relativeTo, d, FirstPart(name), ends) <==>
            d < |relativeTo| && EnclosingDecides(visible, relativeTo, d, name, mode)
  {
    hide FindSymbol, FirstPart;
    assert ('.' in name) == (FirstPart(name) != name);
  }

  lemma RuleFinds(visible: Visible, name: string, relativeTo: string, mode: ResolveMode, part: string,
                  ends: set<SymbolType>, found: Symbol)
    requires InnermostRule(visible, name, relativeTo, mode, found)
    requires forall d: nat :: HeldAs(visible, relativeTo, d, part, ends) <==>
                              d < |relativeTo| && EnclosingDecides(visible, relativeTo, d, name, mode)
    ensures FoundThrough(visible, name, relativeTo, part, ends, found)
  {
    hide EnclosingDecides, HeldAs, FindSymbol;
  }

  method LookupSymbolNoPlaceholder(visible: Visible, name: string, relativeTo: string, mode: ResolveMode)
    returns (found: Symbol)
    ensures name != "" && name[0] == '.' ==> found == FindSymbol(visible, name[1..])
    ensures !(name != "" && name[0] == '.') ==>
              InnermostRule(visible, name, relativeTo, mode, found)
    ensures !(name != "" && name[0] == '.') && '.' in name ==>
              FoundThrough(visible, name, relativeTo, FirstPart(name), {Message, Enum, Service, Package}, found)
    ensures '.' !in name && mode == LookupTypes ==>
              FoundThrough(visible, name, relativeTo, name, {Message, Enum}, found)
    ensures '.' !in name && mode == LookupAll ==>
              FoundThrough(visible, name, relativeTo, name,
                           {Message, Field, Enum, EnumValue, Service, Method, Package}, found)
  {
    if |name| > 0 && name[0] == '.' {
      return FindSymbol(visible, name[1..]);
    }
    found := LookupInScopes(visible, name, relativeTo, mode);
    hide *;
    EndingKinds(visible, name, relativeTo, mode, found);
  }

  /** The loop of `LookupSymbolNoPlaceholder`. */
  method LookupInScopes(visible: Visible, name: string, relativeTo: string, mode: ResolveMode)
    returns (found: Symbol)
    ensures InnermostRule(visible, name, relativeTo, mode, found)
  {
    hide *;
    var first := FirstPart(name);
    var scope := relativeTo;
    NothingBeyondDecides(visible, relativeTo, name, mode);
    while true
      invariant |scope| <= |relativeTo| && scope == relativeTo[..|scope|]
      invariant NoneDecides(visible, relativeTo, |scope|, name, mode)
      decreases |scope|
    {
      var dotPos := FindLastDot(scope);
      if dotPos.None? {
        Outermost(visible, relativeTo, |scope|, name, mode);
        return FindSymbol(visible, name);
      }
      var oldSize := dotPos.value;
      NextScope(visible, relativeTo, |scope|, name, mode, oldSize);
      Decision(visible, relativeTo, oldSize, name, mode);
      ScopeEdits(relativeTo, oldSize, name);
      scope := scope[..oldSize];
      scope := scope + "." + first;
      var result := FindSymbol(visible, scope);
      if !result.IsNull() {
        if |first| < |name| {
          if result.IsAggregate() {
            Decided(visible, relativeTo, oldSize, name, mode);
            scope := scope + name[|first|..];
            return FindSymbol(visible, scope);
          }
        } else if !(mode == LookupTypes && !result.IsType()) {
          Decided(visible, relativeTo, oldSize, name, mode);
          return result;
        }
      }
      Undecided(visible, relativeTo, oldSize, name, mode);
      scope := scope[..oldSize];
    }
  }

  // --------------------------------------------------------------- properties

  /** Scopes that hold the part as no such kind are passed over: the answer is
      that of the scopes further out. */
  lemma FurtherOut(visible: Visible, name: string, relativeTo: string, part: string, ends: set<SymbolType>,
                   size: nat, found: Symbol)
    requires size <= |relativeTo|
    requires forall e: nat :: size <= e ==> !HeldAs(visible, relativeTo, e, part, ends)
    ensures FoundThrough(visible, name, relativeTo, part, ends, found)
       <==> FoundThrough(visible, name, relativeTo[..size], part, ends, found)
  {
    hide FindSymbol;
    var outer := relativeTo[..size];
    forall d: nat | d < size
      ensures outer[..d] == relativeTo[..d]
    {
    }
    forall e: nat
      ensures HeldAs(visible, relativeTo, e, part, ends) <==> HeldAs(visible, outer, e, part, ends)
    {
    }
  }

  /** There is always exactly one answer. */
  lemma {:induction false} OneAnswer(visible: Visible, name: string, relativeTo: string, part: string,
                                     ends: set<SymbolType>)
    returns (answer: Symbol)
    ensures forall found :: FoundThrough(visible, name, relativeTo, part, ends, found) <==> found == answer
    decreases |relativeTo|
  {
    hide *;
    var d := |relativeTo| - 1;
    if relativeTo == "" || HeldAs(visible, relativeTo, d, part, ends) {
      answer := FindSymbol(visible, if relativeTo == "" then name else relativeTo[..d] + "." + name);
      forall found
        ensures FoundThrough(visible, name, relativeTo, part, ends, found) <==> found == answer
      {
        Innermost(visible, name, relativeTo, part, ends, if relativeTo == "" then 0 else d, found);
      }
    } else {
      answer := OneAnswer(visible, name, relativeTo[..d], part, ends);
      NotBeyond(visible, relativeTo, part, ends);
      forall found
        ensures FoundThrough(visible, name, relativeTo, part, ends, found) <==> found == answer
      {
        FurtherOut(visible, name, relativeTo, part, ends, d, found);
      }
    }
  }

  lemma NotBeyond(visible: Visible, relativeTo: string, part: string, ends: set<SymbolType>)
    ensures forall e: nat :: |relativeTo| <= e ==> !HeldAs(visible, relativeTo, e, part, ends)
  {
  }

  /** The last byte of the scope ends the innermost scope of all, or there is none. */
  lemma Innermost(visible: Visible, name: string, relativeTo: string, part: string, ends: set<SymbolType>, d: nat,
                  found: Symbol)
    requires relativeTo == "" || (d == |relativeTo| - 1 && HeldAs(visible, relativeTo, d, part, ends))
    ensures FoundThrough(visible, name, relativeTo, part, ends, found) <==>
            found == FindSymbol(visible, if relativeTo == "" then name else relativeTo[..d] + "." + name)
  {
    hide FindSymbol, HeldAs;
    NotBeyond(visible, relativeTo, part, ends);
    if relativeTo == "" {
      assert forall e: nat :: !HeldAs(visible, relativeTo, e, part, ends);
    } else {
      assert forall e: nat :: d < e ==> !HeldAs(visible, relativeTo, e, part, ends);
    }
  }

  /** A field of `p.Q` names a message nested in a sibling of `p.Q`: the message
      is found, also if `p.Q` has a field of the sibling's name. */
  lemma NestedMessageFound(visible: Visible, found: Symbol)
    requires "p.Q.M" !in visible || visible["p.Q.M"].kind == Field
    requires "p.M" in visible && visible["p.M"].kind == Message && "p.M.N" in visible
    requires FoundThrough(visible, "M.N", "p.Q.f", "M", {Message, Enum, Service, Package}, found)
    ensures found == visible["p.M.N"]
  {
    var ends := {Message, Enum, Service, Package};
    assert "p.Q.f"[..3] + "." + "M" == "p.Q.M" && "p.Q.f"[..1] + "." + "M" == "p.M";
    assert "p.Q.f"[..1] + "." + "M.N" == "p.M.N";
    assert HeldAs(visible, "p.Q.f", 1, "M", ends);
    assert forall e: nat :: 1 < e ==> !HeldAs(visible, "p.Q.f", e, "M", ends);
  }

  /** Once a scope decides, what is outside of it does not matter: two tables
      that agree on the names inside it give the same answer. */
  lemma OuterScopesAreHidden(visible: Visible, other: Visible, name: string, relativeTo: string,
                             mode: ResolveMode, d: nat, found: Symbol)
    requires d < |relativeTo| && EnclosingDecides(visible, relativeTo, d, name, mode)
    requires AgreeInside(visible, other, relativeTo[..d])
    ensures InnermostRule(visible, name, relativeTo, mode, found)
       <==> InnermostRule(other, name, relativeTo, mode, found)
  {
    assert relativeTo[d] == '.';
    hide EnclosingDecides, AgreeInside, FindSymbol;
    forall e: nat | d <= e < |relativeTo|
      ensures EnclosingDecides(visible, relativeTo, e, name, mode) <==>
              EnclosingDecides(other, relativeTo, e, name, mode)
      ensures EnclosingDecides(visible, relativeTo, e, name, mode) ==>
                FindSymbol(visible, relativeTo[..e] + "." + name) == FindSymbol(other, relativeTo[..e] + "." + name)
    {
      SameDecision(visible, other, name, relativeTo, mode, d, e);
    }
  }

  ghost predicate AgreeInside(visible: Visible, other: Visible, scope: string) {
    forall s: string :: FindSymbol(visible, scope + "." + s) == FindSymbol(other, scope + "." + s)
  }

  lemma SameDecision(visible: Visible, other: Visible, name: string, relativeTo: string, mode: ResolveMode,
                     d: nat, e: nat)
    requires d <= e < |relativeTo| && relativeTo[d] == '.'
    requires AgreeInside(visible, other, relativeTo[..d])
    ensures EnclosingDecides(visible, relativeTo, e, name, mode) <==> EnclosingDecides(other, relativeTo, e, name, mode)
    ensures FindSymbol(visible, relativeTo[..e] + "." + name) == FindSymbol(other, relativeTo[..e] + "." + name)
  {
    hide FindSymbol;
    InsideScope(visible, other, relativeTo, d, e, FirstPart(name));
    InsideScope(visible, other, relativeTo, d, e, name);
  }

  lemma InsideScope(visible: Visible, other: Visible, relativeTo: string, d: nat, e: nat, s: string)
    requires d <= e < |relativeTo| && relativeTo[d] == '.'
    requires AgreeInside(visible, other, relativeTo[..d])
    ensures FindSymbol(visible, relativeTo[..e] + "." + s) == FindSymbol(other, relativeTo[..e] + "." + s)
  {
    if d < e {
      var t := relativeTo[d + 1..e] + "." + s;
      assert relativeTo[..e] + "." + s == relativeTo[..d] + "." + t;
    }
  }
}
