/**
  The state changes of the recursive traversal: `GetJsType` and
  `GenerateInterfaceOf` as functions from the generator's state (the
  `dependentTypes` set and the namespace groups) to its new state.
*/
module Traversal {
  import opened Reflection
  import opened Selection
  import opened TypeMapping
  import opened Declarations
  import opened Namespaces

  /** The generator's two mutable fields. */
  datatype State = State(dependentTypes: set<TypeId>, interfacesPerNamespaces: Groups)

  /**
    The state after `GetJsType(t)`: it recurses into the nullable's underlying
    type and the container arguments it reads (key before value), and for a
    project type generates the type's interface and only then adds the type
    to `dependentTypes`; every other rule leaves the state alone.
  */
  ghost function MapState(e: Env, st: State, t: TypeId): State
    requires Ranked(e) && t in e.rank
    decreases e.rank[t], 2, 0
  {
    assert RankedType(e, t);
    var d := e.types[t];
    match Rule(e, t)
    case NullableRule => MapState(e, st, d.nullableOf.value)
    case DictionaryRule => MapState(e, MapState(e, st, d.genericArgs[0]), d.genericArgs[1])
    case EnumerableRule => MapState(e, st, d.genericArgs[0])
    case ProjectRule =>
      var s := Generate(e, st, t);
      State(s.dependentTypes + {t}, s.interfacesPerNamespaces)
    case _ => st
  }

  /**
    The state after `GenerateInterfaceOf(t)`: nothing when `t` is already in
    `dependentTypes`; otherwise the member types are mapped in order and the
    declaration is added to `t`'s namespace. `t` itself is not marked.
  */
  ghost function Generate(e: Env, st: State, t: TypeId): State
    requires Ranked(e) && t in e.rank && t in e.types && MembersBelow(e, t)
    decreases e.rank[t], 1, 0
  {
    if t in st.dependentTypes then st
    else
      var s := MapAll(e, st, MemberTypes(e.types[t]), e.rank[t]);
      State(s.dependentTypes, AddToNs(s.interfacesPerNamespaces, e.types[t].ns, Declaration(e, t)))
  }

  /** Mapping a sequence of member types, one after the other. */
  ghost function MapAll(e: Env, st: State, ids: seq<TypeId>, bound: nat): State
    requires Ranked(e) && AllBelow(e, ids, bound)
    decreases bound, 0, |ids|
  {
    if ids == [] then st
    else
      MapState(e, MapAll(e, st, ids[..|ids| - 1], bound), ids[|ids| - 1])
  }

  /** Mapping one more type after `ids`. */
  lemma MapAllSnoc(e: Env, st: State, ids: seq<TypeId>, x: TypeId, bound: nat)
    requires Ranked(e) && AllBelow(e, ids, bound) && Below(e, x, bound)
    ensures AllBelow(e, ids + [x], bound)
    ensures MapAll(e, st, ids + [x], bound) == MapState(e, MapAll(e, st, ids, bound), x)
  {
    assert (ids + [x])[..|ids|] == ids;
  }

  /** `b` is `a` with more visited types and more declarations, none lost or reordered. */
  ghost predicate Evolves(a: State, b: State) {
    a.dependentTypes <= b.dependentTypes && Extends(a.interfacesPerNamespaces, b.interfacesPerNamespaces)
  }

  lemma EvolvesTrans(a: State, b: State, c: State)
    requires Evolves(a, b) && Evolves(b, c)
    ensures Evolves(a, c)
  {
    ExtendsTrans(a.interfacesPerNamespaces, b.interfacesPerNamespaces, c.interfacesPerNamespaces);
  }

  /** `GetJsType` never removes a visited type or a declaration, and keeps namespace keys distinct. */
  lemma {:induction false} MapStateProgress(e: Env, st: State, t: TypeId)
    requires Ranked(e) && t in e.rank
    ensures Evolves(st, MapState(e, st, t))
    ensures DistinctKeys(st.interfacesPerNamespaces) ==> DistinctKeys(MapState(e, st, t).interfacesPerNamespaces)
    decreases e.rank[t], 2, 0
  {
    assert RankedType(e, t);
    var d := e.types[t];
    match Rule(e, t) {
      case NullableRule =>
        MapStateProgress(e, st, d.nullableOf.value);
      case DictionaryRule =>
        var s1 := MapState(e, st, d.genericArgs[0]);
        MapStateProgress(e, st, d.genericArgs[0]);
        MapStateProgress(e, s1, d.genericArgs[1]);
        EvolvesTrans(st, s1, MapState(e, s1, d.genericArgs[1]));
      case EnumerableRule =>
        MapStateProgress(e, st, d.genericArgs[0]);
      case ProjectRule =>
        GenerateProgress(e, st, t);
      case _ =>
    }
  }

  lemma {:induction false} GenerateProgress(e: Env, st: State, t: TypeId)
    requires Ranked(e) && t in e.rank && t in e.types && MembersBelow(e, t)
    ensures Evolves(st, Generate(e, st, t))
    ensures DistinctKeys(st.interfacesPerNamespaces) ==> DistinctKeys(Generate(e, st, t).interfacesPerNamespaces)
    decreases e.rank[t], 1, 0
  {
    if t !in st.dependentTypes {
      var d := e.types[t];
      var s := MapAll(e, st, MemberTypes(d), e.rank[t]);
      MapAllProgress(e, st, MemberTypes(d), e.rank[t]);
      AddExtends(s.interfacesPerNamespaces, d.ns, Declaration(e, t));
      EvolvesTrans(st, s, Generate(e, st, t));
    }
  }

  lemma {:induction false} MapAllProgress(e: Env, st: State, ids: seq<TypeId>, bound: nat)
    requires Ranked(e) && AllBelow(e, ids, bound)
    ensures Evolves(st, MapAll(e, st, ids, bound))
    ensures DistinctKeys(st.interfacesPerNamespaces) ==> DistinctKeys(MapAll(e, st, ids, bound).interfacesPerNamespaces)
    decreases bound, 0, |ids|
  {
    if ids != [] {
      var p := ids[..|ids| - 1];
      var s := MapAll(e, st, p, bound);
      MapAllProgress(e, st, p, bound);
      MapStateProgress(e, s, ids[|ids| - 1]);
      EvolvesTrans(st, s, MapAll(e, st, ids, bound));
    }
  }

  /** Type `x` hits the project rule and its declaration is recorded under its namespace. */
  ghost predicate Declared(e: Env, groups: Groups, x: TypeId)
    requires Ranked(e)
  {
    && x in e.rank && x in e.types && Rule(e, x) == ProjectRule
    && (assert RankedType(e, x); Declaration(e, x) in Lookup(groups, e.types[x].ns))
  }

  /** Every type in `dependentTypes` has been declared under its own namespace. */
  ghost predicate Emitted(e: Env, st: State)
    requires Ranked(e)
  {
    forall x | x in st.dependentTypes :: Declared(e, st.interfacesPerNamespaces, x)
  }

  /** Declarations survive extension of the groups. */
  lemma DeclaredCarry(e: Env, a: Groups, b: Groups, x: TypeId)
    requires Ranked(e) && Declared(e, a, x) && Extends(a, b)
    ensures Declared(e, b, x)
  {
    ExtendsLookup(a, b, e.types[x].ns);
  }

  lemma EmittedCarry(e: Env, a: State, b: State)
    requires Ranked(e) && Emitted(e, a) && Evolves(a, b)
    ensures forall x | x in a.dependentTypes :: Declared(e, b.interfacesPerNamespaces, x)
  {
    forall x | x in a.dependentTypes ensures Declared(e, b.interfacesPerNamespaces, x) {
      DeclaredCarry(e, a.interfacesPerNamespaces, b.interfacesPerNamespaces, x);
    }
  }

  /** `GetJsType` keeps the invariant that every visited type has been declared. */
  lemma {:induction false} MapStateEmits(e: Env, st: State, t: TypeId)
    requires Ranked(e) && t in e.rank && Emitted(e, st)
    ensures Emitted(e, MapState(e, st, t))
    decreases e.rank[t], 2, 0
  {
    assert RankedType(e, t);
    var d := e.types[t];
    match Rule(e, t) {
      case NullableRule =>
        MapStateEmits(e, st, d.nullableOf.value);
      case DictionaryRule =>
        MapStateEmits(e, st, d.genericArgs[0]);
        MapStateEmits(e, MapState(e, st, d.genericArgs[0]), d.genericArgs[1]);
      case EnumerableRule =>
        MapStateEmits(e, st, d.genericArgs[0]);
      case ProjectRule =>
        var g := Generate(e, st, t);
        GenerateEmits(e, st, t);
        if t in st.dependentTypes {
          assert g == st;
        } else {
          var s := MapAll(e, st, MemberTypes(d), e.rank[t]);
          AddLookup(s.interfacesPerNamespaces, d.ns, Declaration(e, t), d.ns);
          assert Declared(e, g.interfacesPerNamespaces, t);
        }
      case _ =>
    }
  }

  /** `GenerateInterfaceOf` keeps the invariant that every visited type has been declared. */
  lemma {:induction false} GenerateEmits(e: Env, st: State, t: TypeId)
    requires Ranked(e) && t in e.rank && t in e.types && MembersBelow(e, t) && Emitted(e, st)
    ensures Emitted(e, Generate(e, st, t))
    decreases e.rank[t], 1, 0
  {
    if t !in st.dependentTypes {
      var d := e.types[t];
      var s := MapAll(e, st, MemberTypes(d), e.rank[t]);
      MapAllEmits(e, st, MemberTypes(d), e.rank[t]);
      AddExtends(s.interfacesPerNamespaces, d.ns, Declaration(e, t));
      EmittedCarry(e, s, Generate(e, st, t));
    }
  }

  lemma {:induction false} MapAllEmits(e: Env, st: State, ids: seq<TypeId>, bound: nat)
    requires Ranked(e) && (AllBelow(e, ids, bound)) && Emitted(e, st)
    ensures Emitted(e, MapAll(e, st, ids, bound))
    decreases bound, 0, |ids|
  {
    if ids != [] {
      var p := ids[..|ids| - 1];
      MapAllEmits(e, st, p, bound);
      MapStateEmits(e, MapAll(e, st, p, bound), ids[|ids| - 1]);
    }
  }

  /** The types `GetJsType(t)` adds to `dependentTypes` are ranked no higher than `t`. */
  lemma {:induction false} MapStateBelow(e: Env, st: State, t: TypeId)
    requires Ranked(e) && t in e.rank
    ensures forall y | y in MapState(e, st, t).dependentTypes && y !in st.dependentTypes :: Below(e, y, e.rank[t] + 1)
    decreases e.rank[t], 2, 0
  {
    assert RankedType(e, t);
    var d := e.types[t];
    match Rule(e, t) {
      case NullableRule =>
        MapStateBelow(e, st, d.nullableOf.value);
      case DictionaryRule =>
        MapStateBelow(e, st, d.genericArgs[0]);
        MapStateBelow(e, MapState(e, st, d.genericArgs[0]), d.genericArgs[1]);
      case EnumerableRule =>
        MapStateBelow(e, st, d.genericArgs[0]);
      case ProjectRule =>
        GenerateBelow(e, st, t);
      case _ =>
    }
  }

  /** The types `GenerateInterfaceOf(t)` adds to `dependentTypes` are ranked strictly below `t`. */
  lemma {:induction false} GenerateBelow(e: Env, st: State, t: TypeId)
    requires Ranked(e) && t in e.rank && t in e.types && MembersBelow(e, t)
    ensures forall y | y in Generate(e, st, t).dependentTypes && y !in st.dependentTypes :: Below(e, y, e.rank[t])
    decreases e.rank[t], 1, 0
  {
    if t !in st.dependentTypes {
      MapAllBelow(e, st, MemberTypes(e.types[t]), e.rank[t]);
    }
  }

  lemma {:induction false} MapAllBelow(e: Env, st: State, ids: seq<TypeId>, bound: nat)
    requires Ranked(e) && AllBelow(e, ids, bound)
    ensures forall y | y in MapAll(e, st, ids, bound).dependentTypes && y !in st.dependentTypes :: Below(e, y, bound)
    decreases bound, 0, |ids|
  {
    if ids != [] {
      var p := ids[..|ids| - 1];
      MapAllBelow(e, st, p, bound);
      MapStateBelow(e, MapAll(e, st, p, bound), ids[|ids| - 1]);
    }
  }

  /** A root is never added to `dependentTypes` by its own generation. */
  lemma RootNeverMarked(e: Env, st: State, t: TypeId)
    requires Ranked(e) && t in e.rank && t in e.types && MembersBelow(e, t)
    requires t !in st.dependentTypes
    ensures t !in Generate(e, st, t).dependentTypes
  {
    GenerateBelow(e, st, t);
  }

  /** `GenerateInterfaceOf` on a type already in `dependentTypes` changes nothing, however often it is called. */
  lemma GenerateVisited(e: Env, st: State, t: TypeId)
    requires Ranked(e) && t in e.rank && t in e.types && MembersBelow(e, t)
    requires t in st.dependentTypes
    ensures Generate(e, st, t) == st
    ensures Generate(e, Generate(e, st, t), t) == Generate(e, st, t)
  {
  }

  /**
    A fresh generation appends the type's declaration to its namespace, after
    everything that namespace already held.
  */
  lemma GenerateDeclares(e: Env, st: State, t: TypeId)
    requires Ranked(e) && t in e.rank && t in e.types && MembersBelow(e, t)
    requires t !in st.dependentTypes
    ensures var l := Lookup(Generate(e, st, t).interfacesPerNamespaces, e.types[t].ns);
      && |l| > 0 && l[|l| - 1] == Declaration(e, t)
      && Lookup(st.interfacesPerNamespaces, e.types[t].ns) <= l[..|l| - 1]
  {
    var d := e.types[t];
    var s := MapAll(e, st, MemberTypes(d), e.rank[t]);
    MapAllProgress(e, st, MemberTypes(d), e.rank[t]);
    ExtendsLookup(st.interfacesPerNamespaces, s.interfacesPerNamespaces, d.ns);
    AddLookup(s.interfacesPerNamespaces, d.ns, Declaration(e, t), d.ns);
    var l := Lookup(Generate(e, st, t).interfacesPerNamespaces, d.ns);
    assert l[..|l| - 1] == Lookup(s.interfacesPerNamespaces, d.ns);
  }

  /**
    Generating a fresh root twice records its declaration twice: unlike a
    dependency, a root never enters `dependentTypes`, so the second call is
    not a no-op.
  */
  lemma RootDeclaredTwice(e: Env, st: State, t: TypeId)
    requires Ranked(e) && t in e.rank && t in e.types && MembersBelow(e, t)
    requires t !in st.dependentTypes
    ensures var g1 := Generate(e, st, t);
      var g2 := Generate(e, g1, t);
      && multiset(Lookup(g2.interfacesPerNamespaces, e.types[t].ns))[Declaration(e, t)] >= 2
      && g2 != g1
  {
    var k := e.types[t].ns;
    var g1 := Generate(e, st, t);
    RootNeverMarked(e, st, t);
    GenerateDeclares(e, st, t);
    GenerateDeclares(e, g1, t);
    var g2 := Generate(e, g1, t);
    FiledAgain(Lookup(g1.interfacesPerNamespaces, k), Lookup(g2.interfacesPerNamespaces, k), Declaration(e, t));
  }

  /**
    A root reached again as a dependency is filed a second time: after
    `GenerateInterfaceOf(r)`, a later `GetJsType(r)` (from another root's
    member of type `r`) finds `r` unvisited and generates it once more.
  */
  lemma RootReachedAgain(e: Env, st: State, r: TypeId)
    requires Ranked(e) && r in e.rank && r in e.types && Rule(e, r) == ProjectRule
    requires r !in st.dependentTypes
    ensures MembersBelow(e, r)
    ensures multiset(Lookup(MapState(e, Generate(e, st, r), r).interfacesPerNamespaces, e.types[r].ns))[Declaration(e, r)] >= 2
  {
    assert RankedType(e, r);
    RootDeclaredTwice(e, st, r);
  }

  /**
    A root already filed is filed again when `GetJsType` later reaches it,
    whatever was generated in between: the root is still unvisited, so its
    interface is generated once more.
  */
  lemma RootReachedLater(e: Env, st: State, r: TypeId)
    requires Ranked(e) && r in e.rank && r in e.types && Rule(e, r) == ProjectRule
    requires r !in st.dependentTypes
    ensures MembersBelow(e, r)
    ensures Declaration(e, r) in Lookup(st.interfacesPerNamespaces, e.types[r].ns) ==>
      multiset(Lookup(MapState(e, st, r).interfacesPerNamespaces, e.types[r].ns))[Declaration(e, r)] >= 2
  {
    assert RankedType(e, r);
    var k := e.types[r].ns;
    GenerateDeclares(e, st, r);
    FiledAgain(Lookup(st.interfacesPerNamespaces, k), Lookup(MapState(e, st, r).interfacesPerNamespaces, k), Declaration(e, r));
  }

  /** A list extended past `before` and ending in `d` holds `d` twice when `before` already held it. */
  lemma FiledAgain(before: seq<string>, l: seq<string>, d: string)
    requires |l| > 0 && l[|l| - 1] == d && before <= l[..|l| - 1]
    ensures d in before ==> multiset(l)[d] >= 2
    ensures |l| > |before|
  {
    var front := l[..|l| - 1];
    assert l == front + [d];
    if d in before {
      assert d in front;
      assert multiset(front)[d] >= 1;
    }
  }

  /** The project types a type expression names directly (through nullable and container arguments). */
  ghost function Leaves(e: Env, t: TypeId): set<TypeId>
    requires Ranked(e) && t in e.rank
    decreases e.rank[t]
  {
    assert RankedType(e, t);
    var d := e.types[t];
    match Rule(e, t)
    case NullableRule => Leaves(e, d.nullableOf.value)
    case DictionaryRule => Leaves(e, d.genericArgs[0]) + Leaves(e, d.genericArgs[1])
    case EnumerableRule => Leaves(e, d.genericArgs[0])
    case ProjectRule => {t}
    case _ => {}
  }

  /** After `GetJsType(t)`, every project type `t` names is in `dependentTypes`. */
  lemma {:induction false} LeavesMarked(e: Env, st: State, t: TypeId)
    requires Ranked(e) && t in e.rank
    ensures Leaves(e, t) <= MapState(e, st, t).dependentTypes
    decreases e.rank[t]
  {
    assert RankedType(e, t);
    var d := e.types[t];
    match Rule(e, t) {
      case NullableRule =>
        LeavesMarked(e, st, d.nullableOf.value);
      case DictionaryRule =>
        var s1 := MapState(e, st, d.genericArgs[0]);
        LeavesMarked(e, st, d.genericArgs[0]);
        LeavesMarked(e, s1, d.genericArgs[1]);
        MapStateProgress(e, s1, d.genericArgs[1]);
      case EnumerableRule =>
        LeavesMarked(e, st, d.genericArgs[0]);
      case _ =>
    }
  }

  /** When every project type `t` names is already visited, `GetJsType(t)` changes nothing. */
  lemma {:induction false} MapNoOp(e: Env, st: State, t: TypeId)
    requires Ranked(e) && t in e.rank && Leaves(e, t) <= st.dependentTypes
    ensures MapState(e, st, t) == st
    decreases e.rank[t]
  {
    assert RankedType(e, t);
    var d := e.types[t];
    match Rule(e, t) {
      case NullableRule =>
        MapNoOp(e, st, d.nullableOf.value);
      case DictionaryRule =>
        MapNoOp(e, st, d.genericArgs[0]);
        MapNoOp(e, st, d.genericArgs[1]);
      case EnumerableRule =>
        MapNoOp(e, st, d.genericArgs[0]);
      case ProjectRule =>
        assert st.dependentTypes + {t} == st.dependentTypes;
      case _ =>
    }
  }

  /** `GetJsType` is idempotent: mapping the same type again leaves the state it left. */
  lemma MapIdempotent(e: Env, st: State, t: TypeId)
    requires Ranked(e) && t in e.rank
    ensures MapState(e, MapState(e, st, t), t) == MapState(e, st, t)
  {
    LeavesMarked(e, st, t);
    MapNoOp(e, MapState(e, st, t), t);
  }

  /**
    A project type is visited after `GetJsType`; the primitive rules and the
    `any` fallback change no state.
  */
  lemma MapStateRules(e: Env, st: State, t: TypeId)
    requires Ranked(e) && t in e.rank && t in e.types
    ensures Rule(e, t) == ProjectRule ==> t in MapState(e, st, t).dependentTypes
    ensures Rule(e, t) in {NumberRule, StringRule, DateRule, BoolRule, AnyRule} ==> MapState(e, st, t) == st
  {
  }

  /** After mapping `ids`, every project type any of them names is visited. */
  lemma {:induction false} MapAllLeaves(e: Env, st: State, ids: seq<TypeId>, bound: nat)
    requires Ranked(e) && AllBelow(e, ids, bound)
    ensures forall i, y | 0 <= i < |ids| && y in Leaves(e, ids[i]) :: y in MapAll(e, st, ids, bound).dependentTypes
    decreases |ids|
  {
    if ids != [] {
      var p := ids[..|ids| - 1];
      var last := ids[|ids| - 1];
      var s := MapAll(e, st, p, bound);
      MapAllLeaves(e, st, p, bound);
      LeavesMarked(e, s, last);
      MapStateProgress(e, s, last);
      forall i, y | 0 <= i < |ids| && y in Leaves(e, ids[i]) ensures y in MapAll(e, st, ids, bound).dependentTypes {
        if i < |p| {
          assert p[i] == ids[i];
        }
      }
    }
  }

  /**
    Direct dependencies: after generating a fresh root, every project type named
    by one of its members is visited and declared under its own namespace.
  */
  lemma GenerateClosure(e: Env, st: State, t: TypeId)
    requires Ranked(e) && t in e.rank && t in e.types && MembersBelow(e, t)
    requires t !in st.dependentTypes && Emitted(e, st)
    ensures forall x, y | x in MemberTypes(e.types[t]) && y in Leaves(e, x) ::
      y in Generate(e, st, t).dependentTypes && Declared(e, Generate(e, st, t).interfacesPerNamespaces, y)
  {
    var ids := MemberTypes(e.types[t]);
    MapAllLeaves(e, st, ids, e.rank[t]);
    GenerateEmits(e, st, t);
    forall x, y | x in ids && y in Leaves(e, x)
      ensures y in Generate(e, st, t).dependentTypes
    {
      var i :| 0 <= i < |ids| && ids[i] == x;
    }
  }

  /**
    `y` is a direct dependency of `x`: a project type named by the type of
    one of `x`'s kept members, which `GenerateInterfaceOf(x)` maps.
  */
  ghost predicate DependsOn(e: Env, x: TypeId, y: TypeId)
    requires Ranked(e)
  {
    && x in e.rank && x in e.types
    && exists i | 0 <= i < |MemberTypes(e.types[x])| ::
         MemberTypes(e.types[x])[i] in e.rank && y in Leaves(e, MemberTypes(e.types[x])[i])
  }

  /**
    The visited set is closed under dependencies: every direct dependency of
    a visited type is visited too.
  */
  ghost predicate Closed(e: Env, st: State)
    requires Ranked(e)
  {
    forall x, y | x in st.dependentTypes && DependsOn(e, x, y) :: y in st.dependentTypes
  }

  /** A fresh root's direct dependencies are all visited once its interface is generated. */
  lemma RootDependencies(e: Env, st: State, t: TypeId, y: TypeId)
    requires Ranked(e) && t in e.rank && t in e.types && MembersBelow(e, t)
    requires t !in st.dependentTypes && DependsOn(e, t, y)
    ensures y in Generate(e, st, t).dependentTypes
  {
    var ids := MemberTypes(e.types[t]);
    MapAllLeaves(e, st, ids, e.rank[t]);
  }

  /** `GetJsType` keeps the visited set closed under dependencies. */
  lemma {:induction false} MapStateClosed(e: Env, st: State, t: TypeId)
    requires Ranked(e) && t in e.rank && Closed(e, st)
    ensures Closed(e, MapState(e, st, t))
    decreases e.rank[t], 2, 0
  {
    assert RankedType(e, t);
    var d := e.types[t];
    match Rule(e, t) {
      case NullableRule =>
        MapStateClosed(e, st, d.nullableOf.value);
      case DictionaryRule =>
        MapStateClosed(e, st, d.genericArgs[0]);
        MapStateClosed(e, MapState(e, st, d.genericArgs[0]), d.genericArgs[1]);
      case EnumerableRule =>
        MapStateClosed(e, st, d.genericArgs[0]);
      case ProjectRule =>
        var g := Generate(e, st, t);
        var r := MapState(e, st, t);
        GenerateClosed(e, st, t);
        if t !in st.dependentTypes {
          forall y | DependsOn(e, t, y) ensures y in r.dependentTypes {
            RootDependencies(e, st, t, y);
          }
        }
      case _ =>
    }
  }

  /** `GenerateInterfaceOf` keeps the visited set closed under dependencies. */
  lemma {:induction false} GenerateClosed(e: Env, st: State, t: TypeId)
    requires Ranked(e) && t in e.rank && t in e.types && MembersBelow(e, t) && Closed(e, st)
    ensures Closed(e, Generate(e, st, t))
    decreases e.rank[t], 1, 0
  {
    if t !in st.dependentTypes {
      MapAllClosed(e, st, MemberTypes(e.types[t]), e.rank[t]);
    }
  }

  lemma {:induction false} MapAllClosed(e: Env, st: State, ids: seq<TypeId>, bound: nat)
    requires Ranked(e) && AllBelow(e, ids, bound) && Closed(e, st)
    ensures Closed(e, MapAll(e, st, ids, bound))
    decreases bound, 0, |ids|
  {
    if ids != [] {
      var p := ids[..|ids| - 1];
      MapAllClosed(e, st, p, bound);
      MapStateClosed(e, MapAll(e, st, p, bound), ids[|ids| - 1]);
    }
  }

  /** `path` is a chain of dependencies starting at a direct dependency of `root`. */
  ghost predicate Chain(e: Env, root: TypeId, path: seq<TypeId>)
    requires Ranked(e)
  {
    && |path| > 0 && DependsOn(e, root, path[0])
    && forall i | 0 <= i < |path| - 1 :: DependsOn(e, path[i], path[i + 1])
  }

  /** In a closed state, a chain whose first type is visited is visited throughout. */
  lemma {:induction false} ChainVisited(e: Env, st: State, root: TypeId, path: seq<TypeId>)
    requires Ranked(e) && Closed(e, st) && Chain(e, root, path) && path[0] in st.dependentTypes
    ensures forall i | 0 <= i < |path| :: path[i] in st.dependentTypes
    decreases |path|
  {
    if |path| > 1 {
      var p := path[..|path| - 1];
      assert Chain(e, root, p) by {
        forall i | 0 <= i < |p| - 1 ensures DependsOn(e, p[i], p[i + 1]) {
          assert p[i] == path[i] && p[i + 1] == path[i + 1];
        }
      }
      ChainVisited(e, st, root, p);
      assert DependsOn(e, path[|path| - 2], path[|path| - 1]);
      forall i | 0 <= i < |path| ensures path[i] in st.dependentTypes {
        if i < |p| {
          assert p[i] == path[i];
        }
      }
    }
  }

  /**
    Transitive dependency closure: after generating a fresh root from a closed
    state, every project type reachable from it through any number of
    dependencies is visited and declared under its own namespace.
  */
  lemma GenerateReaches(e: Env, st: State, t: TypeId, path: seq<TypeId>)
    requires Ranked(e) && t in e.rank && t in e.types && MembersBelow(e, t)
    requires t !in st.dependentTypes && Emitted(e, st) && Closed(e, st)
    requires Chain(e, t, path)
    ensures forall i | 0 <= i < |path| ::
      path[i] in Generate(e, st, t).dependentTypes && Declared(e, Generate(e, st, t).interfacesPerNamespaces, path[i])
  {
    var g := Generate(e, st, t);
    RootDependencies(e, st, t, path[0]);
    GenerateClosed(e, st, t);
    GenerateEmits(e, st, t);
    ChainVisited(e, g, t, path);
  }

  /** The set differences of a growing chain of sets add up. */
  lemma CardSplit(a: set<TypeId>, b: set<TypeId>, c: set<TypeId>)
    requires a <= b <= c
    ensures |c - a| == |c - b| + |b - a|
  {
    assert c - a == (c - b) + (b - a);
    assert (c - b) * (b - a) == {};
  }

  /**
    `GetJsType` files exactly as many new declarations as the number of types
    it newly visits; a root filed before it is reached is filed again
    (`RootReachedAgain`, `RootReachedLater`).
  */
  lemma {:induction false} MapStateCount(e: Env, st: State, t: TypeId)
    requires Ranked(e) && t in e.rank
    ensures var r := MapState(e, st, t);
      Total(r.interfacesPerNamespaces) == Total(st.interfacesPerNamespaces) + |r.dependentTypes - st.dependentTypes|
    decreases e.rank[t], 2, 0
  {
    assert RankedType(e, t);
    var d := e.types[t];
    match Rule(e, t) {
      case NullableRule =>
        MapStateCount(e, st, d.nullableOf.value);
      case DictionaryRule =>
        var s1 := MapState(e, st, d.genericArgs[0]);
        MapStateCount(e, st, d.genericArgs[0]);
        MapStateCount(e, s1, d.genericArgs[1]);
        MapStateProgress(e, st, d.genericArgs[0]);
        MapStateProgress(e, s1, d.genericArgs[1]);
        CardSplit(st.dependentTypes, s1.dependentTypes, MapState(e, s1, d.genericArgs[1]).dependentTypes);
      case EnumerableRule =>
        MapStateCount(e, st, d.genericArgs[0]);
      case ProjectRule =>
        var g := Generate(e, st, t);
        GenerateCount(e, st, t);
        if t !in st.dependentTypes {
          RootNeverMarked(e, st, t);
          GenerateProgress(e, st, t);
          CardSplit(st.dependentTypes, g.dependentTypes, g.dependentTypes + {t});
          assert (g.dependentTypes + {t}) - g.dependentTypes == {t};
        } else {
          assert st.dependentTypes + {t} == st.dependentTypes;
        }
      case _ =>
    }
  }

  /** A fresh `GenerateInterfaceOf` records its own declaration plus one per newly visited type. */
  lemma {:induction false} GenerateCount(e: Env, st: State, t: TypeId)
    requires Ranked(e) && t in e.rank && t in e.types && MembersBelow(e, t)
    ensures var g := Generate(e, st, t);
      Total(g.interfacesPerNamespaces)
        == Total(st.interfacesPerNamespaces) + |g.dependentTypes - st.dependentTypes| + (if t in st.dependentTypes then 0 else 1)
    decreases e.rank[t], 1, 0
  {
    if t !in st.dependentTypes {
      var d := e.types[t];
      var s := MapAll(e, st, MemberTypes(d), e.rank[t]);
      MapAllCount(e, st, MemberTypes(d), e.rank[t]);
      TotalAdd(s.interfacesPerNamespaces, d.ns, Declaration(e, t));
    }
  }

  lemma {:induction false} MapAllCount(e: Env, st: State, ids: seq<TypeId>, bound: nat)
    requires Ranked(e) && AllBelow(e, ids, bound)
    ensures var r := MapAll(e, st, ids, bound);
      Total(r.interfacesPerNamespaces) == Total(st.interfacesPerNamespaces) + |r.dependentTypes - st.dependentTypes|
    decreases bound, 0, |ids|
  {
    if ids != [] {
      var p := ids[..|ids| - 1];
      var s := MapAll(e, st, p, bound);
      MapAllCount(e, st, p, bound);
      MapStateCount(e, s, ids[|ids| - 1]);
      MapAllProgress(e, st, p, bound);
      MapStateProgress(e, s, ids[|ids| - 1]);
      CardSplit(st.dependentTypes, s.dependentTypes, MapAll(e, st, ids, bound).dependentTypes);
    } else {
      assert st.dependentTypes - st.dependentTypes == {};
    }
  }
}
