/**
  Member selection of `GenerateInterfaceOf`: which reflected members become
  part of an emitted interface, and in which order their types are mapped.
*/
module Selection {
  import opened Reflection

  /** Methods every object has; they never appear in a declaration. */
  const IgnoredMethods: seq<string> := ["GetHashCode", "Equals", "ToString", "Dispose", "GetType"]

  /** Fields must be init-only (`readonly`), every property is kept, methods must be neither special-name nor ignored. */
  predicate IsSelected(m: MemberDesc) {
    match m
    case FieldDesc(_, _, initOnly) => initOnly
    case PropertyDesc(_, _, _) => true
    case MethodDesc(name, _, special) => !special && name !in IgnoredMethods
  }

  /** The type whose mapping the member's line shows: field type, property type or method return type. */
  function MemberType(m: MemberDesc): TypeId {
    match m
    case FieldDesc(_, t, _) => t
    case PropertyDesc(_, t, _) => t
    case MethodDesc(_, t, _) => t
  }

  /** The selected members of `ms`, in declaration order. */
  function Selected(ms: seq<MemberDesc>): (r: seq<MemberDesc>)
    ensures |r| <= |ms|
    ensures forall m :: m in r <==> m in ms && IsSelected(m)
    ensures forall m :: multiset(r)[m] == if IsSelected(m) then multiset(ms)[m] else 0
  {
    if ms == [] then []
    else
      assert ms == ms[..|ms| - 1] + [ms[|ms| - 1]];
      Selected(ms[..|ms| - 1]) + (if IsSelected(ms[|ms| - 1]) then [ms[|ms| - 1]] else [])
  }

  /** The member types the traversal maps for `ms`, in the order it maps them. */
  function SelectedTypes(ms: seq<MemberDesc>): seq<TypeId> {
    if ms == [] then []
    else SelectedTypes(ms[..|ms| - 1]) + (if IsSelected(ms[|ms| - 1]) then [MemberType(ms[|ms| - 1])] else [])
  }

  /** Every member type `GenerateInterfaceOf` maps for `d`: fields, then properties, then methods. */
  function MemberTypes(d: TypeDesc): seq<TypeId> {
    SelectedTypes(d.fields) + SelectedTypes(d.properties) + SelectedTypes(d.methods)
  }

  /** Selection keeps order: the kept members of a concatenation are those of its parts, one after the other. */
  lemma {:induction false} SelectedAppend(a: seq<MemberDesc>, b: seq<MemberDesc>)
    ensures Selected(a + b) == Selected(a) + Selected(b)
    decreases |b|
  {
    if b != [] {
      var b' := b[..|b| - 1];
      var x := b[|b| - 1];
      var kept := if IsSelected(x) then [x] else [];
      assert (a + b)[..|a + b| - 1] == a + b';
      assert (a + b)[|a + b| - 1] == x;
      assert Selected(a + b) == Selected(a + b') + kept;
      assert Selected(b) == Selected(b') + kept;
      SelectedAppend(a, b');
      AppendAssoc(Selected(a), Selected(b'), kept);
    } else {
      assert a + b == a;
    }
  }

  /** `SelectedTypes` is the types of `Selected`, position by position. */
  lemma {:induction false} SelectedTypesOfSelected(ms: seq<MemberDesc>)
    ensures |SelectedTypes(ms)| == |Selected(ms)|
    ensures forall i :: 0 <= i < |Selected(ms)| ==> SelectedTypes(ms)[i] == MemberType(Selected(ms)[i])
  {
    if ms != [] {
      SelectedTypesOfSelected(ms[..|ms| - 1]);
    }
  }

  /** The type of every selected member is among the types the traversal maps. */
  lemma {:induction false} SelectedTypeIn(ms: seq<MemberDesc>, i: nat)
    requires i < |ms| && IsSelected(ms[i])
    ensures MemberType(ms[i]) in SelectedTypes(ms)
  {
    if i < |ms| - 1 {
      assert ms[..|ms| - 1][i] == ms[i];
      SelectedTypeIn(ms[..|ms| - 1], i);
    }
  }

  /** A mutable field, a special-name method and an ignored method are never selected. */
  lemma ExcludedMembers(name: string, t: TypeId, special: bool)
    ensures !IsSelected(FieldDesc(name, t, false))
    ensures special ==> !IsSelected(MethodDesc(name, t, special))
    ensures name in IgnoredMethods ==> !IsSelected(MethodDesc(name, t, special))
    ensures IsSelected(MethodDesc(name, t, special)) <==>
      !special && name != "GetHashCode" && name != "Equals" && name != "ToString" && name != "Dispose" && name != "GetType"
  {
  }

  /** Appending to the end of a concatenation (associativity, stated for the builders that grow by appending). */
  lemma AppendAssoc<T>(prefix: seq<T>, middle: seq<T>, last: seq<T>)
    ensures prefix + middle + last == prefix + (middle + last)
  {
  }
}
