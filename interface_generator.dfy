/**
  `InterfaceGenerator`: the object whose two mutable fields, the set of
  visited project types and the per-namespace declaration lists, the
  recursive traversal updates in place.
*/
module Generator {
  import opened Wrappers
  import opened Reflection
  import opened Selection
  import opened TypeMapping
  import opened Declarations
  import opened Namespaces
  import opened Traversal

  class InterfaceGenerator {
    /** The reflected type table the generator inspects. */
    const types: map<TypeId, TypeDesc>
    /** The project assemblies (`assemblies`). */
    const assemblies: seq<string>
    /** `Environment.NewLine`, which `AppendLine` writes. */
    const newLine: string
    /** Proof device: the measure that makes the traversal well founded. */
    ghost const rank: map<TypeId, nat>

    /** Project types whose interface has been generated as a dependency. */
    var dependentTypes: set<TypeId>
    /** Declarations per namespace, in insertion order. */
    var interfacesPerNamespaces: Groups

    ghost function Context(): Env {
      Env(types, assemblies, newLine, rank)
    }

    ghost function Current(): State
      reads this
    {
      State(dependentTypes, interfacesPerNamespaces)
    }

    /**
      The object invariant: the table is ranked, namespace keys are distinct,
      every visited type has been declared under its namespace, and every
      dependency of a visited type is visited.
    */
    ghost predicate Valid()
      reads this
    {
      && Ranked(Context())
      && DistinctKeys(interfacesPerNamespaces)
      && Emitted(Context(), Current())
      && Closed(Context(), Current())
    }

    constructor(types: map<TypeId, TypeDesc>, assemblies: seq<string>, newLine: string, ghost rank: map<TypeId, nat>)
      requires Ranked(Env(types, assemblies, newLine, rank))
      ensures Valid()
      ensures this.types == types && this.assemblies == assemblies && this.newLine == newLine && this.rank == rank
      ensures dependentTypes == {} && interfacesPerNamespaces == []
    {
      this.types := types;
      this.assemblies := assemblies;
      this.newLine := newLine;
      this.rank := rank;
      dependentTypes := {};
      interfacesPerNamespaces := [];
    }

    /**
      The TypeScript expression of `t`, generating the interface of every
      project type it reaches; a project type is added to `dependentTypes`
      after its interface has been generated.
    */
    method GetJsType(t: TypeId) returns (r: string)
      requires Valid() && t in rank
      modifies this
      ensures Valid()
      ensures r == JsType(Context(), t)
      ensures Current() == MapState(Context(), old(Current()), t)
      decreases rank[t], 2
    {
      ghost var e := Context();
      ghost var st0 := Current();
      assert RankedType(e, t);
      var d := types[t];
      if d.nullableOf.Some? {
        var inner := GetJsType(d.nullableOf.value);
        return inner + " | null";
      }
      if IsNumber(d.typeCode) {
        return "number";
      }
      if t == StringType {
        return "string | null";
      }
      if t == DateTimeType {
        return "Date";
      }
      if t == BooleanType {
        return "boolean";
      }
      if d.implementsIDictionary && d.isGeneric {
        var typeArgs := d.genericArgs;
        var key := GetJsType(typeArgs[0]);
        var value := GetJsType(typeArgs[1]);
        return "{ [key: " + key + "]: " + value + " } | null";
      }
      if d.implementsIEnumerable && d.isGeneric {
        var element := GetJsType(d.genericArgs[0]);
        return "Array<" + element + "> | null";
      }
      if d.assembly in assemblies {
        GenerateInterfaceOf(t);
        dependentTypes := dependentTypes + {t};
        MapStateEmits(e, st0, t);
        MapStateClosed(e, st0, t);
        MapStateProgress(e, st0, t);
        return d.fullName + " | null";
      }
      return "any";
    }

    /**
      Generates `t`'s interface, mapping the types of its init-only fields,
      its properties and its selected methods in that order, and files the
      declaration under `t`'s namespace. Does nothing for a visited type.
    */
    method GenerateInterfaceOf(t: TypeId)
      requires Valid() && t in rank && t in types && MembersBelow(Context(), t)
      modifies this
      ensures Valid()
      ensures Current() == Generate(Context(), old(Current()), t)
      decreases rank[t], 1
    {
      if t in dependentTypes {
        return;
      }
      ghost var e := Context();
      ghost var st0 := Current();
      assert RankedType(e, t);
      MembersMappable(e, t);
      var d := types[t];
      var sb := "\tinterface " + d.name + " {" + newLine;
      sb := AppendFieldLines(t, sb, st0, []);
      assert [] + SelectedTypes(d.fields) == SelectedTypes(d.fields);
      sb := AppendPropertyLines(t, sb, st0, SelectedTypes(d.fields));
      sb := AppendMethodLines(t, sb, st0, SelectedTypes(d.fields) + SelectedTypes(d.properties));
      sb := sb + "\t}" + newLine;
      AddToNamespace(d.ns, sb);
      GenerateEmits(e, st0, t);
      GenerateClosed(e, st0, t);
      GenerateProgress(e, st0, t);
    }

    /**
      The first loop of `GenerateInterfaceOf`: one line per init-only field,
      in order, mapping each field's type as it goes. `done` are the member
      types mapped since the traversal state was `st0`.
    */
    method AppendFieldLines(t: TypeId, sb0: string, ghost st0: State, ghost done: seq<TypeId>) returns (sb: string)
      requires Valid() && t in rank && t in types && MembersBelow(Context(), t)
      requires Mappable(Context(), types[t].fields)
      requires AllBelow(Context(), done, rank[t]) && Current() == MapAll(Context(), st0, done, rank[t])
      modifies this
      ensures Valid()
      ensures AllBelow(Context(), done + SelectedTypes(types[t].fields), rank[t])
      ensures Current() == MapAll(Context(), st0, done + SelectedTypes(types[t].fields), rank[t])
      ensures sb == sb0 + MemberLines(Context(), types[t].fields)
      decreases rank[t], 0
    {
      ghost var e := Context();
      ghost var bound := rank[t];
      assert RankedType(e, t);
      var fields := types[t].fields;
      sb := sb0;
      ghost var ids := done;
      var i := 0;
      while i < |fields|
        invariant 0 <= i <= |fields|
        invariant Valid()
        invariant ids == done + SelectedTypes(fields[..i]) && AllBelow(e, ids, bound)
        invariant Current() == MapAll(e, st0, ids, bound)
        invariant sb == sb0 + MemberLines(e, fields[..i])
      {
        var item := fields[i];
        assert item in fields;
        if item.isInitOnly {
          TakeStep(e, fields, i);
          SelectedTypeIn(fields, i);
          MapAllSnoc(e, st0, ids, item.fieldType, bound);
          var js := GetJsType(item.fieldType);
          AppendAssoc(sb0, MemberLines(e, fields[..i]), MemberLine(e, item));
          AppendAssoc(done, SelectedTypes(fields[..i]), [item.fieldType]);
          sb := sb + FieldLine(item.name, js, newLine);
          ids := ids + [item.fieldType];
        } else {
          SkipStep(e, fields, i);
        }
        i := i + 1;
      }
      assert fields[..i] == fields;
    }

    /**
      The second loop of `GenerateInterfaceOf`: one line per property, in
      order, `readonly` when it has no public setter.
    */
    method AppendPropertyLines(t: TypeId, sb0: string, ghost st0: State, ghost done: seq<TypeId>) returns (sb: string)
      requires Valid() && t in rank && t in types && MembersBelow(Context(), t)
      requires Mappable(Context(), types[t].properties)
      requires AllBelow(Context(), done, rank[t]) && Current() == MapAll(Context(), st0, done, rank[t])
      modifies this
      ensures Valid()
      ensures AllBelow(Context(), done + SelectedTypes(types[t].properties), rank[t])
      ensures Current() == MapAll(Context(), st0, done + SelectedTypes(types[t].properties), rank[t])
      ensures sb == sb0 + MemberLines(Context(), types[t].properties)
      decreases rank[t], 0
    {
      ghost var e := Context();
      ghost var bound := rank[t];
      assert RankedType(e, t);
      var properties := types[t].properties;
      sb := sb0;
      ghost var ids := done;
      var i := 0;
      while i < |properties|
        invariant 0 <= i <= |properties|
        invariant Valid()
        invariant ids == done + SelectedTypes(properties[..i]) && AllBelow(e, ids, bound)
        invariant Current() == MapAll(e, st0, ids, bound)
        invariant sb == sb0 + MemberLines(e, properties[..i])
      {
        var item := properties[i];
        assert item in properties;
        TakeStep(e, properties, i);
        SelectedTypeIn(properties, i);
        MapAllSnoc(e, st0, ids, item.propertyType, bound);
        var js := GetJsType(item.propertyType);
        AppendAssoc(sb0, MemberLines(e, properties[..i]), MemberLine(e, item));
        AppendAssoc(done, SelectedTypes(properties[..i]), [item.propertyType]);
        sb := sb + PropertyLine(item.hasPublicSetter, item.name, js, newLine);
        ids := ids + [item.propertyType];
        i := i + 1;
      }
      assert properties[..i] == properties;
    }

    /**
      The third loop of `GenerateInterfaceOf`: one line per method that is
      neither special-named nor in `IgnoredMethods`, in order.
    */
    method AppendMethodLines(t: TypeId, sb0: string, ghost st0: State, ghost done: seq<TypeId>) returns (sb: string)
      requires Valid() && t in rank && t in types && MembersBelow(Context(), t)
      requires Mappable(Context(), types[t].methods)
      requires AllBelow(Context(), done, rank[t]) && Current() == MapAll(Context(), st0, done, rank[t])
      modifies this
      ensures Valid()
      ensures AllBelow(Context(), done + SelectedTypes(types[t].methods), rank[t])
      ensures Current() == MapAll(Context(), st0, done + SelectedTypes(types[t].methods), rank[t])
      ensures sb == sb0 + MemberLines(Context(), types[t].methods)
      decreases rank[t], 0
    {
      ghost var e := Context();
      ghost var bound := rank[t];
      assert RankedType(e, t);
      var methods := types[t].methods;
      sb := sb0;
      ghost var ids := done;
      var i := 0;
      while i < |methods|
        invariant 0 <= i <= |methods|
        invariant Valid()
        invariant ids == done + SelectedTypes(methods[..i]) && AllBelow(e, ids, bound)
        invariant Current() == MapAll(e, st0, ids, bound)
        invariant sb == sb0 + MemberLines(e, methods[..i])
      {
        var item := methods[i];
        assert item in methods;
        if !item.isSpecialName && item.name !in IgnoredMethods {
          TakeStep(e, methods, i);
          SelectedTypeIn(methods, i);
          MapAllSnoc(e, st0, ids, item.returnType, bound);
          var js := GetJsType(item.returnType);
          AppendAssoc(sb0, MemberLines(e, methods[..i]), MemberLine(e, item));
          AppendAssoc(done, SelectedTypes(methods[..i]), [item.returnType]);
          sb := sb + MethodLine(item.name, js, newLine);
          ids := ids + [item.returnType];
        } else {
          SkipStep(e, methods, i);
        }
        i := i + 1;
      }
      assert methods[..i] == methods;
    }

    /**
      Files `declaration` under `namespaceName`: the namespace's entry is
      created, empty and at the end, when it is missing, then the
      declaration is appended to its list.
    */
    method AddToNamespace(namespaceName: string, declaration: string)
      requires Valid()
      modifies this
      ensures Valid()
      ensures interfacesPerNamespaces == AddToNs(old(interfacesPerNamespaces), namespaceName, declaration)
      ensures dependentTypes == old(dependentTypes)
    {
      var found := Find(interfacesPerNamespaces, namespaceName);
      var index: nat;
      var interfaces: seq<string>;
      if found.None? {
        interfaces := [];
        index := |interfacesPerNamespaces|;
        interfacesPerNamespaces := interfacesPerNamespaces + [(namespaceName, interfaces)];
      } else {
        index := found.value;
        interfaces := interfacesPerNamespaces[index].1;
      }
      interfacesPerNamespaces := interfacesPerNamespaces[index := (namespaceName, interfaces + [declaration])];
      assert found.None? ==> interfaces + [declaration] == [declaration];
      AddExtends(old(interfacesPerNamespaces), namespaceName, declaration);
      EmittedCarry(Context(), old(Current()), Current());
    }

    /** All declarations, one `declare namespace` block per namespace in insertion order. */
    method GetDeclarations() returns (r: string)
      ensures r == Render(newLine, interfacesPerNamespaces)
    {
      var groups := interfacesPerNamespaces;
      var sb := "";
      var n := 0;
      while n < |groups|
        invariant 0 <= n <= |groups|
        invariant sb == Render(newLine, groups[..n])
      {
        var key := groups[n].0;
        var decls := groups[n].1;
        ghost var before := sb;
        sb := sb + Opening(newLine, key);
        var j := 0;
        while j < |decls|
          invariant 0 <= j <= |decls|
          invariant sb == before + Opening(newLine, key) + DeclLines(newLine, decls[..j])
        {
          DeclLinesStep(newLine, decls, j);
          sb := sb + (decls[j] + newLine);
          j := j + 1;
        }
        assert decls[..j] == decls;
        sb := sb + "}" + newLine;
        RenderStep(newLine, groups, n);
        n := n + 1;
      }
      assert groups[..n] == groups;
      r := sb;
    }
  }
}
