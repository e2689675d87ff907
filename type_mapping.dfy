/**
  The type-mapping table of `GetJsType`: a first-match-wins cascade from a
  reflected type to a TypeScript type expression.
*/
module TypeMapping {
  import opened Wrappers
  import opened Reflection
  import opened Selection

  /** The eleven type codes mapped to `number`. */
  const NumericCodes: set<TypeCode> :=
    {Byte, SByte, UInt16, UInt32, UInt64, Int16, Int32, Int64, Decimal, Double, Single}

  /** `IsNumber`: the switch over `Type.GetTypeCode`. */
  function IsNumber(c: TypeCode): (r: bool)
    ensures r <==> c in NumericCodes
    ensures c in {Boolean, Char, String, DateTime, Object, Empty, DBNull} ==> !r
  {
    match c
    case Byte | SByte | UInt16 | UInt32 | UInt64 | Int16 | Int32 | Int64 | Decimal | Double | Single => true
    case _ => false
  }

  /** Which rule of the cascade decides a type's mapping. */
  datatype MapRule =
    | NullableRule | NumberRule | StringRule | DateRule | BoolRule
    | DictionaryRule | EnumerableRule | ProjectRule | AnyRule

  /** The first rule of the cascade that applies to `t`, tested in source order. */
  function Rule(e: Env, t: TypeId): MapRule
    requires t in e.types
  {
    var d := e.types[t];
    if d.nullableOf.Some? then NullableRule
    else if IsNumber(d.typeCode) then NumberRule
    else if t == StringType then StringRule
    else if t == DateTimeType then DateRule
    else if t == BooleanType then BoolRule
    else if d.implementsIDictionary && d.isGeneric then DictionaryRule
    else if d.implementsIEnumerable && d.isGeneric then EnumerableRule
    else if d.assembly in e.assemblies then ProjectRule
    else AnyRule
  }

  /** The rules whose expression ends in a union with `null`. */
  predicate UnionsWithNull(r: MapRule) {
    r.NullableRule? || r.StringRule? || r.DictionaryRule? || r.EnumerableRule? || r.ProjectRule?
  }

  /** `id` is ranked strictly below `bound`. */
  ghost predicate Below(e: Env, id: TypeId, bound: nat) {
    id in e.rank && e.rank[id] < bound
  }

  /** Every type of `ids` is ranked strictly below `bound`. */
  ghost predicate AllBelow(e: Env, ids: seq<TypeId>, bound: nat) {
    forall i | 0 <= i < |ids| :: Below(e, ids[i], bound)
  }

  /** Every member type `t`'s declaration maps is ranked below `t`. */
  ghost predicate MembersBelow(e: Env, t: TypeId)
    requires t in e.rank && t in e.types
  {
    forall x | x in MemberTypes(e.types[t]) :: Below(e, x, e.rank[t])
  }

  /**
    A ranked type is well formed and every type the traversal reaches from it
    is ranked below it: the nullable's underlying type, the generic arguments a
    container rule reads, and (when the project rule sends it through
    `GenerateInterfaceOf`) its selected members' types. A generic dictionary
    has at least two arguments, a generic enumerable at least one.
  */
  ghost predicate RankedType(e: Env, t: TypeId) {
    && t in e.rank && t in e.types
    && WellFormedType(e.types[t])
    && var d := e.types[t];
    && (d.nullableOf.Some? ==> Below(e, d.nullableOf.value, e.rank[t]))
    && (Rule(e, t) == DictionaryRule ==>
          |d.genericArgs| >= 2 && Below(e, d.genericArgs[0], e.rank[t]) && Below(e, d.genericArgs[1], e.rank[t]))
    && (Rule(e, t) == EnumerableRule ==>
          |d.genericArgs| >= 1 && Below(e, d.genericArgs[0], e.rank[t]))
    && (Rule(e, t) == ProjectRule ==> MembersBelow(e, t))
  }

  /** The traversal from every ranked type is well founded. */
  ghost predicate Ranked(e: Env) {
    forall t {:trigger RankedType(e, t)} | t in e.rank :: RankedType(e, t)
  }

  /**
    A ranked project type never has a member of its own type: the self
    reference on which the traversal would not terminate is excluded.
  */
  lemma SelfReferenceUnranked(e: Env, t: TypeId)
    requires Ranked(e) && t in e.rank && t in e.types && Rule(e, t) == ProjectRule
    ensures t !in MemberTypes(e.types[t])
  {
    assert RankedType(e, t);
  }

  /** `GetJsType`'s returned expression. It depends on the type table only, never on the generator's state. */
  function JsType(e: Env, t: TypeId): string
    requires Ranked(e) && t in e.rank
    decreases e.rank[t]
  {
    assert RankedType(e, t);
    var d := e.types[t];
    match Rule(e, t)
    case NullableRule => JsType(e, d.nullableOf.value) + " | null"
    case NumberRule => "number"
    case StringRule => "string | null"
    case DateRule => "Date"
    case BoolRule => "boolean"
    case DictionaryRule =>
      "{ [key: " + JsType(e, d.genericArgs[0]) + "]: " + JsType(e, d.genericArgs[1]) + " } | null"
    case EnumerableRule => "Array<" + JsType(e, d.genericArgs[0]) + "> | null"
    case ProjectRule => d.fullName + " | null"
    case AnyRule => "any"
  }

  /** `s` ends in the union with `null`. */
  predicate EndsWithNull(s: string) {
    |s| >= 7 && s[|s| - 7..] == " | null"
  }

  lemma AppendNullEnds(s: string)
    ensures EndsWithNull(s + " | null")
  {
    assert (s + " | null")[|s|..] == " | null";
  }

  /** Text in front of an expression that ends in the null union does not change its ending. */
  lemma NullSuffix(s: string, tail: string)
    requires EndsWithNull(tail)
    ensures EndsWithNull(s + tail)
  {
    assert (s + tail)[|s + tail| - 7..] == tail[|tail| - 7..];
  }

  /** The closing parts of the container expressions end in the null union. */
  lemma ContainerTails()
    ensures EndsWithNull(" } | null") && EndsWithNull("> | null")
  {
    AppendNullEnds(" }");
    AppendNullEnds(">");
    assert " }" + " | null" == " } | null";
    assert ">" + " | null" == "> | null";
  }

  /** The fixed expressions: only `string | null` ends in the null union. */
  lemma FixedExpressions()
    ensures EndsWithNull("string | null")
    ensures !EndsWithNull("number") && !EndsWithNull("Date") && !EndsWithNull("any")
    ensures !EndsWithNull("boolean")
  {
    assert "boolean"[0] != " | null"[0];
    AppendNullEnds("string");
  }

  /**
    The null-union law: a type's expression ends in `| null` exactly when its
    rule is nullable, string, dictionary, enumerable or project type; numbers,
    dates, booleans and the `any` fallback never carry it.
  */
  lemma NullUnionLaw(e: Env, t: TypeId)
    requires Ranked(e) && t in e.rank && t in e.types
    ensures EndsWithNull(JsType(e, t)) <==> UnionsWithNull(Rule(e, t))
  {
    if UnionsWithNull(Rule(e, t)) {
      NullCarried(e, t);
    } else {
      NullAbsent(e, t);
    }
  }

  /** The nullable, string, container and project rules end in the null union. */
  lemma NullCarried(e: Env, t: TypeId)
    requires Ranked(e) && t in e.rank && t in e.types && UnionsWithNull(Rule(e, t))
    ensures EndsWithNull(JsType(e, t))
  {
    assert RankedType(e, t);
    var d := e.types[t];
    match Rule(e, t)
    case NullableRule =>
      AppendNullEnds(JsType(e, d.nullableOf.value));
    case StringRule =>
      FixedExpressions();
    case DictionaryRule =>
      ContainerTails();
      NullSuffix("{ [key: " + JsType(e, d.genericArgs[0]) + "]: " + JsType(e, d.genericArgs[1]), " } | null");
    case EnumerableRule =>
      ContainerTails();
      NullSuffix("Array<" + JsType(e, d.genericArgs[0]), "> | null");
    case ProjectRule =>
      AppendNullEnds(d.fullName);
  }

  /** The number, date, boolean and fallback rules do not. */
  lemma NullAbsent(e: Env, t: TypeId)
    requires Ranked(e) && t in e.rank && t in e.types && !UnionsWithNull(Rule(e, t))
    ensures !EndsWithNull(JsType(e, t))
  {
    FixedExpressions();
    assert JsType(e, t) in {"number", "Date", "boolean", "any"};
  }

  /** A nullable wrapper maps to its underlying type's expression followed by `| null`. */
  lemma NullableWrapper(e: Env, t: TypeId, u: TypeId)
    requires Ranked(e) && t in e.rank && t in e.types && e.types[t].nullableOf == Some(u)
    ensures u in e.rank && JsType(e, t) == JsType(e, u) + " | null"
  {
    assert RankedType(e, t);
  }

  /** A nullable numeric type (`int?`) carries exactly one null union: `number | null`. */
  lemma NullableNumber(e: Env, t: TypeId, u: TypeId)
    requires Ranked(e) && t in e.rank && t in e.types && e.types[t].nullableOf == Some(u)
    requires u in e.types && e.types[u].nullableOf.None? && IsNumber(e.types[u].typeCode)
    ensures JsType(e, t) == "number | null"
  {
    assert RankedType(e, t);
  }

  /** Numeric type codes map to `number`; `string`, `DateTime` and `bool` map to their fixed expressions. */
  lemma Primitives(e: Env, t: TypeId)
    requires Ranked(e) && t in e.rank && t in e.types && e.types[t].nullableOf.None?
    ensures IsNumber(e.types[t].typeCode) ==> JsType(e, t) == "number"
    ensures !IsNumber(e.types[t].typeCode) ==>
      && (t == StringType ==> JsType(e, t) == "string | null")
      && (t == DateTimeType ==> JsType(e, t) == "Date")
      && (t == BooleanType ==> JsType(e, t) == "boolean")
  {
  }

  /**
    The container rules: the dictionary rule is tried before the enumerable
    rule, and neither applies to a non-generic type.
  */
  lemma Containers(e: Env, t: TypeId)
    requires Ranked(e) && t in e.rank && t in e.types
    requires Rule(e, t) !in {NullableRule, NumberRule, StringRule, DateRule, BoolRule}
    ensures var d := e.types[t];
      && (!d.isGeneric ==> Rule(e, t) !in {DictionaryRule, EnumerableRule})
      && (d.isGeneric && d.implementsIDictionary ==>
            |d.genericArgs| >= 2 && d.genericArgs[0] in e.rank && d.genericArgs[1] in e.rank &&
            JsType(e, t) == "{ [key: " + JsType(e, d.genericArgs[0]) + "]: " + JsType(e, d.genericArgs[1]) + " } | null")
      && (d.isGeneric && !d.implementsIDictionary && d.implementsIEnumerable ==>
            |d.genericArgs| >= 1 && d.genericArgs[0] in e.rank &&
            JsType(e, t) == "Array<" + JsType(e, d.genericArgs[0]) + "> | null")
  {
    assert RankedType(e, t);
  }

  /** A project type maps to its full name unioned with `null`; anything unmatched maps to `any`. */
  lemma ProjectAndFallback(e: Env, t: TypeId)
    requires Ranked(e) && t in e.rank && t in e.types
    ensures Rule(e, t) == ProjectRule ==> JsType(e, t) == e.types[t].fullName + " | null"
    ensures Rule(e, t) == AnyRule ==> JsType(e, t) == "any"
  {
  }

  /**
    `Dictionary<string, int>` maps to `{ [key: string | null]: number } | null`:
    the key keeps the null union of `string`, rule by rule.
  */
  lemma StringIntDictionary(e: Env, t: TypeId, k: TypeId)
    requires Ranked(e) && t in e.rank && t in e.types && Rule(e, t) == DictionaryRule
    requires e.types[t].genericArgs == [StringType, k]
    requires StringType in e.types && e.types[StringType].nullableOf.None? && !IsNumber(e.types[StringType].typeCode)
    requires k in e.types && e.types[k].nullableOf.None? && e.types[k].typeCode == Int32
    ensures JsType(e, t) == "{ [key: string | null]: number } | null"
  {
    assert RankedType(e, t);
    assert JsType(e, StringType) == "string | null" && JsType(e, k) == "number";
    DictionaryText("string | null", "number");
  }

  /** The concrete text of a string-keyed, number-valued dictionary (kept apart: the literal is costly next to the type table). */
  lemma DictionaryText(key: string, value: string)
    requires key == "string | null" && value == "number"
    ensures "{ [key: " + key + "]: " + value + " } | null" == "{ [key: string | null]: number } | null"
  {
  }
}
