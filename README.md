# SharpTsDtsGen core, modelled in Dafny

SharpTsDtsGen reads .NET types through reflection and writes a TypeScript
declaration file (`.d.ts`) for them. This project models its core:

- `InterfaceGenerator`, an object with two mutable fields: `dependentTypes`,
  the project types whose interface has been generated as a dependency, and
  `interfacesPerNamespaces`, the declarations filed under each namespace.
  - `GetJsType` maps a type to a TypeScript type expression through a
    first-match-wins cascade. The rules, in order: nullable, number, string,
    `DateTime`, `bool`, generic dictionary, generic enumerable, project
    type, `any`.
  - For a project type, `GetJsType` recursively calls `GenerateInterfaceOf`.
  - `GenerateInterfaceOf` selects members (init-only fields, all
    properties, methods that are neither special-name nor in
    `IgnoredMethods`), writes one line per member and files the interface
    under its namespace with `AddToNamespace`.
  - `GetDeclarations` renders one `declare namespace` block per namespace.
- `ConstEnumGenerator.GetConstEnumOf`, which writes a key/value dictionary
  as an object literal of string constants.

Reflection becomes data (module `Reflection`). A runtime type is a handle
(`TypeId`) into a table of descriptors (`TypeDesc`). A descriptor holds:
- the type's name, full name, namespace and assembly;
- its `Nullable<T>` argument, its type code and its generic arguments;
- whether it implements the non-generic `IDictionary` and `IEnumerable`
  interfaces;
- its public instance fields, properties and methods, in reflection order.

`typeof(string)`, `typeof(DateTime)` and `typeof(bool)` are three
distinguished handles, because the code compares them by identity.

Each core file is modelled in two layers.

- **Specification functions** on values:
  - `TypeMapping.JsType` is the text of a type's expression. It depends on
    the type table only.
  - `Declarations.Declaration` is the text of one interface.
  - `Traversal.MapState`, `Traversal.Generate` and `Traversal.MapAll` give
    the generator's new state after `GetJsType`, after
    `GenerateInterfaceOf`, and after mapping a sequence of member types.
  - `Namespaces.AddToNs` and `Namespaces.Render` describe the namespace
    dictionary and its text.
  - `ConstEnum.JoinLines` and `ConstEnum.ConstEnumLines` describe the
    text of the const enum.
- **Imperative code:**
  - The class `Generator.InterfaceGenerator` has the source's fields and
    its methods: `GetJsType`, `GenerateInterfaceOf`, `AddToNamespace` and
    `GetDeclarations`. Each method is proved to compute the specification
    function's text and to leave the state the specification function
    gives, and each keeps the object invariant `Valid()`: the type table is
    ranked, namespace names are distinct, every visited type is declared, and
    every dependency of a visited type is visited (`Traversal.Closed`).
  - `ConstEnum.GetConstEnumOf` is the source's loop, proved against
    `JoinLines`.

The lemmas state the properties of the specification functions:
- the null-union law of the mapping table;
- what the traversal visits and declares, and that it only ever adds;
- idempotence, and the transitive dependency closure: every project type
  reachable from a root through member types is visited and declared;
- exactly as many new declarations as newly visited types (a root filed
  before it is reached as a dependency is filed again, see below);
- that each selected member gets its own kind of line;
- how the namespace dictionary and its text grow.

The traversal terminates because of a ghost measure `rank` on types.
`TypeMapping.Ranked` requires every reference the traversal follows to lead
to a lower rank. That rules out reference cycles, on which the code does not
terminate (see below); `TypeMapping.SelfReferenceUnranked` states the simplest case.

### Behaviour of the code kept as written

- A type enters `dependentTypes` only in `GetJsType`, after its interface
  has been generated. A root handed to `GenerateInterfaceOf` is therefore
  never marked by its own generation (`Traversal.RootNeverMarked`). Generating the same root a
  second time files a second copy of its declaration
  (`Traversal.RootDeclaredTwice`). So does a root that a later root's member
  reaches through `GetJsType`, whatever was generated in between
  (`Traversal.RootReachedAgain`, `Traversal.RootReachedLater`); only then is it marked. A type is also not marked while its
  members are traversed, so a type that reaches itself recurses without end.
  The model excludes such inputs through `Ranked`; nothing in the code
  guards against them.
- The key of a dictionary is mapped like any other type. A `string` key
  therefore becomes `string | null`, and `Dictionary<string, int>` maps to
  `{ [key: string | null]: number } | null` (`TypeMapping.StringIntDictionary`).
- The dictionary rule tests only for `IDictionary` and `IsGenericType`,
  not for the number of generic arguments. The enumerable rule reads the
  first generic argument only.

## Model

| member | source | states |
|---|---|---|
| Selection.Selected | SharpTsDtsGen/InterfaceGenerator.cs:59-68 | A member is kept exactly when it is an init-only field, a property, or a method that is not special-name and not ignored; each kept member occurs as often as in the input (equal descriptors, such as overloads, are not merged), a dropped one not at all, and the result is never longer than the input |
| Selection.SelectedAppend | SharpTsDtsGen/InterfaceGenerator.cs:59-68 | Selection keeps input order: the kept members of a concatenation are the kept members of the first part followed by those of the second |
| Selection.ExcludedMembers | SharpTsDtsGen/InterfaceGenerator.cs:18 | A mutable field, a special-name method and a method named GetHashCode, Equals, ToString, Dispose or GetType is never emitted; a method is emitted iff it is not special-name and its name is none of those five |
| Selection.SelectedTypesOfSelected | SharpTsDtsGen/InterfaceGenerator.cs:74-88 | The types the loops map are exactly the types of the kept members, one per kept member, in member order |
| Selection.SelectedTypeIn | SharpTsDtsGen/InterfaceGenerator.cs:74-88 | Every kept member's type is among the types mapped while its declaring type is generated |
| TypeMapping.SelfReferenceUnranked | SharpTsDtsGen/InterfaceGenerator.cs:186-192 | A project type admitted by the rank measure has no kept member of its own type, so the self-recursion on which the code does not terminate is outside the model |
| TypeMapping.IsNumber | SharpTsDtsGen/InterfaceGenerator.cs:202-221 | True exactly for the eleven numeric type codes (Byte, SByte, the signed and unsigned 16/32/64-bit integers, Decimal, Double, Single); false for Boolean, Char, String, DateTime, Object, Empty and DBNull |
| TypeMapping.NullUnionLaw | SharpTsDtsGen/InterfaceGenerator.cs:146-195 | A type's expression ends in ` \| null` if and only if the first rule matching it is the nullable, string, dictionary, enumerable or project rule; numbers, dates, booleans and `any` never do |
| TypeMapping.NullableWrapper | SharpTsDtsGen/InterfaceGenerator.cs:148-153 | `Nullable<T>` maps to T's expression followed by ` \| null`, whatever T is |
| TypeMapping.NullableNumber | SharpTsDtsGen/InterfaceGenerator.cs:148-158 | A nullable numeric type such as `int?` maps to `number \| null` |
| TypeMapping.Primitives | SharpTsDtsGen/InterfaceGenerator.cs:155-173 | Numeric type codes map to `number` before any identity test; otherwise `string` maps to `string \| null`, `DateTime` to `Date`, `bool` to `boolean` |
| TypeMapping.Containers | SharpTsDtsGen/InterfaceGenerator.cs:175-184 | A non-generic type never takes a container rule; a generic `IDictionary` maps to `{ [key: K]: V } \| null` from its first two arguments, tested before the enumerable rule; a generic `IEnumerable` maps to `Array<E> \| null` from its first argument |
| TypeMapping.ProjectAndFallback | SharpTsDtsGen/InterfaceGenerator.cs:186-194 | A type of a project assembly maps to its full name unioned with null; a type no rule matches maps to `any` |
| TypeMapping.StringIntDictionary | SharpTsDtsGen/InterfaceGenerator.cs:175-179 | `Dictionary<string, int>` maps to `{ [key: string \| null]: number } \| null` |
| Declarations.LcFirst | SharpTsDtsGen/InterfaceGenerator.cs:136-139 | Same length as the name; the first character is lower-cased and is no longer an upper-case letter; every later character is unchanged |
| Declarations.LcFirstIdempotent | SharpTsDtsGen/InterfaceGenerator.cs:136-139 | Lower-casing the first character twice gives the same name as once |
| Declarations.OnlySelectedLines | SharpTsDtsGen/InterfaceGenerator.cs:74-88 | The lines written for a member list are exactly the lines of its kept members, in order; the others contribute nothing |
| Declarations.ReadonlyMarker | SharpTsDtsGen/InterfaceGenerator.cs:81-82 | A property line starts with `readonly ` after its indentation if and only if the property has no public setter (for a name without spaces) |
| Declarations.GetNameLine | SharpTsDtsGen/InterfaceGenerator.cs:87 | A method `GetName(): string` is written as `getName(): Promise<string \| null>;` |
| Namespaces.Find | SharpTsDtsGen/InterfaceGenerator.cs:122 | The lookup finds the first entry with the key, and finds nothing exactly when no entry has it |
| Namespaces.AddLookup | SharpTsDtsGen/InterfaceGenerator.cs:119-129 | After adding, the namespace's list is its old list with the declaration appended; every other namespace's list is unchanged |
| Namespaces.AddKeys | SharpTsDtsGen/InterfaceGenerator.cs:119-129 | A new namespace is added after all existing ones; adding to an existing namespace leaves the namespace order unchanged |
| Namespaces.AddExtends | SharpTsDtsGen/InterfaceGenerator.cs:119-129 | Adding keeps namespace names distinct and loses or reorders no namespace and no declaration |
| Namespaces.TotalAdd | SharpTsDtsGen/InterfaceGenerator.cs:119-129 | Filing a declaration raises the number of recorded declarations by exactly one, whether the namespace is new or not |
| Namespaces.RenderAppend | SharpTsDtsGen/InterfaceGenerator.cs:95-112 | The text of the namespaces is the text of each namespace's block in dictionary order; blocks are never reordered or merged |
| Namespaces.RenderSplit | SharpTsDtsGen/InterfaceGenerator.cs:95-112 | A namespace's block stands between the blocks of the namespaces before it and after it |
| Namespaces.RenderAddNew | SharpTsDtsGen/InterfaceGenerator.cs:119-129 | Filing a declaration under a new namespace appends one block holding just that declaration to the text |
| Namespaces.RenderAddExisting | SharpTsDtsGen/InterfaceGenerator.cs:119-129 | Filing a declaration under an existing namespace adds it as the last line of that namespace's block; the other blocks are unchanged |
| Traversal.MapStateProgress | SharpTsDtsGen/InterfaceGenerator.cs:146-195 | Mapping a type never removes a visited type or a declaration and keeps namespace names distinct |
| Traversal.GenerateProgress | SharpTsDtsGen/InterfaceGenerator.cs:50-93 | Generating an interface never removes a visited type or a declaration and keeps namespace names distinct |
| Traversal.MapAllProgress | SharpTsDtsGen/InterfaceGenerator.cs:74-88 | Mapping the member types in sequence never removes a visited type or a declaration |
| Traversal.MapStateEmits | SharpTsDtsGen/InterfaceGenerator.cs:186-192 | Mapping a type keeps the invariant that every type in `dependentTypes` is a project type whose declaration is filed under its own namespace |
| Traversal.GenerateEmits | SharpTsDtsGen/InterfaceGenerator.cs:50-93 | Generating an interface keeps the same invariant |
| Traversal.MapAllEmits | SharpTsDtsGen/InterfaceGenerator.cs:74-88 | Mapping the member types in sequence keeps the same invariant |
| Traversal.RootNeverMarked | SharpTsDtsGen/InterfaceGenerator.cs:50-93 | Generating a type that is not yet visited never adds that type itself to `dependentTypes` |
| Traversal.GenerateVisited | SharpTsDtsGen/InterfaceGenerator.cs:52-56 | For a type already in `dependentTypes`, generating its interface changes nothing, however often it is repeated |
| Traversal.GenerateDeclares | SharpTsDtsGen/InterfaceGenerator.cs:90-92 | For a fresh type, its declaration becomes the last entry of its namespace's list, after everything the list held before |
| Traversal.RootDeclaredTwice | SharpTsDtsGen/InterfaceGenerator.cs:50-93 | Generating a fresh root twice files its declaration at least twice and changes the state the second time |
| Traversal.RootReachedAgain | SharpTsDtsGen/InterfaceGenerator.cs:186-192 | A root generated directly and later reached as a member type is generated again, so its namespace holds its declaration at least twice |
| Traversal.RootReachedLater | SharpTsDtsGen/InterfaceGenerator.cs:186-189 | A root already filed under its namespace and still unvisited is filed a second time when `GetJsType` reaches it, whatever state earlier generations left |
| Traversal.MapStateClosed | SharpTsDtsGen/InterfaceGenerator.cs:186-189 | Mapping a type keeps the visited set closed under dependencies: every project type named by a kept member of a visited type is visited |
| Traversal.GenerateClosed | SharpTsDtsGen/InterfaceGenerator.cs:50-93 | Generating an interface keeps the visited set closed under dependencies |
| Traversal.MapAllClosed | SharpTsDtsGen/InterfaceGenerator.cs:74-88 | Mapping the member types in sequence keeps the visited set closed under dependencies |
| Traversal.ChainVisited | SharpTsDtsGen/InterfaceGenerator.cs:186-189 | In a closed state, every type along a chain of dependencies whose first type is visited is visited |
| Traversal.GenerateReaches | SharpTsDtsGen/InterfaceGenerator.cs:50-93 | After generating a fresh root from a closed state, every project type reachable from it through any number of dependencies is visited and declared under its own namespace |
| Traversal.MapStateCount | SharpTsDtsGen/InterfaceGenerator.cs:146-195 | Mapping a type files exactly as many new declarations as the number of types it newly visits; a root filed before it is reached is filed again (`RootReachedAgain`) |
| Traversal.GenerateCount | SharpTsDtsGen/InterfaceGenerator.cs:50-93 | Generating a fresh root records one declaration for the root plus one per newly visited type; a visited root records none |
| Traversal.MapAllCount | SharpTsDtsGen/InterfaceGenerator.cs:74-88 | Mapping the member types in sequence records exactly one declaration per newly visited type |
| Traversal.LeavesMarked | SharpTsDtsGen/InterfaceGenerator.cs:186-192 | After mapping a type, every project type it names (directly or through nullable and container arguments) is in `dependentTypes` |
| Traversal.MapNoOp | SharpTsDtsGen/InterfaceGenerator.cs:146-195 | If every project type a type names is already visited, mapping it changes nothing |
| Traversal.MapIdempotent | SharpTsDtsGen/InterfaceGenerator.cs:146-195 | Mapping the same type a second time leaves the state the first mapping left |
| Traversal.MapStateRules | SharpTsDtsGen/InterfaceGenerator.cs:155-194 | A project type is visited after it is mapped; numbers, strings, dates, booleans and `any` change no state |
| Traversal.MapAllLeaves | SharpTsDtsGen/InterfaceGenerator.cs:74-88 | After mapping a sequence of member types, every project type any of them names is visited |
| Traversal.GenerateClosure | SharpTsDtsGen/InterfaceGenerator.cs:50-93 | After generating a fresh root, every direct dependency (a project type named by one of its kept members) is visited and declared under its own namespace; `GenerateReaches` extends this to any depth |
| Generator.InterfaceGenerator.constructor | SharpTsDtsGen/InterfaceGenerator.cs:40-43 | A new generator has no visited types and no namespaces, and satisfies the object invariant |
| Generator.InterfaceGenerator.GetJsType | SharpTsDtsGen/InterfaceGenerator.cs:146-195 | Returns the type's expression, leaves the state `MapState` gives, and keeps the object invariant |
| Generator.InterfaceGenerator.GenerateInterfaceOf | SharpTsDtsGen/InterfaceGenerator.cs:50-93 | Leaves the state `Generate` gives: nothing for a visited type, otherwise the member types mapped in order and the interface text filed under the type's namespace; keeps the object invariant |
| Generator.InterfaceGenerator.AppendFieldLines | SharpTsDtsGen/InterfaceGenerator.cs:74-77 | Appends the lines of the init-only fields and maps their types in order |
| Generator.InterfaceGenerator.AppendPropertyLines | SharpTsDtsGen/InterfaceGenerator.cs:79-83 | Appends one line per property and maps their types in order |
| Generator.InterfaceGenerator.AppendMethodLines | SharpTsDtsGen/InterfaceGenerator.cs:85-88 | Appends the lines of the kept methods and maps their return types in order |
| Generator.InterfaceGenerator.AddToNamespace | SharpTsDtsGen/InterfaceGenerator.cs:119-129 | The namespaces become `AddToNs` of the old ones, whose effect the Namespaces lemmas state; `dependentTypes` is unchanged; keeps the object invariant |
| Generator.InterfaceGenerator.GetDeclarations | SharpTsDtsGen/InterfaceGenerator.cs:95-112 | Returns the text of all namespace blocks in dictionary order, each declaration followed by a line break; changes nothing |
| ConstEnum.EntryLines | SharpTsDtsGen/ConstEnumGenerator.cs:21-24 | One entry line per pair, in enumeration order, line i showing key i and value i |
| ConstEnum.ConstEnumLines | SharpTsDtsGen/ConstEnumGenerator.cs:18-26 | The literal has two more lines than the dictionary has entries: `{` first, `}` last, and entry i on line i + 1 |
| ConstEnum.GetConstEnumOf | SharpTsDtsGen/ConstEnumGenerator.cs:16-29 | Returns the literal's lines, each followed by the line break |
| ConstEnum.ConstEnumText | SharpTsDtsGen/ConstEnumGenerator.cs:16-29 | The text is the opening brace line, the entry lines and the closing brace line |
| ConstEnum.EmptyConstEnum | SharpTsDtsGen/ConstEnumGenerator.cs:16-29 | An empty dictionary gives the two brace lines only |
| ConstEnum.EntryAt | SharpTsDtsGen/ConstEnumGenerator.cs:21-24 | Entry i stands on a line of its own, right after the opening line and the lines of the entries before it |

## Left out

- `Program.cs` (argument handling, assembly loading, root discovery, file output) is not part of this model.
- Reflection itself is not modelled. The descriptors are the input, with the public instance members in the order reflection reports them. The `BindingFlags` filter is taken as already applied.
- `Environment.NewLine` is a parameter (`Env.newLine`, and `newLine` of `GetConstEnumOf`), because it depends on the platform.
- `StringBuilder` is modelled as a string that grows by concatenation. LINQ's lazy `Where` is modelled as a filter evaluated in order; the difference is not observable.
- Declarations.LcFirst: lower-cases only `A`–`Z`, because `String.ToLower` is culture-sensitive and its tables are not modelled.
- Generator.InterfaceGenerator.GetJsType: requires the type graph the traversal follows to be acyclic (`Ranked`). On a cycle the code recurses until the stack overflows, and that divergence is not modelled.
- Generator.InterfaceGenerator.GetJsType: requires a generic dictionary to have at least two generic arguments and a generic enumerable at least one (`RankedType`), because the code throws an exception on fewer, and that exception path is not modelled.
- Generator.InterfaceGenerator.GenerateInterfaceOf: requires member names to be non-empty (part of `WellFormedType`), because `LcFirst` would throw on an empty name.
- A namespace is always a string. A type without a namespace (a `null` key) makes the code's `TryGetValue` throw, and that case is not modelled. A `null` `FullName`, as an open generic parameter has, is not modelled either.
- The enumeration order of `Dictionary<string, List<string>>` is modelled as insertion order, which is the order .NET produces when nothing is removed. The enumeration order of the `IDictionary` passed to `GetConstEnumOf` is the order of the input sequence. The uniqueness of dictionary keys is not used by the const-enum proofs.
- The three member loops of `GenerateInterfaceOf` are the separate methods `AppendFieldLines`, `AppendPropertyLines` and `AppendMethodLines`, called in the source's order. Each loop keeps its own filter and line format; the split keeps each proof small.
- Type identity is a `TypeId` value, so two handles denote the same type exactly when they are equal. Assembly identity in `assemblies.Contains` is equality of assembly names.
