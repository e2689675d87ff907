/**
  The text `GenerateInterfaceOf` builds for one type: an `interface` block with
  one line per selected member.
*/
module Declarations {
  import opened Reflection
  import opened Selection
  import opened TypeMapping

  /** Lower-casing of one character, restricted to ASCII letters. */
  function LowerAscii(c: char): (r: char)
    ensures 'A' <= c <= 'Z' ==> 'a' <= r <= 'z' && r as int - c as int == 'a' as int - 'A' as int
    ensures !('A' <= c <= 'Z') ==> r == c
  {
    if 'A' <= c <= 'Z' then (c as int - 'A' as int + 'a' as int) as char else c
  }

  /** `LcFirst`: lower-cases the first character only; the rest and the length are kept. */
  function LcFirst(name: string): (r: string)
    requires |name| > 0
    ensures |r| == |name|
    ensures r[0] == LowerAscii(name[0]) && !('A' <= r[0] <= 'Z')
    ensures forall i :: 1 <= i < |name| ==> r[i] == name[i]
  {
    [LowerAscii(name[0])] + name[1..]
  }

  /** Lower-casing the first character twice is the same as once. */
  lemma LcFirstIdempotent(name: string)
    requires |name| > 0
    ensures LcFirst(LcFirst(name)) == LcFirst(name)
  {
    assert LcFirst(LcFirst(name))[1..] == LcFirst(name)[1..];
  }

  /** The member types of the lines in `ms` can be mapped. */
  ghost predicate Mappable(e: Env, ms: seq<MemberDesc>) {
    && Ranked(e)
    && forall m | m in ms :: |m.name| > 0 && (IsSelected(m) ==> MemberType(m) in e.rank)
  }

  /** The line of an init-only field: its name as declared. */
  function FieldLine(name: string, js: string, nl: string): string {
    "\t\t" + name + ": " + js + ";" + nl
  }

  /** The line of a property: `readonly ` when it has no public setter, then its lower-cased name. */
  function PropertyLine(hasSetter: bool, name: string, js: string, nl: string): string
    requires |name| > 0
  {
    "\t\t" + (if hasSetter then "" else "readonly ") + LcFirst(name) + ": " + js + ";" + nl
  }

  /** The line of a method: a zero-argument signature returning a `Promise` of the mapped return type. */
  function MethodLine(name: string, js: string, nl: string): string
    requires |name| > 0
  {
    "\t\t" + LcFirst(name) + "(): Promise<" + js + ">;" + nl
  }

  /** The line of one member, with the member's type mapped by `JsType`. */
  function MemberLine(e: Env, m: MemberDesc): string
    requires Ranked(e) && MemberType(m) in e.rank && |m.name| > 0
  {
    match m
    case FieldDesc(name, t, _) => FieldLine(name, JsType(e, t), e.newLine)
    case PropertyDesc(name, t, hasSetter) => PropertyLine(hasSetter, name, JsType(e, t), e.newLine)
    case MethodDesc(name, t, _) => MethodLine(name, JsType(e, t), e.newLine)
  }

  /** The lines of the selected members of `ms`, in order. */
  function MemberLines(e: Env, ms: seq<MemberDesc>): string
    requires Mappable(e, ms)
  {
    if ms == [] then ""
    else
      var m := ms[|ms| - 1];
      MemberLines(e, ms[..|ms| - 1]) + (if IsSelected(m) then MemberLine(e, m) else "")
  }

  /** The first line of an interface block. */
  function Header(e: Env, name: string): string {
    "\tinterface " + name + " {" + e.newLine
  }

  /** A selected member adds its line to the member lines and its type to the mapped types. */
  lemma TakeStep(e: Env, ms: seq<MemberDesc>, i: nat)
    requires Mappable(e, ms) && i < |ms| && IsSelected(ms[i])
    ensures Mappable(e, ms[..i]) && Mappable(e, ms[..i + 1])
    ensures MemberType(ms[i]) in e.rank && |ms[i].name| > 0
    ensures MemberLines(e, ms[..i + 1]) == MemberLines(e, ms[..i]) + MemberLine(e, ms[i])
    ensures SelectedTypes(ms[..i + 1]) == SelectedTypes(ms[..i]) + [MemberType(ms[i])]
  {
    assert ms[..i + 1][..i] == ms[..i];
    assert ms[i] in ms;
  }

  /** A member that is not selected adds no line and no mapped type. */
  lemma SkipStep(e: Env, ms: seq<MemberDesc>, i: nat)
    requires Mappable(e, ms) && i < |ms| && !IsSelected(ms[i])
    ensures Mappable(e, ms[..i]) && Mappable(e, ms[..i + 1])
    ensures MemberLines(e, ms[..i + 1]) == MemberLines(e, ms[..i])
    ensures SelectedTypes(ms[..i + 1]) == SelectedTypes(ms[..i])
  {
    assert ms[..i + 1][..i] == ms[..i];
  }

  /** The whole interface block of `t`: header, field lines, property lines, method lines, closing line. */
  function Declaration(e: Env, t: TypeId): string
    requires Ranked(e) && t in e.rank && t in e.types && MembersBelow(e, t)
  {
    MembersMappable(e, t);
    var d := e.types[t];
    Header(e, d.name) + MemberLines(e, d.fields) + MemberLines(e, d.properties) + MemberLines(e, d.methods)
      + "\t}" + e.newLine
  }

  /** The three member lists of a type whose member types are ranked can be rendered. */
  lemma MembersMappable(e: Env, t: TypeId)
    requires Ranked(e) && t in e.rank && t in e.types && MembersBelow(e, t)
    ensures var d := e.types[t]; Mappable(e, d.fields) && Mappable(e, d.properties) && Mappable(e, d.methods)
  {
    assert RankedType(e, t);
    var d := e.types[t];
    forall m | m in d.fields && IsSelected(m) ensures MemberType(m) in e.rank {
      var i :| 0 <= i < |d.fields| && d.fields[i] == m;
      SelectedTypeIn(d.fields, i);
      assert MemberType(m) in MemberTypes(d);
    }
    forall m | m in d.properties && IsSelected(m) ensures MemberType(m) in e.rank {
      var i :| 0 <= i < |d.properties| && d.properties[i] == m;
      SelectedTypeIn(d.properties, i);
      assert MemberType(m) in MemberTypes(d);
    }
    forall m | m in d.methods && IsSelected(m) ensures MemberType(m) in e.rank {
      var i :| 0 <= i < |d.methods| && d.methods[i] == m;
      SelectedTypeIn(d.methods, i);
      assert MemberType(m) in MemberTypes(d);
    }
  }

  /** The lines rendered for `ms` are exactly the lines of `Selected(ms)`. */
  function AllLines(e: Env, ms: seq<MemberDesc>): string
    requires Ranked(e) && forall m | m in ms :: MemberType(m) in e.rank && |m.name| > 0
  {
    if ms == [] then "" else AllLines(e, ms[..|ms| - 1]) + MemberLine(e, ms[|ms| - 1])
  }

  /** Unselected members contribute no text: the lines of `ms` are the lines of its selected members, in order. */
  lemma {:induction false} OnlySelectedLines(e: Env, ms: seq<MemberDesc>)
    requires Mappable(e, ms)
    ensures forall m | m in Selected(ms) :: MemberType(m) in e.rank && |m.name| > 0
    ensures MemberLines(e, ms) == AllLines(e, Selected(ms))
  {
    if ms != [] {
      var p := ms[..|ms| - 1];
      var m := ms[|ms| - 1];
      OnlySelectedLines(e, p);
      assert ms[..|ms| - 1] == p;
      if IsSelected(m) {
        var sp := Selected(p);
        assert Selected(ms) == sp + [m];
        assert (sp + [m])[..|sp|] == sp;
        assert AllLines(e, sp + [m]) == AllLines(e, sp) + MemberLine(e, m);
      } else {
        assert Selected(ms) == Selected(p);
      }
    }
  }

  /** A lower-cased identifier followed by `:` never starts with `readonly `. */
  lemma NotReadonlyPrefix(name: string, tail: string)
    requires |name| > 0 && ' ' !in name && |tail| > 0 && tail[0] == ':'
    ensures var s := LcFirst(name) + tail; !(|s| >= 9 && s[..9] == "readonly ")
  {
    var s := LcFirst(name) + tail;
    if |s| >= 9 {
      if |name| > 8 {
        assert name[8] in name;
        assert s[..9][8] == name[8] != "readonly "[8];
      } else {
        assert s[..9][|name|] == ':' != "readonly "[|name|];
      }
    }
  }

  /**
    A property line carries `readonly ` exactly when the property has no public
    setter (member names are identifiers and contain no space).
  */
  lemma ReadonlyMarker(hasSetter: bool, name: string, js: string, nl: string)
    requires |name| > 0 && ' ' !in name
    ensures var line := PropertyLine(hasSetter, name, js, nl);
      (|line| >= 11 && line[..11] == "\t\treadonly ") <==> !hasSetter
  {
    var line := PropertyLine(hasSetter, name, js, nl);
    var tail := ": " + js + ";" + nl;
    var rest := LcFirst(name) + tail;
    if hasSetter {
      assert line == "\t\t" + rest;
      NotReadonlyPrefix(name, tail);
      if |line| >= 11 {
        assert line[..11][2..] == rest[..9];
      }
    } else {
      assert line == "\t\treadonly " + rest;
      assert line[..11] == "\t\treadonly ";
    }
  }

  /** A zero-argument method `GetName` returning `string` is rendered `getName(): Promise<string | null>;`. */
  lemma GetNameLine(e: Env)
    requires Ranked(e) && StringType in e.rank && StringType in e.types
    requires e.types[StringType].nullableOf.None? && !IsNumber(e.types[StringType].typeCode)
    ensures MemberLine(e, MethodDesc("GetName", StringType, false)) == MethodLine("GetName", "string | null", e.newLine)
    ensures MethodLine("GetName", "string | null", e.newLine)
      == "\t\t" + "getName" + "(): Promise<" + "string | null" + ">;" + e.newLine
  {
    assert LowerAscii('G') == 'g';
    assert LcFirst("GetName") == "getName";
  }
}
