/**
  `interfacesPerNamespaces`, a dictionary from namespace name to the list of
  declarations emitted for it, modelled as an association sequence in
  insertion order; `AddToNamespace` and the text `GetDeclarations` renders.
*/
module Namespaces {
  import opened Wrappers

  /** Namespace entries in insertion order, each with its declarations in insertion order. */
  type Groups = seq<(string, seq<string>)>

  /** Dictionary lookup (`TryGetValue`): the position of `key`, the first if several. */
  function Find(groups: Groups, key: string): (r: Option<nat>)
    ensures r.Some? ==> r.value < |groups| && groups[r.value].0 == key
    ensures r.Some? ==> forall j :: 0 <= j < r.value ==> groups[j].0 != key
    ensures r.None? <==> forall j :: 0 <= j < |groups| ==> groups[j].0 != key
  {
    if groups == [] then None
    else if groups[0].0 == key then Some(0)
    else match Find(groups[1..], key)
      case Some(i) => Some(i + 1)
      case None => None
  }

  /** The declarations recorded for `key`; none when it is absent. */
  function Lookup(groups: Groups, key: string): seq<string> {
    match Find(groups, key)
    case Some(i) => groups[i].1
    case None => []
  }

  /** The namespace names, in insertion order. */
  function Keys(groups: Groups): (r: seq<string>)
    ensures |r| == |groups| && forall i :: 0 <= i < |groups| ==> r[i] == groups[i].0
  {
    if groups == [] then [] else [groups[0].0] + Keys(groups[1..])
  }

  /** Dictionary keys are distinct. */
  ghost predicate DistinctKeys(groups: Groups) {
    forall i, j :: 0 <= i < j < |groups| ==> groups[i].0 != groups[j].0
  }

  /** `AddToNamespace`: append `decl` to `key`'s list, creating the entry at the end when `key` is new. */
  function AddToNs(groups: Groups, key: string, decl: string): Groups {
    match Find(groups, key)
    case Some(i) => groups[i := (key, groups[i].1 + [decl])]
    case None => groups + [(key, [decl])]
  }

  /** `b` is `a` with declarations appended to existing entries and new entries appended at the end. */
  ghost predicate Extends(a: Groups, b: Groups) {
    && |a| <= |b|
    && forall i :: 0 <= i < |a| ==> b[i].0 == a[i].0 && a[i].1 <= b[i].1
  }

  /** The first position holding `key` is the one `Find` reports. */
  lemma FindFirst(groups: Groups, key: string, i: nat)
    requires i < |groups| && groups[i].0 == key
    requires forall j :: 0 <= j < i ==> groups[j].0 != key
    ensures Find(groups, key) == Some(i)
  {
    var r := Find(groups, key);
    assert r.Some?;
    assert !(r.value < i);
    assert !(r.value > i);
  }

  /** Adding appends to `key`'s list and leaves every other namespace's list as it was. */
  lemma AddLookup(groups: Groups, key: string, decl: string, other: string)
    ensures Lookup(AddToNs(groups, key, decl), key) == Lookup(groups, key) + [decl]
    ensures other != key ==> Lookup(AddToNs(groups, key, decl), other) == Lookup(groups, other)
  {
    var g' := AddToNs(groups, key, decl);
    match Find(groups, key) {
      case Some(i) =>
        FindFirst(g', key, i);
      case None =>
        FindFirst(g', key, |groups|);
    }
    if other != key {
      match Find(groups, other) {
        case Some(j) =>
          FindFirst(g', other, j);
        case None =>
          assert forall j :: 0 <= j < |g'| ==> g'[j].0 != other by {
            forall j | 0 <= j < |g'| ensures g'[j].0 != other {
              if j < |groups| { assert g'[j].0 == key || g'[j] == groups[j]; }
            }
          }
      }
    }
  }

  /** Adding keeps the key order, appending `key` only when it is new. */
  lemma AddKeys(groups: Groups, key: string, decl: string)
    ensures Keys(AddToNs(groups, key, decl)) == Keys(groups) + (if Find(groups, key).Some? then [] else [key])
  {
    var g' := AddToNs(groups, key, decl);
    var k' := Keys(g');
    var k := Keys(groups) + (if Find(groups, key).Some? then [] else [key]);
    assert |k'| == |k|;
    forall i | 0 <= i < |k| ensures k'[i] == k[i] {
    }
  }

  /** Adding keeps the keys distinct and extends the groups. */
  lemma AddExtends(groups: Groups, key: string, decl: string)
    ensures DistinctKeys(groups) ==> DistinctKeys(AddToNs(groups, key, decl))
    ensures Extends(groups, AddToNs(groups, key, decl))
  {
  }

  lemma ExtendsTrans(a: Groups, b: Groups, c: Groups)
    requires Extends(a, b) && Extends(b, c)
    ensures Extends(a, c)
  {
    forall i | 0 <= i < |a| ensures a[i].1 <= c[i].1 {
      assert a[i].1 == b[i].1[..|a[i].1|];
      assert b[i].1 == c[i].1[..|b[i].1|];
      assert c[i].1[..|b[i].1|][..|a[i].1|] == c[i].1[..|a[i].1|];
    }
  }

  /** What was recorded for a namespace stays, in order, at the front of its list. */
  lemma ExtendsLookup(a: Groups, b: Groups, key: string)
    requires Extends(a, b)
    ensures Lookup(a, key) <= Lookup(b, key)
  {
    match Find(a, key) {
      case Some(i) => FindFirst(b, key, i);
      case None =>
    }
  }

  /** The lines `GetDeclarations` writes for one namespace's declarations: each followed by a line break. */
  function DeclLines(nl: string, decls: seq<string>): string {
    if decls == [] then "" else DeclLines(nl, decls[..|decls| - 1]) + decls[|decls| - 1] + nl
  }

  /** The line that opens a namespace's block. */
  function Opening(nl: string, key: string): string {
    "declare namespace " + key + " {" + nl
  }

  /** One `declare namespace` block. */
  function Block(nl: string, key: string, decls: seq<string>): string {
    Opening(nl, key) + DeclLines(nl, decls) + "}" + nl
  }

  /** One more declaration adds one more line to its block. */
  lemma DeclLinesStep(nl: string, decls: seq<string>, j: nat)
    requires j < |decls|
    ensures DeclLines(nl, decls[..j + 1]) == DeclLines(nl, decls[..j]) + (decls[j] + nl)
  {
    assert decls[..j + 1][..j] == decls[..j];
  }

  /** `GetDeclarations`' text: one block per namespace, in insertion order. */
  function Render(nl: string, groups: Groups): string {
    if groups == [] then ""
    else Render(nl, groups[..|groups| - 1]) + Block(nl, groups[|groups| - 1].0, groups[|groups| - 1].1)
  }

  /** One more namespace adds one more block. */
  lemma RenderStep(nl: string, groups: Groups, n: nat)
    requires n < |groups|
    ensures Render(nl, groups[..n + 1]) == Render(nl, groups[..n]) + Block(nl, groups[n].0, groups[n].1)
  {
    assert groups[..n + 1][..n] == groups[..n];
  }

  /** Rendering distributes over concatenation: blocks are never reordered. */
  lemma {:induction false} RenderAppend(nl: string, a: Groups, b: Groups)
    ensures Render(nl, a + b) == Render(nl, a) + Render(nl, b)
    decreases |b|
  {
    if b != [] {
      var b' := b[..|b| - 1];
      assert (a + b)[..|a + b| - 1] == a + b';
      RenderAppend(nl, a, b');
    } else {
      assert a + b == a;
    }
  }

  /** A declaration for a new namespace adds one block at the end of the text. */
  lemma RenderAddNew(nl: string, groups: Groups, key: string, decl: string)
    requires Find(groups, key).None?
    ensures Render(nl, AddToNs(groups, key, decl)) == Render(nl, groups) + Block(nl, key, [decl])
  {
    var g' := groups + [(key, [decl])];
    assert g'[..|g'| - 1] == groups;
  }

  /** The text of entry `i` stands between the text of the entries before it and after it. */
  lemma RenderSplit(nl: string, groups: Groups, i: nat)
    requires i < |groups|
    ensures Render(nl, groups)
      == Render(nl, groups[..i]) + Block(nl, groups[i].0, groups[i].1) + Render(nl, groups[i + 1..])
  {
    assert groups == groups[..i] + [groups[i]] + groups[i + 1..];
    RenderAppend(nl, groups[..i] + [groups[i]], groups[i + 1..]);
    RenderAppend(nl, groups[..i], [groups[i]]);
  }

  /**
    A declaration for a known namespace lands at the end of that namespace's
    block; the blocks before and after are unchanged.
  */
  lemma RenderAddExisting(nl: string, groups: Groups, key: string, decl: string, i: nat)
    requires Find(groups, key) == Some(i)
    ensures Render(nl, AddToNs(groups, key, decl))
      == Render(nl, groups[..i]) + Block(nl, key, groups[i].1 + [decl]) + Render(nl, groups[i + 1..])
    ensures Render(nl, groups)
      == Render(nl, groups[..i]) + Block(nl, key, groups[i].1) + Render(nl, groups[i + 1..])
    ensures DeclLines(nl, groups[i].1 + [decl]) == DeclLines(nl, groups[i].1) + decl + nl
  {
    var g' := AddToNs(groups, key, decl);
    RenderSplit(nl, g', i);
    assert g'[..i] == groups[..i] && g'[i + 1..] == groups[i + 1..];
    RenderSplit(nl, groups, i);
    var ds := groups[i].1 + [decl];
    assert ds[..|ds| - 1] == groups[i].1;
  }

  /** The number of declarations recorded across all namespaces. */
  function Total(groups: Groups): nat {
    if groups == [] then 0 else Total(groups[..|groups| - 1]) + |groups[|groups| - 1].1|
  }

  /** Replacing one entry's list changes the count by the difference in length. */
  lemma {:induction false} TotalUpdate(groups: Groups, i: nat, entry: (string, seq<string>))
    requires i < |groups|
    ensures Total(groups[i := entry]) + |groups[i].1| == Total(groups) + |entry.1|
    decreases |groups|
  {
    var g := groups[i := entry];
    var n := |groups| - 1;
    assert g[..n] == if i < n then groups[..n][i := entry] else groups[..n];
    if i < n {
      TotalUpdate(groups[..n], i, entry);
    }
  }

  /** `AddToNamespace` records exactly one more declaration. */
  lemma TotalAdd(groups: Groups, key: string, decl: string)
    ensures Total(AddToNs(groups, key, decl)) == Total(groups) + 1
  {
    match Find(groups, key)
    case Some(i) =>
      TotalUpdate(groups, i, (key, groups[i].1 + [decl]));
    case None =>
      assert (groups + [(key, [decl])])[..|groups|] == groups;
  }
}
