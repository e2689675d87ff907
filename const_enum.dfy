/**
  `ConstEnumGenerator.GetConstEnumOf`: a key/value dictionary rendered as a
  TypeScript object literal of string constants, one entry per line.
*/
module ConstEnum {
  /** The line of one entry (without its line break): the key, a colon and the value in double quotes. */
  function EntryLine(key: string, value: string): string {
    "\t" + key + ": \"" + value + "\""
  }

  /** The entry lines, in the dictionary's enumeration order. */
  function EntryLines(values: seq<(string, string)>): (r: seq<string>)
    ensures |r| == |values|
    ensures forall i :: 0 <= i < |values| ==> r[i] == EntryLine(values[i].0, values[i].1)
  {
    if values == [] then []
    else EntryLines(values[..|values| - 1]) + [EntryLine(values[|values| - 1].0, values[|values| - 1].1)]
  }

  /** The object's lines: an opening brace, the entries in order, a closing brace. */
  function ConstEnumLines(values: seq<(string, string)>): (r: seq<string>)
    ensures |r| == |values| + 2 && r[0] == "{" && r[|r| - 1] == "}"
    ensures forall i :: 0 <= i < |values| ==> r[i + 1] == EntryLine(values[i].0, values[i].1)
  {
    ["{"] + EntryLines(values) + ["}"]
  }

  /** What a sequence of `AppendLine` calls writes: every line followed by the line break. */
  function JoinLines(nl: string, lines: seq<string>): string {
    if lines == [] then "" else JoinLines(nl, lines[..|lines| - 1]) + lines[|lines| - 1] + nl
  }

  /** The text of one object literal for `values`, with `newLine` as `Environment.NewLine`. */
  method GetConstEnumOf(values: seq<(string, string)>, newLine: string) returns (r: string)
    ensures r == JoinLines(newLine, ConstEnumLines(values))
  {
    var sb := "{" + newLine;
    assert sb == JoinLines(newLine, ["{"] + EntryLines(values[..0])) by {
      assert ["{"] + EntryLines([]) == ["{"];
      assert ["{"][..0] == [];
    }
    var i := 0;
    while i < |values|
      invariant 0 <= i <= |values|
      invariant sb == JoinLines(newLine, ["{"] + EntryLines(values[..i]))
    {
      var key := values[i].0;
      var value := values[i].1;
      ghost var lines := ["{"] + EntryLines(values[..i]);
      assert values[..i + 1][..i] == values[..i];
      assert (lines + [EntryLine(key, value)])[..|lines|] == lines;
      assert ["{"] + EntryLines(values[..i + 1]) == lines + [EntryLine(key, value)];
      sb := sb + EntryLine(key, value) + newLine;
      i := i + 1;
    }
    assert values[..i] == values;
    ghost var lines := ["{"] + EntryLines(values);
    assert (lines + ["}"])[..|lines|] == lines;
    sb := sb + "}" + newLine;
    return sb;
  }

  /** Joining distributes over concatenation of the line lists. */
  lemma {:induction false} JoinAppend(nl: string, a: seq<string>, b: seq<string>)
    ensures JoinLines(nl, a + b) == JoinLines(nl, a) + JoinLines(nl, b)
    decreases |b|
  {
    if b == [] {
      assert a + b == a;
    } else {
      var b' := b[..|b| - 1];
      assert (a + b)[..|a + b| - 1] == a + b';
      JoinAppend(nl, a, b');
    }
  }

  /** The text is the opening line, the entry lines and the closing line. */
  lemma ConstEnumText(values: seq<(string, string)>, nl: string)
    ensures JoinLines(nl, ConstEnumLines(values)) == "{" + nl + JoinLines(nl, EntryLines(values)) + "}" + nl
  {
    JoinAppend(nl, ["{"] + EntryLines(values), ["}"]);
    JoinAppend(nl, ["{"], EntryLines(values));
    assert JoinLines(nl, ["{"]) == "{" + nl by {
      assert ["{"][..0] == [];
    }
    assert JoinLines(nl, ["}"]) == "}" + nl by {
      assert ["}"][..0] == [];
    }
  }

  /** An empty dictionary gives an empty object literal: two lines, the braces. */
  lemma EmptyConstEnum(nl: string)
    ensures JoinLines(nl, ConstEnumLines([])) == "{" + nl + "}" + nl
  {
    ConstEnumText([], nl);
  }

  /** `line` occurs in `text` at offset `at`. */
  predicate EntryFound(text: string, at: nat, line: string) {
    at + |line| <= |text| && text[at..at + |line|] == line
  }

  /** Line `i` of joined lines, with its line break, starts at offset `at`: right after the text of the lines before it. */
  lemma {:induction false} JoinAt(nl: string, lines: seq<string>, i: nat, at: nat, line: string)
    requires i < |lines| && at == |JoinLines(nl, lines[..i])| && line == lines[i] + nl
    ensures EntryFound(JoinLines(nl, lines), at, line)
    decreases |lines|
  {
    var init := lines[..|lines| - 1];
    if i < |lines| - 1 {
      assert init[..i] == lines[..i] && init[i] == lines[i];
      JoinAt(nl, init, i, at, line);
      var text := JoinLines(nl, init) + lines[|lines| - 1] + nl;
      assert text[at..at + |line|] == JoinLines(nl, init)[at..at + |line|];
    } else {
      assert init == lines[..i];
      assert JoinLines(nl, lines) == JoinLines(nl, lines[..i]) + line;
    }
  }

  /**
    Entry `i` stands on a line of its own, after the opening line and the
    lines of the entries before it.
  */
  lemma EntryAt(values: seq<(string, string)>, nl: string, i: nat)
    requires i < |values|
    ensures EntryFound(JoinLines(nl, ConstEnumLines(values)), |"{" + nl + JoinLines(nl, EntryLines(values[..i]))|,
      EntryLine(values[i].0, values[i].1) + nl)
  {
    LinesBefore(values, nl, i);
    JoinAt(nl, ConstEnumLines(values), i + 1, |"{" + nl + JoinLines(nl, EntryLines(values[..i]))|,
      EntryLine(values[i].0, values[i].1) + nl);
  }

  /** The lines before entry `i`: the opening line and the entries before it. */
  lemma LinesBefore(values: seq<(string, string)>, nl: string, i: nat)
    requires i < |values|
    ensures JoinLines(nl, ConstEnumLines(values)[..i + 1]) == "{" + nl + JoinLines(nl, EntryLines(values[..i]))
  {
    var before := EntryLines(values[..i]);
    assert ConstEnumLines(values)[..i + 1] == ["{"] + before;
    JoinAppend(nl, ["{"], before);
    assert JoinLines(nl, ["{"]) == "{" + nl by {
      assert ["{"][..0] == [];
    }
  }
}
