// Files of `key=value` lines: the release environments and the swap authorizations.
module FieldFiles {
  import opened Prelude
  import opened Text

  datatype Field = Field(key: string, value: string)

  /** Environments have upper-case keys, authorizations lower-case ones. */
  datatype Style = Upper | Lower

  predicate IsLetter(style: Style, c: char) {
    if style == Upper then 'A' <= c <= 'Z' else 'a' <= c <= 'z'
  }

  predicate IsKeyChar(style: Style, c: char) {
    IsLetter(style, c) || '0' <= c <= '9' || c == '_'
  }

  predicate IsKey(style: Style, key: string) {
    key != "" && IsLetter(style, key[0]) && forall c | c in key :: IsKeyChar(style, c)
  }

  function Line(f: Field): string {
    f.key + ['='] + f.value
  }

  function Render(fields: seq<Field>): string {
    if fields == [] then "" else Line(fields[0]) + ['\n'] + Render(fields[1..])
  }

  function ParseLines(style: Style, lines: seq<string>, known: map<string, string>): Option<map<string, string>>
    decreases |lines|
  {
    if lines == [] then Some(known)
    else
      var line := lines[0];
      if line == "" || line[0] == '#' then ParseLines(style, lines[1..], known)
      else
        var (key, value) := Partition(line, '=');
        if '=' !in line || !IsKey(style, key) || key in known then None
        else ParseLines(style, lines[1..], known[key := value])
  }

  /** None is the error for an invalid or repeated field. */
  function Parse(style: Style, text: string): Option<map<string, string>> {
    ParseLines(style, Lines(text), map[])
  }

  method ParseFields(style: Style, text: string) returns (fields: Option<map<string, string>>)
    ensures fields == Parse(style, text)
  {
    hide IsKey, Partition, Split;
    var lines := Lines(text);
    var known: map<string, string> := map[];
    assert lines[0..] == lines;
    for i := 0 to |lines|
      invariant Parse(style, text) == ParseLines(style, lines[i..], known)
    {
      assert lines[i..][0] == lines[i] && lines[i..][1..] == lines[i + 1..];
      var line := lines[i];
      if line == "" || line[0] == '#' {
        continue;
      }
      var (key, value) := Partition(line, '=');
      if '=' !in line || !IsKey(style, key) || key in known {
        return None;
      }
      known := known[key := value];
    }
    fields := Some(known);
  }

  // ----------------------------------------------------------------------- round trip

  function AsMap(fields: seq<Field>, known: map<string, string>): map<string, string>
    decreases |fields|
  {
    if fields == [] then known else AsMap(fields[1..], known[fields[0].key := fields[0].value])
  }

  /** Fields that a file may hold: identifiers for keys, one line for each value. */
  predicate Writable(style: Style, fields: seq<Field>) {
    forall f | f in fields :: IsKey(style, f.key) && IsOneLine(f.value)
  }

  predicate DistinctKeys(fields: seq<Field>) {
    forall i, j | 0 <= i < j < |fields| :: fields[i].key != fields[j].key
  }

  predicate NewKeys(fields: seq<Field>, known: map<string, string>) {
    forall f | f in fields :: f.key !in known
  }

  lemma LineParts(style: Style, f: Field)
    requires IsKey(style, f.key) && IsOneLine(f.value)
    ensures Line(f) != "" && Line(f)[0] != '#' && '=' in Line(f) && IsOneLine(Line(f))
    ensures Partition(Line(f), '=') == (f.key, f.value)
  {
    assert Line(f)[0] == f.key[0];
    assert Line(f)[|f.key|] == '=';
    PartitionAt(f.key, f.value, '=');
  }

  lemma ParseFirst(style: Style, f: Field, rest: seq<string>, known: map<string, string>)
    requires IsKey(style, f.key) && IsOneLine(f.value) && f.key !in known
    ensures ParseLines(style, [Line(f)] + rest, known) == ParseLines(style, rest, known[f.key := f.value])
  {
    hide Partition, IsKey;
    LineParts(style, f);
    assert ([Line(f)] + rest)[1..] == rest;
  }

  lemma {:induction false} RenderThenParse(style: Style, fields: seq<Field>, known: map<string, string>)
    requires Writable(style, fields) && DistinctKeys(fields) && NewKeys(fields, known)
    ensures ParseLines(style, Lines(Render(fields)), known) == Some(AsMap(fields, known))
    decreases |fields|
  {
    hide ParseLines, IsKey, Line;
    if fields == [] {
      NothingToParse(style, known);
    } else {
      var first, rest := fields[0], fields[1..];
      assert first in fields;
      LineParts(style, first);
      LinesAt(Line(first), Render(rest));
      ParseFirst(style, first, Lines(Render(rest)), known);
      forall f | f in rest ensures f.key !in known[first.key := first.value] {
        var k :| 0 <= k < |rest| && rest[k] == f;
        assert fields[k + 1] == f;
      }
      RenderThenParse(style, rest, known[first.key := first.value]);
    }
  }

  lemma NothingToParse(style: Style, known: map<string, string>)
    ensures Lines("") == [""] && ParseLines(style, [""], known) == Some(known) && ParseLines(style, [], known) == Some(known)
  {
    assert [""][1..] == [];
  }

  /** What was written is what is read. */
  lemma RoundTrip(style: Style, fields: seq<Field>)
    requires Writable(style, fields) && DistinctKeys(fields)
    ensures Parse(style, Render(fields)) == Some(AsMap(fields, map[]))
  {
    RenderThenParse(style, fields, map[]);
  }

  lemma {:induction false} AsMapElsewhere(fields: seq<Field>, known: map<string, string>, key: string)
    requires forall f | f in fields :: f.key != key
    ensures (key in AsMap(fields, known) <==> key in known) && (key in known ==> AsMap(fields, known)[key] == known[key])
    decreases |fields|
  {
    if fields != [] {
      assert fields[0] in fields;
      AsMapElsewhere(fields[1..], known[fields[0].key := fields[0].value], key);
    }
  }

  lemma {:induction false} AsMapAt(fields: seq<Field>, known: map<string, string>, f: Field)
    requires DistinctKeys(fields) && f in fields
    ensures f.key in AsMap(fields, known) && AsMap(fields, known)[f.key] == f.value
    decreases |fields|
  {
    var first, rest := fields[0], fields[1..];
    if f == first {
      forall g | g in rest ensures g.key != f.key {
        var k :| 0 <= k < |rest| && rest[k] == g;
        assert fields[k + 1] == g;
      }
      AsMapElsewhere(rest, known[first.key := first.value], f.key);
    } else {
      assert forall k | 0 <= k < |rest| :: rest[k] == fields[k + 1];
      AsMapAt(rest, known[first.key := first.value], f);
    }
  }

  /** A map of fields holds exactly those fields. */
  lemma AsMapHolds(fields: seq<Field>)
    requires DistinctKeys(fields)
    ensures forall key :: key in AsMap(fields, map[]) <==> exists f :: f in fields && f.key == key
    ensures forall f | f in fields :: AsMap(fields, map[])[f.key] == f.value
  {
    hide AsMap, DistinctKeys;
    forall f | f in fields ensures f.key in AsMap(fields, map[]) && AsMap(fields, map[])[f.key] == f.value {
      AsMapAt(fields, map[], f);
    }
    forall key | key in AsMap(fields, map[]) ensures exists f :: f in fields && f.key == key {
      if forall f | f in fields :: f.key != key {
        AsMapElsewhere(fields, map[], key);
      }
    }
  }

  // ------------------------------------------------------------------ rewriting a file

  lemma {:induction false} PartitionIsPart(line: string, separator: char)
    ensures forall c | c in Partition(line, separator).1 :: c in line
  {
    if line != [] && line[0] != separator {
      PartitionIsPart(line[1..], separator);
    }
  }

  ghost predicate Readable(style: Style, m: map<string, string>) {
    forall key | key in m :: IsKey(style, key) && IsOneLine(m[key])
  }

  lemma {:induction false} ParsedIsReadable(style: Style, lines: seq<string>, known: map<string, string>)
    requires Readable(style, known) && forall line | line in lines :: IsOneLine(line)
    ensures var m := ParseLines(style, lines, known); m.Some? ==> Readable(style, m.value)
    decreases |lines|
  {
    hide IsKey;
    if lines != [] {
      var line := lines[0];
      assert line in lines;
      if line == "" || line[0] == '#' {
        ParsedIsReadable(style, lines[1..], known);
      } else {
        var (key, value) := Partition(line, '=');
        PartitionIsPart(line, '=');
        if '=' in line && IsKey(style, key) && key !in known {
          ParsedIsReadable(style, lines[1..], known[key := value]);
        }
      }
    }
  }

  /** Whatever was read from a file, with any of its fields replaced by other one-line
      values, reads back the same after it has been written, in whatever field order. */
  lemma RewriteRoundTrip(style: Style, text: string, changes: map<string, string>, fields: seq<Field>)
    requires Parse(style, text).Some? && Readable(style, changes)
    requires DistinctKeys(fields) && AsMap(fields, map[]) == Parse(style, text).value + changes
    ensures Parse(style, Render(fields)) == Some(Parse(style, text).value + changes)
  {
    hide IsKey;
    LinesAreSingle(text);
    ParsedIsReadable(style, Lines(text), map[]);
    AsMapHolds(fields);
    var m := Parse(style, text).value;
    assert Readable(style, m);
    forall f | f in fields ensures IsKey(style, f.key) && IsOneLine(f.value) {
      assert f.key in AsMap(fields, map[]) && (m + changes)[f.key] == f.value;
      assert f.key in changes || f.key in m;
    }
    RoundTrip(style, fields);
  }

  // -------------------------------------------------------------- interrupted writes

  /** A cut line either has no separator or keeps its key and a part of its value. */
  lemma CutLine(style: Style, f: Field, n: nat, known: map<string, string>)
    requires IsKey(style, f.key) && IsOneLine(f.value) && n <= |Line(f)|
    ensures var m := ParseLines(style, [Line(f)[..n]], known);
      m.None? || m.value == known || (n > |f.key| && m.value == known[f.key := f.value[..n - |f.key| - 1]])
  {
    var line := Line(f)[..n];
    assert [line][1..] == [];
    if n > |f.key| {
      var value := f.value[..n - |f.key| - 1];
      assert line == f.key + ['='] + value;
      PartitionAt(f.key, value, '=');
    } else {
      assert line == f.key[..n];
      forall c | c in line ensures c != '=' {
        assert c in f.key && IsKeyChar(style, c);
      }
    }
  }

  lemma OneLinePart(line: string, n: nat)
    requires IsOneLine(line) && n <= |line|
    ensures IsOneLine(line[..n])
  {
    hide IsLineBreak;
    assert forall c | c in line[..n] :: c in line;
  }

  lemma LineLength(f: Field)
    ensures |Line(f)| == |f.key| + 1 + |f.value|
  {
  }

  /** What can be read of a text that stops after `n` characters: never the last field in
      full, unless only the final line break is missing. */
  lemma {:induction false} CutText(style: Style, fields: seq<Field>, n: nat, known: map<string, string>)
    requires Writable(style, fields) && DistinctKeys(fields) && NewKeys(fields, known)
    requires fields != [] && n < |Render(fields)| - 1
    ensures var m := ParseLines(style, Lines(Render(fields)[..n]), known);
      var last := fields[|fields| - 1];
      m.Some? && last.key in m.value ==> m.value[last.key] < last.value
    decreases |fields|
  {
    hide ParseLines, IsKey, IsOneLine, Lines, Line;
    var first, rest := fields[0], fields[1..];
    var line := Line(first);
    assert first in fields;
    LineParts(style, first);
    assert Render(fields) == line + ['\n'] + Render(rest);
    if n <= |line| {
      assert Render(fields)[..n] == line[..n];
      OneLinePart(line, n);
      LinesPlain(line[..n]);
      CutLine(style, first, n, known);
      assert |line| == |first.key| + 1 + |first.value| by { LineLength(first); }
      assert fields[|fields| - 1] in fields;
      if |fields| == 1 {
        assert Render(rest) == "";
      }
    } else {
      var m := n - |line| - 1;
      assert Render(fields)[..n] == line + ['\n'] + Render(rest)[..m];
      LinesAt(line, Render(rest)[..m]);
      ParseFirst(style, first, Lines(Render(rest)[..m]), known);
      assert rest != [];
      forall f | f in rest ensures f.key !in known[first.key := first.value] {
        var k :| 0 <= k < |rest| && rest[k] == f;
        assert fields[k + 1] == f;
      }
      CutText(style, rest, m, known[first.key := first.value]);
    }
  }

  // ------------------------------------------------------------------- what a file says

  /** Neither empty nor a comment. */
  predicate Meaningful(line: string) {
    line != "" && line[0] != '#'
  }

  /** The line sets a key: the part before its first equals sign. */
  predicate Sets(line: string, key: string, value: string) {
    line == key + "=" + value && '=' !in key
  }

  lemma {:induction false} PartitionSets(line: string)
    requires '=' in line
    ensures Sets(line, Partition(line, '=').0, Partition(line, '=').1)
  {
    if line[0] == '=' {
      assert line == "" + "=" + line[1..];
    } else {
      PartitionSets(line[1..]);
      var key, value := Partition(line[1..], '=').0, Partition(line[1..], '=').1;
      assert line == [line[0]] + line[1..] == [line[0]] + key + "=" + value;
    }
  }

  lemma SetsIsPartition(line: string, key: string, value: string)
    requires Sets(line, key, value)
    ensures '=' in line && Partition(line, '=') == (key, value)
  {
    assert line == key + ['='] + value && line[|key|] == '=';
    PartitionAt(key, value, '=');
  }

  /** Every meaningful line sets a proper key, and no key is set twice or known before. */
  ghost predicate Lawful(style: Style, lines: seq<string>, known: map<string, string>) {
    && (forall i | 0 <= i < |lines| && Meaningful(lines[i]) ::
          '=' in lines[i] && IsKey(style, Partition(lines[i], '=').0) && Partition(lines[i], '=').0 !in known)
    && (forall i, j | 0 <= i < j < |lines| && Meaningful(lines[i]) && Meaningful(lines[j]) ::
          Partition(lines[i], '=').0 != Partition(lines[j], '=').0)
  }

  lemma LawfulSkips(style: Style, line: string, rest: seq<string>, known: map<string, string>)
    requires !Meaningful(line)
    ensures Lawful(style, [line] + rest, known) <==> Lawful(style, rest, known)
  {
    hide IsKey, Partition, Meaningful;
    var lines := [line] + rest;
    assert forall k | 0 <= k < |rest| :: lines[k + 1] == rest[k];
    if Lawful(style, lines, known) {
      forall i | 0 <= i < |rest| && Meaningful(rest[i])
        ensures '=' in rest[i] && IsKey(style, Partition(rest[i], '=').0) && Partition(rest[i], '=').0 !in known
      {
        assert Meaningful(lines[i + 1]);
      }
      forall i, j | 0 <= i < j < |rest| && Meaningful(rest[i]) && Meaningful(rest[j])
        ensures Partition(rest[i], '=').0 != Partition(rest[j], '=').0
      {
        assert Meaningful(lines[i + 1]) && Meaningful(lines[j + 1]);
      }
    }
  }

  lemma LawfulTakes(style: Style, line: string, rest: seq<string>, known: map<string, string>)
    requires Meaningful(line)
    ensures var key, value := Partition(line, '=').0, Partition(line, '=').1;
      Lawful(style, [line] + rest, known) <==>
        '=' in line && IsKey(style, key) && key !in known && Lawful(style, rest, known[key := value])
  {
    hide IsKey, Partition, Meaningful;
    var lines := [line] + rest;
    var key, value := Partition(line, '=').0, Partition(line, '=').1;
    assert lines[0] == line && forall k | 0 <= k < |rest| :: lines[k + 1] == rest[k];
    if Lawful(style, lines, known) {
      forall i | 0 <= i < |rest| && Meaningful(rest[i])
        ensures '=' in rest[i] && IsKey(style, Partition(rest[i], '=').0) && Partition(rest[i], '=').0 !in known[key := value]
      {
        assert Meaningful(lines[i + 1]) && Partition(lines[0], '=').0 != Partition(lines[i + 1], '=').0;
      }
      forall i, j | 0 <= i < j < |rest| && Meaningful(rest[i]) && Meaningful(rest[j])
        ensures Partition(rest[i], '=').0 != Partition(rest[j], '=').0
      {
        assert Meaningful(lines[i + 1]) && Meaningful(lines[j + 1]);
      }
    }
  }

  /** A file is read exactly when it is lawful. */
  lemma {:induction false} ReadIff(style: Style, lines: seq<string>, known: map<string, string>)
    ensures ParseLines(style, lines, known).Some? <==> Lawful(style, lines, known)
    decreases |lines|
  {
    hide IsKey, Partition, Lawful;
    if lines == [] {
      NothingIsLawful(style, known);
    } else {
      var line, rest := lines[0], lines[1..];
      assert lines == [line] + rest;
      if Meaningful(line) {
        LawfulTakes(style, line, rest, known);
        var key, value := Partition(line, '=').0, Partition(line, '=').1;
        if '=' in line && IsKey(style, key) && key !in known {
          ReadIff(style, rest, known[key := value]);
        }
      } else {
        LawfulSkips(style, line, rest, known);
        ReadIff(style, rest, known);
      }
    }
  }

  lemma NothingIsLawful(style: Style, known: map<string, string>)
    ensures Lawful(style, [], known)
  {
  }

  /** A key begins with a letter of its style; letters, digits and underscores follow. */
  lemma KeyIff(key: string)
    ensures IsKey(Upper, key) <==>
      key != "" && 'A' <= key[0] <= 'Z' && forall c | c in key :: 'A' <= c <= 'Z' || '0' <= c <= '9' || c == '_'
    ensures IsKey(Lower, key) <==>
      key != "" && 'a' <= key[0] <= 'z' && forall c | c in key :: 'a' <= c <= 'z' || '0' <= c <= '9' || c == '_'
  {
  }

  /** What is read are exactly the settings of the meaningful lines. */
  lemma {:induction false} ReadIs(style: Style, lines: seq<string>, known: map<string, string>, key: string, value: string)
    requires ParseLines(style, lines, known).Some?
    ensures var m := ParseLines(style, lines, known).value;
      key in m && m[key] == value <==>
        (key in known && known[key] == value) || exists i :: 0 <= i < |lines| && Meaningful(lines[i]) && Sets(lines[i], key, value)
    decreases |lines|
  {
    hide IsKey, Partition, Sets;
    if lines != [] {
      var line, rest := lines[0], lines[1..];
      assert forall k | 0 <= k < |rest| :: rest[k] == lines[k + 1];
      var now := if Meaningful(line) then known[Partition(line, '=').0 := Partition(line, '=').1] else known;
      ReadIs(style, rest, now, key, value);
      if Meaningful(line) {
        PartitionSets(line);
        if Sets(line, key, value) {
          SetsIsPartition(line, key, value);
        }
      }
      if i :| 0 <= i < |lines| && Meaningful(lines[i]) && Sets(lines[i], key, value) {
        if i > 0 {
          assert Meaningful(rest[i - 1]) && Sets(rest[i - 1], key, value);
        }
      }
      if i :| 0 <= i < |rest| && Meaningful(rest[i]) && Sets(rest[i], key, value) {
        assert Meaningful(lines[i + 1]) && Sets(lines[i + 1], key, value);
      }
    }
  }
}
