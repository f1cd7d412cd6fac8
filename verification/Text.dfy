// String operations that several components share.
module Text {

  /** The characters that stripping removes. */
  predicate IsSpace(c: char) {
    || '\t' <= c <= '\r' || '\U{001C}' <= c <= ' ' || c == '\U{0085}' || c == '\U{00A0}' || c == '\U{1680}'
    || '\U{2000}' <= c <= '\U{200A}' || '\U{2028}' <= c <= '\U{2029}' || c == '\U{202F}' || c == '\U{205F}' || c == '\U{3000}'
  }

  /** The characters at which a text is cut into lines. */
  predicate IsLineBreak(c: char) {
    '\n' <= c <= '\r' || '\U{001C}' <= c <= '\U{001E}' || c == '\U{0085}' || '\U{2028}' <= c <= '\U{2029}'
  }

  predicate IsOneLine(s: string) {
    forall c | c in s :: !IsLineBreak(c)
  }

  function TrimLeft(s: string): string {
    if s != [] && IsSpace(s[0]) then TrimLeft(s[1..]) else s
  }

  function Strip(s: string): string {
    if s == [] then s
    else if IsSpace(s[0]) then Strip(s[1..])
    else if IsSpace(s[|s| - 1]) then Strip(s[..|s| - 1])
    else s
  }

  function Split(s: string, separator: char): seq<string> {
    if s == [] then [[]]
    else if s[0] == separator then [[]] + Split(s[1..], separator)
    else
      var rest := Split(s[1..], separator);
      [[s[0]] + rest[0]] + rest[1..]
  }

  /** The lines of a text.  A carriage return before a line feed leaves an empty line
      more, which the readers of lines skip. */
  function Lines(s: string): seq<string> {
    if s == [] then [[]]
    else if IsLineBreak(s[0]) then [[]] + Lines(s[1..])
    else
      var rest := Lines(s[1..]);
      [[s[0]] + rest[0]] + rest[1..]
  }

  /** The part before the first separator and the part after it. */
  function Partition(s: string, separator: char): (string, string) {
    if s == [] then ([], [])
    else if s[0] == separator then ([], s[1..])
    else
      var rest := Partition(s[1..], separator);
      ([s[0]] + rest.0, rest.1)
  }

  lemma {:induction false} PartitionPlain(s: string, separator: char)
    requires separator !in s
    ensures Partition(s, separator) == (s, [])
  {
    if s != [] {
      assert forall c | c in s[1..] :: c in s;
      PartitionPlain(s[1..], separator);
      assert [s[0]] + s[1..] == s;
    }
  }

  lemma {:induction false} PartitionAt(a: string, b: string, separator: char)
    requires separator !in a
    ensures Partition(a + [separator] + b, separator) == (a, b)
  {
    var s := a + [separator] + b;
    if a == [] {
      assert s[1..] == b;
    } else {
      assert forall c | c in a[1..] :: c in a;
      PartitionAt(a[1..], b, separator);
      assert s[1..] == a[1..] + [separator] + b;
      assert [a[0]] + a[1..] == a;
    }
  }

  lemma {:induction false} SplitPlain(s: string, separator: char)
    requires separator !in s
    ensures Split(s, separator) == [s]
  {
    if s != [] {
      assert forall c | c in s[1..] :: c in s;
      SplitPlain(s[1..], separator);
      assert [s[0]] + s[1..] == s;
    }
  }

  lemma {:induction false} SplitAt(a: string, b: string, separator: char)
    requires separator !in a
    ensures Split(a + [separator] + b, separator) == [a] + Split(b, separator)
  {
    var s := a + [separator] + b;
    if a == [] {
      assert s[1..] == b;
    } else {
      assert forall c | c in a[1..] :: c in a;
      SplitAt(a[1..], b, separator);
      assert s[1..] == a[1..] + [separator] + b;
      assert [a[0]] + a[1..] == a;
    }
  }

  lemma {:induction false} LinesPlain(s: string)
    requires IsOneLine(s)
    ensures Lines(s) == [s]
  {
    hide IsLineBreak;
    if s != [] {
      assert forall c | c in s[1..] :: c in s;
      LinesPlain(s[1..]);
      assert [s[0]] + s[1..] == s;
    }
  }

  lemma {:induction false} LinesAt(a: string, b: string)
    requires IsOneLine(a)
    ensures Lines(a + ['\n'] + b) == [a] + Lines(b)
  {
    hide IsOneLine;
    var s := a + ['\n'] + b;
    if a == [] {
      assert s[1..] == b;
    } else {
      OneLineTail(a);
      LinesAt(a[1..], b);
      assert s[1..] == a[1..] + ['\n'] + b;
      assert [a[0]] + a[1..] == a;
    }
  }

  lemma OneLineTail(s: string)
    requires IsOneLine(s) && s != []
    ensures !IsLineBreak(s[0]) && IsOneLine(s[1..])
  {
    hide IsLineBreak;
  }

  lemma {:induction false} LinesAreSingle(text: string)
    ensures forall line | line in Lines(text) :: IsOneLine(line)
  {
    hide IsLineBreak;
    if text != [] {
      LinesAreSingle(text[1..]);
      var rest := Lines(text[1..]);
      assert rest[0] in rest;
    }
  }
}
