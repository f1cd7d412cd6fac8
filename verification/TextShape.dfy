// The parts that a text is packed from: what normalising leaves, and where paragraphs and
// sentences are cut.
module TextShape {
  import opened Text
  import opened Chunking
  import opened ChunkOverlap

  // ------------------------------------------------------------------------ normalisation

  predicate NoReturns(s: string) {
    '\r' !in s
  }

  /** Every blank is a space, and no two blanks touch. */
  predicate SpacedOut(s: string) {
    && (forall i | 0 <= i < |s| :: s[i] != '\t' && s[i] != '\U{3000}')
    && (forall i | 0 <= i < |s| - 1 :: s[i] != ' ' || s[i + 1] != ' ')
  }

  predicate NoWideGap(s: string) {
    forall i | 0 <= i < |s| - 2 :: s[i] != '\n' || s[i + 1] != '\n' || s[i + 2] != '\n'
  }

  lemma {:induction false} UnixHasNoReturns(s: string)
    ensures NoReturns(UnixBreaks(s))
    decreases |s|
  {
    if s != "" {
      if s[0] == '\r' && |s| >= 2 && s[1] == '\n' {
        UnixHasNoReturns(s[2..]);
      } else {
        UnixHasNoReturns(s[1..]);
      }
    }
  }

  lemma {:induction false} SpacedOutCons(c: char, s: string)
    requires SpacedOut(s) && c != '\t' && c != '\U{3000}' && (s == "" || c != ' ' || s[0] != ' ')
    ensures SpacedOut([c] + s)
  {
    var t := [c] + s;
    assert forall k | 0 <= k < |s| :: t[k + 1] == s[k];
    forall i | 0 <= i < |t| - 1 ensures t[i] != ' ' || t[i + 1] != ' ' {
      if i > 0 {
        assert t[i] == s[i - 1] && t[i + 1] == s[i];
      }
    }
    forall i | 0 <= i < |t| ensures t[i] != '\t' && t[i] != '\U{3000}' {
      if i > 0 {
        assert t[i] == s[i - 1];
      }
    }
  }

  lemma {:induction false} BlanksAreSpacedOut(s: string)
    ensures SpacedOut(SingleBlanks(s))
    ensures SingleBlanks(s) != "" ==> s != "" && (SingleBlanks(s)[0] == ' ' <==> IsBlank(s[0]))
  {
    hide SpacedOut;
    if s == "" {
      assert SpacedOut("") by { NothingIsSpacedOut(); }
    } else {
      BlanksAreSpacedOut(s[1..]);
      if !IsBlank(s[0]) {
        SpacedOutCons(s[0], SingleBlanks(s[1..]));
      } else if |s| < 2 || !IsBlank(s[1]) {
        SpacedOutCons(' ', SingleBlanks(s[1..]));
      }
    }
  }

  lemma NothingIsSpacedOut()
    ensures SpacedOut("")
  {
  }

  lemma NoWideGapCons(c: char, s: string)
    requires NoWideGap(s) && !(c == '\n' && |s| >= 2 && s[0] == '\n' && s[1] == '\n')
    ensures NoWideGap([c] + s)
  {
    var t := [c] + s;
    forall i | 0 <= i < |t| - 2 ensures t[i] != '\n' || t[i + 1] != '\n' || t[i + 2] != '\n' {
      if i > 0 {
        assert t[i] == s[i - 1] && t[i + 1] == s[i] && t[i + 2] == s[i + 1];
      }
    }
  }

  lemma ThreeBreaks(s: string)
    ensures |s| >= 3 && s[..3] == "\n\n\n" <==> |s| >= 3 && s[0] == '\n' && s[1] == '\n' && s[2] == '\n'
  {
    if |s| >= 3 {
      assert s[..3] == [s[0], s[1], s[2]];
    }
  }

  /** Only line feeds are removed, and none but where three follow each other. */
  lemma {:induction false} FewHasNoWideGap(s: string)
    ensures NoWideGap(FewBreaks(s))
    ensures FewBreaks(s) == "" <==> s == ""
    ensures s != "" ==> FewBreaks(s)[0] == s[0]
    ensures |FewBreaks(s)| >= 2 && FewBreaks(s)[0] == '\n' && FewBreaks(s)[1] == '\n' ==> |s| >= 2 && s[0] == '\n' && s[1] == '\n'
  {
    hide NoWideGap;
    if s == "" {
      assert NoWideGap("") by { NothingHasNoGap(); }
    } else {
      var rest := s[1..];
      FewHasNoWideGap(rest);
      ThreeBreaks(s);
      if !(|s| >= 3 && s[..3] == "\n\n\n") {
        NoWideGapCons(s[0], FewBreaks(rest));
      }
    }
  }

  lemma NothingHasNoGap()
    ensures NoWideGap("")
  {
  }

  lemma {:induction false} FewIsFrom(s: string)
    ensures NoReturns(s) ==> NoReturns(FewBreaks(s))
    ensures SpacedOut(s) ==> SpacedOut(FewBreaks(s))
  {
    hide SpacedOut;
    if s != "" {
      FewIsFrom(s[1..]);
      FewHasNoWideGap(s[1..]);
      if SpacedOut(s) {
        TailIsSpacedOut(s);
        if !(|s| >= 3 && s[..3] == "\n\n\n") {
          SpacedOutCons(s[0], FewBreaks(s[1..]));
        }
      }
    }
  }

  lemma TailIsSpacedOut(s: string)
    requires SpacedOut(s) && s != ""
    ensures SpacedOut(s[1..]) && s[0] != '\t' && s[0] != '\U{3000}' && (|s| > 1 ==> s[0] != ' ' || s[1] != ' ')
  {
    var t := s[1..];
    assert forall k | 0 <= k < |t| :: t[k] == s[k + 1];
  }

  lemma {:induction false} BlanksHaveNoReturns(s: string)
    requires NoReturns(s)
    ensures NoReturns(SingleBlanks(s))
  {
    if s != "" {
      assert s[0] in s && forall c | c in s[1..] :: c in s;
      BlanksHaveNoReturns(s[1..]);
    }
  }

  /** The text is a part of the other one. */
  predicate PartOf(s: string, whole: string) {
    exists i: nat, j: nat :: i <= j <= |whole| && s == whole[i..j]
  }

  lemma PartOfPart(s: string, whole: string, from: nat, to: nat)
    requires from <= to <= |whole| && PartOf(s, whole[from..to])
    ensures PartOf(s, whole)
  {
    var i: nat, j: nat :| i <= j <= to - from && s == whole[from..to][i..j];
    var part := whole[from..to];
    var a: nat, b: nat := from + i, from + j;
    assert b <= |whole| && |whole[a..b]| == |s|;
    forall k | 0 <= k < |s| ensures s[k] == whole[a..b][k] {
      assert s[k] == part[i + k] && part[i + k] == whole[a + k];
    }
    assert s == whole[a..b];
  }

  lemma Itself(s: string)
    ensures PartOf(s, s)
  {
    var i: nat, j: nat := 0, |s|;
    assert s[i..j] == s;
  }

  lemma {:induction false} StripIsPart(s: string)
    ensures PartOf(Strip(s), s)
    decreases |s|
  {
    hide IsSpace, PartOf;
    Itself(s);
    if s != "" {
      if IsSpace(s[0]) {
        StripIsPart(s[1..]);
        assert s[1..] == s[1..|s|];
        PartOfPart(Strip(s), s, 1, |s|);
      } else if IsSpace(s[|s| - 1]) {
        StripIsPart(s[..|s| - 1]);
        assert s[..|s| - 1] == s[0..|s| - 1];
        PartOfPart(Strip(s), s, 0, |s| - 1);
      }
    }
  }

  lemma PartKeepsShape(s: string, whole: string)
    requires PartOf(s, whole) && NoReturns(whole) && SpacedOut(whole) && NoWideGap(whole)
    ensures NoReturns(s) && SpacedOut(s) && NoWideGap(s)
  {
    var i: nat, j: nat :| i <= j <= |whole| && s == whole[i..j];
    assert forall k | 0 <= k < |s| :: s[k] == whole[i + k];
  }

  /** A normalised text has line feeds only, single spaces for blanks, at most one blank line
      at a time, and nothing blank at its ends. */
  lemma NormalizedShape(text: string)
    ensures var s := Normalize(text); NoReturns(s) && SpacedOut(s) && NoWideGap(s) && (s == "" || Trimmed(s))
  {
    hide NoReturns, SpacedOut, NoWideGap, Trimmed, UnixBreaks, SingleBlanks, FewBreaks, PartOf;
    var unix := UnixBreaks(text);
    var single := SingleBlanks(unix);
    var few := FewBreaks(single);
    UnixHasNoReturns(text);
    BlanksHaveNoReturns(unix);
    BlanksAreSpacedOut(unix);
    FewIsFrom(single);
    FewHasNoWideGap(single);
    StripIsPart(few);
    PartKeepsShape(Strip(few), few);
    StripTrims(few);
  }

  /** Line ends of all three kinds become line feeds, one each. */
  lemma LineEndsAre(s: string)
    ensures UnixBreaks("\r\n" + s) == "\n" + UnixBreaks(s) && UnixBreaks("\n" + s) == "\n" + UnixBreaks(s)
    ensures s == "" || s[0] != '\n' ==> UnixBreaks("\r" + s) == "\n" + UnixBreaks(s)
  {
    assert ("\r\n" + s)[2..] == s && ("\n" + s)[1..] == s && ("\r" + s)[1..] == s;
  }

  /** A limit cuts a text in two parts, counted from its end when the limit is negative. */
  lemma SlicesAre(s: string, i: int)
    ensures Until(s, i) + From(s, i) == s
    ensures i >= 0 ==> |Until(s, i)| == if i < |s| then i else |s|
    ensures i < 0 ==> |From(s, i)| == if -i < |s| then -i else |s|
  {
  }

  // ------------------------------------------------------------------- paragraphs, sentences

  function WithBlankLines(parts: seq<string>): string {
    if parts == [] then "" else if |parts| == 1 then parts[0] else parts[0] + "\n\n" + WithBlankLines(parts[1..])
  }

  lemma BlankLineFirst(parts: seq<string>)
    requires parts != []
    ensures WithBlankLines([""] + parts) == "\n\n" + WithBlankLines(parts)
  {
    assert ([""] + parts)[1..] == parts;
    assert "" + "\n\n" == "\n\n";
  }

  lemma CharFirst(c: char, parts: seq<string>)
    requires parts != []
    ensures WithBlankLines([[c] + parts[0]] + parts[1..]) == [c] + WithBlankLines(parts)
  {
    var all := [[c] + parts[0]] + parts[1..];
    assert all[1..] == parts[1..];
    if |parts| > 1 {
      var rest := WithBlankLines(parts[1..]);
      assert [c] + (parts[0] + "\n\n" + rest) == ([c] + parts[0]) + "\n\n" + rest;
    }
  }

  lemma {:induction false} ParagraphsJoin(text: string)
    ensures Paragraphs(text) != [] && WithBlankLines(Paragraphs(text)) == text
    decreases |text|
  {
    hide WithBlankLines;
    if text == "" {
      OneParagraph();
    } else if |text| >= 2 && text[0] == '\n' && text[1] == '\n' {
      ParagraphsJoin(text[2..]);
      BlankLineFirst(Paragraphs(text[2..]));
      assert text == "\n\n" + text[2..];
    } else {
      ParagraphsJoin(text[1..]);
      CharFirst(text[0], Paragraphs(text[1..]));
      assert [text[0]] + text[1..] == text;
    }
  }

  lemma OneParagraph()
    ensures Paragraphs("") == [""] && WithBlankLines([""]) == ""
  {
  }

  /** Paragraphs are cut at blank lines and nowhere else. */
  lemma ParagraphsAreCut(text: string)
    ensures Paragraphs(text) != [] && WithBlankLines(Paragraphs(text)) == text
    ensures forall p | p in Paragraphs(text) :: NoBlankLine(p)
  {
    hide Paragraphs, WithBlankLines, NoBlankLine;
    ParagraphsJoin(text);
    ParagraphsHaveNone(text);
  }

  predicate Mark(c: char) {
    c in "\U{3002}\U{FF01}\U{FF1F}!?"
  }

  lemma MarkIff(c: char)
    ensures EndsSentence(c) <==> Mark(c)
  {
    var m := "\U{3002}\U{FF01}\U{FF1F}!?";
    assert m[0] == '\U{3002}' && m[1] == '\U{FF01}' && m[2] == '\U{FF1F}' && m[3] == '!' && m[4] == '?';
  }

  /** No mark but at the end. */
  predicate MarkedAtEnd(s: string) {
    forall i | 0 <= i < |s| - 1 :: !Mark(s[i])
  }

  predicate MarkLast(s: string) {
    s != "" && Mark(s[|s| - 1])
  }

  /** Every sentence but the last ends with a mark. */
  predicate MarksBetween(sentences: seq<string>) {
    && sentences != []
    && (forall i | 0 <= i < |sentences| - 1 :: MarkLast(sentences[i]))
    && !MarkLast(sentences[|sentences| - 1])
  }

  lemma MarkedLonger(c: char, s: string)
    requires MarkedAtEnd(s) && !Mark(c)
    ensures MarkedAtEnd([c] + s) && MarkLast([c] + s) == MarkLast(s)
  {
    hide Mark;
    var first := [c] + s;
    assert forall i | 0 <= i < |s| :: first[i + 1] == s[i];
    if s != "" {
      assert first[|first| - 1] == s[|s| - 1];
    }
  }

  lemma MarksBetweenCons(first: string, rest: seq<string>)
    requires MarkLast(first) && MarksBetween(rest)
    ensures MarksBetween([first] + rest)
  {
    hide MarkLast;
    var all := [first] + rest;
    assert forall i | 0 <= i < |rest| :: all[i + 1] == rest[i];
    forall i | 0 <= i < |all| - 1 ensures MarkLast(all[i]) {
      if i > 0 {
        assert all[i] == rest[i - 1];
      }
    }
  }

  lemma MarksBetweenLonger(first: string, rest: seq<string>)
    requires MarksBetween(rest) && MarkLast(first) == MarkLast(rest[0])
    ensures MarksBetween([first] + rest[1..])
  {
    hide MarkLast;
    var all := [first] + rest[1..];
    assert forall i | 1 <= i < |rest| :: all[i] == rest[i];
  }

  lemma {:induction false} MarksAreLast(text: string)
    ensures MarksBetween(Sentences(text)) && forall s | s in Sentences(text) :: MarkedAtEnd(s)
  {
    hide Mark, MarksBetween, MarkLast, MarkedAtEnd, EndsSentence;
    if text == "" {
      NoMark();
    } else {
      MarkIff(text[0]);
      MarksAreLast(text[1..]);
      var rest := Sentences(text[1..]);
      assert rest[0] in rest;
      if EndsSentence(text[0]) {
        OneMark(text[0]);
        MarksBetweenCons([text[0]], rest);
      } else {
        MarkedLonger(text[0], rest[0]);
        MarksBetweenLonger([text[0]] + rest[0], rest);
      }
    }
  }

  lemma NoMark()
    ensures MarksBetween([""]) && MarkedAtEnd("")
  {
  }

  lemma OneMark(c: char)
    requires Mark(c)
    ensures MarkLast([c]) && MarkedAtEnd([c])
  {
  }

  /** A paragraph is cut after every mark and nowhere else: the sentences make it up, every
      one but the last ends with a mark, and none has a mark before its end. */
  lemma SentencesAreCut(text: string)
    ensures Sentences(text) != [] && Joined(Sentences(text)) == text && MarksBetween(Sentences(text))
    ensures forall s | s in Sentences(text) :: MarkedAtEnd(s)
  {
    hide Sentences, Joined, Mark, MarkedAtEnd;
    SentencesJoin(text);
    MarksAreLast(text);
  }

  /** A stripped tail that is empty leaves no blank line in front, and nothing left over is
      no chunk. */
  lemma EmptyEndsAre(sentence: string, chunks: seq<string>)
    ensures Resume("", sentence) == sentence && Flush(Packing(chunks, "")) == chunks
    ensures sentence != "" ==> Flush(Packing(chunks, sentence)) == chunks + [sentence]
  {
  }

  /** Blank at the ends of a text are exactly Python's white-space characters, and lines end
      at exactly its line boundaries. */
  lemma BlankCharacters(c: char)
    ensures IsSpace(c) <==> c as int in {
      0x9, 0xA, 0xB, 0xC, 0xD, 0x1C, 0x1D, 0x1E, 0x1F, 0x20, 0x85, 0xA0, 0x1680, 0x2000, 0x2001, 0x2002, 0x2003, 0x2004, 0x2005,
      0x2006, 0x2007, 0x2008, 0x2009, 0x200A, 0x2028, 0x2029, 0x202F, 0x205F, 0x3000}
    ensures IsLineBreak(c) <==> c as int in {0xA, 0xB, 0xC, 0xD, 0x1C, 0x1D, 0x1E, 0x85, 0x2028, 0x2029}
  {
  }

  /** Only a paragraph beyond the limit is cut into sentences. */
  lemma UnitsAre(paragraph: string, max: int)
    ensures |paragraph| <= max ==> Units(paragraph, max) == [paragraph]
    ensures |paragraph| > max ==> Joined(Units(paragraph, max)) == paragraph && forall s | s in Units(paragraph, max) :: MarkedAtEnd(s)
  {
    SentencesAreCut(paragraph);
  }

  /** The sentences of a text are the stripped, non-empty parts of its stripped, non-empty
      paragraphs. */
  lemma {:induction false} UnitsIn(paragraphs: seq<string>, max: int, s: string)
    ensures s in AllUnits(paragraphs, max) <==>
      s != "" && exists p, u :: p in paragraphs && u in Units(p, max) && s == Strip(u)
  {
    hide Units, Strip;
    if paragraphs != [] {
      StrippedIn(Units(paragraphs[0], max), s);
      UnitsIn(paragraphs[1..], max, s);
      assert paragraphs == [paragraphs[0]] + paragraphs[1..];
    }
  }

  lemma {:induction false} StrippedIn(parts: seq<string>, s: string)
    ensures s in Stripped(parts) <==> s != "" && exists u :: u in parts && s == Strip(u)
  {
    hide Strip;
    if parts != [] {
      var first, rest := parts[0], parts[1..];
      StrippedIn(rest, s);
      assert parts == [first] + rest;
      assert s in Stripped(parts) <==> (s == Strip(first) && s != "") || s in Stripped(rest);
      if s != "" && exists u :: u in parts && s == Strip(u) {
        var u :| u in parts && s == Strip(u);
        assert u == first || u in rest;
      }
    }
  }

  /** So a sentence of a text is a visible stripped part of a paragraph between blank lines,
      the whole of one within the limit or one sentence of a longer one. */
  lemma SentencesOfText(text: string, max: int, s: string)
    ensures s in SentencesOf(text, max) <==>
      s != "" && exists p, u :: p in Paragraphs(Normalize(text)) && Strip(p) != "" && u in Units(Strip(p), max) && s == Strip(u)
  {
    hide Units, Strip, Normalize, Paragraphs;
    var paragraphs := Paragraphs(Normalize(text));
    UnitsIn(Stripped(paragraphs), max, s);
    forall q ensures q in Stripped(paragraphs) <==> q != "" && exists p :: p in paragraphs && q == Strip(p) {
      StrippedIn(paragraphs, q);
    }
  }
}
