// Overlapping text chunks: sentences are packed greedily, each chunk after the first
// resuming with the end of the one before.
module Chunking {
  import opened Text

  // ------------------------------------------------------------------ Python's slices

  /** `s[i:]`, where a negative start counts from the end. */
  function From(s: string, i: int): string {
    if i >= |s| then "" else if i >= 0 then s[i..] else if |s| + i >= 0 then s[|s| + i..] else s
  }

  /** `s[:i]` */
  function Until(s: string, i: int): string {
    if i >= |s| then s else if i >= 0 then s[..i] else if |s| + i >= 0 then s[..|s| + i] else ""
  }

  // -------------------------------------------------------------------- normalisation

  /** Every line ends in a single line feed. */
  function UnixBreaks(s: string): string {
    if s == "" then ""
    else if s[0] != '\r' then [s[0]] + UnixBreaks(s[1..])
    else "\n" + UnixBreaks(if |s| >= 2 && s[1] == '\n' then s[2..] else s[1..])
  }

  predicate IsBlank(c: char) {
    c in {'\t', ' ', '\U{3000}'}
  }

  /** Every run of blanks is one space. */
  function SingleBlanks(s: string): string {
    if s == "" then ""
    else if !IsBlank(s[0]) then [s[0]] + SingleBlanks(s[1..])
    else if |s| >= 2 && IsBlank(s[1]) then SingleBlanks(s[1..])
    else " " + SingleBlanks(s[1..])
  }

  /** No more than two line feeds follow each other. */
  function FewBreaks(s: string): string {
    if s == "" then ""
    else if |s| >= 3 && s[..3] == "\n\n\n" then FewBreaks(s[1..])
    else [s[0]] + FewBreaks(s[1..])
  }

  function Normalize(text: string): string {
    Strip(FewBreaks(SingleBlanks(UnixBreaks(text))))
  }

  // ------------------------------------------------------------------------ sentences

  predicate EndsSentence(c: char) {
    c in {'\U{3002}', '\U{FF01}', '\U{FF1F}', '!', '?'}
  }

  /** The text cut after every sentence mark. */
  function Sentences(text: string): seq<string> {
    if text == "" then [""]
    else
      var rest := Sentences(text[1..]);
      if EndsSentence(text[0]) then [[text[0]]] + rest else [[text[0]] + rest[0]] + rest[1..]
  }

  /** The text between blank lines. */
  function Paragraphs(text: string): seq<string> {
    if text == "" then [""]
    else if |text| >= 2 && text[0] == '\n' && text[1] == '\n' then [""] + Paragraphs(text[2..])
    else
      var rest := Paragraphs(text[1..]);
      [[text[0]] + rest[0]] + rest[1..]
  }

  function Stripped(parts: seq<string>): seq<string> {
    if parts == [] then []
    else (if Strip(parts[0]) == "" then [] else [Strip(parts[0])]) + Stripped(parts[1..])
  }

  /** A paragraph within the limit is kept whole; a longer one is cut into sentences. */
  function Units(paragraph: string, max: int): seq<string> {
    if |paragraph| > max then Sentences(paragraph) else [paragraph]
  }

  function AllUnits(paragraphs: seq<string>, max: int): seq<string> {
    if paragraphs == [] then [] else Stripped(Units(paragraphs[0], max)) + AllUnits(paragraphs[1..], max)
  }

  /** The sentences of a text, in order. */
  function SentencesOf(text: string, max: int): seq<string> {
    AllUnits(Stripped(Paragraphs(Normalize(text))), max)
  }

  // -------------------------------------------------------------------------- packing

  datatype Packing = Packing(chunks: seq<string>, current: string)

  function Tail(chunk: string, overlap: int): string {
    From(chunk, -overlap)
  }

  function Proposed(current: string, sentence: string): string {
    if current == "" then sentence else Strip(current + "\n\n" + sentence)
  }

  function Resume(tail: string, sentence: string): string {
    if tail == "" then sentence else tail + "\n\n" + sentence
  }

  function Pack(p: Packing, sentence: string, max: int, overlap: int): Packing {
    var proposed := Proposed(p.current, sentence);
    if |proposed| <= max then p.(current := proposed)
    else if p.current != "" then
      Packing(p.chunks + [p.current], Resume(Strip(Tail(p.current, overlap)), sentence))
    else Packing(p.chunks + [Until(sentence, max)], From(sentence, max - overlap))
  }

  function PackAll(p: Packing, sentences: seq<string>, max: int, overlap: int): Packing
    decreases |sentences|
  {
    if sentences == [] then p else PackAll(Pack(p, sentences[0], max, overlap), sentences[1..], max, overlap)
  }

  function Flush(p: Packing): seq<string> {
    if p.current == "" then p.chunks else p.chunks + [p.current]
  }

  /** The chunks before the short ones are dropped. */
  function Packed(text: string, max: int, overlap: int): seq<string> {
    Flush(PackAll(Packing([], ""), SentencesOf(text, max), max, overlap))
  }

  function LongEnough(chunks: seq<string>): seq<string> {
    if chunks == [] then [] else (if |chunks[0]| >= 24 then [chunks[0]] else []) + LongEnough(chunks[1..])
  }

  // ------------------------------------------------------------------------ the loops

  lemma AllUnitsStep(paragraphs: seq<string>, i: nat, max: int)
    requires i <= |paragraphs|
    ensures AllUnits(paragraphs[i..], max) ==
      if i == |paragraphs| then [] else Stripped(Units(paragraphs[i], max)) + AllUnits(paragraphs[i + 1..], max)
  {
    hide Stripped, Units;
    if i < |paragraphs| {
      assert paragraphs[i..][0] == paragraphs[i] && paragraphs[i..][1..] == paragraphs[i + 1..];
    }
  }

  lemma StrippedStep(parts: seq<string>, i: nat)
    requires i <= |parts|
    ensures Stripped(parts[i..]) ==
      if i == |parts| then []
      else (if Strip(parts[i]) == "" then [] else [Strip(parts[i])]) + Stripped(parts[i + 1..])
  {
    hide Strip;
    if i < |parts| {
      assert parts[i..][0] == parts[i] && parts[i..][1..] == parts[i + 1..];
    }
  }

  lemma {:induction false} PackAppend(p: Packing, a: seq<string>, b: seq<string>, max: int, overlap: int)
    ensures PackAll(p, a + b, max, overlap) == PackAll(PackAll(p, a, max, overlap), b, max, overlap)
    decreases |a|
  {
    hide Pack;
    if a == [] {
      assert a + b == b;
    } else {
      assert (a + b)[1..] == a[1..] + b;
      PackAppend(Pack(p, a[0], max, overlap), a[1..], b, max, overlap);
    }
  }

  lemma NothingPacked(text: string, max: int, overlap: int)
    requires Normalize(text) == ""
    ensures LongEnough(Packed(text, max, overlap)) == []
  {
    assert Stripped([""]) == [] by { assert [""][1..] == []; }
  }

  /** The nested loops over paragraphs and their sentences. */
  method ChunkText(text: string, max: int, overlap: int) returns (chunks: seq<string>)
    ensures chunks == LongEnough(Packed(text, max, overlap))
  {
    hide AllUnits, Stripped, Units, PackAll, Pack, Strip, LongEnough, Normalize;
    var normal := Normalize(text);
    if normal == "" {
      NothingPacked(text, max, overlap);
      return [];
    }
    var paragraphs := Stripped(Paragraphs(normal));
    ghost var start := Packing([], "");
    ghost var goal := PackAll(start, AllUnits(paragraphs, max), max, overlap);
    var p := Packing([], "");
    assert paragraphs[0..] == paragraphs;
    for i := 0 to |paragraphs|
      invariant goal == PackAll(p, AllUnits(paragraphs[i..], max), max, overlap)
    {
      AllUnitsStep(paragraphs, i, max);
      var sentences := Units(paragraphs[i], max);
      ghost var rest := AllUnits(paragraphs[i + 1..], max);
      PackAppend(p, Stripped(sentences), rest, max, overlap);
      p := PackSentences(p, sentences, max, overlap);
    }
    AllUnitsStep(paragraphs, |paragraphs|, max);
    assert PackAll(p, [], max, overlap) == p by { PackNothing(p, max, overlap); }
    chunks := LongEnough(Flush(p));
  }

  lemma PackNothing(p: Packing, max: int, overlap: int)
    ensures PackAll(p, [], max, overlap) == p
  {
  }

  lemma PackStep(p: Packing, parts: seq<string>, i: nat, max: int, overlap: int)
    requires i <= |parts|
    ensures PackAll(p, Stripped(parts[i..]), max, overlap) ==
      if i == |parts| then p
      else PackAll(if Strip(parts[i]) == "" then p else Pack(p, Strip(parts[i]), max, overlap),
                   Stripped(parts[i + 1..]), max, overlap)
  {
    hide Strip, Pack, Stripped;
    StrippedStep(parts, i);
    if i < |parts| && Strip(parts[i]) != "" {
      var sentences := [Strip(parts[i])] + Stripped(parts[i + 1..]);
      assert sentences[0] == Strip(parts[i]) && sentences[1..] == Stripped(parts[i + 1..]);
    } else {
      assert [] + Stripped(parts[i + if i < |parts| then 1 else 0..]) == Stripped(parts[i + if i < |parts| then 1 else 0..]);
    }
  }

  method PackSentences(before: Packing, sentences: seq<string>, max: int, overlap: int) returns (p: Packing)
    ensures p == PackAll(before, Stripped(sentences), max, overlap)
  {
    hide Strip, PackAll, Stripped;
    var chunks, current := before.chunks, before.current;
    assert sentences[0..] == sentences;
    for i := 0 to |sentences|
      invariant PackAll(before, Stripped(sentences), max, overlap)
             == PackAll(Packing(chunks, current), Stripped(sentences[i..]), max, overlap)
    {
      PackStep(Packing(chunks, current), sentences, i, max, overlap);
      var sentence := Strip(sentences[i]);
      if sentence == "" {
        continue;
      }
      var proposed := if current != "" then Strip(current + "\n\n" + sentence) else sentence;
      if |proposed| <= max {
        current := proposed;
        continue;
      }
      if current != "" {
        chunks := chunks + [current];
        var tail := Strip(From(current, -overlap));
        current := if tail != "" then tail + "\n\n" + sentence else sentence;
      } else {
        chunks := chunks + [Until(sentence, max)];
        current := From(sentence, max - overlap);
      }
    }
    PackStep(Packing(chunks, current), sentences, |sentences|, max, overlap);
    p := Packing(chunks, current);
  }

  // ------------------------------------------------------------------ nothing is cut out

  function Joined(parts: seq<string>): string {
    if parts == [] then "" else parts[0] + Joined(parts[1..])
  }

  /** Cutting into sentences loses no character. */
  lemma {:induction false} SentencesJoin(text: string)
    ensures Joined(Sentences(text)) == text
  {
    if text == "" {
      assert [""][1..] == [];
      assert Joined([""]) == "" + Joined([]);
    } else {
      SentencesJoin(text[1..]);
      var rest := Sentences(text[1..]);
      if EndsSentence(text[0]) {
        assert ([[text[0]]] + rest)[1..] == rest;
      } else {
        assert ([[text[0]] + rest[0]] + rest[1..])[1..] == rest[1..];
      }
    }
  }

  /** The characters that are not white space, in order. */
  function Ink(s: string): string {
    if s == "" then "" else (if IsSpace(s[0]) then "" else [s[0]]) + Ink(s[1..])
  }

  lemma {:induction false} InkAppend(a: string, b: string)
    ensures Ink(a + b) == Ink(a) + Ink(b)
  {
    hide IsSpace;
    if a == "" {
      assert a + b == b;
    } else {
      assert (a + b)[1..] == a[1..] + b;
      InkAppend(a[1..], b);
    }
  }

  lemma {:induction false} UnixKeepsInk(s: string)
    ensures Ink(UnixBreaks(s)) == Ink(s)
    decreases |s|
  {
    if s != "" {
      if s[0] == '\r' && |s| >= 2 && s[1] == '\n' {
        assert s[1..][1..] == s[2..];
        UnixKeepsInk(s[2..]);
        InkAppend("\n", UnixBreaks(s[2..]));
      } else {
        UnixKeepsInk(s[1..]);
        InkAppend(if s[0] == '\r' then "\n" else [s[0]], UnixBreaks(s[1..]));
      }
    }
  }

  lemma {:induction false} BlanksKeepInk(s: string)
    ensures Ink(SingleBlanks(s)) == Ink(s)
  {
    if s != "" {
      BlanksKeepInk(s[1..]);
      InkAppend(if IsBlank(s[0]) then " " else [s[0]], SingleBlanks(s[1..]));
    }
  }

  lemma {:induction false} BreaksKeepInk(s: string)
    ensures Ink(FewBreaks(s)) == Ink(s)
  {
    if s != "" {
      BreaksKeepInk(s[1..]);
      InkAppend([s[0]], FewBreaks(s[1..]));
      assert |s| >= 3 && s[..3] == "\n\n\n" ==> s[0] == s[..3][0] == '\n';
    }
  }

  lemma {:induction false} StripKeepsInk(s: string)
    ensures Ink(Strip(s)) == Ink(s)
    decreases |s|
  {
    hide IsSpace;
    if s != "" {
      if IsSpace(s[0]) {
        StripKeepsInk(s[1..]);
      } else if IsSpace(s[|s| - 1]) {
        var init, last := s[..|s| - 1], [s[|s| - 1]];
        StripKeepsInk(init);
        InkAppend(init, last);
        assert init + last == s && last[1..] == "";
      }
    }
  }

  /** Normalising a text changes white space only. */
  lemma NormalizeKeepsInk(text: string)
    ensures Ink(Normalize(text)) == Ink(text)
  {
    hide Ink;
    UnixKeepsInk(text);
    BlanksKeepInk(UnixBreaks(text));
    BreaksKeepInk(SingleBlanks(UnixBreaks(text)));
    StripKeepsInk(FewBreaks(SingleBlanks(UnixBreaks(text))));
  }

  // ---------------------------------------------------------------------- white space

  /** Begins and ends visibly. */
  predicate Trimmed(s: string) {
    s != "" && !IsSpace(s[0]) && !IsSpace(s[|s| - 1])
  }

  predicate EndsVisibly(s: string) {
    s == "" || !IsSpace(s[|s| - 1])
  }

  lemma {:induction false} StripTrims(s: string)
    ensures Strip(s) == "" || Trimmed(Strip(s))
    ensures |Strip(s)| <= |s|
    decreases |s|
  {
    if s != "" {
      if IsSpace(s[0]) {
        StripTrims(s[1..]);
      } else if IsSpace(s[|s| - 1]) {
        StripTrims(s[..|s| - 1]);
      }
    }
  }

  lemma {:induction false} StrippedAreTrimmed(parts: seq<string>)
    ensures forall s | s in Stripped(parts) :: Trimmed(s)
  {
    if parts != [] {
      StripTrims(parts[0]);
      StrippedAreTrimmed(parts[1..]);
    }
  }

  lemma {:induction false} UnitsAreTrimmed(paragraphs: seq<string>, max: int)
    ensures forall s | s in AllUnits(paragraphs, max) :: Trimmed(s)
  {
    if paragraphs != [] {
      StrippedAreTrimmed(Units(paragraphs[0], max));
      UnitsAreTrimmed(paragraphs[1..], max);
    }
  }

  /** A text that ends visibly is stripped on the left only. */
  lemma {:induction false} StripLeft(s: string)
    requires s != "" && EndsVisibly(s)
    ensures Strip(s) == TrimLeft(s) && TrimLeft(s) != "" && EndsVisibly(TrimLeft(s)) && |TrimLeft(s)| <= |s|
  {
    if IsSpace(s[0]) {
      StripLeft(s[1..]);
    }
  }

  lemma {:induction false} TrimLeftAppend(a: string, b: string)
    requires a != "" && EndsVisibly(a)
    ensures TrimLeft(a + b) == TrimLeft(a) + b
  {
    assert (a + b)[1..] == a[1..] + b;
    if IsSpace(a[0]) {
      TrimLeftAppend(a[1..], b);
    }
  }

  lemma {:induction false} StripIsPrefix(a: string, b: string)
    ensures Strip(a) <= TrimLeft(a + b)
    decreases |a|
  {
    if a != "" {
      if IsSpace(a[0]) {
        assert (a + b)[1..] == a[1..] + b;
        StripIsPrefix(a[1..], b);
      } else if IsSpace(a[|a| - 1]) {
        assert a + b == a[..|a| - 1] + ([a[|a| - 1]] + b);
        StripIsPrefix(a[..|a| - 1], [a[|a| - 1]] + b);
      }
    }
  }

  // ------------------------------------------------------------------------- coverage

  predicate At(text: string, i: nat, s: string) {
    i + |s| <= |text| && text[i..i + |s|] == s
  }

  predicate Lies(s: string, text: string) {
    exists i: nat | i <= |text| :: At(text, i, s)
  }

  lemma LiesInside(s: string, before: string, after: string)
    ensures Lies(s, before + s + after)
  {
    assert At(before + s + after, |before|, s);
  }

  lemma LiesInLonger(s: string, text: string, before: string, after: string)
    requires Lies(s, text)
    ensures Lies(s, before + text + after)
  {
    var i: nat :| i <= |text| && At(text, i, s);
    assert At(before + text + after, |before| + i, s);
  }

  /** Stripping a text keeps every trimmed part of it. */
  lemma {:induction false} LiesInTrimmed(s: string, text: string)
    requires Trimmed(s) && Lies(s, text)
    ensures Lies(s, TrimLeft(text))
  {
    if text != "" && IsSpace(text[0]) {
      var i: nat :| i <= |text| && At(text, i, s);
      assert i > 0 by { assert s[0] == text[i..i + |s|][0]; }
      assert At(text[1..], i - 1, s);
      LiesInTrimmed(s, text[1..]);
    }
  }

  /** Some chunk, or the one being filled, holds the whole of `s`. */
  ghost predicate Held(p: Packing, s: string) {
    (exists c :: c in p.chunks && Lies(s, c)) || Lies(s, p.current)
  }

  lemma PackHolds(p: Packing, sentence: string, max: int, overlap: int, s: string)
    requires Trimmed(sentence) && EndsVisibly(p.current) && Trimmed(s) && Held(p, s)
    ensures Held(Pack(p, sentence, max, overlap), s)
  {
    hide Strip, TrimLeft, Lies, Tail;
    var q := Pack(p, sentence, max, overlap);
    if c :| c in p.chunks && Lies(s, c) {
      assert c in q.chunks;
    } else if p.current == "" {
      NothingLies(s);
    } else if |Proposed(p.current, sentence)| <= max {
      var joined := p.current + "\n\n" + sentence;
      assert joined == "" + p.current + ("\n\n" + sentence);
      LiesInLonger(s, p.current, "", "\n\n" + sentence);
      LiesInTrimmed(s, joined);
      StripLeft(joined);
    } else {
      assert p.current in q.chunks;
    }
  }

  lemma NothingLies(s: string)
    requires s != ""
    ensures !Lies(s, "")
  {
  }

  /** The first sentence of all, when it is longer than the limit. */
  predicate Oversized(p: Packing, sentence: string, max: int) {
    p.current == "" && |sentence| > max
  }

  lemma PackHoldsNew(p: Packing, sentence: string, max: int, overlap: int)
    requires Trimmed(sentence) && EndsVisibly(p.current) && !Oversized(p, sentence, max)
    ensures Held(Pack(p, sentence, max, overlap), sentence)
  {
    hide Strip, TrimLeft, Lies, Tail;
    var q := Pack(p, sentence, max, overlap);
    LiesInside(sentence, "", "");
    assert "" + sentence + "" == sentence;
    if p.current != "" {
      var joined := p.current + "\n\n" + sentence;
      LiesInside(sentence, p.current + "\n\n", "");
      assert p.current + "\n\n" + sentence + "" == joined;
      LiesInTrimmed(sentence, joined);
      StripLeft(joined);
      var tail := Strip(Tail(p.current, overlap));
      LiesInside(sentence, tail + "\n\n", "");
      assert tail + "\n\n" + sentence + "" == tail + "\n\n" + sentence;
    }
  }

  /** The two pieces of an oversized first sentence share exactly `overlap` characters and
      together are the whole sentence. */
  predicate CutInTwo(sentence: string, first: string, second: string, overlap: nat) {
    && overlap <= |first| && overlap <= |second|
    && first[|first| - overlap..] == second[..overlap]
    && sentence == first + second[overlap..]
  }

  lemma OversizedIsCut(p: Packing, sentence: string, max: int, overlap: int)
    requires 1 <= overlap < max && Oversized(p, sentence, max)
    ensures var q := Pack(p, sentence, max, overlap);
      |q.chunks| == |p.chunks| + 1 && CutInTwo(sentence, q.chunks[|p.chunks|], q.current, overlap)
  {
    var q := Pack(p, sentence, max, overlap);
    var first, second := q.chunks[|p.chunks|], q.current;
    assert first == sentence[..max] && second == sentence[max - overlap..];
    assert first[|first| - overlap..] == sentence[max - overlap..max] == second[..overlap];
    assert second[overlap..] == sentence[max..];
  }

  // ---------------------------------------------------------------------------- bound

  predicate Within(p: Packing, bound: nat) {
    |p.current| <= bound && forall c | c in p.chunks :: |c| <= bound
  }

  lemma PackIsWithin(p: Packing, sentence: string, max: int, overlap: int, longest: nat, bound: nat)
    requires 1 <= overlap < max && max <= bound && overlap + 2 + longest <= bound
    requires Within(p, bound) && |sentence| <= longest
    ensures Within(Pack(p, sentence, max, overlap), bound)
  {
    hide Strip;
    StripTrims(Tail(p.current, overlap));
  }

  /** What packing keeps: the chunk being filled ends visibly and is never empty again. */
  lemma PackEndsVisibly(p: Packing, sentence: string, max: int, overlap: int)
    requires Trimmed(sentence) && EndsVisibly(p.current)
    requires 1 <= overlap < max || p.current != "" || |sentence| <= max
    ensures var q := Pack(p, sentence, max, overlap); q.current != "" && EndsVisibly(q.current)
  {
    hide Strip, TrimLeft, Tail;
    if p.current != "" {
      StripLeft(p.current + "\n\n" + sentence);
    }
  }

  // ------------------------------------------------------------------------- theorems

  lemma {:induction false} PackAllHolds(p: Packing, sentences: seq<string>, max: int, overlap: int, s: string)
    requires 1 <= overlap < max && EndsVisibly(p.current) && Trimmed(s)
    requires forall t | t in sentences :: Trimmed(t)
    requires Held(p, s)
    ensures Held(PackAll(p, sentences, max, overlap), s)
    decreases |sentences|
  {
    hide Pack, Held, Trimmed, EndsVisibly;
    if sentences != [] {
      assert sentences[0] in sentences;
      PackHolds(p, sentences[0], max, overlap, s);
      PackEndsVisibly(p, sentences[0], max, overlap);
      PackAllHolds(Pack(p, sentences[0], max, overlap), sentences[1..], max, overlap, s);
    }
  }

  lemma {:induction false} EverySentenceHeld(p: Packing, sentences: seq<string>, max: int, overlap: int, k: nat)
    requires 1 <= overlap < max && EndsVisibly(p.current)
    requires forall t | t in sentences :: Trimmed(t)
    requires k < |sentences| && (|sentences[k]| <= max || k > 0 || p.current != "")
    ensures Held(PackAll(p, sentences, max, overlap), sentences[k])
    decreases |sentences|
  {
    hide Pack, Held, Trimmed, EndsVisibly;
    assert sentences[0] in sentences && sentences[k] in sentences;
    var next := Pack(p, sentences[0], max, overlap);
    PackEndsVisibly(p, sentences[0], max, overlap);
    if k == 0 {
      PackHoldsNew(p, sentences[0], max, overlap);
      PackAllHolds(next, sentences[1..], max, overlap, sentences[0]);
    } else {
      EverySentenceHeld(next, sentences[1..], max, overlap, k - 1);
    }
  }

  lemma HeldInFlush(p: Packing, s: string)
    requires Held(p, s) && s != ""
    ensures exists c :: c in Flush(p) && Lies(s, c)
  {
    hide Lies;
    if c :| c in p.chunks && Lies(s, c) {
      assert c in Flush(p);
    } else {
      NothingLies(s);
      assert p.current in Flush(p);
    }
  }

  /** Every sentence lies whole inside some chunk, unless it is the first and longer than
      the limit. */
  lemma SentencesAreCovered(text: string, max: int, overlap: int, k: nat)
    requires 1 <= overlap < max
    requires var sentences := SentencesOf(text, max);
      k < |sentences| && (k > 0 || |sentences[0]| <= max)
    ensures exists c :: c in Packed(text, max, overlap) && Lies(SentencesOf(text, max)[k], c)
  {
    hide Lies, Trimmed, AllUnits, Stripped, PackAll;
    var sentences := SentencesOf(text, max);
    UnitsAreTrimmed(Stripped(Paragraphs(Normalize(text))), max);
    var s := sentences[k];
    assert s in sentences;
    assert s != "" by { TrimmedIsVisible(s); }
    EverySentenceHeld(Packing([], ""), sentences, max, overlap, k);
    HeldInFlush(PackAll(Packing([], ""), sentences, max, overlap), s);
  }

  lemma TrimmedIsVisible(s: string)
    requires Trimmed(s)
    ensures s != "" && EndsVisibly(s)
  {
  }

  lemma {:induction false} LongEnoughKeeps(chunks: seq<string>, c: string)
    ensures c in LongEnough(chunks) <==> c in chunks && |c| >= 24
  {
    if chunks != [] {
      LongEnoughKeeps(chunks[1..], c);
    }
  }

  /** The final filter costs no sentence of 24 characters or more. */
  lemma LongSentencesSurvive(text: string, max: int, overlap: int, k: nat)
    requires 1 <= overlap < max
    requires var sentences := SentencesOf(text, max);
      k < |sentences| && |sentences[k]| >= 24 && (k > 0 || |sentences[0]| <= max)
    ensures exists c :: c in LongEnough(Packed(text, max, overlap))
              && Lies(SentencesOf(text, max)[k], c)
  {
    hide AllUnits, Stripped, Packed, LongEnough;
    SentencesAreCovered(text, max, overlap, k);
    var s := SentencesOf(text, max)[k];
    var c :| c in Packed(text, max, overlap) && Lies(s, c);
    LongEnoughKeeps(Packed(text, max, overlap), c);
  }

  /** An oversized first sentence: its two overlapping pieces are the first chunk and,
      up to leading blanks, a part of some chunk. */
  lemma OversizedIsCovered(text: string, max: int, overlap: int)
    requires 1 <= overlap < max
    requires var sentences := SentencesOf(text, max);
      sentences != [] && |sentences[0]| > max
    ensures exists first, second ::
        && CutInTwo(SentencesOf(text, max)[0], first, second, overlap)
        && first in Packed(text, max, overlap)
        && (exists c :: c in Packed(text, max, overlap) && Lies(TrimLeft(second), c))
  {
    hide Lies, Trimmed, AllUnits, Stripped, PackAll, TrimLeft, Strip;
    var start := Packing([], "");
    var sentences := SentencesOf(text, max);
    UnitsAreTrimmed(Stripped(Paragraphs(Normalize(text))), max);
    var s := sentences[0];
    assert s in sentences;
    TrimmedIsVisible(s);
    OversizedIsCut(start, s, max, overlap);
    PackEndsVisibly(start, s, max, overlap);
    var next := Pack(start, s, max, overlap);
    var end := PackAll(next, sentences[1..], max, overlap);
    assert end == PackAll(start, sentences, max, overlap) by { PackFirst(start, sentences, max, overlap); }
    var first, second := next.chunks[0], next.current;
    ChunksAreKept(next, sentences[1..], max, overlap);
    assert first == end.chunks[0];
    assert first in Flush(end);
    TrimmedPiece(second);
    assert Held(next, TrimLeft(second));
    PackAllHolds(next, sentences[1..], max, overlap, TrimLeft(second));
    HeldInFlush(end, TrimLeft(second));
  }

  lemma PackFirst(p: Packing, sentences: seq<string>, max: int, overlap: int)
    requires sentences != []
    ensures PackAll(p, sentences, max, overlap) == PackAll(Pack(p, sentences[0], max, overlap), sentences[1..], max, overlap)
  {
  }

  lemma {:induction false} TrimmedPiece(piece: string)
    requires piece != "" && EndsVisibly(piece)
    ensures Trimmed(TrimLeft(piece)) && Lies(TrimLeft(piece), piece)
  {
    if IsSpace(piece[0]) {
      TrimmedPiece(piece[1..]);
      LiesInLonger(TrimLeft(piece), piece[1..], [piece[0]], "");
      assert [piece[0]] + piece[1..] + "" == piece;
    } else {
      assert At(piece, 0, piece);
    }
  }

  lemma {:induction false} ChunksAreKept(p: Packing, sentences: seq<string>, max: int, overlap: int)
    ensures p.chunks <= PackAll(p, sentences, max, overlap).chunks
    decreases |sentences|
  {
    hide Strip, Tail;
    if sentences != [] {
      ChunksAreKept(Pack(p, sentences[0], max, overlap), sentences[1..], max, overlap);
    }
  }

  lemma {:induction false} PackAllWithin(p: Packing, sentences: seq<string>, max: int, overlap: int, longest: nat, bound: nat)
    requires 1 <= overlap < max && max <= bound && overlap + 2 + longest <= bound
    requires Within(p, bound) && forall t | t in sentences :: |t| <= longest
    ensures Within(PackAll(p, sentences, max, overlap), bound)
    decreases |sentences|
  {
    hide Pack, Within;
    if sentences != [] {
      assert sentences[0] in sentences;
      PackIsWithin(p, sentences[0], max, overlap, longest, bound);
      PackAllWithin(Pack(p, sentences[0], max, overlap), sentences[1..], max, overlap, longest, bound);
    }
  }

  /** No chunk is longer than the limit, or than the overlap, a blank line and the longest
      sentence together. */
  lemma ChunksAreBounded(text: string, max: int, overlap: int, longest: nat, c: string)
    requires 1 <= overlap < max && c in Packed(text, max, overlap)
    requires forall s | s in SentencesOf(text, max) :: |s| <= longest
    ensures |c| <= max || |c| <= overlap + 2 + longest
  {
    hide AllUnits, Stripped, PackAll;
    var bound := if max > overlap + 2 + longest then max else overlap + 2 + longest;
    PackAllWithin(Packing([], ""), SentencesOf(text, max), max, overlap, longest, bound);
  }
}
