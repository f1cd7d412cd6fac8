// How each chunk goes on from the one before, with and without overlap.
module ChunkOverlap {
  import opened Text
  import opened Chunking
  import opened ChunkLimit

  /** `next` goes on with the last `overlap` characters of `chunk`, up to blanks. */
  predicate Continues(chunk: string, next: string, overlap: int) {
    Strip(Tail(chunk, overlap)) <= TrimLeft(next)
  }

  /** From the chunk at `start` on, every chunk is continued by the next one, and the last
      by the one being filled. */
  ghost predicate Continuous(p: Packing, overlap: int, start: nat) {
    && (forall i | start < i < |p.chunks| :: Continues(p.chunks[i - 1], p.chunks[i], overlap))
    && (|p.chunks| > start ==> p.current != "" && Continues(p.chunks[|p.chunks| - 1], p.current, overlap))
  }

  lemma PackContinues(p: Packing, sentence: string, max: int, overlap: int, start: nat)
    requires (1 <= overlap < max || p.current != "") && Trimmed(sentence) && EndsVisibly(p.current)
    requires Continuous(p, overlap, start)
    ensures Continuous(Pack(p, sentence, max, overlap), overlap, start)
  {
    hide Strip, TrimLeft, Tail;
    if p.current == "" {
      if |sentence| > max {
        CutContinues(sentence, max, overlap);
      }
    } else if |Proposed(p.current, sentence)| <= max {
      var joined := p.current + "\n\n" + sentence;
      StripLeft(joined);
      TrimLeftAppend(p.current, "\n\n" + sentence);
      assert joined == p.current + ("\n\n" + sentence);
      TrimmedOnce(joined);
    } else {
      ResumeContinues(p.current, sentence, overlap);
    }
  }

  lemma CutContinues(sentence: string, max: int, overlap: int)
    requires 1 <= overlap < max < |sentence|
    ensures Continues(Until(sentence, max), From(sentence, max - overlap), overlap)
  {
    hide Strip, TrimLeft;
    var first := sentence[..max];
    assert Tail(first, overlap) == sentence[max - overlap..max];
    assert From(sentence, max - overlap) == Tail(first, overlap) + sentence[max..];
    StripIsPrefix(Tail(first, overlap), sentence[max..]);
  }

  lemma {:induction false} TrimmedOnce(s: string)
    ensures TrimLeft(TrimLeft(s)) == TrimLeft(s)
  {
    if s != "" && IsSpace(s[0]) {
      TrimmedOnce(s[1..]);
    }
  }

  lemma ResumeContinues(chunk: string, sentence: string, overlap: int)
    ensures Continues(chunk, Resume(Strip(Tail(chunk, overlap)), sentence), overlap)
  {
    hide Strip, Tail;
    StripTrims(Tail(chunk, overlap));
  }

  lemma {:induction false} PackAllContinues(p: Packing, sentences: seq<string>, max: int, overlap: int, start: nat)
    requires (1 <= overlap < max || p.current != "") && EndsVisibly(p.current) && Continuous(p, overlap, start)
    requires forall t | t in sentences :: Trimmed(t)
    ensures Continuous(PackAll(p, sentences, max, overlap), overlap, start)
    decreases |sentences|
  {
    hide Pack, Continuous, Trimmed, EndsVisibly;
    if sentences != [] {
      assert sentences[0] in sentences;
      PackContinues(p, sentences[0], max, overlap, start);
      PackEndsVisibly(p, sentences[0], max, overlap);
      PackAllContinues(Pack(p, sentences[0], max, overlap), sentences[1..], max, overlap, start);
    }
  }

  lemma FlushContinues(p: Packing, overlap: int, start: nat, i: nat)
    requires Continuous(p, overlap, start) && start < i < |Flush(p)|
    ensures Continues(Flush(p)[i - 1], Flush(p)[i], overlap)
  {
    hide Continues;
  }

  /** Every chunk resumes with the last `overlap` characters of the one before. */
  lemma ChunksResume(text: string, max: int, overlap: int, i: nat)
    requires 1 <= overlap < max && 0 < i < |Packed(text, max, overlap)|
    ensures Continues(Packed(text, max, overlap)[i - 1], Packed(text, max, overlap)[i], overlap)
  {
    hide SentencesOf, PackAll, Continues, Trimmed;
    var start, sentences := Packing([], ""), SentencesOf(text, max);
    SentencesAreTrimmed(text, max);
    PackAllContinues(start, sentences, max, overlap, 0);
    FlushContinues(PackAll(start, sentences, max, overlap), overlap, 0, i);
  }

  // -------------------------------------------------------------------- without overlap

  /** `next` begins with all of `chunk`, up to blanks. */
  predicate Repeats(chunk: string, next: string) {
    Strip(chunk) <= TrimLeft(next)
  }

  lemma RepeatsIsContinues(chunk: string, next: string)
    ensures Repeats(chunk, next) <==> Continues(chunk, next, 0)
  {
    assert Tail(chunk, 0) == chunk;
  }

  predicate FirstOversized(text: string, max: int) {
    SentencesOf(text, max) != [] && |SentencesOf(text, max)[0]| > max
  }

  /** The packing after the first sentence. */
  lemma AfterFirst(text: string, max: int)
    requires 1 <= max && SentencesOf(text, max) != []
    ensures var sentences := SentencesOf(text, max);
      var s := sentences[0];
      var one := if |s| <= max then Packing([], s) else Packing([s[..max]], s[max..]);
      && Packed(text, max, 0) == Flush(PackAll(one, sentences[1..], max, 0))
      && one.current != "" && EndsVisibly(one.current) && (forall t | t in sentences :: Trimmed(t))
      && Continuous(one, 0, |one.chunks|)
  {
    hide SentencesOf, PackAll, Strip, TrimLeft;
    var sentences := SentencesOf(text, max);
    SentencesAreTrimmed(text, max);
    assert sentences[0] in sentences;
    PackFirst(Packing([], ""), sentences, max, 0);
    var s := sentences[0];
    assert Pack(Packing([], ""), s, max, 0) == if |s| <= max then Packing([], s) else Packing([s[..max]], s[max..]);
  }

  /** Without overlap the slice `[-0:]` is the whole chunk: every chunk begins with all of
      the one before, except where an oversized first sentence was cut in two. */
  lemma NoOverlapRepeatsAll(text: string, max: int, i: nat)
    requires 1 <= max && 0 < i < |Packed(text, max, 0)| && !(i == 1 && FirstOversized(text, max))
    ensures Repeats(Packed(text, max, 0)[i - 1], Packed(text, max, 0)[i])
  {
    hide SentencesOf, PackAll, Continues, Repeats, Trimmed, EndsVisibly, Continuous;
    var sentences := SentencesOf(text, max);
    if sentences == [] {
      PackNothing(Packing([], ""), max, 0);
    } else {
      AfterFirst(text, max);
      var s := sentences[0];
      var one := if |s| <= max then Packing([], s) else Packing([s[..max]], s[max..]);
      PackAllContinues(one, sentences[1..], max, 0, |one.chunks|);
      FlushContinues(PackAll(one, sentences[1..], max, 0), 0, |one.chunks|, i);
      RepeatsIsContinues(Packed(text, max, 0)[i - 1], Packed(text, max, 0)[i]);
    }
  }

  /** The text is the rest of a cut sentence, alone or with more below a blank line. */
  predicate Follows(rest: string, text: string) {
    TrimLeft(text) == TrimLeft(rest) || TrimLeft(rest) + "\n\n" <= TrimLeft(text)
  }

  /** The first chunk is `head`, and the second one follows from `rest`. */
  predicate Started(p: Packing, head: string, rest: string) {
    && p.chunks != [] && p.chunks[0] == head && p.current != "" && EndsVisibly(p.current)
    && Follows(rest, if |p.chunks| == 1 then p.current else p.chunks[1])
  }

  lemma PackStarted(p: Packing, sentence: string, max: int, overlap: int, head: string, rest: string)
    requires Started(p, head, rest) && Trimmed(sentence)
    ensures Started(Pack(p, sentence, max, overlap), head, rest)
  {
    hide Strip, TrimLeft, Tail;
    PackEndsVisibly(p, sentence, max, overlap);
    if |p.chunks| == 1 && |Proposed(p.current, sentence)| <= max {
      var joined := p.current + "\n\n" + sentence;
      StripLeft(joined);
      TrimLeftAppend(p.current, "\n\n" + sentence);
      assert joined == p.current + ("\n\n" + sentence);
      TrimmedOnce(joined);
      assert TrimLeft(p.current) + ("\n\n" + sentence) == TrimLeft(p.current) + "\n\n" + sentence;
    }
  }

  lemma {:induction false} PackAllStarted(p: Packing, sentences: seq<string>, max: int, head: string, rest: string)
    requires Started(p, head, rest) && forall t | t in sentences :: Trimmed(t)
    ensures Started(PackAll(p, sentences, max, 0), head, rest)
    decreases |sentences|
  {
    hide Pack, Started, Trimmed;
    if sentences != [] {
      assert sentences[0] in sentences;
      PackStarted(p, sentences[0], max, 0, head, rest);
      PackAllStarted(Pack(p, sentences[0], max, 0), sentences[1..], max, head, rest);
    }
  }

  /** An oversized first sentence without overlap: the first chunk is its beginning and the
      second one goes on with its rest. */
  lemma NoOverlapCutsFirst(text: string, max: int)
    requires 1 <= max && FirstOversized(text, max)
    ensures var s, chunks := SentencesOf(text, max)[0], Packed(text, max, 0);
      |chunks| >= 2 && chunks[0] == s[..max] && Follows(s[max..], chunks[1])
  {
    hide SentencesOf, PackAll, Trimmed, EndsVisibly, TrimLeft;
    AfterFirst(text, max);
    var sentences := SentencesOf(text, max);
    var s := sentences[0];
    PackAllStarted(Packing([s[..max]], s[max..]), sentences[1..], max, s[..max], s[max..]);
  }

  // ------------------------------------------------------------------ no blank lines inside

  predicate NoBlankLine(s: string) {
    forall i | 0 <= i < |s| - 1 :: s[i] != '\n' || s[i + 1] != '\n'
  }

  lemma PartHasNone(s: string, i: nat, j: nat)
    requires NoBlankLine(s) && i <= j <= |s|
    ensures NoBlankLine(s[i..j])
  {
    var t := s[i..j];
    forall k | 0 <= k < |t| - 1 ensures t[k] != '\n' || t[k + 1] != '\n' {
      assert t[k] == s[i + k] && t[k + 1] == s[i + k + 1];
    }
  }

  lemma ConsHasNone(c: char, s: string)
    requires NoBlankLine(s) && (s == "" || c != '\n' || s[0] != '\n')
    ensures NoBlankLine([c] + s)
  {
    var t := [c] + s;
    forall k | 0 <= k < |t| - 1 ensures t[k] != '\n' || t[k + 1] != '\n' {
      if k > 0 {
        assert t[k] == s[k - 1] && t[k + 1] == s[k];
      }
    }
  }

  lemma {:induction false} ParagraphsHaveNone(text: string)
    ensures forall p | p in Paragraphs(text) :: NoBlankLine(p)
    ensures Paragraphs(text)[0] != "" ==> text != "" && Paragraphs(text)[0][0] == text[0]
    decreases |text|
  {
    hide NoBlankLine;
    assert NoBlankLine("") by { NothingHasNone(); }
    if text != "" {
      if |text| >= 2 && text[0] == '\n' && text[1] == '\n' {
        ParagraphsHaveNone(text[2..]);
      } else {
        ParagraphsHaveNone(text[1..]);
        var rest := Paragraphs(text[1..]);
        assert rest[0] in rest;
        ConsHasNone(text[0], rest[0]);
      }
    }
  }

  lemma NothingHasNone()
    ensures NoBlankLine("")
  {
  }

  lemma {:induction false} StripHasNone(s: string)
    requires NoBlankLine(s)
    ensures NoBlankLine(Strip(s))
    decreases |s|
  {
    hide NoBlankLine, IsSpace;
    if s != "" {
      if IsSpace(s[0]) {
        PartHasNone(s, 1, |s|);
        assert s[1..|s|] == s[1..];
        StripHasNone(s[1..]);
      } else if IsSpace(s[|s| - 1]) {
        PartHasNone(s, 0, |s| - 1);
        assert s[0..|s| - 1] == s[..|s| - 1];
        StripHasNone(s[..|s| - 1]);
      }
    }
  }

  lemma {:induction false} StrippedHaveNone(parts: seq<string>)
    requires forall p | p in parts :: NoBlankLine(p)
    ensures forall p | p in Stripped(parts) :: NoBlankLine(p)
  {
    hide NoBlankLine, Strip;
    if parts != [] {
      assert parts[0] in parts;
      StripHasNone(parts[0]);
      StrippedHaveNone(parts[1..]);
    }
  }

  lemma {:induction false} SentencesHaveNone(text: string)
    requires NoBlankLine(text)
    ensures forall p | p in Sentences(text) :: NoBlankLine(p)
    ensures Sentences(text)[0] <= text
  {
    hide EndsSentence;
    if text != "" {
      PartHasNone(text, 1, |text|);
      assert text[1..|text|] == text[1..];
      SentencesHaveNone(text[1..]);
      var rest := Sentences(text[1..]);
      assert rest[0] in rest;
      assert rest[0] != "" ==> rest[0][0] == text[1];
      ConsHasNone(text[0], rest[0]);
      assert NoBlankLine([text[0]]);
    }
  }

  lemma {:induction false} UnitsHaveNone(paragraphs: seq<string>, max: int)
    requires forall p | p in paragraphs :: NoBlankLine(p)
    ensures forall s | s in AllUnits(paragraphs, max) :: NoBlankLine(s)
  {
    hide NoBlankLine, Sentences, Stripped;
    if paragraphs != [] {
      assert paragraphs[0] in paragraphs;
      SentencesHaveNone(paragraphs[0]);
      StrippedHaveNone(Units(paragraphs[0], max));
      UnitsHaveNone(paragraphs[1..], max);
    }
  }

  lemma SentenceHasNone(text: string, max: int, s: string)
    requires s in SentencesOf(text, max)
    ensures NoBlankLine(s)
  {
    hide NoBlankLine, AllUnits, Stripped, Normalize;
    ParagraphsHaveNone(Normalize(text));
    StrippedHaveNone(Paragraphs(Normalize(text)));
    UnitsHaveNone(Stripped(Paragraphs(Normalize(text))), max);
  }

  // ------------------------------------------------------------------- the exact condition

  /** A trimmed part without blank lines is found at the beginning of what follows from a
      rest only within the rest. */
  lemma FollowsIff(head: string, rest: string, text: string)
    requires Trimmed(head) && NoBlankLine(head) && Follows(rest, text)
    ensures head <= TrimLeft(text) <==> head <= TrimLeft(rest)
  {
    hide TrimLeft;
    var r, x := TrimLeft(rest), TrimLeft(text);
    var longer := r + "\n\n";
    assert longer[|r|] == '\n' && longer[|r| + 1] == '\n';
    assert longer <= x && head <= x ==> |head| <= |r|;
  }

  lemma HeadIsTrimmed(s: string, max: int)
    requires Trimmed(s) && 1 <= max <= |s|
    ensures Trimmed(Strip(s[..max]))
  {
    hide IsSpace;
    StripTrims(s[..max]);
    FirstStays(s[..max]);
  }

  lemma {:induction false} FirstStays(s: string)
    requires s != "" && !IsSpace(s[0])
    ensures Strip(s) != ""
    decreases |s|
  {
    hide IsSpace;
    if IsSpace(s[|s| - 1]) {
      FirstStays(s[..|s| - 1]);
    }
  }

  /** Without overlap every chunk begins with all of the one before if and only if no first
      sentence had to be cut, or its rest happens to begin with its first part. */
  lemma NoOverlapIff(text: string, max: int)
    requires 1 <= max
    ensures var chunks := Packed(text, max, 0);
      (forall i | 0 < i < |chunks| :: Repeats(chunks[i - 1], chunks[i])) <==>
      (FirstOversized(text, max) ==> Repeats(SentencesOf(text, max)[0][..max], SentencesOf(text, max)[0][max..]))
  {
    hide SentencesOf, Packed, Strip, TrimLeft, Follows, Trimmed, NoBlankLine;
    var chunks := Packed(text, max, 0);
    forall i | 0 < i < |chunks| && !(i == 1 && FirstOversized(text, max)) ensures Repeats(chunks[i - 1], chunks[i]) {
      NoOverlapRepeatsAll(text, max, i);
    }
    if FirstOversized(text, max) {
      var s := SentencesOf(text, max)[0];
      NoOverlapCutsFirst(text, max);
      SentencesAreTrimmed(text, max);
      assert s in SentencesOf(text, max);
      SentenceHasNone(text, max, s);
      PartHasNone(s, 0, max);
      assert s[0..max] == s[..max];
      StripHasNone(s[..max]);
      HeadIsTrimmed(s, max);
      FollowsIff(Strip(s[..max]), s[max..], chunks[1]);
      assert Repeats(chunks[0], chunks[1]) <==> Repeats(s[..max], s[max..]);
      assert 0 < 1 < |chunks|;
    }
  }

  lemma {:induction false} Unmarked(text: string)
    requires forall c | c in text :: !EndsSentence(c)
    ensures Sentences(text) == [text]
  {
    hide EndsSentence;
    if text != "" {
      assert text[0] in text;
      assert forall c | c in text[1..] :: c in text;
      Unmarked(text[1..]);
      assert [text[0]] + text[1..] == text;
    }
  }

  /** One sentence of twice the limit whose halves differ. */
  function Halves(max: nat): string {
    seq(max, i => 'x') + seq(max, i => 'y')
  }

  lemma HalvesAreOneSentence(max: nat)
    requires 1 <= max
    ensures SentencesOf(Halves(max), max) == [Halves(max)]
  {
    hide Strip, Paragraphs, Sentences, UnixBreaks, SingleBlanks, FewBreaks;
    var text := Halves(max);
    assert Inked(text) && forall c | c in text :: !EndsSentence(c);
    OneParagraph(text);
    InkedIsTrimmed(text);
    Unmarked(text);
    assert [text][1..] == [];
    assert Stripped([text]) == [text] + Stripped([]);
    assert AllUnits([text], max) == Stripped(Units(text, max)) + AllUnits([], max);
  }

  /** The second chunk need not repeat the first: for every limit, a text of two chunks
      without a common beginning. */
  lemma NoOverlapCanDiffer(max: nat)
    requires 1 <= max
    ensures var chunks := Packed(Halves(max), max, 0);
      chunks == [Halves(max)[..max], Halves(max)[max..]] && !Repeats(chunks[0], chunks[1])
  {
    hide SentencesOf, Strip, TrimLeft, Halves;
    var text := Halves(max);
    HalvesAreOneSentence(max);
    HalvesParts(max);
    PackFirst(Packing([], ""), [text], max, 0);
    var parts := [text];
    assert |parts[1..]| == 0;
    var one := Pack(Packing([], ""), text, max, 0);
    assert one == Packing([text[..max]], text[max..]);
    PackNothing(one, max, 0);
    InkedIsTrimmed(text[..max]);
    InkedLeft(text[max..]);
  }

  lemma HalvesParts(max: nat)
    requires 1 <= max
    ensures var text := Halves(max);
      |text| == 2 * max && Inked(text[..max]) && Inked(text[max..]) && text[0] == 'x' && text[max] == 'y'
  {
  }

  lemma InkedLeft(s: string)
    requires Inked(s)
    ensures TrimLeft(s) == s
  {
    assert s[0] in s;
  }
}
