// When the chunk limit holds: the exact condition, with a text that breaks it otherwise.
module ChunkLimit {
  import opened Text
  import opened Chunking

  /** No character is white space. */
  predicate Inked(s: string) {
    s != "" && forall c | c in s :: !IsSpace(c)
  }

  lemma InkedTail(s: string)
    requires Inked(s) && |s| > 1
    ensures Inked(s[1..])
  {
    hide IsSpace;
    assert forall c | c in s[1..] :: c in s;
  }

  lemma InkedFirst(s: string)
    requires Inked(s)
    ensures s != "" && !IsSpace(s[0]) && !IsBlank(s[0]) && s[0] != '\r' && s[0] != '\n'
  {
    assert s[0] in s;
  }

  lemma {:induction false} UnixKeeps(a: string, rest: string)
    requires a == "" || Inked(a)
    ensures UnixBreaks(a + rest) == a + UnixBreaks(rest)
  {
    hide Inked;
    if a == "" {
      assert a + rest == rest;
    } else {
      InkedFirst(a);
      if |a| > 1 { InkedTail(a); }
      assert (a + rest)[1..] == a[1..] + rest;
      UnixKeeps(a[1..], rest);
    }
  }

  lemma {:induction false} BlanksKeep(a: string, rest: string)
    requires a == "" || Inked(a)
    ensures SingleBlanks(a + rest) == a + SingleBlanks(rest)
  {
    hide Inked;
    if a == "" {
      assert a + rest == rest;
    } else {
      InkedFirst(a);
      if |a| > 1 { InkedTail(a); }
      assert (a + rest)[1..] == a[1..] + rest;
      BlanksKeep(a[1..], rest);
    }
  }

  lemma {:induction false} BreaksKeep(a: string, rest: string)
    requires a == "" || Inked(a)
    ensures FewBreaks(a + rest) == a + FewBreaks(rest)
  {
    hide Inked;
    if a == "" {
      assert a + rest == rest;
    } else {
      InkedFirst(a);
      if |a| > 1 { InkedTail(a); }
      assert (a + rest)[1..] == a[1..] + rest && (a + rest)[0] == a[0];
      assert |a + rest| >= 3 ==> (a + rest)[..3][0] == a[0] && "\n\n\n"[0] == '\n';
      BreaksKeep(a[1..], rest);
    }
  }

  lemma {:induction false} ParagraphKept(a: string, rest: string)
    requires Inked(a) && Paragraphs(rest)[0] == ""
    ensures Paragraphs(a + rest) == [a] + Paragraphs(rest)[1..]
  {
    hide Inked;
    InkedFirst(a);
    assert (a + rest)[1..] == a[1..] + rest;
    if |a| > 1 {
      InkedTail(a);
      ParagraphKept(a[1..], rest);
      assert ([a[1..]] + Paragraphs(rest)[1..])[1..] == Paragraphs(rest)[1..];
      assert [a[0]] + a[1..] == a;
    } else {
      assert a[1..] + rest == rest && [a[0]] + "" == a;
    }
  }

  /** Paragraphs with blank lines between them. */
  function Join(units: seq<string>): string {
    if units == [] then ""
    else if |units| == 1 then units[0]
    else units[0] + ("\n\n" + Join(units[1..]))
  }

  predicate AllInked(units: seq<string>) {
    forall u | u in units :: Inked(u)
  }

  /** Normalising leaves the text as it is. */
  predicate Normal(s: string) {
    UnixBreaks(s) == s && SingleBlanks(s) == s && FewBreaks(s) == s
  }

  lemma BreakKept(rest: string)
    requires rest != "" && rest[0] != '\n' && Normal(rest)
    ensures Normal("\n\n" + rest) && Paragraphs("\n\n" + rest) == [""] + Paragraphs(rest)
  {
    var s, t := "\n\n" + rest, "\n" + rest;
    assert s[1..] == t && t[1..] == rest && s[2..] == rest;
    hide Paragraphs;
    assert ['\n'] + t == s && ['\n'] + rest == t;
    assert UnixBreaks(t) == t && UnixBreaks(s) == s;
    assert SingleBlanks(t) == t && SingleBlanks(s) == s;
    assert s[..3][2] == rest[0] && "\n\n\n"[2] == '\n';
    assert |t| >= 3 ==> t[..3][1] == rest[0] && "\n\n\n"[1] == '\n';
    assert FewBreaks(t) == t && FewBreaks(s) == s;
    ParagraphBreak(rest);
  }

  lemma ParagraphBreak(rest: string)
    ensures Paragraphs("\n\n" + rest) == [""] + Paragraphs(rest)
  {
    assert ("\n\n" + rest)[2..] == rest;
  }

  lemma InkedIsNormal(a: string, rest: string)
    requires Inked(a) && Normal(rest)
    ensures Normal(a + rest)
  {
    hide Inked, UnixBreaks, SingleBlanks, FewBreaks;
    UnixKeeps(a, rest);
    BlanksKeep(a, rest);
    BreaksKeep(a, rest);
  }

  lemma OneParagraph(a: string)
    requires Inked(a)
    ensures Normal(a) && Paragraphs(a) == [a]
  {
    hide Inked;
    assert Normal("") && Paragraphs("") == [""];
    InkedIsNormal(a, "");
    ParagraphKept(a, "");
    assert a + "" == a;
  }

  lemma {:induction false} JoinIsNormal(units: seq<string>)
    requires units != [] && AllInked(units)
    ensures Normal(Join(units)) && Paragraphs(Join(units)) == units
    ensures units[0] != "" && Join(units) != "" && Join(units)[0] == units[0][0]
  {
    hide Inked, Paragraphs, Normal;
    assert units[0] in units;
    InkedFirst(units[0]);
    if |units| == 1 {
      OneParagraph(units[0]);
      assert units == [units[0]];
    } else {
      var rest := units[1..];
      assert forall u | u in rest :: u in units;
      assert rest[0] in units;
      InkedFirst(rest[0]);
      JoinIsNormal(rest);
      BreakKept(Join(rest));
      InkedIsNormal(units[0], "\n\n" + Join(rest));
      assert ([""] + Paragraphs(Join(rest)))[0] == "";
      ParagraphKept(units[0], "\n\n" + Join(rest));
      assert [units[0]] + rest == units;
    }
  }

  lemma {:induction false} JoinEnds(units: seq<string>)
    requires units != [] && units[|units| - 1] != ""
    ensures Join(units) != ""
    ensures var last := units[|units| - 1]; Join(units)[|Join(units)| - 1] == last[|last| - 1]
  {
    if |units| > 1 {
      JoinEnds(units[1..]);
    }
  }

  lemma InkedIsTrimmed(s: string)
    requires Inked(s)
    ensures Trimmed(s) && Strip(s) == s
  {
    hide IsSpace;
    assert s[0] in s && s[|s| - 1] in s;
  }

  lemma JoinIsTrimmed(units: seq<string>)
    requires units != [] && AllInked(units)
    ensures Trimmed(Join(units)) && Strip(Join(units)) == Join(units)
  {
    hide Inked, Join, IsSpace;
    var last := units[|units| - 1];
    assert units[0] in units && last in units;
    InkedIsTrimmed(units[0]);
    InkedIsTrimmed(last);
    JoinIsNormal(units);
    JoinEnds(units);
    var s := Join(units);
    assert !IsSpace(s[0]) && !IsSpace(s[|s| - 1]);
  }

  lemma {:induction false} StrippedUnits(units: seq<string>)
    requires AllInked(units)
    ensures Stripped(units) == units
  {
    hide Strip, Inked;
    if units != [] {
      assert units[0] in units;
      InkedIsTrimmed(units[0]);
      StrippedUnits(units[1..]);
      assert [units[0]] + units[1..] == units;
    }
  }

  lemma {:induction false} ShortUnits(units: seq<string>, max: int)
    requires AllInked(units) && forall u | u in units :: |u| <= max
    ensures AllUnits(units, max) == units
  {
    hide Stripped, Inked;
    if units != [] {
      assert units[0] in units;
      StrippedUnits([units[0]]);
      ShortUnits(units[1..], max);
      assert [units[0]] + units[1..] == units;
    }
  }

  /** A text of short paragraphs without white space has just these as its sentences. */
  lemma SentencesOfJoin(units: seq<string>, max: int)
    requires units != [] && AllInked(units) && forall u | u in units :: |u| <= max
    ensures SentencesOf(Join(units), max) == units
  {
    hide AllInked, Strip, Stripped, AllUnits, Join;
    JoinIsNormal(units);
    JoinIsTrimmed(units);
    StrippedUnits(units);
    ShortUnits(units, max);
  }

  lemma {:induction false} JoinAppend(a: seq<string>, b: seq<string>)
    requires a != [] && b != []
    ensures Join(a + b) == Join(a) + ("\n\n" + Join(b))
  {
    if |a| == 1 {
      assert (a + b)[1..] == b;
    } else {
      assert (a + b)[1..] == a[1..] + b;
      JoinAppend(a[1..], b);
    }
  }

  /** Paragraphs that fit are packed into one chunk. */
  lemma {:induction false} PackFits(units: seq<string>, max: int, overlap: int)
    requires units != [] && AllInked(units) && |Join(units)| <= max
    ensures PackAll(Packing([], ""), units, max, overlap) == Packing([], Join(units))
    decreases |units|
  {
    hide AllInked, Join, Strip, PackAll, Trimmed;
    var init, last := units[..|units| - 1], units[|units| - 1..];
    assert units == init + last && last == [units[|units| - 1]];
    JoinIsTrimmed(units);
    assert Join(last) == last[0] by { JoinOne(last[0]); }
    var before := PackAll(Packing([], ""), init, max, overlap);
    PackAppend(Packing([], ""), init, last, max, overlap);
    PackFirst(before, last, max, overlap);
    PackNothing(Pack(before, last[0], max, overlap), max, overlap);
    assert last[1..] == [];
    if init == [] {
      PackNothing(Packing([], ""), max, overlap);
      assert units == last;
    } else {
      InkedInit(units);
      JoinAppend(init, last);
      PackFits(init, max, overlap);
      JoinIsTrimmed(init);
      assert Join(init) != "" by { TrimmedIsVisible(Join(init)); }
      assert Join(init) + "\n\n" + last[0] == Join(units);
    }
  }

  lemma JoinOne(u: string)
    ensures Join([u]) == u
  {
  }

  lemma InkedInit(units: seq<string>)
    requires AllInked(units) && units != []
    ensures AllInked(units[..|units| - 1])
  {
    hide Inked;
    assert forall u | u in units[..|units| - 1] :: u in units;
  }

  /** A paragraph that no longer fits starts a chunk with the stripped tail before it. */
  lemma TailAndUnit(units: seq<string>, b: string, max: int, overlap: int)
    requires units != [] && AllInked(units + [b]) && forall u | u in units + [b] :: |u| <= max
    requires |Join(units)| <= max < |Join(units)| + 2 + |b|
    requires Strip(Tail(Join(units), overlap)) != ""
    ensures Strip(Tail(Join(units), overlap)) + "\n\n" + b in Packed(Join(units + [b]), max, overlap)
  {
    hide AllInked, Join, Strip, PackAll, SentencesOf, Tail, Trimmed;
    var start, one := Packing([], ""), Packing([], Join(units));
    InkedInit(units + [b]);
    assert (units + [b])[..|units|] == units;
    SentencesOfJoin(units + [b], max);
    PackFits(units, max, overlap);
    PackAppend(start, units, [b], max, overlap);
    PackFirst(one, [b], max, overlap);
    assert [b][1..] == [];
    var two := Pack(one, b, max, overlap);
    PackNothing(two, max, overlap);
    JoinIsTrimmed(units);
    JoinIsTrimmed(units + [b]);
    TrimmedIsVisible(Join(units));
    JoinAppend(units, [b]);
    JoinOne(b);
    assert Join(units) + "\n\n" + b == Join(units + [b]);
    assert two.current in Flush(two);
  }

  /** The limit alone is no bound: whenever overlap, blank line and sentence together are
      longer, any two paragraphs of that length give a chunk of exactly that many
      characters. */
  lemma LimitIsNoBound(max: int, overlap: int, a: string, b: string)
    requires 1 <= overlap <= |a| == |b| <= max < overlap + 2 + |b| && Inked(a) && Inked(b)
    ensures var chunk := a[|a| - overlap..] + "\n\n" + b;
      chunk in Packed(a + ("\n\n" + b), max, overlap) && |chunk| == overlap + 2 + |b|
  {
    hide Inked, Strip, Packed;
    InkedPart(a, |a| - overlap);
    InkedIsTrimmed(a[|a| - overlap..]);
    JoinOne(a);
    assert [a] + [b] == [a, b] && [a, b][1..] == [b];
    assert Join([a, b]) == a + ("\n\n" + b);
    assert Tail(a, overlap) == a[|a| - overlap..];
    TailAndUnit([a], b, max, overlap);
  }

  lemma InkedPart(s: string, i: nat)
    requires Inked(s) && i < |s|
    ensures Inked(s[i..])
  {
    hide IsSpace;
    assert forall c | c in s[i..] :: c in s;
  }

  predicate ShortSentences(text: string, max: int, n: nat) {
    forall s | s in SentencesOf(text, max) :: |s| <= n
  }

  predicate WithinLimit(text: string, max: int, overlap: int) {
    forall c | c in Packed(text, max, overlap) :: |c| <= max
  }

  function Letters(m: nat): string {
    seq(m, i => 'x')
  }

  /** Paragraphs of one to n letters that make up exactly m characters; there are none for
      three characters and n two. */
  function Blocks(m: nat, n: nat): seq<string>
    requires m >= 1 && n >= 2 && (n >= 3 || m != 3)
  {
    if m <= n then [Letters(m)]
    else if n == 2 && m == 6 then [Letters(2), Letters(2)]
    else [Letters(1)] + Blocks(m - 3, n)
  }

  lemma {:induction false} BlocksFill(m: nat, n: nat)
    requires m >= 1 && n >= 2 && (n >= 3 || m != 3)
    ensures Blocks(m, n) != [] && AllInked(Blocks(m, n)) && |Join(Blocks(m, n))| == m
    ensures forall u | u in Blocks(m, n) :: |u| <= n
  {
    hide Inked, Letters;
    LettersAreInk(m);
    LettersAreInk(1);
    LettersAreInk(2);
    if n == 2 && m == 6 {
      assert [Letters(2), Letters(2)][1..] == [Letters(2)];
    } else if m > n {
      BlocksFill(m - 3, n);
      assert ([Letters(1)] + Blocks(m - 3, n))[1..] == Blocks(m - 3, n);
    }
  }

  /** Paragraphs that end with a part of exactly `overlap` characters, and that one more
      paragraph of n letters does not fit behind. */
  lemma FullTail(max: int, overlap: int, n: nat) returns (units: seq<string>)
    requires 1 <= overlap < max && 2 <= n && (n >= 3 || overlap != 3)
    ensures units != [] && AllInked(units) && forall u | u in units :: |u| <= n
    ensures |Join(units)| <= max < |Join(units)| + 2 + n
    ensures var tail := Strip(Tail(Join(units), overlap)); |tail| == overlap
  {
    hide AllInked, Strip, Trimmed;
    var right := Blocks(overlap, n);
    BlocksFill(overlap, n);
    JoinIsTrimmed(right);
    if max - overlap < n + 2 {
      units := right;
      assert Tail(Join(units), overlap) == Join(right);
    } else {
      var l := max - overlap - 2;
      var left := Blocks(if n == 2 && l == 3 then 2 else l, n);
      BlocksFill(if n == 2 && l == 3 then 2 else l, n);
      units := left + right;
      JoinAppend(left, right);
      BothInked(left, right);
      assert Tail(Join(units), overlap) == Join(right);
    }
  }

  lemma BothInked(a: seq<string>, b: seq<string>)
    requires AllInked(a) && AllInked(b)
    ensures AllInked(a + b)
  {
    hide Inked;
  }

  lemma OneMoreInked(units: seq<string>, b: string)
    requires Inked(b) && (AllInked(units) || units == [b])
    ensures AllInked(units + [b])
  {
    hide Inked;
  }

  lemma LettersTail(m: nat, overlap: int)
    requires 1 <= overlap && 1 <= m
    ensures |Strip(Tail(Letters(m), overlap))| == if overlap <= m then overlap else m
  {
    hide Strip;
    var k := if overlap <= m then overlap else m;
    assert Tail(Letters(m), overlap) == Letters(k);
    LettersAreInk(k);
    InkedIsTrimmed(Letters(k));
  }

  lemma LettersAreInk(m: nat)
    requires m > 0
    ensures |Letters(m)| == m && Inked(Letters(m))
  {
  }

  // ------------------------------------------------------------- sentences of one character

  /** Single characters with blank lines between them. */
  predicate Comb(c: string) {
    |c| % 3 == 1 && forall k | 0 <= k < |c| :: IsSpace(c[k]) <==> k % 3 != 0
  }

  /** The longest stripped tail of a text whose sentences have at most n characters: with
      one character each, every third character is visible; with two, none of the parts
      of three characters begins visibly. */
  function LongestTail(overlap: int, n: nat): int {
    if n == 1 then overlap - (overlap - 1) % 3
    else if n == 2 && overlap == 3 then 2
    else overlap
  }

  lemma CombEnds(c: string)
    requires Comb(c)
    ensures Trimmed(c) && Strip(c) == c
  {
    hide IsSpace;
    assert IsSpace(c[0]) <==> 0 % 3 != 0;
    assert IsSpace(c[|c| - 1]) <==> (|c| - 1) % 3 != 0;
  }

  lemma CombSuffix(c: string, t: nat)
    requires Comb(c) && 1 <= t <= |c| && t % 3 == 1
    ensures Comb(c[|c| - t..])
  {
    hide IsSpace;
    var d := c[|c| - t..];
    assert (|c| - t) % 3 == 0;
    forall k | 0 <= k < t ensures IsSpace(d[k]) <==> k % 3 != 0 {
      assert d[k] == c[|c| - t + k];
      assert (|c| - t + k) % 3 == k % 3;
    }
  }

  /** The stripped tail of a comb is the longest comb that fits into the tail. */
  lemma CombTail(c: string, overlap: int)
    requires Comb(c) && 1 <= overlap
    ensures var tail := Strip(Tail(c, overlap));
      Comb(tail) && |tail| == LongestTail(if overlap <= |c| then overlap else |c|, 1)
  {
    hide IsSpace;
    var m := if overlap <= |c| then overlap else |c|;
    var t := m - (m - 1) % 3;
    var tail := Tail(c, overlap);
    assert tail == c[|c| - m..];
    CombSuffix(c, t);
    CombEnds(c[|c| - t..]);
    LeadingBlanks(tail, m - t) by {
      forall k | 0 <= k < m - t ensures IsSpace(tail[k]) {
        assert tail[k] == c[|c| - m + k];
        assert (|c| - m + k) % 3 != 0;
      }
    }
    assert tail[m - t..] == c[|c| - t..];
  }

  lemma {:induction false} LeadingBlanks(s: string, k: nat)
    requires k <= |s| && forall i | 0 <= i < k :: IsSpace(s[i])
    ensures Strip(s) == Strip(s[k..])
  {
    hide IsSpace;
    if k > 0 {
      assert s[1..][k - 1..] == s[k..];
      LeadingBlanks(s[1..], k - 1);
    } else {
      assert s[0..] == s;
    }
  }

  lemma CombJoin(c: string, s: string)
    requires Comb(c) && |s| == 1 && Trimmed(s)
    ensures Comb(c + "\n\n" + s)
  {
    var d := c + "\n\n" + s;
    assert d[|c|] == '\n' && d[|c| + 1] == '\n' && d[|c| + 2] == s[0];
    forall k | 0 <= k < |d| ensures IsSpace(d[k]) <==> k % 3 != 0 {
      if k < |c| {
        assert d[k] == c[k];
      }
    }
  }

  /** Every chunk is within the limit and the one being filled is a comb. */
  predicate CombWithin(p: Packing, max: int) {
    (p.current == "" || Comb(p.current)) && |p.current| <= max && forall c | c in p.chunks :: |c| <= max
  }

  lemma PackComb(p: Packing, sentence: string, max: int, overlap: int)
    requires 1 <= overlap < max && LongestTail(overlap, 1) + 3 <= max
    requires CombWithin(p, max) && Trimmed(sentence) && |sentence| == 1
    ensures CombWithin(Pack(p, sentence, max, overlap), max)
  {
    hide Strip, Tail, IsSpace;
    if p.current == "" {
      assert Comb(sentence) by { OneIsComb(sentence); }
    } else {
      CombJoin(p.current, sentence);
      CombEnds(p.current + "\n\n" + sentence);
      CombTail(p.current, overlap);
      CombJoin(Strip(Tail(p.current, overlap)), sentence);
      hide Comb;
      assert |Strip(Tail(p.current, overlap))| <= LongestTail(overlap, 1);
    }
  }

  lemma OneIsComb(s: string)
    requires Trimmed(s) && |s| == 1
    ensures Comb(s)
  {
  }

  // ------------------------------------------------------------ sentences of two characters

  /** Every chunk is within the limit and the third character from the end of the one being
      filled is blank. */
  predicate PairWithin(p: Packing, max: int) {
    && (|p.current| >= 3 ==> IsSpace(p.current[|p.current| - 3])) && EndsVisibly(p.current)
    && |p.current| <= max && forall c | c in p.chunks :: |c| <= max
  }

  lemma {:induction false} TrimLeftIsSuffix(s: string)
    ensures |TrimLeft(s)| <= |s| && TrimLeft(s) == s[|s| - |TrimLeft(s)|..]
  {
    if s != "" && IsSpace(s[0]) {
      TrimLeftIsSuffix(s[1..]);
    }
  }

  lemma PairTail(c: string)
    requires |c| >= 3 ==> IsSpace(c[|c| - 3])
    ensures |Strip(Tail(c, 3))| <= 2
  {
    hide IsSpace;
    var t := Tail(c, 3);
    if |t| == 3 {
      assert t[0] == c[|c| - 3];
      LeadingBlanks(t, 1);
      StripTrims(t[1..]);
    } else {
      StripTrims(t);
    }
  }

  lemma PairJoin(before: string, sentence: string)
    requires 1 <= |sentence| <= 2
    ensures var d := before + "\n\n" + sentence; IsSpace(d[|d| - 3])
  {
    var d := before + "\n\n" + sentence;
    assert d[|d| - 3] == '\n';
  }

  lemma PairFits(current: string, sentence: string)
    requires current != "" && Trimmed(sentence) && |sentence| <= 2
    ensures var c := Proposed(current, sentence); EndsVisibly(c) && (|c| >= 3 ==> IsSpace(c[|c| - 3]))
  {
    hide Strip, TrimLeft, IsSpace;
    var joined := current + "\n\n" + sentence;
    TrimmedIsVisible(sentence);
    assert joined[|joined| - 1] == sentence[|sentence| - 1];
    StripLeft(joined);
    TrimLeftIsSuffix(joined);
    PairJoin(current, sentence);
    var c := TrimLeft(joined);
    assert |c| >= 3 ==> c[|c| - 3] == joined[|joined| - 3];
  }

  lemma PackPair(p: Packing, sentence: string, max: int)
    requires 6 <= max && PairWithin(p, max) && Trimmed(sentence) && |sentence| <= 2
    ensures PairWithin(Pack(p, sentence, max, 3), max)
  {
    hide Strip, Tail, IsSpace, Proposed;
    TrimmedIsVisible(sentence);
    if p.current == "" {
      assert Proposed("", sentence) == sentence by { FirstProposed(sentence); }
    } else {
      PairFits(p.current, sentence);
      PairTail(p.current);
      PairJoin(Strip(Tail(p.current, 3)), sentence);
    }
  }

  lemma FirstProposed(sentence: string)
    ensures Proposed("", sentence) == sentence
  {
  }

  // ---------------------------------------------------------------------- both directions

  lemma {:induction false} CombsStayWithin(p: Packing, sentences: seq<string>, max: int, overlap: int)
    requires 1 <= overlap < max && LongestTail(overlap, 1) + 3 <= max && CombWithin(p, max)
    requires forall s | s in sentences :: Trimmed(s) && |s| == 1
    ensures CombWithin(PackAll(p, sentences, max, overlap), max)
    decreases |sentences|
  {
    hide Pack, CombWithin, Trimmed;
    if sentences != [] {
      assert sentences[0] in sentences;
      PackComb(p, sentences[0], max, overlap);
      CombsStayWithin(Pack(p, sentences[0], max, overlap), sentences[1..], max, overlap);
    }
  }

  lemma {:induction false} PairsStayWithin(p: Packing, sentences: seq<string>, max: int)
    requires 6 <= max && PairWithin(p, max) && forall s | s in sentences :: Trimmed(s) && |s| <= 2
    ensures PairWithin(PackAll(p, sentences, max, 3), max)
    decreases |sentences|
  {
    hide Pack, PairWithin, Trimmed;
    if sentences != [] {
      assert sentences[0] in sentences;
      PackPair(p, sentences[0], max);
      PairsStayWithin(Pack(p, sentences[0], max, 3), sentences[1..], max);
    }
  }

  lemma SentencesAreTrimmed(text: string, max: int)
    ensures forall s | s in SentencesOf(text, max) :: Trimmed(s) && s != ""
  {
    hide AllUnits, Trimmed;
    UnitsAreTrimmed(Stripped(Paragraphs(Normalize(text))), max);
    forall s | s in SentencesOf(text, max) ensures s != "" {
      TrimmedIsVisible(s);
    }
  }

  lemma SomeIsThere(sentences: seq<string>)
    requires sentences != []
    ensures exists s :: s in sentences
  {
    assert sentences[0] in sentences;
  }

  lemma LimitSuffices(text: string, max: int, overlap: int, n: nat)
    requires 1 <= overlap < max && ShortSentences(text, max, n) && (n == 0 || LongestTail(overlap, n) + 2 + n <= max)
    ensures WithinLimit(text, max, overlap)
  {
    hide SentencesOf, Trimmed, Comb;
    var start, sentences := Packing([], ""), SentencesOf(text, max);
    SentencesAreTrimmed(text, max);
    if n == 0 {
      if sentences != [] {
        SomeIsThere(sentences);
      }
      PackNothing(start, max, overlap);
    } else if n == 1 {
      forall s | s in sentences ensures |s| == 1 {
      }
      CombsStayWithin(start, sentences, max, overlap);
    } else if n == 2 && overlap == 3 {
      PairsStayWithin(start, sentences, max);
    } else {
      forall c | c in Packed(text, max, overlap) ensures |c| <= max {
        ChunksAreBounded(text, max, overlap, n, c);
      }
    }
  }

  /** Single letters that fill the limit as far as they can. */
  function Ones(k: nat): seq<string> {
    if k == 0 then [] else Ones(k - 1) + [Letters(1)]
  }

  lemma {:induction false} OnesAreComb(k: nat)
    requires k >= 1
    ensures Ones(k) != [] && AllInked(Ones(k)) && (forall u | u in Ones(k) :: |u| == 1)
    ensures Comb(Join(Ones(k))) && |Join(Ones(k))| == 3 * k - 2
  {
    hide Comb, Inked, Letters, Join, Trimmed, Strip;
    LettersAreInk(1);
    InkedIsTrimmed(Letters(1));
    JoinOne(Letters(1));
    if k == 1 {
      assert Ones(0) == [];
      assert Ones(1) == [Letters(1)];
      OneIsComb(Letters(1));
    } else {
      OnesAreComb(k - 1);
      BothInked(Ones(k - 1), [Letters(1)]);
      JoinAppend(Ones(k - 1), [Letters(1)]);
      CombJoin(Join(Ones(k - 1)), Letters(1));
      assert Join(Ones(k)) == Join(Ones(k - 1)) + "\n\n" + Letters(1);
    }
  }

  /** Paragraphs whose stripped tail is the longest possible, and that one more paragraph of
      n letters does not fit behind. */
  lemma LongTail(max: int, overlap: int, n: nat) returns (units: seq<string>)
    requires 1 <= overlap < max && 1 <= n <= max && max < LongestTail(overlap, n) + 2 + n
    ensures units != [] && AllInked(units) && forall u | u in units :: |u| <= n
    ensures |Join(units)| <= max < |Join(units)| + 2 + n
    ensures |Strip(Tail(Join(units), overlap))| == LongestTail(overlap, n)
  {
    hide Inked, Strip, Tail, Letters, Comb;
    if n == 1 {
      var k := (max + 2) / 3;
      OnesAreComb(k);
      units := Ones(k);
      CombTail(Join(units), overlap);
    } else if overlap <= n || (n == 2 && overlap == 3) {
      LettersAreInk(n);
      units := [Letters(n)];
      JoinOne(Letters(n));
      LettersTail(n, overlap);
    } else {
      units := FullTail(max, overlap, n);
    }
  }

  /** A text that breaks the limit. */
  lemma BeyondLimit(max: int, overlap: int, n: nat) returns (text: string)
    requires 1 <= overlap < max && 1 <= n && max < LongestTail(overlap, n) + 2 + n
    ensures ShortSentences(text, max, n) && !WithinLimit(text, max, overlap)
  {
    hide Inked, SentencesOf, Packed, AllInked, Strip, Tail, Letters;
    var m := if n <= max then n else max;
    var b := Letters(m);
    LettersAreInk(m);
    var units := LongTail(max, overlap, m);
    OneMoreInked(units, b);
    SentencesOfJoin(units + [b], max);
    TailAndUnit(units, b, max, overlap);
    text := Join(units + [b]);
    var chunk := Strip(Tail(Join(units), overlap)) + "\n\n" + b;
    assert chunk in Packed(text, max, overlap) && |chunk| == LongestTail(overlap, m) + 2 + m;
  }

  /** The limit holds for every text whose sentences have at most n characters if and only
      if the longest stripped tail, a blank line and such a sentence fit into it. */
  lemma LimitHoldsIff(max: int, overlap: int, n: nat)
    requires 1 <= overlap < max
    ensures (forall text | ShortSentences(text, max, n) :: WithinLimit(text, max, overlap)) <==>
      (n == 0 || LongestTail(overlap, n) + 2 + n <= max)
  {
    hide SentencesOf, Packed, LongestTail, ShortSentences, WithinLimit;
    if n == 0 || LongestTail(overlap, n) + 2 + n <= max {
      forall text | ShortSentences(text, max, n) ensures WithinLimit(text, max, overlap) {
        LimitSuffices(text, max, overlap, n);
      }
    } else {
      var text := BeyondLimit(max, overlap, n);
    }
  }
}
