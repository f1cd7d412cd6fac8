// Subtracting the emoji code points from a font's unicode-range, and the range notation.
module UnicodeRanges {
  import opened Prelude
  import opened Text

  /** Code points `low` to `high` inclusive. */
  datatype Range = Range(low: int, high: int)

  const EXCLUDED: seq<Range> := [
    Range(0x200D, 0x200D),
    Range(0x2600, 0x27BF),
    Range(0x2B00, 0x2BFF),
    Range(0xFE00, 0xFE0F),
    Range(0x1F000, 0x1FAFF),
    Range(0xE0000, 0xE007F)
  ]

  predicate Has(ranges: seq<Range>, x: int) {
    exists r :: r in ranges && r.low <= x <= r.high
  }

  // -------------------------------------------------------------- subtract_excluded

  predicate Clear(piece: Range, ex: Range) {
    piece.high < ex.low || piece.low > ex.high
  }

  /** What one excluded range leaves of one piece. */
  function Cut(piece: Range, ex: Range): seq<Range> {
    if Clear(piece, ex) then [piece]
    else
      var below := if piece.low < ex.low then [Range(piece.low, ex.low - 1)] else [];
      var above := if piece.high > ex.high then [Range(ex.high + 1, piece.high)] else [];
      below + above
  }

  function CutAll(pieces: seq<Range>, ex: Range): seq<Range> {
    if pieces == [] then [] else Cut(pieces[0], ex) + CutAll(pieces[1..], ex)
  }

  function Without(pieces: seq<Range>, excluded: seq<Range>): seq<Range>
    decreases |excluded|
  {
    if excluded == [] then pieces else Without(CutAll(pieces, excluded[0]), excluded[1..])
  }

  function Subtract(ranges: seq<Range>, excluded: seq<Range>): seq<Range> {
    if ranges == [] then [] else Without([ranges[0]], excluded) + Subtract(ranges[1..], excluded)
  }

  lemma CutAllStep(pieces: seq<Range>, i: nat, ex: Range)
    requires i <= |pieces|
    ensures CutAll(pieces[i..], ex) == if i == |pieces| then [] else Cut(pieces[i], ex) + CutAll(pieces[i + 1..], ex)
  {
    hide Cut;
    if i < |pieces| {
      assert pieces[i..][0] == pieces[i] && pieces[i..][1..] == pieces[i + 1..];
    }
  }

  method CutPiece(piece: Range, ex: Range) returns (left: seq<Range>)
    ensures left == Cut(piece, ex)
  {
    if piece.high < ex.low || piece.low > ex.high {
      return [piece];
    }
    left := [];
    if piece.low < ex.low {
      left := left + [Range(piece.low, ex.low - 1)];
    }
    if piece.high > ex.high {
      left := left + [Range(ex.high + 1, piece.high)];
    }
  }

  method CutPieces(pieces: seq<Range>, ex: Range) returns (next: seq<Range>)
    ensures next == CutAll(pieces, ex)
  {
    hide CutAll, Cut;
    next := [];
    assert pieces[0..] == pieces;
    for i := 0 to |pieces|
      invariant CutAll(pieces, ex) == next + CutAll(pieces[i..], ex)
    {
      CutAllStep(pieces, i, ex);
      var left := CutPiece(pieces[i], ex);
      next := next + left;
    }
    CutAllStep(pieces, |pieces|, ex);
  }

  lemma SubtractStep(ranges: seq<Range>, i: nat)
    requires i <= |ranges|
    ensures Subtract(ranges[i..], EXCLUDED) ==
      if i == |ranges| then [] else Without([ranges[i]], EXCLUDED) + Subtract(ranges[i + 1..], EXCLUDED)
  {
    hide Without, EXCLUDED;
    if i < |ranges| {
      assert ranges[i..][0] == ranges[i] && ranges[i..][1..] == ranges[i + 1..];
    }
  }

  lemma WithoutStep(pieces: seq<Range>, excluded: seq<Range>, j: nat)
    requires j <= |excluded|
    ensures Without(pieces, excluded[j..]) ==
      if j == |excluded| then pieces else Without(CutAll(pieces, excluded[j]), excluded[j + 1..])
  {
    hide CutAll;
    if j < |excluded| {
      assert excluded[j..][0] == excluded[j] && excluded[j..][1..] == excluded[j + 1..];
    }
  }

  method SubtractExcluded(ranges: seq<Range>) returns (kept: seq<Range>)
    ensures kept == Subtract(ranges, EXCLUDED)
  {
    hide Subtract, Without, CutAll, EXCLUDED;
    kept := [];
    assert ranges[0..] == ranges && EXCLUDED[0..] == EXCLUDED;
    for i := 0 to |ranges|
      invariant Subtract(ranges, EXCLUDED) == kept + Subtract(ranges[i..], EXCLUDED)
    {
      SubtractStep(ranges, i);
      var pieces := [ranges[i]];
      for j := 0 to |EXCLUDED|
        invariant Without([ranges[i]], EXCLUDED) == Without(pieces, EXCLUDED[j..])
      {
        WithoutStep(pieces, EXCLUDED, j);
        pieces := CutPieces(pieces, EXCLUDED[j]);
      }
      WithoutStep(pieces, EXCLUDED, |EXCLUDED|);
      kept := kept + pieces;
    }
    SubtractStep(ranges, |ranges|);
  }

  lemma HasAppend(a: seq<Range>, b: seq<Range>, x: int)
    ensures Has(a + b, x) <==> Has(a, x) || Has(b, x)
  {
    if r :| r in a + b && r.low <= x <= r.high {
      assert r in a || r in b;
    }
    if r :| r in a && r.low <= x <= r.high {
      assert r in a + b;
    }
    if r :| r in b && r.low <= x <= r.high {
      assert r in a + b;
    }
  }

  lemma CutDenotes(piece: Range, ex: Range, x: int)
    ensures Has(Cut(piece, ex), x) <==> piece.low <= x <= piece.high && !(ex.low <= x <= ex.high)
  {
    var below, above := Range(piece.low, ex.low - 1), Range(ex.high + 1, piece.high);
    if piece.low <= x <= piece.high && !(ex.low <= x <= ex.high) {
      if Clear(piece, ex) {
        assert piece in Cut(piece, ex);
      } else if x < ex.low {
        assert below in Cut(piece, ex);
      } else {
        assert above in Cut(piece, ex);
      }
    }
  }

  lemma {:induction false} CutAllDenotes(pieces: seq<Range>, ex: Range, x: int)
    ensures Has(CutAll(pieces, ex), x) <==> Has(pieces, x) && !(ex.low <= x <= ex.high)
  {
    if pieces != [] {
      CutDenotes(pieces[0], ex, x);
      CutAllDenotes(pieces[1..], ex, x);
      HasAppend(Cut(pieces[0], ex), CutAll(pieces[1..], ex), x);
      HasAppend([pieces[0]], pieces[1..], x);
      assert pieces == [pieces[0]] + pieces[1..];
      assert Has([pieces[0]], x) <==> pieces[0].low <= x <= pieces[0].high by { assert pieces[0] in [pieces[0]]; }
    }
  }

  lemma {:induction false} WithoutDenotes(pieces: seq<Range>, excluded: seq<Range>, x: int)
    ensures Has(Without(pieces, excluded), x) <==> Has(pieces, x) && !Has(excluded, x)
    decreases |excluded|
  {
    if excluded != [] {
      var ex := excluded[0];
      CutAllDenotes(pieces, ex, x);
      WithoutDenotes(CutAll(pieces, ex), excluded[1..], x);
      HasAppend([ex], excluded[1..], x);
      assert excluded == [ex] + excluded[1..];
      assert Has([ex], x) <==> ex.low <= x <= ex.high by { assert ex in [ex]; }
    }
  }

  /** The result denotes exactly the input code points that are not excluded, whatever
      the ranges on either side look like. */
  lemma {:induction false} SubtractDenotes(ranges: seq<Range>, excluded: seq<Range>, x: int)
    ensures Has(Subtract(ranges, excluded), x) <==> Has(ranges, x) && !Has(excluded, x)
  {
    if ranges != [] {
      var first := ranges[0];
      WithoutDenotes([first], excluded, x);
      SubtractDenotes(ranges[1..], excluded, x);
      HasAppend(Without([first], excluded), Subtract(ranges[1..], excluded), x);
      HasAppend([first], ranges[1..], x);
      assert ranges == [first] + ranges[1..];
    }
  }

  // --------------------------------------------------------------------------- order

  predicate Proper(r: Range) {
    r.low <= r.high
  }

  /** Non-empty, increasing and disjoint. */
  predicate Ordered(ranges: seq<Range>) {
    && (forall i | 0 <= i < |ranges| :: Proper(ranges[i]))
    && (forall i, j | 0 <= i < j < |ranges| :: ranges[i].high < ranges[j].low)
  }

  predicate Inside(pieces: seq<Range>, r: Range) {
    forall p | p in pieces :: r.low <= p.low && p.high <= r.high
  }

  lemma OrderedAppend(a: seq<Range>, b: seq<Range>)
    requires Ordered(a) && Ordered(b) && forall p, q | p in a && q in b :: p.high < q.low
    ensures Ordered(a + b)
  {
    var all := a + b;
    forall i, j | 0 <= i < j < |all| ensures all[i].high < all[j].low {
      assert i < |a| ==> all[i] in a;
      assert j >= |a| ==> all[j] in b;
    }
  }

  lemma CutIsOrdered(piece: Range, ex: Range)
    requires Proper(piece) && Proper(ex)
    ensures Ordered(Cut(piece, ex)) && Inside(Cut(piece, ex), piece)
  {
  }

  lemma {:induction false} CutAllInside(pieces: seq<Range>, ex: Range)
    ensures forall p | p in CutAll(pieces, ex) :: exists q :: q in pieces && q.low <= p.low && p.high <= q.high
  {
    if pieces != [] {
      CutAllInside(pieces[1..], ex);
      forall p | p in CutAll(pieces, ex) ensures exists q :: q in pieces && q.low <= p.low && p.high <= q.high {
        if p in Cut(pieces[0], ex) {
          assert pieces[0] in pieces;
        } else {
          var q :| q in pieces[1..] && q.low <= p.low && p.high <= q.high;
          assert q in pieces;
        }
      }
    }
  }

  lemma {:induction false} CutAllIsOrdered(pieces: seq<Range>, ex: Range)
    requires Ordered(pieces) && Proper(ex)
    ensures Ordered(CutAll(pieces, ex))
  {
    hide Cut;
    if pieces != [] {
      CutIsOrdered(pieces[0], ex);
      CutAllIsOrdered(pieces[1..], ex);
      CutAllInside(pieces[1..], ex);
      forall p, q | p in Cut(pieces[0], ex) && q in CutAll(pieces[1..], ex) ensures p.high < q.low {
        var r :| r in pieces[1..] && r.low <= q.low && q.high <= r.high;
        var k :| 0 <= k < |pieces[1..]| && pieces[1..][k] == r;
        assert pieces[k + 1] == r;
      }
      OrderedAppend(Cut(pieces[0], ex), CutAll(pieces[1..], ex));
    }
  }

  lemma {:induction false} WithoutIsOrdered(pieces: seq<Range>, excluded: seq<Range>, whole: Range)
    requires Ordered(pieces) && Inside(pieces, whole) && forall ex | ex in excluded :: Proper(ex)
    ensures Ordered(Without(pieces, excluded)) && Inside(Without(pieces, excluded), whole)
    decreases |excluded|
  {
    if excluded != [] {
      assert excluded[0] in excluded;
      CutAllIsOrdered(pieces, excluded[0]);
      CutAllInside(pieces, excluded[0]);
      WithoutIsOrdered(CutAll(pieces, excluded[0]), excluded[1..], whole);
    }
  }

  lemma {:induction false} SubtractInside(ranges: seq<Range>, excluded: seq<Range>)
    requires Ordered(ranges) && forall ex | ex in excluded :: Proper(ex)
    ensures forall p | p in Subtract(ranges, excluded) :: exists q :: q in ranges && q.low <= p.low && p.high <= q.high
  {
    if ranges != [] {
      SubtractInside(ranges[1..], excluded);
      WithoutIsOrdered([ranges[0]], excluded, ranges[0]);
      forall p | p in Subtract(ranges, excluded) ensures exists q :: q in ranges && q.low <= p.low && p.high <= q.high {
        if p in Without([ranges[0]], excluded) {
          assert ranges[0] in ranges;
        } else {
          var q :| q in ranges[1..] && q.low <= p.low && p.high <= q.high;
          assert q in ranges;
        }
      }
    }
  }

  /** Increasing disjoint ranges stay increasing, disjoint and non-empty. */
  lemma {:induction false} SubtractIsOrdered(ranges: seq<Range>, excluded: seq<Range>)
    requires Ordered(ranges) && forall ex | ex in excluded :: Proper(ex)
    ensures Ordered(Subtract(ranges, excluded))
  {
    if ranges != [] {
      var first, rest := ranges[0], Subtract(ranges[1..], excluded);
      WithoutIsOrdered([first], excluded, first);
      SubtractIsOrdered(ranges[1..], excluded);
      SubtractInside(ranges[1..], excluded);
      forall p, q | p in Without([first], excluded) && q in rest ensures p.high < q.low {
        var r :| r in ranges[1..] && r.low <= q.low && q.high <= r.high;
        var k :| 0 <= k < |ranges[1..]| && ranges[1..][k] == r;
        assert ranges[k + 1] == r;
      }
      OrderedAppend(Without([first], excluded), rest);
    }
  }

  // --------------------------------------------------------------------- idempotence

  predicate AllClear(pieces: seq<Range>, excluded: seq<Range>) {
    forall p, ex | p in pieces && ex in excluded :: Clear(p, ex)
  }

  lemma {:induction false} CutAllIsClear(pieces: seq<Range>, ex: Range, done: seq<Range>)
    requires AllClear(pieces, done) && Proper(ex)
    ensures AllClear(CutAll(pieces, ex), done + [ex])
  {
    if pieces != [] {
      assert AllClear(pieces[1..], done);
      CutAllIsClear(pieces[1..], ex, done);
      forall p, e | p in Cut(pieces[0], ex) && e in done + [ex] ensures Clear(p, e) {
        if e in done {
          assert Clear(pieces[0], e) by { assert pieces[0] in pieces; }
        }
      }
    }
  }

  lemma {:induction false} WithoutIsClear(pieces: seq<Range>, excluded: seq<Range>, done: seq<Range>)
    requires AllClear(pieces, done) && forall ex | ex in excluded :: Proper(ex)
    ensures AllClear(Without(pieces, excluded), done + excluded)
    decreases |excluded|
  {
    if excluded == [] {
      assert done + excluded == done;
    } else {
      assert excluded[0] in excluded;
      CutAllIsClear(pieces, excluded[0], done);
      WithoutIsClear(CutAll(pieces, excluded[0]), excluded[1..], done + [excluded[0]]);
      assert done + [excluded[0]] + excluded[1..] == done + excluded;
    }
  }

  lemma {:induction false} ClearIsKept(pieces: seq<Range>, ex: Range)
    requires forall p | p in pieces :: Clear(p, ex)
    ensures CutAll(pieces, ex) == pieces
  {
    if pieces != [] {
      ClearIsKept(pieces[1..], ex);
      assert pieces[0] in pieces;
      assert [pieces[0]] + pieces[1..] == pieces;
    }
  }

  lemma {:induction false} AllClearIsKept(pieces: seq<Range>, excluded: seq<Range>)
    requires AllClear(pieces, excluded)
    ensures Without(pieces, excluded) == pieces
    decreases |excluded|
  {
    if excluded != [] {
      assert excluded[0] in excluded;
      ClearIsKept(pieces, excluded[0]);
      AllClearIsKept(pieces, excluded[1..]);
    }
  }

  lemma {:induction false} ClearRangesAreKept(ranges: seq<Range>, excluded: seq<Range>)
    requires AllClear(ranges, excluded)
    ensures Subtract(ranges, excluded) == ranges
  {
    if ranges != [] {
      AllClearIsKept([ranges[0]], excluded);
      ClearRangesAreKept(ranges[1..], excluded);
      assert [ranges[0]] + ranges[1..] == ranges;
    }
  }

  lemma {:induction false} SubtractIsClear(ranges: seq<Range>, excluded: seq<Range>)
    requires forall ex | ex in excluded :: Proper(ex)
    ensures AllClear(Subtract(ranges, excluded), excluded)
  {
    if ranges != [] {
      WithoutIsClear([ranges[0]], excluded, []);
      assert [] + excluded == excluded;
      SubtractIsClear(ranges[1..], excluded);
    }
  }

  /** A second subtraction returns the identical list, also for reversed input ranges. */
  lemma SubtractIsIdempotent(ranges: seq<Range>)
    ensures var once := Subtract(ranges, EXCLUDED); Subtract(once, EXCLUDED) == once
  {
    SubtractIsClear(ranges, EXCLUDED);
    ClearRangesAreKept(Subtract(ranges, EXCLUDED), EXCLUDED);
  }

  /** For the real exclusions: an ordered result that avoids exactly the emoji ranges. */
  lemma FontRanges(ranges: seq<Range>)
    requires Ordered(ranges)
    ensures Ordered(Subtract(ranges, EXCLUDED))
    ensures forall x :: Has(Subtract(ranges, EXCLUDED), x) <==> Has(ranges, x) && !Has(EXCLUDED, x)
  {
    SubtractIsOrdered(ranges, EXCLUDED);
    forall x ensures Has(Subtract(ranges, EXCLUDED), x) <==> Has(ranges, x) && !Has(EXCLUDED, x) {
      SubtractDenotes(ranges, EXCLUDED, x);
    }
  }

  // ------------------------------------------------------------------------ notation

  function Digit(n: nat): char
    requires n < 16
  {
    if n < 10 then '0' + n as char else 'a' + (n - 10) as char
  }

  function DigitValue(c: char): Option<nat> {
    if '0' <= c <= '9' then Some((c - '0') as nat)
    else if 'a' <= c <= 'f' then Some((c - 'a') as nat + 10)
    else if 'A' <= c <= 'F' then Some((c - 'A') as nat + 10)
    else None
  }

  function Hex(n: nat): string {
    if n < 16 then [Digit(n)] else Hex(n / 16) + [Digit(n % 16)]
  }

  /** Digits with single underscores between them. */
  function Digits(s: string): Option<nat> {
    if s == [] then None
    else
      var last := DigitValue(s[|s| - 1]);
      if last.None? then None
      else if |s| == 1 then last
      else
        var init := Digits(if s[|s| - 2] == '_' then s[..|s| - 2] else s[..|s| - 1]);
        if init.Some? then Some(16 * init.value + last.value) else None
  }

  /** The digits after an optional `0x`, which one underscore may follow. */
  function Magnitude(s: string): Option<nat> {
    if |s| >= 2 && s[0] == '0' && s[1] in {'x', 'X'} then
      Digits(if |s| >= 3 && s[2] == '_' then s[3..] else s[2..])
    else Digits(s)
  }

  /** The code points of the zeros of all decimal digits in Unicode 15; the other nine
      follow each of them. */
  const DECIMAL_ZEROS: seq<int> := [
    0x30, 0x660, 0x6F0, 0x7C0, 0x966, 0x9E6, 0xA66, 0xAE6, 0xB66, 0xBE6, 0xC66, 0xCE6,
    0xD66, 0xDE6, 0xE50, 0xED0, 0xF20, 0x1040, 0x1090, 0x17E0, 0x1810, 0x1946, 0x19D0, 0x1A80,
    0x1A90, 0x1B50, 0x1BB0, 0x1C40, 0x1C50, 0xA620, 0xA8D0, 0xA900, 0xA9D0, 0xA9F0, 0xAA50, 0xABF0,
    0xFF10, 0x104A0, 0x10D30, 0x11066, 0x110F0, 0x11136, 0x111D0, 0x112F0, 0x11450, 0x114D0, 0x11650, 0x116C0,
    0x11730, 0x118E0, 0x11950, 0x11C50, 0x11D50, 0x11DA0, 0x11F50, 0x16A60, 0x16AC0, 0x16B50, 0x1D7CE, 0x1D7D8,
    0x1D7E2, 0x1D7EC, 0x1D7F6, 0x1E140, 0x1E2F0, 0x1E4F0, 0x1E950, 0x1FBF0
  ]

  /** The value of a decimal digit of any script. */
  function DecimalValue(c: char, zeros: seq<int>): (value: Option<nat>)
    ensures value.Some? ==> value.value < 10
  {
    if zeros == [] then None
    else if zeros[0] <= c as int <= zeros[0] + 9 then Some(c as int - zeros[0])
    else DecimalValue(c, zeros[1..])
  }

  /** How Python reads a character of a number: a decimal digit of any script as its ASCII
      digit; the four separators that stripping a text removes are no blanks here. */
  function AsciiChar(c: char): char {
    if '\U{001C}' <= c <= '\U{001F}' then '?'
    else if c < '\U{0080}' then c
    else
      var digit := DecimalValue(c, DECIMAL_ZEROS);
      if digit.Some? then Digit(digit.value) else c
  }

  function Ascii(s: string): string {
    if s == [] then [] else [AsciiChar(s[0])] + Ascii(s[1..])
  }

  /** `int(s, 16)`: blanks around, a sign, a prefix; None is the error. */
  function ParseHex(s: string): Option<int> {
    var t := Strip(Ascii(s));
    if t == [] then None
    else
      var value := Magnitude(if t[0] in {'+', '-'} then t[1..] else t);
      if value.None? then None
      else
        var n: int := value.value;
        Some(if t[0] == '-' then -n else n)
  }

  function ParseItem(item: string): Option<Range> {
    if |item| < 2 || item[0] !in {'U', 'u'} || item[1] != '+' || '?' in item then None
    else
      var (low, high) := Partition(item[2..], '-');
      var first, last := ParseHex(low), ParseHex(if high == [] then low else high);
      if first.Some? && last.Some? then Some(Range(first.value, last.value)) else None
  }

  function ParseItems(items: seq<string>): Option<seq<Range>> {
    if items == [] then Some([])
    else
      var rest := ParseItems(items[1..]);
      var item := Strip(items[0]);
      if item == [] then rest
      else
        var first := ParseItem(item);
        if first.Some? && rest.Some? then Some([first.value] + rest.value) else None
  }

  function ParseRanges(value: string): Option<seq<Range>> {
    ParseItems(Split(value, ','))
  }

  /** What parsing has found so far, followed by what the rest of the items gives. */
  function Prepend(found: seq<Range>, rest: Option<seq<Range>>): Option<seq<Range>> {
    if rest.Some? then Some(found + rest.value) else None
  }

  lemma ParseStep(items: seq<string>, i: nat, found: seq<Range>)
    requires i <= |items|
    ensures i == |items| ==> Prepend(found, ParseItems(items[i..])) == Some(found)
    ensures i < |items| && Strip(items[i]) == [] ==>
      Prepend(found, ParseItems(items[i..])) == Prepend(found, ParseItems(items[i + 1..]))
    ensures i < |items| && Strip(items[i]) != [] ==>
      var range := ParseItem(Strip(items[i]));
      Prepend(found, ParseItems(items[i..])) ==
        if range.None? then None else Prepend(found + [range.value], ParseItems(items[i + 1..]))
  {
    hide Strip, ParseItem;
    if i < |items| {
      assert items[i..][0] == items[i] && items[i..][1..] == items[i + 1..];
      var range := ParseItem(Strip(items[i]));
      var rest := ParseItems(items[i + 1..]);
      if range.Some? && rest.Some? {
        assert found + ([range.value] + rest.value) == (found + [range.value]) + rest.value;
      }
    } else {
      assert items[i..] == [] && found + [] == found;
    }
  }

  method Parse(value: string) returns (ranges: Option<seq<Range>>)
    ensures ranges == ParseRanges(value)
  {
    hide ParseItems, ParseItem, Strip, Prepend;
    var items := Split(value, ',');
    var found := [];
    assert items[0..] == items;
    assert Prepend(found, ParseItems(items)) == ParseItems(items) by { PrependNothing(ParseItems(items)); }
    for i := 0 to |items|
      invariant ParseItems(items) == Prepend(found, ParseItems(items[i..]))
    {
      ParseStep(items, i, found);
      var item := Strip(items[i]);
      if item == [] {
        continue;
      }
      var range := ParseItem(item);
      if range.None? {
        return None;
      }
      found := found + [range.value];
    }
    ParseStep(items, |items|, found);
    ranges := Some(found);
  }

  lemma PrependNothing(rest: Option<seq<Range>>)
    ensures Prepend([], rest) == rest
  {
    if rest.Some? {
      assert [] + rest.value == rest.value;
    }
  }

  /** The hexadecimal notation of a number, signed when it is negative. */
  function Signed(n: int): string {
    if n < 0 then "-" + Hex(-n) else Hex(n)
  }

  function FormatRange(r: Range): string {
    if r.low == r.high then "U+" + Signed(r.low) else "U+" + Signed(r.low) + "-" + Signed(r.high)
  }

  function FormatRanges(ranges: seq<Range>): string {
    if ranges == [] then ""
    else if |ranges| == 1 then FormatRange(ranges[0])
    else FormatRange(ranges[0]) + ", " + FormatRanges(ranges[1..])
  }

  lemma {:induction false} HexRoundTrip(n: nat)
    ensures Hex(n) != [] && Digits(Hex(n)) == Some(n) && forall c | c in Hex(n) :: IsHex(c)
  {
    if n >= 16 {
      HexRoundTrip(n / 16);
      var h := Hex(n);
      assert h[..|h| - 1] == Hex(n / 16);
      assert h[|h| - 2] in Hex(n / 16);
    }
  }

  lemma HexIsMagnitude(n: nat)
    ensures Magnitude(Hex(n)) == Some(n)
  {
    hide Digits;
    HexRoundTrip(n);
    if |Hex(n)| >= 2 {
      assert Hex(n)[1] in Hex(n);
    }
  }

  lemma {:induction false} PlainIsAscii(s: string)
    requires forall c | c in s :: IsHex(c) || c == '-'
    ensures Ascii(s) == s
  {
    hide DECIMAL_ZEROS, DecimalValue;
    if s != [] {
      assert s[0] in s;
      assert forall c | c in s[1..] :: c in s;
      PlainIsAscii(s[1..]);
      assert [s[0]] + s[1..] == s;
    }
  }

  /** A printed number is visible at both ends, holds no separator and reads back. */
  lemma SignedReadsBack(n: int)
    ensures ParseHex(Signed(n)) == Some(n) && Strip(Signed(n)) == Signed(n)
    ensures Signed(n) != [] && !IsSpace(Signed(n)[|Signed(n)| - 1])
    ensures forall c | c in Signed(n) :: IsHex(c) || (n < 0 && c == '-')
  {
    hide Digits, Magnitude, Hex, Ascii;
    var h := Hex(if n < 0 then -n else n);
    HexRoundTrip(if n < 0 then -n else n);
    HexIsMagnitude(if n < 0 then -n else n);
    var t := Signed(n);
    assert h[|h| - 1] in h && h[0] in h && t[|t| - 1] == h[|h| - 1];
    if n < 0 {
      assert t[1..] == h;
    }
    PlainIsAscii(t);
  }

  /** A printed item reads back exactly when its low end is not negative: the sign would be
      taken for the hyphen. */
  lemma ItemReadsBack(r: Range)
    ensures ParseItem(FormatRange(r)) == if r.low >= 0 then Some(r) else None
  {
    hide Signed, ParseHex, Partition;
    SignedReadsBack(r.low);
    SignedReadsBack(r.high);
    var item, low := FormatRange(r), Signed(r.low);
    if r.low < 0 {
      assert low == "-" + Hex(-r.low) by { SignedIs(r.low); }
      assert item[2..] == "" + ['-'] + item[3..];
      PartitionAt("", item[3..], '-');
      assert ParseHex("") == None by { NothingIsNoNumber(); }
    } else if r.low == r.high {
      assert item[2..] == low;
      PartitionPlain(low, '-');
    } else {
      assert item[2..] == low + ['-'] + Signed(r.high);
      PartitionAt(low, Signed(r.high), '-');
    }
  }

  lemma SignedIs(n: int)
    ensures Signed(n) == if n < 0 then "-" + Hex(-n) else Hex(n)
  {
  }

  lemma NothingIsNoNumber()
    ensures ParseHex("") == None
  {
  }

  /** A printed item begins and ends visibly and holds no comma. */
  lemma ItemIsPlain(r: Range)
    ensures FormatRange(r) != [] && Strip(FormatRange(r)) == FormatRange(r) && ',' !in FormatRange(r)
  {
    hide Signed, ParseHex, IsSpace;
    SignedReadsBack(r.low);
    SignedReadsBack(r.high);
    var item := FormatRange(r);
    assert item[|item| - 1] == Signed(r.high)[|Signed(r.high)| - 1];
    assert !IsSpace(item[0]) by { VisibleU(); }
  }

  lemma VisibleU()
    ensures !IsSpace('U')
  {
  }

  lemma BlankFirst(s: string)
    requires s != []
    ensures Split(" " + s, ',')[0] == " " + Split(s, ',')[0] && Split(" " + s, ',')[1..] == Split(s, ',')[1..]
  {
    assert (" " + s)[1..] == s;
  }

  lemma ParseBlankFirst(s: string)
    requires s != []
    ensures ParseRanges(" " + s) == ParseRanges(s)
  {
    BlankFirst(s);
    var plain, blank := Split(s, ','), Split(" " + s, ',');
    assert (" " + plain[0])[1..] == plain[0];
    assert Strip(blank[0]) == Strip(plain[0]);
  }

  lemma ParseOne(item: string)
    requires item != [] && Strip(item) == item && ',' !in item
    ensures var r := ParseItem(item); ParseRanges(item) == if r.Some? then Some([r.value]) else None
  {
    hide ParseItem, Strip, Split;
    SplitPlain(item, ',');
    assert [item][1..] == [];
    assert ParseItems([]) == Some([]);
    var r := ParseItem(item);
    if r.Some? {
      assert [r.value] + [] == [r.value];
    }
  }

  lemma ParseCons(item: string, rest: string)
    requires item != [] && Strip(item) == item && ',' !in item
    ensures var r := ParseItem(item);
      ParseRanges(item + "," + rest) == if r.Some? then Prepend([r.value], ParseRanges(rest)) else None
  {
    hide ParseItem, Strip, Split;
    SplitAt(item, rest, ',');
    assert item + "," + rest == item + [','] + rest;
    var items := [item] + Split(rest, ',');
    assert items[0] == item && items[1..] == Split(rest, ',');
  }

  /** Parsing what was printed: the list itself when every low end is a natural number,
      reversed ranges included, and the error otherwise. */
  lemma {:induction false} FormatRoundTrip(ranges: seq<Range>)
    ensures ParseRanges(FormatRanges(ranges)) == if forall r | r in ranges :: r.low >= 0 then Some(ranges) else None
  {
    hide FormatRange, ParseRanges, ParseItem, Strip;
    if ranges == [] {
      NothingReadsBack();
    } else {
      var first := FormatRange(ranges[0]);
      ItemReadsBack(ranges[0]);
      ItemIsPlain(ranges[0]);
      assert ranges == [ranges[0]] + ranges[1..];
      if |ranges| == 1 {
        ParseOne(first);
        assert ranges == [ranges[0]];
      } else {
        var rest := FormatRanges(ranges[1..]);
        FormatRoundTrip(ranges[1..]);
        ItemIsPlain(ranges[1]);
        ParseBlankFirst(rest);
        assert first + ", " + rest == first + "," + (" " + rest);
        ParseCons(first, " " + rest);
      }
    }
  }

  lemma NothingReadsBack()
    ensures ParseRanges("") == Some([])
  {
    assert Split("", ',') == [[]];
    assert Split("", ',')[1..] == [];
  }

  // ------------------------------------------------------------------------- the exclusions

  /** The excluded code points are the joiner, the symbol blocks, the variation selectors,
      the pictographs and the tag characters. */
  lemma ExcludedAre(x: int)
    ensures Has(EXCLUDED, x) <==>
      || x == 0x200D || 0x2600 <= x <= 0x27BF || 0x2B00 <= x <= 0x2BFF || 0xFE00 <= x <= 0xFE0F
      || 0x1F000 <= x <= 0x1FAFF || 0xE0000 <= x <= 0xE007F
  {
    var e := EXCLUDED;
    assert e[0] in e && e[1] in e && e[2] in e && e[3] in e && e[4] in e && e[5] in e;
  }

  // ---------------------------------------------------------------------- further notations

  /** Hexadecimal notation in upper case. */
  function UpperHex(n: nat): string {
    var digit := "0123456789ABCDEF"[n % 16];
    if n < 16 then [digit] else UpperHex(n / 16) + [digit]
  }

  lemma UpperDigit(n: nat)
    requires n < 16
    ensures DigitValue("0123456789ABCDEF"[n]) == Some(n) && "0123456789ABCDEF"[n] != '_'
  {
    var d := "0123456789ABCDEF";
    assert d[0] == '0' && d[1] == '1' && d[2] == '2' && d[3] == '3' && d[4] == '4' && d[5] == '5' && d[6] == '6' && d[7] == '7';
    assert d[8] == '8' && d[9] == '9' && d[10] == 'A' && d[11] == 'B' && d[12] == 'C' && d[13] == 'D' && d[14] == 'E' && d[15] == 'F';
  }

  /** Upper-case digits mean the same. */
  lemma {:induction false} UpperReadsBack(n: nat)
    ensures UpperHex(n) != "" && Digits(UpperHex(n)) == Some(n) && UpperHex(n)[|UpperHex(n)| - 1] != '_'
  {
    hide DigitValue;
    UpperDigit(n % 16);
    if n >= 16 {
      UpperReadsBack(n / 16);
      var h := UpperHex(n);
      assert h[..|h| - 1] == UpperHex(n / 16);
    }
  }

  lemma AfterUnderscore(s: string, c: char)
    requires s != ""
    ensures Digits(s + "_" + [c]) ==
      if DigitValue(c).Some? && Digits(s).Some? then Some(16 * Digits(s).value + DigitValue(c).value) else None
  {
    hide DigitValue;
    var one := s + "_" + [c];
    assert one[|one| - 1] == c && one[|one| - 2] == '_' && one[..|one| - 2] == s;
  }

  lemma AfterDigit(s: string, c: char)
    requires s != "" && s[|s| - 1] != '_'
    ensures Digits(s + [c]) ==
      if DigitValue(c).Some? && Digits(s).Some? then Some(16 * Digits(s).value + DigitValue(c).value) else None
  {
    hide DigitValue;
    var one := s + [c];
    assert one[|one| - 1] == c && one[|one| - 2] == s[|s| - 1] && one[..|one| - 1] == s;
  }

  lemma UnderscoreLast(s: string)
    ensures Digits(s + "_") == None
  {
    var one := s + "_";
    assert one[|one| - 1] == '_' && DigitValue('_') == None;
  }

  /** One underscore between two digits changes nothing; at the end, or twice, it is an
      error. */
  lemma Underscores(s: string, c: char)
    requires s != "" && s[|s| - 1] != '_'
    ensures Digits(s + "_" + [c]) == Digits(s + [c])
    ensures Digits(s + "_") == None && Digits(s + "_" + "_" + [c]) == None
  {
    hide Digits, DigitValue;
    AfterUnderscore(s, c);
    AfterDigit(s, c);
    UnderscoreLast(s);
    AfterUnderscore(s + "_", c);
  }

  /** Digits of either case and underscores. */
  predicate HexText(s: string) {
    forall c | c in s :: '0' <= c <= '9' || 'a' <= c <= 'f' || 'A' <= c <= 'F' || c == '_'
  }

  lemma {:induction false} DigitsAreHex(s: string)
    ensures Digits(s).Some? ==> HexText(s)
  {
    if Digits(s).Some? && |s| == 1 {
      assert forall c | c in s :: c == s[0];
    } else if Digits(s).Some? {
      var n := if s[|s| - 2] == '_' then |s| - 2 else |s| - 1;
      DigitsAreHex(s[..n]);
      assert DigitValue(s[|s| - 1]).Some?;
      assert s == s[..n] + s[n..];
      forall c | c in s[n..] ensures c == s[|s| - 1] || c == '_' {
        var i :| 0 <= i < |s[n..]| && s[n..][i] == c;
        assert s[n + i] == c;
      }
    }
  }

  /** The prefix begins with a zero, and one underscore may follow it. */
  lemma PrefixIs(s: string, x: char)
    requires x in {'x', 'X'} && s != ""
    ensures Magnitude("0" + [x] + "_" + s) == Digits(s)
    ensures forall d | d != '0' :: Magnitude([d, x] + s) == None
  {
    var t := "0" + [x] + "_" + s;
    assert t[0] == '0' && t[1] == x && t[2] == '_' && t[3..] == s;
    forall d | d != '0' ensures Magnitude([d, x] + s) == None {
      OtherPrefix(d, x, s);
    }
  }

  lemma OtherPrefix(d: char, x: char, s: string)
    requires x in {'x', 'X'} && d != '0'
    ensures Magnitude([d, x] + s) == None
  {
    hide Digits;
    var t := [d, x] + s;
    assert t[0] == d && t[1] == x && x in t;
    DigitsAreHex(t);
  }

  /** A decimal digit of any script stands for its distance from that script's zero. */
  lemma {:induction false} DecimalValueIs(c: char, zeros: seq<int>)
    ensures DecimalValue(c, zeros).None? <==> forall z | z in zeros :: c as int < z || z + 9 < c as int
    ensures DecimalValue(c, zeros).Some? ==> c as int - DecimalValue(c, zeros).value in zeros
  {
    if zeros != [] {
      DecimalValueIs(c, zeros[1..]);
      assert zeros[0] in zeros && forall z :: z in zeros <==> z == zeros[0] || z in zeros[1..];
    }
  }

  /** ASCII characters stand for themselves, but for the four separators, which no number
      contains; digits of other scripts for theirs, and nothing else for anything. */
  lemma AsciiIs(c: char)
    ensures c as int < 0x1C || 0x20 <= c as int < 0x80 ==> AsciiChar(c) == c
    ensures 0x1C <= c as int < 0x20 ==> AsciiChar(c) == '?'
    ensures c as int >= 0x80 && (forall z | z in DECIMAL_ZEROS :: c as int < z || z + 9 < c as int) ==> AsciiChar(c) == c
    ensures c as int >= 0x80 && (exists z :: z in DECIMAL_ZEROS && z <= c as int <= z + 9) ==>
      '0' <= AsciiChar(c) <= '9' && c as int - (AsciiChar(c) as int - '0' as int) in DECIMAL_ZEROS
  {
    hide DECIMAL_ZEROS, DecimalValue;
    DecimalValueIs(c, DECIMAL_ZEROS);
  }

  lemma StrippedHead(s: string)
    requires Trimmed(s) && Ascii(s) == s
    ensures ParseHex(s) ==
      var value := Magnitude(if s[0] in {'+', '-'} then s[1..] else s);
      if value.None? then None else Some(if s[0] == '-' then -(value.value as int) else value.value as int)
  {
    hide Magnitude, Ascii, IsSpace;
  }

  lemma Prefixed(x: char, s: string)
    requires x in {'x', 'X'} && s != "" && s[0] != '_'
    ensures Magnitude("0" + [x] + s) == Digits(s)
  {
    hide Digits;
    var t := "0" + [x] + s;
    assert t[0] == '0' && t[1] == x && t[2] == s[0] && t[2..] == s;
  }

  /** A prefix of either case changes nothing. */
  lemma PrefixIsSkipped(x: char, s: string)
    requires x in {'x', 'X'} && Trimmed(s) && Ascii(s) == s && s[0] != '_'
    ensures ParseHex("0" + [x] + s) == if Digits(s).Some? then Some(Digits(s).value as int) else None
  {
    hide Digits, Ascii, Magnitude, ParseHex, IsSpace;
    var t := "0" + [x] + s;
    assert "0" + [x] == (if x == 'x' then "0x" else "0X");
    PlainHead("0" + [x], s);
    StrippedHead(t);
    Prefixed(x, s);
  }

  /** A sign changes nothing but the sign. */
  lemma SignIsRead(s: string)
    requires Trimmed(s) && Ascii(s) == s && s[0] !in {'+', '-'}
    ensures ParseHex("+" + s) == ParseHex(s)
    ensures ParseHex("-" + s) == if ParseHex(s).Some? then Some(-ParseHex(s).value) else None
  {
    hide Digits, Ascii, Magnitude, ParseHex, IsSpace;
    PlainHead("+", s);
    PlainHead("-", s);
    StrippedHead(s);
    StrippedHead("+" + s);
    StrippedHead("-" + s);
    assert ("+" + s)[1..] == s && ("-" + s)[1..] == s;
  }

  predicate Trimmed(s: string) {
    s != "" && !IsSpace(s[0]) && !IsSpace(s[|s| - 1])
  }

  lemma PlainHead(head: string, s: string)
    requires head in {"0x", "0X", "+", "-"} && Trimmed(s) && Ascii(s) == s
    ensures Ascii(head + s) == head + s && Trimmed(head + s)
  {
    hide DECIMAL_ZEROS;
    var t := head + s;
    assert t[|t| - 1] == s[|s| - 1];
    assert Ascii(t) == [AsciiChar(t[0])] + Ascii(t[1..]);
    if |head| == 2 {
      assert t[1..] == [head[1]] + s && t[1..][1..] == s;
      assert Ascii(t[1..]) == [AsciiChar(head[1])] + Ascii(s);
      assert t == [head[0]] + ([head[1]] + s);
    } else {
      assert t[1..] == s;
    }
  }

  /** The first number is the low end, the second one the high end, which without a second
      one is the low end; a question mark anywhere is refused. */
  lemma ItemIs(u: char, low: string, high: string)
    requires '-' !in low && u in {'U', 'u'}
    ensures ParseItem([u] + "+" + low + "-" + high) ==
      if '?' in low || '?' in high || ParseHex(low).None? then None
      else if high == "" then Some(Range(ParseHex(low).value, ParseHex(low).value))
      else if ParseHex(high).None? then None
      else Some(Range(ParseHex(low).value, ParseHex(high).value))
  {
    hide ParseHex, Partition;
    var item := [u] + "+" + low + "-" + high;
    PartitionAt(low, high, '-');
    assert item[2..] == low + ['-'] + high;
    assert item[0] == u && item[1] == '+';
    assert '?' in item <==> '?' in low || '?' in high by {
      assert item == [u, '+'] + low + ['-'] + high;
    }
  }

  lemma SingleItemIs(u: char, low: string)
    requires '-' !in low && u in {'U', 'u'}
    ensures ParseItem([u] + "+" + low) ==
      if '?' in low || ParseHex(low).None? then None else Some(Range(ParseHex(low).value, ParseHex(low).value))
  {
    hide ParseHex, Partition;
    var item := [u] + "+" + low;
    PartitionPlain(low, '-');
    assert item[2..] == low && item[0] == u && item[1] == '+';
    assert item == [u, '+'] + low;
  }

  /** Nothing else is an item. */
  lemma ItemsBeginSo(item: string)
    requires ParseItem(item).Some?
    ensures "U+" <= item || "u+" <= item
  {
    assert item[..2] == [item[0], item[1]];
  }
}
