// Evidence segmentation: ordered documents are cut greedily into groups of bounded size,
// and no other order-preserving way of cutting them needs fewer groups.
module Segmentation {
  import opened Prelude

  datatype Document = Document(id: string, text: string)

  function Total(docs: seq<Document>): nat {
    if docs == [] then 0 else Total(docs[..|docs| - 1]) + |docs[|docs| - 1].text|
  }

  /** A group a provider call may receive: within the limit, or one document alone. */
  predicate Allowed(group: seq<Document>, max: nat) {
    |group| == 1 || (group != [] && Total(group) <= max)
  }

  function Flatten(groups: seq<seq<Document>>): seq<Document> {
    if groups == [] then [] else groups[0] + Flatten(groups[1..])
  }

  ghost predicate IsSegmentation(groups: seq<seq<Document>>, docs: seq<Document>, max: nat) {
    Flatten(groups) == docs && forall i | 0 <= i < |groups| :: Allowed(groups[i], max)
  }

  /** What the loop still produces from the open group and the remaining documents. */
  function Continue(open: seq<Document>, rest: seq<Document>, max: nat): seq<seq<Document>>
    decreases |rest|
  {
    if rest == [] then (if open == [] then [] else [open])
    else if open != [] && Total(open) + |rest[0].text| > max then [open] + Continue([rest[0]], rest[1..], max)
    else Continue(open + [rest[0]], rest[1..], max)
  }

  function Segments(docs: seq<Document>, max: nat): seq<seq<Document>> {
    Continue([], docs, max)
  }

  lemma {:induction false} TotalAppend(a: seq<Document>, b: seq<Document>)
    ensures Total(a + b) == Total(a) + Total(b)
  {
    if b == [] {
      assert a + b == a;
    } else {
      var init := b[..|b| - 1];
      TotalAppend(a, init);
      assert (a + b)[..|a + b| - 1] == a + init;
    }
  }

  lemma TotalSnoc(a: seq<Document>, d: Document)
    ensures Total(a + [d]) == Total(a) + |d.text|
  {
    assert (a + [d])[..|a|] == a;
  }

  /** Cutting a group short leaves an allowed group. */
  lemma AllowedPart(group: seq<Document>, i: nat, j: nat, max: nat)
    requires Allowed(group, max) && i < j <= |group|
    ensures Allowed(group[i..j], max)
  {
    assert group == group[..i] + group[i..j] + group[j..];
    TotalAppend(group[..i], group[i..j]);
    TotalAppend(group[..i] + group[i..j], group[j..]);
  }

  lemma {:induction false} ContinueIsSegmentation(open: seq<Document>, rest: seq<Document>, max: nat)
    requires open == [] || Allowed(open, max)
    ensures IsSegmentation(Continue(open, rest, max), open + rest, max)
    decreases |rest|
  {
    if rest == [] {
      assert open + rest == open;
      if open != [] {
        assert Flatten([open]) == open + Flatten([]) == open;
      }
    } else {
      assert open + rest == open + [rest[0]] + rest[1..];
      if open != [] && Total(open) + |rest[0].text| > max {
        ContinueIsSegmentation([rest[0]], rest[1..], max);
        var tail := Continue([rest[0]], rest[1..], max);
        assert ([open] + tail)[1..] == tail;
        assert [rest[0]] + rest[1..] == rest;
      } else {
        TotalSnoc(open, rest[0]);
        ContinueIsSegmentation(open + [rest[0]], rest[1..], max);
      }
    }
  }

  // ----------------------------------------------------------------------- minimality

  /** The same cutting points with the first `k` documents removed. */
  function DropFront(groups: seq<seq<Document>>, k: nat): seq<seq<Document>> {
    if groups == [] || k == 0 then groups
    else if |groups[0]| <= k then DropFront(groups[1..], k - |groups[0]|)
    else [groups[0][k..]] + groups[1..]
  }

  lemma {:induction false} DropFrontIsSegmentation(groups: seq<seq<Document>>, docs: seq<Document>, k: nat, max: nat)
    requires IsSegmentation(groups, docs, max) && k <= |docs|
    ensures IsSegmentation(DropFront(groups, k), docs[k..], max)
    ensures |DropFront(groups, k)| <= |groups|
  {
    if groups != [] && k > 0 {
      var rest := Flatten(groups[1..]);
      if |groups[0]| <= k {
        assert docs[k..] == rest[k - |groups[0]|..];
        DropFrontIsSegmentation(groups[1..], rest, k - |groups[0]|, max);
      } else {
        AllowedPart(groups[0], k, |groups[0]|, max);
        assert groups[0][k..|groups[0]|] == groups[0][k..];
        assert ([groups[0][k..]] + groups[1..])[1..] == groups[1..];
        assert docs[k..] == groups[0][k..] + rest;
      }
    }
  }

  lemma DropWholeGroup(groups: seq<seq<Document>>, docs: seq<Document>, k: nat, max: nat)
    requires IsSegmentation(groups, docs, max) && groups != [] && |groups[0]| <= k <= |docs|
    ensures IsSegmentation(DropFront(groups, k), docs[k..], max) && |DropFront(groups, k)| <= |groups| - 1
  {
    var rest := Flatten(groups[1..]);
    assert groups[0] != [];
    assert docs[k..] == rest[k - |groups[0]|..];
    DropFrontIsSegmentation(groups[1..], rest, k - |groups[0]|, max);
  }

  /** No segmentation of the open group and the rest has fewer groups. */
  lemma {:induction false} ContinueIsMinimal(open: seq<Document>, rest: seq<Document>, max: nat, other: seq<seq<Document>>)
    requires open != [] && Allowed(open, max) && IsSegmentation(other, open + rest, max)
    ensures |Continue(open, rest, max)| <= |other|
    decreases |rest|
  {
    assert other != [] by { assert Flatten([]) == []; }
    if rest != [] {
      var longer := open + [rest[0]];
      assert longer + rest[1..] == open + rest;
      TotalSnoc(open, rest[0]);
      if Total(open) + |rest[0].text| > max {
        if |other[0]| > |open| {
          assert other[0][0..|longer|] == longer by { assert other[0] == (open + rest)[..|other[0]|]; }
          AllowedPart(other[0], 0, |longer|, max);
        }
        DropWholeGroup(other, open + rest, |open|, max);
        assert (open + rest)[|open|..] == [rest[0]] + rest[1..];
        ContinueIsMinimal([rest[0]], rest[1..], max, DropFront(other, |open|));
      } else {
        ContinueIsMinimal(longer, rest[1..], max, other);
      }
    }
  }

  lemma SegmentsAreMinimal(docs: seq<Document>, max: nat, other: seq<seq<Document>>)
    requires IsSegmentation(other, docs, max)
    ensures |Segments(docs, max)| <= |other|
  {
    if docs != [] {
      assert [docs[0]] + docs[1..] == docs;
      assert [] + [docs[0]] == [docs[0]];
      ContinueIsMinimal([docs[0]], docs[1..], max, other);
    }
  }

  /** A group that the cutting produced is not cut again. */
  lemma {:induction false} AllowedStaysWhole(open: seq<Document>, rest: seq<Document>, max: nat)
    requires Allowed(open + rest, max)
    ensures Continue(open, rest, max) == [open + rest]
    decreases |rest|
  {
    if rest == [] {
      assert open + rest == open;
    } else {
      var longer := open + [rest[0]];
      assert longer + rest[1..] == open + rest;
      if open != [] {
        AllowedPart(open + rest, 0, |longer|, max);
        assert (open + rest)[0..|longer|] == longer;
        TotalSnoc(open, rest[0]);
      }
      AllowedStaysWhole(longer, rest[1..], max);
    }
  }

  /** _split_relation_evidence_documents; None when the limit is not positive. */
  method SplitEvidence(docs: seq<Document>, max: int) returns (r: Option<seq<seq<Document>>>)
    ensures r.Some? <==> max >= 1
    ensures r.Some? ==> r.value == Segments(docs, max) && IsSegmentation(r.value, docs, max)
    ensures r.Some? ==> forall other :: IsSegmentation(other, docs, max) ==> |r.value| <= |other|
  {
    if max < 1 {
      return None;
    }
    var groups: seq<seq<Document>> := [];
    var open: seq<Document> := [];
    var size := 0;
    assert docs[0..] == docs;
    for i := 0 to |docs|
      invariant size == Total(open)
      invariant Segments(docs, max) == groups + Continue(open, docs[i..], max)
    {
      var document := docs[i];
      assert docs[i..][0] == document && docs[i..][1..] == docs[i + 1..];
      if open != [] && size + |document.text| > max {
        groups := groups + [open];
        open := [];
        size := 0;
      }
      assert Segments(docs, max) == groups + Continue(open + [document], docs[i + 1..], max) by {
        assert [] + [document] == [document];
      }
      TotalSnoc(open, document);
      open := open + [document];
      size := size + |document.text|;
    }
    assert docs[|docs|..] == [];
    if open != [] {
      groups := groups + [open];
    }
    ContinueIsSegmentation([], docs, max);
    assert [] + docs == docs;
    forall other | IsSegmentation(other, docs, max) ensures |groups| <= |other| {
      SegmentsAreMinimal(docs, max, other);
    }
    r := Some(groups);
  }
}
