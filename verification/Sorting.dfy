// A canonical order of records: two lists sort alike exactly when they hold the same
// records equally often.
module Sorting {

  /** Lexicographic order of keys. */
  predicate Leq(a: seq<int>, b: seq<int>) {
    if a == [] then true
    else if b == [] then false
    else a[0] < b[0] || (a[0] == b[0] && Leq(a[1..], b[1..]))
  }

  function Insert(x: seq<int>, sorted: seq<seq<int>>): seq<seq<int>> {
    if sorted == [] then [x]
    else if Leq(x, sorted[0]) then [x] + sorted
    else [sorted[0]] + Insert(x, sorted[1..])
  }

  function Sort(keys: seq<seq<int>>): seq<seq<int>> {
    if keys == [] then [] else Insert(keys[0], Sort(keys[1..]))
  }

  predicate IsSorted(keys: seq<seq<int>>) {
    forall i, j | 0 <= i < j < |keys| :: Leq(keys[i], keys[j])
  }

  lemma {:induction false} LeqTotal(a: seq<int>, b: seq<int>)
    ensures Leq(a, b) || Leq(b, a)
  {
    if a != [] && b != [] {
      LeqTotal(a[1..], b[1..]);
    }
  }

  lemma {:induction false} LeqAntisymmetric(a: seq<int>, b: seq<int>)
    requires Leq(a, b) && Leq(b, a)
    ensures a == b
  {
    if a != [] {
      LeqAntisymmetric(a[1..], b[1..]);
      assert a == [a[0]] + a[1..] && b == [b[0]] + b[1..];
    }
  }

  lemma {:induction false} LeqTransitive(a: seq<int>, b: seq<int>, c: seq<int>)
    requires Leq(a, b) && Leq(b, c)
    ensures Leq(a, c)
  {
    if a != [] && a[0] == b[0] && b[0] == c[0] {
      LeqTransitive(a[1..], b[1..], c[1..]);
    }
  }

  lemma {:induction false} InsertKeeps(x: seq<int>, sorted: seq<seq<int>>)
    ensures multiset(Insert(x, sorted)) == multiset(sorted) + multiset{x}
  {
    if sorted != [] && !Leq(x, sorted[0]) {
      InsertKeeps(x, sorted[1..]);
      assert sorted == [sorted[0]] + sorted[1..];
    }
  }

  lemma {:induction false} InsertMembers(x: seq<int>, sorted: seq<seq<int>>)
    ensures forall y | y in Insert(x, sorted) :: y == x || y in sorted
  {
    if sorted != [] && !Leq(x, sorted[0]) {
      InsertMembers(x, sorted[1..]);
    }
  }

  lemma SortedCons(x: seq<int>, sorted: seq<seq<int>>)
    requires IsSorted(sorted) && forall y | y in sorted :: Leq(x, y)
    ensures IsSorted([x] + sorted)
  {
    var all := [x] + sorted;
    forall i, j | 0 <= i < j < |all| ensures Leq(all[i], all[j]) {
      assert all[j] == sorted[j - 1];
      if i == 0 {
        assert sorted[j - 1] in sorted;
      }
    }
  }

  lemma {:induction false} InsertSorts(x: seq<int>, sorted: seq<seq<int>>)
    requires IsSorted(sorted)
    ensures IsSorted(Insert(x, sorted))
  {
    if sorted != [] {
      var first, rest := sorted[0], sorted[1..];
      if Leq(x, first) {
        forall y | y in sorted ensures Leq(x, y) {
          var k :| 0 <= k < |sorted| && sorted[k] == y;
          if k > 0 {
            LeqTransitive(x, first, y);
          }
        }
        SortedCons(x, sorted);
      } else {
        LeqTotal(x, first);
        InsertSorts(x, rest);
        InsertMembers(x, rest);
        forall y | y in Insert(x, rest) ensures Leq(first, y) {
          if y in rest {
            var k :| 0 <= k < |rest| && rest[k] == y;
            assert sorted[k + 1] == y;
          }
        }
        SortedCons(first, Insert(x, rest));
      }
    }
  }

  lemma {:induction false} SortSorts(keys: seq<seq<int>>)
    ensures IsSorted(Sort(keys)) && multiset(Sort(keys)) == multiset(keys)
  {
    if keys != [] {
      SortSorts(keys[1..]);
      InsertSorts(keys[0], Sort(keys[1..]));
      InsertKeeps(keys[0], Sort(keys[1..]));
      assert keys == [keys[0]] + keys[1..];
    }
  }

  lemma FirstIsLeast(sorted: seq<seq<int>>, x: seq<int>)
    requires IsSorted(sorted) && x in sorted
    ensures Leq(sorted[0], x)
  {
    hide Leq;
    var i :| 0 <= i < |sorted| && sorted[i] == x;
    LeqTotal(x, x);
  }

  lemma TailIsSorted(sorted: seq<seq<int>>)
    requires IsSorted(sorted) && sorted != []
    ensures IsSorted(sorted[1..])
    ensures multiset(sorted[1..]) == multiset(sorted) - multiset{sorted[0]}
  {
    hide Leq;
    assert forall k | 0 <= k < |sorted| - 1 :: sorted[1..][k] == sorted[k + 1];
    assert sorted == [sorted[0]] + sorted[1..];
  }

  lemma {:induction false} SortedUnique(a: seq<seq<int>>, b: seq<seq<int>>)
    requires IsSorted(a) && IsSorted(b) && multiset(a) == multiset(b)
    ensures a == b
  {
    hide Leq, IsSorted;
    assert |a| == |multiset(a)| == |multiset(b)| == |b|;
    if a != [] {
      assert a[0] in multiset(b) && b[0] in multiset(a);
      FirstIsLeast(a, b[0]);
      FirstIsLeast(b, a[0]);
      LeqAntisymmetric(a[0], b[0]);
      TailIsSorted(a);
      TailIsSorted(b);
      SortedUnique(a[1..], b[1..]);
      assert a == [a[0]] + a[1..] && b == [b[0]] + b[1..];
    }
  }

  /** Sorting identifies a list with the multiset of its records. */
  lemma SortIsCanonical(a: seq<seq<int>>, b: seq<seq<int>>)
    ensures Sort(a) == Sort(b) <==> multiset(a) == multiset(b)
  {
    SortSorts(a);
    SortSorts(b);
    if multiset(a) == multiset(b) {
      SortedUnique(Sort(a), Sort(b));
    }
  }
}
