/**
 * Ascending order on strings, as Go's sort.Strings uses it, and a sort on
 * sequences of strings.
 *
 * Go compares strings byte by byte in their UTF-8 encoding; for Unicode scalar
 * values that order is the order of code points, which is what comparing
 * `char`s here gives.
 */
module Sorting {
  import opened Seqs

  /** `a` sorts before or equal to `b`: a prefix of `b`, or smaller at the first difference. */
  predicate LexLe(a: string, b: string)
    decreases |a|
  {
    a == [] || (b != [] && (a[0] < b[0] || (a[0] == b[0] && LexLe(a[1..], b[1..]))))
  }

  lemma {:induction false} LexLeRefl(a: string)
    ensures LexLe(a, a)
    decreases |a|
  {
    if a != [] { LexLeRefl(a[1..]); }
  }

  /** Any two strings are comparable. */
  lemma {:induction false} LexLeTotal(a: string, b: string)
    ensures LexLe(a, b) || LexLe(b, a)
    decreases |a|
  {
    if a != [] && b != [] && a[0] == b[0] { LexLeTotal(a[1..], b[1..]); }
  }

  /** Two strings each sorting before the other are equal. */
  lemma {:induction false} LexLeAntisymmetric(a: string, b: string)
    requires LexLe(a, b) && LexLe(b, a)
    ensures a == b
    decreases |a|
  {
    if a != [] {
      LexLeAntisymmetric(a[1..], b[1..]);
      assert a == [a[0]] + a[1..] && b == [b[0]] + b[1..];
    }
  }

  lemma {:induction false} LexLeTransitive(a: string, b: string, c: string)
    requires LexLe(a, b) && LexLe(b, c)
    ensures LexLe(a, c)
    decreases |a|
  {
    if a != [] && a[0] == b[0] && b[0] == c[0] {
      LexLeTransitive(a[1..], b[1..], c[1..]);
    }
  }

  /** Strings that agree before index k and differ there are ordered by their characters at k. */
  lemma {:induction false} LexLeAt(a: string, b: string, k: nat)
    requires k < |a| && k < |b| && a[..k] == b[..k] && a[k] < b[k]
    ensures LexLe(a, b)
    decreases k
  {
    if k > 0 {
      assert a[0] == a[..k][0] == b[..k][0] == b[0];
      assert a[1..][..k - 1] == a[..k][1..] == b[..k][1..] == b[1..][..k - 1];
      LexLeAt(a[1..], b[1..], k - 1);
    }
  }

  /** Every element sorts before or equal to every later one. */
  predicate Sorted(xs: seq<string>) {
    forall i, j | 0 <= i < j < |xs| :: LexLe(xs[i], xs[j])
  }

  /** Inserts `x` into a sorted sequence before the first element it sorts before. */
  function Insert(x: string, xs: seq<string>): (r: seq<string>)
    requires Sorted(xs)
    ensures Sorted(r) && multiset(r) == multiset(xs) + multiset{x}
    decreases |xs|
  {
    if xs == [] then [x]
    else if LexLe(x, xs[0]) then
      InsertFront(x, xs);
      [x] + xs
    else
      var rest := Insert(x, xs[1..]);
      LexLeTotal(x, xs[0]);
      InsertBehind(xs[0], rest, x, xs[1..]);
      assert xs == [xs[0]] + xs[1..];
      [xs[0]] + rest
  }

  /** Putting an element smaller than the head in front keeps a sequence sorted. */
  lemma InsertFront(x: string, xs: seq<string>)
    requires Sorted(xs) && xs != [] && LexLe(x, xs[0])
    ensures Sorted([x] + xs)
  {
    var r := [x] + xs;
    forall i, j | 0 <= i < j < |r| ensures LexLe(r[i], r[j]) {
      if i == 0 && j > 1 { LexLeTransitive(x, xs[0], xs[j - 1]); }
    }
  }

  /** The head of a sorted sequence goes in front of the insertion into its tail. */
  lemma InsertBehind(h: string, rest: seq<string>, x: string, tail: seq<string>)
    requires Sorted(rest) && LexLe(h, x)
    requires forall k | 0 <= k < |tail| :: LexLe(h, tail[k])
    requires multiset(rest) == multiset(tail) + multiset{x}
    ensures Sorted([h] + rest)
  {
    var r := [h] + rest;
    forall i, j | 0 <= i < j < |r| ensures LexLe(r[i], r[j]) {
      if i == 0 {
        var y := rest[j - 1];
        assert y in multiset(rest);
        if y != x {
          assert y in multiset(tail);
          var k :| 0 <= k < |tail| && tail[k] == y;
        }
      }
    }
  }

  /** sort.Strings: the sorted rearrangement of `xs`. */
  function SortStrings(xs: seq<string>): (r: seq<string>)
    ensures Sorted(r) && multiset(r) == multiset(xs)
    decreases |xs|
  {
    if xs == [] then []
    else
      assert xs == [xs[0]] + xs[1..];
      Insert(xs[0], SortStrings(xs[1..]))
  }

  /** Two nonempty sorted sequences with the same elements start with the same element. */
  lemma SortedHeads(a: seq<string>, b: seq<string>)
    requires Sorted(a) && Sorted(b) && multiset(a) == multiset(b) && a != []
    ensures b != [] && a[0] == b[0]
  {
    assert |b| == |multiset(b)| == |a|;
    assert a[0] in multiset(b) && b[0] in multiset(a);
    var i :| 0 <= i < |b| && b[i] == a[0];
    var j :| 0 <= j < |a| && a[j] == b[0];
    assert LexLe(b[0], a[0]) by {
      if i == 0 { LexLeRefl(b[0]); } else { assert LexLe(b[0], b[i]); }
    }
    assert LexLe(a[0], b[0]) by {
      if j == 0 { LexLeRefl(a[0]); } else { assert LexLe(a[0], a[j]); }
    }
    LexLeAntisymmetric(a[0], b[0]);
  }

  /** Two sorted sequences with the same elements are equal: sorting has only one answer. */
  lemma {:induction false} SortedUnique(a: seq<string>, b: seq<string>)
    requires Sorted(a) && Sorted(b) && multiset(a) == multiset(b)
    ensures a == b
    decreases |a|
  {
    if a != [] {
      SortedHeads(a, b);
      assert a == [a[0]] + a[1..] && b == [b[0]] + b[1..];
      assert multiset(a[1..]) == multiset(a) - multiset{a[0]};
      assert multiset(b[1..]) == multiset(b) - multiset{b[0]};
      SortedUnique(a[1..], b[1..]);
    } else {
      assert |b| == |multiset(b)| == 0;
    }
  }

  /** The sort of a sequence depends only on which elements it holds, not on their order. */
  lemma SortIgnoresOrder(a: seq<string>, b: seq<string>)
    requires multiset(a) == multiset(b)
    ensures SortStrings(a) == SortStrings(b)
  {
    SortedUnique(SortStrings(a), SortStrings(b));
  }

  /** Sorting keeps the elements, and keeps a sequence without repetitions free of them. */
  lemma SortKeepsElements(xs: seq<string>)
    ensures Elems(SortStrings(xs)) == Elems(xs)
    ensures Distinct(xs) ==> Distinct(SortStrings(xs))
  {
    var r := SortStrings(xs);
    forall x ensures x in r <==> x in xs {
      assert x in r <==> x in multiset(r);
      assert x in xs <==> x in multiset(xs);
    }
    if Distinct(xs) {
      DistinctPermutation(xs, r);
    }
  }

  /**
   * A sorted list without repetitions is determined by its elements: any two
   * such lists of the same elements are equal, whatever order they were
   * collected in.
   */
  lemma SortedDistinctUnique(a: seq<string>, b: seq<string>)
    requires Sorted(a) && Sorted(b) && Distinct(a) && Distinct(b) && Elems(a) == Elems(b)
    ensures a == b
  {
    DistinctSameElems(a, b);
    SortedUnique(a, b);
  }
}
