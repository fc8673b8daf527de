/** Joining a list of strings with a separator, as the message builders and the query builder do. */
module Text {

  /** The elements of `xs` in order, with `sep` between each two consecutive ones. */
  function Join(xs: seq<string>, sep: string): string
    decreases |xs|
  {
    if xs == [] then ""
    else if |xs| == 1 then xs[0]
    else xs[0] + sep + Join(xs[1..], sep)
  }

  /** The total length of the elements of `xs`. */
  function TotalLength(xs: seq<string>): nat
    decreases |xs|
  {
    if xs == [] then 0 else |xs[0]| + TotalLength(xs[1..])
  }

  /** Where element `k` of `xs` starts in Join(xs, sep). */
  function Offset(xs: seq<string>, sep: string, k: nat): nat
    requires k <= |xs|
    decreases k
  {
    if k == 0 then 0 else |xs[0]| + |sep| + Offset(xs[1..], sep, k - 1)
  }

  /** Appending one element extends the joined text by one separator and that element. */
  lemma {:induction false} JoinSnoc(xs: seq<string>, y: string, sep: string)
    ensures Join(xs + [y], sep) == if xs == [] then y else Join(xs, sep) + sep + y
    decreases |xs|
  {
    if |xs| > 1 {
      assert (xs + [y])[1..] == xs[1..] + [y];
      JoinSnoc(xs[1..], y, sep);
    } else if |xs| == 1 {
      assert (xs + [y])[1..] == [y];
    }
  }

  /** A nonempty list of n elements is joined with exactly n - 1 separators. */
  lemma {:induction false} JoinLength(xs: seq<string>, sep: string)
    requires xs != []
    ensures |Join(xs, sep)| == TotalLength(xs) + (|xs| - 1) * |sep|
    decreases |xs|
  {
    if |xs| > 1 {
      JoinLength(xs[1..], sep);
      assert TotalLength(xs[1..]) + (|xs| - 2) * |sep| + |sep| == TotalLength(xs[1..]) + (|xs| - 1) * |sep|;
      assert TotalLength(xs) == |xs[0]| + TotalLength(xs[1..]);
    } else {
      assert TotalLength(xs[1..]) == 0;
    }
  }

  /** Element `k` of `xs` sits in Join(xs, sep) at Offset(xs, sep, k). */
  lemma {:induction false} JoinElementAt(xs: seq<string>, sep: string, k: nat)
    requires k < |xs|
    ensures Offset(xs, sep, k) + |xs[k]| <= |Join(xs, sep)|
    ensures Join(xs, sep)[Offset(xs, sep, k)..Offset(xs, sep, k) + |xs[k]|] == xs[k]
    decreases k
  {
    var j := Join(xs, sep);
    if k == 0 {
      if |xs| > 1 {
        assert j == xs[0] + (sep + Join(xs[1..], sep));
      }
      assert j[0..|xs[0]|] == xs[0];
    } else {
      var head := xs[0] + sep;
      var tail := Join(xs[1..], sep);
      assert j == head + tail;
      JoinElementAt(xs[1..], sep, k - 1);
      var o := Offset(xs[1..], sep, k - 1);
      assert xs[1..][k - 1] == xs[k];
      SliceOfSuffix(head, tail, o, o + |xs[k]|);
    }
  }

  /** Unless element `k` of `xs` is the last, a separator follows it directly in Join(xs, sep). */
  lemma {:induction false} JoinSeparatorAfter(xs: seq<string>, sep: string, k: nat)
    requires k + 1 < |xs|
    ensures Offset(xs, sep, k) + |xs[k]| + |sep| <= |Join(xs, sep)|
    ensures Join(xs, sep)[Offset(xs, sep, k) + |xs[k]|..Offset(xs, sep, k) + |xs[k]| + |sep|] == sep
    decreases k
  {
    var j := Join(xs, sep);
    if k == 0 {
      assert j == xs[0] + sep + Join(xs[1..], sep);
      assert j[|xs[0]|..|xs[0]| + |sep|] == sep;
    } else {
      var head := xs[0] + sep;
      var tail := Join(xs[1..], sep);
      assert j == head + tail;
      JoinSeparatorAfter(xs[1..], sep, k - 1);
      var o := Offset(xs[1..], sep, k - 1);
      assert xs[1..][k - 1] == xs[k];
      SliceOfSuffix(head, tail, o + |xs[k]|, o + |xs[k]| + |sep|);
    }
  }

  /** A slice of the second part of a concatenation, shifted by the length of the first. */
  lemma SliceOfSuffix(a: string, b: string, i: nat, m: nat)
    requires i <= m <= |b|
    ensures (a + b)[|a| + i..|a| + m] == b[i..m]
  {
  }
}
