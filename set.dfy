/**
 * The generic set of the utilities package: a map from items to `true`,
 * changed in place by Add and Remove.
 */
module Sets {
  import opened Seqs

  class Set<T(==)> {
    /** The backing map; an item is a member when it is a key. */
    var m: map<T, bool>

    /** The members of the set. */
    function Elements(): set<T>
      reads this
    {
      m.Keys
    }

    /** New: an empty set. */
    constructor New()
      ensures Elements() == {} && Length() == 0
    {
      m := map[];
    }

    /** Add: after it `i` is a member, and no other membership changes. */
    method Add(i: T)
      modifies this
      ensures Contains(i) && Elements() == old(Elements()) + {i}
      ensures Length() == old(Length()) + (if old(Contains(i)) then 0 else 1)
    {
      m := m[i := true];
    }

    /** Remove: after it `i` is not a member, and no other membership changes. */
    method Remove(i: T)
      modifies this
      ensures !Contains(i) && Elements() == old(Elements()) - {i}
      ensures Length() == old(Length()) - (if old(Contains(i)) then 1 else 0)
    {
      m := m - {i};
    }

    /** Contains: whether `i` is a key of the map, whatever its value. */
    function Contains(i: T): (r: bool)
      reads this
      ensures r <==> i in Elements()
    {
      i in m
    }

    /** Length: the number of members. */
    function Length(): (r: nat)
      reads this
      ensures r == |Elements()|
    {
      |m|
    }

    /**
     * ToArray: every member once, in the map's iteration order, which is left
     * unspecified (Go randomises it).
     */
    method ToArray() returns (result: seq<T>)
      ensures |result| == Length() && Distinct(result)
      ensures forall x :: x in result <==> Contains(x)
    {
      result := [];
      var rest := m.Keys;
      while rest != {}
        invariant rest <= m.Keys && Distinct(result)
        invariant forall x :: x in result <==> x in m.Keys && x !in rest
        invariant |result| + |rest| == |m.Keys|
        decreases |rest|
      {
        var k :| k in rest;
        DistinctSnoc(result, k);
        result := result + [k];
        rest := rest - {k};
      }
    }
  }
}
