/** Counting in sequences and sets. */
module Collections {

  ghost predicate Distinct<A>(s: seq<A>) {
    forall i, j :: 0 <= i < j < |s| ==> s[i] != s[j]
  }

  /** A sequence of distinct elements is as long as the set of them. */
  lemma {:induction false} DistinctCardinality<A>(s: seq<A>, elements: set<A>)
    requires Distinct(s) && forall v :: v in elements <==> v in s
    ensures |elements| == |s|
    decreases |s|
  {
    if s == [] {
      assert elements == {};
    } else {
      var init, last := s[..|s| - 1], s[|s| - 1];
      assert forall v :: v in s <==> v in init || v == last;
      DistinctCardinality(init, elements - {last});
    }
  }

  lemma {:induction false} SubsetCardinality<A>(a: set<A>, b: set<A>)
    requires a <= b
    ensures |a| <= |b| && (|a| == |b| ==> a == b)
    decreases |a|
  {
    if a == {} {
      assert |b| == 0 ==> b == {};
    } else {
      var x :| x in a;
      SubsetCardinality(a - {x}, b - {x});
      assert a == (a - {x}) + {x} && b == (b - {x}) + {x};
    }
  }

  lemma {:induction false} OccursOnceEach<A>(s: seq<A>, x: A)
    requires Distinct(s)
    ensures multiset(s)[x] <= 1
    decreases |s|
  {
    if s != [] {
      OccursOnceEach(s[1..], x);
      assert s == [s[0]] + s[1..];
      if x == s[0] {
        assert x !in s[1..];
      }
    }
  }

  /** A permutation of distinct elements is distinct. */
  lemma PermutationStaysDistinct<A(!new)>(s: seq<A>, permuted: seq<A>)
    requires multiset(permuted) == multiset(s) && Distinct(s)
    ensures |permuted| == |s| && Distinct(permuted)
    ensures forall x :: x in permuted <==> x in s
  {
    assert |multiset(permuted)| == |multiset(s)|;
    forall x
      ensures x in permuted <==> x in s
    {
      assert x in permuted <==> x in multiset(permuted);
      assert x in s <==> x in multiset(s);
    }
    forall i, j | 0 <= i < j < |permuted|
      ensures permuted[i] != permuted[j]
    {
      OccursOnceEach(s, permuted[i]);
      assert permuted == permuted[..j] + [permuted[j]] + permuted[j + 1..];
      assert permuted[i] in permuted[..j];
    }
  }
}
