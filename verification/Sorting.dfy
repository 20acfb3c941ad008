/** The specified sort that stands for the library's sorts and ordered maps, and
    the lexicographic order. */
module Sorting {

  predicate NatLeq(a: nat, b: nat) {
    a <= b
  }

  ghost predicate TotalPreorder<A(!new)>(leq: (A, A) -> bool) {
    && (forall a, b :: leq(a, b) || leq(b, a))
    && (forall a, b, c :: leq(a, b) && leq(b, c) ==> leq(a, c))
  }

  ghost predicate TotalOrder<A(!new)>(leq: (A, A) -> bool) {
    TotalPreorder(leq) && forall a, b :: leq(a, b) && leq(b, a) ==> a == b
  }

  ghost predicate Sorted<A>(leq: (A, A) -> bool, s: seq<A>) {
    forall i, j :: 0 <= i < j < |s| ==> leq(s[i], s[j])
  }

  /** Sorted and free of duplicates. */
  ghost predicate Ascending<A>(leq: (A, A) -> bool, s: seq<A>) {
    forall i, j :: 0 <= i < j < |s| ==> leq(s[i], s[j]) && s[i] != s[j]
  }

  function Insert<A>(leq: (A, A) -> bool, x: A, s: seq<A>): seq<A> {
    if s == [] || leq(x, s[0]) then [x] + s else [s[0]] + Insert(leq, x, s[1..])
  }

  function Sort<A>(leq: (A, A) -> bool, s: seq<A>): seq<A> {
    if s == [] then [] else Insert(leq, s[0], Sort(leq, s[1..]))
  }

  lemma {:induction false} InsertKeepsElements<A>(leq: (A, A) -> bool, x: A, s: seq<A>)
    ensures multiset(Insert(leq, x, s)) == multiset{x} + multiset(s)
  {
    if s == [] || leq(x, s[0]) {
    } else {
      InsertKeepsElements(leq, x, s[1..]);
      assert s == [s[0]] + s[1..];
    }
  }

  lemma {:induction false} InsertIsSorted<A(!new)>(leq: (A, A) -> bool, x: A, s: seq<A>)
    requires TotalPreorder(leq) && Sorted(leq, s)
    ensures Sorted(leq, Insert(leq, x, s))
  {
    if s == [] || leq(x, s[0]) {
    } else {
      InsertIsSorted(leq, x, s[1..]);
      InsertKeepsElements(leq, x, s[1..]);
      var rest := Insert(leq, x, s[1..]);
      forall j | 0 <= j < |rest|
        ensures leq(s[0], rest[j])
      {
        assert rest[j] in multiset(rest);
        assert rest[j] == x || rest[j] in s[1..];
      }
    }
  }

  lemma {:induction false} SortIsSorted<A(!new)>(leq: (A, A) -> bool, s: seq<A>)
    requires TotalPreorder(leq)
    ensures Sorted(leq, Sort(leq, s))
    ensures multiset(Sort(leq, s)) == multiset(s)
  {
    if s != [] {
      SortIsSorted(leq, s[1..]);
      InsertIsSorted(leq, s[0], Sort(leq, s[1..]));
      InsertKeepsElements(leq, s[0], Sort(leq, s[1..]));
      assert s == [s[0]] + s[1..];
    }
  }

  /** The elements of `s` that `leq` does not tell apart from `x`, in order. */
  ghost function Class<A>(leq: (A, A) -> bool, x: A, s: seq<A>): seq<A> {
    if s == [] then []
    else (if leq(x, s[0]) && leq(s[0], x) then [s[0]] else []) + Class(leq, x, s[1..])
  }

  lemma {:induction false} InsertIsStable<A(!new)>(leq: (A, A) -> bool, x: A, y: A, s: seq<A>)
    requires TotalPreorder(leq)
    ensures Class(leq, x, Insert(leq, y, s)) == Class(leq, x, [y] + s)
  {
    if s == [] || leq(y, s[0]) {
    } else {
      InsertIsStable(leq, x, y, s[1..]);
      assert ([s[0]] + Insert(leq, y, s[1..]))[1..] == Insert(leq, y, s[1..]);
      assert ([y] + s[1..])[1..] == s[1..] && ([y] + s)[1..] == s;
    }
  }

  /** The sort is stable: it keeps the order of elements it does not tell apart. */
  lemma {:induction false} SortIsStable<A(!new)>(leq: (A, A) -> bool, x: A, s: seq<A>)
    requires TotalPreorder(leq)
    ensures Class(leq, x, Sort(leq, s)) == Class(leq, x, s)
  {
    if s != [] {
      SortIsStable(leq, x, s[1..]);
      InsertIsStable(leq, x, s[0], Sort(leq, s[1..]));
      assert ([s[0]] + Sort(leq, s[1..]))[1..] == Sort(leq, s[1..]);
    }
  }

  /** `a` stands somewhere before `b`. */
  ghost predicate Before<A>(s: seq<A>, a: A, b: A) {
    exists i, j :: 0 <= i < j < |s| && s[i] == a && s[j] == b
  }

  lemma BeforeInTail<A>(s: seq<A>, a: A, b: A)
    requires s != []
    ensures Before(s, a, b) <==> (s[0] == a && b in s[1..]) || Before(s[1..], a, b)
  {
    if Before(s, a, b) {
      var i, j :| 0 <= i < j < |s| && s[i] == a && s[j] == b;
      assert s[1..][j - 1] == b;
      if i > 0 {
        assert s[1..][i - 1] == a;
      }
    }
    if s[0] == a && b in s[1..] {
      var j :| 0 <= j < |s[1..]| && s[1..][j] == b;
      assert s[j + 1] == b;
    }
    if Before(s[1..], a, b) {
      var i, j :| 0 <= i < j < |s[1..]| && s[1..][i] == a && s[1..][j] == b;
      assert s[i + 1] == a && s[j + 1] == b;
    }
  }

  lemma {:induction false} ClassElements<A>(leq: (A, A) -> bool, x: A, s: seq<A>, a: A)
    ensures a in Class(leq, x, s) <==> a in s && leq(x, a) && leq(a, x)
  {
    if s != [] {
      ClassElements(leq, x, s[1..], a);
      assert a in s <==> a == s[0] || a in s[1..];
    }
  }

  /** A class keeps the order of its elements. */
  lemma {:induction false} ClassKeepsOrder<A>(leq: (A, A) -> bool, x: A, s: seq<A>, a: A, b: A)
    requires leq(x, a) && leq(a, x) && leq(x, b) && leq(b, x)
    ensures Before(Class(leq, x, s), a, b) <==> Before(s, a, b)
  {
    if s != [] {
      ClassKeepsOrder(leq, x, s[1..], a, b);
      BeforeInTail(s, a, b);
      ClassElements(leq, x, s[1..], b);
      if leq(x, s[0]) && leq(s[0], x) {
        var found := Class(leq, x, s);
        assert found[1..] == Class(leq, x, s[1..]);
        BeforeInTail(found, a, b);
      } else {
        assert Class(leq, x, s) == Class(leq, x, s[1..]);
      }
    }
  }

  lemma SameElements<A>(s: seq<A>, t: seq<A>, x: A)
    requires multiset(s) == multiset(t)
    ensures x in s <==> x in t
  {
    assert x in s <==> x in multiset(s);
    assert x in t <==> x in multiset(t);
  }

  lemma SameTails<A>(s: seq<A>, t: seq<A>)
    requires s != [] && t != [] && s[0] == t[0] && multiset(s) == multiset(t)
    ensures multiset(s[1..]) == multiset(t[1..])
  {
    assert s == [s[0]] + s[1..] && t == [t[0]] + t[1..];
    assert multiset(s[1..]) == multiset(s) - multiset{s[0]};
    assert multiset(t[1..]) == multiset(t) - multiset{t[0]};
  }

  lemma SortedHead<A(!new)>(leq: (A, A) -> bool, s: seq<A>, x: A)
    requires TotalOrder(leq) && Sorted(leq, s) && x in s
    ensures leq(s[0], x)
  {
  }

  /** Sorting a permutation gives the same result. */
  lemma {:induction false} SortedIsUnique<A(!new)>(leq: (A, A) -> bool, s: seq<A>, t: seq<A>)
    requires TotalOrder(leq) && Sorted(leq, s) && Sorted(leq, t) && multiset(s) == multiset(t)
    ensures s == t
    decreases |s|
  {
    if s == [] {
      assert |multiset(t)| == 0;
    } else {
      SameElements(s, t, s[0]);
      SameElements(s, t, t[0]);
      SortedHead(leq, s, t[0]);
      SortedHead(leq, t, s[0]);
      assert s[0] == t[0];
      SameTails(s, t);
      SortedIsUnique(leq, s[1..], t[1..]);
    }
  }

  /** Removing adjacent duplicates. */
  function Dedup<A(==, !new)>(s: seq<A>): (r: seq<A>)
    ensures forall x :: x in r <==> x in s
    ensures s != [] ==> r != [] && r[0] == s[0]
  {
    if |s| <= 1 then s
    else if s[0] == s[1] then Dedup(s[1..])
    else [s[0]] + Dedup(s[1..])
  }

  lemma {:induction false} DedupIsAscending<A(!new)>(leq: (A, A) -> bool, s: seq<A>)
    requires TotalOrder(leq) && Sorted(leq, s)
    ensures Ascending(leq, Dedup(s))
  {
    if |s| > 1 {
      DedupIsAscending(leq, s[1..]);
      if s[0] != s[1] {
        var rest := Dedup(s[1..]);
        forall j | 0 <= j < |rest|
          ensures leq(s[0], rest[j]) && s[0] != rest[j]
        {
          assert rest[j] in s[1..];
          assert leq(s[1], rest[j]);
        }
      }
    }
  }

  lemma SomeElement<A>(s: seq<A>) returns (x: A)
    requires s != []
    ensures x in s
  {
    x := s[0];
  }

  /** An ascending sequence is determined by its elements. */
  lemma {:induction false} AscendingIsUnique<A(!new)>(leq: (A, A) -> bool, s: seq<A>, t: seq<A>)
    requires TotalOrder(leq) && Ascending(leq, s) && Ascending(leq, t)
    requires forall x :: x in s <==> x in t
    ensures s == t
  {
    if s == [] {
      if t != [] {
        var _ := SomeElement(t);
      }
    } else {
      assert s[0] in t;
      assert t[0] in s;
      assert s[0] == t[0];
      forall x
        ensures x in s[1..] <==> x in t[1..]
      {
        assert x in s <==> x == s[0] || x in s[1..];
        assert x in t <==> x == t[0] || x in t[1..];
      }
      AscendingIsUnique(leq, s[1..], t[1..]);
    }
  }

  lemma Transitive<A(!new)>(leq: (A, A) -> bool, a: A, b: A, c: A)
    requires TotalOrder(leq) && leq(a, b) && leq(b, c)
    ensures leq(a, c)
  {
  }

  lemma Comparable<A(!new)>(leq: (A, A) -> bool, a: A, b: A)
    requires TotalOrder(leq)
    ensures leq(a, b) || leq(b, a)
  {
  }

  lemma {:induction false} LeastExists<A(!new)>(leq: (A, A) -> bool, s: set<A>) returns (k: A)
    requires TotalOrder(leq) && s != {}
    ensures k in s && forall j :: j in s ==> leq(k, j)
  {
    hide TotalOrder;
    var x :| x in s;
    Comparable(leq, x, x);
    if s == {x} {
      k := x;
    } else {
      var least := LeastExists(leq, s - {x});
      Comparable(leq, x, least);
      k := if leq(x, least) then x else least;
      forall j | j in s
        ensures leq(k, j)
      {
        if j != x && leq(x, least) {
          Transitive(leq, x, least, j);
        }
      }
    }
  }

  /** The order in which an ordered map visits its keys. */
  method InOrder<A(==, !new)>(leq: (A, A) -> bool, keys: set<A>) returns (r: seq<A>)
    requires TotalOrder(leq)
    ensures Ascending(leq, r)
    ensures forall x :: x in r <==> x in keys
  {
    r := [];
    var rest := keys;
    while rest != {}
      invariant rest <= keys && Ascending(leq, r)
      invariant forall x :: x in r <==> x in keys - rest
      invariant forall x, y :: x in r && y in rest ==> leq(x, y)
      decreases rest
    {
      var _ := LeastExists(leq, rest);
      var k :| k in rest && forall j :: j in rest ==> leq(k, j);
      assert forall i :: 0 <= i < |r| ==> r[i] in r;
      r := r + [k];
      rest := rest - {k};
    }
  }

  // ----- Lexicographic order -----

  ghost predicate StrictOrder<A(!new)>(lt: (A, A) -> bool) {
    && (forall a :: !lt(a, a))
    && (forall a, b, c :: lt(a, b) && lt(b, c) ==> lt(a, c))
    && (forall a, b :: a == b || lt(a, b) || lt(b, a))
  }

  predicate Lex<A(==)>(lt: (A, A) -> bool, a: seq<A>, b: seq<A>) {
    b != [] && (a == [] || lt(a[0], b[0]) || (a[0] == b[0] && Lex(lt, a[1..], b[1..])))
  }

  /** The sequences agree up to `n`, where the first ends or holds less. */
  ghost predicate LessAt<A>(lt: (A, A) -> bool, a: seq<A>, b: seq<A>, n: nat) {
    n <= |a| && n < |b| && a[..n] == b[..n] && (n == |a| || lt(a[n], b[n]))
  }

  /** The first difference decides. */
  lemma {:induction false} LexMeans<A>(lt: (A, A) -> bool, a: seq<A>, b: seq<A>)
    ensures Lex(lt, a, b) <==> exists n: nat :: LessAt(lt, a, b, n)
  {
    if Lex(lt, a, b) {
      if a == [] || lt(a[0], b[0]) {
        assert LessAt(lt, a, b, 0);
      } else {
        LexMeans(lt, a[1..], b[1..]);
        var n: nat :| LessAt(lt, a[1..], b[1..], n);
        assert a == [a[0]] + a[1..] && b == [b[0]] + b[1..];
        assert LessAt(lt, a, b, n + 1);
      }
    }
    if n: nat :| LessAt(lt, a, b, n) {
      if n > 0 {
        assert a[0] == a[..n][0] == b[..n][0] == b[0];
        assert a[1..][..n - 1] == a[..n][1..] == b[..n][1..] == b[1..][..n - 1];
        assert LessAt(lt, a[1..], b[1..], n - 1);
        LexMeans(lt, a[1..], b[1..]);
      }
    }
  }

  lemma {:induction false} LexIrreflexive<A(!new)>(lt: (A, A) -> bool, a: seq<A>)
    requires StrictOrder(lt)
    ensures !Lex(lt, a, a)
  {
    if a != [] {
      LexIrreflexive(lt, a[1..]);
    }
  }

  lemma {:induction false} LexTransitive<A(!new)>(lt: (A, A) -> bool, a: seq<A>, b: seq<A>, c: seq<A>)
    requires StrictOrder(lt) && Lex(lt, a, b) && Lex(lt, b, c)
    ensures Lex(lt, a, c)
  {
    if a != [] && a[0] == b[0] == c[0] {
      LexTransitive(lt, a[1..], b[1..], c[1..]);
    }
  }

  lemma {:induction false} LexTotal<A(!new)>(lt: (A, A) -> bool, a: seq<A>, b: seq<A>)
    requires StrictOrder(lt)
    ensures a == b || Lex(lt, a, b) || Lex(lt, b, a)
  {
    if a != [] && b != [] && a[0] == b[0] {
      LexTotal(lt, a[1..], b[1..]);
      if a[1..] == b[1..] {
        assert a == [a[0]] + a[1..] && b == [b[0]] + b[1..];
      }
    }
  }

  /** The lexicographic order of a strict total order is one as well. */
  lemma LexIsStrictOrder<A(!new)>(lt: (A, A) -> bool, lex: (seq<A>, seq<A>) -> bool)
    requires StrictOrder(lt) && forall a, b :: lex(a, b) == Lex(lt, a, b)
    ensures StrictOrder(lex)
  {
    hide Lex;
    forall a
      ensures !lex(a, a)
    {
      LexIrreflexive(lt, a);
    }
    forall a, b, c | lex(a, b) && lex(b, c)
      ensures lex(a, c)
    {
      LexTransitive(lt, a, b, c);
    }
    forall a, b
      ensures a == b || lex(a, b) || lex(b, a)
    {
      LexTotal(lt, a, b);
    }
  }
}
