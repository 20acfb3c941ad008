/** Weighted edit distance as the least cost of an explicit edit script. */
module EditScripts {
  import opened Costs

  /** Pairing replaces a query token by a data token (possibly an equal one),
      deletion consumes a query token, insertion consumes a data token. */
  datatype Step<+T> = Pair(from: T, to: T) | Delete(token: T) | Insert(token: T)

  type Script<T> = seq<Step<T>>

  function StepCost<T>(p: Policy<T>, step: Step<T>): nat {
    match step
    case Pair(a, b) => p.substitution(a, b)
    case Delete(a) => p.deletion(a)
    case Insert(b) => p.insertion(b)
  }

  function Cost<T>(p: Policy<T>, s: Script<T>): nat {
    if s == [] then 0 else Cost(p, s[..|s| - 1]) + StepCost(p, s[|s| - 1])
  }

  function StepSource<T>(step: Step<T>): seq<T> {
    match step
    case Pair(a, _) => [a]
    case Delete(a) => [a]
    case Insert(_) => []
  }

  function StepTarget<T>(step: Step<T>): seq<T> {
    match step
    case Pair(_, b) => [b]
    case Delete(_) => []
    case Insert(b) => [b]
  }

  /** The query tokens a script consumes. */
  function Source<T>(s: Script<T>): seq<T> {
    if s == [] then [] else Source(s[..|s| - 1]) + StepSource(s[|s| - 1])
  }

  /** The data tokens a script produces. */
  function Target<T>(s: Script<T>): seq<T> {
    if s == [] then [] else Target(s[..|s| - 1]) + StepTarget(s[|s| - 1])
  }

  ghost predicate Aligns<T>(s: Script<T>, query: seq<T>, data: seq<T>) {
    Source(s) == query && Target(s) == data
  }

  /** `d` is the weighted edit distance: some script costs `d`, none costs less. */
  ghost predicate IsDistance<T(!new)>(p: Policy<T>, query: seq<T>, data: seq<T>, d: nat) {
    && (exists s: Script<T> :: Aligns(s, query, data) && Cost(p, s) == d)
    && (forall s: Script<T> :: Aligns(s, query, data) ==> d <= Cost(p, s))
  }

  /** Step `k` of the script pairs query position `i` with data position `j`. */
  ghost predicate PairsAt<T>(s: Script<T>, k: nat, i: nat, j: nat) {
    k < |s| && s[k].Pair? && |Source(s[..k])| == i && |Target(s[..k])| == j
  }

  ghost predicate Pairs<T>(s: Script<T>, i: nat, j: nat) {
    exists k: nat :: PairsAt(s, k, i, j)
  }

  /** `d` is the least cost over the scripts that pair `i` with `j`. */
  ghost predicate IsAnchoredDistance<T(!new)>(p: Policy<T>, query: seq<T>, data: seq<T>, i: nat, j: nat, d: nat) {
    && (exists s: Script<T> :: Aligns(s, query, data) && Pairs(s, i, j) && Cost(p, s) == d)
    && (forall s: Script<T> :: Aligns(s, query, data) && Pairs(s, i, j) ==> d <= Cost(p, s))
  }

  // ----- The recurrence, and its agreement with the least script cost -----

  function Least(a: nat, b: nat): nat {
    if b < a then b else a
  }

  /** The weighted edit distance by its last step. */
  function Wed<T>(p: Policy<T>, query: seq<T>, data: seq<T>): nat
    decreases |query| + |data|
  {
    var m, n := |query|, |data|;
    if m == 0 && n == 0 then 0
    else if n == 0 then Wed(p, query[..m - 1], data) + p.deletion(query[m - 1])
    else if m == 0 then Wed(p, query, data[..n - 1]) + p.insertion(data[n - 1])
    else
      Least(
        Least(
          Wed(p, query[..m - 1], data[..n - 1]) + p.substitution(query[m - 1], data[n - 1]),
          Wed(p, query, data[..n - 1]) + p.insertion(data[n - 1])),
        Wed(p, query[..m - 1], data) + p.deletion(query[m - 1]))
  }

  lemma WedOfNothing<T>(p: Policy<T>)
    ensures Wed(p, [], []) == 0
  {
  }

  lemma WedLastDeletion<T>(p: Policy<T>, query: seq<T>)
    requires query != []
    ensures Wed(p, query, []) == Wed(p, query[..|query| - 1], []) + p.deletion(query[|query| - 1])
  {
  }

  lemma WedLastInsertion<T>(p: Policy<T>, data: seq<T>)
    requires data != []
    ensures Wed(p, [], data) == Wed(p, [], data[..|data| - 1]) + p.insertion(data[|data| - 1])
  {
  }

  lemma WedLastStep<T>(p: Policy<T>, query: seq<T>, data: seq<T>)
    requires query != [] && data != []
    ensures var q, d, from, to := query[..|query| - 1], data[..|data| - 1], query[|query| - 1], data[|data| - 1];
            Wed(p, query, data) ==
            Least(Least(Wed(p, q, d) + p.substitution(from, to), Wed(p, query, d) + p.insertion(to)),
                  Wed(p, q, data) + p.deletion(from))
  {
  }

  lemma {:induction false} NoScriptIsCheaper<T>(p: Policy<T>, s: Script<T>)
    ensures Wed(p, Source(s), Target(s)) <= Cost(p, s)
    decreases |s|
  {
    if s != [] {
      var init, last := s[..|s| - 1], s[|s| - 1];
      NoScriptIsCheaper(p, init);
      var q, d := Source(s), Target(s);
      match last {
        case Pair(_, _) =>
          assert q[..|q| - 1] == Source(init) && d[..|d| - 1] == Target(init);
        case Delete(_) =>
          assert q[..|q| - 1] == Source(init) && d == Target(init);
        case Insert(_) =>
          assert q == Source(init) && d[..|d| - 1] == Target(init);
      }
    }
  }

  lemma EmptyScript<T>()
    ensures Source<T>([]) == [] && Target<T>([]) == []
  {
  }

  lemma AppendedSides<T>(s: Script<T>, step: Step<T>)
    ensures Source(s + [step]) == Source(s) + StepSource(step)
    ensures Target(s + [step]) == Target(s) + StepTarget(step)
  {
    assert (s + [step])[..|s + [step]| - 1] == s;
  }

  lemma Appended<T>(p: Policy<T>, s: Script<T>, step: Step<T>)
    ensures Source(s + [step]) == Source(s) + StepSource(step)
    ensures Target(s + [step]) == Target(s) + StepTarget(step)
    ensures Cost(p, s + [step]) == Cost(p, s) + StepCost(p, step)
  {
    AppendedSides(s, step);
    assert (s + [step])[..|s + [step]| - 1] == s;
  }

  /** The last step of a cheapest script. */
  function LastStep<T>(p: Policy<T>, query: seq<T>, data: seq<T>): Step<T>
    requires query != [] || data != []
  {
    var m, n := |query|, |data|;
    if n == 0 || (m != 0 && Wed(p, query[..m - 1], data) + p.deletion(query[m - 1]) == Wed(p, query, data)) then
      Delete(query[m - 1])
    else if m == 0 || Wed(p, query, data[..n - 1]) + p.insertion(data[n - 1]) == Wed(p, query, data) then
      Insert(data[n - 1])
    else
      Pair(query[m - 1], data[n - 1])
  }

  lemma LastStepIsBest<T>(p: Policy<T>, query: seq<T>, data: seq<T>)
    requires query != [] || data != []
    ensures |StepSource(LastStep(p, query, data))| <= |query| && |StepTarget(LastStep(p, query, data))| <= |data|
    ensures var last := LastStep(p, query, data);
            var q, d := query[..|query| - |StepSource(last)|], data[..|data| - |StepTarget(last)|];
            && q + StepSource(last) == query && d + StepTarget(last) == data
            && |q| + |d| < |query| + |data|
            && Wed(p, q, d) + StepCost(p, last) == Wed(p, query, data)
  {
    assert query[..|query|] == query && data[..|data|] == data;
  }

  /** The recurrence is attained by a script. */
  lemma {:induction false} BestScript<T>(p: Policy<T>, query: seq<T>, data: seq<T>) returns (s: Script<T>)
    ensures Aligns(s, query, data) && Cost(p, s) == Wed(p, query, data)
    decreases |query| + |data|
  {
    if query == [] && data == [] {
      return [];
    }
    hide Source, Target, Cost, Wed, LastStep, StepSource, StepTarget;
    LastStepIsBest(p, query, data);
    var last := LastStep(p, query, data);
    s := BestScript(p, query[..|query| - |StepSource(last)|], data[..|data| - |StepTarget(last)|]);
    Appended(p, s, last);
    s := s + [last];
  }

  /** The recurrence is the weighted edit distance. */
  lemma WedIsDistance<T(!new)>(p: Policy<T>, query: seq<T>, data: seq<T>)
    ensures IsDistance(p, query, data, Wed(p, query, data))
  {
    var best := BestScript(p, query, data);
    assert Aligns(best, query, data);
    forall s: Script<T> | Aligns(s, query, data)
      ensures Wed(p, query, data) <= Cost(p, s)
    {
      NoScriptIsCheaper(p, s);
    }
  }

  lemma DistanceIsUnique<T(!new)>(p: Policy<T>, query: seq<T>, data: seq<T>, a: nat, b: nat)
    requires IsDistance(p, query, data, a) && IsDistance(p, query, data, b)
    ensures a == b
  {
    var s: Script<T> :| Aligns(s, query, data) && Cost(p, s) == a;
    var t: Script<T> :| Aligns(t, query, data) && Cost(p, t) == b;
  }

  // ----- Concatenating and splitting scripts -----

  lemma Associative<T>(a: seq<T>, b: seq<T>, c: seq<T>)
    ensures (a + b) + c == a + (b + c)
  {
  }

  lemma {:induction false} ConcatenatedSource<T>(a: Script<T>, b: Script<T>)
    ensures Source(a + b) == Source(a) + Source(b)
    decreases |b|
  {
    hide Source, Target, StepSource, StepTarget;
    EmptyScript<T>();
    if b == [] {
      assert a + b == a;
    } else {
      var init, last := b[..|b| - 1], b[|b| - 1];
      ConcatenatedSource(a, init);
      AppendedSides(init, last);
      AppendedSides(a + init, last);
      assert b == init + [last] && a + b == a + init + [last];
      Associative(Source(a), Source(init), StepSource(last));
    }
  }

  lemma {:induction false} ConcatenatedTarget<T>(a: Script<T>, b: Script<T>)
    ensures Target(a + b) == Target(a) + Target(b)
    decreases |b|
  {
    hide Source, Target, StepSource, StepTarget;
    EmptyScript<T>();
    if b == [] {
      assert a + b == a;
    } else {
      var init, last := b[..|b| - 1], b[|b| - 1];
      ConcatenatedTarget(a, init);
      AppendedSides(init, last);
      AppendedSides(a + init, last);
      assert b == init + [last] && a + b == a + init + [last];
      Associative(Target(a), Target(init), StepTarget(last));
    }
  }

  lemma {:induction false} ConcatenatedCost<T>(p: Policy<T>, a: Script<T>, b: Script<T>)
    ensures Cost(p, a + b) == Cost(p, a) + Cost(p, b)
    decreases |b|
  {
    if b == [] {
      assert a + b == a;
    } else {
      ConcatenatedCost(p, a, b[..|b| - 1]);
      assert (a + b)[..|a + b| - 1] == a + b[..|b| - 1];
    }
  }

  lemma Singleton<T>(p: Policy<T>, step: Step<T>)
    ensures Source([step]) == StepSource(step)
    ensures Target([step]) == StepTarget(step)
    ensures Cost(p, [step]) == StepCost(p, step)
  {
    assert [step][..0] == [];
  }

  lemma Joined<T>(p: Policy<T>, before: Script<T>, step: Step<T>, after: Script<T>)
    ensures Source(before + [step] + after) == Source(before) + StepSource(step) + Source(after)
    ensures Target(before + [step] + after) == Target(before) + StepTarget(step) + Target(after)
    ensures Cost(p, before + [step] + after) == Cost(p, before) + StepCost(p, step) + Cost(p, after)
  {
    ConcatenatedSource(before + [step], after);
    ConcatenatedTarget(before + [step], after);
    ConcatenatedCost(p, before + [step], after);
    Appended(p, before, step);
  }

  lemma SplitAt<T>(p: Policy<T>, s: Script<T>, k: nat)
    requires k < |s|
    ensures Source(s) == Source(s[..k]) + StepSource(s[k]) + Source(s[k + 1..])
    ensures Target(s) == Target(s[..k]) + StepTarget(s[k]) + Target(s[k + 1..])
    ensures Cost(p, s) == Cost(p, s[..k]) + StepCost(p, s[k]) + Cost(p, s[k + 1..])
  {
    assert s == s[..k] + [s[k]] + s[k + 1..];
    Joined(p, s[..k], s[k], s[k + 1..]);
  }

  /** The cost of meeting at an anchor: the two sides are independent. */
  function AnchoredWed<T>(p: Policy<T>, query: seq<T>, data: seq<T>, i: nat, j: nat): nat
    requires i < |query| && j < |data|
  {
    Wed(p, query[..i], data[..j]) + p.substitution(query[i], data[j]) + Wed(p, query[i + 1..], data[j + 1..])
  }

  lemma SplitSequence<T>(s: seq<T>, i: nat)
    requires i < |s|
    ensures s[..i] + [s[i]] + s[i + 1..] == s
  {
  }

  lemma PairedInside<T>(before: Script<T>, step: Step<T>, after: Script<T>)
    requires step.Pair?
    ensures Pairs(before + [step] + after, |Source(before)|, |Target(before)|)
  {
    assert (before + [step] + after)[..|before|] == before;
    assert PairsAt(before + [step] + after, |before|, |Source(before)|, |Target(before)|);
  }

  lemma AnchoredScript<T>(p: Policy<T>, query: seq<T>, data: seq<T>, i: nat, j: nat) returns (s: Script<T>)
    requires i < |query| && j < |data|
    ensures Aligns(s, query, data) && Pairs(s, i, j) && Cost(p, s) == AnchoredWed(p, query, data, i, j)
  {
    var before := BestScript(p, query[..i], data[..j]);
    var after := BestScript(p, query[i + 1..], data[j + 1..]);
    s := before + [Pair(query[i], data[j])] + after;
    Joined(p, before, Pair(query[i], data[j]), after);
    SplitSequence(query, i);
    SplitSequence(data, j);
    PairedInside(before, Pair(query[i], data[j]), after);
  }

  lemma PartsOf<T>(whole: seq<T>, before: seq<T>, middle: T, after: seq<T>)
    requires whole == before + [middle] + after
    ensures |before| < |whole| && whole[..|before|] == before && whole[|before|] == middle
    ensures whole[|before| + 1..] == after
  {
  }

  lemma NoAnchoredScriptIsCheaper<T>(p: Policy<T>, s: Script<T>, i: nat, j: nat)
    requires Pairs(s, i, j)
    ensures i < |Source(s)| && j < |Target(s)|
    ensures AnchoredWed(p, Source(s), Target(s), i, j) <= Cost(p, s)
  {
    var k: nat :| PairsAt(s, k, i, j);
    hide Wed, Source, Target, Cost;
    var before, after := s[..k], s[k + 1..];
    SplitAt(p, s, k);
    PartsOf(Source(s), Source(before), s[k].from, Source(after));
    PartsOf(Target(s), Target(before), s[k].to, Target(after));
    NoScriptIsCheaper(p, before);
    NoScriptIsCheaper(p, after);
  }

  /** No anchor beats the distance. */
  lemma AnchoredNeverCheaper<T>(p: Policy<T>, query: seq<T>, data: seq<T>, i: nat, j: nat)
    requires i < |query| && j < |data|
    ensures Wed(p, query, data) <= AnchoredWed(p, query, data, i, j)
  {
    var s := AnchoredScript(p, query, data, i, j);
    NoScriptIsCheaper(p, s);
  }

  /** Meeting at the anchor costs the least over all scripts that use it. */
  lemma AnchoredWedIsLeast<T(!new)>(p: Policy<T>, query: seq<T>, data: seq<T>, i: nat, j: nat)
    requires i < |query| && j < |data|
    ensures IsAnchoredDistance(p, query, data, i, j, AnchoredWed(p, query, data, i, j))
    ensures Wed(p, query, data) <= AnchoredWed(p, query, data, i, j)
  {
    AnchoredNeverCheaper(p, query, data, i, j);
    var best := AnchoredScript(p, query, data, i, j);
    forall s: Script<T> | Aligns(s, query, data) && Pairs(s, i, j)
      ensures AnchoredWed(p, query, data, i, j) <= Cost(p, s)
    {
      NoAnchoredScriptIsCheaper(p, s, i, j);
    }
  }

  // ----- Reversal -----

  function Reversed<T>(s: seq<T>): (r: seq<T>)
    ensures |r| == |s|
    ensures forall k :: 0 <= k < |s| ==> r[k] == s[|s| - 1 - k]
  {
    seq(|s|, k requires 0 <= k < |s| => s[|s| - 1 - k])
  }

  /** Reversing a script followed by at most one more element. */
  lemma ReversedAppended<T>(s: seq<T>, last: seq<T>)
    requires |last| <= 1
    ensures Reversed(s + last) == last + Reversed(s)
  {
  }

  lemma {:induction false} ReversedSource<T>(s: Script<T>)
    ensures Source(Reversed(s)) == Reversed(Source(s))
    decreases |s|
  {
    if s != [] {
      var init, last := s[..|s| - 1], s[|s| - 1];
      ReversedSource(init);
      ReversedAppended(init, [last]);
      assert s == init + [last];
      assert [last][..0] == [];
      ConcatenatedSource([last], Reversed(init));
      ReversedAppended(Source(init), StepSource(last));
    }
  }

  lemma {:induction false} ReversedTarget<T>(s: Script<T>)
    ensures Target(Reversed(s)) == Reversed(Target(s))
    decreases |s|
  {
    if s != [] {
      var init, last := s[..|s| - 1], s[|s| - 1];
      ReversedTarget(init);
      ReversedAppended(init, [last]);
      assert s == init + [last];
      assert [last][..0] == [];
      ConcatenatedTarget([last], Reversed(init));
      ReversedAppended(Target(init), StepTarget(last));
    }
  }

  lemma {:induction false} ReversedCost<T>(p: Policy<T>, s: Script<T>)
    ensures Cost(p, Reversed(s)) == Cost(p, s)
    decreases |s|
  {
    if s != [] {
      var init, last := s[..|s| - 1], s[|s| - 1];
      ReversedCost(p, init);
      assert Reversed(s) == [last] + Reversed(init);
      ConcatenatedCost(p, [last], Reversed(init));
      Singleton(p, last);
    }
  }

  lemma ReversalNeverCheaper<T>(p: Policy<T>, query: seq<T>, data: seq<T>)
    ensures Wed(p, Reversed(query), Reversed(data)) <= Wed(p, query, data)
  {
    var best := BestScript(p, query, data);
    ReversedSource(best);
    ReversedTarget(best);
    ReversedCost(p, best);
    NoScriptIsCheaper(p, Reversed(best));
  }

  /** Reversing both sides keeps the distance, whatever the asymmetry of the costs. */
  lemma ReversalKeepsDistance<T>(p: Policy<T>, query: seq<T>, data: seq<T>)
    ensures Wed(p, Reversed(query), Reversed(data)) == Wed(p, query, data)
  {
    ReversalNeverCheaper(p, query, data);
    ReversalNeverCheaper(p, Reversed(query), Reversed(data));
    assert Reversed(Reversed(query)) == query && Reversed(Reversed(data)) == data;
  }
}
