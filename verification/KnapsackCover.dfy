/** The primal-dual argument behind position selection: weights, contributions,
    a bound to cover, and the dual payments that certify a chosen cover. */
module KnapsackCover {

  // ----- Sums over sets of positions -----

  function Total(v: seq<nat>, s: set<nat>): nat {
    if v == [] then 0
    else Total(v[..|v| - 1], s) + if |v| - 1 in s then v[|v| - 1] else 0
  }

  function RealTotal(v: seq<real>, s: set<nat>): real {
    if v == [] then 0.0
    else RealTotal(v[..|v| - 1], s) + if |v| - 1 in s then v[|v| - 1] else 0.0
  }

  /** What each position still gains towards a residual. */
  function Gains(c: seq<nat>, residual: nat): (g: seq<nat>)
    ensures |g| == |c| && forall i :: 0 <= i < |c| ==> g[i] == if c[i] < residual then c[i] else residual
  {
    seq(|c|, i requires 0 <= i < |c| => if c[i] < residual then c[i] else residual)
  }

  lemma {:induction false} TotalSplits(v: seq<nat>, s: set<nat>, a: set<nat>)
    ensures Total(v, s) <= Total(v, s - a) + Total(v, a)
    ensures a <= s ==> Total(v, s) == Total(v, s - a) + Total(v, a)
    decreases |v|
  {
    if v != [] {
      TotalSplits(v[..|v| - 1], s, a);
    }
  }

  lemma {:induction false} TotalPointwise(v: seq<nat>, w: seq<nat>, s: set<nat>)
    requires |v| == |w| && forall i :: 0 <= i < |v| && i in s ==> v[i] <= w[i]
    ensures Total(v, s) <= Total(w, s)
    decreases |v|
  {
    if v != [] {
      TotalPointwise(v[..|v| - 1], w[..|w| - 1], s);
    }
  }

  lemma {:induction false} TotalHasMember(v: seq<nat>, s: set<nat>, i: nat)
    requires i < |v| && i in s
    ensures v[i] <= Total(v, s)
    decreases |v|
  {
    if i != |v| - 1 {
      TotalHasMember(v[..|v| - 1], s, i);
    }
  }

  lemma {:induction false} TotalOfSingleton(v: seq<nat>, i: nat)
    ensures Total(v, {i}) == if i < |v| then v[i] else 0
    decreases |v|
  {
    if v != [] {
      TotalOfSingleton(v[..|v| - 1], i);
    }
  }

  // ----- The two inequalities of a round -----

  /** Whatever covers the bound gains the whole residual outside the chosen set. */
  lemma CoverGainsResidual(c: seq<nat>, limit: nat, cover: set<nat>, chosen: set<nat>)
    requires limit <= Total(c, cover) && Total(c, chosen) < limit
    ensures limit - Total(c, chosen) <= Total(Gains(c, limit - Total(c, chosen)), cover - chosen)
  {
    var residual := limit - Total(c, chosen);
    var gains, rest := Gains(c, residual), cover - chosen;
    if i: nat :| i < |c| && i in rest && residual <= c[i] {
      TotalHasMember(gains, rest, i);
    } else {
      TotalPointwise(c, gains, rest);
      TotalSplits(c, cover, chosen);
    }
  }

  /** A set that stops covering without its last member gains at most twice the
      residual outside the chosen set. */
  lemma TightSetGainsAtMostTwice(c: seq<nat>, limit: nat, s: set<nat>, last: nat, chosen: set<nat>)
    requires chosen <= s && last in s && last !in chosen
    requires Total(c, chosen) < limit && Total(c, s - {last}) < limit
    ensures Total(Gains(c, limit - Total(c, chosen)), s - chosen) <= 2 * (limit - Total(c, chosen))
  {
    var residual := limit - Total(c, chosen);
    var gains, rest := Gains(c, residual), s - {last} - chosen;
    TotalSplits(gains, s - chosen, {last});
    assert s - chosen - {last} == rest;
    TotalOfSingleton(gains, last);
    TotalPointwise(gains, c, rest);
    TotalSplits(c, s - {last}, chosen);
  }

  // ----- Payments -----

  /** `count` payments of `value` each. */
  function Times(count: nat, value: real): real {
    count as real * value
  }

  lemma TimesAdds(a: nat, b: nat, value: real)
    ensures Times(a + b, value) == Times(a, value) + Times(b, value)
  {
    assert (a + b) as real == a as real + b as real;
  }

  lemma TimesZero(value: real)
    ensures Times(0, value) == 0.0
  {
  }

  lemma TimesGrows(a: nat, b: nat, value: real)
    requires a <= b && 0.0 <= value
    ensures Times(a, value) <= Times(b, value)
  {
  }

  /** Every unchosen position pays its gain times the round's value. */
  ghost predicate PaysRound(
    c: seq<nat>, residual: nat, chosen: set<nat>, value: real, before: seq<real>, after: seq<real>)
  {
    && |before| == |after| == |c|
    && forall i :: 0 <= i < |c| ==>
         after[i] == if i in chosen then before[i] else before[i] + Times(Gains(c, residual)[i], value)
  }

  /** A set's payments grow by its gains times the value. */
  lemma {:induction false} PaymentsGrow(
    gains: seq<nat>, chosen: set<nat>, value: real, before: seq<real>, after: seq<real>, s: set<nat>)
    requires |before| == |after| == |gains|
    requires forall i :: 0 <= i < |gains| ==>
      after[i] == if i in chosen then before[i] else before[i] + Times(gains[i], value)
    ensures RealTotal(after, s) == RealTotal(before, s) + Times(Total(gains, s - chosen), value)
    decreases |gains|
  {
    hide Times;
    if gains == [] {
      TimesAdds(0, 0, value);
    } else {
      var n := |gains| - 1;
      PaymentsGrow(gains[..n], chosen, value, before[..n], after[..n], s);
      TimesAdds(Total(gains[..n], s - chosen), if n in s - chosen then gains[n] else 0, value);
      TimesAdds(0, 0, value);
    }
  }

  lemma {:induction false} TightPayments(w: seq<nat>, paid: seq<real>, s: set<nat>)
    requires |paid| == |w| && forall i :: 0 <= i < |w| && i in s ==> paid[i] == w[i] as real
    ensures RealTotal(paid, s) == Total(w, s) as real
    decreases |w|
  {
    if w != [] {
      TightPayments(w[..|w| - 1], paid[..|paid| - 1], s);
    }
  }

  lemma {:induction false} FeasiblePayments(w: seq<nat>, paid: seq<real>, s: set<nat>)
    requires |paid| == |w| && forall i :: 0 <= i < |w| ==> paid[i] <= w[i] as real
    ensures RealTotal(paid, s) <= Total(w, s) as real
    decreases |w|
  {
    if w != [] {
      FeasiblePayments(w[..|w| - 1], paid[..|paid| - 1], s);
    }
  }

  // ----- The certificate -----

  /** Payments are feasible, and tight for the chosen positions. */
  ghost predicate Feasible(w: seq<nat>, paid: seq<real>, chosen: set<nat>) {
    && |paid| == |w|
    && forall i :: 0 <= i < |w| ==> paid[i] <= w[i] as real && (i in chosen ==> paid[i] == w[i] as real)
  }

  /** Every cover pays at least the dual value. */
  ghost predicate CoversPay(c: seq<nat>, limit: nat, paid: seq<real>, dual: real) {
    forall cover: set<nat> :: limit <= Total(c, cover) ==> dual <= RealTotal(paid, cover)
  }

  /** Every tight extension of the chosen set pays at most twice the dual value. */
  ghost predicate ExtensionsPay(c: seq<nat>, limit: nat, paid: seq<real>, chosen: set<nat>, dual: real) {
    forall s: set<nat>, last: nat ::
      chosen <= s && last in s && last !in chosen && Total(c, s - {last}) < limit ==>
      RealTotal(paid, s) <= 2.0 * dual
  }

  ghost predicate Certified(
    c: seq<nat>, w: seq<nat>, limit: nat, paid: seq<real>, chosen: set<nat>, dual: real)
  {
    && Feasible(w, paid, chosen)
    && CoversPay(c, limit, paid, dual)
    && ExtensionsPay(c, limit, paid, chosen, dual)
    && RealTotal(paid, chosen) <= 2.0 * dual
  }

  lemma {:induction false} NothingPaid(n: nat, paid: seq<real>, s: set<nat>)
    requires |paid| == n && forall i :: 0 <= i < n ==> paid[i] == 0.0
    ensures RealTotal(paid, s) == 0.0
    decreases n
  {
    if n != 0 {
      NothingPaid(n - 1, paid[..n - 1], s);
    }
  }

  lemma CertifiedAtStart(c: seq<nat>, w: seq<nat>, limit: nat, paid: seq<real>)
    requires |paid| == |w| && forall i :: 0 <= i < |w| ==> paid[i] == 0.0
    ensures Certified(c, w, limit, paid, {}, 0.0)
  {
    forall s: set<nat>
      ensures RealTotal(paid, s) == 0.0
    {
      NothingPaid(|paid|, paid, s);
    }
  }

  lemma CoversStillPay(
    c: seq<nat>, limit: nat, chosen: set<nat>, value: real, before: seq<real>, after: seq<real>, dual: real)
    requires Total(c, chosen) < limit && 0.0 <= value && CoversPay(c, limit, before, dual)
    requires PaysRound(c, limit - Total(c, chosen), chosen, value, before, after)
    ensures CoversPay(c, limit, after, dual + Times(limit - Total(c, chosen), value))
  {
    hide Total, RealTotal, Times, Gains;
    var residual := limit - Total(c, chosen);
    forall cover: set<nat> | limit <= Total(c, cover)
      ensures dual + Times(residual, value) <= RealTotal(after, cover)
    {
      CoverGainsResidual(c, limit, cover, chosen);
      PaymentsGrow(Gains(c, residual), chosen, value, before, after, cover);
      TimesGrows(residual, Total(Gains(c, residual), cover - chosen), value);
    }
  }

  lemma ExtensionGrowth(
    c: seq<nat>, limit: nat, chosen: set<nat>, value: real, before: seq<real>, after: seq<real>, dual: real,
    s: set<nat>, last: nat)
    requires Total(c, chosen) < limit && 0.0 <= value && ExtensionsPay(c, limit, before, chosen, dual)
    requires PaysRound(c, limit - Total(c, chosen), chosen, value, before, after)
    requires chosen <= s && last in s && last !in chosen && Total(c, s - {last}) < limit
    ensures RealTotal(after, s) <= 2.0 * (dual + Times(limit - Total(c, chosen), value))
  {
    hide Total, RealTotal, Times, Gains;
    var residual := limit - Total(c, chosen);
    TightSetGainsAtMostTwice(c, limit, s, last, chosen);
    PaymentsGrow(Gains(c, residual), chosen, value, before, after, s);
    TimesGrows(Total(Gains(c, residual), s - chosen), residual + residual, value);
    TimesAdds(residual, residual, value);
  }

  /** One round: the dual value grows by the residual times the round's value,
      and the chosen set by the position that became tight. */
  lemma RoundKeepsCertificate(
    c: seq<nat>, w: seq<nat>, limit: nat, chosen: set<nat>, best: nat, value: real,
    before: seq<real>, after: seq<real>, dual: real)
    requires |c| == |w| && best < |c| && best !in chosen
    requires Total(c, chosen) < limit && 0.0 <= value && Certified(c, w, limit, before, chosen, dual)
    requires PaysRound(c, limit - Total(c, chosen), chosen, value, before, after)
    requires Feasible(w, after, chosen + {best})
    ensures Certified(c, w, limit, after, chosen + {best}, dual + Times(limit - Total(c, chosen), value))
  {
    hide Total, RealTotal, Times, PaysRound, Feasible, CoversPay;
    var grown := dual + Times(limit - Total(c, chosen), value);
    CoversStillPay(c, limit, chosen, value, before, after, dual);
    forall s: set<nat>, last: nat |
      chosen + {best} <= s && last in s && last !in chosen + {best} && Total(c, s - {last}) < limit
      ensures RealTotal(after, s) <= 2.0 * grown
    {
      ExtensionGrowth(c, limit, chosen, value, before, after, dual, s, last);
    }
    assert chosen + {best} - {best} == chosen;
    ExtensionGrowth(c, limit, chosen, value, before, after, dual, chosen + {best}, best);
  }

  /** A certified cover weighs at most twice any other cover. */
  lemma CertifiedIsTwoApproximation(
    c: seq<nat>, w: seq<nat>, limit: nat, paid: seq<real>, chosen: set<nat>, dual: real, cover: set<nat>)
    requires Certified(c, w, limit, paid, chosen, dual) && limit <= Total(c, cover)
    ensures Total(w, chosen) <= 2 * Total(w, cover)
  {
    TightPayments(w, paid, chosen);
    FeasiblePayments(w, paid, cover);
    assert Total(w, chosen) as real <= 2.0 * Total(w, cover) as real;
  }
}
