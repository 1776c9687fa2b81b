/** Competition ranking inside one division of one WOD, as pandas'
    `Series.rank(method='min')` computes it: a member's points are one more
    than the number of members with a strictly better result. */
module Ranking {
  import opened Text

  /** A result as the ranking compares it. A timed WOD keeps the raw cell text,
      ordered as strings; a scored WOD keeps the integer the cell holds. */
  datatype Mark = Time(text: string) | Score(value: int)

  /** `a` is strictly better than `b`: an earlier string in a timed WOD
      (ascending rank), a larger number in a scored one (descending rank). */
  predicate Better(a: Mark, b: Mark) {
    match (a, b)
    case (Time(x), Time(y)) => Less(x, y)
    case (Score(x), Score(y)) => x > y
    case _ => false
  }

  /** All marks of a division come from the same WOD, so all are of one kind. */
  predicate OfKind(ms: seq<Mark>, time: bool) {
    forall k :: 0 <= k < |ms| ==> ms[k].Time? == time
  }

  lemma BetterIrreflexive(a: Mark)
    ensures !Better(a, a)
  {
    if a.Time? {
      LessIrreflexive(a.text);
    }
  }

  lemma BetterTransitive(a: Mark, b: Mark, c: Mark)
    requires Better(a, b) && Better(b, c)
    ensures Better(a, c)
  {
    if a.Time? {
      LessTransitive(a.text, b.text, c.text);
    }
  }

  lemma BetterTotal(a: Mark, b: Mark)
    requires a.Time? == b.Time?
    ensures a == b || Better(a, b) || Better(b, a)
  {
    if a.Time? {
      LessTotal(a.text, b.text);
    }
  }

  /** How many of `ms` are strictly better than `m`. */
  function CountBetter(ms: seq<Mark>, m: Mark): (c: nat)
    ensures c <= |ms|
    decreases |ms|
  {
    if |ms| == 0 then 0
    else CountBetter(ms[..|ms| - 1], m) + (if Better(Last(ms), m) then 1 else 0)
  }

  /** The points of the `k`-th member of a division. */
  function MinRank(ms: seq<Mark>, k: nat): nat
    requires k < |ms|
  {
    1 + CountBetter(ms, ms[k])
  }

  lemma {:induction false} CountBetterOfMember(ms: seq<Mark>, m: Mark)
    requires m in ms
    ensures CountBetter(ms, m) < |ms|
    decreases |ms|
  {
    var init := ms[..|ms| - 1];
    assert ms == init + [Last(ms)];
    if Last(ms) == m {
      BetterIrreflexive(m);
    } else {
      assert m in init;
      CountBetterOfMember(init, m);
    }
  }

  /** Anything better than `a` is better than a worse `b`, and `a` itself is
      better than `b` but not than itself. */
  lemma {:induction false} CountBetterMonotone(ms: seq<Mark>, a: Mark, b: Mark)
    requires Better(a, b)
    ensures CountBetter(ms, a) <= CountBetter(ms, b)
    ensures a in ms ==> CountBetter(ms, a) < CountBetter(ms, b)
    decreases |ms|
  {
    if |ms| > 0 {
      var init := ms[..|ms| - 1];
      var x := Last(ms);
      assert ms == init + [x];
      CountBetterMonotone(init, a, b);
      if Better(x, a) {
        BetterTransitive(x, a, b);
      }
      if x == a {
        BetterIrreflexive(a);
      }
    }
  }

  /** Points lie between 1 and the size of the division. */
  lemma MinRankBounds(ms: seq<Mark>, k: nat)
    requires k < |ms|
    ensures 1 <= MinRank(ms, k) <= |ms|
  {
    CountBetterOfMember(ms, ms[k]);
  }

  /** A strictly better result gets strictly fewer points, equal results get
      equal points, and nothing else does. */
  lemma MinRankOrder(ms: seq<Mark>, time: bool, i: nat, j: nat)
    requires OfKind(ms, time)
    requires i < |ms| && j < |ms|
    ensures MinRank(ms, i) < MinRank(ms, j) <==> Better(ms[i], ms[j])
    ensures MinRank(ms, i) == MinRank(ms, j) <==> ms[i] == ms[j]
  {
    BetterTotal(ms[i], ms[j]);
    if Better(ms[i], ms[j]) {
      CountBetterMonotone(ms, ms[i], ms[j]);
      BetterIrreflexive(ms[i]);
    } else if Better(ms[j], ms[i]) {
      CountBetterMonotone(ms, ms[j], ms[i]);
    }
  }

  /** How many of the first `n` members have fewer points than member `k`. */
  function PlacedAhead(ms: seq<Mark>, k: nat, n: nat): nat
    requires k < |ms| && n <= |ms|
  {
    if n == 0 then 0
    else PlacedAhead(ms, k, n - 1) + (if MinRank(ms, n - 1) < MinRank(ms, k) then 1 else 0)
  }

  lemma {:induction false} PlacedAheadCountsBetter(ms: seq<Mark>, time: bool, k: nat, n: nat)
    requires OfKind(ms, time)
    requires k < |ms| && n <= |ms|
    ensures PlacedAhead(ms, k, n) == CountBetter(ms[..n], ms[k])
  {
    if n > 0 {
      PlacedAheadCountsBetter(ms, time, k, n - 1);
      assert ms[..n][..n - 1] == ms[..n - 1];
      MinRankOrder(ms, time, n - 1, k);
    }
  }

  /** The "min" rule: a member's points are one more than the number of members
      ranked ahead of it, so a tie group shares the lowest rank it spans and
      the next result starts after the whole group. */
  lemma MinRankIsMin(ms: seq<Mark>, time: bool, k: nat)
    requires OfKind(ms, time)
    requires k < |ms|
    ensures PlacedAhead(ms, k, |ms|) == MinRank(ms, k) - 1
  {
    PlacedAheadCountsBetter(ms, time, k, |ms|);
    assert ms[..|ms|] == ms;
  }
}
