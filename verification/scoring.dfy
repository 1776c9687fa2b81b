/** Points for one WOD within one general category: the rx/scale filter, the
    ranking inside each division, and the offset that puts every Scale
    athlete behind every Rx athlete. */
module Scoring {
  import opened Results
  import opened Text
  import opened Ranking

  /** The two divisions that are ranked, Rx first. */
  datatype Division = Rx | Scale

  /** A tag selects a division when it lower-cases to `rx` or `scale`;
      every other tag leaves the attempt unranked. */
  function DivisionOf(tag: string): Option<Division> {
    var l := Lower(tag);
    if l == "rx" then Some(Rx) else if l == "scale" then Some(Scale) else None
  }

  /** One athlete's cells for one WOD: the raw result and the division tag. */
  datatype Attempt = Attempt(athlete: string, result: string, tag: string)

  /** An attempt admitted to a division, with the value the ranking compares. */
  datatype Entry = Entry(athlete: string, result: string, tag: string, mark: Mark)

  /** An athlete's points for one WOD, with the cells shown beside them. */
  datatype Scored = Scored(athlete: string, result: string, tag: string, points: nat)

  /** The cell texts that pandas' `read_csv` reads as a missing value (NaN)
      by default; the empty cell is one of them. */
  predicate Missing(text: string) {
    || text == ""
    || text == "#N/A"
    || text == "#N/A N/A"
    || text == "#NA"
    || text == "-1.#IND"
    || text == "-1.#QNAN"
    || text == "-NaN"
    || text == "-nan"
    || text == "1.#IND"
    || text == "1.#QNAN"
    || text == "<NA>"
    || text == "N/A"
    || text == "NA"
    || text == "NULL"
    || text == "NaN"
    || text == "None"
    || text == "n/a"
    || text == "nan"
    || text == "null"
  }

  /** The value a result is ranked by: the text itself in a timed WOD, its
      integer value in a scored one. A missing cell, or a scored cell that is
      not an integer, has none. */
  function MarkOf(text: string, time: bool): Option<Mark> {
    if time then (if Missing(text) then None else Some(Time(text)))
    else match ParseInt(text)
      case Some(n) => Some(Score(n))
      case None => None
  }

  /** The attempts whose tag selects division `d`, in row order. */
  function Members(attempts: seq<Attempt>, d: Division): (r: seq<Attempt>)
    ensures |r| <= |attempts|
    ensures forall a :: a in r <==> a in attempts && DivisionOf(a.tag) == Some(d)
    decreases |attempts|
  {
    if |attempts| == 0 then []
    else
      var rest := Members(attempts[1..], d);
      assert forall a :: a in attempts <==> a == attempts[0] || a in attempts[1..] by {
        assert attempts == [attempts[0]] + attempts[1..];
      }
      if DivisionOf(attempts[0].tag) == Some(d) then [attempts[0]] + rest else rest
  }

  /** `Members` keeps every attempt of division `d` as often as it occurs and
      drops every other one: a boolean mask over the rows. */
  lemma {:induction false} MembersKept(attempts: seq<Attempt>, d: Division)
    ensures forall a :: multiset(Members(attempts, d))[a] == if DivisionOf(a.tag) == Some(d) then multiset(attempts)[a] else 0
    decreases |attempts|
  {
    if |attempts| > 0 {
      MembersKept(attempts[1..], d);
      assert attempts == [attempts[0]] + attempts[1..];
      assert multiset(attempts) == multiset{attempts[0]} + multiset(attempts[1..]);
    }
  }

  function Marks(es: seq<Entry>): (ms: seq<Mark>)
    ensures |ms| == |es|
    ensures forall k :: 0 <= k < |es| ==> ms[k] == es[k].mark
  {
    seq(|es|, k requires 0 <= k < |es| => es[k].mark)
  }

  /** Turns a division's attempts into entries, stopping at the first result
      that has no mark: a missing cell, or a scored cell that is not an integer. */
  function Admit(attempts: seq<Attempt>, time: bool, column: string): (r: Result<seq<Entry>>)
    ensures r.Ok? <==> forall k :: 0 <= k < |attempts| ==> MarkOf(attempts[k].result, time).Some?
    ensures r.Ok? ==> |r.value| == |attempts|
    ensures r.Ok? ==> forall k :: 0 <= k < |attempts| ==>
      r.value[k] == Entry(attempts[k].athlete, attempts[k].result, attempts[k].tag,
                          MarkOf(attempts[k].result, time).value)
    ensures r.Ok? ==> OfKind(Marks(r.value), time)
    ensures r.Err? ==> exists k :: 0 <= k < |attempts| && MarkOf(attempts[k].result, time).None? &&
                                  r.error == Unparseable(attempts[k].athlete, column, attempts[k].result)
    decreases |attempts|
  {
    if |attempts| == 0 then Ok([])
    else
      var a := attempts[0];
      match MarkOf(a.result, time)
      case None => Err(Unparseable(a.athlete, column, a.result))
      case Some(m) =>
        var rest := Admit(attempts[1..], time, column);
        if rest.Err? then
          var k :| 0 <= k < |attempts[1..]| && MarkOf(attempts[1..][k].result, time).None?
            && rest.error == Unparseable(attempts[1..][k].athlete, column, attempts[1..][k].result);
          assert attempts[k + 1] == attempts[1..][k];
          Err(rest.error)
        else
          assert forall k :: 1 <= k < |attempts| ==> attempts[k] == attempts[1..][k - 1];
          Ok([Entry(a.athlete, a.result, a.tag, m)] + rest.value)
  }

  /** Points for one division: local rank plus `offset`. */
  function Award(es: seq<Entry>, offset: nat): (r: seq<Scored>)
    ensures |r| == |es|
    ensures forall k :: 0 <= k < |es| ==>
      r[k] == Scored(es[k].athlete, es[k].result, es[k].tag, offset + MinRank(Marks(es), k))
  {
    var ms := Marks(es);
    seq(|es|, k requires 0 <= k < |es| => Scored(es[k].athlete, es[k].result, es[k].tag, offset + MinRank(ms, k)))
  }

  /** The ranked rows of one WOD: the Rx rows, then the Scale rows shifted up by
      the number of Rx rows. */
  function RankWod(rx: seq<Entry>, scale: seq<Entry>): seq<Scored> {
    var rxCount := |rx|;
    var rxPoints := Award(rx, 0);
    var scalePoints := if rxCount > 0 then Award(scale, rxCount) else Award(scale, 0);
    rxPoints + scalePoints
  }

  /** The `if rx_count > 0` guard changes nothing: an offset of zero is no offset. */
  lemma RankWodIsConcat(rx: seq<Entry>, scale: seq<Entry>)
    ensures RankWod(rx, scale) == Award(rx, 0) + Award(scale, |rx|)
  {
  }

  /** Rx athletes score 1..|rx| by local rank; each Scale athlete scores their
      local rank plus the number of Rx rows, so the last Rx athlete still
      scores fewer points than the first Scale athlete. */
  lemma RankWodOffset(rx: seq<Entry>, scale: seq<Entry>)
    ensures |RankWod(rx, scale)| == |rx| + |scale|
    ensures forall k :: 0 <= k < |rx| ==>
      RankWod(rx, scale)[k].points == MinRank(Marks(rx), k) <= |rx|
    ensures forall j :: |rx| <= j < |rx| + |scale| ==>
      RankWod(rx, scale)[j].points == |rx| + MinRank(Marks(scale), j - |rx|) <= |rx| + |scale|
    ensures forall i, j :: 0 <= i < |rx| <= j < |rx| + |scale| ==>
      RankWod(rx, scale)[i].points < RankWod(rx, scale)[j].points
  {
    RankWodIsConcat(rx, scale);
    var a := Award(rx, 0);
    var b := Award(scale, |rx|);
    var r := a + b;
    forall k | 0 <= k < |rx| ensures 1 <= a[k].points <= |rx| {
      MinRankBounds(Marks(rx), k);
    }
    forall k | 0 <= k < |scale| ensures |rx| < b[k].points <= |rx| + |scale| {
      MinRankBounds(Marks(scale), k);
    }
    assert forall k :: 0 <= k < |rx| ==> r[k] == a[k];
    assert forall j :: |rx| <= j < |r| ==> r[j] == b[j - |rx|];
  }

  /** When nobody entered Rx, Scale points are the local Scale ranks unchanged. */
  lemma EmptyRxLeavesScale(rx: seq<Entry>, scale: seq<Entry>)
    requires |rx| == 0
    ensures forall k :: 0 <= k < |scale| ==> RankWod(rx, scale)[k].points == MinRank(Marks(scale), k)
  {
    RankWodIsConcat(rx, scale);
    assert Award(rx, 0) == [];
    assert RankWod(rx, scale) == Award(scale, 0);
  }

  /** The athletes who have a row for this WOD in one of the two divisions. */
  function Ranked(attempts: seq<Attempt>): set<string> {
    set a | a in attempts && DivisionOf(a.tag).Some? :: a.athlete
  }

  function Names(rows: seq<Scored>): set<string> {
    set s | s in rows :: s.athlete
  }

  /** One WOD, start to finish: split the attempts into Rx and Scale, rank both,
      offset Scale. Fails only on an Rx or Scale result that is missing, or in a
      scored WOD is not an integer. */
  function ScoreWod(attempts: seq<Attempt>, time: bool, column: string): (r: Result<seq<Scored>>)
    ensures r.Ok? <==> forall a :: a in attempts && DivisionOf(a.tag).Some? ==> MarkOf(a.result, time).Some?
    ensures r.Ok? ==> Names(r.value) == Ranked(attempts)
    ensures r.Ok? ==> forall s :: s in r.value ==> Attempt(s.athlete, s.result, s.tag) in attempts
    ensures r.Ok? ==> |r.value| == |Members(attempts, Rx)| + |Members(attempts, Scale)| <= |attempts|
    ensures r.Ok? ==> forall s :: s in r.value ==> 1 <= s.points <= |r.value|
  {
    var rx :- Admit(Members(attempts, Rx), time, column);
    var scale :- Admit(Members(attempts, Scale), time, column);
    RankedRows(attempts, rx, scale, time, column);
    Ok(RankWod(rx, scale))
  }

  /** What ranking the two admitted divisions yields: rows of exactly the
      ranked athletes, one per Rx or Scale attempt, each within 1..row count. */
  lemma RankedRows(attempts: seq<Attempt>, rx: seq<Entry>, scale: seq<Entry>, time: bool, column: string)
    requires Admit(Members(attempts, Rx), time, column) == Ok(rx)
    requires Admit(Members(attempts, Scale), time, column) == Ok(scale)
    ensures var ranked := RankWod(rx, scale);
      && Names(ranked) == Ranked(attempts)
      && (forall s :: s in ranked ==> Attempt(s.athlete, s.result, s.tag) in attempts)
      && |ranked| == |Members(attempts, Rx)| + |Members(attempts, Scale)| <= |attempts|
      && (forall s :: s in ranked ==> 1 <= s.points <= |ranked|)
  {
    var ranked := RankWod(rx, scale);
    ScoredCameFromAttempts(attempts, rx, scale, time, column);
    MembersSplit(attempts);
    RankWodOffset(rx, scale);
    forall s | s in ranked ensures 1 <= s.points <= |ranked| {
      var k :| 0 <= k < |ranked| && ranked[k] == s;
      if k < |rx| {
        MinRankBounds(Marks(rx), k);
      } else {
        MinRankBounds(Marks(scale), k - |rx|);
      }
    }
  }

  /** No attempt is in both divisions. */
  lemma {:induction false} MembersSplit(attempts: seq<Attempt>)
    ensures |Members(attempts, Rx)| + |Members(attempts, Scale)| <= |attempts|
    decreases |attempts|
  {
    if |attempts| > 0 {
      MembersSplit(attempts[1..]);
    }
  }

  /** `rows` carry, position by position, the athlete and the cells of `attempts`. */
  predicate Mirrors(rows: seq<Scored>, attempts: seq<Attempt>) {
    && |rows| == |attempts|
    && forall k :: 0 <= k < |rows| ==> Attempt(rows[k].athlete, rows[k].result, rows[k].tag) == attempts[k]
  }

  lemma AwardMirrors(attempts: seq<Attempt>, es: seq<Entry>, offset: nat, time: bool, column: string)
    requires Admit(attempts, time, column) == Ok(es)
    ensures Mirrors(Award(es, offset), attempts)
  {
  }

  lemma MirrorsConcat(r1: seq<Scored>, a1: seq<Attempt>, r2: seq<Scored>, a2: seq<Attempt>)
    requires Mirrors(r1, a1) && Mirrors(r2, a2)
    ensures Mirrors(r1 + r2, a1 + a2)
  {
  }

  lemma MirrorsNames(rows: seq<Scored>, attempts: seq<Attempt>)
    requires Mirrors(rows, attempts)
    ensures Names(rows) == set a | a in attempts :: a.athlete
    ensures forall s :: s in rows ==> Attempt(s.athlete, s.result, s.tag) in attempts
  {
    forall s | s in rows ensures Attempt(s.athlete, s.result, s.tag) in attempts {
      var k :| 0 <= k < |rows| && rows[k] == s;
    }
    forall a | a in attempts ensures a.athlete in Names(rows) {
      var k :| 0 <= k < |attempts| && attempts[k] == a;
      assert rows[k] in rows;
    }
  }

  lemma ScoredCameFromAttempts(attempts: seq<Attempt>, rx: seq<Entry>, scale: seq<Entry>, time: bool, column: string)
    requires Admit(Members(attempts, Rx), time, column) == Ok(rx)
    requires Admit(Members(attempts, Scale), time, column) == Ok(scale)
    ensures Names(RankWod(rx, scale)) == Ranked(attempts)
    ensures forall s :: s in RankWod(rx, scale) ==> Attempt(s.athlete, s.result, s.tag) in attempts
  {
    var both := Members(attempts, Rx) + Members(attempts, Scale);
    RankWodIsConcat(rx, scale);
    AwardMirrors(Members(attempts, Rx), rx, 0, time, column);
    AwardMirrors(Members(attempts, Scale), scale, |rx|, time, column);
    MirrorsConcat(Award(rx, 0), Members(attempts, Rx), Award(scale, |rx|), Members(attempts, Scale));
    MirrorsNames(RankWod(rx, scale), both);
    BothDivisions(attempts);
  }

  /** The Rx attempts followed by the Scale attempts are those of either division. */
  lemma BothDivisions(attempts: seq<Attempt>)
    ensures var both := Members(attempts, Rx) + Members(attempts, Scale);
      (set a | a in both :: a.athlete) == Ranked(attempts)
      && forall a :: a in both ==> a in attempts
  {
    var both := Members(attempts, Rx) + Members(attempts, Scale);
    assert forall a :: a in both <==> a in attempts && DivisionOf(a.tag).Some?;
  }
}
