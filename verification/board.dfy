/** From the joined lines of one general category to its final table: total
    points, placement counts, the tie-break sort and the rank column; then
    the same for every general category of the sheet. */
module Board {
  import opened Results
  import opened Text
  import opened Wods
  import opened Scoring
  import opened Join

  // ---------------------------------------------------------------------------
  // Totals and placement counts

  function Points(wods: seq<Scored>): (ps: seq<nat>)
    ensures |ps| == |wods|
    ensures forall w :: 0 <= w < |wods| ==> ps[w] == wods[w].points
  {
    seq(|wods|, w requires 0 <= w < |wods| => wods[w].points)
  }

  function Sum(xs: seq<nat>): nat
    decreases |xs|
  {
    if |xs| == 0 then 0 else Sum(xs[..|xs| - 1]) + Last(xs)
  }

  /** How many entries of `xs` equal `v`. */
  function Occurrences(xs: seq<nat>, v: nat): nat
    decreases |xs|
  {
    if |xs| == 0 then 0
    else Occurrences(xs[..|xs| - 1], v) + (if Last(xs) == v then 1 else 0)
  }

  lemma {:induction false} OccurrencesIsMultiplicity(xs: seq<nat>, v: nat)
    ensures Occurrences(xs, v) == multiset(xs)[v]
    decreases |xs|
  {
    if |xs| > 0 {
      OccurrencesIsMultiplicity(xs[..|xs| - 1], v);
      assert xs == xs[..|xs| - 1] + [Last(xs)];
    }
  }

  /** `placements_i` for i = 1..n: how many WODs scored exactly i points. */
  function Placements(points: seq<nat>, n: nat): (pl: seq<nat>)
    ensures |pl| == n
    ensures forall i :: 0 <= i < n ==> pl[i] == multiset(points)[i + 1]
  {
    var pl := seq(n, i requires 0 <= i < n => Occurrences(points, i + 1));
    assert forall i :: 0 <= i < n ==> pl[i] == multiset(points)[i + 1] by {
      forall i | 0 <= i < n ensures pl[i] == multiset(points)[i + 1] {
        OccurrencesIsMultiplicity(points, i + 1);
      }
    }
    pl
  }

  /** Σ i · pl[i - 1] for the places i = 1..|pl|: the total that a line's
      placement counts account for. */
  function Weighted(pl: seq<nat>): nat
    decreases |pl|
  {
    if |pl| == 0 then 0 else Weighted(pl[..|pl| - 1]) + |pl| * Last(pl)
  }

  lemma {:induction false} WeightedOfNothing(m: nat)
    ensures Weighted(Placements([], m)) == 0
    decreases m
  {
    if m > 0 {
      WeightedOfNothing(m - 1);
      assert Placements([], m)[..m - 1] == Placements([], m - 1);
    }
  }

  /** The counts for places 1..m are those for places 1..m-1 followed by the count for place m. */
  lemma PlacementsSnoc(points: seq<nat>, m: nat)
    requires m > 0
    ensures Placements(points, m) == Placements(points, m - 1) + [multiset(points)[m]]
  {
  }

  lemma WeightedSnoc(pl: seq<nat>, c: nat, m: nat)
    requires |pl| + 1 == m
    ensures Weighted(pl + [c]) == Weighted(pl) + m * c
  {
    assert (pl + [c])[..|pl|] == pl;
  }

  /** One more WOD at place m adds m to the weighted count. */
  lemma WeightedBump(pl: seq<nat>, c: nat, m: nat)
    requires |pl| + 1 == m
    ensures Weighted(pl + [c + 1]) == Weighted(pl + [c]) + m
  {
    WeightedSnoc(pl, c, m);
    WeightedSnoc(pl, c + 1, m);
    assert m * (c + 1) == m * c + m;
  }

  /** One more WOD adds its points to the weighted count when they fall within places 1..m. */
  lemma {:induction false} WeightedAppend(init: seq<nat>, x: nat, m: nat)
    ensures Weighted(Placements(init + [x], m)) == Weighted(Placements(init, m)) + (if 1 <= x <= m then x else 0)
    decreases m
  {
    if m > 0 {
      WeightedAppend(init, x, m - 1);
      var pa := Placements(init + [x], m - 1);
      var pb := Placements(init, m - 1);
      PlacementsSnoc(init + [x], m);
      PlacementsSnoc(init, m);
      var c := multiset(init)[m];
      CountSnoc(init, x, m);
      WeightedSnoc(pa, c, m);
      WeightedSnoc(pb, c, m);
      if x == m {
        WeightedBump(pa, c, m);
      }
    }
  }

  lemma CountSnoc(init: seq<nat>, x: nat, v: nat)
    ensures multiset(init + [x])[v] == multiset(init)[v] + (if x == v then 1 else 0)
  {
    assert multiset(init + [x]) == multiset(init) + multiset{x};
  }

  /** When no WOD scored beyond place n, the placement counts account
      for the whole total: Σ points == Σ i · placements_i. */
  lemma {:induction false} TotalFromPlacements(points: seq<nat>, n: nat)
    requires forall k :: 0 <= k < |points| ==> points[k] <= n
    ensures Sum(points) == Weighted(Placements(points, n))
    decreases |points|
  {
    if |points| == 0 {
      WeightedOfNothing(n);
    } else {
      var init := points[..|points| - 1];
      TotalFromPlacements(init, n);
      assert points == init + [Last(points)];
      WeightedAppend(init, Last(points), n);
    }
  }

  /** The part of the total scored within places 1..n. */
  function WithinPlaces(points: seq<nat>, n: nat): nat
    decreases |points|
  {
    if |points| == 0 then 0
    else WithinPlaces(points[..|points| - 1], n) + (if 1 <= Last(points) <= n then Last(points) else 0)
  }

  /** The placement counts account for exactly the points scored within places 1..n. */
  lemma {:induction false} WeightedIsWithinPlaces(points: seq<nat>, n: nat)
    ensures Weighted(Placements(points, n)) == WithinPlaces(points, n)
    decreases |points|
  {
    if |points| == 0 {
      WeightedOfNothing(n);
    } else {
      var init := points[..|points| - 1];
      WeightedIsWithinPlaces(init, n);
      assert points == init + [Last(points)];
      WeightedAppend(init, Last(points), n);
    }
  }

  /** Points within places 1..n are part of the total, and all of it exactly
      when no WOD scored beyond place n. */
  lemma {:induction false} WithinPlacesOfSum(points: seq<nat>, n: nat)
    ensures WithinPlaces(points, n) <= Sum(points)
    ensures WithinPlaces(points, n) == Sum(points) <==> forall k :: 0 <= k < |points| ==> points[k] <= n
    decreases |points|
  {
    if |points| > 0 {
      var init := points[..|points| - 1];
      WithinPlacesOfSum(init, n);
      assert forall k :: 0 <= k < |init| ==> points[k] == init[k];
      assert Last(points) == points[|points| - 1];
    }
  }

  /** The converse of `TotalFromPlacements` as well: Σ points == Σ i · placements_i
      exactly when no WOD scored beyond place n. */
  lemma PlacementsAccountForTotal(points: seq<nat>, n: nat)
    ensures Sum(points) == Weighted(Placements(points, n)) <==> forall k :: 0 <= k < |points| ==> points[k] <= n
  {
    WeightedIsWithinPlaces(points, n);
    WithinPlacesOfSum(points, n);
  }

  /** A leaderboard line with its `Total Pontos` and `placements_1..n` columns. */
  datatype Tally = Tally(athlete: string, wods: seq<Scored>, total: nat, placements: seq<nat>)

  function TallyLine(line: Line, n: nat): Tally {
    var ps := Points(line.wods);
    Tally(line.athlete, line.wods, Sum(ps), Placements(ps, n))
  }

  function TallyNames(ts: seq<Tally>): (names: seq<string>)
    ensures |names| == |ts|
    ensures forall k :: 0 <= k < |ts| ==> names[k] == ts[k].athlete
  {
    seq(|ts|, k requires 0 <= k < |ts| => ts[k].athlete)
  }

  /** Every line carries one placement count per possible place 1..n. */
  predicate Width(ts: seq<Tally>, n: nat) {
    forall t :: t in ts ==> |t.placements| == n
  }

  /** The leaderboard of one category before sorting: every WOD ranked and
      joined, then totals and placement counts added. */
  function Tallies(rows: seq<Row>, wods: seq<string>): (r: Result<seq<Tally>>)
    ensures r.Ok? ==> Width(r.value, |r.value|)
  {
    var names := Athletes(rows);
    var perWod :- ScoreWods(rows, wods);
    match FirstRepeat(names)
    case Some(a) => Err(DuplicateAthlete(a))
    case None =>
      Ok(TallyAll(JoinAll(Start(names), perWod)))
  }

  /** Totals and placement counts for every line; `n` is the leaderboard size. */
  function TallyAll(lines: seq<Line>): (ts: seq<Tally>)
    ensures |ts| == |lines|
    ensures forall k :: 0 <= k < |lines| ==> ts[k] == TallyLine(lines[k], |lines|)
    ensures Width(ts, |ts|)
  {
    seq(|lines|, k requires 0 <= k < |lines| => TallyLine(lines[k], |lines|))
  }

  /** A WOD ranked the athlete when the row with their name has both cells of
      that WOD and an Rx or Scale division cell. */
  lemma RankedIffCompetes(rows: seq<Row>, wod: string, attempts: seq<Attempt>, k: nat)
    requires WodAttempts(rows, wod) == Ok(attempts)
    requires Distinct(Athletes(rows))
    requires k < |rows|
    ensures rows[k].athlete in Ranked(attempts) <==> Competes(rows[k], wod)
  {
    var a := rows[k].athlete;
    var mine := attempts[k];
    assert HasWodCells(rows[k], wod);
    assert mine == Attempt(a, rows[k].cells[wod + ResultSuffix], rows[k].cells[wod + LabelSuffix]);
    if a in Ranked(attempts) {
      var x :| x in attempts && DivisionOf(x.tag).Some? && x.athlete == a;
      var j :| 0 <= j < |attempts| && attempts[j] == x;
      assert Athletes(rows)[j] == a == Athletes(rows)[k];
      assert j == k;
    }
    if Competes(rows[k], wod) {
      assert mine in attempts && DivisionOf(mine.tag).Some?;
    }
  }

  /** The lines that reach the leaderboard are those of the join stated at once. */
  lemma TalliesAreJoined(rows: seq<Row>, wods: seq<string>)
    requires Tallies(rows, wods).Ok?
    ensures ScoreWods(rows, wods).Ok? && Distinct(Athletes(rows))
    ensures Tallies(rows, wods).value == TallyAll(Joined(Athletes(rows), ScoreWods(rows, wods).value))
  {
    JoinAllIsJoined(Athletes(rows), ScoreWods(rows, wods).value);
  }

  /** An athlete of the category is on its leaderboard exactly when their row
      has an Rx or Scale division cell for every WOD; the athletes absent from
      some WOD are dropped by the inner joins, and nobody appears twice. */
  lemma TalliesMembers(rows: seq<Row>, wods: seq<string>)
    requires Tallies(rows, wods).Ok?
    ensures var ts := Tallies(rows, wods).value;
      && (forall k :: 0 <= k < |rows| ==>
            (rows[k].athlete in TallyNames(ts) <==> forall w :: 0 <= w < |wods| ==> Competes(rows[k], wods[w])))
      && (forall a :: a in TallyNames(ts) ==> a in Athletes(rows))
      && Distinct(TallyNames(ts))
  {
    TalliesAreJoined(rows, wods);
    var ts := Tallies(rows, wods).value;
    var names := Athletes(rows);
    var perWod := ScoreWods(rows, wods).value;
    JoinedLines(names, perWod);
    JoinedDistinct(names, perWod);
    TalliesRankings(rows, wods);
    assert TallyNames(ts) == LineNames(Joined(names, perWod));
    forall k | 0 <= k < |rows|
      ensures rows[k].athlete in TallyNames(ts) <==> forall w :: 0 <= w < |wods| ==> Competes(rows[k], wods[w])
    {
      assert names[k] in names;
      forall w | 0 <= w < |wods| ensures rows[k].athlete in Names(perWod[w]) <==> Competes(rows[k], wods[w]) {
        RankedInWod(rows, wods[w], WodAttempts(rows, wods[w]).value, perWod[w], k);
      }
    }
  }

  /** On a built leaderboard every WOD's ranked rows name exactly the athletes
      that WOD ranked. */
  lemma TalliesRankings(rows: seq<Row>, wods: seq<string>)
    requires Tallies(rows, wods).Ok?
    ensures ScoreWods(rows, wods).Ok? && |ScoreWods(rows, wods).value| == |wods|
    ensures forall w :: 0 <= w < |wods| ==>
      && WodAttempts(rows, wods[w]).Ok?
      && Names(ScoreWods(rows, wods).value[w]) == Ranked(WodAttempts(rows, wods[w]).value)
  {
    TalliesAreJoined(rows, wods);
    var perWod := ScoreWods(rows, wods).value;
    forall w | 0 <= w < |wods|
      ensures WodAttempts(rows, wods[w]).Ok? && Names(perWod[w]) == Ranked(WodAttempts(rows, wods[w]).value)
    {
      assert WodScored(rows, wods[w], perWod[w]);
    }
  }

  /** A WOD's ranking holds a row's athlete exactly when the row competes in it. */
  lemma RankedInWod(rows: seq<Row>, wod: string, attempts: seq<Attempt>, scored: seq<Scored>, k: nat)
    requires WodAttempts(rows, wod) == Ok(attempts)
    requires Names(scored) == Ranked(attempts)
    requires Distinct(Athletes(rows))
    requires k < |rows|
    ensures rows[k].athlete in Names(scored) <==> Competes(rows[k], wod)
  {
    RankedIffCompetes(rows, wod, attempts, k);
  }

  /** Each leaderboard line holds, for every WOD in order, the points that
      WOD's ranking gave this athlete; `Total Pontos` is their sum, and
      `placements_i` counts the WODs scored exactly i, for i up to the
      leaderboard size. */
  lemma TalliesColumns(rows: seq<Row>, wods: seq<string>)
    requires Tallies(rows, wods).Ok?
    ensures ScoreWods(rows, wods).Ok?
    ensures var ts := Tallies(rows, wods).value;
      forall t :: t in ts ==>
        && |t.wods| == |wods|
        && t.total == Sum(Points(t.wods))
        && |t.placements| == |ts|
        && (forall i :: 0 <= i < |ts| ==> t.placements[i] == multiset(Points(t.wods))[i + 1])
        && (forall w :: 0 <= w < |wods| ==> t.wods[w].athlete == t.athlete && t.wods[w] in ScoreWods(rows, wods).value[w])
  {
    TalliesAreJoined(rows, wods);
    var ts := Tallies(rows, wods).value;
    var perWod := ScoreWods(rows, wods).value;
    var lines := Joined(Athletes(rows), perWod);
    JoinedLines(Athletes(rows), perWod);
    forall t | t in ts
      ensures |t.wods| == |wods|
      ensures t.total == Sum(Points(t.wods))
      ensures |t.placements| == |ts|
      ensures forall i :: 0 <= i < |ts| ==> t.placements[i] == multiset(Points(t.wods))[i + 1]
      ensures forall w :: 0 <= w < |wods| ==> t.wods[w].athlete == t.athlete && t.wods[w] in perWod[w]
    {
      var k :| 0 <= k < |ts| && ts[k] == t;
      TallyColumns(lines, k);
      assert lines[k] in lines;
    }
  }

  /** The tally of one line keeps its athlete and rows, sums the points, and
      counts each place 1..n, n being the number of lines. */
  lemma TallyColumns(lines: seq<Line>, k: nat)
    requires k < |lines|
    ensures var t := TallyAll(lines)[k];
      && t.athlete == lines[k].athlete && t.wods == lines[k].wods
      && t.total == Sum(Points(t.wods))
      && |t.placements| == |lines|
      && forall i :: 0 <= i < |lines| ==> t.placements[i] == multiset(Points(t.wods))[i + 1]
  {
  }

  /** No WOD gives more points than the category has rows. */
  lemma TalliesPointsBound(rows: seq<Row>, wods: seq<string>)
    requires Tallies(rows, wods).Ok?
    ensures forall t, w :: t in Tallies(rows, wods).value && 0 <= w < |t.wods| ==> 1 <= t.wods[w].points <= |rows|
  {
    TalliesColumns(rows, wods);
    var perWod := ScoreWods(rows, wods).value;
    forall t, w | t in Tallies(rows, wods).value && 0 <= w < |t.wods| ensures 1 <= t.wods[w].points <= |rows| {
      assert t.wods[w] in perWod[w];
      assert |WodAttempts(rows, wods[w]).value| == |rows|;
    }
  }

  /** A line's total equals Σ i · placements_i exactly when each of its WODs
      scored within places 1..n, n being the leaderboard size. In particular
      this holds on every line when no athlete of the category dropped out:
      then n is the category size, which no WOD's points exceed. */
  lemma TalliesWeighted(rows: seq<Row>, wods: seq<string>)
    requires Tallies(rows, wods).Ok?
    ensures var ts := Tallies(rows, wods).value;
      forall t :: t in ts ==>
        (t.total == Weighted(t.placements) <==> forall w :: 0 <= w < |t.wods| ==> t.wods[w].points <= |ts|)
  {
    TalliesAreJoined(rows, wods);
    var ts := Tallies(rows, wods).value;
    TallyAllWeighted(Joined(Athletes(rows), ScoreWods(rows, wods).value));
  }

  /** When every athlete of the category has an Rx or Scale row in every
      WOD, nobody drops out: the leaderboard has one line per row, and each
      line's total is Σ i · placements_i. */
  lemma FullBoard(rows: seq<Row>, wods: seq<string>)
    requires forall k, w :: 0 <= k < |rows| && 0 <= w < |wods| ==> Competes(rows[k], wods[w])
    ensures Tallies(rows, wods).Ok? ==> |Tallies(rows, wods).value| == |rows|
    ensures Tallies(rows, wods).Ok? ==>
      forall t :: t in Tallies(rows, wods).value ==> t.total == Weighted(t.placements)
  {
    if Tallies(rows, wods).Err? {
      return;
    }
    var ts := Tallies(rows, wods).value;
    TalliesMembers(rows, wods);
    TalliesAreJoined(rows, wods);
    JoinedLines(Athletes(rows), ScoreWods(rows, wods).value);
    assert |ts| <= |rows|;
    assert forall a :: a in Athletes(rows) ==> a in TallyNames(ts) by {
      forall a | a in Athletes(rows) ensures a in TallyNames(ts) {
        var k :| 0 <= k < |rows| && Athletes(rows)[k] == a;
      }
    }
    DistinctWithin(Athletes(rows), TallyNames(ts));
    TalliesPointsBound(rows, wods);
    TalliesWeighted(rows, wods);
  }

  /** A list of distinct names, all found in `b`, is no longer than `b`. */
  lemma {:induction false} DistinctWithin(a: seq<string>, b: seq<string>)
    requires Distinct(a)
    requires forall x :: x in a ==> x in b
    ensures |a| <= |b|
    decreases |a|
  {
    if |a| > 0 {
      var x := a[0];
      assert x in a;
      var j :| 0 <= j < |b| && b[j] == x;
      var b' := b[..j] + b[j + 1..];
      assert b == b[..j] + [x] + b[j + 1..];
      forall y | y in a[1..] ensures y in b' {
        var i :| 0 <= i < |a[1..]| && a[1..][i] == y;
        assert a[i + 1] == y && y != x;
        assert y in b;
      }
      assert Distinct(a[1..]) by {
        forall i, k | 0 <= i < k < |a[1..]| ensures a[1..][i] != a[1..][k] {
          assert a[1..][i] == a[i + 1] && a[1..][k] == a[k + 1];
        }
      }
      DistinctWithin(a[1..], b');
    }
  }

  lemma TallyAllWeighted(lines: seq<Line>)
    ensures var ts := TallyAll(lines);
      forall t :: t in ts ==>
        (t.total == Weighted(t.placements) <==> forall w :: 0 <= w < |t.wods| ==> t.wods[w].points <= |ts|)
  {
    var ts := TallyAll(lines);
    forall t | t in ts
      ensures t.total == Weighted(t.placements) <==> forall w :: 0 <= w < |t.wods| ==> t.wods[w].points <= |ts|
    {
      var k :| 0 <= k < |ts| && ts[k] == t;
      PlacementsAccountForTotal(Points(t.wods), |ts|);
    }
  }

  // ---------------------------------------------------------------------------
  // The tie-break order

  /** Placement counts compared place by place from first place on; at the
      first place where they differ, more such places is better. */
  predicate PlacementsNoWorse(x: seq<nat>, y: seq<nat>)
    decreases |x|
  {
    if |x| == 0 || |y| == 0 then true
    else if x[0] != y[0] then x[0] > y[0]
    else PlacementsNoWorse(x[1..], y[1..])
  }

  /** `a` may be listed before `b`: a lower total, or an equal total and
      placement counts no worse (main.py lines 77-93). */
  predicate NoWorse(a: Tally, b: Tally) {
    a.total < b.total || (a.total == b.total && PlacementsNoWorse(a.placements, b.placements))
  }

  lemma {:induction false} PlacementsTotal(x: seq<nat>, y: seq<nat>)
    requires |x| == |y|
    ensures PlacementsNoWorse(x, y) || PlacementsNoWorse(y, x)
    decreases |x|
  {
    if |x| > 0 && x[0] == y[0] {
      PlacementsTotal(x[1..], y[1..]);
    }
  }

  lemma {:induction false} PlacementsTransitive(x: seq<nat>, y: seq<nat>, z: seq<nat>)
    requires |x| == |y| == |z|
    requires PlacementsNoWorse(x, y) && PlacementsNoWorse(y, z)
    ensures PlacementsNoWorse(x, z)
    decreases |x|
  {
    if |x| > 0 && x[0] == y[0] == z[0] {
      PlacementsTransitive(x[1..], y[1..], z[1..]);
    }
  }

  /** Two lines that may each come before the other have identical keys. */
  lemma {:induction false} PlacementsAntisymmetric(x: seq<nat>, y: seq<nat>)
    requires |x| == |y|
    requires PlacementsNoWorse(x, y) && PlacementsNoWorse(y, x)
    ensures x == y
    decreases |x|
  {
    if |x| > 0 {
      PlacementsAntisymmetric(x[1..], y[1..]);
      assert x == [x[0]] + x[1..] && y == [y[0]] + y[1..];
    }
  }

  /** Position `k` is where the placement counts first differ, and `x` has more of that place. */
  predicate MoreAt(x: seq<nat>, y: seq<nat>, k: int) {
    0 <= k < |x| && k < |y| && x[..k] == y[..k] && x[k] > y[k]
  }

  /** The tie-break is the lexicographic comparison of the placement columns,
      each descending, as `sort_values` with `ascending=False` performs it. */
  lemma {:induction false} PlacementsIsLexicographic(x: seq<nat>, y: seq<nat>)
    requires |x| == |y|
    ensures PlacementsNoWorse(x, y) <==> x == y || exists k :: MoreAt(x, y, k)
    decreases |x|
  {
    if |x| == 0 {
    } else if x[0] != y[0] {
      if x[0] > y[0] {
        assert MoreAt(x, y, 0);
      } else {
        forall k | MoreAt(x, y, k) ensures false { }
      }
    } else {
      PlacementsIsLexicographic(x[1..], y[1..]);
      forall k | MoreAt(x[1..], y[1..], k) ensures MoreAt(x, y, k + 1) {
        assert x[..k + 1] == [x[0]] + x[1..][..k];
        assert y[..k + 1] == [y[0]] + y[1..][..k];
      }
      forall k | MoreAt(x, y, k) ensures k > 0 && MoreAt(x[1..], y[1..], k - 1) {
        assert x[1..][..k - 1] == x[..k][1..];
        assert y[1..][..k - 1] == y[..k][1..];
      }
      if x[1..] == y[1..] {
        assert x == [x[0]] + x[1..] && y == [y[0]] + y[1..];
      }
    }
  }

  lemma NoWorseTotal(a: Tally, b: Tally)
    requires |a.placements| == |b.placements|
    ensures NoWorse(a, b) || NoWorse(b, a)
  {
    PlacementsTotal(a.placements, b.placements);
  }

  lemma NoWorseTransitive(a: Tally, b: Tally, c: Tally)
    requires |a.placements| == |b.placements| == |c.placements|
    requires NoWorse(a, b) && NoWorse(b, c)
    ensures NoWorse(a, c)
  {
    if a.total == b.total == c.total {
      PlacementsTransitive(a.placements, b.placements, c.placements);
    }
  }

  predicate SortedBoard(ts: seq<Tally>) {
    forall i, j :: 0 <= i < j < |ts| ==> NoWorse(ts[i], ts[j])
  }

  /** Places `t` before the first line it is no worse than. */
  function InsertTally(t: Tally, ts: seq<Tally>, n: nat): (r: seq<Tally>)
    requires |t.placements| == n && Width(ts, n)
    requires SortedBoard(ts)
    ensures multiset(r) == multiset(ts) + multiset{t}
    ensures |r| == |ts| + 1
    ensures SortedBoard(r)
    decreases |ts|
  {
    if |ts| == 0 then [t]
    else if NoWorse(t, ts[0]) then
      InsertFront(t, ts, n);
      [t] + ts
    else
      SortedTail(ts);
      assert ts[0] in ts;
      var rest := InsertTally(t, ts[1..], n);
      InsertBehind(t, ts, n, rest);
      [ts[0]] + rest
  }

  /** A line no worse than the first of a sorted table goes in front of it. */
  lemma InsertFront(t: Tally, ts: seq<Tally>, n: nat)
    requires |ts| > 0 && |t.placements| == n && Width(ts, n)
    requires SortedBoard(ts) && NoWorse(t, ts[0])
    ensures SortedBoard([t] + ts)
  {
    forall e | e in ts ensures NoWorse(t, e) {
      var j :| 0 <= j < |ts| && ts[j] == e;
      if j > 0 {
        assert ts[0] in ts;
        NoWorseTransitive(t, ts[0], ts[j]);
      }
    }
    SortedCons(t, ts);
  }

  /** A line worse than the first of a sorted table goes somewhere behind it. */
  lemma InsertBehind(t: Tally, ts: seq<Tally>, n: nat, rest: seq<Tally>)
    requires |ts| > 0 && |t.placements| == n && Width(ts, n)
    requires SortedBoard(ts) && !NoWorse(t, ts[0])
    requires SortedBoard(rest) && multiset(rest) == multiset(ts[1..]) + multiset{t}
    ensures SortedBoard([ts[0]] + rest)
    ensures multiset([ts[0]] + rest) == multiset(ts) + multiset{t}
  {
    var head := ts[0];
    var tail := ts[1..];
    assert ts == [head] + tail;
    assert head in ts;
    NoWorseTotal(t, head);
    forall e | e in rest ensures NoWorse(head, e) {
      assert e in multiset(rest);
      if e != t {
        assert e in multiset(tail);
        var j :| 0 <= j < |tail| && tail[j] == e;
        assert ts[j + 1] == e;
      }
    }
    SortedCons(head, rest);
  }

  lemma SortedTail(ts: seq<Tally>)
    requires |ts| > 0 && SortedBoard(ts)
    ensures SortedBoard(ts[1..])
  {
    forall i, j | 0 <= i < j < |ts| - 1 ensures NoWorse(ts[1..][i], ts[1..][j]) {
      assert ts[1..][i] == ts[i + 1] && ts[1..][j] == ts[j + 1];
    }
  }

  lemma SortedCons(x: Tally, ts: seq<Tally>)
    requires SortedBoard(ts)
    requires forall e :: e in ts ==> NoWorse(x, e)
    ensures SortedBoard([x] + ts)
  {
    var r := [x] + ts;
    forall i, j | 0 <= i < j < |r| ensures NoWorse(r[i], r[j]) {
      assert r[j] == ts[j - 1];
      if i > 0 {
        assert r[i] == ts[i - 1];
      } else {
        assert ts[j - 1] in ts;
      }
    }
  }

  /** Insertion sort by the tie-break order. */
  function SortBoard(ts: seq<Tally>, n: nat): (r: seq<Tally>)
    requires Width(ts, n)
    ensures multiset(r) == multiset(ts)
    ensures |r| == |ts|
    ensures SortedBoard(r)
    ensures Width(r, n)
    decreases |ts|
  {
    if |ts| == 0 then []
    else
      var init := ts[..|ts| - 1];
      assert ts == init + [Last(ts)];
      assert Last(ts) in ts;
      var sorted := SortBoard(init, n);
      var r := InsertTally(Last(ts), sorted, n);
      assert forall t :: t in r ==> t in multiset(ts);
      r
  }

  // ---------------------------------------------------------------------------
  // The rank column

  /** A row of the final table: the leaderboard line and its `Rank`. */
  datatype Standing = Standing(rank: nat, athlete: string, wods: seq<Scored>, total: nat, placements: seq<nat>)

  function Unrank(s: Standing): Tally {
    Tally(s.athlete, s.wods, s.total, s.placements)
  }

  function Unranked(ss: seq<Standing>): (ts: seq<Tally>)
    ensures |ts| == |ss|
    ensures forall k :: 0 <= k < |ss| ==> ts[k] == Unrank(ss[k])
  {
    seq(|ss|, k requires 0 <= k < |ss| => Unrank(ss[k]))
  }

  /** Numbers the sorted table's lines 1, 2, … from the top, leaving each line
      otherwise as it is. */
  function Number(ts: seq<Tally>): (ss: seq<Standing>)
    ensures Unranked(ss) == ts
  {
    seq(|ts|, k requires 0 <= k < |ts| => Standing(k + 1, ts[k].athlete, ts[k].wods, ts[k].total, ts[k].placements))
  }

  /** Sort the leaderboard, then number it. */
  function Standings(ts: seq<Tally>, n: nat): (ss: seq<Standing>)
    requires Width(ts, n)
    ensures |ss| == |ts|
    ensures multiset(Unranked(ss)) == multiset(ts)
    ensures forall i, j :: 0 <= i < j < |ss| ==> NoWorse(Unrank(ss[i]), Unrank(ss[j]))
  {
    Number(SortBoard(ts, n))
  }

  /** Ranks are exactly 1..n in table order: none shared, none skipped, even
      between lines with identical totals and placement counts. */
  lemma RanksArePositions(ts: seq<Tally>, n: nat)
    requires Width(ts, n)
    ensures var ss := Standings(ts, n);
      && (forall k :: 0 <= k < |ss| ==> ss[k].rank == k + 1)
      && (forall k :: 0 <= k < |ss| ==> 1 <= ss[k].rank <= |ss|)
      && (forall i, j :: 0 <= i < |ss| && 0 <= j < |ss| && i != j ==> ss[i].rank != ss[j].rank)
  {
  }

  /** In the sorted table, lines with equal totals are ordered by their
      placement columns, and a line listed after another with the same key
      has the same key. */
  lemma SortedKeys(ts: seq<Tally>, n: nat, i: nat, j: nat)
    requires Width(ts, n)
    requires i < j < |Standings(ts, n)|
    ensures var ss := Standings(ts, n);
      && ss[i].total <= ss[j].total
      && (ss[i].total == ss[j].total ==> ss[i].placements == ss[j].placements || exists k :: MoreAt(ss[i].placements, ss[j].placements, k))
  {
    var ss := Standings(ts, n);
    var sorted := SortBoard(ts, n);
    assert sorted[i] in sorted && sorted[j] in sorted;
    PlacementsIsLexicographic(ss[i].placements, ss[j].placements);
  }

  // ---------------------------------------------------------------------------
  // One category, and every category

  /** The final table of one general category (main.py lines 25-98). */
  function CategoryBoard(rows: seq<Row>, wods: seq<string>): Result<seq<Standing>> {
    var ts :- Tallies(rows, wods);
    Ok(Standings(ts, |ts|))
  }

  /** The rows of general category `c`, in sheet order. */
  function InCategory(rows: seq<Row>, c: string): (r: seq<Row>)
    ensures forall x :: x in r <==> x in rows && x.category == c
    decreases |rows|
  {
    if |rows| == 0 then []
    else
      var rest := InCategory(rows[1..], c);
      assert forall x :: x in rows <==> x == rows[0] || x in rows[1..] by {
        assert rows == [rows[0]] + rows[1..];
      }
      if rows[0].category == c then [rows[0]] + rest else rest
  }

  /** `InCategory` keeps every row of category `c` as often as it occurs and
      drops every other one, as grouping does. */
  lemma {:induction false} InCategoryKept(rows: seq<Row>, c: string)
    ensures forall x :: multiset(InCategory(rows, c))[x] == if x.category == c then multiset(rows)[x] else 0
    decreases |rows|
  {
    if |rows| > 0 {
      InCategoryKept(rows[1..], c);
      assert rows == [rows[0]] + rows[1..];
      assert multiset(rows) == multiset{rows[0]} + multiset(rows[1..]);
    }
  }

  function Categories(rows: seq<Row>): (cs: seq<string>)
    ensures |cs| == |rows|
    ensures forall k :: 0 <= k < |rows| ==> cs[k] == rows[k].category
  {
    seq(|rows|, k requires 0 <= k < |rows| => rows[k].category)
  }

  /** Gathers one result per key into a map; the first failure, in key order, is the result. */
  function Collect<T>(keys: seq<string>, results: seq<Result<T>>): (r: Result<map<string, T>>)
    requires |keys| == |results|
    requires Distinct(keys)
    ensures r.Ok? <==> forall k :: 0 <= k < |keys| ==> results[k].Ok?
    ensures r.Ok? ==> forall c :: c in r.value <==> c in keys
    ensures r.Ok? ==> forall k :: 0 <= k < |keys| ==> Ok(r.value[keys[k]]) == results[k]
    decreases |keys|
  {
    if |keys| == 0 then Ok(map[])
    else
      DistinctTail(keys);
      match results[0]
      case Err(e) => Err(e)
      case Ok(first) =>
        var rest := Collect(keys[1..], results[1..]);
        if rest.Err? then
          CollectTailFails(results);
          Err(rest.error)
        else
          CollectCons(keys, results, first, rest.value);
          Ok(rest.value[keys[0] := first])
  }

  lemma CollectTailFails<T>(results: seq<Result<T>>)
    requires |results| > 0
    requires !forall k :: 0 <= k < |results| - 1 ==> results[1..][k].Ok?
    ensures !forall k :: 0 <= k < |results| ==> results[k].Ok?
  {
    var k :| 0 <= k < |results| - 1 && !results[1..][k].Ok?;
    assert results[k + 1] == results[1..][k];
  }

  lemma CollectCons<T>(keys: seq<string>, results: seq<Result<T>>, first: T, rest: map<string, T>)
    requires |keys| == |results| > 0 && Distinct(keys)
    requires results[0] == Ok(first)
    requires forall k :: 0 <= k < |keys| - 1 ==> results[1..][k].Ok?
    requires forall c :: c in rest <==> c in keys[1..]
    requires forall k :: 0 <= k < |keys| - 1 ==> Ok(rest[keys[1..][k]]) == results[1..][k]
    ensures var m := rest[keys[0] := first];
      && (forall k :: 0 <= k < |keys| ==> results[k].Ok?)
      && (forall c :: c in m <==> c in keys)
      && (forall k :: 0 <= k < |keys| ==> Ok(m[keys[k]]) == results[k])
  {
    var m := rest[keys[0] := first];
    forall k | 0 < k < |keys| ensures results[k].Ok? && Ok(m[keys[k]]) == results[k] {
      assert keys[k] == keys[1..][k - 1] && keys[k] != keys[0];
      assert results[k] == results[1..][k - 1];
    }
    assert keys == [keys[0]] + keys[1..];
  }

  lemma DistinctTail(keys: seq<string>)
    requires |keys| > 0 && Distinct(keys)
    ensures Distinct(keys[1..])
  {
    forall i, j | 0 <= i < j < |keys| - 1 ensures keys[1..][i] != keys[1..][j] {
      assert keys[1..][i] == keys[i + 1] && keys[1..][j] == keys[j + 1];
    }
  }

  /** The tables of the listed categories; the first failure stops the run. */
  function BoardsOf(rows: seq<Row>, wods: seq<string>, cats: seq<string>): (r: Result<map<string, seq<Standing>>>)
    requires Distinct(cats)
    ensures r.Ok? <==> forall c :: c in cats ==> CategoryBoard(InCategory(rows, c), wods).Ok?
    ensures r.Ok? ==> forall c :: c in r.value <==> c in cats
    ensures r.Ok? ==> forall c :: c in cats ==> Ok(r.value[c]) == CategoryBoard(InCategory(rows, c), wods)
  {
    BoardsOfByKey(rows, wods, cats);
    Collect(cats, CategoryResults(rows, wods, cats))
  }

  /** The table of each listed category, in list order. */
  function CategoryResults(rows: seq<Row>, wods: seq<string>, cats: seq<string>): (rs: seq<Result<seq<Standing>>>)
    ensures |rs| == |cats|
    ensures forall k :: 0 <= k < |cats| ==> rs[k] == CategoryBoard(InCategory(rows, cats[k]), wods)
  {
    seq(|cats|, k requires 0 <= k < |cats| => CategoryBoard(InCategory(rows, cats[k]), wods))
  }

  lemma BoardsOfByKey(rows: seq<Row>, wods: seq<string>, cats: seq<string>)
    requires Distinct(cats)
    ensures var r := Collect(cats, CategoryResults(rows, wods, cats));
      && (r.Ok? <==> forall c :: c in cats ==> CategoryBoard(InCategory(rows, c), wods).Ok?)
      && (r.Ok? ==> forall c :: c in cats ==> Ok(r.value[c]) == CategoryBoard(InCategory(rows, c), wods))
  {
    var rs := CategoryResults(rows, wods, cats);
    forall c | c in cats
      ensures exists k :: 0 <= k < |cats| && cats[k] == c && rs[k] == CategoryBoard(InCategory(rows, c), wods)
    {
      var k :| 0 <= k < |cats| && cats[k] == c;
    }
  }

  /** The whole script's ranking: WODs discovered from the columns, then each
      general category ranked on its own rows alone (main.py lines 18-100). */
  function Boards(sheet: Sheet): (r: Result<map<string, seq<Standing>>>)
    ensures r.Ok? ==> r.value.Keys == set row | row in sheet.rows :: row.category
    ensures r.Ok? ==> forall c :: c in r.value ==>
      Ok(r.value[c]) == CategoryBoard(InCategory(sheet.rows, c), WodNames(sheet.columns))
    ensures r.Err? <==> (exists row :: row in sheet.rows &&
                          CategoryBoard(InCategory(sheet.rows, row.category), WodNames(sheet.columns)).Err?)
  {
    var cats := SortedSet(Categories(sheet.rows));
    StrictlySortedDistinct(cats);
    BoardsByCategory(sheet, cats);
    BoardsOf(sheet.rows, WodNames(sheet.columns), cats)
  }

  lemma BoardsByCategory(sheet: Sheet, cats: seq<string>)
    requires cats == SortedSet(Categories(sheet.rows)) && Distinct(cats)
    ensures var r := BoardsOf(sheet.rows, WodNames(sheet.columns), cats);
      && (r.Ok? ==> r.value.Keys == set row | row in sheet.rows :: row.category)
      && (r.Ok? ==> forall c :: c in r.value ==>
            Ok(r.value[c]) == CategoryBoard(InCategory(sheet.rows, c), WodNames(sheet.columns)))
      && (r.Err? <==> (exists row :: (row in sheet.rows &&
                        CategoryBoard(InCategory(sheet.rows, row.category), WodNames(sheet.columns)).Err?)))
  {
    var rows := sheet.rows;
    var wods := WodNames(sheet.columns);
    var r := BoardsOf(rows, wods, cats);
    CategoriesPresent(rows);
    if r.Ok? {
      assert r.value.Keys == set row | row in rows :: row.category;
    } else {
      var c :| c in cats && CategoryBoard(InCategory(rows, c), wods).Err?;
      var row :| row in rows && row.category == c;
    }
  }

  /** The listed categories are exactly those carried by some row. */
  lemma CategoriesPresent(rows: seq<Row>)
    ensures forall c :: c in SortedSet(Categories(rows)) <==> c in set row | row in rows :: row.category
    ensures forall c :: c in SortedSet(Categories(rows)) ==> exists row :: row in rows && row.category == c
  {
    var cats := SortedSet(Categories(rows));
    forall c | c in cats ensures exists row :: row in rows && row.category == c {
      var k :| 0 <= k < |rows| && Categories(rows)[k] == c;
      assert rows[k] in rows;
    }
    forall row | row in rows ensures row.category in cats {
      var k :| 0 <= k < |rows| && rows[k] == row;
      assert Categories(rows)[k] == row.category;
    }
  }
}
