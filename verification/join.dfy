/** The sheet rows of one general category, the per-WOD cells read out of
    them, and the inner join on the athlete that builds one line per athlete
    from the ranked rows of every WOD. */
module Join {
  import opened Results
  import opened Text
  import opened Wods
  import opened Scoring

  /** A sheet row: the athlete, their general category, and every other cell by column name. */
  datatype Row = Row(athlete: string, category: string, cells: map<string, string>)

  /** The sheet: its column names in order, and its rows. */
  datatype Sheet = Sheet(columns: seq<string>, rows: seq<Row>)

  /** Reading a column that the sheet lacks fails. */
  function Cell(row: Row, column: string): (r: Result<string>)
    ensures r.Ok? <==> column in row.cells
    ensures r.Ok? ==> r.value == row.cells[column]
    ensures r.Err? ==> r.error == MissingColumn(column)
  {
    if column in row.cells then Ok(row.cells[column]) else Err(MissingColumn(column))
  }

  /** The row has both cells of `wod` and its division cell names Rx or Scale. */
  predicate Competes(row: Row, wod: string) {
    HasWodCells(row, wod) && DivisionOf(row.cells[wod + LabelSuffix]).Some?
  }

  /** The row has the result and division cells of `wod`. */
  predicate HasWodCells(row: Row, wod: string) {
    wod + ResultSuffix in row.cells && wod + LabelSuffix in row.cells
  }

  /** Every row's result and division cells for one WOD, in row order. */
  function WodAttempts(rows: seq<Row>, wod: string): (r: Result<seq<Attempt>>)
    ensures r.Ok? <==> forall k :: 0 <= k < |rows| ==> HasWodCells(rows[k], wod)
    ensures r.Ok? ==> |r.value| == |rows|
    ensures r.Ok? ==> forall k :: 0 <= k < |rows| ==>
      && HasWodCells(rows[k], wod)
      && r.value[k] == Attempt(rows[k].athlete, rows[k].cells[wod + ResultSuffix], rows[k].cells[wod + LabelSuffix])
    decreases |rows|
  {
    if |rows| == 0 then Ok([])
    else
      var result :- Cell(rows[0], wod + ResultSuffix);
      var tag :- Cell(rows[0], wod + LabelSuffix);
      var rest :- WodAttempts(rows[1..], wod);
      assert forall k :: 1 <= k < |rows| ==> rows[k] == rows[1..][k - 1];
      Ok([Attempt(rows[0].athlete, result, tag)] + rest)
  }

  /** `scored` is what ranking `wod` over `rows` yields. */
  predicate WodScored(rows: seq<Row>, wod: string, scored: seq<Scored>) {
    && WodAttempts(rows, wod).Ok?
    && ScoreWod(WodAttempts(rows, wod).value, IsTime(wod), wod + ResultSuffix) == Ok(scored)
  }

  /** The ranked rows of one WOD. */
  function ScoreOne(rows: seq<Row>, wod: string): (r: Result<seq<Scored>>)
    ensures r.Ok? ==> WodScored(rows, wod, r.value)
  {
    var attempts :- WodAttempts(rows, wod);
    ScoreWod(attempts, IsTime(wod), wod + ResultSuffix)
  }

  /** The ranked rows of every WOD, in WOD order. */
  function ScoreWods(rows: seq<Row>, wods: seq<string>): (r: Result<seq<seq<Scored>>>)
    ensures r.Ok? ==> |r.value| == |wods|
    ensures r.Ok? ==> forall w :: 0 <= w < |wods| ==> WodScored(rows, wods[w], r.value[w])
    decreases |wods|
  {
    if |wods| == 0 then Ok([])
    else
      var scored :- ScoreOne(rows, wods[0]);
      var rest :- ScoreWods(rows, wods[1..]);
      ConsShift(wods, scored, rest);
      Ok([scored] + rest)
  }

  /** Position `w` of `[y] + ys` is position `w - 1` of `ys`, as it is of `xs[1..]` in `xs`. */
  lemma ConsShift<T, U>(xs: seq<T>, y: U, ys: seq<U>)
    requires |xs| > 0 && |ys| == |xs| - 1
    ensures ([y] + ys)[0] == y
    ensures forall w :: 0 < w < |xs| ==> xs[w] == xs[1..][w - 1] && ([y] + ys)[w] == ys[w - 1]
  {
  }

  // ---------------------------------------------------------------------------
  // The inner join

  /** An athlete's line of the leaderboard: their ranked row of each WOD joined so far. */
  datatype Line = Line(athlete: string, wods: seq<Scored>)

  /** The row of `athlete` among a WOD's ranked rows, if they have one. */
  function Find(scored: seq<Scored>, athlete: string): (r: Option<Scored>)
    ensures r.Some? ==> r.value in scored && r.value.athlete == athlete
    ensures r.None? <==> athlete !in Names(scored)
    decreases |scored|
  {
    if |scored| == 0 then None
    else if scored[0].athlete == athlete then Some(scored[0])
    else
      assert forall s :: s in scored <==> s == scored[0] || s in scored[1..] by {
        assert scored == [scored[0]] + scored[1..];
      }
      Find(scored[1..], athlete)
  }

  /** The inner merge on the athlete column (main.py line 57), athletes being
      unique: each line whose athlete has a ranked row gains it; the other lines are dropped. */
  function JoinWod(lines: seq<Line>, scored: seq<Scored>): seq<Line>
    decreases |lines|
  {
    if |lines| == 0 then []
    else
      var head := match Find(scored, lines[0].athlete)
        case Some(s) => [Line(lines[0].athlete, lines[0].wods + [s])]
        case None => [];
      head + JoinWod(lines[1..], scored)
  }

  /** The joins of main.py lines 28-57, one WOD after another. */
  function JoinAll(lines: seq<Line>, perWod: seq<seq<Scored>>): seq<Line>
    decreases |perWod|
  {
    if |perWod| == 0 then lines
    else JoinWod(JoinAll(lines, perWod[..|perWod| - 1]), Last(perWod))
  }

  function Athletes(rows: seq<Row>): (names: seq<string>)
    ensures |names| == |rows|
    ensures forall k :: 0 <= k < |rows| ==> names[k] == rows[k].athlete
  {
    seq(|rows|, k requires 0 <= k < |rows| => rows[k].athlete)
  }

  /** The leaderboard before any WOD is joined: one empty line per row. */
  function Start(names: seq<string>): seq<Line> {
    seq(|names|, k requires 0 <= k < |names| => Line(names[k], []))
  }

  /** The athlete has a ranked row in every WOD. */
  predicate InEvery(athlete: string, perWod: seq<seq<Scored>>) {
    forall w :: 0 <= w < |perWod| ==> athlete in Names(perWod[w])
  }

  /** The athlete's ranked row of each WOD. */
  function Picks(athlete: string, perWod: seq<seq<Scored>>): (r: seq<Scored>)
    requires InEvery(athlete, perWod)
    ensures |r| == |perWod|
    ensures forall w :: 0 <= w < |perWod| ==> r[w] in perWod[w] && r[w].athlete == athlete
  {
    seq(|perWod|, w requires 0 <= w < |perWod| => Find(perWod[w], athlete).value)
  }

  /** The result of the joins stated at once: the athletes ranked in every WOD,
      in row order, each with their ranked row of every WOD. */
  function Joined(names: seq<string>, perWod: seq<seq<Scored>>): seq<Line>
    decreases |names|
  {
    if |names| == 0 then []
    else
      var head := if InEvery(names[0], perWod) then [Line(names[0], Picks(names[0], perWod))] else [];
      head + Joined(names[1..], perWod)
  }

  lemma {:induction false} StartIsJoinedOfNothing(names: seq<string>)
    ensures Start(names) == Joined(names, [])
    decreases |names|
  {
    if |names| > 0 {
      StartIsJoinedOfNothing(names[1..]);
      assert Start(names) == [Line(names[0], [])] + Start(names[1..]);
    }
  }

  lemma {:induction false} JoinWodExtendsJoined(names: seq<string>, perWod: seq<seq<Scored>>)
    requires |perWod| > 0
    ensures JoinWod(Joined(names, perWod[..|perWod| - 1]), Last(perWod)) == Joined(names, perWod)
    decreases |names|
  {
    if |names| > 0 {
      var before := perWod[..|perWod| - 1];
      var a := names[0];
      JoinWodExtendsJoined(names[1..], perWod);
      assert InEvery(a, perWod) <==> InEvery(a, before) && a in Names(Last(perWod)) by {
        assert forall w :: 0 <= w < |before| ==> before[w] == perWod[w];
      }
      if InEvery(a, perWod) {
        var line := Line(a, Picks(a, before));
        assert Joined(names, before) == [line] + Joined(names[1..], before);
        assert ([line] + Joined(names[1..], before))[1..] == Joined(names[1..], before);
        assert Picks(a, before) + [Find(Last(perWod), a).value] == Picks(a, perWod);
      } else if InEvery(a, before) {
        var line := Line(a, Picks(a, before));
        assert Joined(names, before) == [line] + Joined(names[1..], before);
        assert ([line] + Joined(names[1..], before))[1..] == Joined(names[1..], before);
        assert Find(Last(perWod), a).None?;
        assert Joined(names, perWod) == Joined(names[1..], perWod);
      } else {
        assert Joined(names, before) == Joined(names[1..], before);
        assert Joined(names, perWod) == Joined(names[1..], perWod);
      }
    }
  }

  /** The WOD-by-WOD merges build exactly the join stated at once. */
  lemma {:induction false} JoinAllIsJoined(names: seq<string>, perWod: seq<seq<Scored>>)
    ensures JoinAll(Start(names), perWod) == Joined(names, perWod)
    decreases |perWod|
  {
    if |perWod| == 0 {
      StartIsJoinedOfNothing(names);
    } else {
      JoinAllIsJoined(names, perWod[..|perWod| - 1]);
      JoinWodExtendsJoined(names, perWod);
    }
  }

  function LineNames(lines: seq<Line>): (names: seq<string>)
    ensures |names| == |lines|
    ensures forall k :: 0 <= k < |lines| ==> names[k] == lines[k].athlete
  {
    seq(|lines|, k requires 0 <= k < |lines| => lines[k].athlete)
  }

  /** An athlete is on the joined board exactly when they are one of `names`
      and ranked in every WOD; their line holds one ranked row per WOD, their own. */
  lemma {:induction false} JoinedLines(names: seq<string>, perWod: seq<seq<Scored>>)
    ensures forall a :: a in LineNames(Joined(names, perWod)) <==> a in names && InEvery(a, perWod)
    ensures forall l :: l in Joined(names, perWod) ==> InEvery(l.athlete, perWod) && l.wods == Picks(l.athlete, perWod)
    ensures |Joined(names, perWod)| <= |names|
    decreases |names|
  {
    if |names| > 0 {
      JoinedLines(names[1..], perWod);
      var head := if InEvery(names[0], perWod) then [Line(names[0], Picks(names[0], perWod))] else [];
      var rest := Joined(names[1..], perWod);
      assert LineNames(head + rest) == LineNames(head) + LineNames(rest);
      assert names == [names[0]] + names[1..];
    }
  }

  /** Distinct athletes stay distinct through the join. */
  lemma {:induction false} JoinedDistinct(names: seq<string>, perWod: seq<seq<Scored>>)
    requires Distinct(names)
    ensures Distinct(LineNames(Joined(names, perWod)))
    decreases |names|
  {
    if |names| > 0 {
      var tail := names[1..];
      assert Distinct(tail) by {
        forall i, j | 0 <= i < j < |tail| ensures tail[i] != tail[j] {
          assert tail[i] == names[i + 1] && tail[j] == names[j + 1];
        }
      }
      JoinedDistinct(tail, perWod);
      var rest := Joined(tail, perWod);
      if InEvery(names[0], perWod) {
        var line := Line(names[0], Picks(names[0], perWod));
        assert Joined(names, perWod) == [line] + rest;
        assert names[0] !in tail by {
          forall j | 0 <= j < |tail| ensures tail[j] != names[0] {
            assert tail[j] == names[j + 1];
          }
        }
        JoinedNamesWithin(tail, perWod);
        assert names[0] !in LineNames(rest);
        assert LineNames([line] + rest) == [names[0]] + LineNames(rest);
        DistinctCons(names[0], LineNames(rest));
      } else {
        assert Joined(names, perWod) == rest;
      }
    }
  }

  /** The join only keeps athletes it was given. */
  lemma {:induction false} JoinedNamesWithin(names: seq<string>, perWod: seq<seq<Scored>>)
    ensures forall a :: a in LineNames(Joined(names, perWod)) ==> a in names
    decreases |names|
  {
    if |names| > 0 {
      JoinedNamesWithin(names[1..], perWod);
      var rest := Joined(names[1..], perWod);
      var head := if InEvery(names[0], perWod) then [Line(names[0], Picks(names[0], perWod))] else [];
      assert Joined(names, perWod) == head + rest;
      assert LineNames(head + rest) == LineNames(head) + LineNames(rest);
      assert forall a :: a in names[1..] ==> a in names;
    }
  }

  lemma DistinctCons(x: string, xs: seq<string>)
    requires Distinct(xs) && x !in xs
    ensures Distinct([x] + xs)
  {
    var ys := [x] + xs;
    forall i, j | 0 <= i < j < |ys| ensures ys[i] != ys[j] {
      assert ys[j] == xs[j - 1];
      if i > 0 {
        assert ys[i] == xs[i - 1];
      }
    }
  }

  // ---------------------------------------------------------------------------
  // Unique athletes

  predicate Distinct(names: seq<string>) {
    forall i, j :: 0 <= i < j < |names| ==> names[i] != names[j]
  }

  /** The first name that appears again later in the list, if any. */
  function FirstRepeat(names: seq<string>): (r: Option<string>)
    ensures r.None? <==> Distinct(names)
    ensures r.Some? ==> exists i, j :: 0 <= i < j < |names| && names[i] == r.value == names[j]
    decreases |names|
  {
    if |names| == 0 then None
    else if names[0] in names[1..] then
      var j :| 0 <= j < |names[1..]| && names[1..][j] == names[0];
      assert names[j + 1] == names[0];
      Some(names[0])
    else
      var rest := FirstRepeat(names[1..]);
      if rest.Some? then
        var i, j :| 0 <= i < j < |names[1..]| && names[1..][i] == rest.value == names[1..][j];
        assert names[i + 1] == names[1..][i] && names[j + 1] == names[1..][j];
        rest
      else
        assert forall j :: 0 < j < |names| ==> names[j] == names[1..][j - 1];
        None
  }
}
