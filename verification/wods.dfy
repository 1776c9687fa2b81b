/** The WODs of a sheet: which columns name them, and whether each one is a
    timed WOD (lower is better) or a scored one (higher is better). */
module Wods {
  import opened Text

  /** Every WOD `w` has a result column `w_Resultado` and a division column `w_Categoria`. */
  const ResultSuffix := "_Resultado"
  const LabelSuffix := "_Categoria"

  /** The last `_`-separated token of a timed WOD's name, in any case. */
  const TimeMarker := "tempo"

  // ---------------------------------------------------------------------------
  // WOD discovery

  /** The names of the result columns with the suffix taken off, in column order. */
  function ResultBases(columns: seq<string>): (bases: seq<string>)
    ensures forall w :: w in bases <==> w + ResultSuffix in columns
    decreases |columns|
  {
    if |columns| == 0 then []
    else
      var init := columns[..|columns| - 1];
      var c := Last(columns);
      var rest := ResultBases(init);
      assert forall x :: x in columns <==> x == c || x in init by {
        assert columns == init + [c];
      }
      if EndsWith(c, ResultSuffix) then
        var b := StripSuffix(c, ResultSuffix);
        assert forall w :: w + ResultSuffix == c <==> w == b by {
          forall w | w + ResultSuffix == c ensures w == b {
            StripAppended(w, ResultSuffix);
          }
        }
        rest + [b]
      else
        assert forall w :: w + ResultSuffix != c by {
          forall w ensures w + ResultSuffix != c {
            StripAppended(w, ResultSuffix);
          }
        }
        rest
  }

  /** The WOD names, sorted and without repeats: `w` is a WOD exactly when the
      sheet has a column named `w_Resultado`. */
  function WodNames(columns: seq<string>): (wods: seq<string>)
    ensures StrictlySorted(wods)
    ensures forall w :: w in wods <==> w + ResultSuffix in columns
  {
    SortedSet(ResultBases(columns))
  }

  /** The result columns with every occurrence of the suffix deleted, as
      `col.replace('_Resultado', '')` does. */
  function ResultBasesAsWritten(columns: seq<string>): (bases: seq<string>)
    ensures |bases| <= |columns|
    decreases |columns|
  {
    if |columns| == 0 then []
    else
      var rest := ResultBasesAsWritten(columns[..|columns| - 1]);
      var c := Last(columns);
      if EndsWith(c, ResultSuffix) then rest + [RemoveAll(c, ResultSuffix)] else rest
  }

  function WodNamesAsWritten(columns: seq<string>): (wods: seq<string>)
    ensures StrictlySorted(wods)
  {
    SortedSet(ResultBasesAsWritten(columns))
  }

  /** The sheet's column names hold `_Resultado` nowhere but at their end. */
  predicate SuffixOnlyAtEnd(columns: seq<string>) {
    forall c, i :: c in columns && 0 <= i < |c| - |ResultSuffix| ==> !OccursAt(c, ResultSuffix, i)
  }

  lemma {:induction false} BasesAgree(columns: seq<string>)
    requires SuffixOnlyAtEnd(columns)
    ensures ResultBasesAsWritten(columns) == ResultBases(columns)
    decreases |columns|
  {
    if |columns| > 0 {
      var init := columns[..|columns| - 1];
      var c := Last(columns);
      assert c in columns;
      assert SuffixOnlyAtEnd(init) by {
        forall x | x in init ensures x in columns {
          assert columns == init + [c];
        }
      }
      BasesAgree(init);
      if EndsWith(c, ResultSuffix) {
        var b := StripSuffix(c, ResultSuffix);
        assert c == b + ResultSuffix;
        RemoveAllOfLastOnly(b, ResultSuffix);
      }
    }
  }

  /** Line 18's replace-all lists the same WODs as the suffix strip on every
      sheet whose column names hold `_Resultado` only at their end. */
  lemma WodNamesAgree(columns: seq<string>)
    requires SuffixOnlyAtEnd(columns)
    ensures WodNamesAsWritten(columns) == WodNames(columns)
    ensures forall w :: w in WodNamesAsWritten(columns) <==> w + ResultSuffix in columns
  {
    BasesAgree(columns);
  }

  /** A result column whose name holds the suffix twice yields, as written, a
      WOD whose result column does not exist, so reading it fails; the
      suffix-only strip names the column that is there. */
  lemma ReplaceLosesResultColumn()
    ensures var columns := ["A_Resultado_Resultado"];
      && "A" in WodNamesAsWritten(columns)
      && "A" + ResultSuffix !in columns
      && WodNames(columns) == ["A_Resultado"]
  {
    var columns := ["A_Resultado_Resultado"];
    BasesAsWrittenOfDoubled();
    assert "A" in ResultBasesAsWritten(columns);
    assert |"A" + ResultSuffix| != |columns[0]|;
    WodNamesOfDoubled(columns[0]);
  }

  lemma RemoveAllOfDoubled()
    ensures RemoveAll("A_Resultado_Resultado", ResultSuffix) == "A"
  {
    var c := "A_Resultado_Resultado";
    assert c[1] == '_' && ResultSuffix[1] == 'R';
    assert c[..10][1] != ResultSuffix[1];
    assert c[1..][..10] == ResultSuffix;
    assert c[1..][10..] == ResultSuffix;
    assert RemoveAll(ResultSuffix, ResultSuffix) == "" by {
      assert ResultSuffix[..10] == ResultSuffix;
    }
    assert RemoveAll(c[1..], ResultSuffix) == "";
  }

  lemma BasesAsWrittenOfDoubled()
    ensures ResultBasesAsWritten(["A_Resultado_Resultado"]) == ["A"]
  {
    var c := "A_Resultado_Resultado";
    assert EndsWith(c, ResultSuffix) by {
      assert c[|c| - |ResultSuffix|..] == ResultSuffix;
    }
    RemoveAllOfDoubled();
    var columns := [c];
    assert columns[..0] == [];
  }

  lemma WodNamesOfDoubled(c: string)
    requires c == "A_Resultado_Resultado"
    ensures WodNames([c]) == ["A_Resultado"]
  {
    var b := "A_Resultado";
    assert c == b + ResultSuffix;
    WodNamesOfOne(b);
  }

  /** A sheet with the single result column `b_Resultado` has the single WOD `b`. */
  lemma WodNamesOfOne(b: string)
    ensures WodNames([b + ResultSuffix]) == [b]
  {
    var c := b + ResultSuffix;
    StripAppended(b, ResultSuffix);
    assert [c][..0] == [] && Last([c]) == c;
    assert ResultBases([]) == [];
    assert ResultBases([c]) == [b];
    assert [b][..0] == [] && Last([b]) == b;
    assert SortedSet([]) == [];
    assert InsertSorted(b, []) == [b];
    assert SortedSet([b]) == [b];
  }

  // ---------------------------------------------------------------------------
  // Classification

  /** A WOD is timed when the last `_`-separated token of its name, lower-cased, is `tempo`. */
  predicate IsTime(wod: string) {
    Lower(Last(Split(wod, '_'))) == TimeMarker
  }

  /** The name ends in a five-letter token that lower-cases to `tempo` and that
      is either the whole name or preceded by `_`. */
  predicate EndsWithTimeToken(wod: string) {
    && |wod| >= 5
    && Lower(wod[|wod| - 5..]) == TimeMarker
    && (|wod| == 5 || wod[|wod| - 6] == '_')
  }

  /** A token that lower-cases to `tempo` has five characters and no `_`. */
  lemma TimeTokenShape(u: string)
    requires Lower(u) == TimeMarker
    ensures |u| == 5 && '_' !in u
  {
    assert '_' !in TimeMarker;
    forall i | 0 <= i < |u| ensures u[i] != '_' {
      assert LowerChar(u[i]) in TimeMarker;
    }
  }

  /** Classification read directly off the name, without splitting it. */
  lemma IsTimeIff(wod: string)
    ensures IsTime(wod) <==> EndsWithTimeToken(wod)
  {
    if IsTime(wod) {
      TimeIsToken(wod);
    }
    if EndsWithTimeToken(wod) {
      TokenIsTime(wod);
    }
  }

  lemma TimeIsToken(wod: string)
    requires IsTime(wod)
    ensures EndsWithTimeToken(wod)
  {
    var t := Last(Split(wod, '_'));
    LastPieceIsSuffix(wod, '_');
    TimeTokenShape(t);
    assert |t| == 5 && wod[|wod| - 5..] == t;
    assert Lower(wod[|wod| - 5..]) == TimeMarker;
  }

  lemma TokenIsTime(wod: string)
    requires EndsWithTimeToken(wod)
    ensures IsTime(wod)
  {
    var t := Last(Split(wod, '_'));
    LastPieceIsSuffix(wod, '_');
    var u := wod[|wod| - 5..];
    TimeTokenShape(u);
    if |t| > 5 {
      assert false;
    } else if |t| < 5 {
      assert false;
    }
    assert t == u;
  }
}
