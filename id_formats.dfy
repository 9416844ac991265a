/**
  ID-format consistency. In a column whose lower-cased name looks like an ID
  column, the non-missing values are stripped and classified as CVR numbers
  (exactly 8 digits) or P-numbers (exactly 10 digits). A column holding both
  is reported as mixed; failing that, a CVR/P-number column whose values
  come in more than two lengths is reported as varying.
*/
module IdFormats {
  import opened Text
  import opened Counting
  import opened Frame

  const IdKeywords: seq<string> := ["cvr", "p-nummer", "pnr", "p_nr", "virksomhed", "enhed", "company", "id"]
  /** The names for which varying lengths are reported. */
  const NumberKeywords: seq<string> := ["cvr", "p-nummer", "pnr"]
  const CvrDigits: nat := 8
  const PNumberDigits: nat := 10
  /** More distinct value lengths than this is suspicious. */
  const MaxDistinctLengths: nat := 2

  predicate IsCvr(t: string)
  {
    DigitsOfLength(t, CvrDigits)
  }

  predicate IsPNumber(t: string)
  {
    DigitsOfLength(t, PNumberDigits)
  }

  /** `dropna().astype(str).str.strip()`: the present cells' text, stripped, in order. */
  function NonNullValues(cells: seq<Cell>): seq<string>
  {
    if |cells| == 0 then []
    else NonNullValues(cells[..|cells| - 1]) + (match cells[|cells| - 1] case Missing => [] case Present(t) => [Strip(t)])
  }

  /** The distinct lengths among the values: `str.len().unique()`. */
  function DistinctLengths(values: seq<string>): set<nat>
  {
    set i | 0 <= i < |values| :: |values[i]|
  }

  /** `str.len().value_counts()`: how many values there are of each length. */
  function LengthCounts(values: seq<string>): map<nat, nat>
  {
    if |values| == 0 then map[]
    else
      var counts := LengthCounts(values[..|values| - 1]);
      var n := |values[|values| - 1]|;
      counts[n := (if n in counts then counts[n] else 0) + 1]
  }

  /** The warning, if any, for one column. */
  function ColumnIdWarnings(col: Column): seq<Warning>
  {
    var name := Lower(col.name);
    if !ContainsAny(name, IdKeywords) then []
    else
      var values := NonNullValues(col.cells);
      if |values| == 0 then []
      else
        var cvr := CountIf(values, IsCvr);
        var pNumbers := CountIf(values, IsPNumber);
        if cvr > 0 && pNumbers > 0 then [MixedIdFormat(col.name, cvr, pNumbers, |values|)]
        else if ContainsAny(name, NumberKeywords) && |LengthCounts(values)| > MaxDistinctLengths then
          [VaryingIdLengths(col.name, LengthCounts(values))]
        else []
  }

  /** What `detect_id_inconsistencies` returns: the columns' warnings in column order. */
  function IdWarnings(columns: seq<Column>): seq<Warning>
  {
    if |columns| == 0 then [] else IdWarnings(columns[..|columns| - 1]) + ColumnIdWarnings(columns[|columns| - 1])
  }

  /** `value_counts` of the value lengths, built one value at a time. */
  method CountLengths(values: seq<string>) returns (counts: map<nat, nat>)
    ensures counts == LengthCounts(values)
  {
    counts := map[];
    for i := 0 to |values|
      invariant counts == LengthCounts(values[..i])
    {
      assert values[..i + 1][..i] == values[..i];
      var n := |values[i]|;
      if n in counts {
        counts := counts[n := counts[n] + 1];
      } else {
        counts := counts[n := 1];
      }
    }
    assert values[..|values|] == values;
  }

  /** One pass over the columns, appending at most one warning per column. */
  method DetectIdInconsistencies(columns: seq<Column>) returns (warnings: seq<Warning>)
    ensures warnings == IdWarnings(columns)
  {
    warnings := [];
    for i := 0 to |columns|
      invariant warnings == IdWarnings(columns[..i])
    {
      assert columns[..i + 1][..i] == columns[..i];
      var col := columns[i];
      var name := Lower(col.name);
      if ContainsAny(name, IdKeywords) {
        var values := NonNullValues(col.cells);
        if |values| == 0 {
          continue;
        }
        var cvr := Count(values, IsCvr);
        var pNumbers := Count(values, IsPNumber);
        if cvr > 0 && pNumbers > 0 {
          warnings := warnings + [MixedIdFormat(col.name, cvr, pNumbers, |values|)];
        } else if ContainsAny(name, NumberKeywords) {
          var lengths := CountLengths(values);
          if |lengths| > MaxDistinctLengths {
            warnings := warnings + [VaryingIdLengths(col.name, lengths)];
          }
        }
      }
    }
    assert columns[..|columns|] == columns;
  }

  /** The values kept are exactly the stripped texts of the present cells, in order. */
  lemma NonNullValuesExact(cells: seq<Cell>)
    ensures |NonNullValues(cells)| == |Where(cells, IsPresent)|
    ensures forall t | t in NonNullValues(cells) :: exists i | 0 <= i < |cells| :: cells[i].Present? && t == Strip(cells[i].text)
    ensures forall i | 0 <= i < |cells| && cells[i].Present? :: Strip(cells[i].text) in NonNullValues(cells)
  {
    NonNullValuesCount(cells);
    CountIfIsCardinality(cells, IsPresent);
    NonNullValuesSound(cells);
    NonNullValuesComplete(cells);
  }

  lemma {:induction false} NonNullValuesCount(cells: seq<Cell>)
    ensures |NonNullValues(cells)| == CountIf(cells, IsPresent)
  {
    if |cells| > 0 {
      NonNullValuesCount(cells[..|cells| - 1]);
    }
  }

  lemma {:induction false} NonNullValuesSound(cells: seq<Cell>)
    ensures forall t | t in NonNullValues(cells) :: exists i | 0 <= i < |cells| :: cells[i].Present? && t == Strip(cells[i].text)
  {
    if |cells| > 0 {
      var init := cells[..|cells| - 1];
      NonNullValuesSound(init);
      forall t | t in NonNullValues(cells)
        ensures exists i | 0 <= i < |cells| :: cells[i].Present? && t == Strip(cells[i].text)
      {
        if t in NonNullValues(init) {
          var i :| 0 <= i < |init| && init[i].Present? && t == Strip(init[i].text);
          assert cells[i] == init[i];
        } else {
          assert cells[|cells| - 1].Present? && t == Strip(cells[|cells| - 1].text);
        }
      }
    }
  }

  lemma {:induction false} NonNullValuesComplete(cells: seq<Cell>)
    ensures forall i | 0 <= i < |cells| && cells[i].Present? :: Strip(cells[i].text) in NonNullValues(cells)
  {
    if |cells| > 0 {
      var init := cells[..|cells| - 1];
      NonNullValuesComplete(init);
      forall i | 0 <= i < |cells| && cells[i].Present?
        ensures Strip(cells[i].text) in NonNullValues(cells)
      {
        if i < |init| {
          assert init[i] == cells[i];
        }
      }
    }
  }

  /** The positions of the values of length `n`. */
  function PositionsOfLength(values: seq<string>, n: nat): set<nat>
  {
    set i: nat | i < |values| && |values[i]| == n
  }

  lemma PositionsOfLengthStep(values: seq<string>, n: nat)
    requires |values| > 0
    ensures var k := |values| - 1;
      PositionsOfLength(values, n)
      == PositionsOfLength(values[..k], n) + (if |values[k]| == n then {k} else {})
  {
  }

  /** The keys of the length histogram are the distinct value lengths; each count is the number of values of that length. */
  lemma LengthCountsExact(values: seq<string>)
    ensures LengthCounts(values).Keys == DistinctLengths(values)
    ensures forall n | n in LengthCounts(values) :: LengthCounts(values)[n] == |PositionsOfLength(values, n)|
  {
    LengthCountsKeys(values);
    LengthCountsValues(values);
  }

  lemma {:induction false} LengthCountsKeys(values: seq<string>)
    ensures LengthCounts(values).Keys == DistinctLengths(values)
  {
    if |values| > 0 {
      var k := |values| - 1;
      LengthCountsKeys(values[..k]);
      assert DistinctLengths(values) == DistinctLengths(values[..k]) + {|values[k]|};
    }
  }

  lemma {:induction false} LengthCountsValues(values: seq<string>)
    ensures forall n | n in LengthCounts(values) :: LengthCounts(values)[n] == |PositionsOfLength(values, n)|
  {
    if |values| > 0 {
      var k := |values| - 1;
      var init := values[..k];
      LengthCountsValues(init);
      forall n | n in LengthCounts(values)
        ensures LengthCounts(values)[n] == |PositionsOfLength(values, n)|
      {
        PositionsOfLengthStep(values, n);
        assert k !in PositionsOfLength(init, n);
        if n == |values[k]| && n !in LengthCounts(init) {
          LengthCountsKeys(init);
          assert PositionsOfLength(init, n) == {};
        }
      }
    }
  }

  /** A column draws at most one warning, naming it, and only when its name has an ID keyword and some cell is present. */
  lemma ColumnIdWarningsShape(col: Column)
    ensures |ColumnIdWarnings(col)| <= 1
    ensures forall w | w in ColumnIdWarnings(col) :: w.column == col.name && ContainsAny(Lower(col.name), IdKeywords)
    ensures (forall i | 0 <= i < |col.cells| :: !col.cells[i].Present?) ==> ColumnIdWarnings(col) == []
  {
    if forall i | 0 <= i < |col.cells| :: !col.cells[i].Present? {
      assert NonNullValues(col.cells) == [] by {
        NonNullValuesExact(col.cells);
        assert Where(col.cells, IsPresent) == {};
      }
    }
  }

  /** The mixed-format warning fires iff the name has an ID keyword and both an 8-digit and a 10-digit value are present. */
  lemma MixedIdFormatIff(col: Column)
    ensures (ColumnIdWarnings(col) != [] && ColumnIdWarnings(col)[0].MixedIdFormat?) <==>
      ContainsAny(Lower(col.name), IdKeywords)
      && (exists i | 0 <= i < |NonNullValues(col.cells)| :: IsCvr(NonNullValues(col.cells)[i]))
      && (exists i | 0 <= i < |NonNullValues(col.cells)| :: IsPNumber(NonNullValues(col.cells)[i]))
  {
    var values := NonNullValues(col.cells);
    CountIfPositive(values, IsCvr);
    CountIfPositive(values, IsPNumber);
    if exists i | 0 <= i < |values| :: IsCvr(values[i]) {
      assert values != [];
    }
  }

  /**
    The varying-length warning fires iff the format is not mixed, the name
    has "cvr", "p-nummer" or "pnr", and the present values come in more than
    two distinct lengths.
  */
  lemma VaryingIdLengthsIff(col: Column)
    ensures (ColumnIdWarnings(col) != [] && ColumnIdWarnings(col)[0].VaryingIdLengths?) <==>
      ContainsAny(Lower(col.name), NumberKeywords)
      && !((exists i | 0 <= i < |NonNullValues(col.cells)| :: IsCvr(NonNullValues(col.cells)[i]))
           && (exists i | 0 <= i < |NonNullValues(col.cells)| :: IsPNumber(NonNullValues(col.cells)[i])))
      && |DistinctLengths(NonNullValues(col.cells))| > MaxDistinctLengths
    ensures ColumnIdWarnings(col) != [] && ColumnIdWarnings(col)[0].VaryingIdLengths? ==>
      ColumnIdWarnings(col)[0].lengthCounts.Keys == DistinctLengths(NonNullValues(col.cells))
  {
    var name := Lower(col.name);
    var values := NonNullValues(col.cells);
    CountIfPositive(values, IsCvr);
    CountIfPositive(values, IsPNumber);
    LengthCountsKeys(values);
    if ContainsAny(name, NumberKeywords) {
      var k :| k in NumberKeywords && Contains(name, k);
      assert k in IdKeywords;
    }
    if values == [] {
      assert DistinctLengths(values) == {};
    }
  }

  /** The mixed-format warning counts the 8-digit values, the 10-digit values and all present values. */
  lemma MixedIdFormatCounts(col: Column)
    requires ColumnIdWarnings(col) != [] && ColumnIdWarnings(col)[0].MixedIdFormat?
    ensures var w := ColumnIdWarnings(col)[0];
      var values := NonNullValues(col.cells);
      && w.cvrCount == |Where(values, IsCvr)|
      && w.pNumberCount == |Where(values, IsPNumber)|
      && w.total == |Where(col.cells, IsPresent)|
      && w.cvrCount + w.pNumberCount <= w.total
  {
    var values := NonNullValues(col.cells);
    var w := ColumnIdWarnings(col)[0];
    assert w == MixedIdFormat(col.name, CountIf(values, IsCvr), CountIf(values, IsPNumber), |values|);
    NonNullValuesExact(col.cells);
    CountIfIsCardinality(values, IsCvr);
    CountIfIsCardinality(values, IsPNumber);
    CountIfDisjoint(values, IsCvr, IsPNumber);
  }

  /** Every warning belongs to an ID-like column, and no column draws more than one. */
  lemma {:induction false} IdWarningsPerColumn(columns: seq<Column>)
    ensures |IdWarnings(columns)| <= |columns|
    ensures forall w | w in IdWarnings(columns) ::
      && (w.MixedIdFormat? || w.VaryingIdLengths?)
      && (exists c | c in columns :: ColumnIdWarnings(c) == [w] && ContainsAny(Lower(c.name), IdKeywords))
    ensures forall c, w | c in columns && w in ColumnIdWarnings(c) :: w in IdWarnings(columns)
  {
    IdWarningsComplete(columns);
    if |columns| > 0 {
      var init := columns[..|columns| - 1];
      var last := columns[|columns| - 1];
      IdWarningsPerColumn(init);
      ColumnIdWarningsShape(last);
      forall w | w in IdWarnings(columns)
        ensures && (w.MixedIdFormat? || w.VaryingIdLengths?)
          && (exists c | c in columns :: ColumnIdWarnings(c) == [w] && ContainsAny(Lower(c.name), IdKeywords))
      {
        if w in IdWarnings(init) {
          var c :| c in init && ColumnIdWarnings(c) == [w] && ContainsAny(Lower(c.name), IdKeywords);
          assert c in columns;
        } else {
          assert w in ColumnIdWarnings(last);
          assert ColumnIdWarnings(last) == [w];
          assert last in columns;
        }
      }
    }
  }

  /** No column's warning is lost: every one of them appears in the rule's output. */
  lemma {:induction false} IdWarningsComplete(columns: seq<Column>)
    ensures forall c, w | c in columns && w in ColumnIdWarnings(c) :: w in IdWarnings(columns)
  {
    if |columns| > 0 {
      var init := columns[..|columns| - 1];
      var last := columns[|columns| - 1];
      IdWarningsComplete(init);
      assert columns == init + [last];
      forall c, w | c in columns && w in ColumnIdWarnings(c) ensures w in IdWarnings(columns) {
        if c != last {
          assert c in init;
        }
      }
    }
  }
}
