/**
  The column warnings of one audit log: the four name- and structure-level
  rules run one after the other and their warnings are listed in that order;
  then every column gets its type flags.
*/
module Audit {
  import opened Wrappers
  import opened Frame
  import opened Truncation
  import opened Metadata
  import opened IdFormats
  import opened CsvStructure
  import opened TypeFlags
  import opened Counting

  /** The rule a warning comes from: 0 names, 1 metadata, 2 ID formats, 3 CSV structure. */
  function RuleOf(w: Warning): nat
  {
    match w
    case BomMarker(_) => 0
    case Truncated(_) => 0
    case PossiblyTruncated(_) => 0
    case VeryLongNames(_) => 0
    case MissingMetadata(_) => 1
    case MixedIdFormat(_, _, _, _) => 2
    case VaryingIdLengths(_, _) => 2
    case UnnamedColumns(_) => 3
    case InconsistentFieldCount(_, _) => 3
  }

  /** `all_warnings`: the four rules' warnings, concatenated in the order the source calls them. */
  function AuditWarnings(table: Table, path: string, file: Option<string>): seq<Warning>
    requires AllCheckable(ColumnNames(table.columns))
  {
    var names := ColumnNames(table.columns);
    TruncationWarnings(names) + MetadataWarnings(names, table.rows) + IdWarnings(table.columns) + CsvWarnings(names, path, file)
  }

  method CollectWarnings(table: Table, path: string, file: Option<string>) returns (warnings: seq<Warning>)
    requires AllCheckable(ColumnNames(table.columns))
    ensures warnings == AuditWarnings(table, path, file)
  {
    var names := ColumnNames(table.columns);
    var truncationWarnings := DetectTruncatedColumns(names);
    var metadataWarnings := MetadataWarnings(names, table.rows);
    var idWarnings := DetectIdInconsistencies(table.columns);
    var csvWarnings := DetectCsvParsingIssues(names, path, file);
    warnings := truncationWarnings + metadataWarnings + idWarnings + csvWarnings;
  }

  /** The flags column of the audit table: `detect_problematic_types` on every column, in column order. */
  method ColumnFlags(table: Table, isDanishDate: string -> bool) returns (flags: seq<seq<Flag>>)
    ensures |flags| == |table.columns|
    ensures forall i | 0 <= i < |flags| :: flags[i] == Flags(table.columns[i], isDanishDate)
  {
    ghost var expected := seq(|table.columns|, k requires 0 <= k < |table.columns| => Flags(table.columns[k], isDanishDate));
    flags := [];
    for i := 0 to |table.columns|
      invariant flags == expected[..i]
    {
      var columnFlags := DetectProblematicTypes(table.columns[i], isDanishDate);
      PrefixExtends(expected, i, columnFlags);
      flags := flags + [columnFlags];
    }
    assert expected[..|table.columns|] == expected;
  }

  lemma TruncationRule(columns: seq<string>)
    requires AllCheckable(columns)
    ensures forall w | w in TruncationWarnings(columns) :: RuleOf(w) == 0
  {
    PerColumnWarningsExact(columns);
  }

  lemma MetadataRule(columns: seq<string>, rows: nat)
    ensures forall w | w in MetadataWarnings(columns, rows) :: RuleOf(w) == 1
  {
  }

  lemma IdRule(columns: seq<Column>)
    ensures forall w | w in IdWarnings(columns) :: RuleOf(w) == 2
  {
    IdWarningsPerColumn(columns);
  }

  lemma CsvRule(columns: seq<string>, path: string, file: Option<string>)
    ensures forall w | w in CsvWarnings(columns, path, file) :: RuleOf(w) == 3
  {
  }

  /**
    The combined list is grouped by rule in the order names, metadata, ID
    formats, CSV structure, and each group is exactly that rule's output.
  */
  lemma {:induction false} WarningsGroupedByRule(table: Table, path: string, file: Option<string>)
    requires AllCheckable(ColumnNames(table.columns))
    ensures var r := AuditWarnings(table, path, file);
      forall i, j | 0 <= i < j < |r| :: RuleOf(r[i]) <= RuleOf(r[j])
    ensures var names := ColumnNames(table.columns);
      var r := AuditWarnings(table, path, file);
      var t := |TruncationWarnings(names)|;
      var m := t + |MetadataWarnings(names, table.rows)|;
      var d := m + |IdWarnings(table.columns)|;
      forall i | 0 <= i < |r| ::
        && (RuleOf(r[i]) == 0 <==> i < t)
        && (RuleOf(r[i]) <= 1 <==> i < m)
        && (RuleOf(r[i]) <= 2 <==> i < d)
  {
    var names := ColumnNames(table.columns);
    TruncationRule(names);
    MetadataRule(names, table.rows);
    IdRule(table.columns);
    CsvRule(names, path, file);
    ConcatByRule(TruncationWarnings(names), MetadataWarnings(names, table.rows), IdWarnings(table.columns), CsvWarnings(names, path, file));
  }

  /** Four blocks of warnings of rules 0, 1, 2 and 3, concatenated in that order. */
  lemma ConcatByRule(tw: seq<Warning>, mw: seq<Warning>, dw: seq<Warning>, cw: seq<Warning>)
    requires forall w | w in tw :: RuleOf(w) == 0
    requires forall w | w in mw :: RuleOf(w) == 1
    requires forall w | w in dw :: RuleOf(w) == 2
    requires forall w | w in cw :: RuleOf(w) == 3
    ensures var r := tw + mw + dw + cw;
      forall i | 0 <= i < |r| ::
        RuleOf(r[i]) == if i < |tw| then 0 else if i < |tw| + |mw| then 1 else if i < |tw| + |mw| + |dw| then 2 else 3
  {
    var r := tw + mw + dw + cw;
    forall i | 0 <= i < |r|
      ensures RuleOf(r[i]) == if i < |tw| then 0 else if i < |tw| + |mw| then 1 else if i < |tw| + |mw| + |dw| then 2 else 3
    {
      if i < |tw| {
        assert r[i] == tw[i] && tw[i] in tw;
      } else if i < |tw| + |mw| {
        assert r[i] == mw[i - |tw|] && mw[i - |tw|] in mw;
      } else if i < |tw| + |mw| + |dw| {
        assert r[i] == dw[i - |tw| - |mw|] && dw[i - |tw| - |mw|] in dw;
      } else {
        assert r[i] == cw[i - |tw| - |mw| - |dw|] && cw[i - |tw| - |mw| - |dw|] in cw;
      }
    }
  }
}
