/**
  CSV structural integrity: "Unnamed:" columns that pandas invents for
  surplus fields, and data lines among the first ten whose separator count
  differs from the header's.
*/
module CsvStructure {
  import opened Wrappers
  import opened Text
  import opened Counting
  import opened Frame

  const UnnamedPrefix: string := "Unnamed:"
  const CsvSuffix: string := ".csv"
  /** The header and ten data lines. */
  const HeadLines: nat := 11
  const MaxExamples: nat := 3

  /**
    `readline()` on text-mode input whose line endings are already
    translated: everything up to and including the first newline, or the
    rest of the text when there is none, so "" exactly at the end.
  */
  function NextLine(text: string): (line: string)
    ensures StartsWith(text, line)
    ensures line == [] <==> text == []
    ensures forall i | 0 <= i < |line| - 1 :: line[i] != '\n'
    ensures line != [] && line[|line| - 1] != '\n' ==> line == text
  {
    var k := IndexOf(text, '\n');
    if k < |text| then text[..k + 1] else text
  }

  /** `[f.readline() for _ in range(count)]`. */
  function ReadLines(text: string, count: nat): seq<string>
  {
    if count == 0 then [] else var line := NextLine(text); [line] + ReadLines(text[|line|..], count - 1)
  }

  function Concat(lines: seq<string>): string
  {
    if |lines| == 0 then [] else lines[0] + Concat(lines[1..])
  }

  /** Reading `count` lines gives `count` lines, whatever the text. */
  lemma {:induction false} ReadLinesCount(text: string, count: nat)
    ensures |ReadLines(text, count)| == count
  {
    if count > 0 {
      ReadLinesCount(text[|NextLine(text)|..], count - 1);
    }
  }

  /** The lines read, put back together, are a prefix of the text: nothing is skipped or invented. */
  lemma {:induction false} ReadLinesPrefix(text: string, count: nat)
    ensures StartsWith(text, Concat(ReadLines(text, count)))
  {
    if count > 0 {
      var line := NextLine(text);
      var rest := text[|line|..];
      ReadLinesPrefix(rest, count - 1);
      var r := ReadLines(text, count);
      assert r[0] == line && r[1..] == ReadLines(rest, count - 1);
      assert Concat(r) == line + Concat(ReadLines(rest, count - 1));
      assert text == line + rest;
    }
  }

  /** Each line read holds a newline at most as its last character. */
  lemma {:induction false} ReadLinesNewlines(text: string, count: nat)
    ensures forall j | 0 <= j < |ReadLines(text, count)| ::
      forall i | 0 <= i < |ReadLines(text, count)[j]| - 1 :: ReadLines(text, count)[j][i] != '\n'
  {
    if count > 0 {
      var line := NextLine(text);
      var rest := text[|line|..];
      ReadLinesNewlines(rest, count - 1);
      var r := ReadLines(text, count);
      forall j | 0 <= j < |r| ensures forall i | 0 <= i < |r[j]| - 1 :: r[j][i] != '\n' {
        if j > 0 {
          assert r[j] == ReadLines(rest, count - 1)[j - 1];
        }
      }
    }
  }

  /** Past the end of the text every read gives "": once a line is empty, all later ones are. */
  lemma {:induction false} ReadLinesEmptyAfterEnd(text: string, count: nat)
    ensures forall j, k | 0 <= j <= k < |ReadLines(text, count)| && ReadLines(text, count)[j] == [] ::
      ReadLines(text, count)[k] == []
  {
    if count > 0 {
      var line := NextLine(text);
      var rest := text[|line|..];
      ReadLinesEmptyAfterEnd(rest, count - 1);
      var r := ReadLines(text, count);
      var tail := ReadLines(rest, count - 1);
      assert r == [line] + tail;
      assert forall m | 1 <= m < |r| :: r[m] == tail[m - 1];
      if line == [] {
        EmptyTextReadsEmpty(rest, count - 1);
      }
    }
  }

  lemma {:induction false} EmptyTextReadsEmpty(text: string, count: nat)
    requires text == []
    ensures forall k | 0 <= k < |ReadLines(text, count)| :: ReadLines(text, count)[k] == []
  {
    if count > 0 {
      EmptyTextReadsEmpty(text, count - 1);
      assert ReadLines(text, count) == [[]] + ReadLines(text, count - 1);
    }
  }

  predicate IsUnnamed(name: string)
  {
    StartsWith(name, UnnamedPrefix)
  }

  /** Comma if the header has one, else semicolon if it has one, else no check. */
  function SeparatorOf(header: string): Option<char>
  {
    if ',' in header then Some(',') else if ';' in header then Some(';') else None
  }

  /** A data line that is not blank and has a different number of separators from the header. */
  predicate Inconsistent(line: string, sep: char, expected: nat)
  {
    !AllSpace(line) && CountChar(line, sep) != expected
  }

  /** The inconsistent lines among `lines[1..n]`, in line order. */
  function Mismatches(lines: seq<string>, sep: char, expected: nat, n: nat): seq<RowMismatch>
    requires 1 <= n <= |lines|
  {
    if n == 1 then []
    else
      var line := lines[n - 1];
      Mismatches(lines, sep, expected, n - 1)
      + (if Inconsistent(line, sep, expected) then [RowMismatch(n - 1, CountChar(line, sep), expected)] else [])
  }

  function FieldCountWarnings(lines: seq<string>): seq<Warning>
  {
    if |lines| <= 1 then []
    else
      match SeparatorOf(lines[0])
      case None => []
      case Some(sep) =>
        var expected := CountChar(lines[0], sep);
        var rows := Mismatches(lines, sep, expected, |lines|);
        if rows == [] then [] else [InconsistentFieldCount(|rows|, rows[..Min(MaxExamples, |rows|)])]
  }

  /**
    What `detect_csv_parsing_issues` returns. `file` is the file's decoded
    text, or None when opening or decoding it raised (the source then skips
    the line check silently).
  */
  function CsvWarnings(columns: seq<string>, path: string, file: Option<string>): seq<Warning>
  {
    var unnamed := CountIf(columns, IsUnnamed);
    (if unnamed > 0 then [UnnamedColumns(unnamed)] else [])
    + (if EndsWith(path, CsvSuffix) && file.Some? then FieldCountWarnings(ReadLines(file.value, HeadLines)) else [])
  }

  method DetectCsvParsingIssues(columns: seq<string>, path: string, file: Option<string>) returns (warnings: seq<Warning>)
    ensures warnings == CsvWarnings(columns, path, file)
  {
    warnings := [];
    var unnamedColumns: seq<string> := [];
    for i := 0 to |columns|
      invariant |unnamedColumns| == CountIf(columns[..i], IsUnnamed)
    {
      assert columns[..i + 1][..i] == columns[..i];
      if StartsWith(columns[i], UnnamedPrefix) {
        unnamedColumns := unnamedColumns + [columns[i]];
      }
    }
    assert columns[..|columns|] == columns;
    if |unnamedColumns| > 0 {
      warnings := warnings + [UnnamedColumns(|unnamedColumns|)];
    }
    if EndsWith(path, CsvSuffix) && file.Some? {
      var lines := ReadLines(file.value, HeadLines);
      if |lines| > 1 {
        var header := lines[0];
        var sep := SeparatorOf(header);
        if sep.Some? {
          var expected := CountChar(header, sep.value);
          var rows: seq<RowMismatch> := [];
          for i := 1 to |lines|
            invariant rows == Mismatches(lines, sep.value, expected, i)
          {
            var line := lines[i];
            StripEmptyIffAllSpace(line);
            if Strip(line) != [] {
              var found := CountChar(line, sep.value);
              if found != expected {
                rows := rows + [RowMismatch(i, found, expected)];
              }
            }
          }
          if |rows| > 0 {
            warnings := warnings + [InconsistentFieldCount(|rows|, rows[..Min(MaxExamples, |rows|)])];
          }
        }
      }
    }
  }

  /** Every mismatch reported is an inconsistent line among `lines[1..n]`, with its separator counts. */
  lemma {:induction false} MismatchesSound(lines: seq<string>, sep: char, expected: nat, n: nat)
    requires 1 <= n <= |lines|
    ensures forall m | m in Mismatches(lines, sep, expected, n) ::
      1 <= m.row < n && Inconsistent(lines[m.row], sep, expected)
      && m.found == CountChar(lines[m.row], sep) && m.expected == expected
  {
    if n > 1 {
      MismatchesSound(lines, sep, expected, n - 1);
    }
  }

  /** Every inconsistent line among `lines[1..n]` is reported. */
  lemma {:induction false} MismatchesComplete(lines: seq<string>, sep: char, expected: nat, n: nat)
    requires 1 <= n <= |lines|
    ensures forall i | 1 <= i < n && Inconsistent(lines[i], sep, expected) ::
      exists m | m in Mismatches(lines, sep, expected, n) :: m.row == i
  {
    if n > 1 {
      MismatchesComplete(lines, sep, expected, n - 1);
      var prev := Mismatches(lines, sep, expected, n - 1);
      var rows := Mismatches(lines, sep, expected, n);
      forall i | 1 <= i < n && Inconsistent(lines[i], sep, expected)
        ensures exists m | m in rows :: m.row == i
      {
        if i < n - 1 {
          var m :| m in prev && m.row == i;
          assert m in rows;
        } else {
          assert rows[|rows| - 1].row == i;
        }
      }
    }
  }

  /** Mismatches are reported in increasing line order, so none twice. */
  lemma {:induction false} MismatchesOrdered(lines: seq<string>, sep: char, expected: nat, n: nat)
    requires 1 <= n <= |lines|
    ensures forall a, b | 0 <= a < b < |Mismatches(lines, sep, expected, n)| ::
      Mismatches(lines, sep, expected, n)[a].row < Mismatches(lines, sep, expected, n)[b].row
  {
    if n > 1 {
      MismatchesOrdered(lines, sep, expected, n - 1);
      MismatchesSound(lines, sep, expected, n - 1);
      var prev := Mismatches(lines, sep, expected, n - 1);
      var rows := Mismatches(lines, sep, expected, n);
      forall a, b | 0 <= a < b < |rows| ensures rows[a].row < rows[b].row {
        assert rows[a] == prev[a] && prev[a] in prev;
        if b < |prev| {
          assert rows[b] == prev[b];
        }
      }
    }
  }

  /** The numbers of the inconsistent lines among `lines[1..n]`. */
  ghost function InconsistentRows(lines: seq<string>, sep: char, expected: nat, n: nat): set<nat>
    requires n <= |lines|
  {
    set i: nat | 1 <= i < n && Inconsistent(lines[i], sep, expected)
  }

  lemma InconsistentRowsStep(lines: seq<string>, sep: char, expected: nat, n: nat)
    requires 1 < n <= |lines|
    ensures InconsistentRows(lines, sep, expected, n)
      == InconsistentRows(lines, sep, expected, n - 1)
         + (if Inconsistent(lines[n - 1], sep, expected) then {n - 1} else {})
  {
  }

  /** The number of mismatches is the number of inconsistent lines among `lines[1..n]`. */
  lemma {:induction false} MismatchesCount(lines: seq<string>, sep: char, expected: nat, n: nat)
    requires 1 <= n <= |lines|
    ensures |Mismatches(lines, sep, expected, n)| == |InconsistentRows(lines, sep, expected, n)|
  {
    if n > 1 {
      MismatchesCount(lines, sep, expected, n - 1);
      InconsistentRowsStep(lines, sep, expected, n);
      assert n - 1 !in InconsistentRows(lines, sep, expected, n - 1);
    } else {
      assert InconsistentRows(lines, sep, expected, n) == {};
    }
  }

  /** An "Unnamed" warning appears iff some name starts with "Unnamed:"; it comes first and counts those names. */
  lemma UnnamedWarningIff(columns: seq<string>, path: string, file: Option<string>)
    ensures (exists i | 0 <= i < |CsvWarnings(columns, path, file)| :: CsvWarnings(columns, path, file)[i].UnnamedColumns?)
      <==> exists c | c in columns :: StartsWith(c, UnnamedPrefix)
    ensures forall i | 0 <= i < |CsvWarnings(columns, path, file)| && CsvWarnings(columns, path, file)[i].UnnamedColumns? ::
      i == 0 && CsvWarnings(columns, path, file)[i].count == |Where(columns, IsUnnamed)|
  {
    CountIfPositive(columns, IsUnnamed);
    CountIfIsCardinality(columns, IsUnnamed);
    var r := CsvWarnings(columns, path, file);
    var u := if CountIf(columns, IsUnnamed) > 0 then [UnnamedColumns(CountIf(columns, IsUnnamed))] else [];
    var f := if EndsWith(path, CsvSuffix) && file.Some? then FieldCountWarnings(ReadLines(file.value, HeadLines)) else [];
    assert r == u + f;
    forall i | |u| <= i < |r| ensures !r[i].UnnamedColumns? {
      assert r[i] == f[i - |u|];
    }
    if exists c | c in columns :: StartsWith(c, UnnamedPrefix) {
      var c :| c in columns && StartsWith(c, UnnamedPrefix);
      var j :| 0 <= j < |columns| && columns[j] == c;
      assert IsUnnamed(columns[j]);
      assert r[0] == u[0];
    } else {
      forall j | 0 <= j < |columns| ensures !IsUnnamed(columns[j]) {
        assert columns[j] in columns;
      }
    }
  }

  /**
    The field-count warning appears, once, iff there is a header, it has a
    comma or a semicolon, and some later line is inconsistent with it.
  */
  lemma FieldCountWarningIff(lines: seq<string>)
    ensures |FieldCountWarnings(lines)| <= 1
    ensures FieldCountWarnings(lines) != [] <==>
      |lines| > 1 && SeparatorOf(lines[0]).Some?
      && exists i | 1 <= i < |lines| :: Inconsistent(lines[i], SeparatorOf(lines[0]).value, CountChar(lines[0], SeparatorOf(lines[0]).value))
  {
    if |lines| > 1 && SeparatorOf(lines[0]).Some? {
      var sep := SeparatorOf(lines[0]).value;
      var expected := CountChar(lines[0], sep);
      var rows := Mismatches(lines, sep, expected, |lines|);
      MismatchesSound(lines, sep, expected, |lines|);
      MismatchesComplete(lines, sep, expected, |lines|);
      if rows != [] {
        assert rows[0] in rows;
      }
    }
  }

  /**
    `examples` are inconsistent lines of `lines`, in increasing line order,
    with no inconsistent line skipped before the last of them.
  */
  ghost predicate LeadingInconsistentLines(examples: seq<RowMismatch>, lines: seq<string>, sep: char, expected: nat)
  {
    && (forall m | m in examples ::
          1 <= m.row < |lines| && Inconsistent(lines[m.row], sep, expected) && m.found == CountChar(lines[m.row], sep))
    && (forall a, b | 0 <= a < b < |examples| :: examples[a].row < examples[b].row)
    && (forall m, i | m in examples && 1 <= i < m.row && Inconsistent(lines[i], sep, expected) ::
          exists e | e in examples :: e.row == i)
  }

  /** Any leading part of the mismatch list is a run of leading inconsistent lines. */
  lemma MismatchPrefixLeads(lines: seq<string>, sep: char, expected: nat, k: nat)
    requires 1 <= |lines| && k <= |Mismatches(lines, sep, expected, |lines|)|
    ensures LeadingInconsistentLines(Mismatches(lines, sep, expected, |lines|)[..k], lines, sep, expected)
  {
    MismatchPrefixSound(lines, sep, expected, k);
    MismatchPrefixOrdered(lines, sep, expected, k);
    MismatchPrefixNoSkips(lines, sep, expected, k);
  }

  lemma MismatchPrefixSound(lines: seq<string>, sep: char, expected: nat, k: nat)
    requires 1 <= |lines| && k <= |Mismatches(lines, sep, expected, |lines|)|
    ensures forall m | m in Mismatches(lines, sep, expected, |lines|)[..k] ::
      1 <= m.row < |lines| && Inconsistent(lines[m.row], sep, expected) && m.found == CountChar(lines[m.row], sep)
  {
    var rows := Mismatches(lines, sep, expected, |lines|);
    MismatchesSound(lines, sep, expected, |lines|);
    assert forall m | m in rows[..k] :: m in rows;
  }

  lemma MismatchPrefixOrdered(lines: seq<string>, sep: char, expected: nat, k: nat)
    requires 1 <= |lines| && k <= |Mismatches(lines, sep, expected, |lines|)|
    ensures var examples := Mismatches(lines, sep, expected, |lines|)[..k];
      forall a, b | 0 <= a < b < |examples| :: examples[a].row < examples[b].row
  {
    MismatchesOrdered(lines, sep, expected, |lines|);
  }

  lemma MismatchPrefixNoSkips(lines: seq<string>, sep: char, expected: nat, k: nat)
    requires 1 <= |lines| && k <= |Mismatches(lines, sep, expected, |lines|)|
    ensures var examples := Mismatches(lines, sep, expected, |lines|)[..k];
      forall m, i | m in examples && 1 <= i < m.row && i < |lines| && Inconsistent(lines[i], sep, expected) ::
        exists e | e in examples :: e.row == i
  {
    var rows := Mismatches(lines, sep, expected, |lines|);
    var examples := rows[..k];
    MismatchesComplete(lines, sep, expected, |lines|);
    MismatchesOrdered(lines, sep, expected, |lines|);
    forall m, i | m in examples && 1 <= i < m.row && i < |lines| && Inconsistent(lines[i], sep, expected)
      ensures exists e | e in examples :: e.row == i
    {
      var a :| 0 <= a < k && rows[a] == m;
      var e :| e in rows && e.row == i;
      var b :| 0 <= b < |rows| && rows[b] == e;
      assert b < a;
      assert examples[b] == e;
    }
  }

  /**
    The field-count warning's count is the number of inconsistent lines, at
    least one, and its examples are the first three of them (all of them when
    there are fewer), in line order, each carrying the header's count.
  */
  lemma FieldCountWarningReports(lines: seq<string>)
    requires FieldCountWarnings(lines) != []
    ensures |lines| > 1 && SeparatorOf(lines[0]).Some?
    ensures var w := FieldCountWarnings(lines)[0];
      var sep := SeparatorOf(lines[0]).value;
      var expected := CountChar(lines[0], sep);
      && w.InconsistentFieldCount?
      && w.rows == |InconsistentRows(lines, sep, expected, |lines|)| >= 1
      && |w.examples| == Min(MaxExamples, w.rows)
      && LeadingInconsistentLines(w.examples, lines, sep, expected)
      && forall m | m in w.examples :: m.expected == expected
  {
    var sep := SeparatorOf(lines[0]).value;
    var expected := CountChar(lines[0], sep);
    var rows := Mismatches(lines, sep, expected, |lines|);
    var k := Min(MaxExamples, |rows|);
    assert FieldCountWarnings(lines)[0] == InconsistentFieldCount(|rows|, rows[..k]);
    MismatchesCount(lines, sep, expected, |lines|);
    MismatchPrefixLeads(lines, sep, expected, k);
    MismatchesSound(lines, sep, expected, |lines|);
    assert forall m | m in rows[..k] :: m in rows;
  }
}
