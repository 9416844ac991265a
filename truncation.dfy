/**
  Column-name hygiene: a byte-order mark on the first column, names that end
  in "...", names that look cut off by pandas, and names too long to read.
*/
module Truncation {
  import opened Text
  import opened Counting
  import opened Frame

  /** U+FEFF, the UTF-8 byte-order mark as it survives decoding. */
  const Bom: char := '\U{FEFF}'
  const Ellipsis: string := "..."
  /** Pandas cuts some column names to this many characters. */
  const CutLength: nat := 34
  /** Names longer than this are reported as very long and never as cut off. */
  const MaxNameLength: nat := 50
  /** A last word of this many characters is too long for an acronym and too short to be complete. */
  const MinCutWord: nat := 4
  const MaxCutWord: nat := 10
  /** How much of a very long name the source keeps for display. */
  const DisplayLength: nat := 40

  /** The name with every byte-order mark removed. */
  function StripBom(name: string): string
  {
    RemoveAll(name, Bom)
  }

  predicate IsUnderscore(c: char)
  {
    c == '_'
  }

  /** `name.split()[-1]` exists unless the name has a space and nothing else. */
  predicate HasLastWord(name: string)
  {
    ' ' in name ==> !AllSpace(name)
  }

  /** The last word: split on whitespace when the name contains a space, else on underscores. */
  function LastWord(name: string): string
    requires HasLastWord(name)
  {
    if ' ' in name then SuffixAfterLast(TrimEnd(name), IsSpace) else SuffixAfterLast(name, IsUnderscore)
  }

  /** The names on which the per-name check runs without an IndexError. */
  predicate Checkable(name: string)
  {
    CutLength <= |name| <= MaxNameLength ==> HasLastWord(name)
  }

  predicate AllCheckable(columns: seq<string>)
  {
    forall c | c in columns :: Checkable(StripBom(c))
  }

  /** The MULIG TRUNKING condition on a BOM-free name. */
  predicate LooksCut(name: string)
    requires Checkable(name)
  {
    !EndsWith(name, Ellipsis) && CutLength <= |name| <= MaxNameLength && MinCutWord <= |LastWord(name)| <= MaxCutWord
  }

  /** The warning, if any, for one BOM-free name. */
  function NameWarnings(name: string): seq<Warning>
    requires Checkable(name)
  {
    if EndsWith(name, Ellipsis) then [Truncated(name)]
    else if CutLength <= |name| <= MaxNameLength && MinCutWord <= |LastWord(name)| <= MaxCutWord then [PossiblyTruncated(name)]
    else []
  }

  /** A column whose name draws a warning of its own. */
  predicate IsFlagged(column: string)
  {
    Checkable(StripBom(column)) && NameWarnings(StripBom(column)) != []
  }

  predicate IsVeryLong(column: string)
  {
    |StripBom(column)| > MaxNameLength
  }

  function BomWarnings(columns: seq<string>): seq<Warning>
  {
    if |columns| > 0 && StartsWith(columns[0], [Bom]) then [BomMarker(StripBom(columns[0]))] else []
  }

  function PerColumnWarnings(columns: seq<string>): seq<Warning>
    requires AllCheckable(columns)
  {
    if |columns| == 0 then []
    else PerColumnWarnings(columns[..|columns| - 1]) + NameWarnings(StripBom(columns[|columns| - 1]))
  }

  function LongNameWarnings(columns: seq<string>): seq<Warning>
  {
    var n := CountIf(columns, IsVeryLong);
    if n > 0 then [VeryLongNames(n)] else []
  }

  /** What `detect_truncated_columns` returns, in its order. */
  function TruncationWarnings(columns: seq<string>): seq<Warning>
    requires AllCheckable(columns)
  {
    BomWarnings(columns) + PerColumnWarnings(columns) + LongNameWarnings(columns)
  }

  /** The BOM check on the first column, the pass over all names, then the aggregate warning. */
  method DetectTruncatedColumns(columns: seq<string>) returns (warnings: seq<Warning>)
    requires AllCheckable(columns)
    ensures warnings == TruncationWarnings(columns)
  {
    warnings := [];
    if |columns| > 0 {
      var firstColumn := columns[0];
      if StartsWith(firstColumn, [Bom]) {
        warnings := warnings + [BomMarker(StripBom(firstColumn))];
      }
    }
    assert warnings == BomWarnings(columns);
    var nameWarnings, veryLong := ScanColumns(columns);
    warnings := warnings + nameWarnings;
    if |veryLong| > 0 {
      warnings := warnings + [VeryLongNames(|veryLong|)];
    } else {
      assert warnings + LongNameWarnings(columns) == warnings;
    }
  }

  /**
    The loop over the column names: each name's own warning in column order,
    and every name over 50 characters, shortened for display.
  */
  method ScanColumns(columns: seq<string>) returns (nameWarnings: seq<Warning>, veryLong: seq<string>)
    requires AllCheckable(columns)
    ensures nameWarnings == PerColumnWarnings(columns)
    ensures |veryLong| == CountIf(columns, IsVeryLong)
    ensures forall shown | shown in veryLong :: |shown| == DisplayLength + |Ellipsis|
    ensures forall shown | shown in veryLong ::
      exists c | c in columns :: IsVeryLong(c) && shown == StripBom(c)[..DisplayLength] + Ellipsis
  {
    nameWarnings := [];
    veryLong := [];
    for i := 0 to |columns|
      invariant nameWarnings == NameWarningsUpTo(columns, i)
      invariant veryLong == ShownLongNames(columns, i)
    {
      LoopStep(columns, i);
      var name := StripBom(columns[i]);
      if |name| > MaxNameLength {
        veryLong := veryLong + [name[..DisplayLength] + Ellipsis];
      }
      if EndsWith(name, Ellipsis) {
        nameWarnings := nameWarnings + [Truncated(name)];
      } else if CutLength <= |name| <= MaxNameLength {
        var lastWord := LastWord(name);
        if MinCutWord <= |lastWord| <= MaxCutWord {
          nameWarnings := nameWarnings + [PossiblyTruncated(name)];
        }
      }
    }
    LoopCoversAllColumns(columns);
    ShownLongNamesFacts(columns, |columns|);
  }

  /** The per-name warnings of the first `i` columns, as the loop has them after `i` steps. */
  function NameWarningsUpTo(columns: seq<string>, i: nat): seq<Warning>
    requires AllCheckable(columns) && i <= |columns|
  {
    if i == 0 then []
    else
      assert columns[i - 1] in columns;
      NameWarningsUpTo(columns, i - 1) + NameWarnings(StripBom(columns[i - 1]))
  }

  /** How many of the first `i` names are very long, as the loop counts them. */
  function VeryLongUpTo(columns: seq<string>, i: nat): nat
    requires i <= |columns|
  {
    if i == 0 then 0 else VeryLongUpTo(columns, i - 1) + (if IsVeryLong(columns[i - 1]) then 1 else 0)
  }

  lemma {:induction false} VeryLongUpToCounts(columns: seq<string>, i: nat)
    requires i <= |columns|
    ensures VeryLongUpTo(columns, i) == CountIf(columns[..i], IsVeryLong)
  {
    if i > 0 {
      VeryLongUpToCounts(columns, i - 1);
      assert columns[..i][..i - 1] == columns[..i - 1];
    }
  }

  /** The first `i` names over 50 characters, as the loop shortens them for display. */
  function ShownLongNames(columns: seq<string>, i: nat): seq<string>
    requires i <= |columns|
  {
    if i == 0 then []
    else if IsVeryLong(columns[i - 1]) then ShownLongNames(columns, i - 1) + [StripBom(columns[i - 1])[..DisplayLength] + Ellipsis]
    else ShownLongNames(columns, i - 1)
  }

  lemma {:induction false} ShownLongNamesFacts(columns: seq<string>, i: nat)
    requires i <= |columns|
    ensures |ShownLongNames(columns, i)| == VeryLongUpTo(columns, i)
    ensures forall shown | shown in ShownLongNames(columns, i) :: |shown| == DisplayLength + |Ellipsis|
    ensures forall shown | shown in ShownLongNames(columns, i) ::
      exists c | c in columns :: IsVeryLong(c) && shown == StripBom(c)[..DisplayLength] + Ellipsis
  {
    if i > 0 {
      ShownLongNamesFacts(columns, i - 1);
      assert columns[i - 1] in columns;
    }
  }

  /** What one more column adds to each of the loop's accumulators. */
  lemma LoopStep(columns: seq<string>, i: nat)
    requires AllCheckable(columns) && i < |columns|
    ensures Checkable(StripBom(columns[i]))
    ensures NameWarningsUpTo(columns, i + 1) == NameWarningsUpTo(columns, i) + NameWarnings(StripBom(columns[i]))
    ensures VeryLongUpTo(columns, i + 1) == VeryLongUpTo(columns, i) + (if IsVeryLong(columns[i]) then 1 else 0)
  {
    assert columns[i] in columns;
  }

  /** After the last column the loop's two accumulators are the whole-list definitions. */
  lemma LoopCoversAllColumns(columns: seq<string>)
    requires AllCheckable(columns)
    ensures NameWarningsUpTo(columns, |columns|) == PerColumnWarnings(columns)
    ensures VeryLongUpTo(columns, |columns|) == CountIf(columns, IsVeryLong)
  {
    NameWarningsUpToIsPerColumn(columns, |columns|);
    VeryLongUpToCounts(columns, |columns|);
    assert columns[..|columns|] == columns;
  }

  lemma {:induction false} NameWarningsUpToIsPerColumn(columns: seq<string>, i: nat)
    requires AllCheckable(columns) && i <= |columns|
    ensures AllCheckable(columns[..i]) && NameWarningsUpTo(columns, i) == PerColumnWarnings(columns[..i])
  {
    if i > 0 {
      NameWarningsUpToIsPerColumn(columns, i - 1);
      assert columns[..i][..i - 1] == columns[..i - 1];
    }
  }

  /**
    Per-name warnings: a TRUNKERET warning for exactly the names that end in
    "...", a MULIG TRUNKING warning for exactly the names that look cut, and
    one warning for each flagged column.
  */
  lemma {:induction false} PerColumnWarningsExact(columns: seq<string>)
    requires AllCheckable(columns)
    ensures forall w | w in PerColumnWarnings(columns) :: w.Truncated? || w.PossiblyTruncated?
    ensures forall n :: Truncated(n) in PerColumnWarnings(columns) <==>
      exists c | c in columns :: StripBom(c) == n && EndsWith(n, Ellipsis)
    ensures forall n :: PossiblyTruncated(n) in PerColumnWarnings(columns) <==>
      exists c | c in columns :: StripBom(c) == n && LooksCut(n)
    ensures |PerColumnWarnings(columns)| == CountIf(columns, IsFlagged)
  {
    if |columns| > 0 {
      var init := columns[..|columns| - 1];
      var last := columns[|columns| - 1];
      assert columns == init + [last];
      PerColumnWarningsExact(init);
      forall n ensures Truncated(n) in PerColumnWarnings(columns) <==>
        exists c | c in columns :: StripBom(c) == n && EndsWith(n, Ellipsis)
      {
        if Truncated(n) in PerColumnWarnings(columns) && Truncated(n) !in PerColumnWarnings(init) {
          assert last in columns && StripBom(last) == n;
        }
      }
      forall n ensures PossiblyTruncated(n) in PerColumnWarnings(columns) <==>
        exists c | c in columns :: StripBom(c) == n && LooksCut(n)
      {
        if PossiblyTruncated(n) in PerColumnWarnings(columns) && PossiblyTruncated(n) !in PerColumnWarnings(init) {
          assert last in columns && StripBom(last) == n;
        }
      }
    }
  }

  /** A warning list made of an optional BOM warning and then warnings of other kinds. */
  lemma BomOnlyAtHead(head: seq<Warning>, rest: seq<Warning>)
    requires |head| <= 1 && forall w | w in head :: w.BomMarker?
    requires forall w | w in rest :: !w.BomMarker?
    ensures (exists i | 0 <= i < |head + rest| :: (head + rest)[i].BomMarker?) <==> head != []
    ensures forall i | 0 <= i < |head + rest| && (head + rest)[i].BomMarker? :: i == 0 && (head + rest)[i] == head[0]
  {
    var r := head + rest;
    assert forall j | |head| <= j < |r| :: r[j] == rest[j - |head|] && rest[j - |head|] in rest;
    if head != [] {
      assert r[0] == head[0] && head[0] in head;
    }
  }

  /** A BOM warning appears iff the first name starts with U+FEFF; it is the only one and comes first. */
  lemma BomWarningOnFirstColumnOnly(columns: seq<string>)
    requires AllCheckable(columns)
    ensures (exists i | 0 <= i < |TruncationWarnings(columns)| :: TruncationWarnings(columns)[i].BomMarker?)
      <==> |columns| > 0 && StartsWith(columns[0], [Bom])
    ensures forall i | 0 <= i < |TruncationWarnings(columns)| && TruncationWarnings(columns)[i].BomMarker? ::
      i == 0 && TruncationWarnings(columns)[i].cleanName == StripBom(columns[0])
      && Bom !in TruncationWarnings(columns)[i].cleanName
  {
    var b := BomWarnings(columns);
    var p := PerColumnWarnings(columns);
    var l := LongNameWarnings(columns);
    AppendAssociative(b, p, l);
    assert TruncationWarnings(columns) == b + (p + l);
    assert forall w: Warning | w in p + l :: !w.BomMarker? by {
      PerColumnWarningsExact(columns);
    }
    BomOnlyAtHead(b, p + l);
    if |columns| > 0 {
      RemoveAllRemoves(columns[0], Bom);
    }
  }

  /**
    MULIG TRUNKING only ever names a BOM-free name of 34 to 50 characters
    that does not end in "..." and whose last word has 4 to 10 characters.
  */
  lemma PossiblyTruncatedOnlyMidLength(columns: seq<string>)
    requires AllCheckable(columns)
    ensures forall w | w in TruncationWarnings(columns) && w.PossiblyTruncated? ::
      Bom !in w.name && !EndsWith(w.name, Ellipsis) && CutLength <= |w.name| <= MaxNameLength
      && HasLastWord(w.name) && MinCutWord <= |LastWord(w.name)| <= MaxCutWord
  {
    PerColumnWarningsExact(columns);
    forall w | w in TruncationWarnings(columns) && w.PossiblyTruncated?
      ensures Bom !in w.name && !EndsWith(w.name, Ellipsis) && CutLength <= |w.name| <= MaxNameLength
      && HasLastWord(w.name) && MinCutWord <= |LastWord(w.name)| <= MaxCutWord
    {
      assert w in PerColumnWarnings(columns);
      var c :| c in columns && StripBom(c) == w.name && LooksCut(w.name);
      RemoveAllRemoves(c, Bom);
    }
  }

  /** A warning list made of warnings of other kinds and then an optional aggregate warning. */
  lemma AggregateOnlyAtEnd(front: seq<Warning>, tail: seq<Warning>)
    requires forall w | w in front :: !w.VeryLongNames?
    requires |tail| <= 1 && forall w | w in tail :: w.VeryLongNames?
    ensures (exists i | 0 <= i < |front + tail| :: (front + tail)[i].VeryLongNames?) <==> tail != []
    ensures forall i | 0 <= i < |front + tail| && (front + tail)[i].VeryLongNames? ::
      i == |front + tail| - 1 && (front + tail)[i] == tail[0]
  {
    var r := front + tail;
    assert forall j | 0 <= j < |front| :: r[j] == front[j] && front[j] in front;
    if tail != [] {
      assert r[|r| - 1] == tail[0] && tail[0] in tail;
    }
  }

  /** Some name is over 50 characters exactly when the count of such names is positive. */
  lemma SomeVeryLongIff(columns: seq<string>)
    ensures CountIf(columns, IsVeryLong) > 0 <==> exists c | c in columns :: |StripBom(c)| > MaxNameLength
  {
    CountIfPositive(columns, IsVeryLong);
    if CountIf(columns, IsVeryLong) > 0 {
      var j :| 0 <= j < |columns| && IsVeryLong(columns[j]);
      assert columns[j] in columns;
    }
    if exists c | c in columns :: |StripBom(c)| > MaxNameLength {
      var c :| c in columns && |StripBom(c)| > MaxNameLength;
      var j :| 0 <= j < |columns| && columns[j] == c;
      assert IsVeryLong(columns[j]);
    }
  }

  /**
    Names over 50 characters are summed into exactly one aggregate warning,
    the last one, whose count is the number of such names; no such name
    draws a MULIG TRUNKING warning.
  */
  lemma VeryLongNamesAggregated(columns: seq<string>)
    requires AllCheckable(columns)
    ensures (exists i | 0 <= i < |TruncationWarnings(columns)| :: TruncationWarnings(columns)[i].VeryLongNames?)
      <==> exists c | c in columns :: |StripBom(c)| > MaxNameLength
    ensures forall i | 0 <= i < |TruncationWarnings(columns)| && TruncationWarnings(columns)[i].VeryLongNames? ::
      i == |TruncationWarnings(columns)| - 1
      && TruncationWarnings(columns)[i].count == |set j | 0 <= j < |columns| && |StripBom(columns[j])| > MaxNameLength|
  {
    var bp := BomWarnings(columns) + PerColumnWarnings(columns);
    var l := LongNameWarnings(columns);
    assert forall w | w in bp :: !w.VeryLongNames? by {
      PerColumnWarningsExact(columns);
    }
    assert TruncationWarnings(columns) == bp + l;
    AggregateOnlyAtEnd(bp, l);
    SomeVeryLongIff(columns);
    CountIfIsCardinality(columns, IsVeryLong);
    assert Where(columns, IsVeryLong) == set j | 0 <= j < |columns| && |StripBom(columns[j])| > MaxNameLength;
  }

  /** A name over 50 characters is only counted as very long, never reported as possibly cut off. */
  lemma VeryLongNamesNotPossiblyTruncated(columns: seq<string>)
    requires AllCheckable(columns)
    ensures forall c | c in columns && |StripBom(c)| > MaxNameLength :: PossiblyTruncated(StripBom(c)) !in TruncationWarnings(columns)
  {
    PerColumnWarningsExact(columns);
    forall c | c in columns && |StripBom(c)| > MaxNameLength
      ensures PossiblyTruncated(StripBom(c)) !in TruncationWarnings(columns)
    {
      assert !LooksCut(StripBom(c));
    }
  }
}
