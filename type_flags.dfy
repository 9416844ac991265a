/**
  Per-column type flags: Danish month names and comma decimals in the first
  200 values, blank "ghost" nulls, a partial share of 8- or 10-digit IDs,
  long text, and postal codes outside the Danish range 1000-9990.
*/
module TypeFlags {
  import opened Wrappers
  import opened Text
  import opened Counting
  import opened Frame
  import IdFormats

  /** The pattern flags look at this many leading values only. */
  const SampleSize: nat := 200
  /** LONG_TEXT: a mean stripped length above this. */
  const LongTextMean: nat := 60
  const PostalKeywords: seq<string> := ["postnummer", "postal", "postcode"]
  const PostalMin: nat := 1000
  const PostalMax: nat := 9990

  /** `series.astype(str).str.strip()`. */
  function StrippedText(cells: seq<Cell>): seq<string>
  {
    seq(|cells|, i requires 0 <= i < |cells| => Strip(AsStr(cells[i])))
  }

  /** Full match of `-?\d+,\d+` (the source anchors it with `^` and `$` on a stripped value). */
  predicate IsCommaDecimal(t: string)
  {
    var body := if |t| > 0 && t[0] == '-' then t[1..] else t;
    exists k | 0 < k < |body| - 1 :: body[k] == ',' && AllDigits(body[..k]) && AllDigits(body[k + 1..])
  }

  /** A stripped value that is a CVR number or a P-number. */
  predicate IsIdLike(t: string)
  {
    IdFormats.IsCvr(t) || IdFormats.IsPNumber(t)
  }

  /** `astype(str).str.fullmatch(r'\s*')`: the unstripped text is empty or all whitespace. */
  predicate IsBlankCell(c: Cell)
  {
    AllSpace(AsStr(c))
  }

  function TotalLength(values: seq<string>): nat
  {
    if |values| == 0 then 0 else TotalLength(values[..|values| - 1]) + |values[|values| - 1]|
  }

  /** A number as `pd.to_numeric` reads it: sign, whole part and the digits after the point. */
  datatype Decimal = Decimal(negative: bool, whole: nat, fraction: string)

  function DigitsValue(s: string): nat
    requires AllDigits(s)
  {
    if |s| == 0 then 0 else 10 * DigitsValue(s[..|s| - 1]) + (s[|s| - 1] as int - '0' as int)
  }

  /** `[+-]?\d+(\.\d+)?`, or None for anything `errors='coerce'` would turn into NaN. */
  function ParseNumber(text: string): Option<Decimal>
  {
    var signed := |text| > 0 && (text[0] == '-' || text[0] == '+');
    var unsigned := if signed then text[1..] else text;
    var dot := IndexOf(unsigned, '.');
    var whole := unsigned[..dot];
    var fraction := if dot < |unsigned| then unsigned[dot + 1..] else [];
    if whole != [] && AllDigits(whole) && AllDigits(fraction) && (dot < |unsigned| ==> fraction != []) then
      Some(Decimal(signed && text[0] == '-', DigitsValue(whole), fraction))
    else None
  }

  predicate AllZeros(s: string)
  {
    forall i | 0 <= i < |s| :: s[i] == '0'
  }

  /** `(v < 1000) | (v > 9990)`, decided on the digits. */
  predicate OutsidePostalRange(d: Decimal)
  {
    d.negative || d.whole < PostalMin || d.whole > PostalMax || (d.whole == PostalMax && !AllZeros(d.fraction))
  }

  /** `pd.to_numeric(series.dropna(), errors='coerce').dropna()`. */
  function NumericValues(cells: seq<Cell>): seq<Decimal>
  {
    if |cells| == 0 then []
    else
      NumericValues(cells[..|cells| - 1])
      + (match cells[|cells| - 1]
         case Missing => []
         case Present(t) => if ParseNumber(t).Some? then [ParseNumber(t).value] else [])
  }

  /** INVALID_POSTAL for a postal column with `numeric` parsed values of which `invalid` are out of range. */
  function PostalFlag(isPostal: bool, numeric: nat, invalid: nat): seq<Flag>
  {
    if isPostal && numeric > 0 && invalid > 0 then [InvalidPostal(invalid, numeric)] else []
  }

  function PostalFlags(col: Column): seq<Flag>
  {
    var numbers := NumericValues(col.cells);
    PostalFlag(ContainsAny(Lower(col.name), PostalKeywords), |numbers|, CountIf(numbers, OutsidePostalRange))
  }

  /** The leading values the pattern flags look at: `.head(200)` of the stripped text. */
  function Sample(col: Column): seq<string>
  {
    StrippedText(col.cells)[..Min(SampleSize, |col.cells|)]
  }

  /** DATO_TEXT_DK and NUM_COMMA, decided on the sample. */
  function PatternFlags(sample: seq<string>, isDanishDate: string -> bool): seq<Flag>
  {
    (if exists i | 0 <= i < |sample| :: isDanishDate(sample[i]) then [DanishDateText] else [])
    + (if exists i | 0 <= i < |sample| :: IsCommaDecimal(sample[i]) then [NumComma] else [])
  }

  /** GHOST_NULLS, DIRTY_ID and LONG_TEXT, decided on counts over the whole column. */
  function ShareFlags(n: nat, blank: nat, ids: nat, totalLength: nat): seq<Flag>
  {
    (if 0 < blank < n && 100 * blank > n then [GhostNulls] else [])
    + (if 10 * ids > n && 100 * ids < 99 * n then [DirtyId] else [])
    + (if n > 0 && totalLength > LongTextMean * n then [LongText] else [])
  }

  /**
    What `detect_problematic_types` returns for one column. `isDanishDate`
    stands for the match of the Danish-date pattern at the start of a value.
  */
  function Flags(col: Column, isDanishDate: string -> bool): seq<Flag>
  {
    var s := StrippedText(col.cells);
    PatternFlags(Sample(col), isDanishDate)
    + ShareFlags(|col.cells|, CountIf(col.cells, IsBlankCell), CountIf(s, IsIdLike), TotalLength(s))
    + PostalFlags(col)
  }

  /** One pass over the sample for the two pattern flags. */
  method ScanSample(sample: seq<string>, isDanishDate: string -> bool) returns (flags: seq<Flag>)
    ensures flags == PatternFlags(sample, isDanishDate)
  {
    var anyDate, anyComma := false, false;
    for i := 0 to |sample|
      invariant anyDate <==> exists j | 0 <= j < i :: isDanishDate(sample[j])
      invariant anyComma <==> exists j | 0 <= j < i :: IsCommaDecimal(sample[j])
    {
      anyDate := anyDate || isDanishDate(sample[i]);
      anyComma := anyComma || IsCommaDecimal(sample[i]);
    }
    flags := [];
    if anyDate {
      flags := flags + [DanishDateText];
    }
    if anyComma {
      flags := flags + [NumComma];
    }
  }

  /** One pass over the column for the blank count, the ID-like count and the total stripped length. */
  method ColumnTotals(cells: seq<Cell>) returns (blank: nat, ids: nat, totalLength: nat)
    ensures blank == CountIf(cells, IsBlankCell)
    ensures ids == CountIf(StrippedText(cells), IsIdLike)
    ensures totalLength == TotalLength(StrippedText(cells))
  {
    var s := StrippedText(cells);
    blank, ids, totalLength := 0, 0, 0;
    for i := 0 to |cells|
      invariant blank == CountIf(cells[..i], IsBlankCell)
      invariant ids == CountIf(s[..i], IsIdLike)
      invariant totalLength == TotalLength(s[..i])
    {
      assert cells[..i + 1][..i] == cells[..i];
      assert s[..i + 1][..i] == s[..i];
      if IsBlankCell(cells[i]) {
        blank := blank + 1;
      }
      if IsIdLike(s[i]) {
        ids := ids + 1;
      }
      totalLength := totalLength + |s[i]|;
    }
    assert cells[..|cells|] == cells && s[..|s|] == s;
  }

  method DetectProblematicTypes(col: Column, isDanishDate: string -> bool) returns (flags: seq<Flag>)
    ensures flags == Flags(col, isDanishDate)
  {
    var s := StrippedText(col.cells);
    var n := |col.cells|;
    var sample := if n > SampleSize then s[..SampleSize] else s;
    assert sample == Sample(col);
    var patternFlags := ScanSample(sample, isDanishDate);

    var blank, ids, totalLength := ColumnTotals(col.cells);
    var shareFlags: seq<Flag> := if 0 < blank < n && 100 * blank > n then [GhostNulls] else [];
    shareFlags := shareFlags + (if 10 * ids > n && 100 * ids < 99 * n then [DirtyId] else []);
    shareFlags := shareFlags + (if n > 0 && totalLength > LongTextMean * n then [LongText] else []);
    assert shareFlags == ShareFlags(n, blank, ids, totalLength);

    var postalFlags: seq<Flag> := [];
    if ContainsAny(Lower(col.name), PostalKeywords) {
      var numbers := NumericValues(col.cells);
      if |numbers| > 0 {
        var invalid := Count(numbers, OutsidePostalRange);
        if invalid > 0 {
          postalFlags := [InvalidPostal(invalid, |numbers|)];
        }
      }
    }
    assert postalFlags == PostalFlags(col);
    flags := patternFlags + shareFlags + postalFlags;
    FlagsDecomposed(col, isDanishDate);
  }

  // ---------------------------------------------------------------------
  // The three parts of the result and the order of the flags.

  /** The position of each kind of flag in the order the source appends them. */
  function FlagRank(f: Flag): nat
  {
    match f
    case DanishDateText => 0
    case NumComma => 1
    case GhostNulls => 2
    case DirtyId => 3
    case LongText => 4
    case InvalidPostal(_, _) => 5
  }

  predicate RankIncreasing(r: seq<Flag>)
  {
    forall i, j | 0 <= i < j < |r| :: FlagRank(r[i]) < FlagRank(r[j])
  }

  lemma PatternFlagsRanked(sample: seq<string>, isDanishDate: string -> bool)
    ensures var p := PatternFlags(sample, isDanishDate);
      RankIncreasing(p) && forall f | f in p :: FlagRank(f) <= 1
  {
  }

  lemma ShareFlagsRanked(n: nat, blank: nat, ids: nat, totalLength: nat)
    ensures var q := ShareFlags(n, blank, ids, totalLength);
      RankIncreasing(q) && forall f | f in q :: 2 <= FlagRank(f) <= 4
  {
  }

  lemma PostalFlagsRanked(col: Column)
    ensures |PostalFlags(col)| <= 1 && forall f | f in PostalFlags(col) :: FlagRank(f) == 5
  {
    var numbers := NumericValues(col.cells);
    PostalFlagRanked(ContainsAny(Lower(col.name), PostalKeywords), |numbers|, CountIf(numbers, OutsidePostalRange));
  }

  lemma PostalFlagRanked(isPostal: bool, numeric: nat, invalid: nat)
    ensures |PostalFlag(isPostal, numeric, invalid)| <= 1
    ensures forall f | f in PostalFlag(isPostal, numeric, invalid) :: FlagRank(f) == 5
  {
  }

  lemma FlagsDecomposed(col: Column, isDanishDate: string -> bool)
    ensures var s := StrippedText(col.cells);
      Flags(col, isDanishDate)
      == PatternFlags(Sample(col), isDanishDate)
         + ShareFlags(|col.cells|, CountIf(col.cells, IsBlankCell), CountIf(s, IsIdLike), TotalLength(s))
         + PostalFlags(col)
  {
  }

  /** In three parts ranked one after the other, a flag can only sit in the part of its rank. */
  lemma MemberOfParts(p: seq<Flag>, q: seq<Flag>, z: seq<Flag>, f: Flag)
    requires forall x | x in p :: FlagRank(x) <= 1
    requires forall x | x in q :: 2 <= FlagRank(x) <= 4
    requires forall x | x in z :: FlagRank(x) == 5
    ensures f in p + q + z
      <==> if FlagRank(f) <= 1 then f in p else if FlagRank(f) <= 4 then f in q else f in z
  {
  }

  /** A flag is in the result exactly when it is in the part that decides its kind. */
  lemma FlagsPartOf(col: Column, isDanishDate: string -> bool, f: Flag)
    ensures var s := StrippedText(col.cells);
      f in Flags(col, isDanishDate)
      <==> if FlagRank(f) <= 1 then f in PatternFlags(Sample(col), isDanishDate)
           else if FlagRank(f) <= 4
           then f in ShareFlags(|col.cells|, CountIf(col.cells, IsBlankCell), CountIf(s, IsIdLike), TotalLength(s))
           else f in PostalFlags(col)
  {
    var s := StrippedText(col.cells);
    var p := PatternFlags(Sample(col), isDanishDate);
    var q := ShareFlags(|col.cells|, CountIf(col.cells, IsBlankCell), CountIf(s, IsIdLike), TotalLength(s));
    var z := PostalFlags(col);
    FlagsDecomposed(col, isDanishDate);
    PatternFlagsRanked(Sample(col), isDanishDate);
    ShareFlagsRanked(|col.cells|, CountIf(col.cells, IsBlankCell), CountIf(s, IsIdLike), TotalLength(s));
    PostalFlagsRanked(col);
    MemberOfParts(p, q, z, f);
  }

  /** Three parts, each rank-increasing and each ranked below the next, concatenate to a rank-increasing sequence. */
  lemma RankIncreasingConcat(p: seq<Flag>, q: seq<Flag>, z: seq<Flag>)
    requires RankIncreasing(p) && RankIncreasing(q) && |z| <= 1
    requires forall f | f in p :: FlagRank(f) <= 1
    requires forall f | f in q :: 2 <= FlagRank(f) <= 4
    requires forall f | f in z :: FlagRank(f) == 5
    ensures RankIncreasing(p + q + z)
  {
    var r := p + q + z;
    forall i, j | 0 <= i < j < |r|
      ensures FlagRank(r[i]) < FlagRank(r[j])
    {
      if j < |p| {
        assert r[i] == p[i] && r[j] == p[j];
      } else if j < |p| + |q| {
        assert r[j] == q[j - |p|] && r[j] in q;
        if i < |p| {
          assert r[i] == p[i] && r[i] in p;
        } else {
          assert r[i] == q[i - |p|];
        }
      } else {
        assert r[j] == z[j - |p| - |q|] && r[j] in z;
        if i < |p| {
          assert r[i] == p[i] && r[i] in p;
        } else {
          assert r[i] == q[i - |p|] && r[i] in q;
        }
      }
    }
  }

  /** Each flag appears at most once, in the order the source appends them. */
  lemma FlagsOrdered(col: Column, isDanishDate: string -> bool)
    ensures var r := Flags(col, isDanishDate);
      forall i, j | 0 <= i < j < |r| :: FlagRank(r[i]) < FlagRank(r[j])
  {
    FlagsDecomposed(col, isDanishDate);
    var s := StrippedText(col.cells);
    PatternFlagsRanked(Sample(col), isDanishDate);
    ShareFlagsRanked(|col.cells|, CountIf(col.cells, IsBlankCell), CountIf(s, IsIdLike), TotalLength(s));
    PostalFlagsRanked(col);
    RankIncreasingConcat(
      PatternFlags(Sample(col), isDanishDate),
      ShareFlags(|col.cells|, CountIf(col.cells, IsBlankCell), CountIf(s, IsIdLike), TotalLength(s)),
      PostalFlags(col));
  }

  // ---------------------------------------------------------------------
  // The thresholds as the source states them: ratios of counts.

  /** The share `k / n` of a column of `n` values. */
  function Share(k: nat, n: nat): real
    requires n > 0
  {
    (k as real) / (n as real)
  }

  /** Comparing two ratios with positive denominators is comparing cross products. */
  lemma RatioAbove(k: nat, n: nat, a: nat, b: nat)
    requires n > 0 && b > 0
    ensures (k as real) / (n as real) > (a as real) / (b as real) <==> k * b > a * n
  {
    var r := (k as real) / (n as real);
    var q := (a as real) / (b as real);
    assert r * (n as real) == k as real;
    assert q * (b as real) == a as real;
    assert (k * b) as real == r * (n as real) * (b as real);
    assert (a * n) as real == q * (n as real) * (b as real);
    var nb := (n as real) * (b as real);
    assert nb > 0.0;
    if r > q {
      assert r * nb > q * nb;
    } else {
      assert r * nb <= q * nb;
    }
  }

  /** The GHOST_NULLS threshold in integer form. */
  lemma GhostShareBound(e: nat, n: nat)
    requires n > 0
    ensures 100 * e > n <==> Share(e, n) > 0.01
  {
    RatioAbove(e, n, 1, 100);
  }

  /** The DIRTY_ID thresholds in integer form. */
  lemma DirtyShareBounds(k: nat, n: nat)
    requires n > 0
    ensures 10 * k > n && 100 * k < 99 * n <==> 0.1 < Share(k, n) < 0.99
  {
    RatioAbove(k, n, 1, 10);
    RatioAbove(99, 100, k, n);
  }

  /** The LONG_TEXT threshold in integer form. */
  lemma MeanLengthBound(total: nat, n: nat)
    requires n > 0
    ensures total > LongTextMean * n <==> Share(total, n) > 60.0
  {
    RatioAbove(total, n, LongTextMean, 1);
  }

  /** GHOST_NULLS: some but not all values are blank, and they are more than 1% of the column. */
  lemma GhostNullsIff(col: Column, isDanishDate: string -> bool)
    ensures var n, e := |col.cells|, |Where(col.cells, IsBlankCell)|;
      GhostNulls in Flags(col, isDanishDate) <==> 0 < e < n && Share(e, n) > 0.01
  {
    var n, e := |col.cells|, CountIf(col.cells, IsBlankCell);
    assert GhostNulls in Flags(col, isDanishDate) <==> 0 < e < n && 100 * e > n by {
      FlagsPartOf(col, isDanishDate, GhostNulls);
    }
    CountIfIsCardinality(col.cells, IsBlankCell);
    if n > 0 {
      GhostShareBound(e, n);
    }
  }

  /** DIRTY_ID: more than 10% but less than 99% of the stripped values are 8- or 10-digit IDs. */
  lemma DirtyIdIff(col: Column, isDanishDate: string -> bool)
    ensures var n, k := |col.cells|, |Where(StrippedText(col.cells), IsIdLike)|;
      DirtyId in Flags(col, isDanishDate) <==> n > 0 && 0.1 < Share(k, n) < 0.99
  {
    var s := StrippedText(col.cells);
    var n, k := |col.cells|, CountIf(s, IsIdLike);
    assert DirtyId in Flags(col, isDanishDate) <==> 10 * k > n && 100 * k < 99 * n by {
      FlagsPartOf(col, isDanishDate, DirtyId);
    }
    CountIfIsCardinality(s, IsIdLike);
    CountIfAtMost(s, IsIdLike);
    if n > 0 {
      DirtyShareBounds(k, n);
    }
  }

  /** LONG_TEXT: the mean length of the stripped values is above 60. */
  lemma LongTextIff(col: Column, isDanishDate: string -> bool)
    ensures var n := |col.cells|;
      LongText in Flags(col, isDanishDate) <==> n > 0 && Share(TotalLength(StrippedText(col.cells)), n) > 60.0
  {
    var n, total := |col.cells|, TotalLength(StrippedText(col.cells));
    assert LongText in Flags(col, isDanishDate) <==> n > 0 && total > LongTextMean * n by {
      FlagsPartOf(col, isDanishDate, LongText);
    }
    if n > 0 {
      MeanLengthBound(total, n);
    }
  }

  /** A column without values gets no flag at all: every test needs at least one value. */
  lemma EmptyColumnHasNoFlags(name: string, isDanishDate: string -> bool)
    ensures Flags(Column(name, []), isDanishDate) == []
  {
  }

  // ---------------------------------------------------------------------
  // The sample.

  /** The sample is the stripped text of the leading 200 cells. */
  lemma SampleIsLeadingCells(col: Column)
    ensures Sample(col) == StrippedText(col.cells[..Min(SampleSize, |col.cells|)])
  {
  }

  /** Some sample value matches exactly when one of the leading 200 stripped cells does. */
  lemma SampleMatches(col: Column, matches: string -> bool)
    ensures (exists i | 0 <= i < |Sample(col)| :: matches(Sample(col)[i]))
      <==> exists i | 0 <= i < Min(SampleSize, |col.cells|) :: matches(Strip(AsStr(col.cells[i])))
  {
    var sample := Sample(col);
    assert |sample| == Min(SampleSize, |col.cells|);
    assert forall i | 0 <= i < |sample| :: sample[i] == Strip(AsStr(col.cells[i]));
  }

  /** DATO_TEXT_DK: some stripped value among the leading 200 matches; nothing after the 200th value counts. */
  lemma DanishDateIff(col: Column, isDanishDate: string -> bool)
    ensures DanishDateText in Flags(col, isDanishDate)
      <==> exists i | 0 <= i < Min(SampleSize, |col.cells|) :: isDanishDate(Strip(AsStr(col.cells[i])))
  {
    var sample := Sample(col);
    assert DanishDateText in Flags(col, isDanishDate) <==> exists i | 0 <= i < |sample| :: isDanishDate(sample[i]) by {
      FlagsPartOf(col, isDanishDate, DanishDateText);
    }
    SampleMatches(col, isDanishDate);
  }

  /** NUM_COMMA: some stripped value among the leading 200 is a comma decimal; nothing after the 200th value counts. */
  lemma NumCommaIff(col: Column, isDanishDate: string -> bool)
    ensures NumComma in Flags(col, isDanishDate)
      <==> exists i | 0 <= i < Min(SampleSize, |col.cells|) :: IsCommaDecimal(Strip(AsStr(col.cells[i])))
  {
    var sample := Sample(col);
    assert NumComma in Flags(col, isDanishDate) <==> exists i | 0 <= i < |sample| :: IsCommaDecimal(sample[i]) by {
      FlagsPartOf(col, isDanishDate, NumComma);
    }
    SampleMatches(col, IsCommaDecimal);
  }

  /** Two columns that agree on their leading 200 values get the same pattern flags. */
  lemma PatternFlagsSeeOnlySample(c1: Column, c2: Column, isDanishDate: string -> bool)
    requires c1.cells[..Min(SampleSize, |c1.cells|)] == c2.cells[..Min(SampleSize, |c2.cells|)]
    ensures DanishDateText in Flags(c1, isDanishDate) <==> DanishDateText in Flags(c2, isDanishDate)
    ensures NumComma in Flags(c1, isDanishDate) <==> NumComma in Flags(c2, isDanishDate)
  {
    assert Sample(c1) == Sample(c2) by {
      SampleIsLeadingCells(c1);
      SampleIsLeadingCells(c2);
    }
    FlagsPartOf(c1, isDanishDate, DanishDateText);
    FlagsPartOf(c2, isDanishDate, DanishDateText);
    FlagsPartOf(c1, isDanishDate, NumComma);
    FlagsPartOf(c2, isDanishDate, NumComma);
  }

  // ---------------------------------------------------------------------
  // Postal codes.

  /** A cell that `pd.to_numeric` keeps. */
  predicate IsNumericCell(c: Cell)
  {
    c.Present? && ParseNumber(c.text).Some?
  }

  /** A cell whose number lies outside 1000-9990. */
  predicate IsInvalidPostalCell(c: Cell)
  {
    IsNumericCell(c) && OutsidePostalRange(ParseNumber(c.text).value)
  }

  lemma {:induction false} NumericValuesCounts(cells: seq<Cell>)
    ensures |NumericValues(cells)| == CountIf(cells, IsNumericCell)
    ensures CountIf(NumericValues(cells), OutsidePostalRange) == CountIf(cells, IsInvalidPostalCell)
  {
    if |cells| > 0 {
      var init, last := cells[..|cells| - 1], cells[|cells| - 1];
      NumericValuesCounts(init);
      var a := NumericValues(init);
      if IsNumericCell(last) {
        var v := ParseNumber(last.text).value;
        assert NumericValues(cells) == a + [v];
        assert (a + [v])[..|a|] == a;
      } else {
        assert NumericValues(cells) == a;
      }
    }
  }

  /** `PostalFlags` in terms of counts over the cells. */
  lemma PostalFlagsByCount(col: Column)
    ensures PostalFlags(col)
      == if ContainsAny(Lower(col.name), PostalKeywords) && CountIf(col.cells, IsInvalidPostalCell) > 0
         then [InvalidPostal(CountIf(col.cells, IsInvalidPostalCell), CountIf(col.cells, IsNumericCell))]
         else []
  {
    NumericValuesCounts(col.cells);
    CountIfAtMost(NumericValues(col.cells), OutsidePostalRange);
  }

  /** Only the last of three ranked parts can hold an INVALID_POSTAL flag, and it holds at most one. */
  lemma InvalidPostalOfParts(p: seq<Flag>, q: seq<Flag>, z: seq<Flag>)
    requires forall x | x in p :: FlagRank(x) <= 1
    requires forall x | x in q :: 2 <= FlagRank(x) <= 4
    requires |z| <= 1 && forall x | x in z :: FlagRank(x) == 5
    ensures (exists f | f in p + q + z :: f.InvalidPostal?) <==> z != []
    ensures forall f | f in p + q + z && f.InvalidPostal? :: f == z[0]
  {
    if z != [] {
      assert z[0] in p + q + z;
    }
  }

  lemma InvalidPostalInFlags(col: Column, isDanishDate: string -> bool)
    ensures (exists f | f in Flags(col, isDanishDate) :: f.InvalidPostal?) <==> PostalFlags(col) != []
    ensures forall f | f in Flags(col, isDanishDate) && f.InvalidPostal? :: f == PostalFlags(col)[0]
  {
    var s := StrippedText(col.cells);
    FlagsDecomposed(col, isDanishDate);
    PatternFlagsRanked(Sample(col), isDanishDate);
    ShareFlagsRanked(|col.cells|, CountIf(col.cells, IsBlankCell), CountIf(s, IsIdLike), TotalLength(s));
    PostalFlagsRanked(col);
    InvalidPostalOfParts(
      PatternFlags(Sample(col), isDanishDate),
      ShareFlags(|col.cells|, CountIf(col.cells, IsBlankCell), CountIf(s, IsIdLike), TotalLength(s)),
      PostalFlags(col));
  }

  /**
    INVALID_POSTAL: only for a column whose lower-cased name holds a postal
    keyword, exactly when some value parses to a number outside 1000-9990,
    carrying the number of such values and the number of parsed values.
  */
  lemma InvalidPostalIff(col: Column, isDanishDate: string -> bool)
    ensures (exists f | f in Flags(col, isDanishDate) :: f.InvalidPostal?)
      <==> ContainsAny(Lower(col.name), PostalKeywords)
           && exists i | 0 <= i < |col.cells| :: IsInvalidPostalCell(col.cells[i])
    ensures forall f | f in Flags(col, isDanishDate) && f.InvalidPostal? ::
      f.invalid == |Where(col.cells, IsInvalidPostalCell)| && f.numeric == |Where(col.cells, IsNumericCell)|
  {
    InvalidPostalInFlags(col, isDanishDate);
    PostalFlagsByCount(col);
    CountIfIsCardinality(col.cells, IsNumericCell);
    CountIfIsCardinality(col.cells, IsInvalidPostalCell);
    CountIfPositive(col.cells, IsInvalidPostalCell);
  }

  /** The value of the digits after the decimal point. */
  function FractionValue(f: string): real
    requires AllDigits(f)
  {
    if |f| == 0 then 0.0 else ((f[0] as int - '0' as int) as real + FractionValue(f[1..])) / 10.0
  }

  function DecimalValue(d: Decimal): real
    requires AllDigits(d.fraction)
  {
    var magnitude := d.whole as real + FractionValue(d.fraction);
    if d.negative then -magnitude else magnitude
  }

  lemma {:induction false} FractionValueBounds(f: string)
    requires AllDigits(f)
    ensures 0.0 <= FractionValue(f) < 1.0
    ensures FractionValue(f) == 0.0 <==> AllZeros(f)
  {
    if |f| > 0 {
      FractionValueBounds(f[1..]);
      assert AllZeros(f) <==> f[0] == '0' && AllZeros(f[1..]);
    }
  }

  /** Deciding the range on the digits agrees with comparing the real value to 1000 and 9990. */
  lemma PostalRangeIsExact(d: Decimal)
    requires AllDigits(d.fraction)
    ensures OutsidePostalRange(d) <==> DecimalValue(d) < PostalMin as real || DecimalValue(d) > PostalMax as real
  {
    FractionValueBounds(d.fraction);
  }
}
