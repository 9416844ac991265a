# KM24 column audit, modelled in Dafny

`km24_auto_analyst.py` writes an audit log for a data file before an analyst
looks at it. The log starts with a list of column warnings, produced by four
independent rules run one after the other:

- column-name hygiene (`detect_truncated_columns`): a byte-order mark on
  the first name, names ending in "...", names of 34 to 50 characters that
  look cut off, and names longer than 50 characters;
- metadata presence (`detect_metadata_issues`): no timestamp, source or ID
  column;
- ID-format consistency (`detect_id_inconsistencies`): CVR numbers
  (8 digits) and P-numbers (10 digits) mixed in one column, or ID values of
  more than two lengths;
- CSV structure (`detect_csv_parsing_issues`): "Unnamed:" columns, and
  lines among the first ten whose separator count differs from the header's.

After the warnings comes a table with one row per column. Its flags column
comes from `detect_problematic_types`. The flags are:

- Danish month dates and comma decimals among the first 200 values;
- blank "ghost" nulls;
- a partial share of CVR/P-number-like values;
- long text;
- postal codes outside 1000-9990.

The model works on a table of columns. Each column is a name plus a sequence
of cells, and each cell is missing (NaN) or present with its `str()` text.
The table also carries the row count `len(df)`. In a data frame every column has that many cells; the model does not enforce this, and only the metadata rule reads the row count. Warnings and flags are datatypes that
carry the values their messages print, such as names, counts and row
numbers. The message wording is not modelled.

Where the source builds a list in a loop, the model has a method with that
loop. Each such method is proved equal to a specification function. The
properties the source promises are then proved as lemmas about those
functions.

| file | module | what |
|---|---|---|
| `wrappers.dfy` | `Wrappers` | `Option`, `Min` |
| `text.dfy` | `Text` | Python's `isspace`, `lower`, `strip`, `split(...)[-1]`, `replace`, `count`, `in`, `startswith`/`endswith`, `\d` |
| `counting.dfy` | `Counting` | the count of elements satisfying a predicate (a mask's `.sum()`) and its cardinality lemmas |
| `frame.dfy` | `Frame` | cells, columns, tables, warnings and flags |
| `truncation.dfy` | `Truncation` | `detect_truncated_columns` |
| `metadata.dfy` | `Metadata` | `detect_metadata_issues` |
| `id_formats.dfy` | `IdFormats` | `detect_id_inconsistencies` |
| `csv_structure.dfy` | `CsvStructure` | `detect_csv_parsing_issues`, `readline` |
| `type_flags.dfy` | `TypeFlags` | `detect_problematic_types` |
| `audit.dfy` | `Audit` | the warning order and the flags column of `run_local_audit` |

## Model

| member | source | states |
|---|---|---|
| Truncation.DetectTruncatedColumns | km24_auto_analyst.py:230-267 | The result is the BOM warning, then each name's own warning in column order, then the aggregate long-name warning, exactly as `TruncationWarnings` defines them. |
| Truncation.ScanColumns | km24_auto_analyst.py:244-261 | The loop over the names, with its branches inline. A name ending in "..." gets TRUNKERET; otherwise a 34-50 character name whose last word has 4-10 characters gets MULIG TRUNKING. The warnings come in column order. Every collected display string is the first 40 characters of some BOM-free name over 50 characters, followed by "...". The number of display strings is the number of such columns. |
| Truncation.PerColumnWarningsExact | km24_auto_analyst.py:245-261 | Per-name warnings are only TRUNKERET or MULIG TRUNKING. TRUNKERET names exactly the BOM-free names ending in "...". MULIG TRUNKING names exactly the names that look cut. There is one warning per flagged column. |
| Truncation.BomWarningOnFirstColumnOnly | km24_auto_analyst.py:235-239 | A BOM warning appears iff the first name starts with U+FEFF. There is at most one, it comes first, and it carries the name with every U+FEFF removed. |
| Truncation.PossiblyTruncatedOnlyMidLength | km24_auto_analyst.py:253-261 | MULIG TRUNKING only names a BOM-free name of 34-50 characters that does not end in "..." and whose last word has 4-10 characters. |
| Truncation.VeryLongNamesAggregated | km24_auto_analyst.py:241-265 | The long-name warning appears iff some BOM-free name exceeds 50 characters. It is last, and its count is the number of such names. |
| Truncation.VeryLongNamesNotPossiblyTruncated | km24_auto_analyst.py:249-255 | A name over 50 characters never draws MULIG TRUNKING. |
| Metadata.MetadataWarnings | km24_auto_analyst.py:283-301 | There is at most one warning, and none iff nothing is missing. Timestamps and source are reported missing only above 100 rows; ID regardless of size. Each missing kind is listed once, in the order timestamps, source, ID. |
| Metadata.SmallDatasetsOnlyMissId | km24_auto_analyst.py:285-298 | With 100 rows or fewer, the only possible report is a missing ID, made exactly when no name holds "id", "key" or "nøgle". |
| IdFormats.DetectIdInconsistencies | km24_auto_analyst.py:305-349 | The loop's result is each column's ID warning, in column order. |
| IdFormats.CountLengths | km24_auto_analyst.py:339-343 | The loop builds the value-length histogram of `value_counts`. |
| IdFormats.NonNullValuesExact | km24_auto_analyst.py:315 | The values checked are exactly the stripped texts of the present cells: as many as there are present cells, none invented, none lost. |
| IdFormats.LengthCountsExact | km24_auto_analyst.py:339-343 | The histogram's keys are the distinct value lengths. Each count is the number of values of that length. |
| IdFormats.ColumnIdWarningsShape | km24_auto_analyst.py:309-318 | A column draws at most one warning, naming itself. It draws one only if its lower-cased name holds an ID keyword, and never when no cell is present. |
| IdFormats.MixedIdFormatIff | km24_auto_analyst.py:320-335 | BLANDET ID-FORMAT appears iff the name holds an ID keyword and both an 8-digit and a 10-digit value are present. |
| IdFormats.VaryingIdLengthsIff | km24_auto_analyst.py:337-347 | VARIERENDE ID-LÆNGDER appears iff the format is not mixed, the name holds "cvr", "p-nummer" or "pnr", and the values come in more than two lengths. Its histogram's keys are those lengths. |
| IdFormats.MixedIdFormatCounts | km24_auto_analyst.py:324-326 | The mixed warning carries the number of 8-digit values, the number of 10-digit values and the number of present values. The first two add up to at most the third. |
| IdFormats.IdWarningsPerColumn | km24_auto_analyst.py:309-347 | The rule gives at most one warning per column. Every warning is a mixed or varying warning that belongs to an ID-named column. Conversely, every column's own warning appears in the output. |
| CsvStructure.NextLine | km24_auto_analyst.py:367 | `readline` returns a prefix of the remaining text, with a newline only at its end. It returns "" exactly at the end. Without a final newline it takes the whole rest. |
| CsvStructure.ReadLinesCount | km24_auto_analyst.py:367 | Eleven reads give eleven lines, whatever the file holds. |
| CsvStructure.ReadLinesPrefix | km24_auto_analyst.py:367 | The lines read, joined, are a prefix of the file text: nothing skipped, nothing invented. |
| CsvStructure.ReadLinesNewlines | km24_auto_analyst.py:367 | Each line read holds a newline at most as its last character. |
| CsvStructure.ReadLinesEmptyAfterEnd | km24_auto_analyst.py:367 | Once a read returns "", every later read does too. |
| CsvStructure.DetectCsvParsingIssues | km24_auto_analyst.py:351-395 | The loops' result is the Unnamed warning, then the field-count warning on the first eleven lines of a ".csv" file that could be read. |
| CsvStructure.UnnamedWarningIff | km24_auto_analyst.py:356-361 | The Unnamed warning appears iff some name starts with "Unnamed:". It comes first, and its count is the number of such names. |
| CsvStructure.FieldCountWarningIff | km24_auto_analyst.py:369-390 | There is at most one field-count warning. It appears iff there is a header with a comma or a semicolon and some later line is non-blank with a different separator count. |
| CsvStructure.MismatchesSound | km24_auto_analyst.py:378-382 | Every reported row is a non-blank data line whose separator count differs from the header's, with both counts recorded. |
| CsvStructure.MismatchesComplete | km24_auto_analyst.py:378-382 | Every such line is reported. |
| CsvStructure.MismatchesOrdered | km24_auto_analyst.py:376-382 | Rows are reported in increasing line order, so none twice. |
| CsvStructure.MismatchesCount | km24_auto_analyst.py:376-388 | The number of rows reported is the number of inconsistent lines. |
| CsvStructure.MismatchPrefixLeads | km24_auto_analyst.py:385-386 | Any leading part of the reported rows is a run of inconsistent lines in line order, skipping none before its last. |
| CsvStructure.FieldCountWarningReports | km24_auto_analyst.py:384-390 | The warning's count is the number of inconsistent lines, at least one. It lists exactly min(3, count) examples: the first inconsistent lines, in line order, each with its own separator count and the header's. |
| TypeFlags.ScanSample | km24_auto_analyst.py:201-209 | The loop over the sample yields DATO_TEXT_DK iff some sample value matches the date test, and NUM_COMMA iff some value is a comma decimal, in that order. |
| TypeFlags.ColumnTotals | km24_auto_analyst.py:210-214 | The loop counts the blank cells and the 8- or 10-digit stripped values, and sums the stripped lengths. |
| TypeFlags.DetectProblematicTypes | km24_auto_analyst.py:198-228 | The result is the column's flags: pattern flags, then the three threshold tests on the column totals, then the postal flag. |
| TypeFlags.FlagsOrdered | km24_auto_analyst.py:202-226 | Each flag appears at most once, in the fixed order DATO_TEXT_DK, NUM_COMMA, GHOST_NULLS, DIRTY_ID, LONG_TEXT, INVALID_POSTAL. |
| TypeFlags.DanishDateIff | km24_auto_analyst.py:201-208 | DATO_TEXT_DK appears iff one of the first 200 stripped values matches the date test. Later values never count. |
| TypeFlags.NumCommaIff | km24_auto_analyst.py:201-209 | NUM_COMMA appears iff one of the first 200 stripped values is a comma decimal. Later values never count. |
| TypeFlags.PatternFlagsSeeOnlySample | km24_auto_analyst.py:201 | Two columns that agree on their first 200 cells agree on DATO_TEXT_DK and NUM_COMMA. |
| TypeFlags.GhostNullsIff | km24_auto_analyst.py:210-211 | GHOST_NULLS appears iff the number of empty or all-whitespace values is positive, below the total, and above 1% of it. |
| TypeFlags.DirtyIdIff | km24_auto_analyst.py:212-213 | DIRTY_ID appears iff the share of stripped values of exactly 8 or 10 digits is strictly between 0.1 and 0.99. |
| TypeFlags.LongTextIff | km24_auto_analyst.py:214 | LONG_TEXT appears iff the mean stripped length is above 60. |
| TypeFlags.GhostShareBound | km24_auto_analyst.py:211 | `100 * e > n` is the same test as the ratio `e / n > 0.01`. |
| TypeFlags.DirtyShareBounds | km24_auto_analyst.py:213 | `10 * k > n` and `100 * k < 99 * n` together are the same test as `0.1 < k / n < 0.99`. |
| TypeFlags.MeanLengthBound | km24_auto_analyst.py:214 | `total > 60 * n` is the same test as `total / n > 60`. |
| TypeFlags.EmptyColumnHasNoFlags | km24_auto_analyst.py:210-221 | A column without values gets no flag. |
| TypeFlags.NumericValuesCounts | km24_auto_analyst.py:220-223 | The parsed numbers are as many as the present cells that parse. The out-of-range ones are as many as such cells. |
| TypeFlags.PostalFlagsByCount | km24_auto_analyst.py:217-226 | The postal flag in terms of counts over the cells. |
| TypeFlags.InvalidPostalIff | km24_auto_analyst.py:217-226 | INVALID_POSTAL appears iff the lower-cased name holds "postnummer", "postal" or "postcode" and some value parses to a number outside 1000-9990. It carries the number of such values and the number of parsed values. |
| TypeFlags.PostalRangeIsExact | km24_auto_analyst.py:223 | Deciding the range on the digits agrees with comparing the number's exact value to 1000 and 9990. |
| Audit.CollectWarnings | km24_auto_analyst.py:148-152 | The combined warnings are the four rules' results, concatenated in the order names, metadata, ID, CSV. |
| Audit.WarningsGroupedByRule | km24_auto_analyst.py:148-152 | The combined list is grouped by rule in that order. Each group occupies exactly that rule's positions. |
| Audit.ColumnFlags | km24_auto_analyst.py:163-164 | The flags column holds one entry per column, in column order, each that column's flags. |
| Text.StripIsTrimmedSlice | km24_auto_analyst.py:200 | `strip()` removes a run of whitespace from each end and nothing else. |
| Text.StripEmptyIffAllSpace | km24_auto_analyst.py:379 | A line strips to "" exactly when it is all whitespace, so `if line.strip()` skips exactly the blank lines. |
| Text.SuffixAfterLastIsLastField | km24_auto_analyst.py:258 | `split(...)[-1]` is a suffix free of separators, preceded by a separator when shorter than the name. |
| Text.RemoveAllRemoves | km24_auto_analyst.py:238 | `replace('\ufeff', '')` leaves no U+FEFF. Every other character keeps its number of occurrences, and the length drops by the number of U+FEFF. |
| Text.RemoveAllConcat | km24_auto_analyst.py:238 | Removal works piece by piece: removing from `a + b` is removing from `a`, then from `b`, so the remaining characters keep their order. |

## Left out

- File loading through pandas, the UTF-8 to cp1252 fallback and the file size (km24_auto_analyst.py:107-131) are I/O. The table is an input.
- The float-to-`Int64` conversion (km24_auto_analyst.py:134-140) is not modelled. Cells carry whatever text `str()` gives. A missing cell prints as "nan", the text `astype(str)` gives NaN; after that conversion it would be "<NA>".
- Message wording and the `:.1f` percentages are not modelled. Each warning carries the counts its message prints.
- Report layout, `value_counts().head(5)`, the dtype column and the `to_string` sample (km24_auto_analyst.py:143-145, 154-180) are rendering.
- The Anthropic API call, Markdown output, cleanup, prompt loading and key checks (km24_auto_analyst.py:13-102, 398-447) are network and process I/O.
- The Danish-date regex (km24_auto_analyst.py:206-207) becomes the parameter `isDanishDate`. This is the regex matched at the start of a stripped value, case-insensitively; its regex-engine semantics are not modelled.
- Opening and decoding the CSV file (km24_auto_analyst.py:366): the text is an `Option`, and `None` stands for an open or decode error, which the source ignores. Line endings are taken as already translated by text mode.
- Text.LowerChar: `str.lower` is modelled on ASCII and Latin-1 capitals only, which covers Æ, Ø and Å.
- Text.IsDigit: `\d` is modelled as ASCII digits only.
- TypeFlags.ParseNumber: `pd.to_numeric` is modelled as `[+-]?\d+(\.\d+)?` only. Exponents, "inf", "8700." and surrounding whitespace count as unparseable.
- TypeFlags.OutsidePostalRange: postal values are compared with 1000 and 9990 exactly, not after rounding to float64 as `pd.to_numeric` does. The two differ only for values within float64 rounding distance of a bound. "999.99999999999999999" rounds to 1000.0 and passes in the source but is out of range here. "9990.0000000000000001" rounds to 9990.0 and passes in the source but is out of range here.
- IdFormats.DetectIdInconsistencies: VARIERENDE ID-LÆNGDER carries the whole length histogram. The source prints the number of distinct lengths and the three most frequent lengths, and pandas' tie order is not modelled.
- Truncation.DetectTruncatedColumns: a whitespace-only name of 34-50 characters makes the source raise IndexError at km24_auto_analyst.py:258. Here it is the precondition `AllCheckable`, on this method and on everything built on it.
- Frame.Column: a column label is modelled as its `str()` text. In the source a non-string label, such as a numeric header like 2020, makes `series.name.lower()` at km24_auto_analyst.py:217 raise AttributeError. `run_local_audit` catches it at km24_auto_analyst.py:194 and returns None for the whole file. The model computes that column's flags from the label's text instead.
- The exceptions `run_local_audit` catches (km24_auto_analyst.py:182-196) are not modelled. The combined warnings therefore carry the same `AllCheckable` precondition.
