/**
  The data the audit rules look at, and what they report.

  A table is the list of its columns, each with its name and its cells as
  they come out of the file reader, plus the row count `len(df)`. A cell is
  either missing (NaN) or present; a present cell holds the text that
  `str(value)` gives for it.
*/
module Frame {

  datatype Cell = Missing | Present(text: string)

  datatype Column = Column(name: string, cells: seq<Cell>)

  datatype Table = Table(columns: seq<Column>, rows: nat)

  /** What `astype(str)` turns a missing value into. */
  const NullText: string := "nan"

  /** `astype(str)` on one cell. */
  function AsStr(c: Cell): string
  {
    match c
    case Missing => NullText
    case Present(t) => t
  }

  predicate IsPresent(c: Cell)
  {
    c.Present?
  }

  function ColumnNames(columns: seq<Column>): seq<string>
  {
    seq(|columns|, i requires 0 <= i < |columns| => columns[i].name)
  }

  /** The metadata kinds whose absence the metadata rule reports, in the order it lists them. */
  datatype MetadataKind = Timestamps | SourceTracking | UniqueId

  /** One data line whose separator count differs from the header's. */
  datatype RowMismatch = RowMismatch(row: nat, found: nat, expected: nat)

  /**
    The column-level warnings of the audit log, one constructor per message,
    each carrying the values its message prints.
  */
  datatype Warning =
    | BomMarker(cleanName: string)                                    // BOM-MARKØR
    | Truncated(name: string)                                         // TRUNKERET
    | PossiblyTruncated(name: string)                                 // MULIG TRUNKING
    | VeryLongNames(count: nat)                                       // MEGET LANGE KOLONNENAVNE
    | MissingMetadata(missing: seq<MetadataKind>)                     // MANGLENDE METADATA
    | MixedIdFormat(column: string, cvrCount: nat, pNumberCount: nat, total: nat)  // BLANDET ID-FORMAT
    | VaryingIdLengths(column: string, lengthCounts: map<nat, nat>)   // VARIERENDE ID-LÆNGDER
    | UnnamedColumns(count: nat)                                      // CSV PARSING FEJL
    | InconsistentFieldCount(rows: nat, examples: seq<RowMismatch>)   // INKONSISTENT FELTANTAL

  /** The per-column type flags of the audit table, in the order they are tested. */
  datatype Flag =
    | DanishDateText                                                  // DATO_TEXT_DK
    | NumComma                                                        // NUM_COMMA
    | GhostNulls                                                      // GHOST_NULLS
    | DirtyId                                                         // DIRTY_ID
    | LongText                                                        // LONG_TEXT
    | InvalidPostal(invalid: nat, numeric: nat)                       // INVALID_POSTAL (invalid/numeric)
}
