/**
  Metadata presence: does any lower-cased column name contain a timestamp,
  a source or an ID indicator? Missing timestamps and sources matter only
  for datasets of more than 100 rows; a missing ID always matters.
*/
module Metadata {
  import opened Text
  import opened Frame

  const TemporalIndicators: seq<string> := ["created", "updated", "modified", "timestamp", "dato", "tidspunkt"]
  const SourceIndicators: seq<string> := ["source", "kilde", "origin"]
  /** Listed with the others but never consulted by the rule. */
  const VersionIndicators: seq<string> := ["version", "revision", "v_"]
  const IdIndicators: seq<string> := ["id", "key", "n\U{F8}gle"]
  /** Timestamps and sources are only asked of datasets with more rows than this. */
  const LargeDataset: nat := 100

  /** `any(ind in col for col in col_names_lower for ind in indicators)`. */
  predicate HasIndicator(columns: seq<string>, indicators: seq<string>)
  {
    exists c, ind | c in columns && ind in indicators :: Contains(Lower(c), ind)
  }

  /** Position of a kind in the message. */
  function KindRank(k: MetadataKind): nat
  {
    match k
    case Timestamps => 0
    case SourceTracking => 1
    case UniqueId => 2
  }

  function MissingKinds(columns: seq<string>, rows: nat): seq<MetadataKind>
  {
    (if !HasIndicator(columns, TemporalIndicators) && rows > LargeDataset then [Timestamps] else [])
    + (if !HasIndicator(columns, SourceIndicators) && rows > LargeDataset then [SourceTracking] else [])
    + (if !HasIndicator(columns, IdIndicators) then [UniqueId] else [])
  }

  /**
    What `detect_metadata_issues` returns: at most one warning, present iff
    some kind is missing, listing each missing kind once, in the fixed order
    timestamps, source, ID.
  */
  function MetadataWarnings(columns: seq<string>, rows: nat): (r: seq<Warning>)
    ensures |r| <= 1
    ensures r == [] <==>
      HasIndicator(columns, IdIndicators)
      && (rows <= LargeDataset || (HasIndicator(columns, TemporalIndicators) && HasIndicator(columns, SourceIndicators)))
    ensures r != [] ==> (
      && r[0].MissingMetadata?
      && (Timestamps in r[0].missing <==> !HasIndicator(columns, TemporalIndicators) && rows > LargeDataset)
      && (SourceTracking in r[0].missing <==> !HasIndicator(columns, SourceIndicators) && rows > LargeDataset)
      && (UniqueId in r[0].missing <==> !HasIndicator(columns, IdIndicators))
      && forall i, j | 0 <= i < j < |r[0].missing| :: KindRank(r[0].missing[i]) < KindRank(r[0].missing[j]))
  {
    var missing := MissingKinds(columns, rows);
    if missing == [] then [] else [MissingMetadata(missing)]
  }

  /**
    With 100 rows or fewer the only possible report is a missing ID, and it
    is made exactly when no name contains "id", "key" or "nøgle".
  */
  lemma SmallDatasetsOnlyMissId(columns: seq<string>, rows: nat)
    requires rows <= LargeDataset
    ensures MetadataWarnings(columns, rows) ==
      if HasIndicator(columns, IdIndicators) then [] else [MissingMetadata([UniqueId])]
  {
    assert MissingKinds(columns, rows) == if HasIndicator(columns, IdIndicators) then [] else [UniqueId];
  }
}
