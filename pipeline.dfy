/** How the stages meet in the main run: the organizer moves the files but
    hands the store the very records it was given, so the store records
    where each file was before the move. */
module Pipeline {
  import opened Wrappers
  import opened Metadata
  import opened Organize
  import opened Store

  /** The series row decided by a record holds that record's pre-move
      path: the source of the move the organizer made for it, which is the
      FilePath as extracted. */
  lemma SeriesRowKeepsPreMovePath(base: string, metadata: seq<MetadataRecord>, t: Tables, t2: Tables, j: nat)
    requires ApplyBatch(t, metadata) == Success(t2)
    requires j < |Plan(Targets(base), metadata).0|
    requires SeriesKey(metadata[j]).Some? && SeriesKey(metadata[j]).value !in t.series
    requires forall i :: 0 <= i < j ==> SeriesKey(metadata[i]) != SeriesKey(metadata[j])
    ensures SeriesKey(metadata[j]).value in t2.series
    ensures var move := Plan(Targets(base), metadata).0[j];
      t2.series[SeriesKey(metadata[j]).value].filePath == move.source
      && TargetPath(base, metadata[j]) == Some(move.target)
  {
    PlanFacts(Targets(base), metadata);
    FirstSeriesEntryWins(t, metadata, t2, j);
  }
}
