/** Reorganisation: where `organize_files` moves each file. Creating the
    directories and performing the move are file-system effects and are
    not modelled; the organizer here computes the list of moves it makes. */
module Organize {
  import opened Wrappers
  import opened Paths
  import opened Metadata

  /** One `os.rename(source, target)`. */
  datatype Move = Move(source: string, target: string)

  /** `base/PatientID/StudyInstanceUID/SeriesInstanceUID/basename(FilePath)`;
      None when one of the three identifiers is not a string, where
      `os.path.join` raises TypeError. */
  function TargetPath(base: string, r: MetadataRecord): (target: Option<string>)
    ensures target.Some? <==> r.patientId.Str? && r.studyUid.Str? && r.seriesUid.Str?
    ensures target.Some? ==> EndsWith(target.value, Basename(r.filePath))
  {
    if r.patientId.Str? && r.studyUid.Str? && r.seriesUid.Str? then
      var patientDir := Join(base, r.patientId.s);
      var studyDir := Join(patientDir, r.studyUid.s);
      var seriesDir := Join(studyDir, r.seriesUid.s);
      var name := Basename(r.filePath);
      JoinEndsWithName(seriesDir, name);
      Some(Join(seriesDir, name))
    else
      None
  }

  /** `TargetPath` under one base directory. */
  function Targets(base: string): MetadataRecord -> Option<string> {
    r => TargetPath(base, r)
  }

  /** What `organize_files` does with the records in order, given where each
      record goes: the moves it makes, and whether a record raised, after
      which nothing more moves. */
  function Plan(target: MetadataRecord -> Option<string>, metadata: seq<MetadataRecord>): (result: (seq<Move>, bool))
    ensures |result.0| <= |metadata|
  {
    if metadata == [] then ([], false)
    else
      var n := |metadata| - 1;
      var (moves, raised) := Plan(target, metadata[..n]);
      if raised then (moves, true)
      else match target(metadata[n])
        case None => (moves, true)
        case Some(path) => (moves + [Move(metadata[n].filePath, path)], false)
  }

  /** Once a record has raised, the records after it change nothing. */
  lemma {:induction false} PlanStopsAtRaise(target: MetadataRecord -> Option<string>, metadata: seq<MetadataRecord>, k: nat)
    requires k <= |metadata| && Plan(target, metadata[..k]).1
    ensures Plan(target, metadata) == Plan(target, metadata[..k])
    decreases |metadata| - k
  {
    if k == |metadata| {
      assert metadata[..k] == metadata;
    } else {
      var n := |metadata| - 1;
      assert metadata[..n][..k] == metadata[..k];
      PlanStopsAtRaise(target, metadata[..n], k);
    }
  }

  /** The moves follow the records one for one, each from the file's
      current path to its target; the organizer raises exactly when some
      record has no target, and then it is the record after the last move. */
  lemma {:induction false} PlanFacts(target: MetadataRecord -> Option<string>, metadata: seq<MetadataRecord>)
    ensures var (moves, raised) := Plan(target, metadata);
      && (forall i :: 0 <= i < |moves| ==>
            moves[i].source == metadata[i].filePath && target(metadata[i]) == Some(moves[i].target))
      && (raised <==> exists i :: 0 <= i < |metadata| && target(metadata[i]).None?)
      && (raised ==> |moves| < |metadata| && target(metadata[|moves|]).None?)
      && (!raised ==> |moves| == |metadata|)
  {
    if metadata != [] {
      var n := |metadata| - 1;
      var prefix := metadata[..n];
      PlanFacts(target, prefix);
      var (moves, raised) := Plan(target, prefix);
      assert forall i :: 0 <= i < n ==> prefix[i] == metadata[i];
      if raised {
        var i :| 0 <= i < n && target(prefix[i]).None?;
        assert target(metadata[i]).None?;
      } else if target(metadata[n]).None? {
      } else {
        var moves' := Plan(target, metadata).0;
        assert forall i :: 0 <= i < n ==> moves'[i] == moves[i];
        forall i | 0 <= i < |metadata|
          ensures target(metadata[i]).Some?
        {
          if i < n {
            assert target(prefix[i]) == Some(moves[i].target);
          }
        }
      }
    }
  }

  /** `organize_files`: move every file in turn into its series directory.
      The records themselves are never updated, so each keeps the path the
      file had before the move. A record whose identifier is not a string
      raises out of the loop; the moves already made stay made. */
  method OrganizeFiles(metadata: seq<MetadataRecord>, base: string) returns (moves: seq<Move>, raised: bool)
    ensures (moves, raised) == Plan(Targets(base), metadata)
  {
    moves := [];
    raised := false;
    var i := 0;
    while i < |metadata|
      invariant 0 <= i <= |metadata|
      invariant Plan(Targets(base), metadata[..i]) == (moves, false)
    {
      var entry := metadata[i];
      assert metadata[..i + 1][..i] == metadata[..i];
      match TargetPath(base, entry) {
        case None =>
          raised := true;
          PlanStopsAtRaise(Targets(base), metadata, i + 1);
          return;
        case Some(newPath) =>
          moves := moves + [Move(entry.filePath, newPath)];
      }
      i := i + 1;
    }
    assert metadata[..i] == metadata;
  }

  /** A file keeps its name when it is moved. */
  lemma TargetKeepsFileName(base: string, r: MetadataRecord)
    requires TargetPath(base, r).Some?
    ensures Basename(TargetPath(base, r).value) == Basename(r.filePath)
  {
    var seriesDir := Join(Join(Join(base, r.patientId.s), r.studyUid.s), r.seriesUid.s);
    BasenameOfJoin(seriesDir, Basename(r.filePath));
  }

  /** A non-empty name without a separator: one directory level. */
  predicate IsSegment(s: string) {
    s != [] && '/' !in s
  }

  /** The three identifiers of a record that are each one directory level. */
  predicate HasSegmentKeys(r: MetadataRecord) {
    && r.patientId.Str? && IsSegment(r.patientId.s)
    && r.studyUid.Str? && IsSegment(r.studyUid.s)
    && r.seriesUid.Str? && IsSegment(r.seriesUid.s)
  }

  /** Joining a relative name onto a directory that does not end in `/`
      adds one separator and the name. */
  lemma JoinRelative(dir: string, name: string)
    requires dir != [] && !EndsWith(dir, "/")
    requires name == [] || name[0] != '/'
    ensures Join(dir, name) == dir + "/" + name
  {
    assert !StartsWith(name, "/");
  }

  /** The result of joining a segment does not end in `/` either. */
  lemma JoinSegment(dir: string, name: string)
    requires dir != [] && !EndsWith(dir, "/") && IsSegment(name)
    ensures Join(dir, name) == dir + "/" + name
    ensures !EndsWith(Join(dir, name), "/")
  {
    JoinRelative(dir, name);
    var r := dir + "/" + name;
    assert name[|name| - 1] != '/';
    assert r[|r| - 1..] == [name[|name| - 1]];
  }

  /** With one-level identifiers and a base that does not end in `/`, the
      target is exactly `base/PatientID/StudyInstanceUID/SeriesInstanceUID/name`
      (a missing identifier gives the directory `Unknown`). */
  lemma TargetLayout(base: string, r: MetadataRecord)
    requires base != [] && !EndsWith(base, "/") && HasSegmentKeys(r)
    ensures TargetPath(base, r) ==
      Some(base + "/" + r.patientId.s + "/" + r.studyUid.s + "/" + r.seriesUid.s + "/" + Basename(r.filePath))
  {
    var patientDir := Join(base, r.patientId.s);
    JoinSegment(base, r.patientId.s);
    var studyDir := Join(patientDir, r.studyUid.s);
    JoinSegment(patientDir, r.studyUid.s);
    var seriesDir := Join(studyDir, r.seriesUid.s);
    JoinSegment(studyDir, r.seriesUid.s);
    var name := Basename(r.filePath);
    if name != [] {
      assert name[0] in name;
    }
    JoinRelative(seriesDir, name);
  }

  /** Under that layout two records are sent to the same place exactly when
      they share patient, study and series and their files share a name:
      the only way one move can overwrite another. */
  lemma TargetCollision(base: string, r1: MetadataRecord, r2: MetadataRecord)
    requires base != [] && !EndsWith(base, "/") && HasSegmentKeys(r1) && HasSegmentKeys(r2)
    ensures TargetPath(base, r1) == TargetPath(base, r2) <==>
      && r1.patientId == r2.patientId && r1.studyUid == r2.studyUid && r1.seriesUid == r2.seriesUid
      && Basename(r1.filePath) == Basename(r2.filePath)
  {
    TargetLayout(base, r1);
    TargetLayout(base, r2);
    if TargetPath(base, r1) == TargetPath(base, r2) {
      var p1, s1, e1, n1 := r1.patientId.s, r1.studyUid.s, r1.seriesUid.s, Basename(r1.filePath);
      var p2, s2, e2, n2 := r2.patientId.s, r2.studyUid.s, r2.seriesUid.s, Basename(r2.filePath);
      SplitAtLastSeparator(base + "/" + p1 + "/" + s1 + "/" + e1, n1, base + "/" + p2 + "/" + s2 + "/" + e2, n2);
      SplitAtLastSeparator(base + "/" + p1 + "/" + s1, e1, base + "/" + p2 + "/" + s2, e2);
      SplitAtLastSeparator(base + "/" + p1, s1, base + "/" + p2, s2);
      SplitAtLastSeparator(base, p1, base, p2);
    }
  }
}
