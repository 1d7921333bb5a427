/** Ingestion: discovering `.dcm` files in a directory walk, keeping the
    ones that parse, and reading each one's header into a record. The
    file system is a parameter: the walk is the list of (directory, file
    name) pairs in the order `os.walk` yields them, and `disk` maps each
    path that `pydicom.dcmread` can parse to its header. */
module Ingest {
  import opened Seqs
  import opened Paths
  import opened Wrappers
  import opened Metadata

  /** One file name found by the walk, with the directory it was found in. */
  datatype WalkEntry = WalkEntry(root: string, name: string)

  predicate IsDicomFile(e: WalkEntry) {
    EndsWith(e.name, ".dcm")
  }

  function EntryPath(e: WalkEntry): string {
    Join(e.root, e.name)
  }

  /** The paths `load_dataset` reports for a walk. */
  function DicomPaths(walk: seq<WalkEntry>): seq<string> {
    MapSeq(Filter(walk, IsDicomFile), EntryPath)
  }

  /** `load_dataset`: append the joined path of every file name ending in
      `.dcm`. */
  method LoadDataset(walk: seq<WalkEntry>) returns (files: seq<string>)
    ensures files == DicomPaths(walk)
  {
    files := [];
    var i := 0;
    while i < |walk|
      invariant 0 <= i <= |walk|
      invariant files == DicomPaths(walk[..i])
    {
      var e := walk[i];
      assert walk[..i + 1][..i] == walk[..i];
      if EndsWith(e.name, ".dcm") {
        files := files + [Join(e.root, e.name)];
      }
      i := i + 1;
    }
    assert walk[..i] == walk;
  }

  /** A path is reported exactly when some walked file with a `.dcm` name
      joins to it. */
  lemma DicomPathsExact(walk: seq<WalkEntry>, p: string)
    ensures p in DicomPaths(walk) <==> exists e :: e in walk && IsDicomFile(e) && EntryPath(e) == p
  {
    if p in DicomPaths(walk) {
      ReportedPathFromWalk(walk, p);
    }
    if e :| e in walk && IsDicomFile(e) && EntryPath(e) == p {
      DicomEntryReported(walk, e);
    }
  }

  lemma ReportedPathFromWalk(walk: seq<WalkEntry>, p: string)
    requires p in DicomPaths(walk)
    ensures exists e :: e in walk && IsDicomFile(e) && EntryPath(e) == p
  {
    var kept := Filter(walk, IsDicomFile);
    var k :| 0 <= k < |kept| && DicomPaths(walk)[k] == p;
    FilterKeeps(walk, IsDicomFile, kept[k]);
    assert EntryPath(kept[k]) == p;
  }

  lemma DicomEntryReported(walk: seq<WalkEntry>, e: WalkEntry)
    requires e in walk && IsDicomFile(e)
    ensures EntryPath(e) in DicomPaths(walk)
  {
    var kept := Filter(walk, IsDicomFile);
    FilterKeeps(walk, IsDicomFile, e);
    var k :| 0 <= k < |kept| && kept[k] == e;
    assert DicomPaths(walk)[k] == EntryPath(e);
  }

  /** The reported paths follow the walk: the k-th is the joined path of
      the walk's k-th `.dcm` entry, and every `.dcm` entry is reported. */
  lemma DicomPathsInWalkOrder(walk: seq<WalkEntry>) returns (idx: seq<nat>)
    ensures |idx| == |DicomPaths(walk)|
    ensures forall k :: 0 <= k < |idx| ==>
      idx[k] < |walk| && IsDicomFile(walk[idx[k]]) && DicomPaths(walk)[k] == EntryPath(walk[idx[k]])
    ensures forall k, l :: 0 <= k < l < |idx| ==> idx[k] < idx[l]
    ensures forall i :: 0 <= i < |walk| && IsDicomFile(walk[i]) ==> i in idx
  {
    idx := FilterPositions(walk, IsDicomFile);
  }

  /** Every reported path ends in `.dcm`. */
  lemma DicomPathsEndInDcm(walk: seq<WalkEntry>)
    ensures forall p :: p in DicomPaths(walk) ==> EndsWith(p, ".dcm")
  {
    forall p | p in DicomPaths(walk)
      ensures EndsWith(p, ".dcm")
    {
      DicomPathsExact(walk, p);
      var e :| e in walk && IsDicomFile(e) && EntryPath(e) == p;
      JoinEndsWithName(e.root, e.name);
      EndsWithTransitive(p, e.name, ".dcm");
    }
  }

  /** With N `.dcm` names and M others in the walk, exactly N paths are
      reported. */
  lemma DicomPathsCount(walk: seq<WalkEntry>)
    ensures |DicomPaths(walk)| + |Filter(walk, Not(IsDicomFile))| == |walk|
  {
    FilterPartition(walk, IsDicomFile);
  }

  /** The test `validate_files` applies: `dcmread` succeeds on the path. */
  function Parses(disk: map<string, Header>): string -> bool {
    f => f in disk
  }

  /** `validate_files`: keep each path that parses; a failure is logged and
      the loop goes on with the next path. */
  method ValidateFiles(files: seq<string>, disk: map<string, Header>) returns (valid: seq<string>)
    ensures valid == Filter(files, Parses(disk))
  {
    valid := [];
    var i := 0;
    while i < |files|
      invariant 0 <= i <= |files|
      invariant valid == Filter(files[..i], Parses(disk))
    {
      assert files[..i + 1][..i] == files[..i];
      if files[i] in disk {
        valid := valid + [files[i]];
      }
      i := i + 1;
    }
    assert files[..i] == files;
  }

  /** Reading the six elements raises nowhere. */
  predicate Extracts(h: Header) {
    forall f :: f in HeaderFields ==> Readable(h, f)
  }

  /** The record built from one parsed header, or None when reading one of
      the six elements raises (the `try` around the dictionary catches it). */
  function ExtractRecord(path: string, h: Header): (r: Option<MetadataRecord>)
    ensures r.Some? <==> Extracts(h)
    ensures r.Some? ==> AsDict(r.value).Keys == HeaderFields + {"FilePath"}
    ensures r.Some? ==> forall f :: f in HeaderFields ==> AsDict(r.value)[f] == (if f in h then h[f].value else Unknown)
    ensures r.Some? ==> AsDict(r.value)["FilePath"] == Str(path)
  {
    if !Extracts(h) then None
    else
      Some(MetadataRecord(
        Get(h, "PatientID"),
        Get(h, "StudyInstanceUID"),
        Get(h, "SeriesInstanceUID"),
        Get(h, "SliceThickness"),
        Get(h, "PixelSpacing"),
        Get(h, "StudyDate"),
        path))
  }

  /** The paths `extract_metadata` makes a record for: read, and all six
      elements readable. */
  function Extracted(disk: map<string, Header>): string -> bool {
    f => f in disk && Extracts(disk[f])
  }

  /** The record one path contributes, if any. */
  function RecordOf(file: string, disk: map<string, Header>): Option<MetadataRecord> {
    if file in disk then ExtractRecord(file, disk[file]) else None
  }

  /** The records `extract_metadata` returns, in input order. */
  function Records(files: seq<string>, disk: map<string, Header>): seq<MetadataRecord> {
    if files == [] then []
    else
      var n := |files| - 1;
      var r := RecordOf(files[n], disk);
      Records(files[..n], disk) + (if r.Some? then [r.value] else [])
  }

  /** `extract_metadata`: read each path again and append its record; a
      path that fails to read, or whose elements raise when read, is logged
      and contributes nothing. */
  method ExtractMetadata(files: seq<string>, disk: map<string, Header>) returns (metadata: seq<MetadataRecord>)
    ensures metadata == Records(files, disk)
  {
    metadata := [];
    var i := 0;
    while i < |files|
      invariant 0 <= i <= |files|
      invariant metadata == Records(files[..i], disk)
    {
      assert files[..i + 1][..i] == files[..i];
      var file := files[i];
      if file in disk {
        var ds := disk[file];
        var record := ExtractRecord(file, ds);
        if record.Some? {
          metadata := metadata + [record.value];
        }
      }
      i := i + 1;
    }
    assert files[..i] == files;
  }

  /** There is one record per path that reads and extracts, in input order,
      and each is the record of that path's header. */
  lemma {:induction false} RecordsFollowParsedPaths(files: seq<string>, disk: map<string, Header>)
    ensures |Records(files, disk)| == |Filter(files, Extracted(disk))|
    ensures forall k :: 0 <= k < |Records(files, disk)| ==>
      var f := Filter(files, Extracted(disk))[k];
      f in disk && ExtractRecord(f, disk[f]) == Some(Records(files, disk)[k])
  {
    if files != [] {
      var n := |files| - 1;
      RecordsFollowParsedPaths(files[..n], disk);
      var extracted := Extracted(disk);
      assert extracted(files[n]) <==> RecordOf(files[n], disk).Some?;
      assert Filter(files, extracted) == Filter(files[..n], extracted) + (if extracted(files[n]) then [files[n]] else []);
    }
  }

  /** Extracting after validating gives the same records as extracting
      directly: validation removes only paths extraction would skip. */
  lemma {:induction false} ExtractAfterValidate(files: seq<string>, disk: map<string, Header>)
    ensures Records(Filter(files, Parses(disk)), disk) == Records(files, disk)
  {
    if files != [] {
      var n := |files| - 1;
      var parses := Parses(disk);
      var valid := Filter(files[..n], parses);
      ExtractAfterValidate(files[..n], disk);
      if files[n] in disk {
        assert parses(files[n]);
        var grown := valid + [files[n]];
        assert Filter(files, parses) == grown;
        assert grown[..|grown| - 1] == valid;
      } else {
        assert !parses(files[n]);
        assert Filter(files, parses) == valid;
      }
    }
  }

  /** Validation does not guarantee a record: a file that parses but holds a
      malformed SliceThickness passes `validate_files` and raises in
      `extract_metadata`. */
  lemma ValidatedButNotExtracted()
    ensures var disk := map["a.dcm" := map["SliceThickness" := Malformed("1.2.3")]];
      Filter(["a.dcm"], Parses(disk)) == ["a.dcm"] && Records(["a.dcm"], disk) == []
  {
    var disk := map["a.dcm" := map["SliceThickness" := Malformed("1.2.3")]];
    var files := ["a.dcm"];
    assert !Readable(disk["a.dcm"], "SliceThickness");
    assert files[..0] == [];
    assert Parses(disk)("a.dcm");
  }
}
