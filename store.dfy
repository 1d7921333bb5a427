/** The metadata store: the three SQLite tables as maps keyed by their
    primary keys, filled by `insert_metadata` with INSERT OR IGNORE, one
    transaction per batch. */
module Store {
  import opened Wrappers
  import opened Metadata

  /** A `patients` row; the pipeline never writes the name or birth date. */
  datatype PatientRow = PatientRow(patientName: Option<string>, patientBirthDate: Option<string>)

  /** A `studies` row, without its key StudyInstanceUID. */
  datatype StudyRow = StudyRow(patientId: string, studyDate: Option<string>)

  /** A `series` row, without its key SeriesInstanceUID. */
  datatype SeriesRow = SeriesRow(studyUid: string, sliceThickness: Option<string>, pixelSpacing: string, filePath: string)

  /** The three tables: patients by PatientID, studies by StudyInstanceUID,
      series by SeriesInstanceUID. A NULL column is None. */
  datatype Tables = Tables(
    patients: map<string, PatientRow>,
    studies: map<string, StudyRow>,
    series: map<string, SeriesRow>)

  datatype Table = Patients | Studies | Series

  /** The `sqlite3` driver refusing to bind the `index`-th parameter of an
      INSERT into `table` because its Python type is not supported. */
  datatype DbError = UnsupportedParameter(table: Table, index: nat)

  /** Every value but a multi-valued element can be bound as a parameter. */
  predicate Bindable(v: Value) {
    !v.Multi?
  }

  /** What a TEXT column holds for a bound value: a string as itself, a
      number in SQLite's rendering of it, None as NULL. */
  function Stored(v: Value): Option<string>
    requires Bindable(v)
  {
    if v.Str? then Some(v.s) else if v.Number? then Some(v.stored) else None
  }

  /** The position of the first parameter the driver cannot bind; the
      driver binds them in order and raises at that one. */
  function FirstUnbindable(params: seq<Value>): (r: Option<nat>)
    ensures r.Some? ==>
      r.value < |params| && !Bindable(params[r.value]) && forall j :: 0 <= j < r.value ==> Bindable(params[j])
    ensures r.None? ==> forall j :: 0 <= j < |params| ==> Bindable(params[j])
  {
    if params == [] then None
    else if !Bindable(params[0]) then Some(0)
    else
      match FirstUnbindable(params[1..])
      case None => None
      case Some(i) => Some(i + 1)
  }

  /** INSERT OR IGNORE INTO patients (PatientID). A NULL key violates NOT
      NULL, which OR IGNORE resolves by skipping the row, as it does a key
      already present. */
  function InsertPatient(t: Tables, patientId: Value): Result<Tables, DbError> {
    match FirstUnbindable([patientId])
    case Some(i) => Failure(UnsupportedParameter(Patients, i))
    case None =>
      match Stored(patientId)
      case None => Success(t)
      case Some(key) =>
        if key in t.patients then Success(t)
        else Success(t.(patients := t.patients[key := PatientRow(None, None)]))
  }

  /** INSERT OR IGNORE INTO studies (StudyInstanceUID, PatientID, StudyDate);
      both identifiers are NOT NULL. */
  function InsertStudy(t: Tables, studyUid: Value, patientId: Value, studyDate: Value): Result<Tables, DbError> {
    var params := [studyUid, patientId, studyDate];
    match FirstUnbindable(params)
    case Some(i) => Failure(UnsupportedParameter(Studies, i))
    case None =>
      assert Bindable(params[0]) && Bindable(params[1]) && Bindable(params[2]);
      if Stored(studyUid).None? || Stored(patientId).None? then Success(t)
      else if Stored(studyUid).value in t.studies then Success(t)
      else Success(t.(studies := t.studies[Stored(studyUid).value := StudyRow(Stored(patientId).value, Stored(studyDate))]))
  }

  /** INSERT OR IGNORE INTO series (SeriesInstanceUID, StudyInstanceUID,
      SliceThickness, PixelSpacing, FilePath); both identifiers and the path
      are NOT NULL, and the path and the spacing's text are always strings. */
  function InsertSeries(t: Tables, seriesUid: Value, studyUid: Value, sliceThickness: Value, pixelSpacing: string, filePath: string)
    : Result<Tables, DbError>
  {
    var params := [seriesUid, studyUid, sliceThickness, Str(pixelSpacing), Str(filePath)];
    match FirstUnbindable(params)
    case Some(i) => Failure(UnsupportedParameter(Series, i))
    case None =>
      assert Bindable(params[0]) && Bindable(params[1]) && Bindable(params[2]);
      if Stored(seriesUid).None? || Stored(studyUid).None? then Success(t)
      else if Stored(seriesUid).value in t.series then Success(t)
      else
        var row := SeriesRow(Stored(studyUid).value, Stored(sliceThickness), pixelSpacing, filePath);
        Success(t.(series := t.series[Stored(seriesUid).value := row]))
  }

  /** The patients statement raises exactly when its parameter cannot be
      bound; otherwise it adds the key when it is not NULL, keeps every row
      already there, and leaves the other tables alone. */
  lemma InsertPatientEffect(t: Tables, patientId: Value)
    ensures var r := InsertPatient(t, patientId);
      && (r.Failure? <==> !Bindable(patientId))
      && (r.Success? ==> Extends(t, r.value) && r.value.studies == t.studies && r.value.series == t.series)
      && (r.Success? ==> r.value.patients.Keys == t.patients.Keys + (if Stored(patientId).Some? then {Stored(patientId).value} else {}))
  {
  }

  /** The studies statement raises exactly when a parameter cannot be bound;
      otherwise it adds the key when neither NOT NULL column is NULL, keeps
      every row already there, and leaves the other tables alone. */
  lemma InsertStudyEffect(t: Tables, studyUid: Value, patientId: Value, studyDate: Value)
    ensures var r := InsertStudy(t, studyUid, patientId, studyDate);
      && (r.Failure? <==> !(Bindable(studyUid) && Bindable(patientId) && Bindable(studyDate)))
      && (r.Success? ==> Extends(t, r.value) && r.value.patients == t.patients && r.value.series == t.series)
      && (r.Success? ==> r.value.studies.Keys == t.studies.Keys + (if Stored(studyUid).Some? && Stored(patientId).Some? then {Stored(studyUid).value} else {}))
  {
    var params := [studyUid, patientId, studyDate];
    assert params[0] == studyUid && params[1] == patientId && params[2] == studyDate;
  }

  /** The series statement raises exactly when a parameter cannot be bound;
      otherwise it adds the key when neither NOT NULL identifier is NULL,
      keeps every row already there, and leaves the other tables alone. */
  lemma InsertSeriesEffect(t: Tables, seriesUid: Value, studyUid: Value, sliceThickness: Value, pixelSpacing: string, filePath: string)
    ensures var r := InsertSeries(t, seriesUid, studyUid, sliceThickness, pixelSpacing, filePath);
      && (r.Failure? <==> !(Bindable(seriesUid) && Bindable(studyUid) && Bindable(sliceThickness)))
      && (r.Success? ==> Extends(t, r.value) && r.value.patients == t.patients && r.value.studies == t.studies)
      && (r.Success? ==> r.value.series.Keys == t.series.Keys + (if Stored(seriesUid).Some? && Stored(studyUid).Some? then {Stored(seriesUid).value} else {}))
  {
    var params := [seriesUid, studyUid, sliceThickness, Str(pixelSpacing), Str(filePath)];
    assert params[0] == seriesUid && params[1] == studyUid && params[2] == sliceThickness;
    assert Bindable(params[3]) && Bindable(params[4]);
  }

  /** One iteration of the batch loop: patient, then study, then series;
      the first statement that raises ends it. */
  function InsertEntry(t: Tables, e: MetadataRecord): Result<Tables, DbError> {
    var t1 :- InsertPatient(t, e.patientId);
    var t2 :- InsertStudy(t1, e.studyUid, e.patientId, e.studyDate);
    InsertSeries(t2, e.seriesUid, e.studyUid, e.sliceThickness, PyStr(e.pixelSpacing), e.filePath)
  }

  /** The tables after running the statements of a whole batch, or the
      error of the first statement that raises. */
  function ApplyBatch(t: Tables, batch: seq<MetadataRecord>): Result<Tables, DbError> {
    if batch == [] then Success(t)
    else
      match ApplyBatch(t, batch[..|batch| - 1])
      case Failure(e) => Failure(e)
      case Success(t1) => InsertEntry(t1, batch[|batch| - 1])
  }

  // ---------------------------------------------------------------------
  // What one entry does

  /** No statement of the entry raises: every value it binds is bindable. */
  predicate EntryBindable(e: MetadataRecord) {
    && Bindable(e.patientId) && Bindable(e.studyUid) && Bindable(e.studyDate)
    && Bindable(e.seriesUid) && Bindable(e.sliceThickness)
  }

  /** The patients key the entry supplies, if its PatientID is not NULL. */
  function PatientKey(e: MetadataRecord): Option<string> {
    if Bindable(e.patientId) then Stored(e.patientId) else None
  }

  /** The studies key the entry supplies, if neither NOT NULL column is NULL. */
  function StudyKey(e: MetadataRecord): Option<string> {
    if Bindable(e.studyUid) && Bindable(e.patientId) && Stored(e.patientId).Some? then Stored(e.studyUid) else None
  }

  /** The series key the entry supplies, if neither NOT NULL column is NULL. */
  function SeriesKey(e: MetadataRecord): Option<string> {
    if Bindable(e.seriesUid) && Bindable(e.studyUid) && Stored(e.studyUid).Some? then Stored(e.seriesUid) else None
  }

  function StudyRowOf(e: MetadataRecord): StudyRow
    requires StudyKey(e).Some? && Bindable(e.studyDate)
  {
    StudyRow(Stored(e.patientId).value, Stored(e.studyDate))
  }

  function SeriesRowOf(e: MetadataRecord): SeriesRow
    requires SeriesKey(e).Some? && Bindable(e.sliceThickness)
  {
    SeriesRow(Stored(e.studyUid).value, Stored(e.sliceThickness), PyStr(e.pixelSpacing), e.filePath)
  }

  /** `m` with `key` bound to `v`, unless the key is absent or already bound. */
  function AddIfAbsent<K, V>(m: map<K, V>, key: Option<K>, v: V): map<K, V> {
    if key.Some? && key.value !in m then m[key.value := v] else m
  }

  /** The tables after the entry's three rows are inserted if absent. */
  function Absorb(t: Tables, e: MetadataRecord): Tables
    requires EntryBindable(e)
  {
    Tables(
      AddIfAbsent(t.patients, PatientKey(e), PatientRow(None, None)),
      if StudyKey(e).Some? then AddIfAbsent(t.studies, StudyKey(e), StudyRowOf(e)) else t.studies,
      if SeriesKey(e).Some? then AddIfAbsent(t.series, SeriesKey(e), SeriesRowOf(e)) else t.series)
  }

  /** An entry raises exactly when one of its values cannot be bound, and
      otherwise inserts each of its rows if its key is absent. */
  lemma InsertEntryEffect(t: Tables, e: MetadataRecord)
    ensures InsertEntry(t, e).Success? <==> EntryBindable(e)
    ensures EntryBindable(e) ==> InsertEntry(t, e) == Success(Absorb(t, e))
  {
    var pa := [e.patientId];
    var pb := [e.studyUid, e.patientId, e.studyDate];
    var pc := [e.seriesUid, e.studyUid, e.sliceThickness, Str(PyStr(e.pixelSpacing)), Str(e.filePath)];
    var a, b, c := FirstUnbindable(pa), FirstUnbindable(pb), FirstUnbindable(pc);
    assert Bindable(pc[3]) && Bindable(pc[4]);
    assert a.None? <==> Bindable(pa[0]);
    assert Bindable(pa[0]) ==> (b.None? <==> Bindable(pb[0]) && Bindable(pb[1]) && Bindable(pb[2]));
    assert c.None? <==> Bindable(pc[0]) && Bindable(pc[1]) && Bindable(pc[2]);
  }

  // ---------------------------------------------------------------------
  // What a batch does

  /** Every row of `t` is still in `t2`, unchanged. */
  ghost predicate Extends(t: Tables, t2: Tables) {
    && (forall k :: k in t.patients ==> k in t2.patients && t2.patients[k] == t.patients[k])
    && (forall k :: k in t.studies ==> k in t2.studies && t2.studies[k] == t.studies[k])
    && (forall k :: k in t.series ==> k in t2.series && t2.series[k] == t.series[k])
  }

  /** A batch raises exactly when one of its entries holds a value the
      driver cannot bind; what is already in the tables plays no part. */
  lemma {:induction false} BatchFailsIff(t: Tables, batch: seq<MetadataRecord>)
    ensures ApplyBatch(t, batch).Failure? <==> exists j :: 0 <= j < |batch| && !EntryBindable(batch[j])
  {
    if batch != [] {
      var n := |batch| - 1;
      var front := batch[..n];
      BatchFailsIff(t, front);
      assert forall j :: 0 <= j < n ==> front[j] == batch[j];
      if ApplyBatch(t, front).Success? {
        InsertEntryEffect(ApplyBatch(t, front).value, batch[n]);
      }
    }
  }

  /** Once a prefix of the batch has raised, the rest of the batch does not run. */
  lemma {:induction false} BatchFailureSticks(t: Tables, batch: seq<MetadataRecord>, n: nat)
    requires n <= |batch| && ApplyBatch(t, batch[..n]).Failure?
    ensures ApplyBatch(t, batch) == ApplyBatch(t, batch[..n])
  {
    if n < |batch| {
      var front := batch[..|batch| - 1];
      assert front[..n] == batch[..n];
      BatchFailureSticks(t, front, n);
    } else {
      assert batch[..n] == batch;
    }
  }

  /** Insert-or-ignore never changes or removes a row that was there. */
  lemma {:induction false} BatchKeepsRows(t: Tables, batch: seq<MetadataRecord>, t2: Tables)
    requires ApplyBatch(t, batch) == Success(t2)
    ensures Extends(t, t2)
  {
    if batch != [] {
      var n := |batch| - 1;
      var t1 := ApplyBatch(t, batch[..n]).value;
      BatchKeepsRows(t, batch[..n], t1);
      InsertEntryEffect(t1, batch[n]);
    }
  }

  /** The keys the entries of a batch supply for each table. */
  function PatientKeys(batch: seq<MetadataRecord>): set<string> {
    set e | e in batch && PatientKey(e).Some? :: PatientKey(e).value
  }

  function StudyKeys(batch: seq<MetadataRecord>): set<string> {
    set e | e in batch && StudyKey(e).Some? :: StudyKey(e).value
  }

  function SeriesKeys(batch: seq<MetadataRecord>): set<string> {
    set e | e in batch && SeriesKey(e).Some? :: SeriesKey(e).value
  }

  /** The keys of a batch grown by one entry. */
  lemma KeysAppend(front: seq<MetadataRecord>, e: MetadataRecord)
    ensures PatientKeys(front + [e]) == PatientKeys(front) + PatientKeys([e])
    ensures StudyKeys(front + [e]) == StudyKeys(front) + StudyKeys([e])
    ensures SeriesKeys(front + [e]) == SeriesKeys(front) + SeriesKeys([e])
  {
    assert forall x :: x in front + [e] <==> x in front || x == e;
  }

  /** The keys a single entry supplies. */
  lemma SingleEntryKeys(e: MetadataRecord)
    ensures PatientKeys([e]) == if PatientKey(e).Some? then {PatientKey(e).value} else {}
    ensures StudyKeys([e]) == if StudyKey(e).Some? then {StudyKey(e).value} else {}
    ensures SeriesKeys([e]) == if SeriesKey(e).Some? then {SeriesKey(e).value} else {}
  {
    assert forall x :: x in [e] <==> x == e;
  }

  /** Adding if absent adds the key and nothing else. */
  lemma AddIfAbsentKeys<K, V>(m: map<K, V>, key: Option<K>, v: V)
    ensures AddIfAbsent(m, key, v).Keys == m.Keys + if key.Some? then {key.value} else {}
  {
  }

  /** One entry adds exactly its own non-NULL keys. */
  lemma AbsorbKeys(t: Tables, e: MetadataRecord)
    requires EntryBindable(e)
    ensures Absorb(t, e).patients.Keys == t.patients.Keys + PatientKeys([e])
    ensures Absorb(t, e).studies.Keys == t.studies.Keys + StudyKeys([e])
    ensures Absorb(t, e).series.Keys == t.series.Keys + SeriesKeys([e])
  {
    SingleEntryKeys(e);
    AddIfAbsentKeys(t.patients, PatientKey(e), PatientRow(None, None));
    if StudyKey(e).Some? {
      AddIfAbsentKeys(t.studies, StudyKey(e), StudyRowOf(e));
    }
    if SeriesKey(e).Some? {
      AddIfAbsentKeys(t.series, SeriesKey(e), SeriesRowOf(e));
    }
  }

  /** The last entry of a committed batch was absorbed into the tables the
      rest of the batch left. */
  lemma LastEntryAbsorbed(t: Tables, batch: seq<MetadataRecord>, t2: Tables)
    requires batch != [] && ApplyBatch(t, batch) == Success(t2)
    ensures ApplyBatch(t, batch[..|batch| - 1]).Success?
    ensures EntryBindable(batch[|batch| - 1])
    ensures t2 == Absorb(ApplyBatch(t, batch[..|batch| - 1]).value, batch[|batch| - 1])
  {
    InsertEntryEffect(ApplyBatch(t, batch[..|batch| - 1]).value, batch[|batch| - 1]);
  }

  /** After a committed batch each table holds exactly its old keys and the
      non-NULL keys the entries supplied. */
  lemma BatchKeys(t: Tables, batch: seq<MetadataRecord>, t2: Tables)
    requires ApplyBatch(t, batch) == Success(t2)
    ensures t2.patients.Keys == t.patients.Keys + PatientKeys(batch)
    ensures t2.studies.Keys == t.studies.Keys + StudyKeys(batch)
    ensures t2.series.Keys == t.series.Keys + SeriesKeys(batch)
  {
    BatchPatientKeys(t, batch, t2);
    BatchStudyKeys(t, batch, t2);
    BatchSeriesKeys(t, batch, t2);
  }

  lemma {:induction false} BatchPatientKeys(t: Tables, batch: seq<MetadataRecord>, t2: Tables)
    requires ApplyBatch(t, batch) == Success(t2)
    ensures t2.patients.Keys == t.patients.Keys + PatientKeys(batch)
  {
    if batch != [] {
      var n := |batch| - 1;
      var front := batch[..n];
      var e := batch[n];
      LastEntryAbsorbed(t, batch, t2);
      var t1 := ApplyBatch(t, front).value;
      BatchPatientKeys(t, front, t1);
      AbsorbKeys(t1, e);
      KeysAppend(front, e);
      assert batch == front + [e];
    }
  }

  lemma {:induction false} BatchStudyKeys(t: Tables, batch: seq<MetadataRecord>, t2: Tables)
    requires ApplyBatch(t, batch) == Success(t2)
    ensures t2.studies.Keys == t.studies.Keys + StudyKeys(batch)
  {
    if batch != [] {
      var n := |batch| - 1;
      var front := batch[..n];
      var e := batch[n];
      LastEntryAbsorbed(t, batch, t2);
      var t1 := ApplyBatch(t, front).value;
      BatchStudyKeys(t, front, t1);
      AbsorbKeys(t1, e);
      KeysAppend(front, e);
      assert batch == front + [e];
    }
  }

  lemma {:induction false} BatchSeriesKeys(t: Tables, batch: seq<MetadataRecord>, t2: Tables)
    requires ApplyBatch(t, batch) == Success(t2)
    ensures t2.series.Keys == t.series.Keys + SeriesKeys(batch)
  {
    if batch != [] {
      var n := |batch| - 1;
      var front := batch[..n];
      var e := batch[n];
      LastEntryAbsorbed(t, batch, t2);
      var t1 := ApplyBatch(t, front).value;
      BatchSeriesKeys(t, front, t1);
      AbsorbKeys(t1, e);
      KeysAppend(front, e);
      assert batch == front + [e];
    }
  }

  /** A key that no entry of a batch supplies is not among the batch's keys. */
  lemma NotSuppliedSeriesKey(batch: seq<MetadataRecord>, k: string)
    requires forall i :: 0 <= i < |batch| ==> SeriesKey(batch[i]) != Some(k)
    ensures k !in SeriesKeys(batch)
  {
  }

  lemma NotSuppliedStudyKey(batch: seq<MetadataRecord>, k: string)
    requires forall i :: 0 <= i < |batch| ==> StudyKey(batch[i]) != Some(k)
    ensures k !in StudyKeys(batch)
  {
  }

  /** Within a batch the first entry with a given series key decides that
      series row, when the key was not already stored; later entries with
      the same key are ignored. */
  lemma {:induction false} FirstSeriesEntryWins(t: Tables, batch: seq<MetadataRecord>, t2: Tables, j: nat)
    requires ApplyBatch(t, batch) == Success(t2)
    requires j < |batch| && SeriesKey(batch[j]).Some? && SeriesKey(batch[j]).value !in t.series
    requires forall i :: 0 <= i < j ==> SeriesKey(batch[i]) != SeriesKey(batch[j])
    ensures EntryBindable(batch[j])
    ensures SeriesKey(batch[j]).value in t2.series && t2.series[SeriesKey(batch[j]).value] == SeriesRowOf(batch[j])
  {
    var k := SeriesKey(batch[j]).value;
    var n := |batch| - 1;
    var front := batch[..n];
    var e := batch[n];
    LastEntryAbsorbed(t, batch, t2);
    var t1 := ApplyBatch(t, front).value;
    if j == n {
      BatchSeriesKeys(t, front, t1);
      NotSuppliedSeriesKey(front, k);
      assert k !in t1.series;
    } else {
      assert forall i :: 0 <= i <= j ==> front[i] == batch[i];
      FirstSeriesEntryWins(t, front, t1, j);
      assert k in t1.series;
    }
  }

  /** The same for the first entry with a given study key. */
  lemma {:induction false} FirstStudyEntryWins(t: Tables, batch: seq<MetadataRecord>, t2: Tables, j: nat)
    requires ApplyBatch(t, batch) == Success(t2)
    requires j < |batch| && StudyKey(batch[j]).Some? && StudyKey(batch[j]).value !in t.studies
    requires forall i :: 0 <= i < j ==> StudyKey(batch[i]) != StudyKey(batch[j])
    ensures EntryBindable(batch[j])
    ensures StudyKey(batch[j]).value in t2.studies && t2.studies[StudyKey(batch[j]).value] == StudyRowOf(batch[j])
  {
    var k := StudyKey(batch[j]).value;
    var n := |batch| - 1;
    var front := batch[..n];
    var e := batch[n];
    LastEntryAbsorbed(t, batch, t2);
    var t1 := ApplyBatch(t, front).value;
    if j == n {
      BatchStudyKeys(t, front, t1);
      NotSuppliedStudyKey(front, k);
      assert k !in t1.studies;
    } else {
      assert forall i :: 0 <= i <= j ==> front[i] == batch[i];
      FirstStudyEntryWins(t, front, t1, j);
      assert k in t1.studies;
    }
  }

  /** A batch whose every entry is bindable and already stored changes nothing. */
  lemma {:induction false} AbsorbedBatch(t: Tables, batch: seq<MetadataRecord>)
    requires forall e :: e in batch ==> EntryBindable(e) && Absorb(t, e) == t
    ensures ApplyBatch(t, batch) == Success(t)
  {
    if batch != [] {
      var n := |batch| - 1;
      AbsorbedBatch(t, batch[..n]);
      InsertEntryEffect(t, batch[n]);
    }
  }

  /** Running a committed batch a second time leaves the tables as the
      first run left them. */
  lemma BatchIdempotent(t: Tables, batch: seq<MetadataRecord>, t2: Tables)
    requires ApplyBatch(t, batch) == Success(t2)
    ensures ApplyBatch(t2, batch) == Success(t2)
  {
    BatchFailsIff(t, batch);
    BatchKeys(t, batch, t2);
    forall e | e in batch
      ensures EntryBindable(e) && Absorb(t2, e) == t2
    {
      assert PatientKey(e).Some? ==> PatientKey(e).value in PatientKeys(batch);
      assert StudyKey(e).Some? ==> StudyKey(e).value in StudyKeys(batch);
      assert SeriesKey(e).Some? ==> SeriesKey(e).value in SeriesKeys(batch);
    }
    AbsorbedBatch(t2, batch);
  }

  /** Referential integrity: every study names a stored patient and every
      series names a stored study. */
  ghost predicate Integrity(t: Tables) {
    && (forall k :: k in t.studies ==> t.studies[k].patientId in t.patients)
    && (forall k :: k in t.series ==> t.series[k].studyUid in t.studies)
  }

  /** Inserting parent, then child, then grandchild keeps integrity, as
      long as the patient key is not NULL (a NULL one skips the patient
      and the study but not the series). */
  lemma AbsorbKeepsIntegrity(t: Tables, e: MetadataRecord)
    requires EntryBindable(e) && Integrity(t) && !e.patientId.Empty?
    ensures Integrity(Absorb(t, e))
  {
  }

  /** A committed batch keeps referential integrity when no entry has a
      NULL PatientID. */
  lemma {:induction false} BatchKeepsIntegrity(t: Tables, batch: seq<MetadataRecord>, t2: Tables)
    requires Integrity(t) && ApplyBatch(t, batch) == Success(t2)
    requires forall j :: 0 <= j < |batch| ==> !batch[j].patientId.Empty?
    ensures Integrity(t2)
  {
    if batch != [] {
      var n := |batch| - 1;
      var front := batch[..n];
      var t1 := ApplyBatch(t, front).value;
      assert forall j :: 0 <= j < n ==> front[j] == batch[j];
      BatchKeepsIntegrity(t, front, t1);
      InsertEntryEffect(t1, batch[n]);
      AbsorbKeepsIntegrity(t1, batch[n]);
    }
  }

  /** Foreign keys are not enforced: an entry with a NULL PatientID and a
      study identifier stores a series whose study row is missing. */
  lemma DanglingSeriesWithNullPatientId()
    ensures var e := MetadataRecord(Empty, Str("S1"), Str("SE1"), Unknown, Unknown, Unknown, "a.dcm");
      var r := ApplyBatch(Tables(map[], map[], map[]), [e]);
      r.Success? && !Integrity(r.value)
  {
    var e := MetadataRecord(Empty, Str("S1"), Str("SE1"), Unknown, Unknown, Unknown, "a.dcm");
    var t := Tables(map[], map[], map[]);
    InsertEntryEffect(t, e);
    assert [e][..0] == [];
    var t2 := Absorb(t, e);
    assert "SE1" in t2.series && t2.series["SE1"].studyUid !in t2.studies;
  }

  // ---------------------------------------------------------------------
  // The connection

  /** How `insert_metadata` ends: committed, or rolled back with the error
      it logs. */
  datatype BatchOutcome = Committed | RolledBack(error: DbError)

  /** An open connection to the database file: the tables as the current
      transaction sees them, and as they were at the last commit. */
  class MetadataStore {
    var patients: map<string, PatientRow>
    var studies: map<string, StudyRow>
    var series: map<string, SeriesRow>
    /** The tables as of the last commit: what a rollback returns to. */
    var committed: Tables

    function Live(): Tables
      reads this
    {
      Tables(patients, studies, series)
    }

    /** `create_database`: the tables are created only if absent, so a file
        that already holds rows keeps them, and the creation is committed. */
    constructor Open(existing: Tables)
      ensures Live() == existing && committed == existing
    {
      patients, studies, series := existing.patients, existing.studies, existing.series;
      committed := existing;
    }

    /** `conn.commit()`. */
    method Commit()
      modifies this`committed
      ensures committed == Live()
    {
      committed := Tables(patients, studies, series);
    }

    /** `conn.rollback()`. */
    method Rollback()
      modifies this`patients, this`studies, this`series
      ensures Live() == committed
    {
      patients, studies, series := committed.patients, committed.studies, committed.series;
    }

    /** One INSERT OR IGNORE into patients. */
    method InsertPatientRow(patientId: Value) returns (err: Option<DbError>)
      modifies this`patients
      ensures match InsertPatient(old(Live()), patientId)
        case Success(t) => err.None? && Live() == t
        case Failure(e) => err == Some(e) && Live() == old(Live())
    {
      match FirstUnbindable([patientId]) {
        case Some(i) =>
          return Some(UnsupportedParameter(Patients, i));
        case None =>
          if Stored(patientId).Some? && Stored(patientId).value !in patients {
            patients := patients[Stored(patientId).value := PatientRow(None, None)];
          }
          return None;
      }
    }

    /** One INSERT OR IGNORE into studies. */
    method InsertStudyRow(studyUid: Value, patientId: Value, studyDate: Value) returns (err: Option<DbError>)
      modifies this`studies
      ensures match InsertStudy(old(Live()), studyUid, patientId, studyDate)
        case Success(t) => err.None? && Live() == t
        case Failure(e) => err == Some(e) && Live() == old(Live())
    {
      var params := [studyUid, patientId, studyDate];
      match FirstUnbindable(params) {
        case Some(i) =>
          return Some(UnsupportedParameter(Studies, i));
        case None =>
          assert Bindable(params[0]) && Bindable(params[1]) && Bindable(params[2]);
          if Stored(studyUid).Some? && Stored(patientId).Some? && Stored(studyUid).value !in studies {
            studies := studies[Stored(studyUid).value := StudyRow(Stored(patientId).value, Stored(studyDate))];
          }
          return None;
      }
    }

    /** One INSERT OR IGNORE into series. */
    method InsertSeriesRow(seriesUid: Value, studyUid: Value, sliceThickness: Value, pixelSpacing: string, filePath: string)
      returns (err: Option<DbError>)
      modifies this`series
      ensures match InsertSeries(old(Live()), seriesUid, studyUid, sliceThickness, pixelSpacing, filePath)
        case Success(t) => err.None? && Live() == t
        case Failure(e) => err == Some(e) && Live() == old(Live())
    {
      var params := [seriesUid, studyUid, sliceThickness, Str(pixelSpacing), Str(filePath)];
      match FirstUnbindable(params) {
        case Some(i) =>
          return Some(UnsupportedParameter(Series, i));
        case None =>
          assert Bindable(params[0]) && Bindable(params[1]) && Bindable(params[2]);
          if Stored(seriesUid).Some? && Stored(studyUid).Some? && Stored(seriesUid).value !in series {
            var row := SeriesRow(Stored(studyUid).value, Stored(sliceThickness), pixelSpacing, filePath);
            series := series[Stored(seriesUid).value := row];
          }
          return None;
      }
    }

    /** The three statements of one loop iteration; the first that raises
        ends it, leaving the rows already inserted for the rollback. */
    method InsertEntryRows(entry: MetadataRecord) returns (err: Option<DbError>)
      modifies this`patients, this`studies, this`series
      ensures match InsertEntry(old(Live()), entry)
        case Success(t) => err.None? && Live() == t
        case Failure(e) => err == Some(e)
      ensures match InsertPatient(old(Live()), entry.patientId)
        case Failure(e) => Live() == old(Live())
        case Success(t1) =>
          match InsertStudy(t1, entry.studyUid, entry.patientId, entry.studyDate)
          case Failure(e) => Live() == t1
          case Success(t2) =>
            InsertSeries(t2, entry.seriesUid, entry.studyUid, entry.sliceThickness, PyStr(entry.pixelSpacing), entry.filePath).Failure? ==> Live() == t2
      ensures Extends(old(Live()), Live())
    {
      ghost var t0 := Live();
      err := InsertPatientRow(entry.patientId);
      InsertPatientEffect(t0, entry.patientId);
      if err.None? {
        ghost var t1 := Live();
        err := InsertStudyRow(entry.studyUid, entry.patientId, entry.studyDate);
        InsertStudyEffect(t1, entry.studyUid, entry.patientId, entry.studyDate);
        if err.None? {
          ghost var t2 := Live();
          err := InsertSeriesRow(entry.seriesUid, entry.studyUid, entry.sliceThickness, PyStr(entry.pixelSpacing), entry.filePath);
          InsertSeriesEffect(t2, entry.seriesUid, entry.studyUid, entry.sliceThickness, PyStr(entry.pixelSpacing), entry.filePath);
        }
      }
    }

    /** `insert_metadata`: for each entry insert its patient, study and
        series rows if absent; commit after the last entry; on the first
        statement that raises, log and roll the whole transaction back. */
    method InsertMetadata(metadata: seq<MetadataRecord>) returns (outcome: BatchOutcome)
      modifies this
      ensures match ApplyBatch(old(Live()), metadata)
        case Success(t) => outcome == Committed && Live() == t && committed == t
        case Failure(e) => outcome == RolledBack(e) && Live() == old(committed) && committed == old(committed)
    {
      ghost var start := Live();
      var i := 0;
      while i < |metadata|
        invariant 0 <= i <= |metadata|
        invariant ApplyBatch(start, metadata[..i]) == Success(Live())
        invariant committed == old(committed)
      {
        assert metadata[..i + 1][..i] == metadata[..i];
        var err := InsertEntryRows(metadata[i]);
        if err.Some? {
          BatchFailureSticks(start, metadata, i + 1);
          Rollback();
          return RolledBack(err.value);
        }
        i := i + 1;
      }
      assert metadata[..i] == metadata;
      Commit();
      outcome := Committed;
    }
  }
}
