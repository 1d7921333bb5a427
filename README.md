# DICOM metadata pipeline, modelled in Dafny

`pipeline.py` is a small extract-transform-load pipeline for DICOM medical
images, run as one script. It:

1. walks a dataset directory for `.dcm` files (`load_dataset`);
2. keeps the files `pydicom` can parse (`validate_files`);
3. reads six header elements of each file into a record, with the sentinel
   `"Unknown"` for every missing element (`extract_metadata`);
4. moves every file to `base/PatientID/StudyInstanceUID/SeriesInstanceUID/<name>`
   (`organize_files`);
5. stores the records in three SQLite tables (patients, studies, series)
   with `INSERT OR IGNORE`, in one transaction that commits or rolls back
   (`insert_metadata`);
6. reports the number of studies and series rows, the average number of
   series rows per study (`generate_summary`), and a histogram of the
   SliceThickness texts that look like unsigned decimals (`visualize_data`).

The model keeps the logic of each stage and makes the foreign calls into
parameters:

- The directory walk is a sequence of (directory, file name) pairs in the
  order `os.walk` yields them.
- `pydicom.dcmread` is a map `disk` from each parsable path to its header.
  A header maps element keywords to elements. An element is either a
  converted value, or a malformed numeric string that `pydicom` keeps
  unconverted until the element is read, when it raises.
- A header value is a `Value`:
  - `Str`: a text element, or the sentinel;
  - `Number`: a numeric element. It carries two texts. One is the element's
    own decimal string, which `str()` returns. The other is the text a
    TEXT column keeps once the driver has bound the number as REAL or
    INTEGER (SQLite renders `2` as `"2.0"`);
  - `Empty`: Python `None`;
  - `Multi`: a multi-valued element.

  The kind of value decides what later stages do. `os.path.join` raises
  TypeError on anything but a string. The `sqlite3` driver cannot bind a
  multi-valued element. `str(None)` is `"None"`.
- The database tables are maps keyed by their primary keys.

Files:

- `wrappers.dfy`: `Option` and `Result`.
- `seqs.dfy`: an order-preserving filter and map over sequences, and their
  lemmas.
- `paths.dfy`: POSIX `os.path.join` and `os.path.basename`.
- `metadata.dfy`: header values and the metadata record.
- `ingest.dfy`: `load_dataset`, `validate_files` and `extract_metadata`.
  Each is a loop method, proved equal to a specification function, with
  lemmas about that function.
- `organize.dfy`: the target path of `organize_files`, and the loop that
  plans the moves.
- `store.dfy`: the tables and insert-or-ignore. The class `MetadataStore`
  is the open connection. Its three map fields are changed statement by
  statement. A fourth field keeps the last committed state, which rollback
  restores.
- `report.dfy`: the summary counts, the exact average, and the numeric
  filter of the histogram.
- `pipeline.dfy`: how the organizer and the store meet in the main run.

Some behaviour of the code may be unexpected:

- **Stored paths.** One might expect the stored FilePath to be the path
  after reorganisation. `organize_files` never updates the records, so the
  store receives the paths from before the move
  (`Pipeline.SeriesRowKeepsPreMovePath`).
- **Duplicate series.** One might expect the most recent file path to be
  kept for a repeated series. With `INSERT OR IGNORE`, the first entry
  wins (`Store.FirstSeriesEntryWins`).
- **Validated files without a record.** A file that parses can still hold
  a malformed numeric element. Reading it inside `extract_metadata`
  raises, and the file gets no record (`Ingest.ValidatedButNotExtracted`).
- **NULL keys.** A NULL key violates the NOT NULL constraint.
  SQLite's `OR IGNORE` conflict resolution applies to NOT NULL violations
  as well as to duplicate keys. So a NULL key skips the row and does not
  roll the batch back. The statement that raises is one whose parameter
  the driver cannot bind.
- **Foreign keys.** The foreign keys are declared but SQLite does not
  enforce them by default. A NULL PatientID therefore leaves a series
  row without its study (`Store.DanglingSeriesWithNullPatientId`).

## Model

| member | source | states |
|---|---|---|
| Ingest.LoadDataset | pipeline.py:11-18 | The returned list is exactly the joined path of every walked name ending in `.dcm`, in walk order (`DicomPaths`). |
| Ingest.DicomPathsExact | pipeline.py:13-16 | A path is returned if and only if some walked entry has a `.dcm` name and joins to it. |
| Ingest.DicomPathsInWalkOrder | pipeline.py:13-16 | The k-th returned path comes from the k-th `.dcm` entry of the walk, at strictly increasing walk positions. Every `.dcm` entry is used. |
| Ingest.DicomPathsEndInDcm | pipeline.py:15-16 | Every returned path ends in `.dcm`. |
| Ingest.DicomPathsCount | pipeline.py:13-16 | Returned paths plus skipped names make up the whole walk, so at most as many paths as walked files are returned. |
| Seqs.Filter | pipeline.py:22-26 | The kept paths are never more than the input paths. |
| Seqs.FilterKeeps | pipeline.py:23-26 | An item is kept if and only if it is in the input and passes the test. |
| Seqs.FilterPositions | pipeline.py:22-26 | The kept items are the passing items of the input, in input order, and none is missed. |
| Seqs.FilterIdempotent | pipeline.py:21-30 | Validating an already validated list changes nothing. |
| Ingest.ValidateFiles | pipeline.py:21-30 | The result is the input paths that parse, in order. A path that fails is skipped and the loop goes on. |
| Ingest.ExtractRecord | pipeline.py:38-49 | A record is built if and only if none of the six elements raises when read. The record has exactly the six element keys and FilePath. Each element is the header's value when present and `"Unknown"` when not. FilePath is the input path. |
| Ingest.Records | pipeline.py:35-51 | One record per path that reads and whose elements read, in input order (`RecordsFollowParsedPaths`). |
| Ingest.ExtractMetadata | pipeline.py:35-51 | The result is `Records(files, disk)`. A path that fails to read, or whose elements raise, adds nothing. |
| Ingest.RecordsFollowParsedPaths | pipeline.py:37-50 | The records correspond one-to-one, in order, to the paths that parse and whose six elements read. Each is the record of that path's header. |
| Ingest.ExtractAfterValidate | pipeline.py:213-216 | Extracting after validation gives the same records as extracting from the unvalidated list. |
| Ingest.ValidatedButNotExtracted | pipeline.py:21-51 | A file with a malformed SliceThickness passes validation but gets no record. |
| Paths.Basename | pipeline.py:60 | The basename holds no `/`, ends the path, and is either the whole path or preceded by a `/`. |
| Paths.BasenameOfJoin | pipeline.py:60 | Joining a slash-free name onto any directory gives that name back as the basename. |
| Organize.TargetPath | pipeline.py:56-60 | A target exists if and only if all three identifiers are strings (otherwise `os.path.join` raises TypeError). The target ends with the file's basename. Its exact layout is given by `TargetLayout`. |
| Organize.Plan | pipeline.py:55-61 | The moves the loop makes, in order, and whether it raised. There are never more moves than records. `PlanFacts` and `PlanStopsAtRaise` give its meaning. |
| Organize.OrganizeFiles | pipeline.py:54-61 | The moves made, and whether the loop raised, are those of `Plan` over the targets under `base`. |
| Organize.PlanFacts | pipeline.py:55-61 | The i-th move takes record i's unchanged FilePath to its target path. The loop raises if and only if some record's identifiers cannot be joined. When it raises, that record is the first without moves, and otherwise every record moves. |
| Organize.PlanStopsAtRaise | pipeline.py:55-58 | After a record raises, the remaining records make no moves. |
| Organize.TargetKeepsFileName | pipeline.py:60 | A moved file keeps its basename. |
| Organize.TargetLayout | pipeline.py:56-60 | With a non-empty base that does not end in `/`, and identifiers that are each one non-empty level with no `/`, the target is exactly `base/PatientID/StudyInstanceUID/SeriesInstanceUID/basename`. |
| Organize.TargetCollision | pipeline.py:56-61 | For a non-empty base without a trailing `/` and identifiers that are each one non-empty directory level with no `/`: two records get the same target if and only if they share all three identifiers and the file name. This is when one move overwrites another. |
| Pipeline.SeriesRowKeepsPreMovePath | pipeline.py:217-221 | The series row a record decides stores the source of that record's move, which is the record's FilePath as extracted. |
| Store.FirstUnbindable | pipeline.py:130-131 | The driver binds parameters in order and fails at the first one it cannot bind, if there is one. |
| Store.InsertPatient | pipeline.py:114-117 | The patients statement; `InsertPatientEffect` states what it does. |
| Store.InsertPatientEffect | pipeline.py:114-117 | The statement raises if and only if PatientID cannot be bound. Otherwise it keeps every existing row and leaves the other tables alone. Its key set gains the PatientID exactly when that is not NULL. |
| Store.InsertStudy | pipeline.py:120-123 | The studies statement; `InsertStudyEffect` states what it does. |
| Store.InsertStudyEffect | pipeline.py:120-123 | The statement raises if and only if one of its three parameters cannot be bound. Otherwise it keeps every existing row and leaves the other tables alone. Its key set gains the StudyInstanceUID exactly when neither NOT NULL column is NULL. |
| Store.InsertSeries | pipeline.py:126-131 | The series statement; `InsertSeriesEffect` states what it does. |
| Store.InsertSeriesEffect | pipeline.py:126-131 | The statement raises if and only if one of the first three parameters cannot be bound. The stringified PixelSpacing and the path always bind. Otherwise it keeps every existing row and leaves the other tables alone. Its key set gains the SeriesInstanceUID exactly when neither NOT NULL identifier is NULL. |
| Store.InsertEntry | pipeline.py:112-131 | One loop iteration: patient, then study, then series, stopping at the first statement that raises. `InsertEntryEffect` states what it does. |
| Store.ApplyBatch | pipeline.py:111-131 | The statements of a whole batch, up to the first that raises. The batch lemmas below state what it does. |
| Store.InsertEntryEffect | pipeline.py:112-131 | One entry raises if and only if one of its values cannot be bound. Otherwise it inserts its patient, study and series rows when their keys are absent and not NULL. |
| Store.BatchFailsIff | pipeline.py:111-137 | A batch fails if and only if some entry has an unbindable value. Rows already in the tables play no part. |
| Store.BatchFailureSticks | pipeline.py:111-135 | Once an entry raises, the rest of the batch does not run. |
| Store.BatchKeepsRows | pipeline.py:114-131 | A committed batch keeps every existing row of every table unchanged. |
| Store.BatchKeys | pipeline.py:114-131 | After a committed batch, each table holds exactly its old keys plus the non-NULL keys the entries supplied. |
| Store.BatchPatientKeys | pipeline.py:114-117 | The same, for the patients table. |
| Store.BatchStudyKeys | pipeline.py:120-123 | The same, for the studies table. |
| Store.BatchSeriesKeys | pipeline.py:126-131 | The same, for the series table. |
| Store.FirstSeriesEntryWins | pipeline.py:126-131 | For a series key not yet stored, the first entry with that key decides the row, stringified PixelSpacing and FilePath included. Later duplicates are ignored. |
| Store.FirstStudyEntryWins | pipeline.py:120-123 | For a study key not yet stored, the first entry with that key decides the row's PatientID and StudyDate. |
| Store.AbsorbedBatch | pipeline.py:114-131 | A batch whose every row is already stored leaves the tables unchanged. |
| Store.BatchIdempotent | pipeline.py:111-134 | Running a committed batch again leaves the tables as the first run left them. |
| Store.AbsorbKeepsIntegrity | pipeline.py:112-131 | Inserting patient, then study, then series keeps every study's patient and every series' study stored, when PatientID is not NULL. |
| Store.BatchKeepsIntegrity | pipeline.py:111-134 | A committed batch keeps referential integrity when no entry has a NULL PatientID. |
| Store.DanglingSeriesWithNullPatientId | pipeline.py:83-97 | One entry with a NULL PatientID commits a series row whose study is missing. |
| Store.MetadataStore.Open | pipeline.py:66-105 | The tables are created only if absent, so an existing file keeps its rows, and that state is committed. |
| Store.MetadataStore.Commit | pipeline.py:134 | The committed state becomes the live tables. |
| Store.MetadataStore.Rollback | pipeline.py:137 | The live tables return to the last committed state. |
| Store.MetadataStore.InsertPatientRow | pipeline.py:114-117 | The patients table changes as `InsertPatient` says, or stays as it was and the error is returned. |
| Store.MetadataStore.InsertStudyRow | pipeline.py:120-123 | The studies table changes as `InsertStudy` says, or stays as it was and the error is returned. |
| Store.MetadataStore.InsertSeriesRow | pipeline.py:126-131 | The series table changes as `InsertSeries` says, or stays as it was and the error is returned. |
| Store.MetadataStore.InsertEntryRows | pipeline.py:112-131 | On success, the tables are `InsertEntry`'s result. On a raise, the error is returned and the tables hold exactly the rows of the statements that ran before it. Either way, every row that was there is kept. |
| Store.MetadataStore.InsertMetadata | pipeline.py:109-137 | On success, the live and committed tables are both `ApplyBatch`'s result. On failure, the error is reported and all three tables are back at the last commit. |
| Report.GenerateSummary | pipeline.py:144-164 | The three counts of the summary, with the average as an exact ratio. `AverageIsSlicesOverStudies` and `StudyCountWithinStudiesTable` state what they are. |
| Report.SumOfGroupSizesCountsRows | pipeline.py:156-163 | The `GROUP BY StudyInstanceUID` counts add up to the number of series rows of those studies. Each group has at least one row. |
| Report.AverageIsSlicesOverStudies | pipeline.py:147-164 | With series rows, there are between 1 and total_slices studies, and the average is exactly total_slices / total_studies. With none, all three figures are 0. |
| Report.StudyCountWithinStudiesTable | pipeline.py:148-149 | Under referential integrity, total_studies is at most the size of the studies table. |
| Report.RemoveFirstDot | pipeline.py:189 | `replace('.', '', 1)` drops exactly one character when the text has a `.`, and changes nothing otherwise. |
| Report.RemoveFirstDotAllDigits | pipeline.py:189 | After removing the first `.`, only digits remain if and only if the text is digits and points with at most one point. |
| Report.NumericFilterIsPlainDecimal | pipeline.py:189 | The filter passes a text if and only if it is an unsigned decimal numeral: digits, at most one point, at least one digit. |
| Report.NumericFilterExamples | pipeline.py:189 | `"1.5"` and `"2"` pass; `"1.2.3"`, `"-1"` and `""` do not. |
| Report.UnknownFailsNumericFilter | pipeline.py:188-189 | The sentinel `"Unknown"` never passes the filter. |
| Report.PassesNumericFilter | pipeline.py:189 | The line-189 test; `NumericFilterIsPlainDecimal` characterises it. |
| Report.PlottedCell | pipeline.py:188-189 | A non-NULL cell is plotted if and only if its text is an unsigned decimal numeral. |
| Report.PlottedThickness | pipeline.py:188-189 | The texts the histogram converts, in query order; `PlottedThicknessExact`, `PlottedThicknessCount`, `PlottedFromStore` and `PlottedCountFromStore` characterise them. |
| Report.PlottedThicknessExact | pipeline.py:188-189 | A text is plotted if and only if the column holds it and it is an unsigned decimal numeral. |
| Report.PlottedThicknessCount | pipeline.py:188-189 | Each unsigned decimal text is plotted exactly as many times as the column holds it; any other text never. |
| Report.ThicknessColumn | pipeline.py:188 | The SliceThickness column the query returns, taken in a given order of the row keys. `IsRowOrder` says when that order lists every row once; `ColumnCountsRows`, `PlottedFromStore` and `PlottedCountFromStore` give it meaning. |
| Report.ColumnCountsRows | pipeline.py:188 | For distinct stored keys, each cell occurs in the column exactly as often as there are rows among those keys holding it. |
| Report.PlottedFromStore | pipeline.py:188-189 | Whatever order the query returns the rows in, a text is plotted if and only if some stored series row holds it and it is an unsigned decimal numeral. |
| Report.PlottedCountFromStore | pipeline.py:188-189 | Whatever order the query returns the rows in, each unsigned decimal text is plotted once per stored series row holding it, and any other text never. |
| Report.SummaryThickness | pipeline.py:167-168 | The texts the summary converts: every non-NULL cell other than `"Unknown"`. `SummarySelectsUnfilteredText` contrasts it with the histogram. |
| Report.SummarySelectsUnfilteredText | pipeline.py:167-168 | The summary's query passes a text such as `"1.2.3"` to an unguarded `float()`, which the histogram's filter would reject. |

## Left out

- File-system effects are not modelled:
  - the `os.walk` traversal itself (its output is a parameter);
  - `os.makedirs`;
  - the actual `os.rename`, including overwriting on a name collision (`Organize.TargetCollision` states when that happens).

  Both calls are assumed to succeed. So `Organize.PlanFacts`' "raises if and only if some record's identifiers cannot be joined" leaves out their own errors, such as `FileExistsError` when a directory on the target path already exists as a file, or a missing source file.
- `pydicom.dcmread` is replaced by the `disk` map. `extract_metadata` reads each file again, and the model assumes the second read agrees with the first. Which element texts `pydicom` accepts as DS or IS is not modelled; the header says which elements are malformed.
- How SQLite renders a bound REAL as text (`"2.0"`, `"100.0"`, `"1.0e-05"`) is not computed. Each numeric value carries its stored text as given.
- `str()` of a multi-valued element is kept as an opaque text.
- `logging` calls, `print` output, and seaborn/matplotlib plotting are not modelled.
- The `__main__` orchestration is not modelled. Only the step from organizer to store is stated (`Pipeline.SeriesRowKeepsPreMovePath`). An uncaught TypeError from `organize_files` ends the script; the model reports it as `raised`.
- The SQL engine itself is not modelled: SQL text, DDL, indexes, and the never-written PatientName and PatientBirthDate columns (kept as NULL).
- The row order of a `SELECT` is a parameter (the `order` of `Report.ThicknessColumn`, any order of the rows).
- Floating point is not modelled:
  - `float()` conversion;
  - min, max and `np.mean` of the thickness values;
  - `:.2f` formatting.

  The average is an exact ratio.
- GenerateSummary: does not compute the SliceThickness min/max/mean line, since that needs floating point. An unguarded `float()` on a non-numeric text would raise there; `Report.SummarySelectsUnfilteredText` exhibits such a text.
- IsDigitString: models ASCII digits only, not Python's Unicode `str.isdigit`.
- BatchKeepsIntegrity (Store.BatchKeepsIntegrity): requires that no entry has a NULL PatientID. Without that, integrity does not hold (`Store.DanglingSeriesWithNullPatientId`).
- The source has no explicit size limits, and none are modelled; integers are unbounded.
