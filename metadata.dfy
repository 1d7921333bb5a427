/** The values a DICOM header hands back, and the flat metadata record the
    extractor builds from them. */
module Metadata {

  /** A header element's value as `pydicom` returns it. */
  datatype Value =
    | Str(s: string)        // a text element (LO, UI, DA, ...), or the "Unknown" default
    | Number(text: string, stored: string)
      // a single numeric element (DS, IS): `text` is the element's own decimal
      // string, which `str()` returns; `stored` is what a TEXT column keeps once
      // the driver has bound the number as REAL or INTEGER ("2" is kept as "2.0")
    | Empty                 // Python None: a numeric element present without a value
    | Multi(text: string)   // a multi-valued element; `text` is what `str()` makes of it

  /** A header element as the parsed file holds it. `pydicom` converts an
      element's text only when the element is read, so a malformed numeric
      string (a DS of "1.2.3") survives parsing and raises on access. */
  datatype Element = Parsed(value: Value) | Malformed(raw: string)

  /** A parsed header: element keyword to element; a missing key is a missing element. */
  type Header = map<string, Element>

  /** Reading the element `key` does not raise. */
  predicate Readable(h: Header, key: string) {
    key in h ==> h[key].Parsed?
  }

  /** The sentinel stored for every element a header lacks. */
  const Unknown: Value := Str("Unknown")

  /** The six header elements read for every file. */
  const HeaderFields: set<string> :=
    {"PatientID", "StudyInstanceUID", "SeriesInstanceUID", "SliceThickness", "PixelSpacing", "StudyDate"}

  /** One file's metadata, as the extractor's dictionary holds it. */
  datatype MetadataRecord = MetadataRecord(
    patientId: Value,
    studyUid: Value,
    seriesUid: Value,
    sliceThickness: Value,
    pixelSpacing: Value,
    studyDate: Value,
    filePath: string)

  /** `ds.get(key, 'Unknown')`. */
  function Get(h: Header, key: string): Value
    requires Readable(h, key)
  {
    if key in h then h[key].value else Unknown
  }

  /** Python's `str(v)`. */
  function PyStr(v: Value): string {
    match v
    case Str(s) => s
    case Number(t, _) => t
    case Empty => "None"
    case Multi(t) => t
  }

  /** The record as the Python dictionary the extractor appends, keyed by
      the element keywords and "FilePath". */
  function AsDict(r: MetadataRecord): map<string, Value> {
    map[
      "PatientID" := r.patientId,
      "StudyInstanceUID" := r.studyUid,
      "SeriesInstanceUID" := r.seriesUid,
      "SliceThickness" := r.sliceThickness,
      "PixelSpacing" := r.pixelSpacing,
      "StudyDate" := r.studyDate,
      "FilePath" := Str(r.filePath)]
  }
}
