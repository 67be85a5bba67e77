/** `src/reader.rs`: the detected format picks exactly one table reader. The
    CSV and JSON readers are polars wrappers and stay abstract; the XML and
    spreadsheet readers are the modelled ones, fed from the file contents
    that `sources` yields for a path. */
module Reader {
  import opened Fallible
  import opened Paths
  import opened Faults
  import opened Formats
  import opened Frames
  import XmlReader
  import ExcelReader

  /** What the file system and the libraries yield for a path: the CSV and
      JSON readers' outcomes, the XML file's events (`None` if it cannot be
      opened), the workbook (`None` if it cannot be opened), and the
      spreadsheet library's opaque renderings. */
  datatype Sources = Sources(
    csv: Path -> Result<DataFrame, Fault>,
    json: Path -> Result<DataFrame, Fault>,
    xml: Path -> Option<XmlReader.XmlFile>,
    workbook: Path -> Option<ExcelReader.Workbook>,
    formats: ExcelReader.CellFormats)

  /** Every XML file's key orders describe the records it parses to. */
  ghost predicate Coherent(src: Sources) {
    forall p :: XmlReader.Fits(src.xml(p))
  }

  /** The reader each format dispatches to. */
  datatype ReaderKind = CsvRead | JsonRead | XmlRead | ExcelRead

  /** The `match` of `read_file`. */
  function ReaderFor(f: FileFormat): (k: ReaderKind)
    ensures k == CsvRead <==> f == Csv
    ensures k == JsonRead <==> f == Json
    ensures k == XmlRead <==> f == Xml
    ensures k == ExcelRead <==> f in {Xls, Xlsx, Ods}
  {
    match f
    case Csv => CsvRead
    case Json => JsonRead
    case Xml => XmlRead
    case Xls | Xlsx | Ods => ExcelRead
  }

  /** Runs one reader on a path; only the spreadsheet reader sees the sheet. */
  function RunReader(src: Sources, k: ReaderKind, path: Path, sheet: Option<string>): Result<DataFrame, Fault>
    requires Coherent(src)
  {
    match k
    case CsvRead => src.csv(path)
    case JsonRead => src.json(path)
    case XmlRead => XmlReader.Read(src.xml(path))
    case ExcelRead => ExcelReader.Read(src.workbook(path), sheet, src.formats)
  }

  /** `read_file`. */
  function ReadFile(src: Sources, path: Path, sheet: Option<string>): (r: Result<DataFrame, Fault>)
    requires Coherent(src)
    ensures FromPath(path).None? ==> r == Err(UnsupportedFormat(Extension(path)))
    ensures FromPath(path).Some? ==> r == RunReader(src, ReaderFor(FromPath(path).value), path, sheet)
  {
    match FromPath(path)
    case None => Err(UnsupportedFormat(Extension(path)))
    case Some(f) =>
      match f
      case Csv => src.csv(path)
      case Json => src.json(path)
      case Xml => XmlReader.Read(src.xml(path))
      case Xls | Xlsx | Ods => ExcelReader.Read(src.workbook(path), sheet, src.formats)
  }

  /** The sheet argument matters only to spreadsheets: for CSV, JSON and XML
      the outcome is the same whatever sheet is asked for. */
  lemma SheetIgnoredOutsideSpreadsheets(src: Sources, path: Path, s: Option<string>, t: Option<string>)
    requires Coherent(src)
    requires FromPath(path).Some? && ReaderFor(FromPath(path).value) != ExcelRead
    ensures ReadFile(src, path, s) == ReadFile(src, path, t)
  {
  }

  /** Xls, Xlsx and Ods all reach the spreadsheet reader, with the sheet
      passed unchanged. */
  lemma SpreadsheetsGetTheSheet(src: Sources, path: Path, sheet: Option<string>)
    requires Coherent(src)
    requires FromPath(path) in {Some(Xls), Some(Xlsx), Some(Ods)}
    ensures ReadFile(src, path, sheet) == ExcelReader.Read(src.workbook(path), sheet, src.formats)
  {
  }
}
